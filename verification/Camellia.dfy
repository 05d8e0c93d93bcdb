/** cipher/camellia.c: key setup with absorbed whitening keys, encryption, decryption. */
module Camellia {
  import opened Rfc3713
  import Bits = CamelliaBits
  import opened CamelliaMacros
  import opened CamelliaRounds

  // ---- decryption undoes encryption, whatever the table holds ----

  function SixDown(f: Half -> Half, st: State, t: seq<Half>, b: nat): State
    requires b + 6 <= |t|
  {
    TwoSm(f, TwoSm(f, TwoSm(f, st, t[b + 5], t[b + 4]), t[b + 3], t[b + 2]), t[b + 1], t[b])
  }

  /** The groups n-1, ..., 0 of camellia_decrypt128/256. */
  function GroupsDown(f: Half -> Half, t: seq<Half>, n: nat, st: State): State
    requires 1 <= n && 8 * n <= |t|
  {
    if n == 1 then SixDown(f, st, t, 2)
    else GroupsDown(f, t, n - 1, FLLayer(SixDown(f, st, t, 8 * n - 6), t[8 * n - 7], t[8 * n - 8]))
  }

  function DecryptSm(f: Half -> Half, t: seq<Half>, groups: nat, c: State): State
    requires 1 <= groups && |t| == 8 * groups + 1
  {
    var d := GroupsDown(f, t, groups, State(Xor(c.d1, t[8 * groups]), c.d2));
    State(Xor(d.d2, t[0]), d.d1)
  }

  function Swap(st: State): State {
    State(st.d2, st.d1)
  }

  lemma RoundTwice(f: Half -> Half, x: Half, k: Half, y: Half)
    ensures RoundSm(f, x, k, RoundSm(f, x, k, y)) == y
  {
    hide Xor;
    var v := f(x);
    XorSwap(Xor(Xor(y, k), v), k, v);
    XorCancel(Xor(y, k), v);
    XorCancel(y, k);
  }

  lemma TwoUndone(f: Half -> Half, st: State, ka: Half, kb: Half)
    ensures TwoSm(f, Swap(TwoSm(f, st, ka, kb)), kb, ka) == Swap(st)
  {
    hide Xor, RoundSm;
    var d2 := RoundSm(f, st.d1, ka, st.d2);
    RoundTwice(f, d2, kb, st.d1);
    RoundTwice(f, st.d1, ka, st.d2);
  }

  lemma SixUndone(f: Half -> Half, st: State, t: seq<Half>, b: nat)
    requires b + 6 <= |t|
    ensures SixDown(f, Swap(SixSm(f, st, t, b)), t, b) == Swap(st)
  {
    hide Xor, RoundSm, TwoSm, Swap;
    var s2 := TwoSm(f, st, t[b], t[b + 1]);
    var s4 := TwoSm(f, s2, t[b + 2], t[b + 3]);
    TwoUndone(f, s4, t[b + 4], t[b + 5]);
    TwoUndone(f, s2, t[b + 2], t[b + 3]);
    TwoUndone(f, st, t[b], t[b + 1]);
  }

  lemma LayerUndone(st: State, ka: Half, kb: Half)
    ensures FLLayer(Swap(FLLayer(st, ka, kb)), kb, ka) == Swap(st)
  {
    hide FL, FLInv;
    FlInverse(st.d1, ka);
    FlInverse(st.d2, kb);
  }

  lemma {:induction false} GroupsUndone(f: Half -> Half, t: seq<Half>, n: nat, st: State)
    requires 1 <= n && 8 * n <= |t|
    ensures GroupsDown(f, t, n, Swap(GroupsSm(f, t, n, st))) == Swap(st)
  {
    hide FLLayer, SixSm, SixDown, Swap;
    if n == 1 {
      SixUndone(f, st, t, 2);
    } else {
      var before := GroupsSm(f, t, n - 1, st);
      SixUndone(f, FLLayer(before, t[8 * n - 8], t[8 * n - 7]), t, 8 * n - 6);
      LayerUndone(before, t[8 * n - 8], t[8 * n - 7]);
      GroupsUndone(f, t, n - 1, st);
    }
  }

  lemma DecryptInvertsEncrypt(f: Half -> Half, t: seq<Half>, groups: nat, m: State)
    requires 1 <= groups && |t| == 8 * groups + 1
    ensures DecryptSm(f, t, groups, EncryptSm(f, t, groups, m)) == m
  {
    hide Xor, GroupsSm, GroupsDown;
    var st := State(Xor(m.d1, t[0]), m.d2);
    var d := GroupsSm(f, t, groups, st);
    XorCancel(d.d2, t[8 * groups]);
    GroupsUndone(f, t, groups, st);
    XorCancel(m.d1, t[0]);
  }

  // ---- the code: one Half per pair of words, blocks as two of them ----

  method RoundSmStep(s: SBoxes, ghost f: Half -> Half, x: Half, k: Half, y: Half) returns (r: Half)
    requires forall z {:trigger SP(s, z)} :: f(z) == SP(s, z)
    ensures r == RoundSm(f, x, k, y)
  {
    hide Xor, SP, SPLayer;
    SPLayerIsRfc(s, x);
    r := Xor(Xor(y, k), SPLayer(s, x));
  }

  /** subl(i) ^= c, subl(i+2) ^= c, subl(i+4) ^= c, and the same for subr. */
  method XorThree(sub0: seq<Half>, i: nat, c: Half) returns (sub: seq<Half>)
    requires i + 4 < |sub0|
    ensures |sub| == |sub0|
    ensures sub[i] == Xor(sub0[i], c) && sub[i + 2] == Xor(sub0[i + 2], c) && sub[i + 4] == Xor(sub0[i + 4], c)
    ensures forall j | 0 <= j < |sub| && j != i && j != i + 2 && j != i + 4 :: sub[j] == sub0[j]
  {
    sub := sub0[i := Xor(sub0[i], c)][i + 2 := Xor(sub0[i + 2], c)][i + 4 := Xor(sub0[i + 4], c)];
  }

  method XorOne(sub0: seq<Half>, i: nat, c: Half) returns (sub: seq<Half>)
    requires i < |sub0|
    ensures |sub| == |sub0| && sub[i] == Xor(sub0[i], c)
    ensures forall j | 0 <= j < |sub| && j != i :: sub[j] == sub0[j]
  {
    sub := sub0[i := Xor(sub0[i], c)];
  }

  lemma AllAbsorbed(ks: Keys, groups: nat, sub: seq<Half>)
    requires Shape(ks, groups) && |sub| == 8 * groups + 2 && 3 <= groups <= 4
    requires sub[0] == Xor(ks.kw1, Carried1(ks, groups, 0))
    requires sub[8 * groups] == Xor(ks.kw3, Carried2(ks, groups, groups - 1))
    requires AbsorbedGroup(ks, groups, sub, 0) && AbsorbedGroup(ks, groups, sub, 1) && AbsorbedGroup(ks, groups, sub, 2)
    requires groups == 4 ==> AbsorbedGroup(ks, groups, sub, 3)
    ensures Absorbed(ks, groups, sub)
  {
    hide AbsorbedGroup, Xor;
    forall g | 0 <= g < groups
      ensures AbsorbedGroup(ks, groups, sub, g)
    {
      assert g == 0 || g == 1 || g == 2 || g == 3;
    }
  }

  /** Both absorption passes over subL/subR. */
  method AbsorbKeys128(ghost ks: Keys, flat: seq<Half>) returns (sub: seq<Half>)
    requires Flat(ks, 3, flat)
    ensures Absorbed(ks, 3, sub)
  {
    hide Xor, Absorb;
    sub := flat;
    assert FlatGroup(ks, 3, sub, 0);
    assert FlatGroup(ks, 3, sub, 1);
    assert FlatGroup(ks, 3, sub, 2);
    // absorb kw2 into the other subkeys
    var kw2 := sub[1];
    assert kw2 == Carried2(ks, 3, 0);
    sub := XorThree(sub, 3, kw2);
    kw2 := Absorb(kw2, sub[9]);
    assert kw2 == Carried2(ks, 3, 1);
    sub := XorThree(sub, 11, kw2);
    kw2 := Absorb(kw2, sub[17]);
    assert kw2 == Carried2(ks, 3, 2);
    sub := XorThree(sub, 19, kw2);
    sub := XorOne(sub, 24, kw2);
    // absorb kw4 into the other subkeys
    var kw4 := sub[25];
    assert kw4 == Carried1(ks, 3, 2);
    sub := XorThree(sub, 18, kw4);
    kw4 := Absorb(kw4, sub[16]);
    assert kw4 == Carried1(ks, 3, 1);
    sub := XorThree(sub, 10, kw4);
    kw4 := Absorb(kw4, sub[8]);
    assert kw4 == Carried1(ks, 3, 0);
    sub := XorThree(sub, 2, kw4);
    sub := XorOne(sub, 0, kw4);
    assert AbsorbedGroup(ks, 3, sub, 0);
    assert AbsorbedGroup(ks, 3, sub, 1);
    assert AbsorbedGroup(ks, 3, sub, 2);
    AllAbsorbed(ks, 3, sub);
  }

  /** Both absorption passes over subL/subR. */
  method AbsorbKeys256(ghost ks: Keys, flat: seq<Half>) returns (sub: seq<Half>)
    requires Flat(ks, 4, flat)
    ensures Absorbed(ks, 4, sub)
  {
    hide Xor, Absorb;
    sub := flat;
    assert FlatGroup(ks, 4, sub, 0);
    assert FlatGroup(ks, 4, sub, 1);
    assert FlatGroup(ks, 4, sub, 2);
    assert FlatGroup(ks, 4, sub, 3);
    // absorb kw2 into the other subkeys
    var kw2 := sub[1];
    assert kw2 == Carried2(ks, 4, 0);
    sub := XorThree(sub, 3, kw2);
    kw2 := Absorb(kw2, sub[9]);
    assert kw2 == Carried2(ks, 4, 1);
    sub := XorThree(sub, 11, kw2);
    kw2 := Absorb(kw2, sub[17]);
    assert kw2 == Carried2(ks, 4, 2);
    sub := XorThree(sub, 19, kw2);
    kw2 := Absorb(kw2, sub[25]);
    assert kw2 == Carried2(ks, 4, 3);
    sub := XorThree(sub, 27, kw2);
    sub := XorOne(sub, 32, kw2);
    // absorb kw4 into the other subkeys
    var kw4 := sub[33];
    assert kw4 == Carried1(ks, 4, 3);
    sub := XorThree(sub, 26, kw4);
    kw4 := Absorb(kw4, sub[24]);
    assert kw4 == Carried1(ks, 4, 2);
    sub := XorThree(sub, 18, kw4);
    kw4 := Absorb(kw4, sub[16]);
    assert kw4 == Carried1(ks, 4, 1);
    sub := XorThree(sub, 10, kw4);
    kw4 := Absorb(kw4, sub[8]);
    assert kw4 == Carried1(ks, 4, 0);
    sub := XorThree(sub, 2, kw4);
    sub := XorOne(sub, 0, kw4);
    assert AbsorbedGroup(ks, 4, sub, 0);
    assert AbsorbedGroup(ks, 4, sub, 1);
    assert AbsorbedGroup(ks, 4, sub, 2);
    assert AbsorbedGroup(ks, 4, sub, 3);
    AllAbsorbed(ks, 4, sub);
  }


  lemma AllStored(groups: nat, sub: seq<Half>, t: seq<Half>)
    requires 3 <= groups <= 4 && |sub| == 8 * groups + 2 && |t| == 8 * groups + 1
    requires t[0] == Xor(sub[0], sub[2]) && t[8 * groups] == Xor(sub[8 * groups], sub[8 * groups - 1])
    requires StoredGroup(groups, sub, t, 0) && StoredGroup(groups, sub, t, 1) && StoredGroup(groups, sub, t, 2)
    requires groups == 4 ==> StoredGroup(groups, sub, t, 3)
    ensures Stored(groups, sub, t)
  {
    hide StoredGroup, Xor;
    forall g | 0 <= g < groups
      ensures StoredGroup(groups, sub, t, g)
    {
      assert g == 0 || g == 1 || g == 2 || g == 3;
    }
  }

  /** The entries of group g, appended to those already stored. */
  method StoreGroup(groups: nat, sub: seq<Half>, g: nat, stored: seq<Half>) returns (t: seq<Half>)
    requires g < groups && |sub| == 8 * groups + 2 && |stored| == 8 * g + 2
    ensures |t| == (if g == groups - 1 then 8 * g + 8 else 8 * g + 10) && stored <= t
    ensures StoredGroup(groups, sub, t, g)
  {
    hide Xor, Absorb;
    var b := 8 * g;
    var first := sub[3];
    if g > 0 {
      first := Absorb(sub[b - 1], sub[b + 1]);
      first := Xor(first, sub[b + 3]);
    }
    t := stored + [first, Xor(sub[b + 2], sub[b + 4]), Xor(sub[b + 3], sub[b + 5]),
                   Xor(sub[b + 4], sub[b + 6]), Xor(sub[b + 5], sub[b + 7])];
    if g == groups - 1 {
      t := t + [sub[b + 6]];
    } else {
      var last := Absorb(sub[b + 10], sub[b + 8]);
      t := t + [Xor(sub[b + 6], last), sub[b + 8], sub[b + 9]];
    }
  }

  lemma StoredPrefix(groups: nat, sub: seq<Half>, t: seq<Half>, longer: seq<Half>, g: nat)
    requires |sub| == 8 * groups + 2 && g < groups && |t| >= (if g == groups - 1 then 8 * g + 8 else 8 * g + 10)
    requires t <= longer && StoredGroup(groups, sub, t, g)
    ensures StoredGroup(groups, sub, longer, g)
  {
    hide Xor, Absorb;
  }

  /** The last pass, "key XOR is end of F-function".  Entry 1 of the table is never read. */
  method StoreKeys128(sub: seq<Half>) returns (subkey: seq<Half>)
    requires |sub| == 26
    ensures Stored(3, sub, subkey)
  {
    hide Xor, Absorb, StoredGroup;
    var head := [Xor(sub[0], sub[2]), Half(0)];
    var t0 := StoreGroup(3, sub, 0, head);
    var t1 := StoreGroup(3, sub, 1, t0);
    var t2 := StoreGroup(3, sub, 2, t1);
    subkey := t2 + [Xor(sub[24], sub[23])];
    StoredPrefix(3, sub, t0, subkey, 0);
    StoredPrefix(3, sub, t1, subkey, 1);
    StoredPrefix(3, sub, t2, subkey, 2);
    AllStored(3, sub, subkey);
  }

  method StoreKeys256(sub: seq<Half>) returns (subkey: seq<Half>)
    requires |sub| == 34
    ensures Stored(4, sub, subkey)
  {
    hide Xor, Absorb, StoredGroup;
    var head := [Xor(sub[0], sub[2]), Half(0)];
    var t0 := StoreGroup(4, sub, 0, head);
    var t1 := StoreGroup(4, sub, 1, t0);
    var t2 := StoreGroup(4, sub, 2, t1);
    var t3 := StoreGroup(4, sub, 3, t2);
    subkey := t3 + [Xor(sub[32], sub[31])];
    StoredPrefix(4, sub, t0, subkey, 0);
    StoredPrefix(4, sub, t1, subkey, 1);
    StoredPrefix(4, sub, t2, subkey, 2);
    StoredPrefix(4, sub, t3, subkey, 3);
    AllStored(4, sub, subkey);
  }

  // ---- generation of the subkeys ----

  /** The first n groups of subL/subR, generated one after the other. */
  ghost predicate FlatBelow(ks: Keys, groups: nat, sub: seq<Half>, n: nat) {
    && Shape(ks, groups) && n <= groups
    && |sub| == (if n == groups then 8 * n else 8 * n + 2)
    && sub[0] == ks.kw1 && sub[1] == ks.kw2
    && (forall g | 0 <= g < n :: FlatGroup(ks, groups, sub, g))
  }

  lemma FlatPrefix(ks: Keys, groups: nat, sub: seq<Half>, rest: seq<Half>, g: nat)
    requires Shape(ks, groups) && g < groups && |sub| >= (if g == groups - 1 then 8 * g + 8 else 8 * g + 10)
    requires FlatGroup(ks, groups, sub, g)
    ensures FlatGroup(ks, groups, sub + rest, g)
  {
  }

  lemma FlatRow(ks: Keys, groups: nat, sub: seq<Half>, g: nat, row: seq<Half>)
    requires Shape(ks, groups) && g < groups && |sub| == 8 * g + 2
    requires row == ks.k[6 * g..6 * g + 6] + if g == groups - 1 then [] else ks.ke[2 * g..2 * g + 2]
    ensures FlatGroup(ks, groups, sub + row, g)
  {
  }

  lemma FlatStart(ks: Keys, groups: nat)
    requires Shape(ks, groups)
    ensures FlatBelow(ks, groups, [ks.kw1, ks.kw2], 0)
  {
  }

  lemma FlatAppend(ks: Keys, groups: nat, sub: seq<Half>, g: nat, row: seq<Half>)
    requires g < groups && FlatBelow(ks, groups, sub, g)
    requires row == ks.k[6 * g..6 * g + 6] + if g == groups - 1 then [] else ks.ke[2 * g..2 * g + 2]
    ensures FlatBelow(ks, groups, sub + row, g + 1)
  {
    hide FlatGroup;
    forall h | 0 <= h < g + 1
      ensures FlatGroup(ks, groups, sub + row, h)
    {
      if h < g {
        FlatPrefix(ks, groups, sub, row, h);
      } else {
        FlatRow(ks, groups, sub, g, row);
      }
    }
  }

  lemma FlatEnd(ks: Keys, groups: nat, sub: seq<Half>)
    requires FlatBelow(ks, groups, sub, groups)
    ensures Flat(ks, groups, sub + [ks.kw3, ks.kw4])
  {
    hide FlatGroup;
    forall g | 0 <= g < groups
      ensures FlatGroup(ks, groups, sub + [ks.kw3, ks.kw4], g)
    {
      FlatPrefix(ks, groups, sub, [ks.kw3, ks.kw4], g);
    }
  }

  lemma XorFrontCancel(a: Half, b: Half)
    ensures Xor(Xor(a, b), a) == b
  {
    hide Xor;
    XorCommutes(a, b);
    XorCancel(b, a);
  }

  lemma XorZero(a: bv128)
    ensures Xor(Hi(a), Hi(0)) == Hi(a) && Xor(Lo(a), Lo(0)) == Lo(a)
  {
  }

  /** CAMELLIA_F. */
  method FStep(s: SBoxes, ghost f: Half -> Half, x: Half, k: Half) returns (y: Half)
    requires forall z {:trigger SP(s, z)} :: f(z) == SP(s, z)
    ensures y == f(Xor(x, k))
  {
    hide Xor, SP, SPLayer;
    SPLayerIsRfc(s, Xor(x, k));
    y := SPLayer(s, Xor(x, k));
  }

  /** "generate KA" of camellia_setup128. */
  method GenerateKA128(s: SBoxes, ghost f: Half -> Half, kl: bv128) returns (ka: bv128)
    requires forall z {:trigger SP(s, z)} :: f(z) == SP(s, z)
    ensures ka == KA(f, kl, 0)
  {
    hide Xor, SP, SPLayer, Hi, Lo, Join;
    var hi, lo := Hi(kl), Lo(kl);
    var w := FStep(s, f, hi, SIGMA1);
    lo := Xor(lo, w);
    hi := FStep(s, f, lo, SIGMA2);
    lo := FStep(s, f, hi, SIGMA3);
    lo := Xor(lo, w);
    ghost var w0 := w;
    w := FStep(s, f, lo, SIGMA4);
    hi := Xor(hi, w);
    ka := Join(hi, lo);
    XorZero(kl);
    XorFrontCancel(Lo(kl), w0);
    XorFrontCancel(Hi(kl), f(Xor(Xor(Lo(kl), w0), SIGMA2)));
    XorCommutes(w0, f(Xor(f(Xor(Xor(Lo(kl), w0), SIGMA2)), SIGMA3)));
  }

  /** "generate KA" of camellia_setup256. */
  method GenerateKA256(s: SBoxes, ghost f: Half -> Half, kl: bv128, kr: bv128) returns (ka: bv128)
    requires forall z {:trigger SP(s, z)} :: f(z) == SP(s, z)
    ensures ka == KA(f, kl, kr)
  {
    hide Xor, SP, SPLayer, Hi, Lo, Join;
    var hi, lo := Xor(Hi(kl), Hi(kr)), Xor(Lo(kl), Lo(kr));
    var w := FStep(s, f, hi, SIGMA1);
    lo := Xor(lo, w);
    hi := FStep(s, f, lo, SIGMA2);
    ghost var f2 := hi;
    hi := Xor(hi, Hi(kr));
    lo := FStep(s, f, hi, SIGMA3);
    ghost var f3 := lo;
    lo := Xor(lo, Xor(w, Lo(kr)));
    ghost var w0 := w;
    w := FStep(s, f, lo, SIGMA4);
    hi := Xor(hi, w);
    ka := Join(hi, lo);
    XorDropFirst(Hi(kl), Hi(kr), f2);
    XorDropFirst(Lo(kl), Lo(kr), w0);
    XorCommutes(Xor(w0, Lo(kr)), f3);
  }

  lemma XorDropFirst(a: Half, b: Half, c: Half)
    ensures Xor(Xor(Xor(a, b), c), a) == Xor(c, b)
  {
    hide Xor;
    XorAssociates(a, b, c);
    XorFrontCancel(a, Xor(b, c));
    XorCommutes(b, c);
  }

  /** "generate KB" of camellia_setup256. */
  method GenerateKB(s: SBoxes, ghost f: Half -> Half, ka: bv128, kr: bv128) returns (kb: bv128)
    requires forall z {:trigger SP(s, z)} :: f(z) == SP(s, z)
    ensures kb == KB(f, ka, kr)
  {
    hide Xor, SP, SPLayer, Hi, Lo, Join;
    var hi, lo := Xor(Hi(kr), Hi(ka)), Xor(Lo(kr), Lo(ka));
    XorCommutes(Hi(kr), Hi(ka));
    XorCommutes(Lo(kr), Lo(ka));
    var w := FStep(s, f, hi, SIGMA5);
    lo := Xor(lo, w);
    w := FStep(s, f, lo, SIGMA6);
    hi := Xor(hi, w);
    kb := Join(hi, lo);
  }

  /** The left half of camellia_setup128: subL/subR before absorption.  The source reuses
      one register where each rotated value has a name here. */
  method Generate128(s: SBoxes, ghost f: Half -> Half, kl: bv128) returns (sub: seq<Half>)
    requires forall z {:trigger SP(s, z)} :: f(z) == SP(s, z)
    ensures Flat(Schedule128(f, kl), 3, sub)
  {
    hide Xor, SP, SPLayer, Hi, Lo, Join, Rot, Bits.RolDq, Bits.RolDqo32, FlatBelow, KA;
    var kl15 := Bits.RolDq(kl, 15);
    var kl45 := Bits.RolDq(kl15, 30);
    var kl60 := Bits.RolDq(kl45, 15);
    var kl77 := Bits.RolDq(kl60, 17);
    var kl94 := Bits.RolDq(kl77, 17);
    var kl111 := Bits.RolDq(kl94, 17);
    Rotations128KL(kl);
    var ka := GenerateKA128(s, f, kl);
    var ka15 := Bits.RolDq(ka, 15);
    var ka30 := Bits.RolDq(ka15, 15);
    var ka45 := Bits.RolDq(ka30, 15);
    var ka60 := Bits.RolDq(ka45, 15);
    var ka94 := Bits.RolDqo32(ka60, 34);
    var ka111 := Bits.RolDq(ka94, 17);
    Rotations128KA(ka);
    ghost var ks := Schedule128(f, kl);
    sub := [Hi(kl), Lo(kl)];
    Slices3(ks, [Hi(ka), Lo(ka), Hi(kl15), Lo(kl15), Hi(ka15), Lo(ka15)],
            [Hi(kl45), Lo(kl45), Hi(ka45), Lo(kl60), Hi(ka60), Lo(ka60)],
            [Hi(kl94), Lo(kl94), Hi(ka94), Lo(ka94), Hi(kl111), Lo(kl111)],
            [Hi(ka30), Lo(ka30)], [Hi(kl77), Lo(kl77)]);
    FlatStart(ks, 3);
    var row := [Hi(ka), Lo(ka), Hi(kl15), Lo(kl15), Hi(ka15), Lo(ka15)] + [Hi(ka30), Lo(ka30)];
    FlatAppend(ks, 3, sub, 0, row);
    sub := sub + row;
    row := [Hi(kl45), Lo(kl45), Hi(ka45), Lo(kl60), Hi(ka60), Lo(ka60)] + [Hi(kl77), Lo(kl77)];
    FlatAppend(ks, 3, sub, 1, row);
    sub := sub + row;
    row := [Hi(kl94), Lo(kl94), Hi(ka94), Lo(ka94), Hi(kl111), Lo(kl111)] + [];
    FlatAppend(ks, 3, sub, 2, row);
    sub := sub + row;
    FlatEnd(ks, 3, sub);
    sub := sub + [Hi(ka111), Lo(ka111)];
  }

  lemma Slices3(ks: Keys, r0: seq<Half>, r1: seq<Half>, r2: seq<Half>, e0: seq<Half>, e1: seq<Half>)
    requires |r0| == |r1| == |r2| == 6 && |e0| == |e1| == 2
    requires ks.k == r0 + r1 + r2 && ks.ke == e0 + e1
    ensures Shape(ks, 3)
    ensures ks.k[0..6] == r0 && ks.k[6..12] == r1 && ks.k[12..18] == r2
    ensures ks.ke[0..2] == e0 && ks.ke[2..4] == e1
  {
  }

  lemma Rotations128KL(kl: bv128)
    ensures
      var kl15 := Bits.RolDq(kl, 15);
      var kl45 := Bits.RolDq(kl15, 30);
      var kl60 := Bits.RolDq(kl45, 15);
      var kl77 := Bits.RolDq(kl60, 17);
      var kl94 := Bits.RolDq(kl77, 17);
      && kl15 == Rot(kl, 15) && kl45 == Rot(kl, 45) && kl60 == Rot(kl, 60) && kl77 == Rot(kl, 77)
      && kl94 == Rot(kl, 94) && Bits.RolDq(kl94, 17) == Rot(kl, 111)
  {
    hide Rot, Bits.RolDq;
    Bits.RolDqIsRot(kl);
    Bits.RolDqIsRot(Rot(kl, 15));
    Bits.RolDqIsRot(Rot(kl, 45));
    Bits.RolDqIsRot(Rot(kl, 60));
    Bits.RolDqIsRot(Rot(kl, 77));
    Bits.RolDqIsRot(Rot(kl, 94));
    Bits.Rot15By30(kl);
    Bits.Rot45By15(kl);
    Bits.Rot60By17(kl);
    Bits.Rot77By17(kl);
    Bits.Rot94By17(kl);
  }

  lemma Rotations128KA(ka: bv128)
    ensures
      var ka15 := Bits.RolDq(ka, 15);
      var ka30 := Bits.RolDq(ka15, 15);
      var ka45 := Bits.RolDq(ka30, 15);
      var ka60 := Bits.RolDq(ka45, 15);
      var ka94 := Bits.RolDqo32(ka60, 34);
      && ka15 == Rot(ka, 15) && ka30 == Rot(ka, 30) && ka45 == Rot(ka, 45) && ka60 == Rot(ka, 60)
      && ka94 == Rot(ka, 94) && Bits.RolDq(ka94, 17) == Rot(ka, 111)
  {
    hide Rot, Bits.RolDq, Bits.RolDqo32;
    Bits.RolDqIsRot(ka);
    Bits.RolDqIsRot(Rot(ka, 15));
    Bits.RolDqIsRot(Rot(ka, 30));
    Bits.RolDqIsRot(Rot(ka, 45));
    Bits.RolDqo32IsRot(Rot(ka, 60));
    Bits.RolDqIsRot(Rot(ka, 94));
    Bits.Rot15By15(ka);
    Bits.Rot30By15(ka);
    Bits.Rot45By15(ka);
    Bits.Rot60By34(ka);
    Bits.Rot94By17(ka);
  }

  lemma MiddleHalves(x: bv128)
    ensures Half(Bits.MiddleWords(x)) == Hi(Rot(x, 32))
    ensures Half(Bits.OuterWords(x)) == Lo(Rot(x, 32))
  {
    hide Bits.MiddleWords, Bits.OuterWords;
    Bits.MiddleIsRot(x);
    assert Rot(x, 32) == (x << 32) | (x >> 96);
  }

  /** The left half of camellia_setup256. */
  method Generate256(s: SBoxes, ghost f: Half -> Half, kl: bv128, kr: bv128) returns (sub: seq<Half>)
    requires forall z {:trigger SP(s, z)} :: f(z) == SP(s, z)
    ensures Flat(Schedule256(f, kl, kr), 4, sub)
  {
    hide Xor, SP, SPLayer, Hi, Lo, Join, Rot, Bits.RolDq, Bits.RolDqo32, FlatBelow, KA, KB, Bits.MiddleWords, Bits.OuterWords;
    var kl45 := Bits.RolDqo32(kl, 45);
    var kl60 := Bits.RolDq(kl45, 15);
    var kl77 := Bits.RolDq(kl60, 17);
    var kl111 := Bits.RolDqo32(kl77, 34);
    Rotations256KL(kl);
    var kr15 := Bits.RolDq(kr, 15);
    var kr30 := Bits.RolDq(kr15, 15);
    var kr60 := Bits.RolDq(kr30, 30);
    var kr94 := Bits.RolDqo32(kr60, 34);
    var kr128 := Bits.RolDqo32(kr94, 34);
    Rotations256KR(kr);
    var ka := GenerateKA256(s, f, kl, kr128);
    var kb := GenerateKB(s, f, ka, kr128);
    var ka15 := Bits.RolDq(ka, 15);
    var ka45 := Bits.RolDq(ka15, 30);
    var ka94 := Bits.RolDqo32(ka45, 49);
    Rotations256KA(ka);
    var kb30 := Bits.RolDq(kb, 30);
    var kb60 := Bits.RolDq(kb30, 30);
    var kb111 := Bits.RolDqo32(kb60, 51);
    Rotations256KB(kb);
    ghost var ks := Schedule256(f, kl, kr);
    sub := [Hi(kl), Lo(kl)];
    Slices4(ks, [Hi(kb), Lo(kb), Hi(kr15), Lo(kr15), Hi(ka15), Lo(ka15)],
            [Hi(kb30), Lo(kb30), Hi(kl45), Lo(kl45), Hi(ka45), Lo(ka45)],
            [Hi(kr60), Lo(kr60), Hi(kb60), Lo(kb60), Hi(kl77), Lo(kl77)],
            [Hi(kr94), Lo(kr94), Hi(ka94), Lo(ka94), Hi(kl111), Lo(kl111)],
            [Hi(kr30), Lo(kr30)], [Hi(kl60), Lo(kl60)],
            [Half(Bits.MiddleWords(ka45)), Half(Bits.OuterWords(ka45))]);
    FlatStart(ks, 4);
    var row := [Hi(kb), Lo(kb), Hi(kr15), Lo(kr15), Hi(ka15), Lo(ka15)] + [Hi(kr30), Lo(kr30)];
    FlatAppend(ks, 4, sub, 0, row);
    sub := sub + row;
    row := [Hi(kb30), Lo(kb30), Hi(kl45), Lo(kl45), Hi(ka45), Lo(ka45)] + [Hi(kl60), Lo(kl60)];
    FlatAppend(ks, 4, sub, 1, row);
    sub := sub + row;
    row := [Hi(kr60), Lo(kr60), Hi(kb60), Lo(kb60), Hi(kl77), Lo(kl77)]
           + [Half(Bits.MiddleWords(ka45)), Half(Bits.OuterWords(ka45))];
    FlatAppend(ks, 4, sub, 2, row);
    sub := sub + row;
    row := [Hi(kr94), Lo(kr94), Hi(ka94), Lo(ka94), Hi(kl111), Lo(kl111)] + [];
    FlatAppend(ks, 4, sub, 3, row);
    sub := sub + row;
    FlatEnd(ks, 4, sub);
    sub := sub + [Hi(kb111), Lo(kb111)];
  }

  lemma Slices4(ks: Keys, r0: seq<Half>, r1: seq<Half>, r2: seq<Half>, r3: seq<Half>,
                e0: seq<Half>, e1: seq<Half>, e2: seq<Half>)
    requires |r0| == |r1| == |r2| == |r3| == 6 && |e0| == |e1| == |e2| == 2
    requires ks.k == r0 + r1 + r2 + r3 && ks.ke == e0 + e1 + e2
    ensures Shape(ks, 4)
    ensures ks.k[0..6] == r0 && ks.k[6..12] == r1 && ks.k[12..18] == r2 && ks.k[18..24] == r3
    ensures ks.ke[0..2] == e0 && ks.ke[2..4] == e1 && ks.ke[4..6] == e2
  {
  }

  lemma Rotations256KL(kl: bv128)
    ensures
      var kl45 := Bits.RolDqo32(kl, 45);
      var kl60 := Bits.RolDq(kl45, 15);
      var kl77 := Bits.RolDq(kl60, 17);
      && kl45 == Rot(kl, 45) && kl60 == Rot(kl, 60) && kl77 == Rot(kl, 77)
      && Bits.RolDqo32(kl77, 34) == Rot(kl, 111)
  {
    hide Rot, Bits.RolDq, Bits.RolDqo32;
    Bits.RolDqo32IsRot(kl);
    Bits.RolDqIsRot(Rot(kl, 45));
    Bits.RolDqIsRot(Rot(kl, 60));
    Bits.RolDqo32IsRot(Rot(kl, 77));
    Bits.Rot45By15(kl);
    Bits.Rot60By17(kl);
    Bits.Rot77By34(kl);
  }

  lemma Rotations256KR(kr: bv128)
    ensures
      var kr15 := Bits.RolDq(kr, 15);
      var kr30 := Bits.RolDq(kr15, 15);
      var kr60 := Bits.RolDq(kr30, 30);
      var kr94 := Bits.RolDqo32(kr60, 34);
      && kr15 == Rot(kr, 15) && kr30 == Rot(kr, 30) && kr60 == Rot(kr, 60) && kr94 == Rot(kr, 94)
      && Bits.RolDqo32(kr94, 34) == kr
  {
    hide Rot, Bits.RolDq, Bits.RolDqo32;
    Bits.RolDqIsRot(kr);
    Bits.RolDqIsRot(Rot(kr, 15));
    Bits.RolDqIsRot(Rot(kr, 30));
    Bits.RolDqo32IsRot(Rot(kr, 60));
    Bits.RolDqo32IsRot(Rot(kr, 94));
    Bits.Rot15By15(kr);
    Bits.Rot30By30(kr);
    Bits.Rot60By34(kr);
    Bits.Rot94By34(kr);
  }

  lemma Rotations256KA(ka: bv128)
    ensures
      var ka15 := Bits.RolDq(ka, 15);
      var ka45 := Bits.RolDq(ka15, 30);
      && ka15 == Rot(ka, 15) && ka45 == Rot(ka, 45) && Bits.RolDqo32(ka45, 49) == Rot(ka, 94)
      && Half(Bits.MiddleWords(ka45)) == Hi(Rot(ka, 77)) && Half(Bits.OuterWords(ka45)) == Lo(Rot(ka, 77))
  {
    hide Rot, Hi, Lo, Bits.RolDq, Bits.RolDqo32, Bits.MiddleWords, Bits.OuterWords;
    Bits.RolDqIsRot(ka);
    Bits.RolDqIsRot(Rot(ka, 15));
    Bits.RolDqo32IsRot(Rot(ka, 45));
    Bits.Rot15By30(ka);
    Bits.Rot45By49(ka);
    Bits.Rot45By32(ka);
    MiddleHalves(Rot(ka, 45));
  }

  lemma Rotations256KB(kb: bv128)
    ensures
      var kb30 := Bits.RolDq(kb, 30);
      var kb60 := Bits.RolDq(kb30, 30);
      && kb30 == Rot(kb, 30) && kb60 == Rot(kb, 60) && Bits.RolDqo32(kb60, 51) == Rot(kb, 111)
  {
    hide Rot, Bits.RolDq, Bits.RolDqo32;
    Bits.RolDqIsRot(kb);
    Bits.RolDqIsRot(Rot(kb, 30));
    Bits.RolDqo32IsRot(Rot(kb, 60));
    Bits.Rot30By30(kb);
    Bits.Rot60By51(kb);
  }

  // ---- the public functions ----

  method Setup128(s: SBoxes, ghost f: Half -> Half, key: bv128) returns (subkey: seq<Half>)
    requires forall z {:trigger SP(s, z)} :: f(z) == SP(s, z)
    ensures Folded(Schedule128(f, key), 3, subkey)
  {
    hide *;
    var flat := Generate128(s, f, key);
    ghost var ks := Schedule128(f, key);
    var sub := AbsorbKeys128(ks, flat);
    AbsorbedShape(ks, 3, sub);
    subkey := StoreKeys128(sub);
    StoredIsFolded(ks, 3, sub, subkey);
  }

  method Setup256(s: SBoxes, ghost f: Half -> Half, left: bv128, right: bv128) returns (subkey: seq<Half>)
    requires forall z {:trigger SP(s, z)} :: f(z) == SP(s, z)
    ensures Folded(Schedule256(f, left, right), 4, subkey)
  {
    hide *;
    var flat := Generate256(s, f, left, right);
    ghost var ks := Schedule256(f, left, right);
    var sub := AbsorbKeys256(ks, flat);
    AbsorbedShape(ks, 4, sub);
    subkey := StoreKeys256(sub);
    StoredIsFolded(ks, 4, sub, subkey);
  }

  lemma AbsorbedShape(ks: Keys, groups: nat, sub: seq<Half>)
    requires Absorbed(ks, groups, sub)
    ensures |sub| == 8 * groups + 2
  {
  }

  /** A 192-bit key becomes a 256-bit one. */
  method Setup192(s: SBoxes, ghost f: Half -> Half, left: bv128, right: Half) returns (subkey: seq<Half>)
    requires forall z {:trigger SP(s, z)} :: f(z) == SP(s, z)
    ensures Folded(Schedule256(f, left, Extend192(right)), 4, subkey)
  {
    hide *;
    subkey := Setup256(s, f, left, Join(right, Half(!right.bits)));
    ExtendIsJoin(right);
  }

  lemma ExtendIsJoin(right: Half)
    ensures Extend192(right) == Join(right, Half(!right.bits))
  {
    hide Join;
  }

  /** Six CAMELLIA_ROUNDSM in a row, on the entries from b up. */
  method SixSteps(s: SBoxes, ghost f: Half -> Half, subkey: seq<Half>, b: nat, a0: Half, b0: Half) returns (x: Half, y: Half)
    requires forall z {:trigger SP(s, z)} :: f(z) == SP(s, z)
    requires b + 6 <= |subkey|
    ensures State(x, y) == SixSm(f, State(a0, b0), subkey, b)
  {
    hide Xor, SP, RoundSm;
    x, y := a0, b0;
    y := RoundSmStep(s, f, x, subkey[b], y);
    x := RoundSmStep(s, f, y, subkey[b + 1], x);
    y := RoundSmStep(s, f, x, subkey[b + 2], y);
    x := RoundSmStep(s, f, y, subkey[b + 3], x);
    y := RoundSmStep(s, f, x, subkey[b + 4], y);
    x := RoundSmStep(s, f, y, subkey[b + 5], x);
  }

  /** ... and from b + 5 down. */
  method SixStepsDown(s: SBoxes, ghost f: Half -> Half, subkey: seq<Half>, b: nat, a0: Half, b0: Half) returns (x: Half, y: Half)
    requires forall z {:trigger SP(s, z)} :: f(z) == SP(s, z)
    requires b + 6 <= |subkey|
    ensures State(x, y) == SixDown(f, State(a0, b0), subkey, b)
  {
    hide Xor, SP, RoundSm;
    x, y := a0, b0;
    y := RoundSmStep(s, f, x, subkey[b + 5], y);
    x := RoundSmStep(s, f, y, subkey[b + 4], x);
    y := RoundSmStep(s, f, x, subkey[b + 3], y);
    x := RoundSmStep(s, f, y, subkey[b + 2], x);
    y := RoundSmStep(s, f, x, subkey[b + 1], y);
    x := RoundSmStep(s, f, y, subkey[b], x);
  }

  method Encrypt128(s: SBoxes, ghost f: Half -> Half, subkey: seq<Half>, blocks: array<Half>)
    requires forall z {:trigger SP(s, z)} :: f(z) == SP(s, z)
    requires |subkey| == 25 && blocks.Length == 2
    modifies blocks
    ensures State(blocks[0], blocks[1]) == EncryptSm(f, subkey, 3, old(State(blocks[0], blocks[1])))
  {
    hide Xor, SP, FL, FLInv, SixSm;
    var x, y := blocks[0], blocks[1];
    x := Xor(x, subkey[0]);
    ghost var m := State(x, y);
    x, y := SixSteps(s, f, subkey, 2, x, y);
    assert State(x, y) == GroupsSm(f, subkey, 1, m);
    x, y := FL(x, subkey[8]), FLInv(y, subkey[9]);
    x, y := SixSteps(s, f, subkey, 10, x, y);
    assert State(x, y) == GroupsSm(f, subkey, 2, m);
    x, y := FL(x, subkey[16]), FLInv(y, subkey[17]);
    x, y := SixSteps(s, f, subkey, 18, x, y);
    assert State(x, y) == GroupsSm(f, subkey, 3, m);
    y := Xor(y, subkey[24]);
    blocks[0], blocks[1] := y, x;
  }

  method Decrypt128(s: SBoxes, ghost f: Half -> Half, subkey: seq<Half>, blocks: array<Half>)
    requires forall z {:trigger SP(s, z)} :: f(z) == SP(s, z)
    requires |subkey| == 25 && blocks.Length == 2
    modifies blocks
    ensures State(blocks[0], blocks[1]) == DecryptSm(f, subkey, 3, old(State(blocks[0], blocks[1])))
  {
    hide Xor, SP, FL, FLInv, SixDown;
    var x, y := blocks[0], blocks[1];
    x := Xor(x, subkey[24]);
    ghost var all := GroupsDown(f, subkey, 3, State(x, y));
    x, y := SixStepsDown(s, f, subkey, 18, x, y);
    x, y := FL(x, subkey[17]), FLInv(y, subkey[16]);
    assert all == GroupsDown(f, subkey, 2, State(x, y));
    x, y := SixStepsDown(s, f, subkey, 10, x, y);
    x, y := FL(x, subkey[9]), FLInv(y, subkey[8]);
    assert all == GroupsDown(f, subkey, 1, State(x, y));
    x, y := SixStepsDown(s, f, subkey, 2, x, y);
    y := Xor(y, subkey[0]);
    blocks[0], blocks[1] := y, x;
  }

  method Encrypt256(s: SBoxes, ghost f: Half -> Half, subkey: seq<Half>, blocks: array<Half>)
    requires forall z {:trigger SP(s, z)} :: f(z) == SP(s, z)
    requires |subkey| == 33 && blocks.Length == 2
    modifies blocks
    ensures State(blocks[0], blocks[1]) == EncryptSm(f, subkey, 4, old(State(blocks[0], blocks[1])))
  {
    hide Xor, SP, FL, FLInv, SixSm;
    var x, y := blocks[0], blocks[1];
    x := Xor(x, subkey[0]);
    ghost var m := State(x, y);
    x, y := SixSteps(s, f, subkey, 2, x, y);
    assert State(x, y) == GroupsSm(f, subkey, 1, m);
    x, y := FL(x, subkey[8]), FLInv(y, subkey[9]);
    x, y := SixSteps(s, f, subkey, 10, x, y);
    assert State(x, y) == GroupsSm(f, subkey, 2, m);
    x, y := FL(x, subkey[16]), FLInv(y, subkey[17]);
    x, y := SixSteps(s, f, subkey, 18, x, y);
    assert State(x, y) == GroupsSm(f, subkey, 3, m);
    x, y := FL(x, subkey[24]), FLInv(y, subkey[25]);
    x, y := SixSteps(s, f, subkey, 26, x, y);
    assert State(x, y) == GroupsSm(f, subkey, 4, m);
    y := Xor(y, subkey[32]);
    blocks[0], blocks[1] := y, x;
  }

  method Decrypt256(s: SBoxes, ghost f: Half -> Half, subkey: seq<Half>, blocks: array<Half>)
    requires forall z {:trigger SP(s, z)} :: f(z) == SP(s, z)
    requires |subkey| == 33 && blocks.Length == 2
    modifies blocks
    ensures State(blocks[0], blocks[1]) == DecryptSm(f, subkey, 4, old(State(blocks[0], blocks[1])))
  {
    hide Xor, SP, FL, FLInv, SixDown;
    var x, y := blocks[0], blocks[1];
    x := Xor(x, subkey[32]);
    ghost var all := GroupsDown(f, subkey, 4, State(x, y));
    x, y := SixStepsDown(s, f, subkey, 26, x, y);
    x, y := FL(x, subkey[25]), FLInv(y, subkey[24]);
    assert all == GroupsDown(f, subkey, 3, State(x, y));
    x, y := SixStepsDown(s, f, subkey, 18, x, y);
    x, y := FL(x, subkey[17]), FLInv(y, subkey[16]);
    assert all == GroupsDown(f, subkey, 2, State(x, y));
    x, y := SixStepsDown(s, f, subkey, 10, x, y);
    x, y := FL(x, subkey[9]), FLInv(y, subkey[8]);
    assert all == GroupsDown(f, subkey, 1, State(x, y));
    x, y := SixStepsDown(s, f, subkey, 2, x, y);
    y := Xor(y, subkey[0]);
    blocks[0], blocks[1] := y, x;
  }

  /** Key setup, then encryption: RFC 3713, for every key and block. */
  method EncryptBlock128(s: SBoxes, ghost f: Half -> Half, key: bv128, blocks: array<Half>)
    requires forall z {:trigger SP(s, z)} :: f(z) == SP(s, z)
    requires blocks.Length == 2
    modifies blocks
    ensures State(blocks[0], blocks[1]) == Encrypt(f, Schedule128(f, key), 3, old(State(blocks[0], blocks[1])))
  {
    hide *;
    var subkey := Setup128(s, f, key);
    FoldedLength(Schedule128(f, key), 3, subkey);
    Encrypt128(s, f, subkey, blocks);
    EncryptSmIsRfc(f, Schedule128(f, key), 3, subkey, old(State(blocks[0], blocks[1])));
  }

  method EncryptBlock256(s: SBoxes, ghost f: Half -> Half, left: bv128, right: bv128, blocks: array<Half>)
    requires forall z {:trigger SP(s, z)} :: f(z) == SP(s, z)
    requires blocks.Length == 2
    modifies blocks
    ensures State(blocks[0], blocks[1]) == Encrypt(f, Schedule256(f, left, right), 4, old(State(blocks[0], blocks[1])))
  {
    hide *;
    var subkey := Setup256(s, f, left, right);
    FoldedLength(Schedule256(f, left, right), 4, subkey);
    Encrypt256(s, f, subkey, blocks);
    EncryptSmIsRfc(f, Schedule256(f, left, right), 4, subkey, old(State(blocks[0], blocks[1])));
  }

  lemma FoldedLength(ks: Keys, groups: nat, t: seq<Half>)
    requires Folded(ks, groups, t)
    ensures |t| == 8 * groups + 1 && Shape(ks, groups)
  {
  }

  /** Decryption on a finished table recovers the plaintext from an RFC 3713 ciphertext. */
  lemma DecryptInvertsRfc(f: Half -> Half, ks: Keys, groups: nat, t: seq<Half>, m: State)
    requires Folded(ks, groups, t)
    ensures DecryptSm(f, t, groups, Encrypt(f, ks, groups, m)) == m
  {
    hide Xor, EncryptSm, DecryptSm;
    EncryptSmIsRfc(f, ks, groups, t, m);
    DecryptInvertsEncrypt(f, t, groups, m);
  }
}
