/** The folded subkey table of cipher/camellia.c, the rounds that run on it, and why they
    compute the cipher of RFC 3713. */
module CamelliaRounds {
  import opened Rfc3713
  import opened CamelliaMacros

  // ---- the table, in terms of the RFC's keys ----

  /** The constant the second half carries into group g: kw2, moved through the FL layers. */
  function Carried2(ks: Keys, groups: nat, g: nat): Half
    requires Shape(ks, groups) && g < groups
  {
    if g == 0 then ks.kw2 else Absorb(Carried2(ks, groups, g - 1), ks.ke[2 * g - 1])
  }

  /** The constant the first half carries out of group g: kw4, moved back through them. */
  function Carried1(ks: Keys, groups: nat, g: nat): Half
    requires Shape(ks, groups) && g < groups
    decreases groups - g
  {
    if g == groups - 1 then ks.kw4 else Absorb(Carried1(ks, groups, g + 1), ks.ke[2 * g])
  }

  /** subL/subR as generated: kw1, kw2, then six round keys and two layer keys a group, kw3, kw4. */
  ghost predicate Flat(ks: Keys, groups: nat, sub: seq<Half>) {
    && Shape(ks, groups)
    && |sub| == 8 * groups + 2
    && sub[0] == ks.kw1 && sub[1] == ks.kw2
    && sub[8 * groups] == ks.kw3 && sub[8 * groups + 1] == ks.kw4
    && (forall g | 0 <= g < groups :: FlatGroup(ks, groups, sub, g))
  }

  ghost predicate FlatGroup(ks: Keys, groups: nat, sub: seq<Half>, g: nat)
    requires Shape(ks, groups) && g < groups && |sub| >= if g == groups - 1 then 8 * g + 8 else 8 * g + 10
  {
    && sub[8 * g + 2] == ks.k[6 * g] && sub[8 * g + 3] == ks.k[6 * g + 1]
    && sub[8 * g + 4] == ks.k[6 * g + 2] && sub[8 * g + 5] == ks.k[6 * g + 3]
    && sub[8 * g + 6] == ks.k[6 * g + 4] && sub[8 * g + 7] == ks.k[6 * g + 5]
    && (g < groups - 1 ==> sub[8 * g + 8] == ks.ke[2 * g] && sub[8 * g + 9] == ks.ke[2 * g + 1])
  }

  /** subL/subR after both absorption passes. */
  ghost predicate Absorbed(ks: Keys, groups: nat, sub: seq<Half>) {
    && Shape(ks, groups)
    && |sub| == 8 * groups + 2
    && sub[0] == Xor(ks.kw1, Carried1(ks, groups, 0))
    && sub[8 * groups] == Xor(ks.kw3, Carried2(ks, groups, groups - 1))
    && (forall g | 0 <= g < groups :: AbsorbedGroup(ks, groups, sub, g))
  }

  ghost predicate AbsorbedGroup(ks: Keys, groups: nat, sub: seq<Half>, g: nat)
    requires Shape(ks, groups) && |sub| == 8 * groups + 2 && g < groups
  {
    var c1, c2 := Carried1(ks, groups, g), Carried2(ks, groups, g);
    && sub[8 * g + 2] == Xor(ks.k[6 * g], c1) && sub[8 * g + 3] == Xor(ks.k[6 * g + 1], c2)
    && sub[8 * g + 4] == Xor(ks.k[6 * g + 2], c1) && sub[8 * g + 5] == Xor(ks.k[6 * g + 3], c2)
    && sub[8 * g + 6] == Xor(ks.k[6 * g + 4], c1) && sub[8 * g + 7] == Xor(ks.k[6 * g + 5], c2)
    && (g < groups - 1 ==> sub[8 * g + 8] == ks.ke[2 * g] && sub[8 * g + 9] == ks.ke[2 * g + 1])
  }

  /** What the last pass stores, in terms of the absorbed subkeys. */
  ghost predicate Stored(groups: nat, sub: seq<Half>, t: seq<Half>)
    requires |sub| == 8 * groups + 2
  {
    && 1 <= groups && |t| == 8 * groups + 1
    && t[0] == Xor(sub[0], sub[2])
    && t[8 * groups] == Xor(sub[8 * groups], sub[8 * groups - 1])
    && (forall g | 0 <= g < groups :: StoredGroup(groups, sub, t, g))
  }

  ghost predicate StoredGroup(groups: nat, sub: seq<Half>, t: seq<Half>, g: nat)
    requires |sub| == 8 * groups + 2 && g < groups && |t| >= if g == groups - 1 then 8 * g + 8 else 8 * g + 10
  {
    && t[8 * g + 2] == (if g == 0 then sub[3] else Xor(Absorb(sub[8 * g - 1], sub[8 * g + 1]), sub[8 * g + 3]))
    && t[8 * g + 3] == Xor(sub[8 * g + 2], sub[8 * g + 4])
    && t[8 * g + 4] == Xor(sub[8 * g + 3], sub[8 * g + 5])
    && t[8 * g + 5] == Xor(sub[8 * g + 4], sub[8 * g + 6])
    && t[8 * g + 6] == Xor(sub[8 * g + 5], sub[8 * g + 7])
    && t[8 * g + 7] == (if g == groups - 1 then sub[8 * g + 6]
                        else Xor(sub[8 * g + 6], Absorb(sub[8 * g + 10], sub[8 * g + 8])))
    && (g < groups - 1 ==> t[8 * g + 8] == sub[8 * g + 8] && t[8 * g + 9] == sub[8 * g + 9])
  }

  /** The offset of the second half when group g starts: the state of the running cipher
      is the RFC's D2 with this constant added. */
  function Entry(ks: Keys, groups: nat, g: nat): Half
    requires Shape(ks, groups) && g < groups
  {
    if g == 0 then ks.kw2 else Absorb(ks.k[6 * g - 1], ks.ke[2 * g - 1])
  }

  /** The offset of the first half when group g ends. */
  function Exit(ks: Keys, groups: nat, g: nat): Half
    requires Shape(ks, groups) && g < groups
  {
    if g == groups - 1 then ks.kw4 else Absorb(ks.k[6 * g + 6], ks.ke[2 * g])
  }

  /** The finished table in closed form: no trace of the absorbed constants is left. */
  ghost predicate Folded(ks: Keys, groups: nat, t: seq<Half>) {
    && Shape(ks, groups)
    && |t| == 8 * groups + 1
    && t[0] == Xor(ks.kw1, ks.k[0])
    && t[8 * groups] == Xor(ks.kw3, ks.k[6 * groups - 1])
    && (forall g | 0 <= g < groups :: FoldedGroup(ks, groups, t, g))
  }

  ghost predicate FoldedGroup(ks: Keys, groups: nat, t: seq<Half>, g: nat)
    requires Shape(ks, groups) && |t| == 8 * groups + 1 && g < groups
  {
    && t[8 * g + 2] == Xor(Entry(ks, groups, g), ks.k[6 * g + 1])
    && t[8 * g + 3] == Xor(ks.k[6 * g], ks.k[6 * g + 2])
    && t[8 * g + 4] == Xor(ks.k[6 * g + 1], ks.k[6 * g + 3])
    && t[8 * g + 5] == Xor(ks.k[6 * g + 2], ks.k[6 * g + 4])
    && t[8 * g + 6] == Xor(ks.k[6 * g + 3], ks.k[6 * g + 5])
    && t[8 * g + 7] == Xor(ks.k[6 * g + 4], Exit(ks, groups, g))
    && (g < groups - 1 ==> t[8 * g + 8] == ks.ke[2 * g] && t[8 * g + 9] == ks.ke[2 * g + 1])
  }

  /** Absorption cancels out of every stored entry. */
  lemma StoredIsFolded(ks: Keys, groups: nat, sub: seq<Half>, t: seq<Half>)
    requires Absorbed(ks, groups, sub) && Stored(groups, sub, t)
    ensures Folded(ks, groups, t)
  {
    hide Xor;
    var c1, c2 := Carried1(ks, groups, 0), Carried2(ks, groups, groups - 1);
    assert AbsorbedGroup(ks, groups, sub, 0) && AbsorbedGroup(ks, groups, sub, groups - 1);
    XorPair(ks.kw1, ks.k[0], c1);
    XorPair(ks.kw3, ks.k[6 * groups - 1], c2);
    forall g | 0 <= g < groups
      ensures FoldedGroup(ks, groups, t, g)
    {
      StoredGroupIsFolded(ks, groups, sub, t, g);
    }
  }

  lemma StoredGroupIsFolded(ks: Keys, groups: nat, sub: seq<Half>, t: seq<Half>, g: nat)
    requires g < groups && Absorbed(ks, groups, sub) && Stored(groups, sub, t)
    ensures FoldedGroup(ks, groups, t, g)
  {
    hide Xor;
    assert AbsorbedGroup(ks, groups, sub, g) && StoredGroup(groups, sub, t, g);
    var c1, c2 := Carried1(ks, groups, g), Carried2(ks, groups, g);
    XorPair(ks.k[6 * g], ks.k[6 * g + 2], c1);
    XorPair(ks.k[6 * g + 1], ks.k[6 * g + 3], c2);
    XorPair(ks.k[6 * g + 2], ks.k[6 * g + 4], c1);
    XorPair(ks.k[6 * g + 3], ks.k[6 * g + 5], c2);
    StoredEntry(ks, groups, sub, t, g);
    StoredExit(ks, groups, sub, t, g);
  }

  lemma StoredEntry(ks: Keys, groups: nat, sub: seq<Half>, t: seq<Half>, g: nat)
    requires g < groups && Absorbed(ks, groups, sub) && Stored(groups, sub, t)
    ensures t[8 * g + 2] == Xor(Entry(ks, groups, g), ks.k[6 * g + 1])
  {
    hide Xor, Absorb;
    assert AbsorbedGroup(ks, groups, sub, g) && StoredGroup(groups, sub, t, g);
    if g == 0 {
      XorCommutes(ks.k[1], ks.kw2);
    } else {
      assert AbsorbedGroup(ks, groups, sub, g - 1);
      CancelEntry(ks.k[6 * g - 1], ks.k[6 * g + 1], Carried2(ks, groups, g - 1), ks.ke[2 * g - 1]);
    }
  }

  lemma StoredExit(ks: Keys, groups: nat, sub: seq<Half>, t: seq<Half>, g: nat)
    requires g < groups && Absorbed(ks, groups, sub) && Stored(groups, sub, t)
    ensures t[8 * g + 7] == Xor(ks.k[6 * g + 4], Exit(ks, groups, g))
  {
    hide Xor, Absorb;
    assert AbsorbedGroup(ks, groups, sub, g) && StoredGroup(groups, sub, t, g);
    if g < groups - 1 {
      assert AbsorbedGroup(ks, groups, sub, g + 1);
      CancelExit(ks.k[6 * g + 4], ks.k[6 * g + 6], Carried1(ks, groups, g + 1), ks.ke[2 * g]);
    }
  }

  lemma CancelEntry(a: Half, b: Half, c: Half, ke: Half)
    ensures Xor(Absorb(Xor(a, c), ke), Xor(b, Absorb(c, ke))) == Xor(Absorb(a, ke), b)
  {
    AbsorbLinear(a, c, ke);
    XorPair(Absorb(a, ke), b, Absorb(c, ke));
  }

  lemma CancelExit(a: Half, b: Half, c: Half, ke: Half)
    ensures Xor(Xor(a, Absorb(c, ke)), Absorb(Xor(b, c), ke)) == Xor(a, Absorb(b, ke))
  {
    AbsorbLinear(b, c, ke);
    XorPair(a, Absorb(b, ke), Absorb(c, ke));
  }

  // ---- the rounds on the table ----

  /** CAMELLIA_ROUNDSM: the key is added to the other half, not to the input of the F-function. */
  function RoundSm(f: Half -> Half, x: Half, k: Half, y: Half): Half {
    Xor(Xor(y, k), f(x))
  }

  function TwoSm(f: Half -> Half, st: State, ka: Half, kb: Half): State {
    var d2 := RoundSm(f, st.d1, ka, st.d2);
    State(RoundSm(f, d2, kb, st.d1), d2)
  }

  function SixSm(f: Half -> Half, st: State, t: seq<Half>, b: nat): State
    requires b + 6 <= |t|
  {
    TwoSm(f, TwoSm(f, TwoSm(f, st, t[b], t[b + 1]), t[b + 2], t[b + 3]), t[b + 4], t[b + 5])
  }

  /** The first n groups of camellia_encrypt128/256. */
  function GroupsSm(f: Half -> Half, t: seq<Half>, n: nat, st: State): State
    requires 1 <= n && 8 * n <= |t|
  {
    if n == 1 then SixSm(f, st, t, 2)
    else SixSm(f, FLLayer(GroupsSm(f, t, n - 1, st), t[8 * n - 8], t[8 * n - 7]), t, 8 * n - 6)
  }

  function EncryptSm(f: Half -> Half, t: seq<Half>, groups: nat, m: State): State
    requires 1 <= groups && |t| == 8 * groups + 1
  {
    var d := GroupsSm(f, t, groups, State(Xor(m.d1, t[0]), m.d2));
    State(Xor(d.d2, t[8 * groups]), d.d1)
  }

  /** One round: if the F input already holds its key and the other half is off by o, the
      folded key moves the offset of the other half on to its next key. */
  lemma RoundTracks(f: Half -> Half, d1: Half, d2: Half, k: Half, o: Half, next: Half)
    ensures RoundSm(f, Xor(d1, k), Xor(o, next), Xor(d2, o)) == Xor(Round(f, d1, k, d2), next)
  {
    XorThrough(d2, o, next);
    XorSwap(d2, next, f(Xor(d1, k)));
  }

  lemma TwoTrack(f: Half -> Half, d: State, ka: Half, kb: Half, o: Half, kc: Half)
    ensures
      var e := TwoRounds(f, d, ka, kb);
      TwoSm(f, State(Xor(d.d1, ka), Xor(d.d2, o)), Xor(o, kb), Xor(ka, kc)) == State(Xor(e.d1, kc), Xor(e.d2, kb))
  {
    RoundTracks(f, d.d1, d.d2, ka, o, kb);
    RoundTracks(f, Round(f, d.d1, ka, d.d2), d.d1, kb, ka, kc);
  }

  /** The running state when the RFC's state after group g is e. */
  function Offset(ks: Keys, groups: nat, g: nat, e: State): State
    requires Shape(ks, groups) && g < groups
  {
    State(Xor(e.d1, Exit(ks, groups, g)), Xor(e.d2, ks.k[6 * g + 5]))
  }

  /** The running state when the RFC's state before group g is d. */
  function Onset(ks: Keys, groups: nat, g: nat, d: State): State
    requires Shape(ks, groups) && g < groups
  {
    State(Xor(d.d1, ks.k[6 * g]), Xor(d.d2, Entry(ks, groups, g)))
  }

  /** Six rounds: both offsets at the end are determined by the keys alone. */
  lemma SixTrack(f: Half -> Half, ks: Keys, groups: nat, t: seq<Half>, g: nat, d: State)
    requires Folded(ks, groups, t) && g < groups
    ensures SixSm(f, Onset(ks, groups, g, d), t, 8 * g + 2)
            == Offset(ks, groups, g, SixRounds(f, d, ks.k, 6 * g))
  {
    hide Xor;
    assert FoldedGroup(ks, groups, t, g);
    var j := 6 * g;
    var d2 := TwoRounds(f, d, ks.k[j], ks.k[j + 1]);
    var d4 := TwoRounds(f, d2, ks.k[j + 2], ks.k[j + 3]);
    TwoTrack(f, d, ks.k[j], ks.k[j + 1], Entry(ks, groups, g), ks.k[j + 2]);
    TwoTrack(f, d2, ks.k[j + 2], ks.k[j + 3], ks.k[j + 1], ks.k[j + 4]);
    TwoTrack(f, d4, ks.k[j + 4], ks.k[j + 5], ks.k[j + 3], Exit(ks, groups, g));
  }

  /** An FL layer moves both offsets along. */
  lemma LayerTracks(d: State, k: Half, o: Half, ka: Half, kb: Half)
    ensures
      var e := FLLayer(d, ka, kb);
      FLLayer(State(Xor(d.d1, Absorb(k, ka)), Xor(d.d2, o)), ka, kb)
      == State(Xor(e.d1, k), Xor(e.d2, Absorb(o, kb)))
  {
    FlAffine(d.d1, k, ka);
    FlInvAffine(d.d2, o, kb);
  }

  lemma LayerStep(ks: Keys, groups: nat, t: seq<Half>, g: nat, e: State)
    requires Folded(ks, groups, t) && g + 1 < groups
    ensures FLLayer(Offset(ks, groups, g, e), t[8 * g + 8], t[8 * g + 9])
            == Onset(ks, groups, g + 1, FLLayer(e, ks.ke[2 * g], ks.ke[2 * g + 1]))
  {
    assert FoldedGroup(ks, groups, t, g);
    assert Entry(ks, groups, g + 1) == Absorb(ks.k[6 * g + 5], ks.ke[2 * g + 1]);
    LayerTracks(e, ks.k[6 * g + 6], ks.k[6 * g + 5], ks.ke[2 * g], ks.ke[2 * g + 1]);
  }

  lemma GroupStep(f: Half -> Half, ks: Keys, groups: nat, t: seq<Half>, g: nat, e: State)
    requires Folded(ks, groups, t) && g + 1 < groups
    ensures
      SixSm(f, FLLayer(Offset(ks, groups, g, e), t[8 * g + 8], t[8 * g + 9]), t, 8 * g + 10)
      == Offset(ks, groups, g + 1,
                SixRounds(f, FLLayer(e, ks.ke[2 * g], ks.ke[2 * g + 1]), ks.k, 6 * g + 6))
  {
    hide Xor, FLLayer, TwoSm, TwoRounds;
    LayerStep(ks, groups, t, g, e);
    SixTrack(f, ks, groups, t, g + 1, FLLayer(e, ks.ke[2 * g], ks.ke[2 * g + 1]));
  }

  lemma {:induction false} GroupsTrack(f: Half -> Half, ks: Keys, groups: nat, t: seq<Half>, n: nat, d: State)
    requires Folded(ks, groups, t) && 1 <= n <= groups
    ensures GroupsSm(f, t, n, Onset(ks, groups, 0, d))
            == Offset(ks, groups, n - 1, Groups(f, ks, groups, n, d))
  {
    hide Xor, FLLayer, SixSm, SixRounds, Offset, Entry, FoldedGroup;
    if n == 1 {
      SixTrack(f, ks, groups, t, 0, d);
    } else {
      GroupsTrack(f, ks, groups, t, n - 1, d);
      GroupStep(f, ks, groups, t, n - 2, Groups(f, ks, groups, n - 1, d));
    }
  }

  /** The cipher that runs is the cipher of RFC 3713. */
  lemma EncryptSmIsRfc(f: Half -> Half, ks: Keys, groups: nat, t: seq<Half>, m: State)
    requires Folded(ks, groups, t)
    ensures EncryptSm(f, t, groups, m) == Encrypt(f, ks, groups, m)
  {
    hide Xor, Groups, GroupsSm, FoldedGroup;
    var d := State(Xor(m.d1, ks.kw1), Xor(m.d2, ks.kw2));
    GroupsTrack(f, ks, groups, t, groups, d);
    var e := Groups(f, ks, groups, groups, d);
    XorAssociates(m.d1, ks.kw1, ks.k[0]);
    XorCancel(m.d2, ks.kw2);
    XorCommutes(ks.kw3, ks.k[6 * groups - 1]);
    XorThrough(e.d2, ks.k[6 * groups - 1], ks.kw3);
  }
}
