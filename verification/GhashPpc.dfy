/** The vpmsumd GHASH of cipher-gcm-ppc.c: table setup, four-block aggregation in a
    software-pipelined loop, and their refinement of GHASH in SP 800-38D. */
module GhashPpc {
  import opened Bytes
  import opened GaloisField

  // ---- GHASH, sections 6.3 and 6.4 of NIST SP 800-38D ----

  /** Block multiplication: the bits of x, leftmost first, select shifted copies of v. */
  function NistMul(x: Poly, v: Vec): Vec {
    if x == [] then ZERO
    else Add(If(x[|x| - 1], v), NistMul(x[..|x| - 1], DivX(v)))
  }

  /** GHASH with running value y. */
  function Ghash(h: Vec, y: Vec, blocks: seq<Vec>): Vec {
    if blocks == [] then y
    else NistMul(Add(Ghash(h, y, blocks[..|blocks| - 1]), blocks[|blocks| - 1]), h)
  }

  /** The leftmost bit of a block, which SP 800-38D numbers 0, is the top bit of its first octet. */
  function LoadBE(s: seq<byte>): Vec
    requires |s| == 16
  {
    BitsBE(s)
  }

  function StoreBE(v: Vec): (s: seq<byte>)
    ensures |s| == 16
  {
    OctetsBE(v)
  }

  function Blocks(buf: seq<byte>, n: nat): seq<Vec>
    requires 16 * n <= |buf|
  {
    seq(n, i requires 0 <= i < n => LoadBE(buf[16 * i..16 * i + 16]))
  }

  // ---- the vector instructions ----

  function Lo(v: Vec): Poly {
    v[..64]
  }

  function Hi(v: Vec): Poly {
    v[64..]
  }

  function SwapU64(v: Vec): Vec {
    Hi(v) + Lo(v)
  }

  function MergeLo(l: Vec, r: Vec): Vec {
    Lo(r) + Lo(l)
  }

  function MergeHi(l: Vec, r: Vec): Vec {
    Hi(r) + Hi(l)
  }

  function RotLeft(v: Vec): Vec {
    MergeLo(v, ZERO)
  }

  function RotRight(v: Vec): Vec {
    Hi(v) + Zeros(64)
  }

  /** p(x) times v as plain polynomials. */
  function ShiftAndAdd(p: Poly, v: Vec): Vec {
    if p == [] then ZERO else Add(If(p[0], v), ShiftAndAdd(p[1..], Shl1(v)))
  }

  /** The carry-less product of two 64-bit words. */
  function Clmul(a: Poly, b: Poly): Vec
    requires |a| == |b| == 64
  {
    ShiftAndAdd(a, b + Zeros(64))
  }

  function Vpmsumd(a: Vec, b: Vec): Vec {
    Add(Clmul(Hi(a), Hi(b)), Clmul(Lo(a), Lo(b)))
  }

  // ---- carry-less products are products in the field ----

  lemma {:induction false} ShiftAndAddIsAct(p: Poly, v: Vec)
    requires |p| <= 128 && forall i :: 128 - |p| < i < 128 ==> !v[i]
    ensures ShiftAndAdd(p, v) == Act(p, v)
  {
    if |p| == 1 {
      assert p[1..] == [];
    } else if p != [] {
      AddZero(Shl1(v));
      ShiftAndAddIsAct(p[1..], Shl1(v));
    }
  }

  lemma ClmulIsAct(a: Poly, b: Poly)
    requires |a| == |b| == 64
    ensures Clmul(a, b) == Act(a, b + Zeros(64))
  {
    ShiftAndAddIsAct(a, b + Zeros(64));
  }

  lemma ClmulZero(a: Poly)
    requires |a| == 64
    ensures Clmul(a, Zeros(64)) == ZERO
  {
    ClmulIsAct(a, Zeros(64));
    assert Zeros(64) + Zeros(64) == ZERO;
    ActZero(a);
  }

  lemma Halves(v: Vec)
    ensures v == Add(Lo(v) + Zeros(64), Pow(64, Hi(v) + Zeros(64)))
  {
    PowShift(64, Hi(v) + Zeros(64));
  }

  lemma HighHalf(w: Poly)
    requires |w| == 64
    ensures Zeros(64) + w == Pow(64, w + Zeros(64))
  {
    PowShift(64, w + Zeros(64));
  }

  /** The constant c2 with its low word moved in: 0xc2 followed by zeros. */
  function Fold(): Vec {
    RotRight(Reduction())
  }

  /** A word is x^64 times its own two-word fold: the step both reductions take. */
  lemma FoldWord(z: Poly)
    requires |z| == 64
    ensures z + Zeros(64) == Pow(64, Add(Zeros(64) + z, Clmul(z, Lo(Fold()))))
  {
    var f := Lo(Fold()) + Zeros(64);
    var inverse := Add(f, Unit(64));
    ActUnit(z, 0);
    ActUnit(z, 64);
    ClmulIsAct(z, Lo(Fold()));
    ActAdd(z, f, Unit(64));
    AddLaws(Zeros(64) + z, Act(z, f), ZERO);
    assert Act(z, inverse) == Add(Zeros(64) + z, Clmul(z, Lo(Fold())));
    FoldInverse();
    ActPow(z, 64, inverse);
  }

  lemma FoldInverse()
    ensures Pow(64, Add(Lo(Fold()) + Zeros(64), Unit(64))) == ONE
  {
    var f := Lo(Fold()) + Zeros(64);
    PowShift(64, f);
    PowShift(63, Unit(64));
    assert Zeros(63) + Unit(64)[..65] == Unit(127);
    PowSucc(63, Unit(64));
    assert MulX(Unit(127)) == Reduction() by {
      assert Shl1(Unit(127)) == ZERO;
      AddZero(Reduction());
    }
    PowAdd(64, f, Unit(64));
  }

  // ---- the two-step reduction ----

  function Reduce(l: Vec, m: Vec, h: Vec): Vec {
    var s := Add(SwapU64(Add(l, RotLeft(m))), Vpmsumd(l, Fold()));
    Add(Add(SwapU64(s), Vpmsumd(s, Fold())), Add(h, RotRight(m)))
  }

  lemma VpmsumdFold(v: Vec)
    ensures Vpmsumd(v, Fold()) == Clmul(Lo(v), Lo(Fold()))
    ensures v == Pow(64, Add(SwapU64(v), Vpmsumd(v, Fold())))
  {
    ClmulZero(Hi(v));
    assert Hi(Fold()) == Zeros(64);
    AddZero(Clmul(Lo(v), Lo(Fold())));
    FoldWord(Lo(v));
    Halves(v);
    var f := Clmul(Lo(v), Lo(Fold()));
    PowAdd(64, Add(Zeros(64) + Lo(v), f), Hi(v) + Zeros(64));
    assert Add(Add(Zeros(64) + Lo(v), f), Hi(v) + Zeros(64)) == Add(SwapU64(v), f);
  }

  /** What is computed is (l + x^64 m + x^128 h) / x^128. */
  lemma ReduceMeans(l: Vec, m: Vec, h: Vec)
    ensures Pow(128, Reduce(l, m, h)) == Add(Add(l, Pow(64, m)), Pow(128, h))
  {
    var s := Add(SwapU64(Add(l, RotLeft(m))), Vpmsumd(l, Fold()));
    var a := Add(SwapU64(s), Vpmsumd(s, Fold()));
    VpmsumdFold(s);
    VpmsumdFold(l);
    HighHalf(Hi(m));
    var mh := Zeros(64) + Hi(m);
    assert m == Add(Lo(m) + Zeros(64), mh);
    assert Add(Add(SwapU64(l), Vpmsumd(l, Fold())), m) == Add(s, mh);
    PowAdd(64, Add(SwapU64(l), Vpmsumd(l, Fold())), m);
    PowAdd(64, s, mh);
    PowAdd(64, a, RotRight(m));
    assert Add(l, Pow(64, m)) == Pow(64, Add(s, mh)) == Pow(64, Pow(64, Add(a, RotRight(m))));
    PowPlus(64, 64, Add(a, RotRight(m)));
    PowAdd(128, Add(a, RotRight(m)), h);
    assert Reduce(l, m, h) == Add(Add(a, RotRight(m)), h);
  }

  lemma ReduceAdd(l: Vec, m: Vec, h: Vec, l': Vec, m': Vec, h': Vec)
    ensures Reduce(Add(l, l'), Add(m, m'), Add(h, h')) == Add(Reduce(l, m, h), Reduce(l', m', h'))
  {
    hide Reduce;
    var r := Reduce(Add(l, l'), Add(m, m'), Add(h, h'));
    ReduceMeans(l, m, h);
    ReduceMeans(l', m', h');
    ReduceMeans(Add(l, l'), Add(m, m'), Add(h, h'));
    PowAdd(64, m, m');
    PowAdd(128, h, h');
    PowAdd(128, Reduce(l, m, h), Reduce(l', m', h'));
    AddMedial(l, l', Pow(64, m), Pow(64, m'));
    AddMedial(Add(l, Pow(64, m)), Add(l', Pow(64, m')), Pow(128, h), Pow(128, h'));
    PowInjective(128, r, Add(Reduce(l, m, h), Reduce(l', m', h')));
  }

  // ---- one block: three products and a reduction ----

  function KeyL(k: Vec): Vec {
    RotRight(SwapU64(k))
  }

  function KeyH(k: Vec): Vec {
    RotLeft(SwapU64(k))
  }

  /** The value computed from a block and the three table entries of k. */
  function Times(a: Vec, k: Vec): Vec {
    Reduce(Vpmsumd(a, KeyL(k)), Vpmsumd(a, SwapU64(k)), Vpmsumd(a, KeyH(k)))
  }

  lemma Products(a: Vec, k: Vec)
    ensures Vpmsumd(a, KeyL(k)) == Clmul(Lo(a), Lo(k))
    ensures Vpmsumd(a, SwapU64(k)) == Add(Clmul(Hi(a), Lo(k)), Clmul(Lo(a), Hi(k)))
    ensures Vpmsumd(a, KeyH(k)) == Clmul(Hi(a), Hi(k))
  {
    assert Lo(KeyL(k)) == Lo(k) && Hi(KeyL(k)) == Zeros(64);
    assert Lo(KeyH(k)) == Zeros(64) && Hi(KeyH(k)) == Hi(k);
    assert Lo(SwapU64(k)) == Hi(k) && Hi(SwapU64(k)) == Lo(k);
    ClmulZero(Hi(a));
    ClmulZero(Lo(a));
    AddZero(Clmul(Lo(a), Lo(k)));
    AddZero(Clmul(Hi(a), Hi(k)));
  }

  lemma VpmsumdAdd(a: Vec, b: Vec, k: Vec)
    ensures Vpmsumd(Add(a, b), k) == Add(Vpmsumd(a, k), Vpmsumd(b, k))
  {
    assert Hi(Add(a, b)) == Add(Hi(a), Hi(b)) && Lo(Add(a, b)) == Add(Lo(a), Lo(b));
    ClmulAdd(Hi(a), Hi(b), Hi(k));
    ClmulAdd(Lo(a), Lo(b), Lo(k));
    AddMedial(Clmul(Hi(a), Hi(k)), Clmul(Hi(b), Hi(k)), Clmul(Lo(a), Lo(k)), Clmul(Lo(b), Lo(k)));
  }

  lemma ClmulAdd(a: Poly, b: Poly, k: Poly)
    requires |a| == |b| == |k| == 64
    ensures Clmul(Add(a, b), k) == Add(Clmul(a, k), Clmul(b, k))
  {
    ClmulIsAct(a, k);
    ClmulIsAct(b, k);
    ClmulIsAct(Add(a, b), k);
    ActSum(a, b, k + Zeros(64));
  }

  /** Times divides the field product by x^128. */
  lemma TimesMeans(a: Vec, k: Vec)
    ensures Pow(128, Times(a, k)) == Mul(a, k)
  {
    hide Reduce, Vpmsumd;
    var kl, kh := Lo(k) + Zeros(64), Hi(k) + Zeros(64);
    var l, h := Act(Lo(a), kl), Act(Hi(a), kh);
    var m1, m2 := Act(Hi(a), kl), Act(Lo(a), kh);
    Products(a, k);
    ClmulIsAct(Lo(a), Lo(k));
    ClmulIsAct(Hi(a), Lo(k));
    ClmulIsAct(Lo(a), Hi(k));
    ClmulIsAct(Hi(a), Hi(k));
    ReduceMeans(l, Add(m1, m2), h);
    Expand(a, k);
    PowAdd(64, m1, m2);
    var p1, p2, p3 := Pow(64, m1), Pow(64, m2), Pow(128, h);
    AddLaws(l, p1, p2);
    AddLaws(p1, p2, ZERO);
    assert Add(Add(l, p2), Add(p1, p3)) == Add(Add(l, Add(p1, p2)), p3);
  }

  lemma Expand(a: Vec, k: Vec)
    ensures Mul(a, k) == Add(Add(Act(Lo(a), Lo(k) + Zeros(64)), Pow(64, Act(Lo(a), Hi(k) + Zeros(64)))),
                             Add(Pow(64, Act(Hi(a), Lo(k) + Zeros(64))), Pow(128, Act(Hi(a), Hi(k) + Zeros(64)))))
  {
    var kl, kh := Lo(k) + Zeros(64), Hi(k) + Zeros(64);
    Halves(k);
    assert a == Lo(a) + Hi(a);
    ActConcat(Lo(a), Hi(a), k);
    ActAdd(Lo(a), kl, Pow(64, kh));
    ActPow(Lo(a), 64, kh);
    ActPow(Hi(a), 64, k);
    ActAdd(Hi(a), kl, Pow(64, kh));
    ActPow(Hi(a), 64, kh);
    PowAdd(64, Act(Hi(a), kl), Pow(64, Act(Hi(a), kh)));
    PowPlus(64, 64, Act(Hi(a), kh));
  }

  lemma TimesAdd(a: Vec, b: Vec, k: Vec)
    ensures Times(Add(a, b), k) == Add(Times(a, k), Times(b, k))
  {
    hide Reduce, Vpmsumd, KeyL, KeyH, SwapU64;
    VpmsumdAdd(a, b, KeyL(k));
    VpmsumdAdd(a, b, SwapU64(k));
    VpmsumdAdd(a, b, KeyH(k));
    ReduceAdd(Vpmsumd(a, KeyL(k)), Vpmsumd(a, SwapU64(k)), Vpmsumd(a, KeyH(k)),
              Vpmsumd(b, KeyL(k)), Vpmsumd(b, SwapU64(k)), Vpmsumd(b, KeyH(k)));
  }

  /** Multiplying twice is multiplying once by the product of the keys. */
  lemma TimesTwice(a: Vec, j: Vec, k: Vec)
    ensures Times(Times(a, j), k) == Times(a, Times(j, k))
  {
    hide Times, Mul;
    var p, q := Times(a, j), Times(j, k);
    TimesMeans(a, j);
    TimesMeans(j, k);
    TimesMeans(p, k);
    TimesMeans(a, q);
    MulPow(p, 128, k);
    MulAssociates(a, j, k);
    MulCommutes(a, q);
    MulPow(q, 128, a);
    MulCommutes(Mul(j, k), a);
    PowInjective(128, Mul(p, k), Mul(a, q));
    PowInjective(128, Times(p, k), Times(a, q));
  }

  lemma MulPow(a: Vec, n: nat, b: Vec)
    ensures Mul(Pow(n, a), b) == Pow(n, Mul(a, b))
  {
    MulCommutes(Pow(n, a), b);
    ActPow(b, n, a);
    MulCommutes(b, a);
  }

  /** Reversing the roles of the bits: SP 800-38D multiplies by dividing by x. */
  lemma {:induction false} NistMulMeans(p: Poly, v: Vec)
    requires p != []
    ensures Pow(|p| - 1, NistMul(p, v)) == Act(p, v)
  {
    var n := |p| - 1;
    var q := p[..n];
    PowAdd(n, If(p[n], v), NistMul(q, DivX(v)));
    assert p == q + [p[n]];
    ActConcat(q, [p[n]], v);
    assert [p[n]][1..] == [];
    AddZero(Pow(n, If(p[n], v)));
    PowZero(n);
    AddZero(If(p[n], Pow(n, v)));
    if n > 0 {
      NistMulMeans(q, DivX(v));
      PowSucc(n - 1, NistMul(q, DivX(v)));
      ActMulX(q, DivX(v));
      MulXDivX(v);
      AddLaws(Pow(n, If(p[n], v)), Act(q, v), ZERO);
    } else {
      assert q == [];
      AddZero(If(p[n], v));
    }
  }

  lemma {:induction false} PowZero(n: nat)
    ensures Pow(n, ZERO) == ZERO
  {
    if n > 0 {
      MulXZero();
      PowZero(n - 1);
    }
  }

  /** With the key doubled at setup, the code's product is the product of SP 800-38D. */
  lemma TimesIsNistMul(a: Vec, h: Vec)
    ensures Times(a, MulX(h)) == NistMul(a, h)
  {
    hide Times, Reduce;
    TimesMeans(a, MulX(h));
    ActMulX(a, h);
    NistMulMeans(a, h);
    PowSucc(127, NistMul(a, h));
    PowInjective(128, Times(a, MulX(h)), NistMul(a, h));
  }

  // ---- keys and tables ----

  /** Table rows: the fold constant, then low, swapped and high halves of four keys. */
  ghost predicate Row(t: seq<Vec>, n: nat, k: Vec)
    requires n < 4 && |t| == 13
  {
    t[3 * n + 1] == KeyL(k) && t[3 * n + 2] == SwapU64(k) && t[3 * n + 3] == KeyH(k)
  }

  /** The key doubled and its next three powers. */
  function KeyPower(h: Vec, n: nat): Vec {
    if n == 0 then MulX(h) else Times(KeyPower(h, n - 1), MulX(h))
  }

  ghost predicate TableFor(t: seq<Vec>, h: Vec) {
    && |t| == 13
    && t[0] == Fold()
    && Row(t, 0, KeyPower(h, 0)) && Row(t, 1, KeyPower(h, 1))
    && Row(t, 2, KeyPower(h, 2)) && Row(t, 3, KeyPower(h, 3))
  }

  /** A table entry of power n + 1 stands for n + 1 multiplications by the hash key. */
  lemma {:induction false} TimesPower(a: Vec, h: Vec, n: nat)
    ensures Times(a, KeyPower(h, n + 1)) == NistMul(Times(a, KeyPower(h, n)), h)
  {
    hide Times;
    TimesTwice(a, KeyPower(h, n), MulX(h));
    TimesIsNistMul(Times(a, KeyPower(h, n)), h);
  }

  /** Setup multiplies the power by itself where the definition multiplies by the key again. */
  lemma PowerFour(h: Vec)
    ensures KeyPower(h, 3) == Times(KeyPower(h, 1), KeyPower(h, 1))
  {
    hide Times;
    var k, k2 := KeyPower(h, 0), KeyPower(h, 1);
    assert KeyPower(h, 3) == Times(Times(k2, k), k);
    TimesTwice(k2, k, k);
  }

  lemma VpmsumdCommutes(a: Vec, b: Vec)
    ensures Vpmsumd(a, b) == Vpmsumd(b, a)
  {
    ClmulCommutes(Hi(a), Hi(b));
    ClmulCommutes(Lo(a), Lo(b));
  }

  lemma ClmulCommutes(a: Poly, b: Poly)
    requires |a| == |b| == 64
    ensures Clmul(a, b) == Clmul(b, a)
  {
    ClmulIsAct(a, b);
    ClmulIsAct(b, a);
    ActUnit(a, 0);
    ActUnit(b, 0);
    assert Act(a, ONE) == a + Zeros(64) && Act(b, ONE) == b + Zeros(64);
    ActAct(a, b, ONE);
  }

  lemma TimesCommutes(a: Vec, k: Vec)
    ensures Times(a, k) == Times(k, a)
  {
    hide Times, Mul;
    TimesMeans(a, k);
    TimesMeans(k, a);
    MulCommutes(a, k);
    PowInjective(128, Times(a, k), Times(k, a));
  }

  /** Sums of three in the orders the code forms them. */
  lemma Sums(x: Vec, y: Vec, z: Vec)
    ensures Add(Add(x, y), z) == Add(Add(y, z), x) == Add(y, Add(x, z)) == Add(Add(z, x), y) == Add(Add(z, y), x)
  {
  }

  /** The reduction as setup performs it, from the three products of the rows of j with k. */
  lemma SetupProduct(j: Vec, k: Vec, s: Vec, r: Vec)
    requires s == Add(SwapU64(Add(Vpmsumd(KeyL(j), k), RotLeft(Vpmsumd(SwapU64(j), k)))),
                      Vpmsumd(Vpmsumd(KeyL(j), k), Fold()))
    requires r == Add(Add(SwapU64(s), Vpmsumd(s, Fold())),
                      Add(Vpmsumd(KeyH(j), k), RotRight(Vpmsumd(SwapU64(j), k))))
    ensures r == Times(j, k)
  {
    hide Vpmsumd, SwapU64, RotLeft, RotRight, KeyL, KeyH, Add;
    VpmsumdCommutes(KeyL(j), k);
    VpmsumdCommutes(SwapU64(j), k);
    VpmsumdCommutes(KeyH(j), k);
    TimesCommutes(j, k);
  }

  /** The second power of the doubled key. */
  method SetupSquare(H1: Vec, H1l: Vec, T1: Vec, H1h: Vec, C2: Vec) returns (r: Vec)
    requires H1l == KeyL(H1) && T1 == SwapU64(H1) && H1h == KeyH(H1) && C2 == Fold()
    ensures r == Times(H1, H1)
  {
    hide Vpmsumd, Reduce, SwapU64, RotLeft, RotRight, Add, Times, KeyL, KeyH, Fold;
    var H2l := Vpmsumd(H1l, H1);
    var H2 := Vpmsumd(T1, H1);
    var H2h := Vpmsumd(H1h, H1);
    var T0 := Vpmsumd(H2l, C2);
    H2l := Add(H2l, RotLeft(H2));
    H2h := Add(H2h, RotRight(H2));
    H2l := SwapU64(H2l);
    H2l := Add(H2l, T0);
    ghost var s := H2l;
    T0 := SwapU64(H2l);
    H2l := Vpmsumd(H2l, C2);
    r := Add(Add(H2l, H2h), T0);
    Sums(SwapU64(s), Vpmsumd(s, C2), H2h);
    SetupProduct(H1, H1, s, r);
  }

  /** The third and fourth powers, reduced side by side. */
  method SetupCubeAndFourth(H1: Vec, H2: Vec, H2l: Vec, T2: Vec, H2h: Vec, C2: Vec) returns (H3: Vec, H4: Vec)
    requires H2l == KeyL(H2) && T2 == SwapU64(H2) && H2h == KeyH(H2) && C2 == Fold()
    ensures H3 == Times(H2, H1) && H4 == Times(H2, H2)
  {
    hide Vpmsumd, Reduce, SwapU64, RotLeft, RotRight, Add, Times, KeyL, KeyH, Fold;
    var H3l := Vpmsumd(H2l, H1);
    var H4l := Vpmsumd(H2l, H2);
    H3 := Vpmsumd(T2, H1);
    H4 := Vpmsumd(T2, H2);
    var H3h := Vpmsumd(H2h, H1);
    var H4h := Vpmsumd(H2h, H2);
    var T3 := Vpmsumd(H3l, C2);
    var T4 := Vpmsumd(H4l, C2);
    H3l := Add(H3l, RotLeft(H3));
    H3h := Add(H3h, RotRight(H3));
    H4l := Add(H4l, RotLeft(H4));
    H4h := Add(H4h, RotRight(H4));
    H3 := SwapU64(H3l);
    H4 := SwapU64(H4l);
    H3 := Add(H3, T3);
    H4 := Add(H4, T4);
    ghost var s3, s4 := H3, H4;
    T3 := SwapU64(H3);
    T4 := SwapU64(H4);
    H3 := Vpmsumd(H3, C2);
    H4 := Vpmsumd(H4, C2);
    T3 := Add(T3, H3h);
    T4 := Add(T4, H4h);
    H3 := Add(H3, T3);
    H4 := Add(H4, T4);
    Sums(SwapU64(s3), Vpmsumd(s3, C2), H3h);
    Sums(SwapU64(s4), Vpmsumd(s4, C2), H4h);
    SetupProduct(H2, H1, s3, H3);
    SetupProduct(H2, H2, s4, H4);
  }

  method StoreKey(table: array<Vec>, n: nat, l: Vec, m: Vec, h: Vec)
    requires table.Length == 13 && n < 4
    modifies table
    ensures table[3 * n + 1] == l && table[3 * n + 2] == m && table[3 * n + 3] == h
    ensures forall i :: 0 <= i < 3 * n + 1 ==> table[i] == old(table[i])
  {
    table[3 * n + 1] := l;
    table[3 * n + 2] := m;
    table[3 * n + 3] := h;
  }

  method GhashSetup(table: array<Vec>, key: seq<byte>)
    requires table.Length == 13 && |key| == 16
    modifies table
    ensures TableFor(table[..], LoadBE(key))
  {
    hide Vpmsumd, Reduce, SwapU64, RotLeft, RotRight, Add, LoadBE, Times;
    var H := LoadBE(key);
    var C2 := Reduction();
    var carry := If(H[127], C2);
    var H1 := Shl1(H);
    H1 := Add(H1, carry);
    assert H1 == KeyPower(H, 0);

    var T1 := SwapU64(H1);
    var H1l := RotRight(T1);
    var H1h := RotLeft(T1);
    C2 := RotRight(C2);
    table[0] := C2;
    StoreKey(table, 0, H1l, T1, H1h);

    var H2 := SetupSquare(H1, H1l, T1, H1h, C2);
    var T2 := SwapU64(H2);
    var H2l := RotRight(T2);
    var H2h := RotLeft(T2);
    StoreKey(table, 1, H2l, T2, H2h);

    var H3, H4 := SetupCubeAndFourth(H1, H2, H2l, T2, H2h, C2);
    PowerFour(H);
    H3 := SwapU64(H3);
    H4 := SwapU64(H4);
    var H3l := RotRight(H3);
    var H3h := RotLeft(H3);
    StoreKey(table, 2, H3l, H3, H3h);
    var H4l := RotRight(H4);
    var H4h := RotLeft(H4);
    StoreKey(table, 3, H4l, H4, H4h);
  }

  // ---- four blocks at a time ----

  lemma NistMulAdd(a: Vec, b: Vec, h: Vec)
    ensures NistMul(Add(a, b), h) == Add(NistMul(a, h), NistMul(b, h))
  {
    hide Times, NistMul, MulX;
    TimesIsNistMul(a, h);
    TimesIsNistMul(b, h);
    TimesIsNistMul(Add(a, b), h);
    TimesAdd(a, b, MulX(h));
  }

  /** Four Horner steps from x = y + i0 are one sum of products with four powers of the key. */
  lemma FourSteps(h: Vec, x: Vec, i1: Vec, i2: Vec, i3: Vec)
    ensures NistMul(Add(NistMul(Add(NistMul(Add(NistMul(x, h), i1), h), i2), h), i3), h)
         == Add(Add(Times(x, KeyPower(h, 3)), Times(i1, KeyPower(h, 2))),
                Add(Times(i2, KeyPower(h, 1)), Times(i3, KeyPower(h, 0))))
  {
    hide Times, NistMul, Add;
    TimesIsNistMul(x, h);
    TimesIsNistMul(i1, h);
    TimesIsNistMul(i2, h);
    TimesIsNistMul(i3, h);
    TimesPower(x, h, 0);
    TimesPower(x, h, 1);
    TimesPower(x, h, 2);
    TimesPower(i1, h, 0);
    TimesPower(i1, h, 1);
    TimesPower(i2, h, 0);
    var x1 := NistMul(x, h);
    var x2, j1 := NistMul(x1, h), NistMul(i1, h);
    NistMulAdd(x1, i1, h);
    NistMulAdd(Add(x2, j1), i2, h);
    NistMulAdd(x2, j1, h);
    var x3, j2, k1 := NistMul(x2, h), NistMul(j1, h), NistMul(i2, h);
    NistMulAdd(Add(Add(x3, j2), k1), i3, h);
    NistMulAdd(Add(x3, j2), k1, h);
    NistMulAdd(x3, j2, h);
    AddLaws(Add(NistMul(x3, h), NistMul(j2, h)), NistMul(k1, h), NistMul(i3, h));
  }

  // The part of a group's sums that does not depend on the running value.

  function TailL(h: Vec, i1: Vec, i2: Vec, i3: Vec): Vec {
    Add(Vpmsumd(MergeLo(i2, i3), MergeHi(SwapU64(KeyPower(h, 1)), SwapU64(KeyPower(h, 0)))),
        Vpmsumd(i1, KeyL(KeyPower(h, 2))))
  }

  function TailM(h: Vec, i1: Vec, i2: Vec, i3: Vec): Vec {
    Add(Vpmsumd(i3, SwapU64(KeyPower(h, 0))),
        Add(Vpmsumd(i2, SwapU64(KeyPower(h, 1))), Vpmsumd(i1, SwapU64(KeyPower(h, 2)))))
  }

  function TailH(h: Vec, i1: Vec, i2: Vec, i3: Vec): Vec {
    Add(Vpmsumd(MergeHi(i2, i3), MergeLo(SwapU64(KeyPower(h, 1)), SwapU64(KeyPower(h, 0)))),
        Vpmsumd(i1, KeyH(KeyPower(h, 2))))
  }

  /** Two products in one instruction: low halves against low halves, high against high. */
  lemma Merged(a: Vec, b: Vec, j: Vec, k: Vec)
    ensures Vpmsumd(MergeLo(a, b), MergeHi(SwapU64(j), SwapU64(k))) == Add(Vpmsumd(a, KeyL(j)), Vpmsumd(b, KeyL(k)))
    ensures Vpmsumd(MergeHi(a, b), MergeLo(SwapU64(j), SwapU64(k))) == Add(Vpmsumd(a, KeyH(j)), Vpmsumd(b, KeyH(k)))
  {
    Products(a, j);
    Products(b, k);
    assert Hi(MergeLo(a, b)) == Lo(a) && Lo(MergeLo(a, b)) == Lo(b);
    assert Hi(MergeHi(a, b)) == Hi(a) && Lo(MergeHi(a, b)) == Hi(b);
    var l, m := MergeHi(SwapU64(j), SwapU64(k)), MergeLo(SwapU64(j), SwapU64(k));
    assert Hi(l) == Lo(j) && Lo(l) == Lo(k);
    assert Hi(m) == Hi(j) && Lo(m) == Hi(k);
  }

  /** One group: reducing the sums of the four products is four steps of GHASH. */
  lemma FourBlocks(h: Vec, x: Vec, i1: Vec, i2: Vec, i3: Vec)
    ensures Reduce(Add(Vpmsumd(x, KeyL(KeyPower(h, 3))), TailL(h, i1, i2, i3)),
                   Add(Vpmsumd(x, SwapU64(KeyPower(h, 3))), TailM(h, i1, i2, i3)),
                   Add(Vpmsumd(x, KeyH(KeyPower(h, 3))), TailH(h, i1, i2, i3)))
         == NistMul(Add(NistMul(Add(NistMul(Add(NistMul(x, h), i1), h), i2), h), i3), h)
  {
    hide Vpmsumd, Reduce, Add, SwapU64, KeyL, KeyH, NistMul, KeyPower, MergeHi, MergeLo;
    FourSteps(h, x, i1, i2, i3);
    var k1, k2, k3, k4 := KeyPower(h, 0), KeyPower(h, 1), KeyPower(h, 2), KeyPower(h, 3);
    Merged(i2, i3, k2, k1);
    var l1, m1, h1 := Vpmsumd(i1, KeyL(k3)), Vpmsumd(i1, SwapU64(k3)), Vpmsumd(i1, KeyH(k3));
    var l2, m2, h2 := Vpmsumd(i2, KeyL(k2)), Vpmsumd(i2, SwapU64(k2)), Vpmsumd(i2, KeyH(k2));
    var l3, m3, h3 := Vpmsumd(i3, KeyL(k1)), Vpmsumd(i3, SwapU64(k1)), Vpmsumd(i3, KeyH(k1));
    var l0, m0, h0 := Vpmsumd(x, KeyL(k4)), Vpmsumd(x, SwapU64(k4)), Vpmsumd(x, KeyH(k4));
    FourSums(l0, l1, l2, l3);
    Sums(m3, m2, m1);
    AddLaws(m1, Add(m2, m3), m0);
    AddLaws(m2, m3, m0);
    FourSums(m0, m1, m2, m3);
    FourSums(h0, h1, h2, h3);
    ReduceAdd(l2, m2, h2, l3, m3, h3);
    ReduceAdd(l0, m0, h0, l1, m1, h1);
    ReduceAdd(Add(l0, l1), Add(m0, m1), Add(h0, h1), Add(l2, l3), Add(m2, m3), Add(h2, h3));
  }

  lemma FourSums(a: Vec, b: Vec, c: Vec, d: Vec)
    ensures Add(a, Add(Add(c, d), b)) == Add(Add(a, b), Add(c, d))
    ensures Add(a, Add(d, Add(c, b))) == Add(Add(a, b), Add(c, d))
  {
  }

  lemma GhashNext(h: Vec, y: Vec, bs: seq<Vec>, n: nat)
    requires n < |bs|
    ensures Ghash(h, y, bs[..n + 1]) == NistMul(Add(Ghash(h, y, bs[..n]), bs[n]), h)
  {
    assert bs[..n + 1][..n] == bs[..n];
  }

  /** Four more blocks, in terms of the whole sequence. */
  lemma GhashFour(h: Vec, y: Vec, bs: seq<Vec>, n: nat)
    requires n + 4 <= |bs|
    ensures Ghash(h, y, bs[..n + 4])
         == NistMul(Add(NistMul(Add(NistMul(Add(NistMul(Add(Ghash(h, y, bs[..n]), bs[n]), h), bs[n + 1]), h),
                                    bs[n + 2]), h), bs[n + 3]), h)
  {
    GhashNext(h, y, bs, n);
    GhashNext(h, y, bs, n + 1);
    GhashNext(h, y, bs, n + 2);
    GhashNext(h, y, bs, n + 3);
  }

  /** The end of a group, shared by every group: sums with the running value, then the reduction. */
  lemma GroupEnd(h: Vec, x: Vec, i1: Vec, i2: Vec, i3: Vec, l: Vec, m: Vec, hh: Vec, s: Vec, r: Vec)
    requires l == Add(Vpmsumd(x, KeyL(KeyPower(h, 3))), TailL(h, i1, i2, i3))
    requires m == Add(Vpmsumd(x, SwapU64(KeyPower(h, 3))), TailM(h, i1, i2, i3))
    requires hh == Add(Vpmsumd(x, KeyH(KeyPower(h, 3))), TailH(h, i1, i2, i3))
    requires s == Add(SwapU64(Add(l, RotLeft(m))), Vpmsumd(l, Fold()))
    requires r == Add(Add(Add(hh, RotRight(m)), SwapU64(s)), Vpmsumd(s, Fold()))
    ensures r == NistMul(Add(NistMul(Add(NistMul(Add(NistMul(x, h), i1), h), i2), h), i3), h)
  {
    hide Vpmsumd, Add, SwapU64, KeyL, KeyH, KeyPower, RotLeft, RotRight, Fold, TailL, TailM, TailH, NistMul;
    FourBlocks(h, x, i1, i2, i3);
    AddLaws(Add(hh, RotRight(m)), SwapU64(s), Vpmsumd(s, Fold()));
    AddLaws(Add(hh, RotRight(m)), Add(SwapU64(s), Vpmsumd(s, Fold())), ZERO);
  }

  /** The products of the first group that do not wait for the running value. */
  method FirstProducts(in1: Vec, in2: Vec, in3: Vec, H0m: Vec, H2m: Vec, H3l: Vec, H3m: Vec, H3h: Vec, H21l: Vec, H21h: Vec,
                       ghost h: Vec) returns (Xl3: Vec, Xm3: Vec, Xh3: Vec)
    requires H0m == SwapU64(KeyPower(h, 0)) && H2m == SwapU64(KeyPower(h, 1))
    requires H3l == KeyL(KeyPower(h, 2)) && H3m == SwapU64(KeyPower(h, 2)) && H3h == KeyH(KeyPower(h, 2))
    requires H21l == MergeHi(H2m, H0m) && H21h == MergeLo(H2m, H0m)
    ensures Xl3 == TailL(h, in1, in2, in3) && Xm3 == TailM(h, in1, in2, in3) && Xh3 == TailH(h, in1, in2, in3)
  {
    hide Vpmsumd, Add, SwapU64, KeyL, KeyH, KeyPower, MergeHi, MergeLo;
    var Xl1 := Vpmsumd(in1, H3l);
    var Xm1 := Vpmsumd(in1, H3m);
    var Xh1 := Vpmsumd(in1, H3h);
    var mergeL := MergeLo(in2, in3);
    var mergeH := MergeHi(in2, in3);
    var Xm2 := Vpmsumd(in2, H2m);
    Xl3 := Vpmsumd(mergeL, H21l);
    Xm3 := Vpmsumd(in3, H0m);
    Xh3 := Vpmsumd(mergeH, H21h);
    Xm2 := Add(Xm2, Xm1);
    Xl3 := Add(Xl3, Xl1);
    Xm3 := Add(Xm3, Xm2);
    Xh3 := Add(Xh3, Xh1);
  }

  /** The end of the last group: its first block's products join the others and are reduced. */
  method LastReduction(x: Vec, Xl3: Vec, Xm3: Vec, Xh3: Vec, H4l: Vec, H4m: Vec, H4h: Vec, c2: Vec,
                       ghost h: Vec, ghost i1: Vec, ghost i2: Vec, ghost i3: Vec) returns (cur: Vec)
    requires H4l == KeyL(KeyPower(h, 3)) && H4m == SwapU64(KeyPower(h, 3)) && H4h == KeyH(KeyPower(h, 3)) && c2 == Fold()
    requires Xl3 == TailL(h, i1, i2, i3) && Xm3 == TailM(h, i1, i2, i3) && Xh3 == TailH(h, i1, i2, i3)
    ensures cur == NistMul(Add(NistMul(Add(NistMul(Add(NistMul(x, h), i1), h), i2), h), i3), h)
  {
    hide Vpmsumd, Add, SwapU64, KeyL, KeyH, KeyPower, RotLeft, RotRight, Fold, TailL, TailM, TailH, NistMul;
    var Xl := Vpmsumd(x, H4l);
    var Xm := Vpmsumd(x, H4m);
    var Xh := Vpmsumd(x, H4h);

    Xl := Add(Xl, Xl3);
    Xm := Add(Xm, Xm3);
    var t0 := Vpmsumd(Xl, c2);
    Xh := Add(Xh, Xh3);
    ghost var l, hh := Xl, Xh;
    var t1 := RotLeft(Xm);
    var t2 := RotRight(Xm);
    Xl := Add(Xl, t1);
    Xh := Add(Xh, t2);

    Xl := SwapU64(Xl);
    Xl := Add(Xl, t0);
    ghost var s := Xl;

    var XlRotate := SwapU64(Xl);
    Xl := Vpmsumd(Xl, c2);
    Xh := Add(Xh, XlRotate);
    cur := Add(Xh, Xl);
    GroupEnd(h, x, i1, i2, i3, l, Xm, hh, s, cur);
  }

  /** The pipelined loop: each turn loads and multiplies the next group while it reduces the one before. */
  method HashGroups(cur0: Vec, table: array<Vec>, buf: seq<byte>, start: nat, remaining: nat,
                    ghost nblocks: nat, ghost h: Vec, ghost y: Vec) returns (cur: Vec)
    requires 16 * nblocks <= |buf| && TableFor(table[..], h)
    requires 0 < remaining <= nblocks && remaining % 4 == 0 && start == 16 * (nblocks - remaining)
    requires cur0 == Ghash(h, y, Blocks(buf, nblocks)[..nblocks - remaining])
    ensures cur == Ghash(h, y, Blocks(buf, nblocks))
  {
    hide Vpmsumd, Reduce, Add, SwapU64, KeyL, KeyH, NistMul, KeyPower, MergeHi, MergeLo, RotLeft, RotRight, Fold,
         LoadBE, Times, Ghash;
    ghost var bs := Blocks(buf, nblocks);
    ghost var done := nblocks - remaining;
    var pos, blocksRemaining := start, remaining;
    var c2, H0m := table[0], table[2];
    var H2m, H3l, H3m, H3h := table[5], table[7], table[8], table[9];
    var H4l, H4m, H4h := table[10], table[11], table[12];

    var in0 := LoadBE(buf[pos..pos + 16]);
    var in1 := LoadBE(buf[pos + 16..pos + 32]);
    var in2 := LoadBE(buf[pos + 32..pos + 48]);
    var in3 := LoadBE(buf[pos + 48..pos + 64]);
    pos := pos + 64;

    var Xh := Add(in0, cur0);
    AddLaws(in0, cur0, ZERO);
    var H21l := MergeHi(H2m, H0m);
    var H21h := MergeLo(H2m, H0m);
    var Xl3, Xm3, Xh3 := FirstProducts(in1, in2, in3, H0m, H2m, H3l, H3m, H3h, H21l, H21h, h);

    var Xl, Xm, XlRotate, t0, t1, t2, Xl1, Xm1, Xm2, Xh1, mergeL, mergeH;
    while blocksRemaining > 4
      invariant 4 <= blocksRemaining <= nblocks && blocksRemaining % 4 == 0
      invariant done == nblocks - blocksRemaining && pos == 16 * (done + 4)
      invariant Xh == Add(Ghash(h, y, bs[..done]), bs[done])
      invariant Xl3 == TailL(h, bs[done + 1], bs[done + 2], bs[done + 3])
      invariant Xm3 == TailM(h, bs[done + 1], bs[done + 2], bs[done + 3])
      invariant Xh3 == TailH(h, bs[done + 1], bs[done + 2], bs[done + 3])
    {
      in0 := LoadBE(buf[pos..pos + 16]);
      in1 := LoadBE(buf[pos + 16..pos + 32]);
      in2 := LoadBE(buf[pos + 32..pos + 48]);
      in3 := LoadBE(buf[pos + 48..pos + 64]);
      pos := pos + 64;
      ghost var x := Xh;

      Xl := Vpmsumd(Xh, H4l);
      Xm := Vpmsumd(Xh, H4m);
      Xh := Vpmsumd(Xh, H4h);
      Xl1 := Vpmsumd(in1, H3l);
      Xm1 := Vpmsumd(in1, H3m);
      Xh1 := Vpmsumd(in1, H3h);

      Xl := Add(Xl, Xl3);
      Xm := Add(Xm, Xm3);
      Xh := Add(Xh, Xh3);
      mergeL := MergeLo(in2, in3);
      mergeH := MergeHi(in2, in3);
      ghost var l, m, hh := Xl, Xm, Xh;

      t0 := Vpmsumd(Xl, c2);
      Xl3 := Vpmsumd(mergeL, H21l);
      Xh3 := Vpmsumd(mergeH, H21h);

      t1 := RotLeft(Xm);
      t2 := RotRight(Xm);
      Xl := Add(Xl, t1);
      Xh := Add(Xh, t2);
      ghost var hr := Xh;

      Xl := SwapU64(Xl);
      Xl := Add(Xl, t0);
      ghost var s := Xl;

      XlRotate := SwapU64(Xl);
      Xm2 := Vpmsumd(in2, H2m);
      Xm3 := Vpmsumd(in3, H0m);
      Xl := Vpmsumd(Xl, c2);

      Xl3 := Add(Xl3, Xl1);
      Xh3 := Add(Xh3, Xh1);
      Xh := Add(Xh, in0);
      Xm2 := Add(Xm2, Xm1);
      Xh := Add(Xh, XlRotate);
      Xm3 := Add(Xm3, Xm2);
      Xh := Add(Xh, Xl);

      GroupEnd(h, x, bs[done + 1], bs[done + 2], bs[done + 3], l, m, hh, s, Add(Add(hr, XlRotate), Xl));
      GhashFour(h, y, bs, done);
      Interleaved(hr, in0, XlRotate, Xl);
      blocksRemaining := blocksRemaining - 4;
      done := done + 4;
    }

    cur := LastReduction(Xh, Xl3, Xm3, Xh3, H4l, H4m, H4h, c2, h, bs[done + 1], bs[done + 2], bs[done + 3]);
    GhashFour(h, y, bs, done);
    assert bs[..done + 4] == bs;
  }

  lemma Interleaved(a: Vec, b: Vec, c: Vec, d: Vec)
    ensures Add(Add(Add(a, b), c), d) == Add(Add(Add(a, c), d), b)
  {
  }

  method GhashVpmsum(result: array<byte>, table: array<Vec>, buf: seq<byte>, nblocks: nat, ghost h: Vec)
    requires result.Length == 16 && 16 * nblocks <= |buf|
    requires TableFor(table[..], h)
    modifies result
    ensures result[..] == StoreBE(Ghash(h, old(LoadBE(result[..])), Blocks(buf, nblocks)))
  {
    hide Vpmsumd, Reduce, Add, SwapU64, KeyL, KeyH, NistMul, KeyPower, MergeHi, MergeLo, RotLeft, RotRight, Fold,
         LoadBE, StoreBE, Times, TailL, TailM, TailH;
    ghost var bs := Blocks(buf, nblocks);
    ghost var K1, K2, K3, K4 := KeyPower(h, 0), KeyPower(h, 1), KeyPower(h, 2), KeyPower(h, 3);
    var pos := 0;
    var blocksRemaining := nblocks;
    var cur := LoadBE(result[..]);
    ghost var y := cur;

    var c2, H0l, H0m, H0h := table[0], table[1], table[2], table[3];

    var notMultipleOfFour := nblocks % 4;
    assert bs[..0] == [];
    while notMultipleOfFour > 0
      invariant 0 <= notMultipleOfFour <= blocksRemaining <= nblocks
      invariant (blocksRemaining - notMultipleOfFour) % 4 == 0
      invariant pos == 16 * (nblocks - blocksRemaining)
      invariant cur == Ghash(h, y, bs[..nblocks - blocksRemaining])
    {
      var b := LoadBE(buf[pos..pos + 16]);
      ghost var done := nblocks - blocksRemaining;
      pos := pos + 16;
      blocksRemaining := blocksRemaining - 1;
      ghost var before := cur;
      cur := HashBlock(cur, b, c2, H0l, H0m, H0h, h);
      assert b == bs[done] && bs[..done + 1][..done] == bs[..done];
      notMultipleOfFour := notMultipleOfFour - 1;
    }

    if blocksRemaining > 0 {
      cur := HashGroups(cur, table, buf, pos, blocksRemaining, nblocks, h, y);
    }

    assert bs[..nblocks] == bs;
    var out := StoreBE(cur);
    forall k | 0 <= k < 16 {
      result[k] := out[k];
    }
  }

  method HashBlock(cur0: Vec, b: Vec, c2: Vec, H0l: Vec, H0m: Vec, H0h: Vec, ghost h: Vec) returns (cur: Vec)
    requires c2 == Fold() && H0l == KeyL(KeyPower(h, 0)) && H0m == SwapU64(KeyPower(h, 0)) && H0h == KeyH(KeyPower(h, 0))
    ensures cur == NistMul(Add(cur0, b), h)
  {
    hide Vpmsumd, Add, SwapU64, KeyL, KeyH, NistMul, RotLeft, RotRight, Fold;
    cur := Add(cur0, b);
    ghost var x := cur;
    var Hl := Vpmsumd(cur, H0l);
    var Hm := Vpmsumd(cur, H0m);
    var Hh := Vpmsumd(cur, H0h);
    var t0 := Vpmsumd(Hl, c2);
    Hl := Add(Hl, RotLeft(Hm));
    var HmRight := RotRight(Hm);
    Hh := Add(Hh, HmRight);
    var HlRotate := SwapU64(Hl);
    HlRotate := Add(HlRotate, t0);
    ghost var s := HlRotate;
    Hl := SwapU64(HlRotate);
    HlRotate := Vpmsumd(HlRotate, c2);
    Sums(Hl, HlRotate, Hh);
    Sums(HlRotate, Hh, Hl);
    Sums(Hl, Hh, HlRotate);
    Hl := Add(Hl, Hh);
    Hl := Add(Hl, HlRotate);
    TimesIsNistMul(x, h);
    cur := Hl;
  }
}
