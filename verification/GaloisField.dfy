/** GF(2)[x] modulo x^128 + x^127 + x^126 + x^121 + 1.  A polynomial is the sequence of its
    coefficients, lowest first, so bit i of a 128-bit vector is the coefficient of x^i.  A
    polynomial of any length acts on a vector by shifting and adding; the product of two
    vectors is the action of the first on the second. */
module GaloisField {
  type Poly = seq<bool>
  type Vec = v: Poly | |v| == 128 witness Zeros(128)

  function Zeros(n: nat): (z: Poly)
    ensures |z| == n
  {
    seq(n, i => false)
  }

  /** x^n as a vector. */
  function Unit(n: nat): (u: Vec)
    requires n < 128
  {
    seq(128, i => i == n)
  }

  const ZERO: Vec := Zeros(128)
  const ONE: Vec := Unit(0)

  /** x^128 modulo the polynomial. */
  function Reduction(): Vec {
    seq(128, i => i == 127 || i == 126 || i == 121 || i == 0)
  }

  /** x^-1 modulo the polynomial. */
  function InverseX(): Vec {
    seq(128, i => i == 127 || i == 126 || i == 125 || i == 120)
  }

  function Add(a: Poly, b: Poly): (c: Poly)
    requires |a| == |b|
    ensures |c| == |a|
  {
    seq(|a|, i requires 0 <= i < |a| => a[i] != b[i])
  }

  function If(c: bool, v: Vec): Vec {
    if c then v else ZERO
  }

  function Shl1(v: Vec): Vec {
    [false] + v[..127]
  }

  function Shr1(v: Vec): Vec {
    v[1..] + [false]
  }

  /** Multiplication by x. */
  function MulX(v: Vec): Vec {
    Add(Shl1(v), If(v[127], Reduction()))
  }

  /** Division by x: the step of the GCM multiplication, and mulx_ghash. */
  function DivX(v: Vec): Vec {
    Add(Shr1(v), If(v[0], InverseX()))
  }

  /** Multiplication by x^n. */
  function Pow(n: nat, v: Vec): Vec {
    if n == 0 then v else Pow(n - 1, MulX(v))
  }

  /** p(x) times b. */
  function Act(p: Poly, b: Vec): Vec {
    if p == [] then ZERO else Add(If(p[0], b), Act(p[1..], MulX(b)))
  }

  function Mul(a: Vec, b: Vec): Vec {
    Act(a, b)
  }

  // ---- addition ----

  lemma AddLaws(a: Poly, b: Poly, c: Poly)
    requires |a| == |b| == |c|
    ensures Add(a, b) == Add(b, a)
    ensures Add(Add(a, b), c) == Add(a, Add(b, c))
  {
  }

  lemma AddZero(a: Poly)
    ensures Add(a, Zeros(|a|)) == a && Add(Zeros(|a|), a) == a && Add(a, a) == Zeros(|a|)
  {
  }

  lemma AddMedial(a: Poly, b: Poly, c: Poly, d: Poly)
    requires |a| == |b| == |c| == |d|
    ensures Add(Add(a, b), Add(c, d)) == Add(Add(a, c), Add(b, d))
  {
  }

  lemma IfAdd(p: bool, q: bool, v: Vec)
    ensures If(p != q, v) == Add(If(p, v), If(q, v))
  {
    AddZero(v);
    AddZero(ZERO);
  }

  // ---- multiplication by x is linear and invertible ----

  lemma MulXAdd(a: Vec, b: Vec)
    ensures MulX(Add(a, b)) == Add(MulX(a), MulX(b))
  {
    assert Shl1(Add(a, b)) == Add(Shl1(a), Shl1(b));
    IfAdd(a[127], b[127], Reduction());
    AddMedial(Shl1(a), Shl1(b), If(a[127], Reduction()), If(b[127], Reduction()));
  }

  lemma MulXDivX(v: Vec)
    ensures MulX(DivX(v)) == v
  {
  }

  lemma DivXMulX(v: Vec)
    ensures DivX(MulX(v)) == v
  {
  }

  lemma MulXZero()
    ensures MulX(ZERO) == ZERO
  {
    AddZero(ZERO);
  }

  lemma {:induction false} PowAdd(n: nat, a: Vec, b: Vec)
    ensures Pow(n, Add(a, b)) == Add(Pow(n, a), Pow(n, b))
  {
    if n > 0 {
      MulXAdd(a, b);
      PowAdd(n - 1, MulX(a), MulX(b));
    }
  }

  lemma {:induction false} PowPlus(m: nat, n: nat, v: Vec)
    ensures Pow(m, Pow(n, v)) == Pow(m + n, v)
  {
    if n > 0 {
      PowPlus(m, n - 1, MulX(v));
    }
  }

  lemma PowSucc(n: nat, v: Vec)
    ensures Pow(n + 1, v) == MulX(Pow(n, v))
  {
    PowPlus(1, n, v);
    assert Pow(1, Pow(n, v)) == Pow(0, MulX(Pow(n, v)));
  }

  /** Multiplication by a power of x forgets nothing. */
  lemma {:induction false} PowInjective(n: nat, a: Vec, b: Vec)
    requires Pow(n, a) == Pow(n, b)
    ensures a == b
  {
    if n > 0 {
      PowInjective(n - 1, MulX(a), MulX(b));
      DivXMulX(a);
      DivXMulX(b);
    }
  }

  /** While nothing falls off the top, multiplying by x^n is a shift. */
  lemma {:induction false} PowShift(n: nat, v: Vec)
    requires n <= 128 && v[128 - n..] == Zeros(n)
    ensures Pow(n, v) == Zeros(n) + v[..128 - n]
  {
    if n > 0 {
      assert v[127] == v[128 - n..][n - 1];
      AddZero(Shl1(v));
      forall i | 128 - (n - 1) <= i < 128
        ensures !MulX(v)[i]
      {
        assert MulX(v)[i] == v[i - 1] == v[128 - n..][i - 1 - (128 - n)];
      }
      PowShift(n - 1, MulX(v));
    }
  }

  // ---- polynomials acting on vectors ----

  lemma {:induction false} ActZero(p: Poly)
    ensures Act(p, ZERO) == ZERO
  {
    if p != [] {
      MulXZero();
      ActZero(p[1..]);
      AddZero(ZERO);
    }
  }

  lemma {:induction false} ActAdd(p: Poly, a: Vec, b: Vec)
    ensures Act(p, Add(a, b)) == Add(Act(p, a), Act(p, b))
  {
    if p == [] {
      AddZero(ZERO);
    } else {
      MulXAdd(a, b);
      ActAdd(p[1..], MulX(a), MulX(b));
      AddZero(ZERO);
      AddMedial(If(p[0], a), If(p[0], b), Act(p[1..], MulX(a)), Act(p[1..], MulX(b)));
    }
  }

  lemma {:induction false} ActSum(p: Poly, q: Poly, b: Vec)
    requires |p| == |q|
    ensures Act(Add(p, q), b) == Add(Act(p, b), Act(q, b))
  {
    if p == [] {
      AddZero(ZERO);
    } else {
      assert Add(p, q)[1..] == Add(p[1..], q[1..]);
      ActSum(p[1..], q[1..], MulX(b));
      IfAdd(p[0], q[0], b);
      AddMedial(If(p[0], b), If(q[0], b), Act(p[1..], MulX(b)), Act(q[1..], MulX(b)));
    }
  }

  lemma {:induction false} ActMulX(p: Poly, b: Vec)
    ensures Act(p, MulX(b)) == MulX(Act(p, b))
  {
    if p == [] {
      MulXZero();
    } else {
      ActMulX(p[1..], MulX(b));
      MulXZero();
      MulXAdd(If(p[0], b), Act(p[1..], MulX(b)));
    }
  }

  lemma {:induction false} ActPow(p: Poly, n: nat, b: Vec)
    ensures Act(p, Pow(n, b)) == Pow(n, Act(p, b))
  {
    if n > 0 {
      ActMulX(p, b);
      ActPow(p, n - 1, MulX(b));
    }
  }

  lemma {:induction false} ActAct(p: Poly, q: Poly, b: Vec)
    ensures Act(p, Act(q, b)) == Act(q, Act(p, b))
  {
    if q == [] {
      ActZero(p);
    } else {
      ActAct(p, q[1..], MulX(b));
      ActMulX(p, b);
      ActZero(p);
      ActAdd(p, If(q[0], b), Act(q[1..], MulX(b)));
    }
  }

  lemma {:induction false} ActConcat(p: Poly, q: Poly, b: Vec)
    ensures Act(p + q, b) == Add(Act(p, b), Act(q, Pow(|p|, b)))
  {
    if p == [] {
      assert p + q == q;
      AddZero(Act(q, b));
    } else {
      assert (p + q)[1..] == p[1..] + q;
      ActConcat(p[1..], q, MulX(b));
      AddLaws(If(p[0], b), Act(p[1..], MulX(b)), Act(q, Pow(|p|, b)));
    }
  }

  lemma {:induction false} ActUnit(p: Poly, n: nat)
    requires n + |p| <= 128 && n < 128
    ensures Act(p, Unit(n)) == Zeros(n) + p + Zeros(128 - n - |p|)
  {
    if p == [] {
    } else if n == 127 {
      assert p[1..] == [];
      AddZero(If(p[0], Unit(n)));
    } else {
      assert MulX(Unit(n)) == Unit(n + 1);
      ActUnit(p[1..], n + 1);
    }
  }

  // ---- the product ----

  lemma MulOne(a: Vec)
    ensures Mul(a, ONE) == a
  {
    ActUnit(a, 0);
  }

  lemma MulCommutes(a: Vec, b: Vec)
    ensures Mul(a, b) == Mul(b, a)
  {
    MulOne(a);
    MulOne(b);
    ActAct(a, b, ONE);
  }

  lemma MulAssociates(a: Vec, b: Vec, c: Vec)
    ensures Mul(Mul(a, b), c) == Mul(a, Mul(b, c))
  {
    MulCommutes(Mul(a, b), c);
    ActAct(c, a, b);
    MulCommutes(c, b);
  }

  lemma MulDistributes(a: Vec, b: Vec, c: Vec)
    ensures Mul(Add(a, b), c) == Add(Mul(a, c), Mul(b, c))
    ensures Mul(c, Add(a, b)) == Add(Mul(c, a), Mul(c, b))
  {
    ActSum(a, b, c);
    ActAdd(c, a, b);
  }
}
