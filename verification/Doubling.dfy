/** Multiplication by x in the fields of the modes, on octets: the numbers behind the bit vectors of
    OCB, CMAC, XTS, GCM and GCM-SIV, with the octets 0x87, 0x1b and 0xe1 of their standards. */
module Doubling {
  import opened BitNumbers
  import opened Bytes
  import opened CipherBlock
  import Bulk
  import Counter
  import G = GhashPpc
  import GF = GaloisField
  import O = Rfc7253
  import R = Rfc8452
  import S = Sp80038B

  /** n octets, all zero but for the last. */
  function LastOctet(n: nat, x: byte): (s: seq<byte>)
    requires n > 0
    ensures |s| == n
  {
    ZeroBytes(n - 1) + [x]
  }

  lemma LastOctetBits(n: nat, x: byte, i: nat)
    requires n > 0 && i < 8 * n
    ensures BitsBE(LastOctet(n, x))[i] == (i < 8 && Bit(x, i % 8))
  {
    hide Bit;
    BitAt(LastOctet(n, x), i);
    S.ZeroBit(i % 8);
  }

  /** A shift to the left is multiplication by two. */
  lemma ShiftOctets(b: seq<byte>, v: seq<bool>)
    requires b != [] && v == BitsBE(b) && |v| % 8 == 0
    ensures OctetsBE(S.ShiftLeft(v)) == ToBigEndian(2 * BigEndian(b), |b|)
  {
    hide *;
    NumberBE(b);
    NumberShifted(v);
    Pow2Octets(|b|);
    ShiftIs(v);
    OctetsNumber(S.ShiftLeft(v));
    Reduced(2 * BigEndian(b), |b|);
  }

  lemma TopOctet(b: seq<byte>, v: seq<bool>)
    requires b != [] && v == BitsBE(b)
    ensures v[|v| - 1] <==> 2 * BigEndian(b) >= Pow256(|b|)
  {
    hide *;
    NumberBE(b);
    NumberTop(v);
    Pow2Octets(|b|);
  }

  lemma Reduced(n: nat, len: nat)
    ensures ToBigEndian(n % Pow256(len), len) == ToBigEndian(n, len)
  {
    hide ToBigEndian, Pow256;
    var d := Pow256(len);
    DivMod(n, d);
    DivModUnique(n % d, d, 0, n % d);
    Counter.ToBigEndianMod(n % d, n, len);
  }

  lemma ShiftIs(v: seq<bool>)
    requires v != []
    ensures S.ShiftLeft(v) == [false] + v[..|v| - 1]
  {
  }

  /** The lowest terms of the polynomial, as an octet. */
  function Terms(bs: nat): byte {
    if bs == 8 then 0x1b else 0x87
  }

  lemma TermBits(i: nat)
    requires i < 8
    ensures Bit(0x87, i) == (i == 7 || i == 2 || i == 1 || i == 0)
    ensures Bit(0x1b, i) == (i == 4 || i == 3 || i == 1 || i == 0)
    ensures Bit(0xe1, i) == (i == 7 || i == 6 || i == 5 || i == 0)
    ensures Bit(0xc2, i) == (i == 7 || i == 6 || i == 1)
  {
  }

  lemma TermOctets(bs: nat)
    requires bs in {8, 16}
    ensures OctetsBE(S.R(8 * bs)) == LastOctet(bs, Terms(bs))
  {
    hide BitsBE, OctetsBE, Bit;
    var s := LastOctet(bs, Terms(bs));
    forall i | 0 <= i < 8 * bs
      ensures S.R(8 * bs)[i] == BitsBE(s)[i]
    {
      LastOctetBits(bs, Terms(bs), i);
      TermBits(i % 8);
    }
    assert S.R(8 * bs) == BitsBE(s);
    OctetsOfBits(s);
  }

  /** Doubling in CMAC, for all blocks: twice the number without its top bit, and 0x87 or 0x1b added to the
      last octet when there was one. */
  lemma DoubleMeans(b: seq<byte>)
    requires |b| in {8, 16}
    ensures var n := 2 * BigEndian(b);
            S.DoubleOctets(b) == Xor(ToBigEndian(n, |b|), LastOctet(|b|, if n >= Pow256(|b|) then Terms(|b|) else 0))
  {
    var v := BitsBE(b);
    S.EightTimes(|b|);
    DoubleIs(b, v);
    NothingAdded(|b|);
    hide *;
    ShiftOctets(b, v);
    TopOctet(b, v);
    TermOctets(|b|);
    XorZero(ToBigEndian(2 * BigEndian(b), |b|));
  }

  lemma DoubleIs(b: seq<byte>, v: seq<bool>)
    requires |b| in {8, 16} && v == BitsBE(b) && |v| == 8 * |b|
    ensures |v| % 8 == 0
    ensures S.DoubleOctets(b) == if v[|v| - 1] then Xor(OctetsBE(S.ShiftLeft(v)), OctetsBE(S.R(|v|))) else OctetsBE(S.ShiftLeft(v))
  {
    hide OctetsBE, BitsBE, S.ShiftLeft, S.R, Xor, GF.Add;
    OctetsAdd(S.ShiftLeft(v), S.R(|v|));
  }

  lemma NothingAdded(n: nat)
    requires n > 0
    ensures LastOctet(n, 0) == ZeroBytes(n)
  {
  }

  /** OCB doubles as CMAC does for blocks of sixteen octets. */
  lemma OcbDoubles(b: seq<byte>)
    requires |b| == 16
    ensures O.DoubleBlock(b) == S.DoubleOctets(b)
  {
    hide BitsBE, OctetsBE;
    var v := BitsBE(b);
    assert O.Residue87() == S.R(128);
    assert O.Double(v) == S.Double(v) by {
      if !v[127] {
        GF.AddZero(GF.Shl1(v));
      }
    }
  }

  // ---- octets in the other order ----

  lemma {:induction false} ReverseNumber(s: seq<byte>)
    ensures BigEndian(R.Reverse(s)) == LittleEndian(s)
  {
    hide Val;
    if s != [] {
      var r := R.Reverse(s);
      assert r[|s| - 1] == s[0] && r[..|s| - 1] == R.Reverse(s[1..]);
      ReverseNumber(s[1..]);
    }
  }

  lemma {:induction false} ReverseOctets(n: nat, len: nat)
    ensures R.Reverse(ToBigEndian(n, len)) == ToLittleEndian(n, len)
  {
    hide Octet;
    if len > 0 {
      ReverseOctets(n / 256, len - 1);
      assert R.Reverse(ToBigEndian(n, len)) == [Octet(n % 256)] + R.Reverse(ToBigEndian(n / 256, len - 1));
    }
  }

  lemma ReverseXor(a: seq<byte>, b: seq<byte>)
    requires |a| == |b|
    ensures R.Reverse(Xor(a, b)) == Xor(R.Reverse(a), R.Reverse(b))
  {
    hide XorByte;
  }

  /** The next XTS tweak, for all tweaks: twice the little-endian number, 0x87 added to the first octet
      when a bit was lost. */
  lemma AlphaMeans(t: seq<byte>)
    requires |t| == 16
    ensures var n := 2 * LittleEndian(t);
            Bulk.Alpha(t) == Xor(ToLittleEndian(n, 16), [if n >= Pow256(16) then 0x87 else 0] + ZeroBytes(15))
  {
    hide BitsBE, OctetsBE, BigEndian, LittleEndian, ToBigEndian, ToLittleEndian, Pow256, Xor, O.Double, S.DoubleOctets;
    var r, x := R.Reverse(t), if 2 * LittleEndian(t) >= Pow256(16) then 0x87 else 0;
    ReverseNumber(t);
    DoubleMeans(r);
    OcbDoubles(r);
    ReverseOctets(2 * LittleEndian(t), 16);
    ReverseXor(ToBigEndian(2 * LittleEndian(t), 16), LastOctet(16, x));
    assert R.Reverse(LastOctet(16, x)) == [x] + ZeroBytes(15);
  }

  // ---- the field of GCM ----

  /** The element one of section 6.3 of SP 800-38D and the element x. */
  lemma {:induction false} GcmUnits(v: GF.Vec)
    ensures G.NistMul(G.LoadBE([0x80] + ZeroBytes(15)), v) == v
    ensures G.NistMul(G.LoadBE([0x40] + ZeroBytes(15)), v) == GF.DivX(v)
  {
    hide Bit, G.NistMul, GF.DivX;
    FirstOctetBits(0x80);
    FirstOctetBits(0x40);
    TopBits();
    assert G.LoadBE([0x80] + ZeroBytes(15)) == GF.Zeros(127) + [true];
    assert G.LoadBE([0x40] + ZeroBytes(15)) == (GF.Zeros(126) + [true]) + [false];
    LastTerm(GF.Zeros(127), true, v);
    LastTerm(GF.Zeros(126) + [true], false, v);
    LastTerm(GF.Zeros(126), true, GF.DivX(v));
    NoTerms(127, GF.DivX(v));
    NoTerms(126, GF.DivX(GF.DivX(v)));
    GF.AddZero(v);
    GF.AddZero(GF.DivX(v));
    GF.AddLaws(v, GF.ZERO, GF.ZERO);
    GF.AddLaws(GF.DivX(v), GF.ZERO, GF.ZERO);
  }

  lemma FirstOctetBits(x: byte)
    ensures forall i :: 0 <= i < 128 ==> BitsBE([x] + ZeroBytes(15))[i] == (i >= 120 && Bit(x, i % 8))
  {
    hide Bit, BitsBE;
    forall i | 0 <= i < 128
      ensures BitsBE([x] + ZeroBytes(15))[i] == (i >= 120 && Bit(x, i % 8))
    {
      BitAt([x] + ZeroBytes(15), i);
      S.ZeroBit(i % 8);
    }
  }

  lemma TopBits()
    ensures forall i :: 0 <= i < 8 ==> Bit(0x80, i) == (i == 7) && Bit(0x40, i) == (i == 6)
  {
  }

  lemma LastTerm(p: GF.Poly, b: bool, v: GF.Vec)
    ensures G.NistMul(p + [b], v) == GF.Add(GF.If(b, v), G.NistMul(p, GF.DivX(v)))
  {
    assert (p + [b])[..|p|] == p;
  }

  lemma {:induction false} NoTerms(n: nat, v: GF.Vec)
    ensures G.NistMul(GF.Zeros(n), v) == GF.ZERO
  {
    hide GF.DivX;
    if n > 0 {
      assert GF.Zeros(n)[..n - 1] == GF.Zeros(n - 1);
      NoTerms(n - 1, GF.DivX(v));
    }
  }

  lemma InverseOctets()
    ensures OctetsBE(GF.InverseX()) == [0xe1] + ZeroBytes(15)
  {
    hide BitsBE, OctetsBE, Bit;
    FirstOctetBits(0xe1);
    forall i | 0 <= i < 128
      ensures GF.InverseX()[i] == BitsBE([0xe1] + ZeroBytes(15))[i]
    {
      TermBits(i % 8);
    }
    assert GF.InverseX() == BitsBE([0xe1] + ZeroBytes(15));
    OctetsOfBits([0xe1] + ZeroBytes(15));
  }

  lemma HalfOctets(b: seq<byte>)
    requires |b| == 16
    ensures OctetsBE(GF.Shr1(BitsBE(b))) == ToBigEndian(BigEndian(b) / 2, 16)
    ensures BitsBE(b)[0] <==> BigEndian(b) % 2 == 1
  {
    hide Number, BitsBE, OctetsBE, BigEndian, ToBigEndian;
    var v := BitsBE(b);
    NumberBE(b);
    NumberHalved(v);
    OctetsNumber(GF.Shr1(v));
  }

  /** Multiplication by x in GCM, for all blocks: half the number, and 0xe1 added to the first octet when
      it was odd. */
  lemma GcmTimesX(b: seq<byte>)
    requires |b| == 16
    ensures var n := BigEndian(b);
            G.StoreBE(G.NistMul(G.LoadBE([0x40] + ZeroBytes(15)), G.LoadBE(b)))
            == Xor(ToBigEndian(n / 2, 16), [if n % 2 == 1 then 0xe1 else 0] + ZeroBytes(15))
  {
    hide BitsBE, OctetsBE, BigEndian, ToBigEndian, Xor, G.NistMul, GF.Shr1, GF.InverseX, GF.Add;
    var v, half := BitsBE(b), ToBigEndian(BigEndian(b) / 2, 16);
    GcmUnits(v);
    HalfOctets(b);
    InverseOctets();
    OctetsAdd(GF.Shr1(v), GF.InverseX());
    XorZero(half);
    assert [0 as byte] + ZeroBytes(15) == ZeroBytes(16);
    GF.AddZero(GF.Shr1(v));
  }

  /** The key 00..01 times x. */
  lemma GcmExample()
    ensures G.StoreBE(G.NistMul(G.LoadBE([0x40] + ZeroBytes(15)), G.LoadBE(LastOctet(16, 1)))) == [0xe1] + ZeroBytes(15)
  {
    hide G.NistMul, ToBigEndian, Xor, Pow256;
    var b := LastOctet(16, 1);
    GcmTimesX(b);
    LastIsOne();
    assert ToBigEndian(0, 16) == ZeroBytes(16) by {
      ZeroNumber(16);
    }
    XorZero([0xe1] + ZeroBytes(15));
  }

  lemma LastIsOne()
    ensures BigEndian(LastOctet(16, 1)) == 1
  {
    hide Val;
    ZeroNumber(15);
    ValOne();
    assert LastOctet(16, 1)[..15] == ZeroBytes(15);
  }

  lemma ValOne()
    ensures Val(1) == 1
  {
  }

  lemma {:induction false} ZeroNumber(n: nat)
    ensures BigEndian(ZeroBytes(n)) == 0 && ToBigEndian(0, n) == ZeroBytes(n)
  {
    if n > 0 {
      ZeroNumber(n - 1);
      assert ZeroBytes(n)[..n - 1] == ZeroBytes(n - 1);
    }
  }

  // ---- the field of GCM-SIV ----

  /** The bits that GCM-SIV takes for a polynomial are those of the little-endian number. */
  lemma LoadNumber(b: seq<byte>)
    requires |b| == 16
    ensures Number(R.LoadLE(b)) == LittleEndian(b)
  {
    hide Number, BitsBE, R.LoadLE, BigEndian, LittleEndian;
    R.LoadReversed(b);
    NumberBE(R.Reverse(b));
    ReverseNumber(b);
  }

  /** x^128 is x^127 + x^126 + x^121 + 1, the octets 01 00 .. 00 c2. */
  lemma ReductionOctets()
    ensures R.LoadLE([0x01] + ZeroBytes(14) + [0xc2]) == GF.Reduction()
  {
    hide Bit;
    TermBits(0);
    OneBits();
    var b := [0x01] + ZeroBytes(14) + [0xc2];
    forall i | 0 <= i < 128
      ensures R.LoadLE(b)[i] == GF.Reduction()[i]
    {
      TermBits(i % 8);
      S.ZeroBit(i % 8);
    }
  }

  lemma OneBits()
    ensures forall i :: 0 <= i < 8 ==> Bit(0x01, i) == (i == 0)
  {
  }

  /** The dot product of section 3 of RFC 8452 by x^128 changes nothing. */
  lemma DotUnit(a: GF.Vec)
    ensures R.Dot(a, R.LoadLE([0x01] + ZeroBytes(14) + [0xc2])) == a
  {
    hide GF.MulX, GF.DivX, GF.Act, GF.Pow, R.DivPow, R.LoadLE, GF.Reduction;
    ReductionOctets();
    PowOfOne();
    GF.ActPow(a, 128, GF.ONE);
    GF.MulOne(a);
    R.DivPowPow(128, a);
  }

  lemma PowOfOne()
    ensures GF.Pow(128, GF.ONE) == GF.Reduction()
  {
    hide GF.Pow;
    GF.PowShift(127, GF.ONE);
    GF.PowSucc(127, GF.ONE);
  }
}
