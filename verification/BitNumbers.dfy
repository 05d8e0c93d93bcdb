/** Strings of bits as numbers: what shifts, slices and sums of octets mean as arithmetic.  The
    definitions of the modes work on bits; the lemmas here tie them to numbers in base 256. */
module BitNumbers {
  import opened BitHelp
  import opened Bytes
  import opened CipherBlock
  import GF = GaloisField

  function One(c: bool, n: nat): nat {
    if c then n else 0
  }

  /** The number with the given bits, the least significant first. */
  function Number(v: seq<bool>): nat {
    if v == [] then 0 else One(v[0], 1) + 2 * Number(v[1..])
  }

  lemma {:induction false} NumberConcat(a: seq<bool>, b: seq<bool>)
    ensures Number(a + b) == Number(a) + Pow2(|a|) * Number(b)
  {
    if a == [] {
      assert a + b == b;
    } else {
      NumberConcat(a[1..], b);
      assert (a + b)[1..] == a[1..] + b;
      Distribute(2, Number(a[1..]), Pow2(|a| - 1) * Number(b));
    }
  }

  lemma {:induction false} NumberBound(v: seq<bool>)
    ensures Number(v) < Pow2(|v|)
  {
    if v != [] {
      NumberBound(v[1..]);
    }
  }

  lemma NumberTake(v: seq<bool>, i: nat)
    requires i <= |v|
    ensures Number(v[..i]) == Number(v) % Pow2(i) && Number(v[i..]) == Number(v) / Pow2(i)
  {
    hide Number, Pow2;
    assert v == v[..i] + v[i..];
    NumberConcat(v[..i], v[i..]);
    NumberBound(v[..i]);
    DivModUnique(Number(v), Pow2(i), Number(v[i..]), Number(v[..i]));
  }

  lemma NumberSlice(v: seq<bool>, i: nat, j: nat)
    requires i <= j <= |v|
    ensures Number(v[i..j]) == Number(v) / Pow2(i) % Pow2(j - i)
  {
    hide Number, Pow2;
    NumberTake(v, i);
    NumberTake(v[i..], j - i);
    assert v[i..][..j - i] == v[i..j];
  }

  lemma {:induction false} NumberZeros(n: nat)
    ensures Number(GF.Zeros(n)) == 0
  {
    if n > 0 {
      NumberZeros(n - 1);
      assert GF.Zeros(n)[1..] == GF.Zeros(n - 1);
    }
  }

  /** A shift to the left drops the highest bit. */
  lemma NumberShifted(v: seq<bool>)
    requires v != []
    ensures Number([false] + v[..|v| - 1]) == 2 * Number(v) % Pow2(|v|)
  {
    var n := |v| - 1;
    assert v == v[..n] + [v[n]];
    hide Number, Pow2;
    ShiftedOut(v[..n], v[n]);
  }

  lemma NumberTop(v: seq<bool>)
    requires v != []
    ensures v[|v| - 1] <==> 2 * Number(v) >= Pow2(|v|)
  {
    var n := |v| - 1;
    assert v == v[..n] + [v[n]];
    assert Pow2(|v|) == 2 * Pow2(n);
    hide Number, Pow2;
    NumberConcat(v[..n], [v[n]]);
    NumberBound(v[..n]);
    SingleBit(v[n]);
  }

  lemma ShiftedOut(low: seq<bool>, top: bool)
    ensures Number([false] + low) == 2 * Number(low + [top]) % Pow2(|low| + 1)
  {
    var p, t := Pow2(|low|), One(top, 1);
    assert Pow2(|low| + 1) == 2 * p;
    hide *;
    NumberConcat(low, [top]);
    NumberBound(low);
    SingleBit(top);
    Raised(low);
    TopBit(Number(low + [top]), Pow2(|low| + 1), Number(low), p, t);
  }

  lemma TopBit(n: nat, d: nat, low: nat, p: nat, t: nat)
    requires low < p && n == low + p * t && d == 2 * p
    ensures 2 * n % d == 2 * low
  {
    assert d * t == 2 * (p * t);
    DivModUnique(2 * n, d, t, 2 * low);
  }

  lemma SingleBit(b: bool)
    ensures Number([b]) == One(b, 1)
  {
    assert [b][1..] == [];
  }

  lemma Raised(v: seq<bool>)
    ensures Number([false] + v) == 2 * Number(v)
  {
    assert ([false] + v)[1..] == v;
  }

  lemma NumberHalved(v: seq<bool>)
    requires v != []
    ensures Number(v[1..] + [false]) == Number(v) / 2 && (v[0] <==> Number(v) % 2 == 1)
  {
    NumberConcat(v[1..], [false]);
    assert Number([false]) == 0;
  }

  // ---- octets ----

  /** An octet is the sum of its bits. */
  lemma ValBits(b: byte)
    ensures Val(b) == One(Bit(b, 0), 1) + One(Bit(b, 1), 2) + One(Bit(b, 2), 4) + One(Bit(b, 3), 8)
                      + One(Bit(b, 4), 16) + One(Bit(b, 5), 32) + One(Bit(b, 6), 64) + One(Bit(b, 7), 128)
  {
  }

  lemma NumberEight(v: seq<bool>)
    requires |v| == 8
    ensures Number(v) == One(v[0], 1) + One(v[1], 2) + One(v[2], 4) + One(v[3], 8)
                         + One(v[4], 16) + One(v[5], 32) + One(v[6], 64) + One(v[7], 128)
  {
    assert Number(v[7..]) == One(v[7], 1);
    assert Number(v[6..]) == One(v[6], 1) + 2 * Number(v[7..]);
    assert Number(v[5..]) == One(v[5], 1) + 2 * Number(v[6..]);
    assert Number(v[4..]) == One(v[4], 1) + 2 * Number(v[5..]);
    assert Number(v[3..]) == One(v[3], 1) + 2 * Number(v[4..]);
    assert Number(v[2..]) == One(v[2], 1) + 2 * Number(v[3..]);
    assert Number(v[1..]) == One(v[1], 1) + 2 * Number(v[2..]);
  }

  lemma OctetNumber(b: byte)
    ensures Number(BitsBE([b])) == Val(b)
  {
    hide Number, Bit, Val;
    ValBits(b);
    NumberEight(BitsBE([b]));
  }

  lemma Pow2Eight(n: nat)
    ensures Pow2(n + 8) == 256 * Pow2(n)
  {
    assert Pow2(n + 2) == 4 * Pow2(n);
    assert Pow2(n + 4) == 4 * Pow2(n + 2);
    assert Pow2(n + 6) == 4 * Pow2(n + 4);
  }

  lemma {:induction false} Pow2Octets(n: nat)
    ensures Pow2(8 * n) == Pow256(n)
  {
    if n > 0 {
      Pow2Octets(n - 1);
      Pow2Eight(8 * (n - 1));
    }
  }

  /** The bits of octets and the octets themselves make the same number. */
  lemma {:induction false} NumberBE(s: seq<byte>)
    ensures Number(BitsBE(s)) == BigEndian(s)
  {
    hide Number, BitsBE, Val;
    if s == [] {
      NumberZeros(0);
      assert BitsBE(s) == GF.Zeros(0);
    } else {
      var m := |s| - 1;
      assert s == s[..m] + [s[m]];
      NumberBE(s[..m]);
      OctetNumber(s[m]);
      BitsConcat(s[..m], [s[m]]);
      NumberConcat(BitsBE([s[m]]), BitsBE(s[..m]));
      Pow2Octets(1);
    }
  }

  lemma OctetsNumber(v: seq<bool>)
    requires |v| % 8 == 0
    ensures BigEndian(OctetsBE(v)) == Number(v) && OctetsBE(v) == ToBigEndian(Number(v), |v| / 8)
  {
    hide Number, BitsBE, OctetsBE, BigEndian, ToBigEndian;
    BitsOfOctets(v);
    NumberBE(OctetsBE(v));
    ToBigEndianOf(OctetsBE(v));
  }

  function Masked(a: byte, m: byte): byte {
    a & m
  }

  lemma XorMasked(a: byte, b: byte, m: byte)
    ensures Masked(XorByte(a, b), m) == XorByte(Masked(a, m), Masked(b, m))
  {
  }

  lemma OneBit(x: byte, y: byte, m: byte)
    requires (x == 0 || x == m) && (y == 0 || y == m) && m != 0
    ensures XorByte(x, y) != 0 <==> (x != 0) != (y != 0)
  {
  }

  function Mask(i: nat): byte
    requires i < 8
  {
    match i
    case 0 => 0x01
    case 1 => 0x02
    case 2 => 0x04
    case 3 => 0x08
    case 4 => 0x10
    case 5 => 0x20
    case 6 => 0x40
    case 7 => 0x80
  }

  lemma BitIsMasked(a: byte, i: nat)
    requires i < 8
    ensures Bit(a, i) == (Masked(a, Mask(i)) != 0) && (Masked(a, Mask(i)) == 0 || Masked(a, Mask(i)) == Mask(i)) && Mask(i) != 0
  {
  }

  lemma XorBits(a: byte, b: byte, i: nat)
    requires i < 8
    ensures Bit(XorByte(a, b), i) == (Bit(a, i) != Bit(b, i))
  {
    hide Bit, XorByte, Mask, Masked;
    BitIsMasked(a, i);
    BitIsMasked(b, i);
    BitIsMasked(XorByte(a, b), i);
    XorMasked(a, b, Mask(i));
    OneBit(Masked(a, Mask(i)), Masked(b, Mask(i)), Mask(i));
  }

  lemma BitsXor(a: seq<byte>, b: seq<byte>)
    requires |a| == |b|
    ensures BitsBE(Xor(a, b)) == GF.Add(BitsBE(a), BitsBE(b))
  {
    hide Bit, XorByte;
    forall i | 0 <= i < 8 * |a|
      ensures BitsBE(Xor(a, b))[i] == GF.Add(BitsBE(a), BitsBE(b))[i]
    {
      XorBits(a[|a| - 1 - i / 8], b[|a| - 1 - i / 8], i % 8);
    }
  }

  lemma OctetsAdd(v: seq<bool>, w: seq<bool>)
    requires |v| == |w| && |v| % 8 == 0
    ensures OctetsBE(GF.Add(v, w)) == Xor(OctetsBE(v), OctetsBE(w))
  {
    hide BitsBE, OctetsBE;
    BitsOfOctets(v);
    BitsOfOctets(w);
    BitsXor(OctetsBE(v), OctetsBE(w));
    OctetsOfBits(Xor(OctetsBE(v), OctetsBE(w)));
  }

  // ---- octets of a word ----

  function Lowest(w: bv32): byte {
    (w & 0xff) as bv8
  }

  function Above(w: bv32): bv32 {
    w >> 8
  }

  lemma OddBits(w: bv32)
    ensures var b := Lowest(w);
            && IsOdd(w) == Bit(b, 0) && IsOdd(w >> 1) == Bit(b, 1) && IsOdd(w >> 2) == Bit(b, 2) && IsOdd(w >> 3) == Bit(b, 3)
            && IsOdd(w >> 4) == Bit(b, 4) && IsOdd(w >> 5) == Bit(b, 5) && IsOdd(w >> 6) == Bit(b, 6) && IsOdd(w >> 7) == Bit(b, 7)
  {
  }

  lemma Shifts(w: bv32)
    ensures Halved(w) == w >> 1 && Halved(w >> 1) == w >> 2 && Halved(w >> 2) == w >> 3 && Halved(w >> 3) == w >> 4
    ensures Halved(w >> 4) == w >> 5 && Halved(w >> 5) == w >> 6 && Halved(w >> 6) == w >> 7 && Halved(w >> 7) == w >> 8
  {
  }

  /** The lowest octet of a word and what is above it. */
  lemma LowOctet(w: bv32)
    ensures NumberOf(w) == Val(Lowest(w)) + 256 * NumberOf(Above(w))
  {
    hide NumberOf, Val, IsOdd, Halved, Bit, Lowest;
    Shifts(w);
    OddBits(w);
    ValBits(Lowest(w));
    Halves(w);
    Halves(w >> 1);
    Halves(w >> 2);
    Halves(w >> 3);
    Halves(w >> 4);
    Halves(w >> 5);
    Halves(w >> 6);
    Halves(w >> 7);
  }
}
