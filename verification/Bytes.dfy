/** Octets and the few bit-level facts about them that the cipher modes use. */
module Bytes {
  type byte = bv8

  /** Bit i of an octet, 0 the least significant. */
  predicate Bit(b: byte, i: nat)
    requires i < 8
  {
    match i
    case 0 => b & 0x01 != 0
    case 1 => b & 0x02 != 0
    case 2 => b & 0x04 != 0
    case 3 => b & 0x08 != 0
    case 4 => b & 0x10 != 0
    case 5 => b & 0x20 != 0
    case 6 => b & 0x40 != 0
    case 7 => b & 0x80 != 0
  }

  function Flag(c: bool, m: byte): byte {
    if c then m else 0
  }

  /** The octet with the given bits, the least significant first. */
  function Pack(s: seq<bool>): byte
    requires |s| == 8
  {
    Or(Flag(s[0], 0x01), Flag(s[1], 0x02), Flag(s[2], 0x04), Flag(s[3], 0x08),
       Flag(s[4], 0x10), Flag(s[5], 0x20), Flag(s[6], 0x40), Flag(s[7], 0x80))
  }

  function Or(a: byte, b: byte, c: byte, d: byte, e: byte, f: byte, g: byte, h: byte): byte {
    a | b | c | d | e | f | g | h
  }

  lemma BitOfPack(s: seq<bool>, i: nat)
    requires |s| == 8 && i < 8
    ensures Bit(Pack(s), i) == s[i]
  {
  }

  // ---- strings of octets as strings of bits ----

  /** The bits of s read big-endian: bit 0 is the lowest bit of the last octet. */
  function BitsBE(s: seq<byte>): (v: seq<bool>)
    ensures |v| == 8 * |s|
  {
    seq(8 * |s|, i requires 0 <= i < 8 * |s| => Bit(s[|s| - 1 - i / 8], i % 8))
  }

  function OctetsBE(v: seq<bool>): (s: seq<byte>)
    requires |v| % 8 == 0
    ensures 8 * |s| == |v|
  {
    seq(|v| / 8, k requires 0 <= k < |v| / 8 => Pack(v[|v| - 8 - 8 * k..|v| - 8 * k]))
  }

  lemma BitsOfOctetsAt(v: seq<bool>, i: nat)
    requires |v| % 8 == 0 && i < |v|
    ensures BitsBE(OctetsBE(v))[i] == v[i]
  {
    hide Bit, Pack;
    var n, k, r := |v| / 8, i / 8, i % 8;
    var octet := v[8 * k..8 * k + 8];
    assert OctetsBE(v)[n - 1 - k] == Pack(octet);
    BitOfPack(octet, r);
    assert octet[r] == v[8 * k + r];
  }

  lemma BitsOfOctets(v: seq<bool>)
    requires |v| % 8 == 0
    ensures BitsBE(OctetsBE(v)) == v
  {
    hide BitsBE, OctetsBE;
    forall i | 0 <= i < |v|
      ensures BitsBE(OctetsBE(v))[i] == v[i]
    {
      BitsOfOctetsAt(v, i);
    }
  }

  lemma FlagsOfBits(b: byte)
    ensures Or(Flag(Bit(b, 0), 0x01), Flag(Bit(b, 1), 0x02), Flag(Bit(b, 2), 0x04), Flag(Bit(b, 3), 0x08),
               Flag(Bit(b, 4), 0x10), Flag(Bit(b, 5), 0x20), Flag(Bit(b, 6), 0x40), Flag(Bit(b, 7), 0x80)) == b
  {
  }

  lemma PackBits(b: byte, s: seq<bool>)
    requires |s| == 8 && forall i :: 0 <= i < 8 ==> s[i] == Bit(b, i)
    ensures Pack(s) == b
  {
    hide Bit, Flag, Or;
    FlagsOfBits(b);
  }

  lemma OctetsOfBits(s: seq<byte>)
    ensures OctetsBE(BitsBE(s)) == s
  {
    hide Bit, Pack;
    forall k | 0 <= k < |s|
      ensures OctetsBE(BitsBE(s))[k] == s[k]
    {
      var o := BitsBE(s)[8 * |s| - 8 - 8 * k..8 * |s| - 8 * k];
      forall i | 0 <= i < 8
        ensures o[i] == Bit(s[k], i)
      {
        var j := 8 * (|s| - 1 - k) + i;
        assert o[i] == BitsBE(s)[j] && j / 8 == |s| - 1 - k && j % 8 == i;
      }
      PackBits(s[k], o);
    }
  }

  lemma BitAt(s: seq<byte>, i: nat)
    requires i < 8 * |s|
    ensures BitsBE(s)[i] == Bit(s[|s| - 1 - i / 8], i % 8)
  {
  }

  lemma BitsConcat(a: seq<byte>, b: seq<byte>)
    ensures BitsBE(a + b) == BitsBE(b) + BitsBE(a)
  {
    hide Bit, BitsBE;
    forall i | 0 <= i < 8 * |a + b|
      ensures BitsBE(a + b)[i] == (BitsBE(b) + BitsBE(a))[i]
    {
      BitAt(a + b, i);
      if i < 8 * |b| {
        BitAt(b, i);
      } else {
        BitAt(a, i - 8 * |b|);
      }
    }
  }

  lemma OctetsConcat(hi: seq<bool>, lo: seq<bool>)
    requires |hi| % 8 == 0 && |lo| % 8 == 0 && |lo + hi| % 8 == 0
    ensures OctetsBE(hi) + OctetsBE(lo) == OctetsBE(lo + hi)
  {
    hide OctetsBE, BitsBE;
    BitsOfOctets(hi);
    BitsOfOctets(lo);
    BitsConcat(OctetsBE(hi), OctetsBE(lo));
    OctetsOfBits(OctetsBE(hi) + OctetsBE(lo));
  }

  // ---- octets as numbers ----

  function Val(b: byte): nat {
    b as nat
  }

  function Octet(n: nat): byte
    requires n < 256
  {
    n as bv8
  }

  lemma OctetVal(b: byte)
    ensures Val(b) < 256 && Octet(Val(b)) == b
  {
  }

  lemma NextOctet(b: byte)
    requires b != 255
    ensures Val(b + 1) == Val(b) + 1
  {
  }

  lemma {:induction false} OctetWithValue(n: nat) returns (b: byte)
    requires n < 256
    ensures Val(b) == n
  {
    if n == 0 {
      b := 0;
    } else {
      var c := OctetWithValue(n - 1);
      NextOctet(c);
      b := c + 1;
    }
  }

  lemma ValOctet(n: nat)
    requires n < 256
    ensures Val(Octet(n)) == n
  {
    var b := OctetWithValue(n);
    OctetVal(b);
  }

  function Pow256(n: nat): (p: nat)
    ensures p > 0
  {
    if n == 0 then 1 else 256 * Pow256(n - 1)
  }

  lemma {:induction false} Pow256Plus(m: nat, n: nat)
    ensures Pow256(m + n) == Pow256(m) * Pow256(n)
  {
    if m > 0 {
      Pow256Plus(m - 1, n);
    }
  }

  lemma Pow256Values()
    ensures Pow256(4) == 0x1_0000_0000
    ensures Pow256(8) == 0x1_0000_0000_0000_0000
    ensures Pow256(16) == 0x1_0000_0000_0000_0000_0000_0000_0000_0000
  {
    assert Pow256(2) == 256 * Pow256(1);
    assert Pow256(4) == 256 * Pow256(3);
    Pow256Plus(4, 4);
    Pow256Plus(8, 8);
  }

  /** The number whose octets, the least significant first, are s. */
  function LittleEndian(s: seq<byte>): nat {
    if s == [] then 0 else Val(s[0]) + 256 * LittleEndian(s[1..])
  }

  function ToLittleEndian(n: nat, len: nat): (s: seq<byte>)
    ensures |s| == len
  {
    if len == 0 then [] else [Octet(n % 256)] + ToLittleEndian(n / 256, len - 1)
  }

  lemma {:induction false} LittleEndianBound(s: seq<byte>)
    ensures LittleEndian(s) < Pow256(|s|)
  {
    hide Val, Octet;
    if s != [] {
      OctetVal(s[0]);
      LittleEndianBound(s[1..]);
    }
  }

  lemma {:induction false} LittleEndianConcat(s: seq<byte>, t: seq<byte>)
    ensures LittleEndian(s + t) == LittleEndian(s) + Pow256(|s|) * LittleEndian(t)
  {
    hide Val, Octet;
    if s == [] {
      assert s + t == t;
    } else {
      assert (s + t)[1..] == s[1..] + t;
      LittleEndianConcat(s[1..], t);
      var p, l := Pow256(|s| - 1), LittleEndian(t);
      Regroup256(p, l);
      assert Pow256(|s|) == 256 * p;
    }
  }

  lemma Regroup256(p: nat, l: nat)
    ensures 256 * p * l == 256 * (p * l)
  {
  }

  lemma {:induction false} LittleEndianZeros(n: nat)
    ensures LittleEndian(seq(n, i => 0)) == 0
  {
    if n > 0 {
      assert seq(n, i => 0 as byte)[1..] == seq(n - 1, i => 0);
      LittleEndianZeros(n - 1);
    }
  }

  lemma {:induction false} LittleEndianRoundTrip(n: nat, len: nat)
    ensures LittleEndian(ToLittleEndian(n, len)) == n % Pow256(len)
  {
    hide Val, Octet;
    if len > 0 {
      ValOctet(n % 256);
      LittleEndianRoundTrip(n / 256, len - 1);
      ModSplit(n, 256, Pow256(len - 1));
    }
  }

  lemma MulMono(d: nat, x: nat, y: nat)
    requires x < y
    ensures d * x + d <= d * y
  {
    var k := y - x - 1;
    assert d * y == d * x + d + d * k;
  }

  lemma Distribute(d: nat, q: nat, s: nat)
    ensures d * (q + s) == d * q + d * s
  {
  }

  lemma DivMod(n: nat, d: nat)
    requires d > 0
    ensures n == d * (n / d) + n % d && n % d < d
  {
  }

  lemma DivModUnique(n: nat, d: nat, q: nat, r: nat)
    requires r < d && n == d * q + r
    ensures n / d == q && n % d == r
  {
    DivMod(n, d);
    SameQuotient(d, q, r, n / d, n % d);
  }

  lemma SameQuotient(d: nat, q: nat, r: nat, q': nat, r': nat)
    requires r < d && r' < d && d * q + r == d * q' + r'
    ensures q == q' && r == r'
  {
    if q < q' {
      MulMono(d, q, q');
    } else if q' < q {
      MulMono(d, q', q);
    }
  }

  lemma TwoDigits(n: nat, a: nat, l: nat, m: nat, b: nat, q: nat, d: nat)
    requires n == a * m + l && m == b * q + d && l < a && d < b
    ensures n == a * b * q + (l + a * d) && l + a * d < a * b
  {
    MulMono(a, d, b);
    assert a * (b * q + d) == a * b * q + a * d;
  }

  lemma ModSplit(n: nat, a: nat, b: nat)
    requires a > 0 && b > 0
    ensures a * b > 0 && n % (a * b) == n % a + a * (n / a % b)
  {
    var l, m := n % a, n / a;
    DivMod(n, a);
    DivMod(m, b);
    TwoDigits(n, a, l, m, b, m / b, m % b);
    DivModUnique(n, a * b, m / b, l + a * (m % b));
  }

  lemma {:induction false} LittleEndianInjective(s: seq<byte>, t: seq<byte>)
    requires |s| == |t| && LittleEndian(s) == LittleEndian(t)
    ensures s == t
  {
    hide Val, Octet;
    if s != [] {
      OctetVal(s[0]);
      OctetVal(t[0]);
      LittleEndianInjective(s[1..], t[1..]);
      assert s == [s[0]] + s[1..] && t == [t[0]] + t[1..];
    }
  }

  // ---- the most significant octet first ----

  function BigEndian(s: seq<byte>): nat {
    if s == [] then 0 else 256 * BigEndian(s[..|s| - 1]) + Val(s[|s| - 1])
  }

  function ToBigEndian(n: nat, len: nat): (s: seq<byte>)
    ensures |s| == len
  {
    if len == 0 then [] else ToBigEndian(n / 256, len - 1) + [Octet(n % 256)]
  }

  lemma {:induction false} BigEndianBound(s: seq<byte>)
    ensures BigEndian(s) < Pow256(|s|)
  {
    hide Val, Octet;
    if s != [] {
      OctetVal(s[|s| - 1]);
      BigEndianBound(s[..|s| - 1]);
    }
  }

  lemma {:induction false} BigEndianConcat(s: seq<byte>, t: seq<byte>)
    ensures BigEndian(s + t) == BigEndian(s) * Pow256(|t|) + BigEndian(t)
  {
    hide Val, Octet;
    if t == [] {
      assert s + t == s;
    } else {
      var m := |t| - 1;
      assert (s + t)[..|s| + m] == s + t[..m] && (s + t)[|s| + m] == t[m];
      BigEndianConcat(s, t[..m]);
      Regroup256(Pow256(m), BigEndian(s));
      assert Pow256(|t|) == 256 * Pow256(m);
      assert BigEndian(s) * (256 * Pow256(m)) == 256 * (BigEndian(s) * Pow256(m));
    }
  }

  lemma {:induction false} BigEndianRoundTrip(n: nat, len: nat)
    ensures BigEndian(ToBigEndian(n, len)) == n % Pow256(len)
  {
    hide Val, Octet;
    if len > 0 {
      ValOctet(n % 256);
      BigEndianRoundTrip(n / 256, len - 1);
      ModSplit(n, 256, Pow256(len - 1));
      assert ToBigEndian(n, len)[..len - 1] == ToBigEndian(n / 256, len - 1);
    }
  }

  lemma {:induction false} BigEndianInjective(s: seq<byte>, t: seq<byte>)
    requires |s| == |t| && BigEndian(s) == BigEndian(t)
    ensures s == t
  {
    hide Val, Octet;
    if s != [] {
      var m := |s| - 1;
      OctetVal(s[m]);
      OctetVal(t[m]);
      BigEndianInjective(s[..m], t[..m]);
      assert s == s[..m] + [s[m]] && t == t[..m] + [t[m]];
    }
  }

  lemma ToBigEndianOf(s: seq<byte>)
    ensures ToBigEndian(BigEndian(s), |s|) == s
  {
    hide BigEndian, ToBigEndian, Pow256;
    BigEndianBound(s);
    BigEndianRoundTrip(BigEndian(s), |s|);
    DivModUnique(BigEndian(s), Pow256(|s|), 0, BigEndian(s));
    BigEndianInjective(ToBigEndian(BigEndian(s), |s|), s);
  }
}
