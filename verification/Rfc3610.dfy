/** CCM as sections 2.2 and 2.3 of RFC 3610 define it, and why its formatting is unambiguous. */
module Rfc3610 {
  import opened Bytes
  import opened CipherBlock
  import opened CbcMac
  import opened Counter

  predicate NonceOk(nonce: seq<byte>) {
    7 <= |nonce| <= 13
  }

  predicate TagOk(m: nat) {
    m in {4, 6, 8, 10, 12, 14, 16}
  }

  /** The first octet of B_0: 64 Adata + 8 M' + L'. */
  function Flags(adata: bool, m: nat, l: nat): byte
    requires TagOk(m) && 2 <= l <= 8
  {
    Octet((if adata then 64 else 0) + (m - 2) / 2 * 8 + (l - 1))
  }

  /** B_0; a message length that does not fit in the field is cut off. */
  function B0(nonce: seq<byte>, m: nat, adata: bool, msglen: nat): Block
    requires NonceOk(nonce) && TagOk(m)
  {
    [Flags(adata, m, 15 - |nonce|)] + nonce + ToBigEndian(msglen, 15 - |nonce|)
  }

  /** The encoding of the length of the associated data. */
  function AadPrefix(n: nat): seq<byte> {
    if n == 0 then []
    else if n <= 0xfeff then ToBigEndian(n, 2)
    else if n <= 0xffff_ffff then [0xff, 0xfe] + ToBigEndian(n, 4)
    else [0xff, 0xff] + ToBigEndian(n, 8)
  }

  /** What is fed to the CBC-MAC before the message, up to the padding. */
  function Header(nonce: seq<byte>, m: nat, aadlen: nat, msglen: nat): seq<byte>
    requires NonceOk(nonce) && TagOk(m)
  {
    B0(nonce, m, aadlen > 0, msglen) + AadPrefix(aadlen)
  }

  function MacInput(nonce: seq<byte>, m: nat, a: seq<byte>, msg: seq<byte>): (r: seq<byte>)
    requires NonceOk(nonce) && TagOk(m)
    ensures |r| % 16 == 0
  {
    SumOfWholes(|PadZero(Header(nonce, m, |a|, |msg|) + a)|, |PadZero(msg)|);
    PadZero(Header(nonce, m, |a|, |msg|) + a) + PadZero(msg)
  }

  lemma SumOfWholes(x: nat, y: nat)
    requires x % 16 == 0 && y % 16 == 0
    ensures (x + y) % 16 == 0
  {
  }

  /** A_i */
  function CounterBlock(nonce: seq<byte>, i: nat): Block
    requires NonceOk(nonce)
  {
    [Octet(14 - |nonce|)] + nonce + ToBigEndian(i, 15 - |nonce|)
  }

  /** U: the first M octets of the CBC-MAC, encrypted with S_0. */
  function AuthValue(k: Cipher, nonce: seq<byte>, m: nat, a: seq<byte>, msg: seq<byte>): seq<byte>
    requires k.Valid() && k.bs == 16 && NonceOk(nonce) && TagOk(m)
  {
    Xor(Chain(k, MacInput(nonce, m, a, msg)), k.enc(CounterBlock(nonce, 0)))[..m]
  }

  // ---- the counter stays in its field ----

  /** Counting on from A_0 gives A_i as long as i fits the length field: the nonce is never touched. */
  lemma CounterStays(nonce: seq<byte>, i: nat)
    requires NonceOk(nonce) && i < Pow256(15 - |nonce|)
    ensures AddBE(CounterBlock(nonce, 0), i) == CounterBlock(nonce, i)
  {
    hide BigEndian, ToBigEndian, Pow256, Octet;
    var l := 15 - |nonce|;
    var head := [Octet(14 - |nonce|)] + nonce;
    BigEndianConcat(head, ToBigEndian(0, l));
    BigEndianConcat(head, ToBigEndian(i, l));
    BigEndianRoundTrip(0, l);
    BigEndianRoundTrip(i, l);
    DivModUnique(i, Pow256(l), 0, i);
    DivModUnique(0, Pow256(l), 0, 0);
    assert CounterBlock(nonce, 0) == head + ToBigEndian(0, l);
    assert CounterBlock(nonce, i) == head + ToBigEndian(i, l);
    ToBigEndianOf(CounterBlock(nonce, i));
  }

  /** Block q of the key stream is S_{q+1}, the encryption of A_{q+1}. */
  lemma StreamIsS(k: Cipher, nonce: seq<byte>, q: nat)
    requires k.Valid() && k.bs == 16 && NonceOk(nonce) && q + 1 < Pow256(15 - |nonce|)
    ensures KeyStream(k, CounterBlock(nonce, 1), 16 * q, 16) == k.enc(CounterBlock(nonce, q + 1))
  {
    hide AddBE, KeyStream, CounterBlock, Pow256;
    CounterStays(nonce, 1);
    CounterStays(nonce, q + 1);
    AddAdd(CounterBlock(nonce, 0), 1, q);
    StreamBlock(k, CounterBlock(nonce, 1), q);
  }

  lemma CounterValue(nonce: seq<byte>, j: nat)
    requires NonceOk(nonce)
    ensures BigEndian(CounterBlock(nonce, j))
         == BigEndian([Octet(14 - |nonce|)] + nonce) * Pow256(15 - |nonce|) + j % Pow256(15 - |nonce|)
  {
    hide BigEndian, ToBigEndian, Pow256, Octet;
    var l := 15 - |nonce|;
    var head := [Octet(14 - |nonce|)] + nonce;
    BigEndianConcat(head, ToBigEndian(j, l));
    BigEndianRoundTrip(j, l);
    assert CounterBlock(nonce, j) == head + ToBigEndian(j, l);
  }

  /** The octets of a counter block before its counter. */
  function CounterHead(nonce: seq<byte>): (h: seq<byte>)
    requires NonceOk(nonce)
  {
    [Octet(14 - |nonce|)] + nonce
  }

  /** The counter after i blocks, as a head and a tail. */
  lemma CounterParts(nonce: seq<byte>, i: nat, q: nat)
    requires NonceOk(nonce) && q == i / Pow256(15 - |nonce|)
    ensures var l := 15 - |nonce|;
            AddBE(CounterBlock(nonce, 0), i) == ToBigEndian(BigEndian(CounterHead(nonce)) + q, 16 - l) + ToBigEndian(i, l)
  {
    hide BigEndian, ToBigEndian, Pow256, Octet, CounterBlock;
    var l := 15 - |nonce|;
    var h, p := BigEndian(CounterHead(nonce)), Pow256(l);
    CounterValue(nonce, 0);
    DivModUnique(0, p, 0, 0);
    DivMod(i, p);
    Distribute(p, h, q);
    SplitNumber(h + q, i % p, l, BigEndian(CounterBlock(nonce, 0)) + i);
    DivModUnique(i % p, p, 0, i % p);
    ToBigEndianMod(i % p, i, l);
  }

  /** The octets of a number in two parts. */
  lemma SplitNumber(high: nat, low: nat, l: nat, n: nat)
    requires l <= 16 && low < Pow256(l) && n == Pow256(l) * high + low
    ensures ToBigEndian(n, 16) == ToBigEndian(high, 16 - l) + ToBigEndian(low, l)
  {
    hide BigEndian, ToBigEndian, Pow256;
    var p, r := Pow256(l), Pow256(16 - l);
    BigEndianRoundTrip(high, 16 - l);
    BigEndianRoundTrip(low, l);
    DivModUnique(low, p, 0, low);
    BigEndianConcat(ToBigEndian(high, 16 - l), ToBigEndian(low, l));
    Pow256Plus(16 - l, l);
    ModOfMultiple(high, low, p, r);
    BigEndianRoundTrip(n, 16);
    BigEndianInjective(ToBigEndian(high, 16 - l) + ToBigEndian(low, l), ToBigEndian(n, 16));
  }

  lemma ModOfMultiple(high: nat, low: nat, p: nat, r: nat)
    requires low < p && r > 0
    ensures (p * high + low) % (r * p) == high % r * p + low
  {
    DivMod(high, r);
    var q, m := high / r, high % r;
    Distribute(p, r * q, m);
    MulMono(p, m, r);
    assert p * (r * q) == r * p * q;
    DivModUnique(p * high + low, r * p, q, m * p + low);
  }

  /** Before the block counter as a whole wraps, the octets of the nonce are in place after i blocks if
      and only if i fits the length field. */
  lemma CounterCarries(nonce: seq<byte>, i: nat)
    requires NonceOk(nonce) && i < Pow256(16)
    ensures AddBE(CounterBlock(nonce, 0), i)[..1 + |nonce|] == CounterHead(nonce) <==> i < Pow256(15 - |nonce|)
  {
    hide BigEndian, ToBigEndian, Pow256, Octet, CounterBlock, AddBE;
    var l := 15 - |nonce|;
    var h, p, r := BigEndian(CounterHead(nonce)), Pow256(l), Pow256(1 + |nonce|);
    DivMod(i, p);
    var q: nat := i / p;
    CounterParts(nonce, i, q);
    assert AddBE(CounterBlock(nonce, 0), i)[..1 + |nonce|] == ToBigEndian(h + q, 1 + |nonce|);
    HeadBound(nonce);
    Pow256Plus(1 + |nonce|, l);
    QuotientBound(i, p, r);
    BigEndianRoundTrip(h + q, 1 + |nonce|);
    ToBigEndianOf(CounterHead(nonce));
    if i < p {
      DivModUnique(i, p, 0, i);
    } else {
      Shifted(h, q, r);
    }
  }

  lemma QuotientBound(i: nat, p: nat, r: nat)
    requires p > 0 && i < r * p
    ensures i / p < r && (i >= p ==> i / p > 0)
  {
    DivMod(i, p);
    if i / p > r {
      MulMono(p, r, i / p);
    }
  }

  /** Adding less than the modulus, but not nothing, changes the residue. */
  lemma Shifted(h: nat, d: nat, r: nat)
    requires h < r && 0 < d < r
    ensures (h + d) % r != h
  {
    if h + d < r {
      DivModUnique(h + d, r, 0, h + d);
    } else {
      DivModUnique(h + d, r, 1, h + d - r);
    }
  }

  lemma HeadBound(nonce: seq<byte>)
    requires NonceOk(nonce)
    ensures BigEndian([Octet(14 - |nonce|)] + nonce) + 1 < Pow256(1 + |nonce|)
  {
    hide BigEndian, Octet, Val, Pow256;
    var x, p := 14 - |nonce|, Pow256(|nonce|);
    BigEndianConcat([Octet(x)], nonce);
    BigEndianBound(nonce);
    ValOctet(x);
    OneOctet(Octet(x));
    NextPower(|nonce|);
    SmallMultiple(x, p);
  }

  lemma NextPower(n: nat)
    ensures Pow256(1 + n) == 256 * Pow256(n)
  {
  }

  lemma SmallMultiple(x: nat, p: nat)
    requires x <= 7
    ensures x * p <= 7 * p
  {
    Distribute(p, x, 7 - x);
  }

  lemma OneOctet(b: byte)
    ensures BigEndian([b]) == Val(b)
  {
    hide Val;
    assert [b][..0] == [];
    assert BigEndian([]) == 0;
  }

  // ---- the formatting is prefix-free ----

  datatype Packet = Packet(nonce: seq<byte>, m: nat, a: seq<byte>, msg: seq<byte>)

  /** What a caller may authenticate: the message length fits the length field. */
  ghost predicate Proper(p: Packet) {
    NonceOk(p.nonce) && TagOk(p.m) && |p.msg| < Pow256(15 - |p.nonce|) && |p.a| < 0x1_0000_0000_0000_0000
  }

  function Format(p: Packet): seq<byte>
    requires NonceOk(p.nonce) && TagOk(p.m)
  {
    MacInput(p.nonce, p.m, p.a, p.msg)
  }

  lemma FlagsInjective(a: bool, m: nat, l: nat, a': bool, m': nat, l': nat)
    requires TagOk(m) && 2 <= l <= 8 && TagOk(m') && 2 <= l' <= 8 && Flags(a, m, l) == Flags(a', m', l')
    ensures a == a' && m == m' && l == l'
  {
    hide Octet, Val;
    ValOctet((if a then 64 else 0) + (m - 2) / 2 * 8 + (l - 1));
    ValOctet((if a' then 64 else 0) + (m' - 2) / 2 * 8 + (l' - 1));
  }

  /** The first block tells the nonce, the tag length, whether there is associated data, and the
      message length. */
  lemma FirstBlock(p: Packet, q: Packet)
    requires Proper(p) && Proper(q)
    requires B0(p.nonce, p.m, |p.a| > 0, |p.msg|) == B0(q.nonce, q.m, |q.a| > 0, |q.msg|)
    ensures p.nonce == q.nonce && p.m == q.m && |p.msg| == |q.msg| && (|p.a| > 0 <==> |q.a| > 0)
  {
    hide Flags, ToBigEndian, BigEndian, Pow256;
    var b, c := B0(p.nonce, p.m, |p.a| > 0, |p.msg|), B0(q.nonce, q.m, |q.a| > 0, |q.msg|);
    assert b[0] == c[0];
    FlagsInjective(|p.a| > 0, p.m, 15 - |p.nonce|, |q.a| > 0, q.m, 15 - |q.nonce|);
    var l := 15 - |p.nonce|;
    assert b[1..1 + |p.nonce|] == p.nonce && c[1..1 + |p.nonce|] == q.nonce;
    assert b[1 + |p.nonce|..] == ToBigEndian(|p.msg|, l) && c[1 + |p.nonce|..] == ToBigEndian(|q.msg|, l);
    BigEndianRoundTrip(|p.msg|, l);
    BigEndianRoundTrip(|q.msg|, l);
    DivModUnique(|p.msg|, Pow256(l), 0, |p.msg|);
    DivModUnique(|q.msg|, Pow256(l), 0, |q.msg|);
  }

  /** Two octets below 0xff00 do not start with 0xff. */
  lemma ShortPrefix(n: nat)
    requires 0 < n <= 0xfeff
    ensures ToBigEndian(n, 2)[0] != 0xff
  {
    hide Octet, Val;
    assert ToBigEndian(n, 2) == ToBigEndian(n / 256, 1) + [Octet(n % 256)];
    assert ToBigEndian(n / 256, 1) == ToBigEndian(n / 256 / 256, 0) + [Octet(n / 256 % 256)];
    ValOctet(n / 256 % 256);
    LargestOctet();
  }

  lemma LargestOctet()
    ensures Val(0xff) == 255
  {
  }

  /** The encodings of different lengths of associated data are never prefixes of one another. */
  lemma AadPrefixInjective(n: nat, k: nat, s: seq<byte>)
    requires 0 < n < 0x1_0000_0000_0000_0000 && 0 < k < 0x1_0000_0000_0000_0000
    requires AadPrefix(n) <= s && AadPrefix(k) <= s
    ensures n == k
  {
    hide ToBigEndian, BigEndian, Pow256;
    Pow256Values();
    TwoOctets();
    if n <= 0xfeff {
      ShortPrefix(n);
    }
    if k <= 0xfeff {
      ShortPrefix(k);
    }
    var w := |AadPrefix(n)|;
    assert AadPrefix(n)[0] == s[0] == AadPrefix(k)[0] && AadPrefix(n)[1] == s[1] == AadPrefix(k)[1];
    assert w == |AadPrefix(k)|;
    assert AadPrefix(n) == s[..w] == AadPrefix(k);
    if w == 2 {
      LengthOf(n, k, 2);
    } else {
      assert AadPrefix(n)[2..] == ToBigEndian(n, w - 2) && AadPrefix(k)[2..] == ToBigEndian(k, w - 2);
      LengthOf(n, k, w - 2);
    }
  }

  lemma TwoOctets()
    ensures Pow256(2) == 0x1_0000
  {
    assert Pow256(1) == 256 * Pow256(0);
  }

  lemma LengthOf(n: nat, k: nat, w: nat)
    requires n < Pow256(w) && k < Pow256(w) && ToBigEndian(n, w) == ToBigEndian(k, w)
    ensures n == k
  {
    hide ToBigEndian, BigEndian, Pow256;
    BigEndianRoundTrip(n, w);
    BigEndianRoundTrip(k, w);
    DivModUnique(n, Pow256(w), 0, n);
    DivModUnique(k, Pow256(w), 0, k);
  }

  function PacketB0(p: Packet): Block
    requires NonceOk(p.nonce) && TagOk(p.m)
  {
    B0(p.nonce, p.m, |p.a| > 0, |p.msg|)
  }

  /** Where the pieces of a packet are in its MAC input. */
  lemma Pieces(p: Packet)
    requires NonceOk(p.nonce) && TagOk(p.m)
    ensures var f := Format(p);
            var n := 16 + |AadPrefix(|p.a|)| + |p.a|;
            var w := |PadZero(Header(p.nonce, p.m, |p.a|, |p.msg|) + p.a)|;
              && w == n + (16 - n % 16) % 16
              && n <= w && w + |p.msg| <= |f| && f[..16] == PacketB0(p)
              && f[16..n] == AadPrefix(|p.a|) + p.a
              && f[w..w + |p.msg|] == p.msg
  {
    hide B0, AadPrefix;
    var h := Header(p.nonce, p.m, |p.a|, |p.msg|) + p.a;
    var x, y := PadZero(h), PadZero(p.msg);
    var f := x + y;
    assert f[..|h|] == h;
    assert f[16..|h|] == h[16..];
    assert f[|x|..][..|p.msg|] == p.msg;
    assert f[|x|..|x| + |p.msg|] == f[|x|..][..|p.msg|];
  }

  /** No packet's MAC input is a prefix of another's. */
  lemma FormatPrefixFree(p: Packet, q: Packet)
    requires Proper(p) && Proper(q) && Format(p) <= Format(q)
    ensures p == q
  {
    hide B0, AadPrefix, PadZero, Format, Header;
    var f, g := Format(p), Format(q);
    Pieces(p);
    Pieces(q);
    assert f[..16] == g[..16];
    FirstBlock(p, q);
    if |p.a| == 0 {
      assert p.a == [] == q.a;
    } else {
      SameAad(p, q, f, g);
    }
    var n := 16 + |AadPrefix(|p.a|)| + |p.a|;
    var w := n + (16 - n % 16) % 16;
    assert f[w..w + |p.msg|] == g[w..w + |p.msg|];
  }

  lemma SameAad(p: Packet, q: Packet, f: seq<byte>, g: seq<byte>)
    requires Proper(p) && Proper(q) && f <= g && |p.a| > 0 && |q.a| > 0
    requires 16 + |AadPrefix(|p.a|)| + |p.a| <= |f| && f[16..16 + |AadPrefix(|p.a|)| + |p.a|] == AadPrefix(|p.a|) + p.a
    requires 16 + |AadPrefix(|q.a|)| + |q.a| <= |g| && g[16..16 + |AadPrefix(|q.a|)| + |q.a|] == AadPrefix(|q.a|) + q.a
    ensures p.a == q.a
  {
    hide AadPrefix;
    var s := g[16..];
    var h, j := AadPrefix(|p.a|), AadPrefix(|q.a|);
    assert f[16..16 + |h| + |p.a|] == s[..|h| + |p.a|] && g[16..16 + |j| + |q.a|] == s[..|j| + |q.a|];
    assert s[..|h|] == (h + p.a)[..|h|] == h;
    assert s[..|j|] == (j + q.a)[..|j|] == j;
    AadPrefixInjective(|p.a|, |q.a|, s);
    assert p.a == (h + p.a)[|h|..] && q.a == (j + q.a)[|h|..];
  }

  /** Some message of n octets collides: its MAC input is a prefix of that of a packet a caller may
      authenticate, or the reverse. */
  ghost predicate Clashes(nonce: seq<byte>, m: nat, a: seq<byte>, n: nat)
    requires NonceOk(nonce) && TagOk(m)
  {
    exists p: Packet, msg: seq<byte> :: Collision(p, Packet(nonce, m, a, msg), n)
  }

  ghost predicate Collision(p: Packet, q: Packet, n: nat)
    requires NonceOk(q.nonce) && TagOk(q.m)
  {
    Proper(p) && |q.msg| == n && p != q && (Format(p) <= Format(q) || Format(q) <= Format(p))
  }

  lemma ZerosPrefix(x: nat, y: nat)
    requires x <= y
    ensures PadZero(ZeroBytes(x)) <= PadZero(ZeroBytes(y))
  {
  }

  /** The length field wraps: the two messages have the same first block. */
  lemma SameHeader(nonce: seq<byte>, m: nat, aadlen: nat, n: nat)
    requires NonceOk(nonce) && TagOk(m)
    ensures Header(nonce, m, aadlen, n) == Header(nonce, m, aadlen, n % Pow256(15 - |nonce|))
  {
    hide Flags, ToBigEndian, Pow256, AadPrefix;
    var l := 15 - |nonce|;
    DivMod(n, Pow256(l));
    DivModUnique(n % Pow256(l), Pow256(l), 0, n % Pow256(l));
    ToBigEndianMod(n, n % Pow256(l), l);
  }

  /** A message length collides with another if and only if it does not fit the length field. */
  lemma FormatWraps(nonce: seq<byte>, m: nat, a: seq<byte>, n: nat)
    requires NonceOk(nonce) && TagOk(m) && |a| < 0x1_0000_0000_0000_0000
    ensures Clashes(nonce, m, a, n) <==> n >= Pow256(15 - |nonce|)
  {
    hide Pow256, Header, PadZero;
    var d := Pow256(15 - |nonce|);
    if n >= d {
      var i := n % d;
      var p, q := Packet(nonce, m, a, ZeroBytes(i)), Packet(nonce, m, a, ZeroBytes(n));
      DivMod(n, d);
      SameHeader(nonce, m, |a|, n);
      ZerosPrefix(i, n);
      assert Format(p) <= Format(q);
      assert |p.msg| < |q.msg|;
      assert Collision(p, q, n);
    } else {
      hide Format;
      forall p: Packet, msg: seq<byte> | Collision(p, Packet(nonce, m, a, msg), n)
        ensures false
      {
        var q := Packet(nonce, m, a, msg);
        if Format(p) <= Format(q) {
          FormatPrefixFree(p, q);
        } else {
          FormatPrefixFree(q, p);
        }
      }
    }
  }
}
