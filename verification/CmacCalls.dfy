/** What a CMAC call with the bulk function does to the MAC when the octets after the buffered block are
    2^32 or more: cipher-cmac.c:83-103 computes the length of the blocks it hashed in 32 bits. */
module CmacCalls {
  import opened Buffering
  import opened Bytes
  import opened CipherBlock
  import opened Cmac
  import S = Sp80038B

  /** Octets of a call that complete the buffered block, when m have been taken in and more than fill it
      come. */
  function Completes(bs: nat, m: nat): (f: nat)
    requires bs > 0
  {
    var u := m - LastStart(bs, m);
    if u > 0 then bs - u else 0
  }

  lemma CompletesWhole(bs: nat, m: nat)
    requires bs > 0
    ensures (m + Completes(bs, m)) % bs == 0
  {
    var s := LastStart(bs, m);
    if m == s {
      assert m == 0;
      DivModUnique(0, bs, 0, 0);
    } else {
      DivMod(s, bs);
      DivModUnique(s + bs, bs, s / bs + 1, 0);
    }
  }

  /** What a call adds when m octets have been taken in before. */
  function TakenCall(bs: nat, bulk: bool, m: nat, input: seq<byte>): seq<byte>
    requires bs in {8, 16}
  {
    var f := Completes(bs, m);
    if m - LastStart(bs, m) + |input| <= bs then input
    else input[..f] + Taken(bs, bulk, input[f..])
  }

  /** It is what the context adds. */
  lemma TakenCallIs(c: Context, input: seq<byte>)
    requires c.Open()
    ensures c.Fixed() && c.TakenAll(input) == TakenCall(c.cipher.bs, c.bulk, |c.data|, input)
  {
    hide S.K1, S.K2, LastStart, Taken, S.CbcChain;
  }

  // ---- first octets of blocks ----

  /** The first octets of the blocks of s, added up. */
  function Firsts(bs: nat, s: seq<byte>): byte
    requires bs > 0
  {
    if s == [] then 0
    else
      var m := LastStart(bs, |s|);
      XorByte(Firsts(bs, s[..m]), s[m])
  }

  lemma {:induction false} ChainFirsts(bs: nat, s: seq<byte>)
    requires bs > 0 && |s| % bs == 0
    ensures Identity(bs).Valid() && S.CbcChain(Identity(bs), s)[0] == Firsts(bs, s)
    decreases |s|
  {
    hide XorByte, LastStart, AllButLast;
    IdentityValid(bs);
    if s != [] {
      var m := AllButLast(bs, |s|);
      LastStartIs(bs, |s|, m);
      ChainFirsts(bs, s[..m]);
    }
  }

  /** Under the identity permutation the first octet of the MAC. */
  lemma MacFirsts(bs: nat, s: seq<byte>)
    requires bs > 1 && s != []
    ensures Identity(bs).Valid() && S.Cmac(Identity(bs), s)[0] == Firsts(bs, s)
  {
    hide XorByte, LastStart, S.DoubleOctets;
    var k, m := Identity(bs), LastStart(bs, |s|);
    IdentityValid(bs);
    ChainFirsts(bs, s[..m]);
    S.DoubleZero(bs);
    assert S.K1(k) == ZeroBytes(bs) && S.K2(k) == ZeroBytes(bs);
    XorByteLaws(s[m], 0, 0);
    assert S.LastMasked(k, s[m..])[0] == s[m];
  }

  lemma {:induction false} FirstsConcat(bs: nat, a: seq<byte>, b: seq<byte>)
    requires bs > 0 && |a| % bs == 0
    ensures Firsts(bs, a + b) == XorByte(Firsts(bs, a), Firsts(bs, b))
    decreases |b|
  {
    hide XorByte, LastStart;
    if b == [] {
      assert a + b == a;
      XorByteLaws(Firsts(bs, a), 0, 0);
    } else {
      var m := LastStart(bs, |b|);
      WholePlus(bs, |a|, m);
      LastStartIs(bs, |a + b|, |a| + m);
      assert (a + b)[..|a| + m] == a + b[..m] && (a + b)[|a| + m] == b[m];
      FirstsConcat(bs, a, b[..m]);
      XorByteLaws(Firsts(bs, a), Firsts(bs, b[..m]), b[m]);
    }
  }

  lemma WholePlus(bs: nat, x: nat, y: nat)
    requires bs > 0 && x % bs == 0 && y % bs == 0
    ensures (x + y) % bs == 0
  {
    DivMod(x, bs);
    DivMod(y, bs);
    Distribute(bs, x / bs, y / bs);
    DivModUnique(x + y, bs, x / bs + y / bs, 0);
  }

  lemma {:induction false} FirstsZero(bs: nat, n: nat)
    requires bs > 0
    ensures Firsts(bs, ZeroBytes(n)) == 0
    decreases n
  {
    hide XorByte, LastStart;
    if n > 0 {
      var m := LastStart(bs, n);
      assert ZeroBytes(n)[..m] == ZeroBytes(m);
      FirstsZero(bs, m);
      XorByteLaws(0, 0, 0);
    }
  }

  /** A single one at the start of a block. */
  function OneAt(n: nat, j: nat): (s: seq<byte>)
    requires j < n
    ensures |s| == n
  {
    ZeroBytes(j) + ([1] + ZeroBytes(n - j - 1))
  }

  lemma FirstsOne(bs: nat, n: nat, j: nat)
    requires bs > 0 && j < n && j % bs == 0
    ensures Firsts(bs, OneAt(n, j)) == 1
  {
    hide XorByte;
    FirstsConcat(bs, ZeroBytes(j), [1] + ZeroBytes(n - j - 1));
    FirstsZero(bs, j);
    OneLeads(bs, n - j - 1);
    XorByteLaws(1, 0, 0);
    XorByteLaws(0, 1, 0);
  }

  lemma {:induction false} OneLeads(bs: nat, n: nat)
    requires bs > 0
    ensures Firsts(bs, [1] + ZeroBytes(n)) == 1
    decreases n
  {
    hide XorByte, LastStart;
    var s := [1] + ZeroBytes(n);
    var m := LastStart(bs, |s|);
    if m == 0 {
      XorByteLaws(1, 0, 0);
      XorByteLaws(0, 1, 0);
      assert s[..0] == [];
    } else {
      assert s[..m] == [1] + ZeroBytes(m - 1);
      OneLeads(bs, m - 1);
      XorByteLaws(1, 0, 0);
    }
  }

  // ---- the wrong tag ----

  /** Where a one is put: an octet that is lost, or one that is taken twice. */
  function Place(bs: nat, len: nat): nat
    requires bs in {8, 16} && len > bs
  {
    var n := BulkBlocks(bs, len);
    var p := Shift32(bs, n);
    if bs * n == len then p else if p == bs * n then bs * n + bs else bs * n
  }

  lemma PlaceIs(bs: nat, len: nat)
    requires bs in {8, 16} && len >= 0x1_0000_0000
    ensures var n := BulkBlocks(bs, len);
            var p, j := Shift32(bs, n), Place(bs, len);
            && bs * n <= len && p + bs < len && j < len && j % bs == 0 && p % bs == 0
            && if bs * n == len then j == p else j >= bs * n && !(p <= j < p + bs)
  {
    BulkFits(bs, len);
    if bs == 16 {
      TakenLength16(len);
      PlaceAligned16(len);
    } else {
      TakenLength8(len);
      PlaceAligned8(len);
    }
  }

  lemma PlaceAligned16(len: nat)
    requires len >= 0x1_0000_0000
    ensures var n := BulkBlocks(16, len);
            Shift32(16, n) % 16 == 0 && 16 * n % 16 == 0 && Shift32(16, n) <= 16 * n && (16 * n + 16) % 16 == 0
  {
  }

  lemma PlaceAligned8(len: nat)
    requires len >= 0x1_0000_0000
    ensures var n := BulkBlocks(8, len);
            Shift32(8, n) % 8 == 0 && 8 * n % 8 == 0 && Shift32(8, n) <= 8 * n && (8 * n + 8) % 8 == 0
  {
  }

  /** What is taken in of octets that are all zero but for the one at that place. */
  lemma TakenOne(bs: nat, len: nat)
    requires bs in {8, 16} && len >= 0x1_0000_0000
    ensures Place(bs, len) < len && Firsts(bs, Taken(bs, true, OneAt(len, Place(bs, len)))) == 0
  {
    hide XorByte, BulkBlocks, Shift32, Place;
    PlaceIs(bs, len);
    var n := BulkBlocks(bs, len);
    var p, j := Shift32(bs, n), Place(bs, len);
    var rest := OneAt(len, j);
    var a, b := rest[..bs * n], rest[p..p + bs];
    assert Taken(bs, true, rest) == a + b;
    DivModUnique(bs * n, bs, n, 0);
    FirstsConcat(bs, a, b);
    XorByteLaws(0, 0, 0);
    XorByteLaws(1, 0, 0);
    if bs * n == len {
      assert a == rest && b == [1] + ZeroBytes(bs - 1);
      FirstsOne(bs, len, j);
      OneLeads(bs, bs - 1);
    } else {
      assert a == ZeroBytes(bs * n) && b == ZeroBytes(bs);
      FirstsZero(bs, bs * n);
      FirstsZero(bs, bs);
    }
  }

  /** For every amount taken in before and every overlong call, a cipher and input for which even the
      first octet of the tag is not that of the MAC of the input. */
  lemma WrongMac(bs: nat, m: nat, n: nat) returns (k: Cipher, was: seq<byte>, input: seq<byte>)
    requires bs in {8, 16} && n >= 0x1_0000_0000 + Completes(bs, m)
    ensures k.Valid() && k.bs == bs && |was| == m && |input| == n
    ensures S.Cmac(k, was + TakenCall(bs, true, m, input))[0] != S.Cmac(k, was + input)[0]
  {
    hide S.Cmac, Firsts, Taken, Place, OneAt, LastStart, Completes, XorByte;
    var f := Completes(bs, m);
    CompletesShort(bs, m);
    var len := n - f;
    TakenOne(bs, len);
    var rest := OneAt(len, Place(bs, len));
    k, was, input := Identity(bs), ZeroBytes(m), ZeroBytes(f) + rest;
    var head := ZeroBytes(m + f);
    assert input[..f] == ZeroBytes(f) && input[f..] == rest;
    assert was + input == head + rest;
    assert was + TakenCall(bs, true, m, input) == head + Taken(bs, true, rest);
    CompletesWhole(bs, m);
    FirstsConcat(bs, head, rest);
    FirstsConcat(bs, head, Taken(bs, true, rest));
    FirstsZero(bs, m + f);
    PlaceIs(bs, len);
    FirstsOne(bs, len, Place(bs, len));
    XorByteLaws(0, 0, 0);
    XorByteLaws(1, 0, 0);
    XorByteLaws(0, 1, 0);
    TakenSome(bs, rest);
    MacFirsts(bs, was + input);
    MacFirsts(bs, was + TakenCall(bs, true, m, input));
  }

  lemma CompletesShort(bs: nat, m: nat)
    requires bs > 0
    ensures Completes(bs, m) < bs && (Completes(bs, m) > 0 ==> m - LastStart(bs, m) + Completes(bs, m) == bs)
    ensures m - LastStart(bs, m) <= bs
  {
  }

  lemma TakenSome(bs: nat, rest: seq<byte>)
    requires bs in {8, 16} && |rest| > bs
    ensures Taken(bs, true, rest) != []
  {
    BulkFits(bs, |rest|);
  }

  /** For the octets taken in before and the length of a call: the tag is that of the input, for every
      cipher and all data, if and only if there is no bulk function or fewer than 2^32 octets follow
      the buffered block. */
  lemma CallExact(bs: nat, bulk: bool, m: nat, n: nat)
    requires bs in {8, 16}
    ensures (forall k: Cipher, was: seq<byte>, input: seq<byte> ::
               k.Valid() && k.bs == bs && |was| == m && |input| == n ==>
                 S.Cmac(k, was + TakenCall(bs, bulk, m, input)) == S.Cmac(k, was + input))
       <==> !bulk || n < 0x1_0000_0000 + Completes(bs, m)
  {
    hide S.Cmac, Taken, TakenCall, LastStart, Completes;
    if bulk && n >= 0x1_0000_0000 + Completes(bs, m) {
      var k, was, input := WrongMac(bs, m, n);
    } else {
      forall k: Cipher, was: seq<byte>, input: seq<byte> | k.Valid() && k.bs == bs && |was| == m && |input| == n
        ensures S.Cmac(k, was + TakenCall(bs, bulk, m, input)) == S.Cmac(k, was + input)
      {
        RightCall(bs, bulk, m, input);
      }
    }
  }

  lemma RightCall(bs: nat, bulk: bool, m: nat, input: seq<byte>)
    requires bs in {8, 16} && (!bulk || |input| < 0x1_0000_0000 + Completes(bs, m))
    ensures TakenCall(bs, bulk, m, input) == input
  {
    hide Taken, LastStart, Completes;
    var f := Completes(bs, m);
    CompletesShort(bs, m);
    if m - LastStart(bs, m) + |input| > bs {
      TakenExact(bs, bulk, input[f..]);
      assert input[..f] + input[f..] == input;
    }
  }
}
