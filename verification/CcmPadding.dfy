/** What the CCM message MAC holds when empty authenticate calls come while the message is running:
    cipher-ccm.c:253-254 pads the buffered block at each of them. */
module CcmPadding {
  import opened Bytes
  import opened CipherBlock
  import opened CbcMac
  import opened Rfc3610

  /** Lengths the message had at those calls, in order. */
  ghost predicate Cuts(cuts: seq<nat>, n: nat) {
    && (forall i :: 0 <= i < |cuts| ==> cuts[i] <= n)
    && (forall i, j :: 0 <= i < j < |cuts| ==> cuts[i] <= cuts[j])
  }

  /** The message with the zeros each call added. */
  ghost function Filled(msg: seq<byte>, cuts: seq<nat>): (r: seq<byte>)
    requires Cuts(cuts, |msg|)
    decreases |cuts|
  {
    if cuts == [] then msg
    else
      var last := |cuts| - 1;
      PadZero(Filled(msg[..cuts[last]], cuts[..last])) + msg[cuts[last]..]
  }

  /** Some call came inside a block, with message still to come. */
  ghost predicate Early(cuts: seq<nat>, n: nat) {
    exists i :: 0 <= i < |cuts| && cuts[i] % 16 != 0 && cuts[i] < n
  }

  lemma FilledMore(msg: seq<byte>, cuts: seq<nat>, p: seq<byte>)
    requires Cuts(cuts, |msg|)
    ensures Cuts(cuts, |msg + p|) && Filled(msg + p, cuts) == Filled(msg, cuts) + p
  {
    hide PadZero;
    if cuts != [] {
      var last := |cuts| - 1;
      var c := cuts[last];
      assert (msg + p)[..c] == msg[..c] && (msg + p)[c..] == msg[c..] + p;
      ConcatAssociates(PadZero(Filled(msg[..c], cuts[..last])), msg[c..], p);
    }
  }

  lemma FilledCut(msg: seq<byte>, cuts: seq<nat>)
    requires Cuts(cuts, |msg|)
    ensures Cuts(cuts + [|msg|], |msg|) && Filled(msg, cuts + [|msg|]) == PadZero(Filled(msg, cuts))
  {
    hide PadZero;
    var next := cuts + [|msg|];
    assert next[..|next| - 1] == cuts && msg[..|msg|] == msg;
    assert PadZero(Filled(msg, cuts)) + msg[|msg|..] == PadZero(Filled(msg, cuts));
  }

  lemma PadTwice(s: seq<byte>)
    ensures PadZero(PadZero(s)) == PadZero(s)
  {
    WholeIsPadded(PadZero(s));
  }

  /** Calls between blocks, or after the last octet, change nothing in the end. */
  lemma {:induction false} LateIsRight(msg: seq<byte>, cuts: seq<nat>)
    requires Cuts(cuts, |msg|) && !Early(cuts, |msg|)
    ensures PadZero(Filled(msg, cuts)) == PadZero(msg)
    decreases |cuts|
  {
    if cuts != [] {
      var last := |cuts| - 1;
      var c := cuts[last];
      assert !Early(cuts[..last], c);
      LateIsRight(msg[..c], cuts[..last]);
      if c == |msg| {
        assert msg[..c] == msg && PadZero(msg) + msg[c..] == PadZero(msg);
        PadTwice(msg);
      } else {
        assert cuts[last] % 16 == 0;
        WholeIsPadded(msg[..c]);
        assert msg[..c] + msg[c..] == msg;
      }
    }
  }

  // ---- a call inside a block moves the rest of the message ----

  /** A message with a single one at octet c. */
  function OneMsg(n: nat, c: nat): (r: seq<byte>)
    requires c < n
    ensures |r| == n
  {
    ZeroBytes(c) + [1] + ZeroBytes(n - c - 1)
  }

  ghost predicate OneAt(s: seq<byte>, p: nat) {
    p < |s| && s[p] == 1 && forall i :: 0 <= i < |s| && i != p ==> s[i] == 0
  }

  /** c is the first of the cuts inside a block. */
  ghost predicate First(cuts: seq<nat>, c: nat) {
    c % 16 != 0 && c in cuts && forall i :: 0 <= i < |cuts| && cuts[i] % 16 != 0 ==> c <= cuts[i]
  }

  lemma LastEarly(cuts: seq<nat>, n: nat)
    requires Early(cuts, n) && !Early(cuts[..|cuts| - 1], n)
    ensures cuts[|cuts| - 1] % 16 != 0 && cuts[|cuts| - 1] < n
  {
  }

  lemma {:induction false} FirstOf(cuts: seq<nat>, n: nat) returns (c: nat)
    requires Cuts(cuts, n) && Early(cuts, n)
    ensures First(cuts, c) && c < n
  {
    var last := |cuts| - 1;
    if Early(cuts[..last], n) {
      c := FirstOf(cuts[..last], n);
      var i :| 0 <= i < last && cuts[i] == c;
      assert cuts[i] <= cuts[last];
    } else {
      LastEarly(cuts, n);
      c := cuts[last];
      forall j | 0 <= j < |cuts| && cuts[j] % 16 != 0
        ensures c <= cuts[j]
      {
        if j < last {
          assert cuts[j] <= cuts[last] && cuts[..last][j] == cuts[j];
        }
      }
    }
  }

  lemma PadKeepsOne(s: seq<byte>, p: nat, n: nat)
    requires OneAt(s, p)
    ensures OneAt(PadZero(s) + ZeroBytes(n), p)
  {
  }

  lemma PaddedZeros(c: nat)
    requires c % 16 != 0
    ensures PadZero(ZeroBytes(c)) == ZeroBytes(c + 16 - c % 16)
  {
  }

  lemma OneAfterZeros(w: nat, n: nat)
    ensures OneAt(ZeroBytes(w) + ([1] + ZeroBytes(n)), w)
  {
  }

  lemma OneMsgParts(n: nat, c: nat, d: nat)
    requires c <= d <= n && c < n
    ensures OneMsg(n, c)[..d] == if d == c then ZeroBytes(c) else OneMsg(d, c)
    ensures OneMsg(n, c)[d..] == if d == c then [1] + ZeroBytes(n - c - 1) else ZeroBytes(n - d)
  {
  }

  lemma BeforeLast(cuts: seq<nat>, c: nat, n: nat)
    requires Cuts(cuts, n) && First(cuts, c) && c < n
    ensures |cuts| > 0
    ensures var d, rest := cuts[|cuts| - 1], cuts[..|cuts| - 1];
              && c <= d <= n && Cuts(rest, d)
              && if d == c then !Early(rest, c) else First(rest, c)
  {
    var d, rest := cuts[|cuts| - 1], cuts[..|cuts| - 1];
    var i :| 0 <= i < |cuts| && cuts[i] == c;
    assert c <= d;
    if d != c {
      assert rest[i] == c;
    }
  }

  lemma FilledLast(msg: seq<byte>, cuts: seq<nat>, d: nat, rest: seq<nat>)
    requires Cuts(cuts, |msg|) && |cuts| > 0 && d == cuts[|cuts| - 1] && rest == cuts[..|cuts| - 1]
    ensures d <= |msg| && Cuts(rest, d) && Filled(msg, cuts) == PadZero(Filled(msg[..d], rest)) + msg[d..]
  {
  }

  /** The octet at the cut is pushed to the start of the next block. */
  lemma {:induction false} FilledOne(cuts: seq<nat>, c: nat, n: nat)
    requires Cuts(cuts, n) && First(cuts, c) && c < n
    ensures OneAt(Filled(OneMsg(n, c), cuts), c + 16 - c % 16)
    decreases |cuts|
  {
    hide OneMsg, PadZero, ZeroBytes, OneAt, Cuts, First, Early, Filled;
    BeforeLast(cuts, c, n);
    var d, rest := cuts[|cuts| - 1], cuts[..|cuts| - 1];
    OneMsgParts(n, c, d);
    FilledLast(OneMsg(n, c), cuts, d, rest);
    if d == c {
      LateIsRight(ZeroBytes(c), rest);
      Fractional(cuts, c);
      PaddedZeros(c);
      OneAfterZeros(c + 16 - c % 16, n - c - 1);
    } else {
      FilledOne(rest, c, d);
      PadKeepsOne(Filled(OneMsg(d, c), rest), c + 16 - c % 16, n - d);
    }
  }

  lemma Fractional(cuts: seq<nat>, c: nat)
    requires First(cuts, c)
    ensures c % 16 != 0
  {
  }

  /** The first octets of the blocks of data, added up. */
  function Column(data: seq<byte>): byte
    requires |data| % 16 == 0
  {
    if data == [] then 0 else XorByte(Column(data[..|data| - 16]), data[|data| - 16])
  }

  lemma {:induction false} ChainColumn(data: seq<byte>)
    requires |data| % 16 == 0
    ensures Identity(16).Valid() && Chain(Identity(16), data)[0] == Column(data)
  {
    hide XorByte;
    IdentityValid(16);
    if data != [] {
      ChainColumn(data[..|data| - 16]);
    }
  }

  lemma {:induction false} ColumnConcat(a: seq<byte>, b: seq<byte>)
    requires |a| % 16 == 0 && |b| % 16 == 0
    ensures |a + b| % 16 == 0 && Column(a + b) == XorByte(Column(a), Column(b))
  {
    hide XorByte;
    if b == [] {
      assert a + b == a;
      XorByteLaws(Column(a), 0, 0);
    } else {
      var m := |b| - 16;
      assert (a + b)[..|a + b| - 16] == a + b[..m] && (a + b)[|a + b| - 16] == b[m];
      ColumnConcat(a, b[..m]);
      XorByteLaws(Column(a), Column(b[..m]), b[m]);
    }
  }

  lemma {:induction false} ColumnOne(s: seq<byte>, p: nat)
    requires |s| % 16 == 0 && (forall i :: 0 <= i < |s| ==> s[i] == if i == p then 1 else 0)
    ensures Column(s) == if p < |s| && p % 16 == 0 then 1 else 0
  {
    hide XorByte;
    if s != [] {
      var m := |s| - 16;
      ColumnOne(s[..m], p);
      XorByteLaws(0, 0, 0);
      XorByteLaws(0, 1, 0);
      XorByteLaws(1, 0, 0);
      if p < |s| && p % 16 == 0 && p >= m {
        assert p == m;
      }
    }
  }

  // ---- when the tag is right ----

  /** Everything the MAC is given. */
  ghost function MacFed(nonce: seq<byte>, m: nat, a: seq<byte>, msg: seq<byte>, cuts: seq<nat>): (r: seq<byte>)
    requires NonceOk(nonce) && TagOk(m) && Cuts(cuts, |msg|)
    ensures |r| % 16 == 0
  {
    SumOfWholes(|PadZero(Header(nonce, m, |a|, |msg|) + a)|, |PadZero(Filled(msg, cuts))|);
    PadZero(Header(nonce, m, |a|, |msg|) + a) + PadZero(Filled(msg, cuts))
  }

  /** The tag that comes out. */
  ghost function TagValue(k: Cipher, nonce: seq<byte>, m: nat, a: seq<byte>, msg: seq<byte>, cuts: seq<nat>): seq<byte>
    requires k.Valid() && k.bs == 16 && NonceOk(nonce) && TagOk(m) && Cuts(cuts, |msg|)
  {
    Xor(Chain(k, MacFed(nonce, m, a, msg, cuts)), k.enc(CounterBlock(nonce, 0)))[..m]
  }

  lemma RightTag(k: Cipher, nonce: seq<byte>, m: nat, a: seq<byte>, msg: seq<byte>, cuts: seq<nat>)
    requires k.Valid() && k.bs == 16 && NonceOk(nonce) && TagOk(m) && Cuts(cuts, |msg|) && !Early(cuts, |msg|)
    ensures MacFed(nonce, m, a, msg, cuts) == MacInput(nonce, m, a, msg)
    ensures TagValue(k, nonce, m, a, msg, cuts) == AuthValue(k, nonce, m, a, msg)
  {
    hide Chain, PadZero, Xor, CounterBlock, Header, Early;
    LateIsRight(msg, cuts);
  }

  lemma OneMsgOctets(n: nat, c: nat)
    requires c < n
    ensures forall i :: 0 <= i < |PadZero(OneMsg(n, c))| ==> PadZero(OneMsg(n, c))[i] == if i == c then 1 else 0
  {
  }

  lemma OneAtOctets(s: seq<byte>, p: nat)
    requires OneAt(s, p)
    ensures forall i :: 0 <= i < |PadZero(s)| ==> PadZero(s)[i] == if i == p then 1 else 0
  {
  }

  /** Under the identity permutation the first octets of the two chaining values differ by one. */
  lemma ColumnsDiffer(head: seq<byte>, cuts: seq<nat>, c: nat, n: nat)
    requires |head| % 16 == 0 && Cuts(cuts, n) && First(cuts, c) && c < n
    ensures |head + PadZero(OneMsg(n, c))| % 16 == 0 && |head + PadZero(Filled(OneMsg(n, c), cuts))| % 16 == 0
    ensures Column(head + PadZero(OneMsg(n, c))) == Column(head)
    ensures Column(head + PadZero(Filled(OneMsg(n, c), cuts))) == XorByte(Column(head), 1)
  {
    hide OneMsg, PadZero, OneAt, Cuts, Early, First, Filled, Column, XorByte;
    Fractional(cuts, c);
    FilledOne(cuts, c, n);
    var w := c + 16 - c % 16;
    OneMsgOctets(n, c);
    OneAtOctets(Filled(OneMsg(n, c), cuts), w);
    ColumnOne(PadZero(OneMsg(n, c)), c);
    ColumnOne(PadZero(Filled(OneMsg(n, c), cuts)), w);
    ColumnConcat(head, PadZero(OneMsg(n, c)));
    ColumnConcat(head, PadZero(Filled(OneMsg(n, c), cuts)));
    XorByteLaws(Column(head), 0, 0);
    PaddedPosition(Filled(OneMsg(n, c), cuts), w);
  }

  lemma PaddedPosition(s: seq<byte>, p: nat)
    requires OneAt(s, p)
    ensures p < |PadZero(s)|
  {
  }

  lemma OctetDiffers(x: byte, y: byte)
    ensures XorByte(x, y) != XorByte(XorByte(x, 1), y)
  {
  }

  lemma FirstOctet(a: seq<byte>, b: seq<byte>, m: nat)
    requires |a| == |b| && 0 < m <= |a|
    ensures Xor(a, b)[..m][0] == XorByte(a[0], b[0])
  {
    hide XorByte;
  }

  /** A cipher and a message for which the tag is wrong. */
  lemma WrongTag(nonce: seq<byte>, m: nat, a: seq<byte>, cuts: seq<nat>, n: nat)
      returns (k: Cipher, msg: seq<byte>)
    requires NonceOk(nonce) && TagOk(m) && Cuts(cuts, n) && Early(cuts, n)
    ensures k.Valid() && k.bs == 16 && |msg| == n
    ensures TagValue(k, nonce, m, a, msg, cuts) != AuthValue(k, nonce, m, a, msg)
  {
    hide OneMsg, PadZero, Cuts, Early, First, Filled, Column, XorByte, Chain, Xor, CounterBlock, Header;
    var c := FirstOf(cuts, n);
    k, msg := Identity(16), OneMsg(n, c);
    IdentityValid(16);
    var head, s0 := PadZero(Header(nonce, m, |a|, n) + a), k.enc(CounterBlock(nonce, 0));
    ColumnsDiffer(head, cuts, c, n);
    var right, wrong := head + PadZero(msg), head + PadZero(Filled(msg, cuts));
    ChainColumn(right);
    ChainColumn(wrong);
    FirstOctet(Chain(k, right), s0, m);
    FirstOctet(Chain(k, wrong), s0, m);
    OctetDiffers(Column(head), s0[0]);
  }

  /** For every way of making the calls: the tag is that of RFC 3610 for all ciphers and messages if
      and only if no call without data comes inside a block with message still to come. */
  lemma PaddingExact(nonce: seq<byte>, m: nat, a: seq<byte>, cuts: seq<nat>, n: nat)
    requires NonceOk(nonce) && TagOk(m) && Cuts(cuts, n)
    ensures (forall k: Cipher, msg: seq<byte> :: k.Valid() && k.bs == 16 && |msg| == n ==>
               TagValue(k, nonce, m, a, msg, cuts) == AuthValue(k, nonce, m, a, msg))
       <==> !Early(cuts, n)
  {
    hide Cuts, Early, TagValue, AuthValue;
    if Early(cuts, n) {
      var k, msg := WrongTag(nonce, m, a, cuts, n);
    } else {
      forall k: Cipher, msg: seq<byte> | k.Valid() && k.bs == 16 && |msg| == n
        ensures TagValue(k, nonce, m, a, msg, cuts) == AuthValue(k, nonce, m, a, msg)
      {
        RightTag(k, nonce, m, a, msg, cuts);
      }
    }
  }

  /** One octet, a call, fifteen octets: the MAC is given a block too many. */
  lemma PaddingExample(nonce: seq<byte>, m: nat, a: seq<byte>, msg: seq<byte>)
    requires NonceOk(nonce) && TagOk(m) && |msg| == 16
    ensures Cuts([1], 16) && Early([1], 16)
    ensures |MacFed(nonce, m, a, msg, [1])| == |MacInput(nonce, m, a, msg)| + 16
  {
    hide Header;
    assert [1][..0] == [];
    assert [1][0] % 16 != 0;
    assert Filled(msg, [1]) == PadZero(msg[..1]) + msg[1..] by { assert Filled(msg[..1], []) == msg[..1]; }
    assert |PadZero(msg[..1])| == 16;
  }
}
