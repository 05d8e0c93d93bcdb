/** cipher-aeswrap.c: AES key wrap in place, with the step number kept in eight octets. */
module KeyWrap {
  import opened Bytes
  import opened CipherBlock
  import opened Rfc3394

  // ---- the step counter ----

  /** Adding one with carries. */
  function Inc(b: seq<byte>): (r: seq<byte>)
    ensures |r| == |b|
  {
    if b == [] then []
    else
      var m := |b| - 1;
      if b[m] == 255 then Inc(b[..m]) + [0] else b[..m] + [b[m] + 1]
  }

  lemma {:induction false} IncCounts(n: nat, len: nat)
    ensures Inc(ToBigEndian(n, len)) == ToBigEndian(n + 1, len)
  {
    hide Octet;
    if len > 0 {
      var q, r := n / 256, n % 256;
      var b := ToBigEndian(n, len);
      assert b[..len - 1] == ToBigEndian(q, len - 1) && b[len - 1] == Octet(r);
      OctetNext(r);
      if r == 255 {
        IncCounts(q, len - 1);
        assert (n + 1) / 256 == q + 1 && (n + 1) % 256 == 0;
      } else {
        assert (n + 1) / 256 == q && (n + 1) % 256 == r + 1;
      }
    }
  }

  lemma OctetNext(r: nat)
    requires r < 256
    ensures Octet(r) == 255 <==> r == 255
    ensures r < 255 ==> Octet(r + 1) == Octet(r) + 1
    ensures Octet(0) == 0
  {
    hide Octet;
    ValOctet(r);
    ValOctet(0);
    OctetVal(Octet(r));
    OctetVal(0);
    OctetVal(255);
    TwoFiftyFive();
    if r < 255 {
      ValOctet(r + 1);
      NextOctet(Octet(r));
      OctetVal(Octet(r + 1));
      OctetVal(Octet(r) + 1);
    }
  }

  lemma TwoFiftyFive()
    ensures Val(255) == 255 && Val(0) == 0
  {
  }

  /** A tail of 255s becomes zeros and carries into the front. */
  lemma {:induction false} IncCarries(b: seq<byte>, x: nat)
    requires x <= |b| && forall i :: x <= i < |b| ==> b[i] == 255
    ensures Inc(b) == Inc(b[..x]) + ZeroBytes(|b| - x)
  {
    if x == |b| {
      assert b[..x] == b;
    } else {
      var m := |b| - 1;
      IncCarries(b[..m], x);
      assert b[..m][..x] == b[..x];
      assert ZeroBytes(|b| - x) == ZeroBytes(m - x) + [0];
    }
  }

  /** t := t + 1 */
  method Increment(t: array<byte>)
    requires t.Length == 8
    modifies t
    ensures t[..] == Inc(old(t[..]))
  {
    ghost var t0 := t[..];
    var x := 7;
    while x >= 0
      invariant -1 <= x <= 7 && t[..x + 1] == t0[..x + 1]
      invariant forall i :: x < i < 8 ==> t[i] == 0 && t0[i] == 255
    {
      t[x] := t[x] + 1;
      if t[x] != 0 {
        break;
      }
      x := x - 1;
    }
    IncCarries(t0, x + 1);
    assert t[..x + 1] + t[x + 1..] == t[..];
    assert t[x + 1..] == ZeroBytes(7 - x);
    if x >= 0 {
      assert t0[..x + 1][..x] == t0[..x] == t[..x];
    }
  }

  /** t := t - 1 */
  method Decrement(t: array<byte>)
    requires t.Length == 8
    modifies t
    ensures Inc(t[..]) == old(t[..])
  {
    ghost var t0 := t[..];
    var x := 7;
    while x >= 0
      invariant -1 <= x <= 7 && t[..x + 1] == t0[..x + 1]
      invariant forall i :: x < i < 8 ==> t[i] == 255 && t0[i] == 0
    {
      t[x] := t[x] - 1;
      if t[x] != 255 {
        break;
      }
      x := x - 1;
    }
    if x >= 0 {
      assert t[..x] == t0[..x + 1][..x] == t0[..x];
    }
    Borrowed(t[..], t0, x);
  }

  /** What the loop of Decrement leaves counts up to what it found. */
  lemma Borrowed(b: seq<byte>, b0: seq<byte>, x: int)
    requires |b| == |b0| == 8 && -1 <= x < 8
    requires forall i :: x < i < 8 ==> b[i] == 255 && b0[i] == 0
    requires x >= 0 ==> b[..x] == b0[..x] && b[x] == b0[x] - 1 && b[x] != 255
    ensures Inc(b) == b0
  {
    var f, f0 := b[..x + 1], b0[..x + 1];
    IncCarries(b, x + 1);
    assert Inc(f) == f0 by {
      if x >= 0 {
        MinusPlus(b0[x]);
        assert f[..x] == b[..x] && f0[..x] == b0[..x];
        NoCarry(f, f0);
      }
    }
    hide Inc;
    assert b0 == f0 + ZeroBytes(7 - x);
  }

  lemma NoCarry(f: seq<byte>, f0: seq<byte>)
    requires |f| == |f0| > 0 && f[..|f| - 1] == f0[..|f| - 1]
    requires f[|f| - 1] != 255 && f[|f| - 1] + 1 == f0[|f| - 1]
    ensures Inc(f) == f0
  {
    assert f0 == f0[..|f| - 1] + [f0[|f| - 1]];
  }

  lemma MinusPlus(a: byte)
    ensures a - 1 + 1 == a
  {
  }

  lemma {:induction false} IncInjective(a: seq<byte>, b: seq<byte>)
    requires |a| == |b| && Inc(a) == Inc(b)
    ensures a == b
  {
    if a != [] {
      var m := |a| - 1;
      assert Inc(a)[m] == a[m] + 1 && Inc(b)[m] == b[m] + 1;
      assert a[m] == b[m];
      assert Inc(a)[..m] == Inc(b)[..m];
      if a[m] == 255 {
        assert Inc(a)[..m] == Inc(a[..m]) && Inc(b)[..m] == Inc(b[..m]);
        IncInjective(a[..m], b[..m]);
      } else {
        assert Inc(a)[..m] == a[..m] && Inc(b)[..m] == b[..m];
      }
      assert a == a[..m] + [a[m]] && b == b[..m] + [b[m]];
    }
  }

  lemma {:induction false} ToBigEndianAt(n: nat, len: nat, x: nat)
    requires x < len
    ensures ToBigEndian(n, len)[len - 1 - x] == Octet(n / Pow256(x) % 256)
  {
    hide Octet;
    if x > 0 {
      ToBigEndianAt(n / 256, len - 1, x - 1);
      DivTwice(n, Pow256(x - 1));
    }
  }

  lemma DivTwice(n: nat, p: nat)
    requires p > 0
    ensures n / 256 / p == n / (256 * p)
  {
    DivMod(n, 256);
    DivMod(n / 256, p);
    var q, d := n / 256 / p, n / 256 % p;
    assert 256 * (p * q + d) == 256 * p * q + 256 * d;
    MulMono(256, d, p);
    DivModUnique(n, 256 * p, q, 256 * d + n % 256);
  }

  /** t := i, octet by octet. */
  method SetCounter(t: array<byte>, i: nat)
    requires t.Length == 8 && i < 0x1_0000_0000_0000_0000
    modifies t
    ensures t[..] == ToBigEndian(i, 8)
  {
    hide Octet, ToBigEndian;
    var x := 0;
    while x < 8
      invariant 0 <= x <= 8
      invariant forall z :: 8 - x <= z < 8 ==> t[z] == ToBigEndian(i, 8)[z]
    {
      ToBigEndianAt(i, 8, x);
      t[7 - x] := Octet(i / Pow256(x) % 256);
      x := x + 1;
    }
  }

  // ---- wrap and unwrap ----

  datatype Status = Ok | InvArg | BufferTooShort | Checksum

  /** Writing inside a part of a string. */
  lemma SpliceInside(s: seq<byte>, at: nat, w: seq<byte>, p: nat, x: seq<byte>)
    requires at + |w| <= |s| && p + |x| <= |w|
    ensures Splice(Splice(s, at, w), at + p, x) == Splice(s, at, Splice(w, p, x))
  {
    var y := Splice(s, at, w);
    assert y[..at + p] == s[..at] + w[..p];
    assert y[at + p + |x|..] == w[p + |x|..] + s[at + |w|..];
    ConcatAssociates(s[..at], w[..p], x);
    ConcatAssociates(s[..at], w[..p] + x, w[p + |x|..]);
  }

  lemma Inside(s: seq<byte>, at: nat, w: seq<byte>, p: nat, q: nat)
    requires at + |w| <= |s| && p <= q <= |w|
    ensures Splice(s, at, w)[at + p..at + q] == w[p..q]
  {
    SpliceSlices(s, at, w);
    SliceOfSlice(Splice(s, at, w), at, at + |w|, p, q);
  }

  /** The body of the loops of wrap, at step s + 1. */
  method WrapOne(k: Cipher, outbuf: array<byte>, ghost out0: seq<byte>, r: nat, ghost w: seq<byte>, i: nat, t: array<byte>, ghost s: nat)
    requires Wrappable(k, w) && r + |w| <= |out0| && outbuf[..] == Splice(out0, r, w) && t != outbuf
    requires t.Length == 8 && t[..] == ToBigEndian(s, 8) && i == Target(s + 1, |w| / 8 - 1)
    modifies outbuf, t
    ensures outbuf[..] == Splice(out0, r, WrapStep(k, w, s + 1)) && t[..] == ToBigEndian(s + 1, 8)
  {
    hide Splice, Xor, ToBigEndian, Target;
    Inside(out0, r, w, 0, 8);
    Inside(out0, r, w, 8 * i, 8 * i + 8);
    assert outbuf[r..r + 8] == outbuf[..][r + 0..r + 8] && outbuf[r + 8 * i..r + 8 * i + 8] == outbuf[..][r + 8 * i..r + (8 * i + 8)];
    assert w[0..8] == w[..8];
    var b := outbuf[r..r + 8] + outbuf[r + 8 * i..r + 8 * i + 8];
    b := k.enc(b);
    Increment(t);
    IncCounts(s, 8);
    ghost var a := Xor(b[..8], ToBigEndian(s + 1, 8));
    Put(outbuf, r, Xor(b[..8], t[..]));
    SpliceInside(out0, r, w, 0, a);
    Put(outbuf, r + 8 * i, b[8..]);
    SpliceInside(out0, r, Splice(w, 0, a), 8 * i, b[8..]);
  }

  /** The body of the loops of unwrap, at step s. */
  method UnwrapOne(k: Cipher, a0: seq<byte>, outbuf: array<byte>, ghost out0: seq<byte>, r: nat, ghost w: seq<byte>, i: nat,
                   t: array<byte>, ghost s: nat) returns (a: seq<byte>)
    requires Wrappable(k, w) && r + |w| <= |out0| + 8 && outbuf[..] == Splice(out0, r, w[8..]) && t != outbuf && a0 == w[..8]
    requires t.Length == 8 && s > 0 && t[..] == ToBigEndian(s, 8) && i == Target(s, |w| / 8 - 1)
    modifies outbuf, t
    ensures a == UnwrapStep(k, w, s)[..8] && outbuf[..] == Splice(out0, r, UnwrapStep(k, w, s)[8..])
    ensures t[..] == ToBigEndian(s - 1, 8)
  {
    hide Splice, Xor, ToBigEndian, Target;
    ghost var v := w[8..];
    var p := 8 * (i - 1);
    Inside(out0, r, v, p, p + 8);
    assert outbuf[r + p..r + p + 8] == outbuf[..][r + p..r + (p + 8)] && v[p..p + 8] == w[8 * i..8 * i + 8];
    var b := Xor(a0, t[..]) + outbuf[r + p..r + p + 8];
    b := k.dec(b);
    Decrement(t);
    IncCounts(s - 1, 8);
    IncInjective(t[..], ToBigEndian(s - 1, 8));
    a := b[..8];
    Put(outbuf, r + p, b[8..]);
    SpliceInside(out0, r, v, p, b[8..]);
    Shifted(w, p, b[..8], b[8..]);
  }

  /** A and the data blocks kept apart are the two parts of the string. */
  lemma Shifted(w: seq<byte>, p: nat, x: seq<byte>, y: seq<byte>)
    requires |w| >= 16 && p + 16 <= |w| && |x| == |y| == 8
    ensures var u := Splice(Splice(w, 0, x), p + 8, y);
            u[..8] == x && u[8..] == Splice(w[8..], p, y)
  {
    var u := Splice(Splice(w, 0, x), p + 8, y);
    assert Splice(w, 0, x) == x + w[8..];
    assert Splice(w, 0, x)[..p + 8] == x + w[8..][..p];
    assert Splice(w, 0, x)[p + 16..] == w[8..][p + 8..];
    ConcatAssociates(x, w[8..][..p], y);
    ConcatAssociates(x, w[8..][..p] + y, w[8..][p + 8..]);
  }

  lemma StepTarget(j: nat, n: nat, i: nat)
    requires n > 0 && 1 <= i <= n
    ensures Target(n * j + i, n) == i
  {
    DivModUnique(n * j + (i - 1), n, j, i - 1);
  }

  lemma NextRound(n: nat, j: nat)
    ensures n * (j + 1) == n * j + n
  {
  }

  method WrapInPlace(k: Cipher, outbuf: array<byte>, r: nat, inbuflen: nat) returns (st: Status)
    requires k.Valid() && k.bs == 16 && r + inbuflen <= outbuf.Length
    modifies outbuf
    ensures st == if inbuflen % 8 != 0 || inbuflen < 24 then InvArg else Ok
    ensures st == InvArg ==> outbuf[..] == old(outbuf[..])
    ensures st == Ok ==> outbuf[..] == Splice(old(outbuf[..]), r, Wrap(k, old(outbuf[r..r + inbuflen])))
  {
    hide Splice, WrapStep, ToBigEndian, Target;
    if inbuflen % 8 != 0 {
      return InvArg;
    }
    var n := inbuflen / 8;
    if n < 3 {
      return InvArg;
    }
    ghost var out0, w0, m := outbuf[..], outbuf[r..r + inbuflen], n - 1;
    WholeSplice(out0, r, inbuflen);
    var t := new byte[8](_ => 0);
    ZeroCounter(t[..]);
    var j := 0;
    while j <= 5
      invariant 0 <= j <= 6 && fresh(t) && t.Length == 8 && t[..] == ToBigEndian(m * j, 8)
      invariant outbuf[..] == Splice(out0, r, WrapSteps(k, w0, m * j))
    {
      var i := 1;
      while i < n
        invariant 1 <= i <= n && fresh(t) && t[..] == ToBigEndian(m * j + i - 1, 8)
        invariant outbuf[..] == Splice(out0, r, WrapSteps(k, w0, m * j + i - 1))
      {
        ghost var s := m * j + i - 1;
        StepTarget(j, m, i);
        WrapOne(k, outbuf, out0, r, WrapSteps(k, w0, s), i, t, s);
        i := i + 1;
      }
      NextRound(m, j);
      j := j + 1;
    }
    return Ok;
  }

  lemma WholeSplice(s: seq<byte>, r: nat, n: nat)
    requires r + n <= |s|
    ensures Splice(s, r, s[r..r + n]) == s
  {
  }

  lemma ZeroCounter(t: seq<byte>)
    requires |t| == 8 && forall i :: 0 <= i < 8 ==> t[i] == 0
    ensures t == ToBigEndian(0, 8)
  {
    hide Octet;
    forall i | 0 <= i < 8
      ensures t[i] == ToBigEndian(0, 8)[i]
    {
      ToBigEndianAt(0, 8, 7 - i);
      OctetNext(0);
      DivMod(0, Pow256(7 - i));
    }
  }

  /** unwrap: A goes to the handle's lastiv, the data blocks to outbuf, which may be the input. */
  method UnwrapTo(k: Cipher, outbuf: array<byte>, r: nat, inbuf: array<byte>, ip: nat, inbuflen: nat) returns (st: Status, a: seq<byte>)
    requires k.Valid() && k.bs == 16 && r + inbuflen <= outbuf.Length + 8 && ip + inbuflen <= inbuf.Length
    requires inbuflen < 0x1_0000_0000_0000_0000
    modifies outbuf
    ensures st == if inbuflen % 8 != 0 || inbuflen < 24 then InvArg else Ok
    ensures st == InvArg ==> outbuf[..] == old(outbuf[..])
    ensures st == Ok ==>
      var u := Unwrap(k, old(inbuf[ip..ip + inbuflen]));
      a == u[..8] && outbuf[..] == Splice(old(outbuf[..]), r, u[8..])
  {
    hide Splice, UnwrapStep, ToBigEndian, Target;
    a := [];
    if inbuflen % 8 != 0 {
      return InvArg, a;
    }
    var n := inbuflen / 8;
    if n < 3 {
      return InvArg, a;
    }
    ghost var out0, w0 := outbuf[..], inbuf[ip..ip + inbuflen];
    a := inbuf[ip..ip + 8];
    var copy := inbuf[ip + 8..ip + inbuflen];
    assert a == w0[..8] && copy == w0[8..];
    Put(outbuf, r, copy);
    n := n - 1;
    var t := new byte[8];
    SetCounter(t, 6 * n);
    ghost var w := w0;
    var j := 5;
    while j >= 0
      invariant -1 <= j <= 5 && fresh(t) && t.Length == 8 && t[..] == ToBigEndian(n * (j + 1), 8)
      invariant |w| == inbuflen && Wrappable(k, w) && UnwrapSteps(k, w, n * (j + 1)) == Unwrap(k, w0)
      invariant a == w[..8] && outbuf[..] == Splice(out0, r, w[8..])
    {
      var i := n;
      NextRound(n, j);
      while i >= 1
        invariant 0 <= i <= n && fresh(t) && t[..] == ToBigEndian(n * j + i, 8)
        invariant |w| == inbuflen && Wrappable(k, w) && UnwrapSteps(k, w, n * j + i) == Unwrap(k, w0)
        invariant a == w[..8] && outbuf[..] == Splice(out0, r, w[8..])
      {
        ghost var s := n * j + i;
        StepTarget(j, n, i);
        a := UnwrapOne(k, a, outbuf, out0, r, w, i, t, s);
        w := UnwrapStep(k, w, s);
        i := i - 1;
      }
      j := j - 1;
    }
    return Ok, a;
  }

  // ---- the three calls ----

  lemma FrontPart(s: seq<byte>, r: nat, x: seq<byte>, y: seq<byte>)
    requires |y| == 8 && r + 8 + |x| <= |s|
    ensures Splice(Splice(s, r + 8, x), r, y) == Splice(s, r, y + x)
  {
    var z := Splice(s, r + 8, x);
    assert z[..r] == s[..r] && z[r + 8..] == x + s[r + 8 + |x|..];
  }

  /** What decrypt_auto makes of an input it does not turn away at once: the answer, what it writes
      to the output, and the four octets of the plaintext length. */
  datatype Answer = Answer(st: Status, text: seq<byte>, plen: seq<byte>)

  function AllZero(s: seq<byte>): bool {
    forall i :: 0 <= i < |s| ==> s[i] == 0
  }

  /** One deciphered block. */
  function AutoShort(t: seq<byte>, plen0: seq<byte>): (ans: Answer)
    requires |t| == 16
    ensures |ans.text| <= 8
  {
    var plen := BigEndian(t[4..8]);
    if t[..4] != Icv2() || plen >= 8 then Answer(Checksum, [], plen0)
    else if plen == 0 then Answer(Ok, [], plen0)
    else if AllZero(t[8 + plen..]) then Answer(Ok, t[8..], t[4..8])
    else Answer(Checksum, [], plen0)
  }

  /** padlen, an int, in 32 bits; a negative one is above 7 here. */
  function PadLen(rlen: nat, plen: nat): nat {
    (rlen - plen) % 0x1_0000_0000
  }

  /** The padding of a long packet, at positions computed in 32 bits. */
  function PadCheck(r: seq<byte>, plen: nat): bool
    requires |r| >= 16 && plen < 0x1_0000_0000
  {
    var padlen := PadLen(|r|, plen);
    padlen <= 7 && forall i :: 0 <= i < padlen ==> PadOctet(r, plen, i) == 0
  }

  function PadOctet(r: seq<byte>, plen: nat, i: nat): byte
    requires |r| >= 16 && plen < 0x1_0000_0000 && i < PadLen(|r|, plen) <= 7
  {
    PadIndex(|r|, plen, i);
    r[(plen + i) % 0x1_0000_0000]
  }

  lemma PadIndex(rlen: nat, plen: nat, i: nat)
    requires rlen >= 16 && plen < 0x1_0000_0000 && i < PadLen(rlen, plen) <= 7
    ensures (plen + i) % 0x1_0000_0000 < rlen
    ensures rlen <= 0x1_0000_0000 ==> plen + i < rlen && plen + PadLen(rlen, plen) == rlen
  {
    Wraps(rlen, plen);
  }

  lemma Wraps(rlen: nat, plen: nat)
    requires rlen >= 16 && plen < 0x1_0000_0000 && PadLen(rlen, plen) <= 7
    ensures rlen <= 0x1_0000_0000 ==> rlen == plen + PadLen(rlen, plen) || (rlen == 0x1_0000_0000 && plen == 0)
  {
  }

  /** The check means what section 3 of RFC 5649 asks, for all packets whose length fits. */
  lemma PadCheckMeans(r: seq<byte>, plen: nat)
    requires |r| >= 16 && plen < 0x1_0000_0000 && (|r| < 0x1_0000_0000 || (|r| == 0x1_0000_0000 && plen > 0))
    ensures PadCheck(r, plen) <==> Padded(r, plen)
  {
    var m := PadLen(|r|, plen);
    if m <= 7 {
      Wraps(|r|, plen);
      forall i | 0 <= i < m
        ensures PadOctet(r, plen, i) == r[plen + i]
      {
        PadIndex(|r|, plen, i);
      }
      if PadCheck(r, plen) {
        forall x | plen <= x < |r|
          ensures r[x] == 0
        {
          assert PadOctet(r, plen, x - plen) == 0;
        }
      }
    }
  }

  /** A = a and the data blocks r of an unwrapped packet. */
  function AutoLong(extended: bool, marksIv: bool, iv: seq<byte>, a: seq<byte>, r: seq<byte>, plen0: seq<byte>): (ans: Answer)
    requires |a| == 8 && |r| >= 16
    ensures ans.text == r
  {
    PlenBound(a);
    var none: seq<byte> := [0, 0, 0, 0];
    if marksIv && a == iv then Answer(Ok, r, none)
    else if a[..4] == Icv2() then
      if extended && PadCheck(r, BigEndian(a[4..])) then Answer(Ok, r, a[4..]) else Answer(Checksum, r, plen0)
    else if a == DefaultIv() then Answer(Ok, r, none)
    else Answer(Checksum, r, plen0)
  }

  lemma PlenBound(a: seq<byte>)
    requires |a| == 8
    ensures BigEndian(a[4..]) < 0x1_0000_0000
  {
    BigEndianBound(a[4..]);
    Pow256Values();
  }

  function Auto(k: Cipher, extended: bool, marksIv: bool, iv: seq<byte>, input: seq<byte>, plen0: seq<byte>): (ans: Answer)
    requires k.Valid() && k.bs == 16 && |input| % 8 == 0 && |input| >= 16
    ensures |ans.text| + 8 <= |input|
  {
    if |input| == 16 then AutoShort(k.dec(input), plen0)
    else
      var u := Unwrap(k, input);
      AutoLong(extended, marksIv, iv, u[..8], u[8..], plen0)
  }

  /** What decrypt_auto answers before it deciphers anything. */
  function AutoEarly(extended: bool, outbuflen: nat, inbuflen: nat): Status {
    if outbuflen + 8 < inbuflen then BufferTooShort
    else if inbuflen % 8 != 0 then InvArg
    else if inbuflen == 16 then if extended then Ok else BufferTooShort
    else if inbuflen < 24 then InvArg
    else Ok
  }

  class Handle {
    const cipher: Cipher
    const extended: bool   // GCRY_CIPHER_EXTENDED
    const marksIv: bool
    const iv: seq<byte>    // the first eight octets of u_iv
    var lastiv: seq<byte>
    var plen: seq<byte>

    ghost predicate Valid() {
      cipher.Valid() && cipher.bs == 16 && |iv| == 8
    }

    constructor (cipher: Cipher, extended: bool, marksIv: bool, iv: seq<byte>)
      requires cipher.Valid() && cipher.bs == 16 && |iv| == 8
      ensures Valid()
    {
      this.cipher, this.extended, this.marksIv, this.iv, lastiv, plen := cipher, extended, marksIv, iv, ZeroBytes(8), ZeroBytes(4);
    }

    function IvUsed(): seq<byte> {
      if marksIv then iv else DefaultIv()
    }

    /** _gcry_cipher_keywrap_encrypt; input and output may overlap in any way. */
    method Encrypt(outbuf: array<byte>, r: nat, outbuflen: nat, inbuf: array<byte>, ip: nat, inbuflen: nat) returns (st: Status)
      requires Valid() && r + outbuflen <= outbuf.Length && ip + inbuflen <= inbuf.Length
      modifies outbuf
      ensures st == if outbuflen < inbuflen + 8 then BufferTooShort else if inbuflen % 8 != 0 || inbuflen < 16 then InvArg else Ok
      ensures st == Ok ==>
        outbuf[..] == Splice(old(outbuf[..]), r, Wrap(cipher, IvUsed() + old(inbuf[ip..ip + inbuflen])))
      ensures st != Ok ==> outbuf[..] == old(outbuf[..])
    {
      hide Splice, Wrap;
      if outbuflen < inbuflen + 8 {
        return BufferTooShort;
      }
      if inbuflen % 8 != 0 {
        return InvArg;
      }
      if inbuflen / 8 < 2 {
        return InvArg;
      }
      ghost var out0, data := outbuf[..], inbuf[ip..ip + inbuflen];
      Put(outbuf, r + 8, inbuf[ip..ip + inbuflen]);
      if marksIv {
        Put(outbuf, r, iv);
      } else {
        Put(outbuf, r, DefaultIv());
      }
      ghost var w := IvUsed() + data;
      FrontPart(out0, r, data, IvUsed());
      SpliceSlices(out0, r, w);
      assert outbuf[r..r + inbuflen + 8] == outbuf[..][r..r + |w|];
      st := WrapInPlace(cipher, outbuf, r, inbuflen + 8);
      SpliceAgain(out0, r, w, Wrap(cipher, w));
    }

    /** _gcry_cipher_keywrap_encrypt_padding, for input that does not overlap the output.  Without input
        the block enciphered in place takes in eight octets of the output buffer as they were. */
    method EncryptPadding(outbuf: array<byte>, r: nat, outbuflen: nat, inbuf: array<byte>, ip: nat, inbuflen: nat) returns (st: Status)
      requires Valid() && r + outbuflen <= outbuf.Length && ip + inbuflen <= inbuf.Length && outbuf != inbuf
      requires inbuflen == 0 && outbuflen >= 8 ==> r + 16 <= outbuf.Length
      modifies outbuf
      ensures st == if outbuflen < (inbuflen + 7) / 8 * 8 + 8 then BufferTooShort else Ok
      ensures st == Ok && inbuflen == 0 ==>
        outbuf[..] == Splice(old(outbuf[..]), r, cipher.enc(Aiv(0) + old(outbuf[r + 8..r + 16])))
      ensures st == Ok && inbuflen > 0 ==> var c := KwpSeal(cipher, inbuf[ip..ip + inbuflen]);
                           |c| <= outbuflen && outbuf[..] == Splice(old(outbuf[..]), r, c)
      ensures st != Ok ==> outbuf[..] == old(outbuf[..])
    {
      hide Splice, Wrap, Aiv, Pad8;
      if outbuflen < (inbuflen + 7) / 8 * 8 + 8 {
        return BufferTooShort;
      }
      ghost var out0, data := outbuf[..], inbuf[ip..ip + inbuflen];
      ghost var w := Aiv(inbuflen) + if inbuflen == 0 then outbuf[r + 8..r + 16] else Pad8(data);
      Assemble(outbuf, r, outbuflen, inbuf, ip, inbuflen);
      if inbuflen == 0 {
        EmptyInput(out0, r, data);
      } else {
        assert w == KwpInput(data);
      }
      SpliceSlices(out0, r, w);
      assert outbuf[r..r + |w|] == outbuf[..][r..r + |w|];
      if inbuflen <= 8 {
        var c := cipher.enc(outbuf[r..r + 16]);
        Put(outbuf, r, c);
        SpliceAgain(out0, r, w, c);
        st := Ok;
      } else {
        st := WrapInPlace(cipher, outbuf, r, (inbuflen + 7) / 8 * 8 + 8);
        SpliceAgain(out0, r, w, Wrap(cipher, w));
      }
    }

    /** The initial value, the data and its padding, in the output buffer. */
    method Assemble(outbuf: array<byte>, r: nat, outbuflen: nat, inbuf: array<byte>, ip: nat, inbuflen: nat)
      requires r + outbuflen <= outbuf.Length && ip + inbuflen <= inbuf.Length && outbuf != inbuf
      requires outbuflen >= (inbuflen + 7) / 8 * 8 + 8
      modifies outbuf
      ensures var w := Aiv(inbuflen) + Pad8(inbuf[ip..ip + inbuflen]);
              |w| == (inbuflen + 7) / 8 * 8 + 8 && outbuf[..] == Splice(old(outbuf[..]), r, w)
    {
      hide Splice, ToBigEndian, Icv2;
      var padlen := if inbuflen % 8 != 0 then 8 - inbuflen % 8 else 0;
      ghost var out0, data := outbuf[..], inbuf[ip..ip + inbuflen];
      Put(outbuf, r, Icv2() + ToBigEndian(inbuflen, 4));
      Put(outbuf, r + 8, inbuf[ip..ip + inbuflen]);
      if padlen > 0 {
        Put(outbuf, r + 8 + inbuflen, ZeroBytes(padlen));
      } else {
        SpliceNothing(outbuf[..], r + 8 + inbuflen);
      }
      ThreeParts(out0, r, Aiv(inbuflen), data, ZeroBytes(padlen));
      PaddedLength(inbuflen, |Pad8(data)|);
    }

    /** _gcry_cipher_keywrap_decrypt_auto */
    method DecryptAuto(outbuf: array<byte>, r: nat, outbuflen: nat, inbuf: array<byte>, ip: nat, inbuflen: nat) returns (st: Status)
      requires Valid() && r + outbuflen <= outbuf.Length && ip + inbuflen <= inbuf.Length && inbuflen < 0x1_0000_0000_0000_0000
      modifies this`lastiv, this`plen, outbuf
      ensures AutoEarly(extended, outbuflen, inbuflen) != Ok ==>
        st == AutoEarly(extended, outbuflen, inbuflen) && outbuf[..] == old(outbuf[..]) && plen == old(plen)
      ensures AutoEarly(extended, outbuflen, inbuflen) == Ok ==>
        var ans := Auto(cipher, extended, marksIv, iv, old(inbuf[ip..ip + inbuflen]), old(plen));
        st == ans.st && plen == ans.plen && outbuf[..] == Splice(old(outbuf[..]), r, ans.text)
    {
      hide Splice, Unwrap, BigEndian, Icv2, DefaultIv;
      if outbuflen + 8 < inbuflen {
        return BufferTooShort;
      }
      if inbuflen % 8 != 0 {
        return InvArg;
      }
      if inbuflen == 16 {
        if !extended {
          return BufferTooShort;
        }
        st := DecryptShort(outbuf, r, inbuf[ip..ip + 16]);
      } else {
        if inbuflen / 8 < 3 {
          return InvArg;
        }
        ghost var out0 := outbuf[..];
        var a;
        st, a := UnwrapTo(cipher, outbuf, r, inbuf, ip, inbuflen);
        lastiv := a;
        ghost var text := Unwrap(cipher, old(inbuf[ip..ip + inbuflen]))[8..];
        SpliceSlices(out0, r, text);
        assert outbuf[r..r + inbuflen - 8] == outbuf[..][r..r + |text|];
        st := CheckLong(a, outbuf[r..r + inbuflen - 8]);
      }
    }

    /** A packet of one block. */
    method DecryptShort(outbuf: array<byte>, r: nat, input: seq<byte>) returns (st: Status)
      requires Valid() && |input| == 16 && r + 8 <= outbuf.Length
      modifies this`plen, outbuf
      ensures var ans := AutoShort(cipher.dec(input), old(plen));
              st == ans.st && plen == ans.plen && outbuf[..] == Splice(old(outbuf[..]), r, ans.text)
    {
      hide Splice, BigEndian, Icv2;
      var t := cipher.dec(input);
      SpliceNothing(outbuf[..], r);
      if t[..4] != Icv2() {
        return Checksum;
      }
      var n := BigEndian(t[4..8]);
      if n >= 8 {
        return Checksum;
      }
      if n == 0 {
        return Ok;
      }
      var i := 0;
      while i < 16 - (8 + n)
        invariant 0 <= i <= 8 - n && forall x :: 8 + n <= x < 8 + n + i ==> t[x] == 0
      {
        if t[8 + n + i] != 0 {
          assert t[8 + n..][i] != 0;
          return Checksum;
        }
        i := i + 1;
      }
      Put(outbuf, r, t[8..]);
      plen := t[4..8];
      return Ok;
    }

    /** The initial value and the padding of an unwrapped packet. */
    method CheckLong(a: seq<byte>, text: seq<byte>) returns (st: Status)
      requires |a| == 8 && |text| >= 16
      modifies this`plen
      ensures var ans := AutoLong(extended, marksIv, iv, a, text, old(plen));
              st == ans.st && plen == ans.plen
    {
      hide BigEndian, Icv2, PadLen;
      if marksIv && a == iv {
        plen := [0, 0, 0, 0];
        return Ok;
      }
      if a[..4] == Icv2() {
        PlenBound(a);
        var n := BigEndian(a[4..]);
        var padlen := PadLen(|text|, n);
        if !extended || padlen > 7 {
          return Checksum;
        }
        var i := 0;
        while i < padlen
          invariant 0 <= i <= padlen && forall x :: 0 <= x < i ==> PadOctet(text, n, x) == 0
        {
          if PadOctet(text, n, i) != 0 {
            return Checksum;
          }
          i := i + 1;
        }
        plen := a[4..];
        return Ok;
      }
      var i := 0;
      while i < 8
        invariant 0 <= i <= 8 && forall x :: 0 <= x < i ==> a[x] == 0xa6
      {
        if a[i] != 0xa6 {
          return Checksum;
        }
        i := i + 1;
      }
      plen := [0, 0, 0, 0];
      return Ok;
    }
  }

  /** Without data only the initial value is written; the eight octets after it stay. */
  lemma EmptyInput(s: seq<byte>, r: nat, none: seq<byte>)
    requires none == [] && r + 16 <= |s|
    ensures |Aiv(0) + Pad8(none)| == 8
    ensures Splice(s, r, Aiv(0) + Pad8(none)) == Splice(s, r, Aiv(0) + s[r + 8..r + 16])
  {
    hide ToBigEndian, Icv2;
    assert Pad8(none) == [];
    assert Aiv(0) + [] == Aiv(0);
  }

  lemma PaddedLength(n: nat, m: nat)
    requires m % 8 == 0 && n <= m < n + 8
    ensures m == (n + 7) / 8 * 8
  {
  }

  lemma ThreeParts(s: seq<byte>, r: nat, a: seq<byte>, x: seq<byte>, z: seq<byte>)
    requires |a| == 8 && r + 8 + |x| + |z| <= |s|
    ensures Splice(Splice(Splice(s, r, a), r + 8, x), r + 8 + |x|, z) == Splice(s, r, a + (x + z))
  {
    hide Splice;
    SpliceMore(s, r, a, x);
    assert |a + x| == 8 + |x|;
    SpliceMore(s, r, a + x, z);
    ConcatAssociates(a, x, z);
  }

  // ---- round trips ----

  lemma Parts(k: Cipher, a: seq<byte>, r: seq<byte>, input: seq<byte>)
    requires k.Valid() && k.bs == 16 && |a| == 8 && |r| % 8 == 0 && |r| >= 16 && |input| == |r| + 8
    ensures input == Wrap(k, a + r) <==> Unwrap(k, input)[..8] == a && Unwrap(k, input)[8..] == r
  {
    hide Wrap, Unwrap;
    UnwrapInvertsWrap(k, a + r);
    UnwrapInvertsWrap(k, input);
    var u := Unwrap(k, input);
    assert (a + r)[..8] == a && (a + r)[8..] == r;
    assert u == u[..8] + u[8..];
  }

  /** KW: what is accepted with length zero is exactly the wrap of what comes out, under the initial
      value that was set or the default one.  A set value takes precedence over every other reading. */
  lemma KwExact(k: Cipher, extended: bool, marksIv: bool, iv: seq<byte>, data: seq<byte>, input: seq<byte>, plen0: seq<byte>)
    requires k.Valid() && k.bs == 16 && |iv| == 8 && |data| % 8 == 0 && |data| >= 16 && |input| == |data| + 8
    ensures marksIv && input == Wrap(k, iv + data) ==> Auto(k, extended, marksIv, iv, input, plen0) == Answer(Ok, data, [0, 0, 0, 0])
    ensures input == Wrap(k, DefaultIv() + data) ==> Auto(k, extended, marksIv, iv, input, plen0) == Answer(Ok, data, [0, 0, 0, 0])
    ensures Auto(k, extended, marksIv, iv, input, plen0).st == Ok && Auto(k, extended, marksIv, iv, input, plen0).text == data ==>
      (marksIv && input == Wrap(k, iv + data)) || input == Wrap(k, DefaultIv() + data)
      || (extended && input == Wrap(k, Unwrap(k, input)[..8] + data) && Unwrap(k, input)[..4] == Icv2())
  {
    hide Wrap, Unwrap, PadCheck, BigEndian;
    Parts(k, iv, data, input);
    Parts(k, DefaultIv(), data, input);
    var u := Unwrap(k, input);
    Parts(k, u[..8], data, input);
    assert u[..8][..4] == u[..4];
    assert DefaultIv()[..4] != Icv2() by { assert DefaultIv()[1] == 0xa6 && Icv2()[1] == 0x59; }
  }

  lemma WordParts(c: seq<byte>, l: seq<byte>, p: seq<byte>)
    requires |c| == |l| == 4
    ensures var w := c + l + p;
            w[..8] == c + l && w[..4] == c && w[4..8] == l && w[8..] == p
    ensures (c + l)[..4] == c && (c + l)[4..] == l
  {
  }

  lemma PadIsPadded(data: seq<byte>)
    ensures Padded(Pad8(data), |data|)
  {
  }

  lemma NumberBack(n: nat)
    requires n < 0x1_0000_0000
    ensures BigEndian(ToBigEndian(n, 4)) == n
  {
    hide BigEndian, ToBigEndian, Pow256;
    BigEndianRoundTrip(n, 4);
    Pow256Values();
    DivModUnique(n, Pow256(4), 0, n);
  }

  lemma KwpWord(data: seq<byte>)
    requires 0 < |data| < 0x1_0000_0000
    ensures var w := KwpInput(data);
            w[..8] == Aiv(|data|) && w[..4] == Icv2() && w[4..8] == ToBigEndian(|data|, 4) && w[8..] == Pad8(data)
    ensures BigEndian(ToBigEndian(|data|, 4)) == |data|
    ensures Aiv(|data|)[4..] == ToBigEndian(|data|, 4) && Aiv(|data|)[..4] == Icv2()
    ensures Padded(Pad8(data), |data|)
  {
    hide BigEndian, ToBigEndian, Icv2, Pad8, Padded;
    NumberBack(|data|);
    WordParts(Icv2(), ToBigEndian(|data|, 4), Pad8(data));
    PadIsPadded(data);
  }

  /** The string with given length octets and padded data is the one the sender made. */
  lemma KwpBack(data: seq<byte>, u: seq<byte>)
    requires 0 < |data| < 0x1_0000_0000 && |u| == 8 + |Pad8(data)|
    requires u[..4] == Icv2() && u[4..8] == ToBigEndian(|data|, 4) && u[8..] == Pad8(data)
    ensures u == KwpInput(data)
  {
    assert u == u[..4] + u[4..8] + u[8..];
  }

  /** The deciphered block of a packet opens to data just when it is the sender's, but for eight octets. */
  lemma KwpBlock(data: seq<byte>, t: seq<byte>, plen0: seq<byte>)
    requires 0 < |data| <= 8 && |t| == 16
    ensures AutoShort(t, plen0) == Answer(Ok, Pad8(data), ToBigEndian(|data|, 4))
       <==> t == KwpInput(data) && |data| != 8
    ensures t == KwpInput(data) && |data| == 8 ==> AutoShort(t, plen0).st == Checksum
  {
    hide BigEndian, ToBigEndian, Icv2, Padded, Pad8, Aiv, KwpInput;
    KwpWord(data);
    assert |Pad8(data)| == 8;
    var n := |data|;
    if t == KwpInput(data) && n < 8 {
      assert t[8 + n..] == t[8..][n..];
      PadTail(data);
    }
    if AutoShort(t, plen0) == Answer(Ok, Pad8(data), ToBigEndian(n, 4)) {
      assert t[4..8] == ToBigEndian(n, 4);
      KwpBack(data, t);
    }
  }

  lemma PadTail(data: seq<byte>)
    ensures |data| <= |Pad8(data)| && AllZero(Pad8(data)[|data|..])
  {
  }

  /** KWP with one block: eight octets are sealed but never opened. */
  lemma KwpShort(k: Cipher, data: seq<byte>, input: seq<byte>, plen0: seq<byte>)
    requires k.Valid() && k.bs == 16 && 0 < |data| <= 8 && |input| == 16
    ensures AutoShort(k.dec(input), plen0) == Answer(Ok, Pad8(data), ToBigEndian(|data|, 4))
       <==> input == KwpSeal(k, data) && |data| != 8
    ensures input == KwpSeal(k, data) && |data| == 8 ==> AutoShort(k.dec(input), plen0).st == Checksum
  {
    hide AutoShort, ToBigEndian, Aiv, Pad8, KwpInput;
    KwpBlock(data, k.dec(input), plen0);
    var w := KwpInput(data);
    assert k.dec(k.enc(w)) == w && k.enc(k.dec(input)) == input;
  }

  /** What comes of an empty input opens, to nothing, whatever the eight octets were; no length is stored. */
  lemma KwpEmpty(k: Cipher, rest: seq<byte>, plen0: seq<byte>)
    requires k.Valid() && k.bs == 16 && |rest| == 8
    ensures |Aiv(0) + rest| == 16 && AutoShort(k.dec(k.enc(Aiv(0) + rest)), plen0) == Answer(Ok, [], plen0)
  {
    hide BigEndian, ToBigEndian, Icv2;
    NumberBack(0);
    WordParts(Icv2(), ToBigEndian(0, 4), rest);
  }

  /** KWP, section 4 of RFC 5649: with the extended flag and no initial value set, an input opens to
      data and its length if and only if it is the seal of data and data is not eight octets long. */
  lemma KwpTrips(k: Cipher, iv: seq<byte>, data: seq<byte>, input: seq<byte>, plen0: seq<byte>)
    requires k.Valid() && k.bs == 16 && |iv| == 8 && 0 < |data| < 0x1_0000_0000 && |input| == |KwpInput(data)|
    ensures Auto(k, true, false, iv, input, plen0) == Answer(Ok, Pad8(data), ToBigEndian(|data|, 4))
       <==> input == KwpSeal(k, data) && |data| != 8
    ensures input == KwpSeal(k, data) && |data| == 8 ==> Auto(k, true, false, iv, input, plen0).st == Checksum
  {
    hide BigEndian, ToBigEndian, Icv2, Padded, Wrap, Unwrap, PadCheck, AutoShort, Aiv, AutoLong;
    if |data| <= 8 {
      KwpShort(k, data, input, plen0);
    } else {
      var u := Unwrap(k, input);
      Parts(k, Aiv(|data|), Pad8(data), input);
      KwpLong(data, iv, u[..8], u[8..], plen0);
    }
  }

  lemma KwpLong(data: seq<byte>, iv: seq<byte>, a: seq<byte>, r: seq<byte>, plen0: seq<byte>)
    requires |iv| == 8 && 8 < |data| < 0x1_0000_0000 && |a| == 8 && |r| == |Pad8(data)|
    ensures AutoLong(true, false, iv, a, r, plen0) == Answer(Ok, Pad8(data), ToBigEndian(|data|, 4))
       <==> a == Aiv(|data|) && r == Pad8(data)
  {
    hide BigEndian, ToBigEndian, Icv2, Padded, PadCheck, Pad8;
    KwpWord(data);
    PadCheckMeans(Pad8(data), |data|);
    PlenBound(a);
    NotZero(|data|);
    assert a == a[..4] + a[4..];
  }

  lemma NotZero(n: nat)
    requires 0 < n < 0x1_0000_0000
    ensures ToBigEndian(n, 4) != [0, 0, 0, 0]
  {
    hide BigEndian, ToBigEndian;
    BigEndianRoundTrip(n, 4);
    Pow256Values();
    BigEndianZero();
  }

  lemma BigEndianZero()
    ensures BigEndian([0, 0, 0, 0]) == 0
  {
    hide Val;
    TwoFiftyFive();
    var z: seq<byte> := [0, 0, 0, 0];
    assert BigEndian(z[..1]) == 256 * BigEndian(z[..1][..0]) + Val(0);
    assert z[..2][..1] == z[..1] && z[..3][..2] == z[..2] && z[..3] == z[..3];
    assert BigEndian(z[..2]) == 0;
    assert BigEndian(z[..3]) == 0;
  }
}
