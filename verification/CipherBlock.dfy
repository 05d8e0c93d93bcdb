/** Blocks of octets, their exclusive-or, and the block cipher every mode is given. */
module CipherBlock {
  import opened Bytes

  function XorByte(a: byte, b: byte): byte {
    a ^ b
  }

  function Xor(a: seq<byte>, b: seq<byte>): (c: seq<byte>)
    requires |a| == |b|
    ensures |c| == |a|
  {
    seq(|a|, i requires 0 <= i < |a| => XorByte(a[i], b[i]))
  }

  function ZeroBytes(n: nat): (z: seq<byte>)
    ensures |z| == n
  {
    seq(n, i => 0)
  }

  lemma XorByteLaws(a: byte, b: byte, c: byte)
    ensures XorByte(a, b) == XorByte(b, a)
    ensures XorByte(XorByte(a, b), c) == XorByte(a, XorByte(b, c))
    ensures XorByte(a, a) == 0 && XorByte(a, 0) == a
  {
  }

  lemma XorCommutes(a: seq<byte>, b: seq<byte>)
    requires |a| == |b|
    ensures Xor(a, b) == Xor(b, a)
  {
    hide XorByte;
    forall i | 0 <= i < |a|
      ensures Xor(a, b)[i] == Xor(b, a)[i]
    {
      XorByteLaws(a[i], b[i], 0);
    }
  }

  lemma XorAssociates(a: seq<byte>, b: seq<byte>, c: seq<byte>)
    requires |a| == |b| == |c|
    ensures Xor(Xor(a, b), c) == Xor(a, Xor(b, c))
  {
    hide XorByte;
    forall i | 0 <= i < |a|
      ensures Xor(Xor(a, b), c)[i] == Xor(a, Xor(b, c))[i]
    {
      XorByteLaws(a[i], b[i], c[i]);
    }
  }

  lemma XorSelf(a: seq<byte>)
    ensures Xor(a, a) == ZeroBytes(|a|)
  {
    hide XorByte;
    forall i | 0 <= i < |a|
      ensures Xor(a, a)[i] == 0
    {
      XorByteLaws(a[i], a[i], a[i]);
    }
  }

  lemma XorZero(a: seq<byte>)
    ensures Xor(a, ZeroBytes(|a|)) == a && Xor(ZeroBytes(|a|), a) == a
  {
    hide XorByte;
    forall i | 0 <= i < |a|
      ensures Xor(a, ZeroBytes(|a|))[i] == a[i]
    {
      XorByteLaws(a[i], 0, 0);
    }
    XorCommutes(a, ZeroBytes(|a|));
  }

  /** Adding the same block twice changes nothing. */
  lemma XorCancels(a: seq<byte>, b: seq<byte>)
    requires |a| == |b|
    ensures Xor(Xor(a, b), b) == a && Xor(b, Xor(b, a)) == a && Xor(b, Xor(a, b)) == a
  {
    hide Xor;
    XorAssociates(a, b, b);
    XorSelf(b);
    XorZero(a);
    XorCommutes(a, b);
    XorCommutes(b, Xor(a, b));
    XorCommutes(b, Xor(b, a));
  }

  lemma XorConcat(a: seq<byte>, b: seq<byte>, c: seq<byte>, d: seq<byte>)
    requires |a| == |c| && |b| == |d|
    ensures Xor(a + b, c + d) == Xor(a, c) + Xor(b, d)
  {
    hide XorByte;
  }

  /** A block cipher with its key: a permutation of the strings of bs octets and its inverse. */
  datatype Cipher = Cipher(bs: nat, enc: seq<byte> -> seq<byte>, dec: seq<byte> -> seq<byte>) {
    ghost predicate Valid() {
      && bs > 0
      && (forall b: seq<byte> {:trigger enc(b)} :: |b| == bs ==> |enc(b)| == bs && dec(enc(b)) == b)
      && (forall b: seq<byte> {:trigger dec(b)} :: |b| == bs ==> |dec(b)| == bs && enc(dec(b)) == b)
    }
  }

  /** The permutation that changes nothing, for inputs at which a mode goes wrong. */
  function Identity(bs: nat): Cipher {
    Cipher(bs, b => b, b => b)
  }

  lemma IdentityValid(bs: nat)
    requires bs > 0
    ensures Identity(bs).Valid()
  {
  }

  // ---- buffers written from front to back, possibly in place ----

  /** s with x written at position at. */
  function Splice(s: seq<byte>, at: nat, x: seq<byte>): (r: seq<byte>)
    requires at + |x| <= |s|
    ensures |r| == |s|
  {
    s[..at] + x + s[at + |x|..]
  }

  lemma ConcatAssociates(a: seq<byte>, b: seq<byte>, c: seq<byte>)
    ensures a + b + c == a + (b + c)
  {
  }

  lemma SliceOfSlice(s: seq<byte>, p: nat, q: nat, i: nat, j: nat)
    requires p <= q <= |s| && i <= j <= q - p
    ensures s[p..q][i..j] == s[p + i..p + j]
  {
    forall k | 0 <= k < j - i
      ensures s[p..q][i..j][k] == s[p + i..p + j][k]
    {
    }
  }

  lemma SliceMore(s: seq<byte>, i: nat, j: nat, k: nat)
    requires i <= j <= k <= |s|
    ensures s[i..j] + s[j..k] == s[i..k]
  {
  }

  lemma SpliceMore(s: seq<byte>, at: nat, x: seq<byte>, y: seq<byte>)
    requires at + |x| + |y| <= |s|
    ensures Splice(Splice(s, at, x), at + |x|, y) == Splice(s, at, x + y)
  {
  }

  lemma SpliceAgain(s: seq<byte>, at: nat, x: seq<byte>, y: seq<byte>)
    requires at + |x| <= |s| && |y| == |x|
    ensures Splice(Splice(s, at, x), at, y) == Splice(s, at, y)
  {
  }

  lemma SpliceNothing(s: seq<byte>, at: nat)
    requires at <= |s|
    ensures Splice(s, at, []) == s
  {
  }

  lemma SpliceSlices(s: seq<byte>, at: nat, x: seq<byte>)
    requires at + |x| <= |s|
    ensures Splice(s, at, x)[at..at + |x|] == x
    ensures forall i, j :: at + |x| <= i <= j <= |s| ==> Splice(s, at, x)[i..j] == s[i..j]
  {
  }

  lemma SpliceKeeps(s: seq<byte>, at: nat, x: seq<byte>)
    requires at + |x| <= |s|
    ensures Splice(s, at, x)[..at] == s[..at]
  {
  }

  /** The octets [ip, ip + n) of inbuf are those of in0 while outbuf has been written only up to
      the reading position, whether or not the two buffers are the same. */
  lemma ReadAhead(outbuf: array<byte>, out0: seq<byte>, op: nat, done: seq<byte>,
                  inbuf: array<byte>, in0: seq<byte>, ip: nat, n: nat)
    requires |out0| == outbuf.Length && |in0| == inbuf.Length
    requires op + |done| <= |out0| && outbuf[..] == Splice(out0, op, done)
    requires outbuf == inbuf ==> ip >= op + |done| && in0 == out0
    requires outbuf != inbuf ==> inbuf[..] == in0
    requires ip + n <= |in0|
    ensures inbuf[ip..ip + n] == in0[ip..ip + n]
  {
    SpliceSlices(out0, op, done);
    assert inbuf[ip..ip + n] == inbuf[..][ip..ip + n];
  }

  /** The same, about the contents alone. */
  lemma ReadSlice(out0: seq<byte>, op: nat, done: seq<byte>, now: seq<byte>, in0: seq<byte>, ip: nat, n: nat, same: bool)
    requires op + |done| <= |out0|
    requires if same then now == Splice(out0, op, done) && in0 == out0 && ip >= op + |done| else now == in0
    requires ip + n <= |in0|
    ensures |now| == |in0| && now[ip..ip + n] == in0[ip..ip + n]
  {
    SpliceSlices(out0, op, done);
  }

  /** Contents of the buffers of a call that xors a key stream onto data from front to back: some
      octets are written, the rest of the input is still there. */
  ghost predicate Front(now: seq<byte>, srcNow: seq<byte>, same: bool, out0: seq<byte>, op: nat, in0: seq<byte>, ip: nat,
                        data: seq<byte>, st: seq<byte>)
    ensures Front(now, srcNow, same, out0, op, in0, ip, data, st) ==>
      op + |data| <= |now| && |st| <= |data| && ip + |data| <= |srcNow|
  {
    && |out0| == |now| && op + |data| <= |out0| && |st| <= |data|
    && |in0| == |srcNow| && ip + |data| <= |in0| && data == in0[ip..ip + |data|]
    && (if same then op == ip && in0 == out0 && srcNow == now else srcNow == in0)
    && now == Splice(out0, op, Xor(data[..|st|], st))
  }

  ghost predicate Xored(dst: array<byte>, out0: seq<byte>, op: nat, src: array<byte>, in0: seq<byte>, ip: nat,
                        data: seq<byte>, st: seq<byte>)
    reads dst, src
  {
    Front(dst[..], src[..], dst == src, out0, op, in0, ip, data, st)
  }

  /** Writing the next data xored with more key stream moves the front. */
  lemma FrontMore(now: seq<byte>, srcNow: seq<byte>, same: bool, out0: seq<byte>, op: nat, in0: seq<byte>, ip: nat,
                  data: seq<byte>, st: seq<byte>, ks: seq<byte>, x: seq<byte>, next: seq<byte>)
    requires Front(now, srcNow, same, out0, op, in0, ip, data, st) && |st| + |ks| <= |data|
    requires x == Xor(data[|st|..|st| + |ks|], ks) && next == Splice(now, op + |st|, x)
    ensures Front(next, if same then next else srcNow, same, out0, op, in0, ip, data, st + ks)
    ensures next[..op + |st|] == now[..op + |st|]
  {
    hide Splice, XorByte;
    XorConcat(data[..|st|], data[|st|..|st| + |ks|], st, ks);
    assert data[..|st| + |ks|] == data[..|st|] + data[|st|..|st| + |ks|];
    SpliceMore(out0, op, Xor(data[..|st|], st), x);
    SpliceKeeps(now, op + |st|, x);
  }

  lemma XoredNothing(dst: array<byte>, op: nat, src: array<byte>, ip: nat, n: nat)
    requires op + n <= dst.Length && ip + n <= src.Length && Separate(dst, op, src, ip)
    ensures Xored(dst, dst[..], op, src, src[..], ip, src[ip..ip + n], [])
  {
    assert src[ip..ip + n] == src[..][ip..ip + n];
    assert Xor(src[ip..ip + n][..0], []) == [];
    SpliceNothing(dst[..], op);
  }

  lemma XoredApart(dst: array<byte>, out0: seq<byte>, op: nat, src: array<byte>, in0: seq<byte>, ip: nat,
                   data: seq<byte>, st: seq<byte>)
    requires Xored(dst, out0, op, src, in0, ip, data, st)
    ensures op + |data| <= dst.Length && ip + |data| <= src.Length && Separate(dst, op, src, ip) && |st| <= |data|
  {
  }

  /** The next octets of input are the next octets of data. */
  lemma XoredRead(dst: array<byte>, out0: seq<byte>, op: nat, src: array<byte>, in0: seq<byte>, ip: nat,
                  data: seq<byte>, st: seq<byte>, n: nat)
    requires Xored(dst, out0, op, src, in0, ip, data, st) && |st| + n <= |data|
    ensures src[ip + |st|..ip + |st| + n] == data[|st|..|st| + n]
  {
    ReadAhead(dst, out0, op, Xor(data[..|st|], st), src, in0, ip + |st|, n);
    SliceOfSlice(in0, ip, ip + |data|, |st|, |st| + n);
  }

  lemma XoredAll(dst: array<byte>, out0: seq<byte>, op: nat, src: array<byte>, in0: seq<byte>, ip: nat,
                 data: seq<byte>, st: seq<byte>)
    requires Xored(dst, out0, op, src, in0, ip, data, st) && |st| == |data|
    ensures op + |data| <= |out0| && dst[..] == Splice(out0, op, Xor(data, st))
  {
    assert data[..|st|] == data;
  }

  /** Writes the next octets: x must be the next data xored with more key stream. */
  method XoredPut(dst: array<byte>, ghost out0: seq<byte>, ghost op: nat, src: array<byte>, ghost in0: seq<byte>, ghost ip: nat,
                  ghost data: seq<byte>, ghost st: seq<byte>, ghost ks: seq<byte>, at: nat, x: seq<byte>)
    requires Xored(dst, out0, op, src, in0, ip, data, st) && |st| + |ks| <= |data| && at == op + |st|
    requires x == Xor(data[|st|..|st| + |ks|], ks)
    modifies dst
    ensures Xored(dst, out0, op, src, in0, ip, data, st + ks) && dst[..at] == old(dst[..at])
  {
    hide Splice, Xor, Front;
    ghost var before, srcBefore := dst[..], src[..];
    Put(dst, at, x);
    FrontMore(before, srcBefore, dst == src, out0, op, in0, ip, data, st, ks, x, dst[..]);
    assert dst[..at] == dst[..][..at] && before[..at] == old(dst[..at]);
  }

  /** Stores b at pos and nothing else. */
  method Put(a: array<byte>, pos: nat, b: seq<byte>)
    requires pos + |b| <= a.Length
    modifies a
    ensures a[..] == Splice(old(a[..]), pos, b)
  {
    forall i | 0 <= i < |b| {
      a[pos + i] := b[i];
    }
  }

  /** In-place processing is allowed, shifted overlap is not. */
  predicate Separate(outbuf: array<byte>, op: nat, inbuf: array<byte>, ip: nat) {
    outbuf == inbuf ==> op == ip
  }
}
