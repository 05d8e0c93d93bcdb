/** Splitting a stream into blocks while the last one, full or not, is kept back, and buffers that a
    call writes from front to back. */
module Buffering {
  import opened Bytes
  import opened CipherBlock

  /** All but the last block of n > 0 octets in whole blocks. */
  function AllButLast(bb: nat, n: nat): (m: nat)
    requires bb > 0 && n > 0 && n % bb == 0
    ensures m < n && m % bb == 0 && m + bb == n
  {
    AllButLastIs(bb, n);
    n - bb
  }

  lemma AllButLastIs(bb: nat, n: nat)
    requires bb > 0 && n > 0 && n % bb == 0
    ensures bb <= n && (n - bb) % bb == 0
  {
    DivMod(n, bb);
    var q := n / bb;
    assert q > 0;
    assert bb * q == bb * (q - 1) + bb;
    DivModUnique(n - bb, bb, q - 1, 0);
  }

  /** Where the last block starts: all blocks before it are full, and it is not empty unless all is. */
  function LastStart(bb: nat, n: nat): (m: nat)
    requires bb > 0
    ensures m <= n && m % bb == 0 && n - m <= bb && (n > 0 ==> m < n)
  {
    if n == 0 then 0
    else
      DivMod(n - 1, bb);
      DivModUnique(bb * ((n - 1) / bb), bb, (n - 1) / bb, 0);
      bb * ((n - 1) / bb)
  }

  lemma LastStartIs(bb: nat, n: nat, m: nat)
    requires bb > 0 && m <= n && m % bb == 0 && n - m <= bb && (n > 0 ==> m < n)
    ensures LastStart(bb, n) == m
  {
    if n > 0 {
      DivMod(m, bb);
      DivModUnique(n - 1, bb, m / bb, n - 1 - m);
    } else {
      assert m == 0;
    }
  }

  lemma NextBlock(bb: nat, i: nat, n: nat)
    requires i < n
    ensures bb * i + bb == bb * (i + 1) <= bb * n
  {
    MulMono(bb, i, n);
  }

  /** How many blocks can be hashed while at least one octet is kept. */
  lemma BlocksBefore(bb: nat, n: nat)
    requires bb > 0 && n > 0
    ensures var nblks := n / bb - if n % bb == 0 then 1 else 0;
            0 <= nblks && bb * nblks < n <= bb * nblks + bb
  {
    DivMod(n, bb);
    var q := n / bb;
    if n % bb == 0 {
      assert q > 0;
      assert bb * q == bb * (q - 1) + bb;
    }
  }

  /** Where the octets kept in the buffer lie in everything written. */
  lemma Kept(was: seq<byte>, input: seq<byte>, m: nat, start: nat, pos: nat, left: nat)
    requires pos <= |input| && start + left == |was| + pos && m <= |was|
    ensures left == 0 ==> (was + input)[..start] == was + input[..pos] && (was + input)[start..] == input[pos..]
    ensures pos == 0 && start == m ==> (was + input)[..start] == was[..m] && (was + input)[start..] == was[m..] + input[pos..]
  {
    assert input[0..] == input;
  }

  /** Buffers of a call that is writing from front to back: out has been written. */
  ghost predicate Progress(outbuf: array<byte>, out0: seq<byte>, op: nat, inbuf: array<byte>, in0: seq<byte>, ip: nat,
                           total: nat, out: seq<byte>)
    reads outbuf, inbuf
    ensures Progress(outbuf, out0, op, inbuf, in0, ip, total, out) ==>
      |out| <= total && op + total <= outbuf.Length && ip + total <= inbuf.Length && |in0| == inbuf.Length
  {
    && |out0| == outbuf.Length && |in0| == inbuf.Length && op + total <= |out0| && ip + total <= |in0| && |out| <= total
    && Separate(outbuf, op, inbuf, ip) && (outbuf == inbuf ==> in0 == out0) && (outbuf != inbuf ==> inbuf[..] == in0)
    && outbuf[..] == Splice(out0, op, out)
  }

  lemma PrefixGrows(s: seq<byte>, i: nat, j: nat, x: seq<byte>)
    requires i <= j <= |s| && x == s[i..j]
    ensures s[..i] + x == s[..j]
  {
  }

  lemma NextInput(outbuf: array<byte>, out0: seq<byte>, op: nat, inbuf: array<byte>, in0: seq<byte>, ip: nat,
                  total: nat, out: seq<byte>, n: nat)
    requires Progress(outbuf, out0, op, inbuf, in0, ip, total, out) && |out| + n <= total
    ensures inbuf[ip + |out|..ip + |out| + n] == in0[ip..ip + total][|out|..|out| + n]
  {
    hide Splice;
    ReadAhead(outbuf, out0, op, out, inbuf, in0, ip + |out|, n);
    SliceOfSlice(in0, ip, ip + total, |out|, |out| + n);
  }

  /** Input further on is still there too. */
  lemma LaterInput(outbuf: array<byte>, out0: seq<byte>, op: nat, inbuf: array<byte>, in0: seq<byte>, ip: nat,
                   total: nat, out: seq<byte>, from: nat, n: nat)
    requires Progress(outbuf, out0, op, inbuf, in0, ip, total, out) && |out| <= from && from + n <= total
    ensures inbuf[ip + from..ip + from + n] == in0[ip..ip + total][from..from + n]
  {
    hide Splice;
    ReadAhead(outbuf, out0, op, out, inbuf, in0, ip + from, n);
    SliceOfSlice(in0, ip, ip + total, from, from + n);
  }

  method PutMore(outbuf: array<byte>, ghost out0: seq<byte>, ghost op: nat, inbuf: array<byte>, ghost in0: seq<byte>, ghost ip: nat,
                 ghost total: nat, ghost out: seq<byte>, at: nat, y: seq<byte>)
    requires Progress(outbuf, out0, op, inbuf, in0, ip, total, out) && |out| + |y| <= total && at == op + |out|
    modifies outbuf
    ensures Progress(outbuf, out0, op, inbuf, in0, ip, total, out + y)
  {
    hide Splice;
    Put(outbuf, at, y);
    SpliceMore(out0, op, out, y);
  }
}
