/** chacha20.c: the stream with its buffered last block, over whatever block functions the
    processor offers. */
module ChaChaStream {
  import opened Bytes
  import opened CipherBlock
  import opened ChaCha20

  /** The feature flags of the context. */
  datatype Features = Features(avx512: bool, avx2: bool, ssse3: bool, neon: bool, ppc: bool, p9: bool, p10: bool, s390x: bool)

  datatype Kernel = Scalar | Rows | FourLanes

  class Ctx {
    const features: Features
    const pad: array<byte>
    var input: State
    var unused: nat
    ghost var start: State  // the state at position 0
    ghost var blocks: nat   // blocks of key stream made so far

    ghost predicate Valid()
      reads this, pad
      ensures Valid() ==> pad.Length == 64 && unused < 64 && (unused > 0 ==> blocks > 0)
    {
      && pad.Length == 64 && unused < 64 && (unused > 0 ==> blocks > 0)
      && input == Counter(blocks, start)
      && pad[64 - unused..] == KeyStream(start, 64 * blocks - unused, unused)
    }

    ghost function Position(): nat
      requires unused < 64 && (unused > 0 ==> blocks > 0)
      reads this
    {
      64 * blocks - unused
    }

    constructor (features: Features, input: State)
      ensures Valid() && Position() == 0 && start == input && fresh(pad)
    {
      this.features, this.input, start := features, input, input;
      pad := new byte[64];
      unused, blocks := 0, 0;
      new;
      hide StateBytes, Block;
    }

    /** Whole blocks by one of the block functions. */
    method WholeBlocks(kernel: Kernel, outbuf: array<byte>, op: nat, inbuf: array<byte>, ip: nat, nblocks: nat, ghost data: seq<byte>)
      requires Valid() && unused == 0 && nblocks > 0 && (kernel == FourLanes ==> nblocks % 4 == 0)
      requires op + 64 * nblocks <= outbuf.Length && ip + 64 * nblocks <= inbuf.Length && Separate(outbuf, op, inbuf, ip)
      requires outbuf != pad && data == inbuf[ip..ip + 64 * nblocks]
      modifies this`input, this`blocks, outbuf
      ensures Valid() && Position() == old(Position()) + 64 * nblocks
      ensures outbuf[..] == Splice(old(outbuf[..]), op, Crypt(start, old(Position()), data))
    {
      hide Splice, Xor, KeyStream, Stream, Counter;
      ghost var out;
      match kernel {
        case Scalar => input, out := ScalarBlocks(input, outbuf, op, inbuf, ip, nblocks);
        case Rows => input, out := VectorBlocks1(input, outbuf, op, inbuf, ip, nblocks);
        case FourLanes => input, out := VectorBlocks4(input, outbuf, op, inbuf, ip, nblocks);
      }
      StreamIsKeyStream(start, blocks, nblocks);
      CounterPlus(nblocks, blocks, start);
      blocks := blocks + nblocks;
    }

    /** Blocks as part of a call: the front of the call moves on by nblocks blocks. */
    method FrontBlocks(kernel: Kernel, outbuf: array<byte>, ghost out0: seq<byte>, op: nat, inbuf: array<byte>, ghost in0: seq<byte>,
                       ip: nat, ghost data: seq<byte>, ghost pos: nat, done: nat, nblocks: nat)
      requires Valid() && unused == 0 && nblocks > 0 && (kernel == FourLanes ==> nblocks % 4 == 0) && outbuf != pad
      requires Position() == pos + done && done + 64 * nblocks <= |data|
      requires Xored(outbuf, out0, op, inbuf, in0, ip, data, KeyStream(start, pos, done))
      modifies this`input, this`blocks, outbuf
      ensures Valid() && Position() == pos + done + 64 * nblocks
      ensures Xored(outbuf, out0, op, inbuf, in0, ip, data, KeyStream(start, pos, done + 64 * nblocks))
      ensures outbuf[..op + done] == old(outbuf[..op + done])
    {
      hide Splice, Xor, KeyStream, Front, Valid;
      ghost var st, n := KeyStream(start, pos, done), 64 * nblocks;
      XoredRead(outbuf, out0, op, inbuf, in0, ip, data, st, n);
      XoredApart(outbuf, out0, op, inbuf, in0, ip, data, st);
      ghost var before, srcBefore, x := outbuf[..], inbuf[..], data[done..done + n];
      WholeBlocks(kernel, outbuf, op + done, inbuf, ip + done, nblocks, x);
      KeyStreamConcat(start, pos, done, n);
      FrontMore(before, srcBefore, outbuf == inbuf, out0, op, in0, ip, data, st, KeyStream(start, pos + done, n),
                Crypt(start, pos + done, x), outbuf[..]);
      assert outbuf[..op + done] == outbuf[..][..op + done] && before[..op + done] == old(outbuf[..op + done]);
    }

    /** One of the optional stages: as many whole groups of m blocks as are left, when the processor
        has the function. */
    method Stage(use: bool, m: nat, kernel: Kernel, outbuf: array<byte>, ghost out0: seq<byte>, op: nat, inbuf: array<byte>,
                 ghost in0: seq<byte>, ip: nat, ghost data: seq<byte>, ghost pos: nat, done: nat, length: nat) returns (next: nat)
      requires Valid() && unused == 0 && outbuf != pad && m in {1, 4, 8} && (kernel == FourLanes ==> m != 1)
      requires Position() == pos + done && done <= length == |data|
      requires Xored(outbuf, out0, op, inbuf, in0, ip, data, KeyStream(start, pos, done))
      modifies this`input, this`blocks, outbuf
      ensures Valid() && Position() == pos + next && done <= next <= length
      ensures Xored(outbuf, out0, op, inbuf, in0, ip, data, KeyStream(start, pos, next))
      ensures use ==> length - next < 64 * m
    {
      hide KeyStream, Front, Valid, Xored;
      next := done;
      if use && length - done >= 64 * m {
        var nblocks := (length - done) / 64;
        nblocks := nblocks - nblocks % m;
        FrontBlocks(kernel, outbuf, out0, op, inbuf, in0, ip, data, pos, done, nblocks);
        next := done + 64 * nblocks;
      }
    }

    /** do_chacha20_encrypt_stream_tail: every block function the processor has, then single blocks,
        then a last block through the pad. */
    method StreamTail(outbuf: array<byte>, op: nat, inbuf: array<byte>, ip: nat, length: nat, ghost data: seq<byte>)
      requires Valid() && unused == 0 && outbuf != pad && inbuf != pad && length == |data|
      requires op + length <= outbuf.Length && ip + length <= inbuf.Length && Separate(outbuf, op, inbuf, ip)
      requires data == inbuf[ip..ip + length]
      modifies this`input, this`blocks, this`unused, pad, outbuf
      ensures Valid() && Position() == old(Position()) + length
      ensures outbuf[..] == Splice(old(outbuf[..]), op, Crypt(start, old(Position()), data))
    {
      hide KeyStream, Front, Xored, Splice, Crypt, Valid;
      ghost var out0, in0, pos := outbuf[..], inbuf[..], Position();
      XoredNothing(outbuf, op, inbuf, ip, length);
      assert KeyStream(start, pos, 0) == [];
      var done := Stages(outbuf, out0, op, inbuf, in0, ip, data, pos, length);
      done := Stage(true, 1, if features.ppc then Rows else Scalar, outbuf, out0, op, inbuf, in0, ip, data, pos, done, length);
      if length > done {
        LastBlock(outbuf, out0, op, inbuf, in0, ip, data, pos, done, length - done);
      }
      XoredAll(outbuf, out0, op, inbuf, in0, ip, data, KeyStream(start, pos, length));
      CryptIs(start, pos, data);
    }

    /** The stages that depend on the processor. */
    method Stages(outbuf: array<byte>, ghost out0: seq<byte>, op: nat, inbuf: array<byte>, ghost in0: seq<byte>,
                  ip: nat, ghost data: seq<byte>, ghost pos: nat, length: nat) returns (done: nat)
      requires Valid() && unused == 0 && outbuf != pad && length == |data| && Position() == pos
      requires Xored(outbuf, out0, op, inbuf, in0, ip, data, KeyStream(start, pos, 0))
      modifies this`input, this`blocks, outbuf
      ensures Valid() && Position() == pos + done && done <= length
      ensures Xored(outbuf, out0, op, inbuf, in0, ip, data, KeyStream(start, pos, done))
    {
      hide KeyStream, Front, Xored, Splice, Crypt, Valid;
      var f := features;
      done := Stage(f.avx512, 1, Scalar, outbuf, out0, op, inbuf, in0, ip, data, pos, 0, length);
      done := Stage(f.avx2, 8, Scalar, outbuf, out0, op, inbuf, in0, ip, data, pos, done, length);
      done := Stage(f.ssse3, 4, Scalar, outbuf, out0, op, inbuf, in0, ip, data, pos, done, length);
      done := Stage(f.neon, 4, Scalar, outbuf, out0, op, inbuf, in0, ip, data, pos, done, length);
      done := Stage(f.ppc, 4, FourLanes, outbuf, out0, op, inbuf, in0, ip, data, pos, done, length);
      done := Stage(f.s390x, 8, Scalar, outbuf, out0, op, inbuf, in0, ip, data, pos, done, length);
    }

    /** Key stream left over from the last call. */
    method Leftover(outbuf: array<byte>, ghost out0: seq<byte>, op: nat, inbuf: array<byte>, ghost in0: seq<byte>,
                    ip: nat, ghost data: seq<byte>, ghost pos: nat, n: nat)
      requires Valid() && outbuf != pad && inbuf != pad && n <= unused && n <= |data| && Position() == pos
      requires Xored(outbuf, out0, op, inbuf, in0, ip, data, KeyStream(start, pos, 0))
      modifies this`unused, outbuf
      ensures Valid() && unused == old(unused) - n && Position() == pos + n
      ensures Xored(outbuf, out0, op, inbuf, in0, ip, data, KeyStream(start, pos, n))
    {
      hide KeyStream, Front, Xored, Splice, Crypt, Stream, Counter, Xor;
      XoredRead(outbuf, out0, op, inbuf, in0, ip, data, KeyStream(start, pos, 0), n);
      XoredApart(outbuf, out0, op, inbuf, in0, ip, data, KeyStream(start, pos, 0));
      KeyStreamSlice(start, pos, unused, 0, n);
      KeyStreamSlice(start, pos, unused, n, unused);
      KeyStreamConcat(start, pos, 0, n);
      var p := 64 - unused;
      assert pad[p..p + n] == pad[p..][0..n] && pad[p + n..] == pad[p..][n..unused];
      XoredPut(outbuf, out0, op, inbuf, in0, ip, data, KeyStream(start, pos, 0), KeyStream(start, pos, n), op,
               Xor(inbuf[ip..ip + n], pad[p..p + n]));
      unused := unused - n;
    }

    lemma InputIs()
      requires Valid()
      ensures input == Counter(blocks, start)
    {
      hide KeyStream, Counter;
    }

    /** Blocks made by a function that was handed the state itself. */
    method TakeBlocks(next: State, ghost nblocks: nat)
      requires Valid() && unused == 0 && next == Counter(nblocks, input)
      modifies this`input, this`blocks
      ensures Valid() && Position() == old(Position()) + 64 * nblocks
    {
      hide KeyStream, Counter;
      CounterPlus(nblocks, blocks, start);
      input := next;
      blocks := blocks + nblocks;
    }

    /** The last, short block: a block of key stream goes to the pad, and what is not used stays there. */
    method LastBlock(outbuf: array<byte>, ghost out0: seq<byte>, op: nat, inbuf: array<byte>, ghost in0: seq<byte>,
                     ip: nat, ghost data: seq<byte>, ghost pos: nat, done: nat, n: nat)
      requires Valid() && unused == 0 && outbuf != pad && inbuf != pad && 0 < n < 64
      requires Position() == pos + done && done + n == |data|
      requires Xored(outbuf, out0, op, inbuf, in0, ip, data, KeyStream(start, pos, done))
      modifies this`input, this`blocks, this`unused, pad, outbuf
      ensures Valid() && Position() == pos + done + n
      ensures Xored(outbuf, out0, op, inbuf, in0, ip, data, KeyStream(start, pos, done + n))
    {
      hide KeyStream, Front, Xored, Splice, Crypt, Stream, Counter, Xor;
      ghost var st := KeyStream(start, pos, done);
      PadBlock();
      ghost var block := pad[..];
      XoredRead(outbuf, out0, op, inbuf, in0, ip, data, st, n);
      XoredApart(outbuf, out0, op, inbuf, in0, ip, data, st);
      KeyStreamSlice(start, pos + done, 64, 0, n);
      KeyStreamSlice(start, pos + done, 64, n, 64);
      KeyStreamConcat(start, pos, done, n);
      assert pad[..n] == block[0..n] && pad[n..] == block[n..64];
      XoredPut(outbuf, out0, op, inbuf, in0, ip, data, st, KeyStream(start, pos + done, n), op + done,
               Xor(inbuf[ip + done..ip + done + n], pad[..n]));
      unused := 64 - n;
    }

    /** chacha20_blocks onto a block of zeros in the pad. */
    method PadBlock()
      requires Valid() && unused == 0
      modifies this`input, this`blocks, pad
      ensures input == Counter(blocks, start) && blocks == old(blocks) + 1 && unused == 0
      ensures pad[..] == KeyStream(start, 64 * old(blocks), 64)
    {
      hide KeyStream, Stream, Counter, Xor;
      var zeros := new byte[64](i => 0);
      ghost var out;
      ghost var before := pad[..];
      if features.ppc {
        input, out := VectorBlocks1(input, pad, 0, zeros, 0, 1);
      } else {
        input, out := ScalarBlocks(input, pad, 0, zeros, 0, 1);
      }
      assert zeros[0..64] == ZeroBytes(64);
      XorZero(Stream(Counter(blocks, start), 1));
      StreamIsKeyStream(start, blocks, 1);
      CounterPlus(1, blocks, start);
      assert Splice(before, 0, out) == out;
      blocks := blocks + 1;
    }
  }

  lemma CryptIs(s: State, pos: nat, data: seq<byte>)
    ensures Crypt(s, pos, data) == Xor(data, KeyStream(s, pos, |data|))
  {
  }
}
