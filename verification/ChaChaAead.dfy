/** chacha20.c: ChaCha20-Poly1305 encryption and decryption, whichever stitched functions run. */
module ChaChaAead {
  import opened Bytes
  import opened CipherBlock
  import opened ChaCha20
  import opened ChaChaStream
  import opened ChaChaPoly
  import M = CbcMac
  import P = Poly1305

  /** What a handle has been given: what Poly1305 had absorbed and where the stream stood when the data
      began, and the message and ciphertext of all calls since. */
  datatype Log = Log(base: seq<byte>, pos0: nat, msg: seq<byte>, sealed: seq<byte>)

  class Aead {
    const ctx: Ctx
    const poly: P.Context
    ghost var log: Log

    /** Data starts block-aligned in Poly1305, so its buffer follows the stream position. */
    ghost predicate Valid()
      reads this, ctx, ctx.pad, poly, poly.buffer
    {
      && ctx.Valid() && poly.Valid() && ctx.pad != poly.buffer
      && poly.leftover == ctx.Position() % 16
    }

    /** A handle whose associated data has been padded to whole blocks. */
    constructor (ctx: Ctx, poly: P.Context)
      requires ctx.Valid() && poly.Valid() && ctx.pad != poly.buffer && poly.leftover == ctx.Position() % 16
      ensures Valid() && Tracked() && this.ctx == ctx && this.poly == poly
      ensures log == Log(poly.Absorbed(), ctx.Position(), [], [])
    {
      this.ctx, this.poly := ctx, poly;
      log := Log(poly.Absorbed(), ctx.Position(), [], []);
      new;
      hide Crypt, P.Context.Valid, Ctx.Valid;
      CryptNothing(ctx.start, log.pos0);
      assert log.base + [] == log.base;
    }

    /** The log says what the stream cipher and Poly1305 have done. */
    ghost predicate Tracked()
      reads this, ctx, ctx.pad, poly, poly.buffer
    {
      && Valid() && ctx.Position() == log.pos0 + |log.msg| && log.sealed == Crypt(ctx.start, log.pos0, log.msg)
      && poly.Absorbed() == log.base + log.sealed
    }

    ghost predicate Apart(outbuf: array<byte>, inbuf: array<byte>)
    {
      outbuf != ctx.pad && inbuf != ctx.pad && outbuf != poly.buffer && inbuf != poly.buffer && ctx.pad != poly.buffer
    }

    /** Stitched blocks at the front of a call, with Poly1305 behind the output or on the input. */
    method Stitch(ppc: bool, m: nat, behind: bool, outbuf: array<byte>, ghost out0: seq<byte>, op: nat,
                  inbuf: array<byte>, ghost in0: seq<byte>, ip: nat, ghost data: seq<byte>, ghost pos: nat,
                  done: nat, nblocks: nat, auth: nat)
      requires ctx.Valid() && ctx.unused == 0 && ctx.Position() == pos + done && Apart(outbuf, inbuf)
      requires poly.Valid() && poly.leftover == 0 && m in {1, 4, 8} && (ppc ==> m == 4)
      requires nblocks > 0 && nblocks % m == 0 && done + 64 * nblocks <= |data|
      requires if behind then auth + 64 * m <= op + done else auth == ip + done
      requires Xored(outbuf, out0, op, inbuf, in0, ip, data, KeyStream(ctx.start, pos, done))
      modifies ctx`input, ctx`blocks, poly, poly.buffer, outbuf
      ensures ctx.Valid() && ctx.Position() == pos + done + 64 * nblocks && poly.Valid() && poly.leftover == 0
      ensures Xored(outbuf, out0, op, inbuf, in0, ip, data, KeyStream(ctx.start, pos, done + 64 * nblocks))
      ensures op + |data| <= outbuf.Length && outbuf[..op + done] == old(outbuf[..op + done])
      ensures poly.full == old(poly.full) + if behind then outbuf[auth..auth + 64 * nblocks] else data[done..done + 64 * nblocks]
    {
      hide KeyStream, Front, Splice, Xor, Counter, Stream, Ctx.Valid, P.Context.Valid, Done;
      ghost var st, n := KeyStream(ctx.start, pos, done), 64 * nblocks;
      XoredRead(outbuf, out0, op, inbuf, in0, ip, data, st, n);
      XoredApart(outbuf, out0, op, inbuf, in0, ip, data, st);
      ghost var before, srcBefore := outbuf[..], inbuf[..];
      var state;
      ghost var out;
      var src := if behind then outbuf else inbuf;
      if ppc {
        state, out := StitchedBlocks4(ctx.input, outbuf, op + done, inbuf, ip + done, nblocks, poly, src, auth, behind);
      } else {
        state, out := StitchedGroups(m, ctx.input, outbuf, op + done, inbuf, ip + done, nblocks, poly, src, auth, behind);
      }
      ctx.InputIs();
      StageDone(ctx.start, ctx.input, ctx.blocks, pos, done, nblocks, state, data[done..done + n], out);
      FrontMore(before, srcBefore, outbuf == inbuf, out0, op, in0, ip, data, st, KeyStream(ctx.start, pos + done, n), out, outbuf[..]);
      assert outbuf[..op + done] == outbuf[..][..op + done] && before[..op + done] == old(outbuf[..op + done]);
      ctx.TakeBlocks(state, nblocks);
    }

    /** Between the stages of an encryption: done octets of the call are written, and Poly1305 has
        the octets of outbuf from base up to lag octets short of them. */
    ghost predicate Lagging(outbuf: array<byte>, out0: seq<byte>, op: nat, inbuf: array<byte>, in0: seq<byte>, ip: nat,
                            data: seq<byte>, pos: nat, done: nat, lag: nat, abs0: seq<byte>, base: nat)
      reads ctx, ctx.pad, poly, poly.buffer, outbuf, inbuf
    {
      && ctx.Valid() && ctx.unused == 0 && ctx.Position() == pos + done && Apart(outbuf, inbuf)
      && poly.Valid() && poly.leftover == 0
      && Xored(outbuf, out0, op, inbuf, in0, ip, data, KeyStream(ctx.start, pos, done))
      && base + lag <= op + done <= outbuf.Length && poly.full == abs0 + outbuf[base..op + done - lag]
    }

    /** One optional stitched stage of encryption: Poly1305 runs lag octets behind the output. */
    method EncryptStage(use: bool, m: nat, ppc: bool, lag: nat, outbuf: array<byte>, ghost out0: seq<byte>, op: nat,
                        inbuf: array<byte>, ghost in0: seq<byte>, ip: nat, ghost data: seq<byte>, ghost pos: nat,
                        done: nat, length: nat, ghost abs0: seq<byte>, ghost base: nat) returns (next: nat)
      requires Lagging(outbuf, out0, op, inbuf, in0, ip, data, pos, done, lag, abs0, base)
      requires done <= length == |data| && m in {1, 4, 8} && (ppc ==> m == 4)
      modifies ctx`input, ctx`blocks, poly, poly.buffer, outbuf
      ensures Lagging(outbuf, out0, op, inbuf, in0, ip, data, pos, next, lag, abs0, base) && done <= next <= length
    {
      hide KeyStream, Xored, Ctx.Valid, P.Context.Valid;
      next := done;
      if use && length - done >= 64 * m && lag >= 64 * m {
        var nblocks := (length - done) / 64;
        WholeBatches(length - done, m);
        nblocks := nblocks - nblocks % m;
        var n := 64 * nblocks;
        var auth := op + done - lag;
        ghost var before, full := outbuf[..], poly.full;
        assert before[..op + done] == outbuf[..op + done] && before[base..auth] == outbuf[base..auth];
        Stitch(ppc, m, true, outbuf, out0, op, inbuf, in0, ip, data, pos, done, nblocks, auth);
        LagMoves(before, outbuf, op + done, base, auth, auth + n, abs0, full, poly.full);
        next := done + n;
      }
    }

    /** What Poly1305 has absorbed after a stage that wrote only behind position o. */
    lemma LagMoves(before: seq<byte>, outbuf: array<byte>, o: nat, base: nat, auth: nat, end: nat, abs0: seq<byte>,
                   full0: seq<byte>, full: seq<byte>)
      requires base <= auth <= o <= |before| == outbuf.Length && auth <= end <= outbuf.Length
      requires outbuf[..o] == before[..o] && full0 == abs0 + before[base..auth] && full == full0 + outbuf[auth..end]
      ensures full == abs0 + outbuf[base..end]
    {
      assert outbuf[..o] == outbuf[..][..o];
      StillBehind(true, before, outbuf[..], o, base, auth);
      MoreAbsorbed(abs0, outbuf[..], base, auth, end);
      FromArray(outbuf, base, auth, end);
    }

    /** All stitched stages of encryption. */
    method EncryptStages(lag: nat, outbuf: array<byte>, ghost out0: seq<byte>, op: nat,
                         inbuf: array<byte>, ghost in0: seq<byte>, ip: nat, ghost data: seq<byte>, ghost pos: nat,
                         done: nat, length: nat, ghost abs0: seq<byte>, ghost base: nat) returns (next: nat)
      requires Lagging(outbuf, out0, op, inbuf, in0, ip, data, pos, done, lag, abs0, base) && done <= length == |data|
      modifies ctx`input, ctx`blocks, poly, poly.buffer, outbuf
      ensures Lagging(outbuf, out0, op, inbuf, in0, ip, data, pos, next, lag, abs0, base) && done <= next <= length
    {
      hide Lagging;
      var f := ctx.features;
      next := EncryptStage(f.avx2, 8, false, lag, outbuf, out0, op, inbuf, in0, ip, data, pos, done, length, abs0, base);
      next := EncryptStage(f.ssse3, 4, false, lag, outbuf, out0, op, inbuf, in0, ip, data, pos, next, length, abs0, base);
      next := EncryptStage(f.ssse3, 1, false, lag, outbuf, out0, op, inbuf, in0, ip, data, pos, next, length, abs0, base);
      next := EncryptStage(f.neon, 4, false, lag, outbuf, out0, op, inbuf, in0, ip, data, pos, next, length, abs0, base);
      next := EncryptStage(f.ppc, 4, true, lag, outbuf, out0, op, inbuf, in0, ip, data, pos, next, length, abs0, base);
      next := EncryptStage(f.s390x, 8, false, lag, outbuf, out0, op, inbuf, in0, ip, data, pos, next, length, abs0, base);
      next := EncryptStage(f.s390x, 1, false, lag, outbuf, out0, op, inbuf, in0, ip, data, pos, next, length, abs0, base);
    }

    /** The last lag octets go to Poly1305, whose pointer then meets the output pointer. */
    method CatchUp(lag: nat, outbuf: array<byte>, ghost out0: seq<byte>, op: nat,
                   inbuf: array<byte>, ghost in0: seq<byte>, ip: nat, ghost data: seq<byte>, ghost pos: nat,
                   done: nat, ghost abs0: seq<byte>, ghost base: nat)
      requires Lagging(outbuf, out0, op, inbuf, in0, ip, data, pos, done, lag, abs0, base) && lag % 64 == 0
      modifies poly, poly.buffer
      ensures Lagging(outbuf, out0, op, inbuf, in0, ip, data, pos, done, 0, abs0, base)
    {
      hide KeyStream, Xored, Ctx.Valid, P.Context.Valid;
      var authptr := op + done - lag;
      ghost var a := authptr;
      AbsorbWhole(poly, outbuf[authptr..authptr + lag], abs0, outbuf[base..authptr]);
      SliceMore(outbuf[..], base, a, a + lag);
      FromArray(outbuf, base, a, a + lag);
      authptr := authptr + lag;
      assert authptr == op + done;  // all that is written has been absorbed
    }

    /** One optional stitched stage of decryption: Poly1305 runs on the input. */
    method DecryptStage(use: bool, m: nat, ppc: bool, outbuf: array<byte>, ghost out0: seq<byte>, op: nat,
                        inbuf: array<byte>, ghost in0: seq<byte>, ip: nat, ghost data: seq<byte>, ghost pos: nat,
                        done: nat, length: nat, ghost abs0: seq<byte>) returns (next: nat)
      requires ctx.Valid() && ctx.unused == 0 && ctx.Position() == pos + done && Apart(outbuf, inbuf)
      requires poly.Valid() && poly.leftover == 0 && done <= length == |data| && m in {1, 4, 8} && (ppc ==> m == 4)
      requires Xored(outbuf, out0, op, inbuf, in0, ip, data, KeyStream(ctx.start, pos, done))
      requires poly.full == abs0 + data[..done]
      modifies ctx`input, ctx`blocks, poly, poly.buffer, outbuf
      ensures ctx.Valid() && ctx.Position() == pos + next && poly.Valid() && poly.leftover == 0 && done <= next <= length
      ensures Xored(outbuf, out0, op, inbuf, in0, ip, data, KeyStream(ctx.start, pos, next))
      ensures poly.full == abs0 + data[..next]
    {
      hide KeyStream, Xored, Ctx.Valid, P.Context.Valid;
      next := done;
      if use && length - done >= 64 * m {
        var nblocks := (length - done) / 64;
        nblocks := nblocks - nblocks % m;
        Stitch(ppc, m, false, outbuf, out0, op, inbuf, in0, ip, data, pos, done, nblocks, ip + done);
        next := done + 64 * nblocks;
        MoreAbsorbed(abs0, data, 0, done, next);
        assert data[0..done] == data[..done] && data[0..next] == data[..next];
      }
    }

    /** What the first batch of encryption is, before the stitched stages. */
    function FirstBatch(f: Features, length: nat): nat {
      if f.avx512 then 0
      else if f.avx2 && length >= 64 * 8 then 8
      else if f.ssse3 && length >= 64 * 4 then 4
      else if f.ssse3 && length >= 64 * 2 then 2
      else if f.ssse3 && length >= 64 then 1
      else if f.neon && length >= 64 * 4 then 4
      else if f.ppc && f.p10 then 0
      else if f.ppc && length >= 64 * 4 then 4
      else if f.s390x && length >= 2 * 64 * 8 then 8
      else if f.s390x && length >= 64 * 4 then 4
      else if f.s390x && length >= 64 * 2 then 2
      else if f.s390x && length >= 64 then 1
      else 0
    }

    /** The unused key stream of the last call, and its octets for Poly1305. */
    method EncryptLeftover(outbuf: array<byte>, ghost out0: seq<byte>, op: nat, inbuf: array<byte>, ghost in0: seq<byte>,
                           ip: nat, ghost data: seq<byte>, ghost pos: nat, n: nat)
      requires Valid() && Apart(outbuf, inbuf) && n <= ctx.unused && n <= |data| && ctx.Position() == pos
      requires Xored(outbuf, out0, op, inbuf, in0, ip, data, KeyStream(ctx.start, pos, 0))
      modifies ctx`unused, poly, poly.buffer, outbuf
      ensures Valid() && ctx.unused == old(ctx.unused) - n && ctx.Position() == pos + n
      ensures Xored(outbuf, out0, op, inbuf, in0, ip, data, KeyStream(ctx.start, pos, n))
      ensures op + n <= outbuf.Length && poly.Absorbed() == old(poly.Absorbed()) + outbuf[op..op + n]
    {
      hide KeyStream, Xored, Ctx.Valid, P.Context.Valid;
      ghost var abs := poly.Absorbed();
      poly.Absorbs();
      ctx.Leftover(outbuf, out0, op, inbuf, in0, ip, data, pos, n);
      XoredApart(outbuf, out0, op, inbuf, in0, ip, data, KeyStream(ctx.start, pos, n));
      poly.Update(outbuf[op..op + n]);
      poly.Absorbs();
      BufferFollows(|abs|, n, pos);
    }

    /** The stitched part of encryption: a first batch, the stages that follow it at that distance,
        and the octets Poly1305 still lacks.  Its input pointer then meets the output pointer. */
    method EncryptStitched(outbuf: array<byte>, ghost out0: seq<byte>, op: nat, inbuf: array<byte>, ghost in0: seq<byte>,
                           ip: nat, ghost data: seq<byte>, ghost pos: nat, done: nat, length: nat) returns (next: nat)
      requires ctx.Valid() && ctx.unused == 0 && ctx.Position() == pos + done && Apart(outbuf, inbuf)
      requires poly.Valid() && poly.leftover == 0 && done <= length == |data|
      requires Xored(outbuf, out0, op, inbuf, in0, ip, data, KeyStream(ctx.start, pos, done))
      modifies ctx`input, ctx`blocks, poly, poly.buffer, outbuf
      ensures ctx.Valid() && ctx.Position() == pos + next && poly.Valid() && poly.leftover == 0 && done <= next <= length
      ensures Xored(outbuf, out0, op, inbuf, in0, ip, data, KeyStream(ctx.start, pos, next))
      ensures op + next <= outbuf.Length && poly.full == old(poly.full) + outbuf[op + done..op + next]
    {
      hide KeyStream, Xored, Ctx.Valid, P.Context.Valid;
      XoredApart(outbuf, out0, op, inbuf, in0, ip, data, KeyStream(ctx.start, pos, done));
      next := done;
      var f := ctx.features;
      var k := FirstBatch(f, length - done);
      if k > 0 {
        ghost var abs0, base := poly.full, op + done;
        var lag := 64 * k;
        ctx.FrontBlocks(if f.ppc && k == 4 then FourLanes else Scalar, outbuf, out0, op, inbuf, in0, ip, data, pos, done, k);
        next := done + lag;
        assert outbuf[base..op + next - lag] == [];
        next := EncryptStages(lag, outbuf, out0, op, inbuf, in0, ip, data, pos, next, length, abs0, base);
        CatchUp(lag, outbuf, out0, op, inbuf, in0, ip, data, pos, next, abs0, base);
      }
    }

    /** The loop for what the stitched functions leave: 24 KiB chunks while more than 32 KiB remain,
        Poly1305 after encryption or before decryption. */
    method Tail(encrypt: bool, outbuf: array<byte>, ghost out0: seq<byte>, op: nat, inbuf: array<byte>, ghost in0: seq<byte>,
                ip: nat, ghost data: seq<byte>, ghost pos: nat, start: nat, length: nat)
      requires Valid() && ctx.Position() == pos + start && Apart(outbuf, inbuf) && start <= length == |data|
      requires start < length ==> ctx.unused == 0
      requires Xored(outbuf, out0, op, inbuf, in0, ip, data, KeyStream(ctx.start, pos, start))
      modifies ctx`input, ctx`blocks, ctx`unused, ctx.pad, poly, poly.buffer, outbuf
      ensures Valid() && ctx.Position() == pos + length
      ensures Xored(outbuf, out0, op, inbuf, in0, ip, data, KeyStream(ctx.start, pos, length))
      ensures op + length <= outbuf.Length
      ensures poly.Absorbed() == old(poly.Absorbed()) + if encrypt then outbuf[op + start..op + length] else data[start..]
    {
      hide KeyStream, Xored, Ctx.Valid, P.Context.Valid;
      ghost var abs0 := poly.Absorbed();
      var done := start;
      XoredApart(outbuf, out0, op, inbuf, in0, ip, data, KeyStream(ctx.start, pos, start));
      while done < length
        invariant start <= done <= length && (done < length ==> ctx.unused == 0)
        invariant Valid() && ctx.Position() == pos + done
        invariant Xored(outbuf, out0, op, inbuf, in0, ip, data, KeyStream(ctx.start, pos, done))
        invariant poly.Absorbed() == abs0 + if encrypt then outbuf[op + start..op + done] else data[start..done]
      {
        var currlen := length - done;
        if currlen > 32 * 1024 {
          currlen := 24 * 1024;
        }
        TailChunk(encrypt, outbuf, out0, op, inbuf, in0, ip, data, pos, start, done, currlen, abs0);
        done := done + currlen;
      }
      assert data[start..] == data[start..length];
    }

    method TailChunk(encrypt: bool, outbuf: array<byte>, ghost out0: seq<byte>, op: nat, inbuf: array<byte>, ghost in0: seq<byte>,
                     ip: nat, ghost data: seq<byte>, ghost pos: nat, start: nat, done: nat, n: nat, ghost abs0: seq<byte>)
      requires Valid() && ctx.unused == 0 && ctx.Position() == pos + done && Apart(outbuf, inbuf)
      requires start <= done && done + n <= |data| && op + |data| <= outbuf.Length
      requires Xored(outbuf, out0, op, inbuf, in0, ip, data, KeyStream(ctx.start, pos, done))
      requires poly.Absorbed() == abs0 + if encrypt then outbuf[op + start..op + done] else data[start..done]
      modifies ctx`input, ctx`blocks, ctx`unused, ctx.pad, poly, poly.buffer, outbuf
      ensures Valid() && ctx.Position() == pos + done + n && (n % 64 == 0 ==> ctx.unused == 0)
      ensures Xored(outbuf, out0, op, inbuf, in0, ip, data, KeyStream(ctx.start, pos, done + n))
      ensures poly.Absorbed() == abs0 + if encrypt then outbuf[op + start..op + done + n] else data[start..done + n]
    {
      hide KeyStream, Xored, Ctx.Valid, P.Context.Valid;
      XoredApart(outbuf, out0, op, inbuf, in0, ip, data, KeyStream(ctx.start, pos, done));
      poly.Absorbs();
      if encrypt {
        ghost var before := outbuf[..];
        StreamPart(outbuf, out0, op, inbuf, in0, ip, data, pos, done, n);
        assert outbuf[op + start..op + done] == before[op + start..op + done];
        poly.Update(outbuf[op + done..op + done + n]);
        FromArray(outbuf, op + start, op + done, op + done + n);
        MoreAbsorbed(abs0, outbuf[..], op + start, op + done, op + done + n);
      } else {
        XoredRead(outbuf, out0, op, inbuf, in0, ip, data, KeyStream(ctx.start, pos, done), n);
        poly.Update(inbuf[ip + done..ip + done + n]);
        MoreAbsorbed(abs0, data, start, done, done + n);
        StreamPart(outbuf, out0, op, inbuf, in0, ip, data, pos, done, n);
      }
      poly.Absorbs();
      BufferFollows(|old(poly.Absorbed())|, n, pos + done);
    }

    /** A chunk of the call through the block functions and the pad. */
    method StreamPart(outbuf: array<byte>, ghost out0: seq<byte>, op: nat, inbuf: array<byte>, ghost in0: seq<byte>,
                      ip: nat, ghost data: seq<byte>, ghost pos: nat, done: nat, n: nat)
      requires ctx.Valid() && ctx.unused == 0 && ctx.Position() == pos + done && Apart(outbuf, inbuf) && done + n <= |data|
      requires Xored(outbuf, out0, op, inbuf, in0, ip, data, KeyStream(ctx.start, pos, done))
      modifies ctx`input, ctx`blocks, ctx`unused, ctx.pad, outbuf
      ensures ctx.Valid() && ctx.Position() == pos + done + n && (n % 64 == 0 ==> ctx.unused == 0)
      ensures Xored(outbuf, out0, op, inbuf, in0, ip, data, KeyStream(ctx.start, pos, done + n))
      ensures op + done <= outbuf.Length && outbuf[..op + done] == old(outbuf[..op + done])
    {
      hide KeyStream, Crypt, Xor, Splice, Front, Ctx.Valid;
      ghost var st, x := KeyStream(ctx.start, pos, done), data[done..done + n];
      XoredRead(outbuf, out0, op, inbuf, in0, ip, data, st, n);
      XoredApart(outbuf, out0, op, inbuf, in0, ip, data, st);
      ghost var before, srcBefore := outbuf[..], inbuf[..];
      ctx.StreamTail(outbuf, op + done, inbuf, ip + done, n, x);
      KeyStreamConcat(ctx.start, pos, done, n);
      CryptIs(ctx.start, pos + done, x);
      FrontMore(before, srcBefore, outbuf == inbuf, out0, op, in0, ip, data, st, KeyStream(ctx.start, pos + done, n),
                Crypt(ctx.start, pos + done, x), outbuf[..]);
      assert outbuf[..op + done] == outbuf[..][..op + done] && before[..op + done] == old(outbuf[..op + done]);
    }

    /** _gcry_chacha20_poly1305_encrypt: whatever stitched functions run, the output is the ciphertext
        and Poly1305 has absorbed it, each octet once and in order. */
    method Encrypt(outbuf: array<byte>, op: nat, inbuf: array<byte>, ip: nat, length: nat, ghost data: seq<byte>)
      requires Tracked() && Apart(outbuf, inbuf) && Separate(outbuf, op, inbuf, ip)
      requires op + length <= outbuf.Length && ip + length <= inbuf.Length && data == inbuf[ip..ip + length]
      modifies this`log, ctx`input, ctx`blocks, ctx`unused, ctx.pad, poly, poly.buffer, outbuf
      ensures Tracked() && ctx.Position() == old(ctx.Position()) + length
      ensures outbuf[..] == Splice(old(outbuf[..]), op, Crypt(ctx.start, old(ctx.Position()), data))
      ensures poly.Absorbed() == old(poly.Absorbed()) + Crypt(ctx.start, old(ctx.Position()), data)
      ensures log == After(old(log), data, Crypt(ctx.start, old(ctx.Position()), data))
    {
      hide Crypt, Splice, P.Context.Valid, Ctx.Valid;
      ghost var log0 := log;
      EncryptData(outbuf, op, inbuf, ip, length, data);
      MoreLogged(ctx.start, log0, data);
      log := After(log0, data, Crypt(ctx.start, log0.pos0 + |log0.msg|, data));
    }

    method EncryptData(outbuf: array<byte>, op: nat, inbuf: array<byte>, ip: nat, length: nat, ghost data: seq<byte>)
      requires Valid() && Apart(outbuf, inbuf) && Separate(outbuf, op, inbuf, ip)
      requires op + length <= outbuf.Length && ip + length <= inbuf.Length && data == inbuf[ip..ip + length]
      modifies ctx`input, ctx`blocks, ctx`unused, ctx.pad, poly, poly.buffer, outbuf
      ensures Valid() && ctx.Position() == old(ctx.Position()) + length
      ensures outbuf[..] == Splice(old(outbuf[..]), op, Crypt(ctx.start, old(ctx.Position()), data))
      ensures poly.Absorbed() == old(poly.Absorbed()) + Crypt(ctx.start, old(ctx.Position()), data)
    {
      hide KeyStream, Xored, Ctx.Valid, P.Context.Valid, Crypt, Splice;
      ghost var out0, in0, pos, abs0 := outbuf[..], inbuf[..], ctx.Position(), poly.Absorbed();
      ghost var c := Crypt(ctx.start, pos, data);
      if length == 0 {
        CryptNothing(ctx.start, pos);
        SpliceNothing(out0, op);
        return;
      }
      XoredNothing(outbuf, op, inbuf, ip, length);
      assert KeyStream(ctx.start, pos, 0) == [];
      var done := 0;
      if ctx.unused > 0 {
        done := if ctx.unused > length then length else ctx.unused;
        EncryptLeftover(outbuf, out0, op, inbuf, in0, ip, data, pos, done);
      }
      Written(outbuf, out0, op, inbuf, in0, ip, data, ctx.start, pos, 0, done);
      assert poly.Absorbed() == abs0 + c[0..done] by { assert abs0 + c[0..0] == abs0; }
      if done == length {
        assert c[0..length] == c;
      } else {
        assert ctx.unused == 0;
        assert poly.leftover == 0;  // Poly1305 is at the start of a block
        EncryptRest(outbuf, out0, op, inbuf, in0, ip, data, pos, done, length, abs0);
      }
      XoredAll(outbuf, out0, op, inbuf, in0, ip, data, KeyStream(ctx.start, pos, length));
      CryptIs(ctx.start, pos, data);
    }

    /** The block-aligned rest of an encryption: the stitched functions, then the chunks. */
    method EncryptRest(outbuf: array<byte>, ghost out0: seq<byte>, op: nat, inbuf: array<byte>, ghost in0: seq<byte>,
                       ip: nat, ghost data: seq<byte>, ghost pos: nat, done: nat, length: nat, ghost abs0: seq<byte>)
      requires Valid() && ctx.unused == 0 && poly.leftover == 0 && ctx.Position() == pos + done && Apart(outbuf, inbuf)
      requires done <= length == |data| && poly.Absorbed() == abs0 + Crypt(ctx.start, pos, data)[0..done]
      requires Xored(outbuf, out0, op, inbuf, in0, ip, data, KeyStream(ctx.start, pos, done))
      modifies ctx`input, ctx`blocks, ctx`unused, ctx.pad, poly, poly.buffer, outbuf
      ensures Valid() && ctx.Position() == pos + length
      ensures Xored(outbuf, out0, op, inbuf, in0, ip, data, KeyStream(ctx.start, pos, length))
      ensures poly.Absorbed() == abs0 + Crypt(ctx.start, pos, data)
    {
      hide KeyStream, Xored, Ctx.Valid, P.Context.Valid, Crypt;
      ghost var c := Crypt(ctx.start, pos, data);
      poly.Absorbs();
      var next := EncryptStitched(outbuf, out0, op, inbuf, in0, ip, data, pos, done, length);
      Written(outbuf, out0, op, inbuf, in0, ip, data, ctx.start, pos, done, next);
      poly.Absorbs();
      Tail(true, outbuf, out0, op, inbuf, in0, ip, data, pos, next, length);
      Written(outbuf, out0, op, inbuf, in0, ip, data, ctx.start, pos, next, length);
      MoreAbsorbed(abs0, c, 0, done, next);
      MoreAbsorbed(abs0, c, 0, next, length);
      assert c[0..length] == c;
    }

    /** _gcry_chacha20_poly1305_decrypt: Poly1305 absorbs the input, in place or not. */
    method Decrypt(outbuf: array<byte>, op: nat, inbuf: array<byte>, ip: nat, length: nat, ghost data: seq<byte>)
      requires Tracked() && Apart(outbuf, inbuf) && Separate(outbuf, op, inbuf, ip)
      requires op + length <= outbuf.Length && ip + length <= inbuf.Length && data == inbuf[ip..ip + length]
      modifies this`log, ctx`input, ctx`blocks, ctx`unused, ctx.pad, poly, poly.buffer, outbuf
      ensures Tracked() && ctx.Position() == old(ctx.Position()) + length
      ensures outbuf[..] == Splice(old(outbuf[..]), op, Crypt(ctx.start, old(ctx.Position()), data))
      ensures poly.Absorbed() == old(poly.Absorbed()) + data
      ensures log == After(old(log), Crypt(ctx.start, old(ctx.Position()), data), data)
    {
      hide Crypt, Splice, P.Context.Valid, Ctx.Valid;
      ghost var log0 := log;
      DecryptData(outbuf, op, inbuf, ip, length, data);
      ghost var p := Crypt(ctx.start, log0.pos0 + |log0.msg|, data);
      CryptTwice(ctx.start, log0.pos0 + |log0.msg|, data);
      MoreLogged(ctx.start, log0, p);
      log := After(log0, p, data);
    }

    method DecryptData(outbuf: array<byte>, op: nat, inbuf: array<byte>, ip: nat, length: nat, ghost data: seq<byte>)
      requires Valid() && Apart(outbuf, inbuf) && Separate(outbuf, op, inbuf, ip)
      requires op + length <= outbuf.Length && ip + length <= inbuf.Length && data == inbuf[ip..ip + length]
      modifies ctx`input, ctx`blocks, ctx`unused, ctx.pad, poly, poly.buffer, outbuf
      ensures Valid() && ctx.Position() == old(ctx.Position()) + length
      ensures outbuf[..] == Splice(old(outbuf[..]), op, Crypt(ctx.start, old(ctx.Position()), data))
      ensures poly.Absorbed() == old(poly.Absorbed()) + data
    {
      hide KeyStream, Xored, Ctx.Valid, P.Context.Valid, Crypt, Splice;
      ghost var out0, in0, pos, abs0 := outbuf[..], inbuf[..], ctx.Position(), poly.Absorbed();
      if length == 0 {
        CryptNothing(ctx.start, pos);
        SpliceNothing(out0, op);
        return;
      }
      XoredNothing(outbuf, op, inbuf, ip, length);
      assert KeyStream(ctx.start, pos, 0) == [];
      var done := 0;
      if ctx.unused > 0 {
        done := if ctx.unused > length then length else ctx.unused;
        DecryptLeftover(outbuf, out0, op, inbuf, in0, ip, data, pos, done);
      }
      assert poly.Absorbed() == abs0 + data[0..done] by { assert abs0 + data[0..0] == abs0; }
      if done == length {
        assert data[0..length] == data;
      } else {
        assert ctx.unused == 0;
        assert poly.leftover == 0;  // Poly1305 is at the start of a block
        DecryptRest(outbuf, out0, op, inbuf, in0, ip, data, pos, done, length, abs0);
      }
      XoredAll(outbuf, out0, op, inbuf, in0, ip, data, KeyStream(ctx.start, pos, length));
      CryptIs(ctx.start, pos, data);
    }

    /** The block-aligned rest of a decryption: the stitched functions, then the chunks. */
    method DecryptRest(outbuf: array<byte>, ghost out0: seq<byte>, op: nat, inbuf: array<byte>, ghost in0: seq<byte>,
                       ip: nat, ghost data: seq<byte>, ghost pos: nat, done: nat, length: nat, ghost abs0: seq<byte>)
      requires Valid() && ctx.unused == 0 && poly.leftover == 0 && ctx.Position() == pos + done && Apart(outbuf, inbuf)
      requires done <= length == |data| && poly.Absorbed() == abs0 + data[0..done]
      requires Xored(outbuf, out0, op, inbuf, in0, ip, data, KeyStream(ctx.start, pos, done))
      modifies ctx`input, ctx`blocks, ctx`unused, ctx.pad, poly, poly.buffer, outbuf
      ensures Valid() && ctx.Position() == pos + length
      ensures Xored(outbuf, out0, op, inbuf, in0, ip, data, KeyStream(ctx.start, pos, length))
      ensures poly.Absorbed() == abs0 + data
    {
      hide KeyStream, Xored, Ctx.Valid, P.Context.Valid, Crypt;
      poly.Absorbs();
      var next := DecryptStages(outbuf, out0, op, inbuf, in0, ip, data, pos, done, length, abs0);
      poly.Absorbs();
      Tail(false, outbuf, out0, op, inbuf, in0, ip, data, pos, next, length);
      assert data[next..] == data[next..length];
      MoreAbsorbed(abs0, data, 0, next, length);
      assert data[0..length] == data;
    }

    /** The unused key stream of the last call, after its octets went to Poly1305. */
    method DecryptLeftover(outbuf: array<byte>, ghost out0: seq<byte>, op: nat, inbuf: array<byte>, ghost in0: seq<byte>,
                           ip: nat, ghost data: seq<byte>, ghost pos: nat, n: nat)
      requires Valid() && Apart(outbuf, inbuf) && n <= ctx.unused && n <= |data| && ctx.Position() == pos
      requires Xored(outbuf, out0, op, inbuf, in0, ip, data, KeyStream(ctx.start, pos, 0))
      modifies ctx`unused, poly, poly.buffer, outbuf
      ensures Valid() && ctx.unused == old(ctx.unused) - n && ctx.Position() == pos + n
      ensures Xored(outbuf, out0, op, inbuf, in0, ip, data, KeyStream(ctx.start, pos, n))
      ensures poly.Absorbed() == old(poly.Absorbed()) + data[0..n]
    {
      hide KeyStream, Xored, Ctx.Valid, P.Context.Valid;
      ghost var abs := poly.Absorbed();
      poly.Absorbs();
      XoredApart(outbuf, out0, op, inbuf, in0, ip, data, KeyStream(ctx.start, pos, 0));
      XoredRead(outbuf, out0, op, inbuf, in0, ip, data, KeyStream(ctx.start, pos, 0), n);
      poly.Update(inbuf[ip..ip + n]);
      ctx.Leftover(outbuf, out0, op, inbuf, in0, ip, data, pos, n);
      poly.Absorbs();
      BufferFollows(|abs|, n, pos);
    }

    /** What the tag is made from: zeros up to a whole block of ciphertext, and the two lengths. */
    ghost function Final(lengths: seq<byte>): seq<byte>
      requires Tracked()
      reads this, ctx, ctx.pad, poly, poly.buffer
    {
      P.Tag(poly.R(), P.Limbs(0, poly.k1, poly.k0),
            log.base + log.sealed + ZeroBytes((16 - |log.sealed| % 16) % 16) + lengths)
    }

    /** The tag, as _gcry_cipher_poly1305_tag makes it from the low word of the data counter and the
        encoded counters. */
    method GetTag(datacount: nat, lengths: seq<byte>) returns (mac: seq<byte>)
      requires Tracked() && |lengths| == 16 && datacount == |log.sealed| % 0x1_0000_0000
      modifies poly, poly.buffer
      ensures mac == old(Final(lengths))
    {
      hide Crypt, P.Context.Valid, Ctx.Valid, P.Tag, P.Limbs;
      LowWord(|log.sealed|);
      if datacount % 16 > 0 {
        poly.Update(ZeroBytes(16 - datacount % 16));
      } else {
        assert poly.Absorbed() + ZeroBytes(0) == poly.Absorbed();
      }
      poly.Update(lengths);
      mac := poly.Finish();
    }

    /** All stitched stages of decryption. */
    method DecryptStages(outbuf: array<byte>, ghost out0: seq<byte>, op: nat, inbuf: array<byte>, ghost in0: seq<byte>,
                         ip: nat, ghost data: seq<byte>, ghost pos: nat, done: nat, length: nat, ghost abs0: seq<byte>)
      returns (next: nat)
      requires ctx.Valid() && ctx.unused == 0 && ctx.Position() == pos + done && Apart(outbuf, inbuf)
      requires poly.Valid() && poly.leftover == 0 && done <= length == |data|
      requires Xored(outbuf, out0, op, inbuf, in0, ip, data, KeyStream(ctx.start, pos, done))
      requires poly.full == abs0 + data[0..done]
      modifies ctx`input, ctx`blocks, poly, poly.buffer, outbuf
      ensures ctx.Valid() && ctx.Position() == pos + next && poly.Valid() && poly.leftover == 0 && done <= next <= length
      ensures Xored(outbuf, out0, op, inbuf, in0, ip, data, KeyStream(ctx.start, pos, next))
      ensures poly.full == abs0 + data[0..next]
    {
      hide KeyStream, Xored, Ctx.Valid, P.Context.Valid;
      var f := ctx.features;
      var skip := f.avx512 || (f.ppc && f.p10);
      assert data[0..done] == data[..done];
      next := DecryptStage(!skip && f.avx2, 8, false, outbuf, out0, op, inbuf, in0, ip, data, pos, done, length, abs0);
      next := DecryptStage(!skip && f.ssse3, 4, false, outbuf, out0, op, inbuf, in0, ip, data, pos, next, length, abs0);
      next := DecryptStage(!skip && f.ssse3, 1, false, outbuf, out0, op, inbuf, in0, ip, data, pos, next, length, abs0);
      next := DecryptStage(!skip && f.neon, 4, false, outbuf, out0, op, inbuf, in0, ip, data, pos, next, length, abs0);
      next := DecryptStage(!skip && f.ppc, 4, true, outbuf, out0, op, inbuf, in0, ip, data, pos, next, length, abs0);
      next := DecryptStage(!skip && f.s390x, 8, false, outbuf, out0, op, inbuf, in0, ip, data, pos, next, length, abs0);
      next := DecryptStage(!skip && f.s390x, 1, false, outbuf, out0, op, inbuf, in0, ip, data, pos, next, length, abs0);
      assert data[0..next] == data[..next];
    }
  }

  lemma WholeBatches(x: nat, m: nat)
    requires m in {1, 4, 8} && x >= 64 * m
    ensures var n := x / 64 - x / 64 % m;
            n > 0 && n % m == 0 && 64 * n <= x
  {
  }

  /** What has been written of a call is the front of its ciphertext. */
  lemma Written(outbuf: array<byte>, out0: seq<byte>, op: nat, inbuf: array<byte>, in0: seq<byte>, ip: nat,
                data: seq<byte>, start: State, pos: nat, i: nat, j: nat)
    requires i <= j && Xored(outbuf, out0, op, inbuf, in0, ip, data, KeyStream(start, pos, j))
    ensures op + j <= outbuf.Length && j <= |data| && outbuf[op + i..op + j] == Crypt(start, pos, data)[i..j]
  {
    hide KeyStream, Xor, Splice;
    ghost var st := KeyStream(start, pos, j);
    ghost var x := Xor(data[..j], st);
    SpliceSlices(out0, op, x);
    assert outbuf[op + i..op + j] == outbuf[..][op..op + j][i..j];
    KeyStreamConcat(start, pos, j, |data| - j);
    XorConcat(data[..j], data[j..], st, KeyStream(start, pos + j, |data| - j));
    assert data == data[..j] + data[j..];
    CryptIs(start, pos, data);
  }

  lemma FromArray(a: array<byte>, i: nat, j: nat, k: nat)
    requires i <= j <= k <= a.Length
    ensures a[i..j] == a[..][i..j] && a[j..k] == a[..][j..k] && a[i..k] == a[..][i..k]
  {
  }

  lemma MoreAbsorbed(a: seq<byte>, s: seq<byte>, i: nat, j: nat, k: nat)
    requires i <= j <= k <= |s|
    ensures a + s[i..j] + s[j..k] == a + s[i..k]
  {
    SliceMore(s, i, j, k);
    ConcatAssociates(a, s[i..j], s[j..k]);
  }

  /** What a block function did, in terms of the stream. */
  lemma StageDone(start: State, input: State, blocks: nat, pos: nat, done: nat, nblocks: nat, next: State,
                  data: seq<byte>, out: seq<byte>)
    requires input == Counter(blocks, start) && 64 * blocks == pos + done && Done(input, next, nblocks, data, out)
    ensures next == Counter(nblocks, input) && KeyStream(start, pos, done + 64 * nblocks)
         == KeyStream(start, pos, done) + KeyStream(start, pos + done, 64 * nblocks)
    ensures out == Xor(data, KeyStream(start, pos + done, 64 * nblocks))
  {
    hide Xor, KeyStream, Counter, Stream;
    StreamIsKeyStream(start, blocks, nblocks);
    KeyStreamConcat(start, pos, done, 64 * nblocks);
  }

  lemma BufferFollows(x: nat, n: nat, pos: nat)
    requires x % 16 == pos % 16
    ensures (x + n) % 16 == (pos + n) % 16
  {
  }

  lemma LowWord(n: nat)
    ensures n % 0x1_0000_0000 % 16 == n % 16
  {
  }

  /** What is hashed for the tag: the ciphertext with the fewest zeros up to a whole block, then the
      lengths. */
  lemma FinalPads(a: Aead, lengths: seq<byte>)
    requires a.Tracked()
    ensures a.Final(lengths)
         == P.Tag(a.poly.R(), P.Limbs(0, a.poly.k1, a.poly.k0), a.log.base + M.PadZero(a.log.sealed) + lengths)
  {
    hide P.Tag, Crypt, P.Context.Valid, Ctx.Valid;
    assert a.log.base + a.log.sealed + ZeroBytes((16 - |a.log.sealed| % 16) % 16) == a.log.base + M.PadZero(a.log.sealed);
  }

  // ---- a message in any number of calls ----

  /** The log after one more call. */
  ghost function After(log: Log, p: seq<byte>, c: seq<byte>): Log {
    log.(msg := log.msg + p, sealed := log.sealed + c)
  }

  lemma MoreLogged(start: State, log: Log, p: seq<byte>)
    requires log.sealed == Crypt(start, log.pos0, log.msg)
    ensures var c := Crypt(start, log.pos0 + |log.msg|, p);
              && log.sealed + c == Crypt(start, log.pos0, log.msg + p)
              && log.base + log.sealed + c == log.base + (log.sealed + c)
  {
    hide Crypt;
    CryptConcat(start, log.pos0, log.msg, p);
    ConcatAssociates(log.base, log.sealed, Crypt(start, log.pos0 + |log.msg|, p));
  }

  /** Two handles on the same stream that hold the same ciphertext hold the same message, whichever
      way each obtained it, in whatever calls and on whatever processor; with the same Poly1305 key and
      associated data they give the same tag. */
  lemma OpenUndoesSeal(e: Aead, d: Aead)
    requires e.Tracked() && d.Tracked() && e.ctx.start == d.ctx.start
    requires e.log.pos0 == d.log.pos0 && e.log.sealed == d.log.sealed
    ensures e.log.msg == d.log.msg
    ensures e.log.base == d.log.base && e.poly.r0 == d.poly.r0 && e.poly.r1 == d.poly.r1
            && e.poly.k0 == d.poly.k0 && e.poly.k1 == d.poly.k1 ==>
      forall lengths :: e.Final(lengths) == d.Final(lengths)
  {
    hide Crypt, P.Context.Valid, Ctx.Valid, P.Tag, P.Limbs;
    CryptTwice(e.ctx.start, e.log.pos0, e.log.msg);
    CryptTwice(d.ctx.start, d.log.pos0, d.log.msg);
  }
}
