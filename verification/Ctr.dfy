/** cipher-ctr.c: counter mode with the unused key stream of a short last block kept for the next
    call.  What comes out depends only on the position in the stream. */
module Ctr {
  import opened Bytes
  import opened CipherBlock
  import opened Counter

  datatype Status = Ok | BufferTooShort

  /** The handle's fields for this mode. */
  class State {
    const cipher: Cipher
    var ctr: seq<byte>
    var lastiv: seq<byte>
    var unused: nat
    ghost var ctr0: seq<byte>  // the counter at position 0
    ghost var blocks: nat      // blocks of key stream made so far

    ghost predicate Valid()
      reads this
      ensures Valid() ==> cipher.Valid() && unused < cipher.bs && (unused > 0 ==> blocks > 0) && |ctr0| == cipher.bs
    {
      && cipher.Valid() && cipher.bs in {8, 16} && |ctr0| == |lastiv| == cipher.bs
      && unused < cipher.bs && (unused > 0 ==> blocks > 0)
      && ctr == AddBE(ctr0, blocks)
      && lastiv[cipher.bs - unused..] == KeyStream(cipher, ctr0, Position(), unused)
    }

    /** Octets processed so far. */
    ghost function Position(): nat
      reads this
      requires cipher.Valid() && unused < cipher.bs && (unused > 0 ==> blocks > 0)
    {
      PositionIsNat(cipher.bs, blocks, unused);
      cipher.bs * blocks - unused
    }

    constructor (cipher: Cipher, ctr0: seq<byte>)
      requires cipher.Valid() && cipher.bs in {8, 16} && |ctr0| == cipher.bs
      ensures Valid() && Loose() && Position() == 0 && unused == 0 && this.cipher == cipher && this.ctr0 == ctr0
    {
      this.cipher, this.ctr0, ctr, lastiv, unused, blocks := cipher, ctr0, ctr0, ZeroBytes(cipher.bs), 0, 0;
      AddZero(ctr0);
      new;
      hide AddBE, KeyByte;
    }

    /** The fields as the code keeps them; what the unused octets are is left open. */
    ghost predicate Loose()
      reads this
      ensures Valid() ==> Loose()
    {
      && cipher.Valid() && cipher.bs in {8, 16} && |ctr0| == |lastiv| == cipher.bs
      && unused < cipher.bs && ctr == AddBE(ctr0, blocks)
    }

    /** The octets saved in lastiv for the next call. */
    ghost function Saved(): (s: seq<byte>)
      requires Loose()
      reads this
      ensures |s| == unused
    {
      lastiv[cipher.bs - unused..]
    }

    /** The saved octets are used first. */
    method UseLeftover(outbuf: array<byte>, op: nat, inbuf: array<byte>, ip: nat, n: nat)
      requires Loose() && n <= unused && op + n <= outbuf.Length && ip + n <= inbuf.Length
      modifies this`unused, outbuf
      ensures Loose() && unused == old(unused) - n && Saved() == old(Saved())[n..]
      ensures outbuf[..] == Splice(old(outbuf[..]), op, Xor(old(inbuf[ip..ip + n]), old(Saved())[..n]))
    {
      hide AddBE, Splice, Xor;
      var i := cipher.bs - unused;
      assert lastiv[i..i + n] == lastiv[i..][..n];
      assert lastiv[i + n..] == lastiv[i..][n..];
      Put(outbuf, op, Xor(inbuf[ip..ip + n], lastiv[i..i + n]));
      unused := unused - n;
    }

    method FreshBlock() returns (tmp: seq<byte>)
      requires cipher.Valid() && cipher.bs in {8, 16} && |ctr0| == cipher.bs && ctr == AddBE(ctr0, blocks)
      modifies this`ctr, this`blocks
      ensures ctr == AddBE(ctr0, blocks) && blocks == old(blocks) + 1
      ensures cipher.bs * blocks == cipher.bs * old(blocks) + cipher.bs
      ensures tmp == KeyStream(cipher, ctr0, cipher.bs * old(blocks), cipher.bs)
    {
      hide KeyByte, KeyStream, AddBE, BlockAdd;
      tmp := cipher.enc(ctr);
      BlockAddIs(ctr, 1);
      AddAdd(ctr0, blocks, 1);
      StreamBlock(cipher, ctr0, blocks);
      Distribute(cipher.bs, blocks, 1);
      ctr := BlockAdd(ctr, 1);
      blocks := blocks + 1;
    }

    /** Saves the unused octets of the last block of key stream. */
    method KeepRest(tmp: seq<byte>, n: nat, ghost pos: nat)
      requires cipher.Valid() && cipher.bs in {8, 16} && |ctr0| == |lastiv| == |tmp| == cipher.bs
      requires 0 < n <= cipher.bs && ctr == AddBE(ctr0, blocks) && cipher.bs * blocks + n == pos + cipher.bs
      requires n < cipher.bs ==> blocks > 0 && tmp[n..] == KeyStream(cipher, ctr0, pos, cipher.bs - n)
      modifies this`lastiv, this`unused
      ensures Valid() && Position() == pos
    {
      hide KeyByte, KeyStream, AddBE;
      unused := cipher.bs - n;
      if unused > 0 {
        lastiv := lastiv[..n] + tmp[n..];
        assert lastiv[n..] == tmp[n..];
      } else {
        assert lastiv[cipher.bs..] == [];
      }
    }

    /** Fresh key stream, block by block; what is not used of the last block is kept. */
    method NewBlocks(outbuf: array<byte>, op: nat, inbuf: array<byte>, ip: nat, len: nat)
      requires Valid() && unused == 0 && len > 0 && op + len <= outbuf.Length && ip + len <= inbuf.Length
      requires Separate(outbuf, op, inbuf, ip)
      modifies this`ctr, this`lastiv, this`unused, this`blocks, outbuf
      ensures Valid() && Position() == old(Position()) + len
      ensures outbuf[..] == Splice(old(outbuf[..]), op, CtrCrypt(cipher, ctr0, old(Position()), old(inbuf[ip..ip + len])))
    {
      hide KeyByte, KeyStream, AddBE, Splice, CtrCrypt, Xor, BlockAdd;
      ghost var in0, out0, pos := inbuf[..], outbuf[..], Position();
      ghost var data := in0[ip..ip + len];
      assert data == inbuf[ip..ip + len];
      var bs := cipher.bs;
      var n, done, left := bs, 0, len;
      var tmp := ctr;
      assert data[..0] == [];
      NoData(cipher, ctr0, pos);
      SpliceNothing(out0, op);
      while left > 0
        invariant 0 <= left && 0 <= done && done + left == len && bs * blocks == pos + done
        invariant ctr == AddBE(ctr0, blocks) && n == bs == cipher.bs == |tmp| && |lastiv| == bs && cipher.bs in {8, 16}
        invariant outbuf[..] == Splice(out0, op, CtrCrypt(cipher, ctr0, pos, data[..done]))
        invariant inbuf != outbuf ==> inbuf[..] == in0
      {
        tmp := FreshBlock();
        if left < bs {
          break;
        }
        OneBlock(outbuf, op, done, inbuf, ip, bs, tmp, out0, in0, data, pos);
        left := left - n;
        done := done + n;
      }
      if left > 0 {
        n := left;
        OneBlock(outbuf, op, done, inbuf, ip, n, tmp, out0, in0, data, pos);
        StreamSlice(cipher, ctr0, pos + done, bs, n, bs);
        assert tmp[n..] == tmp[n..bs];
      }
      KeepRest(tmp, n, pos + len);
      assert data[..len] == data;
    }

    /** n octets of input xored with the start of a block of key stream. */
    method OneBlock(outbuf: array<byte>, op: nat, done: nat, inbuf: array<byte>, ip: nat, n: nat, tmp: seq<byte>,
                    ghost out0: seq<byte>, ghost in0: seq<byte>, ghost data: seq<byte>, ghost pos: nat)
      requires cipher.Valid() && |ctr0| == cipher.bs && n <= cipher.bs && tmp == KeyStream(cipher, ctr0, pos + done, cipher.bs)
      requires |in0| == inbuf.Length && ip + |data| <= |in0| && data == in0[ip..ip + |data|] && done + n <= |data|
      requires |out0| == outbuf.Length && op + |data| <= |out0| && Separate(outbuf, op, inbuf, ip)
      requires outbuf == inbuf ==> in0 == out0
      requires outbuf[..] == Splice(out0, op, CtrCrypt(cipher, ctr0, pos, data[..done]))
      requires outbuf != inbuf ==> inbuf[..] == in0
      modifies outbuf
      ensures outbuf[..] == Splice(out0, op, CtrCrypt(cipher, ctr0, pos, data[..done + n]))
    {
      hide KeyByte, KeyStream, AddBE, Splice, Xor;
      ghost var before, block := data[..done], data[done..done + n];
      ReadAhead(outbuf, out0, op, CtrCrypt(cipher, ctr0, pos, before), inbuf, in0, ip + done, n);
      SliceOfSlice(in0, ip, ip + |data|, done, done + n);
      StreamSlice(cipher, ctr0, pos + done, cipher.bs, 0, n);
      assert data[..done + n] == before + block;
      CtrConcat(cipher, ctr0, pos, before, block);
      SpliceMore(out0, op, CtrCrypt(cipher, ctr0, pos, before), CtrCrypt(cipher, ctr0, pos + done, block));
      Put(outbuf, op + done, Xor(inbuf[ip + done..ip + done + n], tmp[..n]));
    }

    /** What a call puts out: saved octets first, then fresh blocks of key stream. */
    ghost function Out(data: seq<byte>): (r: seq<byte>)
      requires Loose()
      reads this
      ensures |r| == |data|
    {
      var n := if unused > |data| then |data| else unused;
      Xor(data[..n], Saved()[..n]) + CtrCrypt(cipher, ctr0, cipher.bs * blocks, data[n..])
    }

    /** A state with no saved octets is at the start of a block. */
    lemma NothingSaved()
      requires Loose() && unused == 0
      ensures Valid() && Position() == cipher.bs * blocks
    {
      hide AddBE, KeyByte;
      assert lastiv[cipher.bs..] == [];
    }

    /** The code, whatever the saved octets are. */
    method EncryptAny(outbuf: array<byte>, op: nat, outbuflen: nat, inbuf: array<byte>, ip: nat, inbuflen: nat)
        returns (st: Status)
      requires Loose() && op + outbuflen <= outbuf.Length && ip + inbuflen <= inbuf.Length
      requires Separate(outbuf, op, inbuf, ip)
      modifies this`ctr, this`lastiv, this`unused, this`blocks, outbuf
      ensures Loose() && st == if outbuflen < inbuflen then BufferTooShort else Ok
      ensures st != Ok ==> unchanged(this, outbuf)
      ensures st == Ok ==> outbuf[..] == Splice(old(outbuf[..]), op, old(Out(inbuf[ip..ip + inbuflen])))
      ensures st == Ok && inbuflen >= old(unused) ==>
        Valid() && Position() == old(cipher.bs * blocks) + inbuflen - old(unused)
      ensures st == Ok && inbuflen < old(unused) ==>
        unused == old(unused) - inbuflen && Saved() == old(Saved())[inbuflen..] && blocks == old(blocks)
    {
      hide KeyByte, KeyStream, AddBE, Splice, CtrCrypt, Valid, Xor;
      if outbuflen < inbuflen {
        return BufferTooShort;
      }
      ghost var in0, out0, pos, saved := inbuf[..], outbuf[..], cipher.bs * blocks, Saved();
      ghost var data, n0 := inbuf[ip..ip + inbuflen], if unused > inbuflen then inbuflen else unused;
      ghost var whole := Out(data);
      assert whole == Xor(data[..n0], saved[..n0]) + CtrCrypt(cipher, ctr0, pos, data[n0..]);
      var n := 0;
      if unused > 0 {
        n := if unused > inbuflen then inbuflen else unused;
        UseLeftover(outbuf, op, inbuf, ip, n);
      } else {
        SpliceNothing(out0, op);
        assert Xor([], []) == [];
      }
      ghost var first, second := in0[ip..ip + n], in0[ip + n..ip + inbuflen];
      assert data == in0[ip..ip + inbuflen] && data[..n] == first && data[n..] == second;
      ghost var part := Xor(first, saved[..n]);
      SpliceMore(out0, op, part, CtrCrypt(cipher, ctr0, pos, second));
      if inbuflen > n {
        NothingSaved();
        ReadSlice(out0, op, part, inbuf[..], in0, ip + n, inbuflen - n, outbuf == inbuf);
        assert inbuf[ip + n..ip + inbuflen] == inbuf[..][ip + n..ip + inbuflen];
        NewBlocks(outbuf, op + n, inbuf, ip + n, inbuflen - n);
      } else {
        NoData(cipher, ctr0, pos);
        assert second == [] && part + [] == part;
        if unused == 0 {
          NothingSaved();
        }
      }
      return Ok;
    }

    /** In a valid state the saved octets are key stream, and all a call does is move along the stream. */
    lemma OutIsStream(data: seq<byte>)
      requires Valid()
      ensures Out(data) == CtrCrypt(cipher, ctr0, Position(), data)
    {
      hide KeyByte, KeyStream, AddBE, Xor;
      var n := if unused > |data| then |data| else unused;
      StreamSlice(cipher, ctr0, Position(), unused, 0, n);
      assert Saved()[0..n] == Saved()[..n];
      assert data == data[..n] + data[n..];
      CtrConcat(cipher, ctr0, Position(), data[..n], data[n..]);
      if n < unused {
        assert data[n..] == [];
        NoData(cipher, ctr0, Position() + n);
        NoData(cipher, ctr0, cipher.bs * blocks);
      }
    }

    /** Saved octets of a valid state, some of which have been used. */
    lemma StillValid(was: seq<byte>, n: nat, pos: nat)
      requires Loose() && |was| == n + unused && Saved() == was[n..] && (|was| > 0 ==> blocks > 0)
      requires cipher.bs * blocks == pos + |was| && was == KeyStream(cipher, ctr0, pos, |was|)
      ensures Valid() && Position() == pos + n
    {
      hide KeyByte, KeyStream, AddBE;
      StreamSlice(cipher, ctr0, pos, |was|, n, |was|);
      assert was[n..] == was[n..|was|];
    }

    /** A new counter; the octets saved for the next call stay. */
    method LoadCounter(n: seq<byte>)
      requires Loose() && |n| == cipher.bs
      modifies this`ctr, this`ctr0, this`blocks
      ensures Loose() && ctr0 == n && blocks == 0 && Saved() == old(Saved())
      ensures At(old(Saved()), 0)
    {
      hide AddBE, KeyByte;
      AddZero(n);
      ctr, ctr0, blocks := n, n, 0;
      if unused == 0 {
        NothingSaved();
      }
    }

    /** At a position of the key stream that begins with stale octets. */
    ghost predicate At(stale: seq<byte>, pos: nat)
      reads this
      ensures At(stale, pos) ==> Loose()
    {
      && Loose()
      && if pos < |stale| then blocks == 0 && Saved() == stale[pos..] else Valid() && Position() == pos - |stale|
    }

    /** What is saved there. */
    lemma SavedAt(stale: seq<byte>, pos: nat)
      requires At(stale, pos)
      ensures cipher.Valid() && |ctr0| == cipher.bs
      ensures Saved() == if pos < |stale| then stale[pos..]
                         else KeyStream(cipher, ctr0, pos - |stale|, (cipher.bs - (pos - |stale|) % cipher.bs) % cipher.bs)
    {
      hide AddBE, KeyByte, KeyStream;
      if pos >= |stale| {
        LeftLength(cipher.bs, blocks, unused);
      }
    }

    /** What a call puts out at such a position. */
    lemma OutIsLate(stale: seq<byte>, pos: nat, data: seq<byte>)
      requires At(stale, pos)
      ensures cipher.Valid() && |ctr0| == cipher.bs && Out(data) == LateCrypt(cipher, ctr0, stale, pos, data)
    {
      hide KeyByte, KeyStream, AddBE, Xor, CtrCrypt, LateCrypt;
      if pos < |stale| {
        var n := if unused > |data| then |data| else unused;
        assert data == data[..n] + data[n..];
        LateConcat(cipher, ctr0, stale, pos, data[..n], data[n..]);
        LateIsStale(cipher, ctr0, stale, pos, data[..n]);
        assert Saved()[..n] == stale[pos..pos + n];
        if n < unused {
          assert data[n..] == [];
          NoData(cipher, ctr0, 0);
          NoLateData(cipher, ctr0, stale, pos + n);
        } else {
          LateIsCtr(cipher, ctr0, stale, pos + n, data[n..]);
        }
      } else {
        OutIsStream(data);
        LateIsCtr(cipher, ctr0, stale, pos, data);
      }
    }

    /** A call at such a position. */
    method EncryptFrom(outbuf: array<byte>, op: nat, outbuflen: nat, inbuf: array<byte>, ip: nat, inbuflen: nat,
                       ghost stale: seq<byte>, ghost pos: nat) returns (st: Status, ghost out: seq<byte>)
      requires At(stale, pos) && op + outbuflen <= outbuf.Length && ip + inbuflen <= inbuf.Length
      requires Separate(outbuf, op, inbuf, ip) && inbuflen <= outbuflen
      modifies this`ctr, this`lastiv, this`unused, this`blocks, outbuf
      ensures At(stale, pos + inbuflen) && st == Ok && |out| == inbuflen && outbuf[..] == Splice(old(outbuf[..]), op, out)
      ensures cipher.Valid() && |ctr0| == cipher.bs
      ensures out == LateCrypt(cipher, ctr0, stale, pos, old(inbuf[ip..ip + inbuflen]))
    {
      hide KeyByte, KeyStream, AddBE, Splice, CtrCrypt, LateCrypt, Xor, Out;
      ghost var saved, u := Saved(), unused;
      out := Out(inbuf[ip..ip + inbuflen]);
      OutIsLate(stale, pos, inbuf[ip..ip + inbuflen]);
      st := EncryptAny(outbuf, op, outbuflen, inbuf, ip, inbuflen);
      if inbuflen < u {
        if pos < |stale| {
          assert stale[pos..][inbuflen..] == stale[pos + inbuflen..];
        } else {
          StillValid(saved, inbuflen, pos - |stale|);
        }
      }
    }

    method Encrypt(outbuf: array<byte>, op: nat, outbuflen: nat, inbuf: array<byte>, ip: nat, inbuflen: nat)
        returns (st: Status)
      requires Valid() && op + outbuflen <= outbuf.Length && ip + inbuflen <= inbuf.Length
      requires Separate(outbuf, op, inbuf, ip)
      modifies this`ctr, this`lastiv, this`unused, this`blocks, outbuf
      ensures Valid()
      ensures st == if outbuflen < inbuflen then BufferTooShort else Ok
      ensures st != Ok ==> unchanged(this, outbuf)
      ensures st == Ok ==> Position() == old(Position()) + inbuflen
      ensures st == Ok ==>
        outbuf[..] == Splice(old(outbuf[..]), op, CtrCrypt(cipher, ctr0, old(Position()), old(inbuf[ip..ip + inbuflen])))
    {
      hide KeyByte, KeyStream, AddBE, Splice, CtrCrypt, Xor, Out;
      ghost var pos, saved, u := Position(), Saved(), unused;
      OutIsStream(inbuf[ip..ip + inbuflen]);
      st := EncryptAny(outbuf, op, outbuflen, inbuf, ip, inbuflen);
      if st == Ok && inbuflen < u {
        StillValid(saved, inbuflen, pos);
      }
    }
  }

  lemma NoData(k: Cipher, ctr: seq<byte>, pos: nat)
    requires k.Valid() && |ctr| == k.bs
    ensures CtrCrypt(k, ctr, pos, []) == []
  {
  }

  lemma PositionIsNat(bs: nat, blocks: nat, unused: nat)
    requires unused < bs && (unused > 0 ==> blocks > 0)
    ensures bs * blocks >= unused
  {
    if blocks > 0 {
      assert bs * blocks == bs * (blocks - 1) + bs;
    }
  }

  lemma NoLateData(k: Cipher, ctr: seq<byte>, stale: seq<byte>, pos: nat)
    requires k.Valid() && |ctr| == k.bs
    ensures LateCrypt(k, ctr, stale, pos, []) == []
  {
  }

  /** What blocks of key stream leave of a message that ends in the last of them. */
  lemma LeftLength(bs: nat, blocks: nat, unused: nat)
    requires unused < bs && (unused > 0 ==> blocks > 0) && bs * blocks >= unused
    ensures (bs - (bs * blocks - unused) % bs) % bs == unused
  {
    if unused == 0 {
      DivModUnique(bs * blocks, bs, blocks, 0);
      DivModUnique(bs, bs, 1, 0);
    } else {
      Distribute(bs, blocks - 1, 1);
      DivModUnique(bs * blocks - unused, bs, blocks - 1, bs - unused);
      DivModUnique(unused, bs, 0, unused);
    }
  }
}
