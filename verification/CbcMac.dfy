/** do_cbc_mac of cipher-ccm.c: a CBC-MAC fed in pieces of any length, in which a full block may
    stay in the buffer from one call to the next. */
module CbcMac {
  import opened Bytes
  import opened CipherBlock

  type Block = b: seq<byte> | |b| == 16 witness ZeroBytes(16)

  /** The chaining value after whole blocks. */
  function Chain(k: Cipher, data: seq<byte>): Block
    requires k.Valid() && k.bs == 16 && |data| % 16 == 0
  {
    if data == [] then ZeroBytes(16)
    else
      var m := |data| - 16;
      k.enc(Xor(Chain(k, data[..m]), data[m..]))
  }

  /** data followed by the fewest zeros that make whole blocks. */
  function PadZero(data: seq<byte>): (r: seq<byte>)
    ensures |r| % 16 == 0 && data <= r && |r| < |data| + 16
  {
    data + ZeroBytes((16 - |data| % 16) % 16)
  }

  lemma NextChain(k: Cipher, data: seq<byte>, b: Block)
    requires k.Valid() && k.bs == 16 && |data| % 16 == 0
    ensures |data + b| % 16 == 0 && Chain(k, data + b) == k.enc(Xor(Chain(k, data), b))
  {
    hide Xor;
    assert (data + b)[..|data|] == data && (data + b)[|data|..] == b;
  }

  class Mac {
    const cipher: Cipher
    const macbuf: array<byte>
    var iv: Block
    var unused: nat                // filled octets of macbuf
    ghost var full: seq<byte>      // whole blocks already chained

    ghost predicate Valid()
      reads this, macbuf
      ensures Valid() ==> cipher.Valid() && cipher.bs == 16 && macbuf.Length == 16 && unused <= 16
    {
      && cipher.Valid() && cipher.bs == 16 && macbuf.Length == 16 && unused <= 16
      && |full| % 16 == 0 && iv == Chain(cipher, full)
    }

    /** Everything fed so far, with the padding that was added. */
    ghost function Fed(): seq<byte>
      requires macbuf.Length == 16 && unused <= 16
      reads this, macbuf
    {
      full + macbuf[..unused]
    }

    constructor (cipher: Cipher)
      requires cipher.Valid() && cipher.bs == 16
      ensures Valid() && Fed() == [] && unused == 0 && this.cipher == cipher && fresh(macbuf)
    {
      this.cipher := cipher;
      macbuf := new byte[16];
      iv, unused, full := ZeroBytes(16), 0, [];
    }

    /** iv = E(iv xor b) */
    method ChainBlock(b: Block)
      requires cipher.Valid() && cipher.bs == 16 && |full| % 16 == 0 && iv == Chain(cipher, full)
      modifies this`iv, this`full
      ensures full == old(full) + b && |full| % 16 == 0 && iv == Chain(cipher, full)
    {
      hide Chain, Xor;
      NextChain(cipher, full, b);
      iv := Xor(iv, b);
      iv := cipher.enc(iv);
      full := full + b;
    }

    method Fill(s: seq<byte>, pos: nat, n: nat)
      requires macbuf.Length == 16 && unused + n <= 16 && pos + n <= |s|
      modifies this`unused, macbuf
      ensures unused == old(unused) + n && Fed() == old(Fed()) + s[pos..pos + n]
    {
      ghost var u, m0 := unused, macbuf[..unused];
      forall i | 0 <= i < n {
        macbuf[unused + i] := s[pos + i];
      }
      unused := unused + n;
      assert macbuf[..unused] == m0 + s[pos..pos + n];
    }

    /** Chains the full buffer. */
    method ChainBuffer()
      requires Valid() && unused == 16
      modifies this`iv, this`full, this`unused
      ensures Valid() && unused == 0 && full == old(Fed())
    {
      hide Chain;
      ChainBlock(macbuf[..]);
      unused := 0;
    }

    /** The inner loop: whole blocks straight from the input. */
    method ChainWhole(input: seq<byte>, start: nat) returns (pos: nat)
      requires cipher.Valid() && cipher.bs == 16 && |full| % 16 == 0 && iv == Chain(cipher, full) && start <= |input|
      modifies this`iv, this`full
      ensures start <= pos <= |input| < pos + 16 && full == old(full) + input[start..pos]
      ensures |full| % 16 == 0 && iv == Chain(cipher, full)
    {
      hide Chain;
      ghost var f0 := full;
      pos := start;
      while |input| - pos >= 16
        invariant start <= pos <= |input| && |full| % 16 == 0 && iv == Chain(cipher, full)
        invariant full == f0 + input[start..pos]
      {
        ChainBlock(input[pos..pos + 16]);
        assert input[start..pos] + input[pos..pos + 16] == input[start..pos + 16];
        pos := pos + 16;
      }
    }

    /** Zeros up to the end of the buffered block, which is then chained. */
    method PadBlock()
      requires Valid() && unused > 0
      modifies this, macbuf
      ensures Valid() && unused == 0 && full == PadZero(old(Fed()))
    {
      hide Chain;
      ghost var was, u := Fed(), unused;
      var n := 16 - unused;
      PadLength(full, macbuf[..unused]);
      if n > 0 {
        Fill(ZeroBytes(n), 0, n);
      }
      assert Fed() == was + ZeroBytes(n);
      ChainBuffer();
    }

    /** One turn of the outer loop: fill the buffer, chain it when full or padded, then chain whole
        blocks from the input.  Stops when the input is used up. */
    method Turn(input: seq<byte>, start: nat, doPadding: bool, ghost was: seq<byte>) returns (pos: nat, stop: bool)
      requires Valid() && start <= |input| && Fed() == was + input[..start]
      requires start < |input| || (unused > 0 && doPadding)
      modifies this, macbuf
      ensures Valid() && start <= pos <= |input| && stop == (pos == |input|)
      ensures !stop ==> unused == 0 && (old(unused) > 0 || start < pos)
      ensures !stop || !doPadding ==> Fed() == was + input[..pos]
      ensures stop && doPadding ==> unused == 0 && full == PadZero(was + input)
    {
      hide Chain, PadZero;
      pos := start;
      if |input| - pos + unused < 16 || unused > 0 {
        var n := if |input| - pos > 16 - unused then 16 - unused else |input| - pos;
        Fill(input, pos, n);
        PrefixMore(was, input, pos, pos + n);
        pos := pos + n;
      }
      if pos == |input| {
        assert input[..pos] == input;
        if doPadding {
          PadBlock();
        }
        return pos, true;
      }
      if unused > 0 {
        ChainBuffer();
      }
      assert full == was + input[..pos];
      ghost var p := pos;
      pos := ChainWhole(input, pos);
      PrefixMore(was, input, p, pos);
      stop := pos == |input|;
      if stop {
        assert input[..pos] == input;
        WholeIsPadded(was + input);
      }
    }

    /** do_cbc_mac */
    method Feed(input: seq<byte>, doPadding: bool)
      requires Valid()
      modifies this, macbuf
      ensures Valid()
      ensures !doPadding ==> Fed() == old(Fed()) + input
      ensures doPadding ==> unused == 0 && full == PadZero(old(Fed()) + input)
    {
      hide Chain, PadZero;
      ghost var was := Fed();
      assert was + input[..0] == was;
      if |input| == 0 && (unused == 0 || !doPadding) {
        assert was + input == was;
        if unused == 0 {
          assert was == full;
          WholeIsPadded(was);
        }
        return;
      }
      var pos, stop := Turn(input, 0, doPadding, was);
      while !stop
        invariant Valid() && 0 <= pos <= |input| && stop == (pos == |input|)
        invariant !stop ==> unused == 0
        invariant !stop || !doPadding ==> Fed() == was + input[..pos]
        invariant stop && doPadding ==> unused == 0 && full == PadZero(was + input)
        decreases |input| - pos
      {
        pos, stop := Turn(input, pos, doPadding, was);
      }
      assert input[..pos] == input;
    }
  }

  lemma PrefixMore(was: seq<byte>, input: seq<byte>, i: nat, j: nat)
    requires i <= j <= |input|
    ensures was + input[..i] + input[i..j] == was + input[..j]
  {
    assert input[..i] + input[i..j] == input[..j];
    ConcatAssociates(was, input[..i], input[i..j]);
  }

  lemma PadLength(full: seq<byte>, rest: seq<byte>)
    requires |full| % 16 == 0 && 0 < |rest| <= 16
    ensures PadZero(full + rest) == full + rest + ZeroBytes(16 - |rest|)
  {
    var n := |full + rest|;
    if |rest| == 16 {
      assert n % 16 == 0;
    } else {
      assert n % 16 == |rest|;
    }
  }

  lemma WholeIsPadded(s: seq<byte>)
    requires |s| % 16 == 0
    ensures PadZero(s) == s
  {
  }
}
