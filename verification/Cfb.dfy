/** cipher-cfb.c: cipher feedback with a partly used block kept between calls, and its eight-bit form. */
module Cfb {
  import opened Buffering
  import opened Bytes
  import opened CipherBlock

  datatype Status = Ok | BufferTooShort

  // ---- what the mode means ----

  /** The block that is enciphered to mask block q: the ciphertext block before it, or the IV. */
  function Before(bs: nat, iv0: seq<byte>, c: seq<byte>, q: nat): (b: seq<byte>)
    requires |iv0| == bs && bs * q <= |c|
    ensures |b| == bs
  {
    if q == 0 then iv0
    else
      PreviousBlock(bs, q);
      c[bs * (q - 1)..bs * q]
  }

  lemma PreviousBlock(bs: nat, q: nat)
    requires q > 0
    ensures bs * (q - 1) + bs == bs * q
  {
  }

  lemma InBlock(bs: nat, p: nat)
    requires bs > 0
    ensures p % bs < bs && bs * (p / bs) <= p == bs * (p / bs) + p % bs
  {
    DivMod(p, bs);
  }

  /** The mask for octet p, given the ciphertext before it. */
  function Mask(k: Cipher, iv0: seq<byte>, c: seq<byte>, p: nat): byte
    requires k.Valid() && |iv0| == k.bs && p <= |c|
  {
    InBlock(k.bs, p);
    k.enc(Before(k.bs, iv0, c, p / k.bs))[p % k.bs]
  }

  /** c is the ciphertext of data. */
  ghost predicate Related(k: Cipher, iv0: seq<byte>, data: seq<byte>, c: seq<byte>)
    requires k.Valid() && |iv0| == k.bs
  {
    |c| == |data| && forall i :: 0 <= i < |c| ==> c[i] == XorByte(data[i], Mask(k, iv0, c, i))
  }

  /** The mask looks only at what comes before. */
  lemma MaskPrefix(k: Cipher, iv0: seq<byte>, c: seq<byte>, c': seq<byte>, p: nat)
    requires k.Valid() && |iv0| == k.bs && p <= |c| && p <= |c'| && c[..p] == c'[..p]
    ensures Mask(k, iv0, c, p) == Mask(k, iv0, c', p)
  {
    InBlock(k.bs, p);
    BeforePrefix(k.bs, iv0, c, c', p, p / k.bs);
  }

  lemma BeforePrefix(bs: nat, iv0: seq<byte>, c: seq<byte>, c': seq<byte>, p: nat, q: nat)
    requires |iv0| == bs && bs * q <= p && p <= |c| && p <= |c'| && c[..p] == c'[..p]
    ensures Before(bs, iv0, c, q) == Before(bs, iv0, c', q)
  {
    if q > 0 {
      PreviousBlock(bs, q);
      var a, b := bs * (q - 1), bs * q;
      SliceOfSlice(c, 0, p, a, b);
      SliceOfSlice(c', 0, p, a, b);
    }
  }

  /** Ciphertext made under any split into calls decrypts under any other: the plaintext determines the
      ciphertext and the ciphertext the plaintext. */
  lemma {:induction false} RoundTrip(k: Cipher, iv0: seq<byte>, data: seq<byte>, c: seq<byte>, data': seq<byte>, c': seq<byte>)
    requires k.Valid() && |iv0| == k.bs && Related(k, iv0, data, c) && Related(k, iv0, data', c')
    ensures data == data' <==> c == c'
  {
    hide Mask, XorByte;
    if c == c' {
      forall i | 0 <= i < |c|
        ensures data[i] == data'[i]
      {
        var m := Mask(k, iv0, c, i);
        XorByteLaws(data[i], m, m);
        XorByteLaws(data'[i], m, m);
        XorByteLaws(m, m, m);
      }
      assert data == data';
    }
    if data == data' {
      SamePrefix(k, iv0, data, c, c', |c|);
      assert c[..|c|] == c && c'[..|c|] == c';
    }
  }

  lemma {:induction false} SamePrefix(k: Cipher, iv0: seq<byte>, data: seq<byte>, c: seq<byte>, c': seq<byte>, n: nat)
    requires k.Valid() && |iv0| == k.bs && Related(k, iv0, data, c) && Related(k, iv0, data, c') && n <= |c|
    ensures c[..n] == c'[..n]
  {
    hide Mask, XorByte;
    if n > 0 {
      SamePrefix(k, iv0, data, c, c', n - 1);
      MaskPrefix(k, iv0, c, c', n - 1);
      assert c[..n] == c[..n - 1] + [c[n - 1]] && c'[..n] == c'[..n - 1] + [c'[n - 1]];
    }
  }

  // ---- the state between calls ----

  /** Octets of the current mask block not used yet, after n octets. */
  function UnusedAt(bs: nat, n: nat): nat
    requires bs > 0
  {
    InBlock(bs, n);
    if n % bs == 0 then 0 else bs - n % bs
  }

  /** The IV after ciphertext c: what the current block has of it, then the unused mask octets; between
      blocks, the last block. */
  function IvAt(k: Cipher, iv0: seq<byte>, c: seq<byte>): (iv: seq<byte>)
    requires k.Valid() && |iv0| == k.bs
    ensures |iv| == k.bs
  {
    var q, r := |c| / k.bs, |c| % k.bs;
    InBlock(k.bs, |c|);
    var b := Before(k.bs, iv0, c, q);
    if r == 0 then b else c[k.bs * q..] + k.enc(b)[r..]
  }

  /** The block whose octets from |c| % bs on are the next masks. */
  function MaskBlock(k: Cipher, iv0: seq<byte>, c: seq<byte>): (w: seq<byte>)
    requires k.Valid() && |iv0| == k.bs
    ensures |w| == k.bs
  {
    if |c| % k.bs == 0 then k.enc(IvAt(k, iv0, c)) else IvAt(k, iv0, c)
  }

  lemma SameBlock(bs: nat, n: nat, i: nat)
    requires bs > 0 && n % bs + i < bs
    ensures (n + i) / bs == n / bs && (n + i) % bs == n % bs + i
  {
    InBlock(bs, n);
    DivModUnique(n + i, bs, n / bs, n % bs + i);
  }

  lemma BlockEnd(bs: nat, n: nat, i: nat)
    requires bs > 0 && n % bs + i == bs
    ensures (n + i) / bs == n / bs + 1 && (n + i) % bs == 0
  {
    InBlock(bs, n);
    PreviousBlock(bs, n / bs + 1);
    DivModUnique(n + i, bs, n / bs + 1, 0);
  }

  lemma BeforeMore(bs: nat, iv0: seq<byte>, c: seq<byte>, y: seq<byte>, q: nat)
    requires |iv0| == bs && bs * q <= |c|
    ensures Before(bs, iv0, c + y, q) == Before(bs, iv0, c, q)
  {
    if q > 0 {
      PreviousBlock(bs, q);
      assert (c + y)[bs * (q - 1)..bs * q] == c[bs * (q - 1)..bs * q];
    }
  }

  /** The masks of the rest of the current block. */
  lemma MasksOf(k: Cipher, iv0: seq<byte>, c: seq<byte>, y: seq<byte>, i: nat)
    requires k.Valid() && |iv0| == k.bs && i <= |y| && |c| % k.bs + i < k.bs
    ensures Mask(k, iv0, c + y, |c| + i) == MaskBlock(k, iv0, c)[|c| % k.bs + i]
  {
    InBlock(k.bs, |c|);
    SameBlock(k.bs, |c|, i);
    BeforeMore(k.bs, iv0, c, y, |c| / k.bs);
  }

  lemma MasksKept(k: Cipher, iv0: seq<byte>, data: seq<byte>, c: seq<byte>, x: seq<byte>, y: seq<byte>, i: nat)
    requires k.Valid() && |iv0| == k.bs && Related(k, iv0, data, c) && |x| == |y| && i < |c|
    ensures (c + y)[i] == XorByte((data + x)[i], Mask(k, iv0, c + y, i))
  {
    hide Mask, XorByte;
    assert (c + y)[..i] == c[..i];
    MaskPrefix(k, iv0, c + y, c, i);
  }

  /** More of the current block, masked. */
  lemma StepRelated(k: Cipher, iv0: seq<byte>, data: seq<byte>, c: seq<byte>, x: seq<byte>, y: seq<byte>)
    requires k.Valid() && |iv0| == k.bs && Related(k, iv0, data, c) && |c| % k.bs + |x| <= k.bs && |y| == |x|
    requires var r := |c| % k.bs;
             y == Xor(x, MaskBlock(k, iv0, c)[r..r + |x|])
    ensures Related(k, iv0, data + x, c + y)
  {
    hide Mask, XorByte, MaskBlock;
    var r, w := |c| % k.bs, MaskBlock(k, iv0, c);
    forall i | 0 <= i < |c + y|
      ensures (c + y)[i] == XorByte((data + x)[i], Mask(k, iv0, c + y, i))
    {
      if i < |c| {
        MasksKept(k, iv0, data, c, x, y, i);
      } else {
        MasksOf(k, iv0, c, y, i - |c|);
        assert y[i - |c|] == XorByte(x[i - |c|], w[r..r + |x|][i - |c|]);
      }
    }
  }

  /** The IV after more of the current block: the new ciphertext takes the place of the masks. */
  lemma StepIv(k: Cipher, iv0: seq<byte>, c: seq<byte>, y: seq<byte>)
    requires k.Valid() && |iv0| == k.bs && 0 < |y| && |c| % k.bs + |y| <= k.bs
    ensures IvAt(k, iv0, c + y) == Splice(MaskBlock(k, iv0, c), |c| % k.bs, y)
    ensures UnusedAt(k.bs, |c + y|) == k.bs - |c| % k.bs - |y|
  {
    hide Splice, MaskBlock, Before, IvAt;
    var bs, q, pre := k.bs, |c| / k.bs, c[k.bs * (|c| / k.bs)..];
    MaskBlockIs(k, iv0, c);
    var e := k.enc(Before(bs, iv0, c, q));
    SpliceMasks(pre, e, y);
    assert (c + y)[bs * q..] == pre + y;
    assert |pre| == |c| % bs && |c + y| == |c| + |y|;
    if |c| % bs + |y| < bs {
      SameBlock(bs, |c|, |y|);
      BeforeMore(bs, iv0, c, y, q);
      IvInside(k, iv0, c + y, q);
    } else {
      BlockEnd(bs, |c|, |y|);
      IvBetween(k, iv0, c + y, q);
    }
  }

  lemma IvInside(k: Cipher, iv0: seq<byte>, c: seq<byte>, q: nat)
    requires k.Valid() && |iv0| == k.bs && |c| / k.bs == q && |c| % k.bs > 0
    ensures k.bs * q <= |c| && IvAt(k, iv0, c) == c[k.bs * q..] + k.enc(Before(k.bs, iv0, c, q))[|c| % k.bs..]
  {
    InBlock(k.bs, |c|);
  }

  lemma IvBetween(k: Cipher, iv0: seq<byte>, c: seq<byte>, q: nat)
    requires k.Valid() && |iv0| == k.bs && |c| / k.bs == q + 1 && |c| % k.bs == 0
    ensures k.bs * q <= |c| && IvAt(k, iv0, c) == c[k.bs * q..]
  {
    InBlock(k.bs, |c|);
    PreviousBlock(k.bs, q + 1);
    assert c[k.bs * q..k.bs * (q + 1)] == c[k.bs * q..];
  }

  /** The current block's ciphertext, then its masks. */
  lemma MaskBlockIs(k: Cipher, iv0: seq<byte>, c: seq<byte>)
    requires k.Valid() && |iv0| == k.bs
    ensures k.bs * (|c| / k.bs) <= |c| == k.bs * (|c| / k.bs) + |c| % k.bs
    ensures MaskBlock(k, iv0, c)
         == c[k.bs * (|c| / k.bs)..] + k.enc(Before(k.bs, iv0, c, |c| / k.bs))[|c| % k.bs..]
  {
    InBlock(k.bs, |c|);
    if |c| % k.bs == 0 {
      assert c[k.bs * (|c| / k.bs)..] == [];
    }
  }

  lemma SpliceMasks(pre: seq<byte>, e: seq<byte>, y: seq<byte>)
    requires |pre| + |y| <= |e|
    ensures Splice(pre + e[|pre|..], |pre|, y) == pre + y + e[|pre| + |y|..]
    ensures |pre| + |y| == |e| ==> Splice(pre + e[|pre|..], |pre|, y) == pre + y
  {
    var w := pre + e[|pre|..];
    assert w[..|pre|] == pre && w[|pre| + |y|..] == e[|pre| + |y|..];
  }

  // ---- one call ----

  class State {
    const cipher: Cipher
    const bulk: bool
    var iv: seq<byte>
    var lastiv: seq<byte>
    var unused: nat
    ghost var iv0: seq<byte>
    ghost var data: seq<byte>    // plaintext and
    ghost var sealed: seq<byte>  // ciphertext since the IV was set

    ghost predicate Core()
      reads this`iv0, this`data, this`sealed
      ensures Core() ==> cipher.Valid() && cipher.bs in {8, 16} && |iv0| == cipher.bs
    {
      && cipher.Valid() && cipher.bs in {8, 16} && |iv0| == cipher.bs && Related(cipher, iv0, data, sealed)
    }

    ghost predicate Valid()
      reads this
    {
      Core() && iv == IvAt(cipher, iv0, sealed) && unused == UnusedAt(cipher.bs, |sealed|)
    }

    constructor (cipher: Cipher, bulk: bool, iv: seq<byte>)
      requires cipher.Valid() && cipher.bs in {8, 16} && |iv| == cipher.bs
      ensures Valid() && data == sealed == [] && iv0 == iv && this.cipher == cipher
    {
      this.cipher, this.bulk, this.iv, lastiv, unused := cipher, bulk, iv, ZeroBytes(cipher.bs), 0;
      iv0, data, sealed := iv, [], [];
      FirstIv(cipher, iv);
    }

    /** Octets of the current block: buf_xor_2dst when encrypting, buf_xor_n_copy when decrypting. */
    method Part(decrypt: bool, outbuf: array<byte>, ghost out0: seq<byte>, op: nat, inbuf: array<byte>, ghost in0: seq<byte>, ip: nat,
                ghost total: nat, ghost out: seq<byte>, done: nat, r: nat, n: nat) returns (ghost y: seq<byte>)
      requires Core() && iv == MaskBlock(cipher, iv0, sealed) && r == |sealed| % cipher.bs && 0 < n && r + n <= cipher.bs
      requires Progress(outbuf, out0, op, inbuf, in0, ip, total, out) && done == |out| && done + n <= total
      modifies this`iv, this`data, this`sealed, outbuf
      ensures Core() && iv == IvAt(cipher, iv0, sealed) && UnusedAt(cipher.bs, |sealed|) == cipher.bs - r - n
      ensures |y| == n && Progress(outbuf, out0, op, inbuf, in0, ip, total, out + y)
      ensures var x := in0[ip..ip + total][done..done + n];
              data == old(data) + (if decrypt then y else x) && sealed == old(sealed) + if decrypt then x else y
    {
      hide Splice, Xor, MaskBlock, Progress, Related, IvAt, UnusedAt;
      NextInput(outbuf, out0, op, inbuf, in0, ip, total, out, n);
      var x := inbuf[ip + done..ip + done + n];
      var z := Xor(x, iv[r..r + n]);
      y := z;
      PutMore(outbuf, out0, op, inbuf, in0, ip, total, out, op + done, z);
      ghost var c := if decrypt then x else z;
      StepIv(cipher, iv0, sealed, c);
      iv := Splice(iv, r, if decrypt then x else z);
      if decrypt {
        XorBack(x, z, MaskBlock(cipher, iv0, sealed)[r..r + n]);
        StepRelated(cipher, iv0, data, sealed, z, x);
        data, sealed := data + z, sealed + x;
      } else {
        StepRelated(cipher, iv0, data, sealed, x, z);
        data, sealed := data + x, sealed + z;
      }
    }

    /** A new mask block, then octets of it. */
    method FreshPart(decrypt: bool, save: bool, outbuf: array<byte>, ghost out0: seq<byte>, op: nat, inbuf: array<byte>, ghost in0: seq<byte>,
                     ip: nat, ghost total: nat, ghost out: seq<byte>, done: nat, n: nat) returns (ghost y: seq<byte>)
      requires Core() && iv == IvAt(cipher, iv0, sealed) && |sealed| % cipher.bs == 0 && 0 < n <= cipher.bs
      requires Progress(outbuf, out0, op, inbuf, in0, ip, total, out) && done == |out| && done + n <= total
      modifies this`iv, this`lastiv, this`data, this`sealed, outbuf
      ensures Core() && iv == IvAt(cipher, iv0, sealed) && UnusedAt(cipher.bs, |sealed|) == cipher.bs - n
      ensures |y| == n && Progress(outbuf, out0, op, inbuf, in0, ip, total, out + y)
      ensures var x := in0[ip..ip + total][done..done + n];
              data == old(data) + (if decrypt then y else x) && sealed == old(sealed) + if decrypt then x else y
    {
      hide IvAt, Progress, Related, UnusedAt;
      if save {
        lastiv := iv;
      }
      iv := cipher.enc(iv);
      y := Part(decrypt, outbuf, out0, op, inbuf, in0, ip, total, out, done, 0, n);
    }

    /** Whole blocks: all of them by the bulk function, or one by one. */
    method Blocks(decrypt: bool, outbuf: array<byte>, ghost out0: seq<byte>, op: nat, inbuf: array<byte>, ghost in0: seq<byte>,
                  ip: nat, ghost total: nat, ghost out: seq<byte>, done: nat, nblocks: nat, ghost data0: seq<byte>, ghost sealed0: seq<byte>)
      returns (next: nat, ghost out': seq<byte>)
      requires Core() && iv == IvAt(cipher, iv0, sealed) && |sealed| % cipher.bs == 0
      requires Progress(outbuf, out0, op, inbuf, in0, ip, total, out) && done == |out| && done + cipher.bs * nblocks <= total
      requires Taken(decrypt, data0, sealed0, data, sealed, in0[ip..ip + total][..done], out)
      modifies this`iv, this`lastiv, this`data, this`sealed, outbuf
      ensures next == done + cipher.bs * nblocks == |out'| && Core() && iv == IvAt(cipher, iv0, sealed) && |sealed| % cipher.bs == 0
      ensures Progress(outbuf, out0, op, inbuf, in0, ip, total, out')
      ensures Taken(decrypt, data0, sealed0, data, sealed, in0[ip..ip + total][..next], out')
    {
      hide IvAt, Progress, Related, UnusedAt, Taken;
      next, out' := done, out;
      var i := 0;
      while i < nblocks
        invariant 0 <= i <= nblocks && next == done + cipher.bs * i == |out'| && next <= total
        invariant Core() && iv == IvAt(cipher, iv0, sealed) && |sealed| % cipher.bs == 0
        invariant Progress(outbuf, out0, op, inbuf, in0, ip, total, out')
        invariant Taken(decrypt, data0, sealed0, data, sealed, in0[ip..ip + total][..next], out')
        modifies this`iv, this`lastiv, this`data, this`sealed, outbuf
      {
        MulMono(cipher.bs, i, nblocks);
        ghost var d1, c1 := data, sealed;
        ghost var y := FreshPart(decrypt, false, outbuf, out0, op, inbuf, in0, ip, total, out', next, cipher.bs);
        TakenMore(decrypt, data0, sealed0, d1, c1, in0[ip..ip + total], next, next + cipher.bs, out', y);
        WholeMore(cipher.bs, |c1|);
        PreviousBlock(cipher.bs, i + 1);
        out' := out' + y;
        next := next + cipher.bs;
        i := i + 1;
      }
    }

    /** _gcry_cipher_cfb_encrypt and _gcry_cipher_cfb_decrypt */
    method Crypt(decrypt: bool, outbuf: array<byte>, op: nat, outbuflen: nat, inbuf: array<byte>, ip: nat, inbuflen: nat)
      returns (st: Status, ghost out: seq<byte>)
      requires Valid() && op + outbuflen <= outbuf.Length && ip + inbuflen <= inbuf.Length && Separate(outbuf, op, inbuf, ip)
      modifies this`iv, this`lastiv, this`unused, this`data, this`sealed, outbuf
      ensures Valid() && st == if outbuflen < inbuflen then BufferTooShort else Ok
      ensures st != Ok ==> unchanged(this) && outbuf[..] == old(outbuf[..])
      ensures st == Ok ==> |out| == inbuflen && outbuf[..] == Splice(old(outbuf[..]), op, out)
      ensures st == Ok ==> Taken(decrypt, old(data), old(sealed), data, sealed, old(inbuf[ip..ip + inbuflen]), out)
    {
      hide IvAt, MaskBlock, Related, UnusedAt, Taken, Splice;
      out := [];
      if outbuflen < inbuflen {
        return BufferTooShort, out;
      }
      ghost var out0, in0, d0, c0 := outbuf[..], inbuf[..], data, sealed;
      ghost var input := in0[ip..ip + inbuflen];
      assert input == inbuf[ip..ip + inbuflen];
      SpliceNothing(out0, op);
      assert Progress(outbuf, out0, op, inbuf, in0, ip, inbuflen, []);
      TakenNothing(decrypt, d0, c0, input);
      UnusedIs(cipher.bs, |sealed|);
      var done := 0;
      if unused > 0 {
        MaskIsIv(cipher, iv0, sealed);
        var n := if inbuflen <= unused then inbuflen else unused;
        if n == 0 {
          assert input[..0] == input;
          return Ok, out;
        }
        out := Part(decrypt, outbuf, out0, op, inbuf, in0, ip, inbuflen, out, 0, cipher.bs - unused, n);
        assert [] + out == out && input[0..n] == input[..n];
        TakenMore(decrypt, d0, c0, d0, c0, input, 0, n, [], out);
        unused := unused - n;
        done := n;
        if n == inbuflen {
          assert input[..n] == input;
          return Ok, out;
        }
        UnusedIs(cipher.bs, |sealed|);
      }
      out := Rest(decrypt, outbuf, out0, op, inbuf, in0, ip, inbuflen, out, done, d0, c0);
      assert input[..inbuflen] == input;
      return Ok, out;
    }

    /** What is left once no mask octets are: whole blocks, the last of them on its own, then a short one. */
    method Rest(decrypt: bool, outbuf: array<byte>, ghost out0: seq<byte>, op: nat, inbuf: array<byte>, ghost in0: seq<byte>,
                ip: nat, inbuflen: nat, ghost out: seq<byte>, start: nat, ghost d0: seq<byte>, ghost c0: seq<byte>)
      returns (ghost out': seq<byte>)
      requires Core() && iv == IvAt(cipher, iv0, sealed) && |sealed| % cipher.bs == 0 && unused == 0
      requires Progress(outbuf, out0, op, inbuf, in0, ip, inbuflen, out) && start == |out|
      requires Taken(decrypt, d0, c0, data, sealed, in0[ip..ip + inbuflen][..start], out)
      modifies this`iv, this`lastiv, this`unused, this`data, this`sealed, outbuf
      ensures Valid() && |out'| == inbuflen && Progress(outbuf, out0, op, inbuf, in0, ip, inbuflen, out')
      ensures Taken(decrypt, d0, c0, data, sealed, in0[ip..ip + inbuflen][..inbuflen], out')
    {
      hide IvAt, MaskBlock, Related, UnusedAt, Taken, Progress;
      var bs := cipher.bs;
      var done := start;
      out' := out;
      UnusedIs(bs, |sealed|);
      var n := 0;
      if inbuflen - done >= 2 * bs {
        WholeBlocks(bs, inbuflen - done);
        n := if bulk then (inbuflen - done) / bs else (inbuflen - done) / bs - 1;
      }
      done, out' := Blocks(decrypt, outbuf, out0, op, inbuf, in0, ip, inbuflen, out', done, n, d0, c0);
      if inbuflen - done >= bs {
        done, out' := LastPart(decrypt, outbuf, out0, op, inbuf, in0, ip, inbuflen, out', done, bs, d0, c0);
        WholeAgain(bs, |sealed|);
      }
      UnusedIs(bs, |sealed|);
      if inbuflen - done > 0 {
        var m := inbuflen - done;
        done, out' := LastPart(decrypt, outbuf, out0, op, inbuf, in0, ip, inbuflen, out', done, m, d0, c0);
        unused := bs - m;
      }
    }

    method LastPart(decrypt: bool, outbuf: array<byte>, ghost out0: seq<byte>, op: nat, inbuf: array<byte>, ghost in0: seq<byte>,
                    ip: nat, ghost total: nat, ghost out: seq<byte>, done: nat, n: nat, ghost d0: seq<byte>, ghost c0: seq<byte>)
      returns (next: nat, ghost out': seq<byte>)
      requires Core() && iv == IvAt(cipher, iv0, sealed) && |sealed| % cipher.bs == 0 && 0 < n <= cipher.bs
      requires Progress(outbuf, out0, op, inbuf, in0, ip, total, out) && done == |out| && done + n <= total
      requires Taken(decrypt, d0, c0, data, sealed, in0[ip..ip + total][..done], out)
      modifies this`iv, this`lastiv, this`data, this`sealed, outbuf
      ensures Core() && iv == IvAt(cipher, iv0, sealed) && UnusedAt(cipher.bs, |sealed|) == cipher.bs - n
      ensures next == done + n == |out'| && Progress(outbuf, out0, op, inbuf, in0, ip, total, out')
      ensures Taken(decrypt, d0, c0, data, sealed, in0[ip..ip + total][..next], out')
    {
      hide IvAt, MaskBlock, Related, UnusedAt, Taken, Progress;
      ghost var d1, c1 := data, sealed;
      ghost var y := FreshPart(decrypt, true, outbuf, out0, op, inbuf, in0, ip, total, out, done, n);
      TakenMore(decrypt, d0, c0, d1, c1, in0[ip..ip + total], done, done + n, out, y);
      next, out' := done + n, out + y;
    }
  }

  /** What a call has added to plaintext and ciphertext. */
  ghost predicate Taken(decrypt: bool, d0: seq<byte>, c0: seq<byte>, d: seq<byte>, c: seq<byte>, x: seq<byte>, y: seq<byte>) {
    && |x| == |y|
    && d == d0 + (if decrypt then y else x) && c == c0 + if decrypt then x else y
  }

  lemma TakenNothing(decrypt: bool, d0: seq<byte>, c0: seq<byte>, input: seq<byte>)
    ensures Taken(decrypt, d0, c0, d0, c0, input[..0], [])
  {
    assert input[..0] == [] && d0 + [] == d0 && c0 + [] == c0;
  }

  lemma TakenMore(decrypt: bool, d0: seq<byte>, c0: seq<byte>, d1: seq<byte>, c1: seq<byte>, input: seq<byte>, i: nat, j: nat,
                  out: seq<byte>, y: seq<byte>)
    requires i <= j <= |input| && |y| == j - i && Taken(decrypt, d0, c0, d1, c1, input[..i], out)
    ensures Taken(decrypt, d0, c0, d1 + (if decrypt then y else input[i..j]), c1 + (if decrypt then input[i..j] else y), input[..j], out + y)
  {
    assert input[..i] + input[i..j] == input[..j];
    ConcatAssociates(d0, if decrypt then out else input[..i], if decrypt then y else input[i..j]);
    ConcatAssociates(c0, if decrypt then input[..i] else out, if decrypt then input[i..j] else y);
  }

  lemma XorBack(x: seq<byte>, z: seq<byte>, m: seq<byte>)
    requires |x| == |m| && z == Xor(x, m)
    ensures |z| == |x| && x == Xor(z, m)
  {
    hide Xor;
    XorCancels(x, m);
  }

  lemma FirstIv(k: Cipher, iv: seq<byte>)
    requires k.Valid() && |iv| == k.bs
    ensures IvAt(k, iv, []) == iv && UnusedAt(k.bs, 0) == 0 && Related(k, iv, [], [])
  {
    DivModUnique(0, k.bs, 0, 0);
  }

  lemma UnusedIs(bs: nat, n: nat)
    requires bs > 0
    ensures UnusedAt(bs, n) < bs && (UnusedAt(bs, n) == 0 <==> n % bs == 0)
    ensures n % bs > 0 ==> n % bs == bs - UnusedAt(bs, n)
  {
    InBlock(bs, n);
  }

  lemma MaskIsIv(k: Cipher, iv0: seq<byte>, c: seq<byte>)
    requires k.Valid() && |iv0| == k.bs && UnusedAt(k.bs, |c|) > 0
    ensures MaskBlock(k, iv0, c) == IvAt(k, iv0, c)
  {
  }

  lemma WholeMore(bs: nat, n: nat)
    requires bs > 0 && n % bs == 0
    ensures (n + bs) % bs == 0
  {
    BlockEnd(bs, n, bs);
  }

  lemma WholeAgain(bs: nat, n: nat)
    requires bs > 0 && UnusedAt(bs, n) == bs - bs
    ensures n % bs == 0
  {
    UnusedIs(bs, n);
  }

  lemma WholeBlocks(bs: nat, n: nat)
    requires bs in {8, 16} && n >= 2 * bs
    ensures n / bs >= 2 && bs * (n / bs) <= n && bs * (n / bs - 1) + bs <= n < bs * (n / bs - 1) + 2 * bs
  {
    DivMod(n, bs);
    PreviousBlock(bs, n / bs);
  }

  // ---- eight-bit feedback ----

  /** c is the ciphertext of data: octet i is masked by the first octet of the enciphered window of
      the bs octets of IV and ciphertext before it. */
  ghost predicate Related8(k: Cipher, iv0: seq<byte>, data: seq<byte>, c: seq<byte>)
    requires k.Valid() && |iv0| == k.bs
  {
    |c| == |data| && forall i :: 0 <= i < |c| ==> c[i] == XorByte(data[i], Mask8(k, iv0, c, i))
  }

  function Mask8(k: Cipher, iv0: seq<byte>, c: seq<byte>, i: nat): byte
    requires k.Valid() && |iv0| == k.bs && i <= |c|
  {
    k.enc((iv0 + c)[i..i + k.bs])[0]
  }

  lemma Mask8Prefix(k: Cipher, iv0: seq<byte>, c: seq<byte>, c': seq<byte>, i: nat)
    requires k.Valid() && |iv0| == k.bs && i <= |c| && i <= |c'| && c[..i] == c'[..i]
    ensures Mask8(k, iv0, c, i) == Mask8(k, iv0, c', i)
  {
    assert (iv0 + c)[i..i + k.bs] == (iv0 + c[..i])[i..];
    assert (iv0 + c')[i..i + k.bs] == (iv0 + c'[..i])[i..];
  }

  lemma {:induction false} SamePrefix8(k: Cipher, iv0: seq<byte>, data: seq<byte>, c: seq<byte>, c': seq<byte>, n: nat)
    requires k.Valid() && |iv0| == k.bs && Related8(k, iv0, data, c) && Related8(k, iv0, data, c') && n <= |c|
    ensures c[..n] == c'[..n]
  {
    hide Mask8, XorByte;
    if n > 0 {
      SamePrefix8(k, iv0, data, c, c', n - 1);
      Mask8Prefix(k, iv0, c, c', n - 1);
      assert c[..n] == c[..n - 1] + [c[n - 1]] && c'[..n] == c'[..n - 1] + [c'[n - 1]];
    }
  }

  lemma {:induction false} RoundTrip8(k: Cipher, iv0: seq<byte>, data: seq<byte>, c: seq<byte>, data': seq<byte>, c': seq<byte>)
    requires k.Valid() && |iv0| == k.bs && Related8(k, iv0, data, c) && Related8(k, iv0, data', c')
    ensures data == data' <==> c == c'
  {
    hide Mask8, XorByte;
    if c == c' {
      forall i | 0 <= i < |c|
        ensures data[i] == data'[i]
      {
        var m := Mask8(k, iv0, c, i);
        XorByteLaws(data[i], m, m);
        XorByteLaws(data'[i], m, m);
        XorByteLaws(m, m, m);
      }
      assert data == data';
    }
    if data == data' {
      SamePrefix8(k, iv0, data, c, c', |c|);
      assert c[..|c|] == c && c'[..|c|] == c';
    }
  }

  lemma Step8(k: Cipher, iv0: seq<byte>, data: seq<byte>, c: seq<byte>, x: byte, y: byte)
    requires k.Valid() && |iv0| == k.bs && Related8(k, iv0, data, c) && y == XorByte(x, Mask8(k, iv0, c, |c|))
    ensures Related8(k, iv0, data + [x], c + [y])
    ensures (iv0 + (c + [y]))[|c| + 1..] == (iv0 + c)[|c|..][1..] + [y]
  {
    hide Mask8, XorByte;
    forall i | 0 <= i <= |c|
      ensures (c + [y])[i] == XorByte((data + [x])[i], Mask8(k, iv0, c + [y], i))
    {
      assert (c + [y])[..i] == c[..i];
      Mask8Prefix(k, iv0, c + [y], c, i);
    }
  }

  class State8 {
    const cipher: Cipher
    var iv: seq<byte>
    var lastiv: seq<byte>
    ghost var iv0: seq<byte>
    ghost var data: seq<byte>
    ghost var sealed: seq<byte>

    ghost predicate Valid()
      reads this
    {
      && cipher.Valid() && |iv0| == |lastiv| == cipher.bs && Related8(cipher, iv0, data, sealed)
      && iv == (iv0 + sealed)[|sealed|..]
    }

    constructor (cipher: Cipher, iv: seq<byte>)
      requires cipher.Valid() && |iv| == cipher.bs
      ensures Valid() && data == sealed == [] && iv0 == iv
    {
      this.cipher, this.iv, lastiv, iv0, data, sealed := cipher, iv, ZeroBytes(cipher.bs), iv, [], [];
    }

    /** Shifts the IV by one octet and appends a ciphertext octet. */
    method ShiftIn(b: byte)
      requires |iv| > 0
      modifies this`iv
      ensures iv == old(iv)[1..] + [b]
    {
      ghost var v := iv;
      var i := 0;
      while i < |iv| - 1
        invariant 0 <= i < |iv| == |v|
        invariant forall j :: 0 <= j < |v| ==> iv[j] == if j < i then v[1..][j] else v[j]
      {
        iv := iv[i := iv[i + 1]];
        i := i + 1;
      }
      iv := iv[|iv| - 1 := b];
      assert iv == v[1..] + [b];
    }

    /** _gcry_cipher_cfb8_encrypt and _gcry_cipher_cfb8_decrypt, in place or not. */
    method Crypt(decrypt: bool, outbuf: array<byte>, op: nat, outbuflen: nat, inbuf: array<byte>, ip: nat, inbuflen: nat)
      returns (st: Status, ghost out: seq<byte>)
      requires Valid() && op + outbuflen <= outbuf.Length && ip + inbuflen <= inbuf.Length && Separate(outbuf, op, inbuf, ip)
      modifies this`iv, this`lastiv, this`data, this`sealed, outbuf
      ensures Valid() && st == if outbuflen < inbuflen then BufferTooShort else Ok
      ensures st != Ok ==> unchanged(this) && outbuf[..] == old(outbuf[..])
      ensures st == Ok ==> |out| == inbuflen && outbuf[..] == Splice(old(outbuf[..]), op, out)
      ensures st == Ok ==> Taken(decrypt, old(data), old(sealed), data, sealed, old(inbuf[ip..ip + inbuflen]), out)
    {
      hide Taken, Splice, Related8, Mask8, XorByte;
      out := [];
      if outbuflen < inbuflen {
        return BufferTooShort, out;
      }
      ghost var out0, in0, d0, c0 := outbuf[..], inbuf[..], data, sealed;
      ghost var input := in0[ip..ip + inbuflen];
      assert input == inbuf[ip..ip + inbuflen];
      SpliceNothing(out0, op);
      TakenNothing(decrypt, d0, c0, input);
      var done := 0;
      while done < inbuflen
        invariant 0 <= done <= inbuflen && |out| == done && Valid()
        invariant Progress(outbuf, out0, op, inbuf, in0, ip, inbuflen, out)
        invariant Taken(decrypt, d0, c0, data, sealed, input[..done], out)
      {
        ghost var d1, c1 := data, sealed;
        ghost var y := One(decrypt, outbuf, out0, op, inbuf, in0, ip, inbuflen, out, done);
        TakenMore(decrypt, d0, c0, d1, c1, input, done, done + 1, out, y);
        out := out + y;
        done := done + 1;
      }
      assert input[..inbuflen] == input;
      return Ok, out;
    }

    method One(decrypt: bool, outbuf: array<byte>, ghost out0: seq<byte>, op: nat, inbuf: array<byte>, ghost in0: seq<byte>, ip: nat,
               ghost total: nat, ghost out: seq<byte>, done: nat) returns (ghost y: seq<byte>)
      requires Valid() && Progress(outbuf, out0, op, inbuf, in0, ip, total, out) && done == |out| < total
      modifies this`iv, this`lastiv, this`data, this`sealed, outbuf
      ensures Valid() && |y| == 1 && Progress(outbuf, out0, op, inbuf, in0, ip, total, out + y)
      ensures var x := in0[ip..ip + total][done..done + 1];
              data == old(data) + (if decrypt then y else x) && sealed == old(sealed) + if decrypt then x else y
    {
      hide Progress, Related8, XorByte;
      NextInput(outbuf, out0, op, inbuf, in0, ip, total, out, 1);
      var x := inbuf[ip + done];
      assert inbuf[ip + done..ip + done + 1] == [x];
      lastiv := cipher.enc(iv);
      assert iv == (iv0 + sealed)[|sealed|..|sealed| + cipher.bs];
      var z := XorByte(x, lastiv[0]);
      PutMore(outbuf, out0, op, inbuf, in0, ip, total, out, op + done, [z]);
      y := [z];
      if decrypt {
        ghost var m := lastiv[0];
        XorByteLaws(x, m, m);
        XorByteLaws(m, m, m);
        Step8(cipher, iv0, data, sealed, z, x);
        ShiftIn(x);
        data, sealed := data + [z], sealed + [x];
      } else {
        Step8(cipher, iv0, data, sealed, x, z);
        ShiftIn(z);
        data, sealed := data + [x], sealed + [z];
      }
    }
  }
}
