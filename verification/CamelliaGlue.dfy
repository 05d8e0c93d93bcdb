/** _gcry_camellia_ocb_crypt and _gcry_camellia_ocb_auth of camellia-glue.c: batches of 64, 32 and 16
    blocks with L-pointer arrays, then the generic bulk loops for what is left. */
module CamelliaGlue {
  import opened Buffering
  import opened Bytes
  import opened CipherBlock
  import opened BitHelp
  import opened OcbBulk
  import opened Rfc7253
  import B = Bulk
  import O = Ocb

  // ---- encryption and decryption ----

  /** How far a call has come: c has been put out for the first octets of data, up to block blkn, the
      offset is that of this block, and the checksum has taken in the plaintext. */
  ghost predicate Run(f: seq<byte> -> seq<byte>, encrypt: bool, lstar: Block, start: Block, first: nat, blkn: nat, data: seq<byte>,
                      sum0: Block, c: seq<byte>, iv: Block, sum: Block)
  {
    && first <= blkn && |c| == 16 * (blkn - first) && |c| <= |data| && iv == Offset(lstar, start, blkn)
    && c == CryptFull(f, lstar, start, first, data[..|c|]) && B.Summed(sum0, sum, if encrypt then data[..|c|] else c)
  }

  lemma RunMore(f: seq<byte> -> seq<byte>, encrypt: bool, lstar: Block, start: Block, first: nat, blkn: nat, data: seq<byte>,
                sum0: Block, c: seq<byte>, iv: Block, sum: Block, y: seq<byte>, iv': Block, sum': Block, x: seq<byte>, n: nat)
    requires Run(f, encrypt, lstar, start, first, blkn, data, sum0, c, iv, sum) && |x| == 16 * n && |c| + |x| <= |data|
    requires x == data[|c|..|c| + |x|] && y == CryptFull(f, lstar, start, blkn, x)
    requires iv' == Offset(lstar, start, blkn + n) && B.Summed(sum, sum', if encrypt then x else y)
    ensures Run(f, encrypt, lstar, start, first, blkn + n, data, sum0, c + y, iv', sum')
  {
    hide CryptFull, Offset, B.Summed;
    var before := data[..|c|];
    PrefixGrows(data, |c|, |c| + |x|, x);
    SplitBlocks(f, lstar, start, first, blkn, before, x);
    SummedMore(sum0, sum, if encrypt then before else c, sum', if encrypt then x else y);
  }

  lemma SplitBlocks(f: seq<byte> -> seq<byte>, lstar: Block, start: Block, first: nat, blkn: nat, p: seq<byte>, q: seq<byte>)
    requires first <= blkn && |p| == 16 * (blkn - first) && |q| % 16 == 0
    ensures |p + q| % 16 == 0
    ensures CryptFull(f, lstar, start, first, p + q) == CryptFull(f, lstar, start, first, p) + CryptFull(f, lstar, start, blkn, q)
  {
    hide CryptFull;
    CryptFullSplit(f, lstar, start, first, p, q);
  }

  lemma SummedMore(sum0: Block, sum: Block, s: seq<byte>, sum': Block, t: seq<byte>)
    requires B.Summed(sum0, sum, s) && B.Summed(sum, sum', t)
    ensures B.Summed(sum0, sum', s + t)
  {
    hide Xor, Checksum;
    B.SumConcat(sum0, s, t);
  }

  lemma WholeSum(m: nat, n: nat)
    requires m % 16 == 0 && n % 16 == 0
    ensures (m + n) % 16 == 0 && m / 16 + n / 16 == (m + n) / 16
  {
  }

  lemma RunNothing(f: seq<byte> -> seq<byte>, encrypt: bool, lstar: Block, start: Block, first: nat, data: seq<byte>, sum0: Block)
    ensures Run(f, encrypt, lstar, start, first, first, data, sum0, [], Offset(lstar, start, first), sum0)
  {
    hide Offset, Xor;
    assert data[..0] == [];
    B.NoSum(sum0);
  }

  /** A batch function: before block j it adds the L of slot j to the offset. */
  method Kernel(f: seq<byte> -> seq<byte>, encrypt: bool, l: seq<Block>, ls: array<nat>, x: seq<byte>, iv0: Block, sum0: Block,
                ghost lstar: Block, ghost start: Block, ghost blkn: nat) returns (iv: Block, sum: Block, y: seq<byte>)
    requires B.OnBlocks(f) && |l| == 16 && forall i :: 0 <= i < 16 ==> l[i] == L(lstar, i)
    requires Ready(ls, blkn) && forall j :: 0 <= j < ls.Length ==> ls[j] < 16
    requires iv0 == Offset(lstar, start, blkn) && |x| == 16 * ls.Length
    ensures iv == Offset(lstar, start, blkn + ls.Length) && y == CryptFull(f, lstar, start, blkn, x)
    ensures B.Summed(sum0, sum, if encrypt then x else y)
  {
    hide Xor, L, Ntz, Offset, CryptFull, Checksum, CryptBlock;
    iv, sum, y := iv0, sum0, [];
    O.NoBlocks(f, lstar, start, blkn);
    B.NoSum(sum0);
    assert x[..0] == [];
    var j := 0;
    while j < ls.Length
      invariant j <= ls.Length && iv == Offset(lstar, start, blkn + j) && |y| == 16 * j
      invariant y == CryptFull(f, lstar, start, blkn, x[..16 * j])
      invariant B.Summed(sum0, sum, if encrypt then x[..16 * j] else y)
    {
      O.NextOffset(lstar, start, blkn + j);
      iv := Xor(iv, l[ls[j]]);
      var p := x[16 * j..16 * j + 16];
      var c := Xor(f(Xor(iv, p)), iv);
      O.NextBlock(f, lstar, start, blkn, x, j);
      O.BlockOf(f, lstar, start, blkn + j + 1, p, iv);
      PrefixGrows(x, 16 * j, 16 * j + 16, p);
      if encrypt {
        B.SumNext(sum0, x[..16 * j], p);
      } else {
        B.SumNext(sum0, y, c);
      }
      sum := Xor(sum, if encrypt then p else c);
      y := y + c;
      j := j + 1;
    }
    assert x[..16 * j] == x;
  }

  /** One loop: while a full batch remains, advance the block number, patch the one slot whose block is
      a multiple of the batch size, and run the kernel. */
  method Batches(f: seq<byte> -> seq<byte>, encrypt: bool, l: seq<Block>, ls: array<nat>, slot: nat, iv0: Block, sum1: Block,
                 blkn0: nat, nblocks0: nat, outbuf: array<byte>, ghost out0: seq<byte>, op: nat, inbuf: array<byte>,
                 ghost in0: seq<byte>, ip: nat, done0: nat, ghost lstar: Block, ghost start: Block, ghost first: nat,
                 ghost data: seq<byte>, ghost sum0: Block, ghost c0: seq<byte>)
      returns (iv: Block, sum: Block, blkn: nat, nblocks: nat, done: nat, ghost c: seq<byte>)
    requires B.OnBlocks(f) && ls.Length in {8, 16, 32, 64} && |l| == 16 && forall i :: 0 <= i < 16 ==> l[i] == L(lstar, i)
    requires Pattern(View(ls, ls.Length - blkn0 % ls.Length))
    requires slot == Slot(ls.Length, ls.Length - blkn0 % ls.Length, ls.Length - 1)
    requires blkn0 % 0x1_0000 + nblocks0 < 0x1_0000 && done0 == |c0|
    requires Progress(outbuf, out0, op, inbuf, in0, ip, |data|, c0) && data == in0[ip..ip + |data|] && |data| == done0 + 16 * nblocks0
    requires Run(f, encrypt, lstar, start, first, blkn0, data, sum0, c0, iv0, sum1)
    modifies ls, outbuf
    ensures nblocks < ls.Length && blkn0 <= blkn && blkn + nblocks == blkn0 + nblocks0
    ensures Progress(outbuf, out0, op, inbuf, in0, ip, |data|, c) && |data| == done + 16 * nblocks && done == |c|
    ensures Run(f, encrypt, lstar, start, first, blkn, data, sum0, c, iv, sum)
  {
    hide Ntz, Slot, L, View, Pattern, Ready, Progress, CryptFull, Offset, B.Summed, Run;
    iv, sum, blkn, nblocks, done, c := iv0, sum1, blkn0, nblocks0, done0, c0;
    ghost var r := blkn0 % ls.Length;
    while nblocks >= ls.Length
      invariant 0 <= nblocks && blkn + nblocks == blkn0 + nblocks0 && blkn % ls.Length == r && blkn >= blkn0
      invariant Pattern(View(ls, ls.Length - r))
      invariant |data| == done + 16 * nblocks && done == |c|
      invariant Progress(outbuf, out0, op, inbuf, in0, ip, |data|, c)
      invariant Run(f, encrypt, lstar, start, first, blkn, data, sum0, c, iv, sum)
    {
      SameRemainder(blkn0, nblocks0, blkn, nblocks, ls.Length);
      Patch(ls, slot, blkn);
      iv, sum, done, c := OneBatch(f, encrypt, l, ls, iv, sum, blkn, outbuf, out0, op, inbuf, in0, ip, done, lstar, start, first, data, sum0, c);
      blkn := blkn + ls.Length;
      nblocks := nblocks - ls.Length;
    }
  }

  /** The kernel on the next blocks of the buffers. */
  method OneBatch(f: seq<byte> -> seq<byte>, encrypt: bool, l: seq<Block>, ls: array<nat>, iv0: Block, sum1: Block,
                  ghost blkn: nat, outbuf: array<byte>, ghost out0: seq<byte>, op: nat, inbuf: array<byte>,
                  ghost in0: seq<byte>, ip: nat, done0: nat, ghost lstar: Block, ghost start: Block, ghost first: nat,
                  ghost data: seq<byte>, ghost sum0: Block, ghost c0: seq<byte>)
      returns (iv: Block, sum: Block, done: nat, ghost c: seq<byte>)
    requires B.OnBlocks(f) && |l| == 16 && forall i :: 0 <= i < 16 ==> l[i] == L(lstar, i)
    requires Ready(ls, blkn) && forall j :: 0 <= j < ls.Length ==> ls[j] < 16
    requires done0 == |c0| && done0 + 16 * ls.Length <= |data|
    requires Progress(outbuf, out0, op, inbuf, in0, ip, |data|, c0) && data == in0[ip..ip + |data|]
    requires Run(f, encrypt, lstar, start, first, blkn, data, sum0, c0, iv0, sum1)
    modifies outbuf
    ensures done == |c| == done0 + 16 * ls.Length
    ensures Progress(outbuf, out0, op, inbuf, in0, ip, |data|, c)
    ensures Run(f, encrypt, lstar, start, first, blkn + ls.Length, data, sum0, c, iv, sum)
  {
    hide Ntz, L, Ready, Progress, CryptFull, Offset, B.Summed, Run;
    var n := 16 * ls.Length;
    RunOffset(f, encrypt, lstar, start, first, blkn, data, sum0, c0, iv0, sum1);
    NextInput(outbuf, out0, op, inbuf, in0, ip, |data|, c0, n);
    var x := inbuf[ip + done0..ip + done0 + n];
    var y;
    iv, sum, y := Kernel(f, encrypt, l, ls, x, iv0, sum1, lstar, start, blkn);
    PutMore(outbuf, out0, op, inbuf, in0, ip, |data|, c0, op + done0, y);
    RunMore(f, encrypt, lstar, start, first, blkn, data, sum0, c0, iv0, sum1, y, iv, sum, x, ls.Length);
    done := done0 + n;
    c := c0 + y;
  }

  lemma RunOffset(f: seq<byte> -> seq<byte>, encrypt: bool, lstar: Block, start: Block, first: nat, blkn: nat, data: seq<byte>,
                  sum0: Block, c: seq<byte>, iv: Block, sum: Block)
    requires Run(f, encrypt, lstar, start, first, blkn, data, sum0, c, iv, sum)
    ensures iv == Offset(lstar, start, blkn) && |c| % 16 == 0
  {
  }

  /** One of the paths, if the processor has it and enough blocks remain. */
  method Path(use: bool, size: nat, f: seq<byte> -> seq<byte>, encrypt: bool, t: O.Table, iv0: Block, sum1: Block,
              blkn0: nat, nblocks0: nat, outbuf: array<byte>, ghost out0: seq<byte>, op: nat, inbuf: array<byte>,
              ghost in0: seq<byte>, ip: nat, done0: nat, ghost start: Block, ghost first: nat, ghost data: seq<byte>,
              ghost sum0: Block, ghost c0: seq<byte>)
      returns (iv: Block, sum: Block, blkn: nat, nblocks: nat, done: nat, ghost c: seq<byte>)
    requires B.OnBlocks(f) && O.TableOk(t) && size in {16, 32, 64} && blkn0 % 0x1_0000 + nblocks0 < 0x1_0000 && done0 == |c0|
    requires Progress(outbuf, out0, op, inbuf, in0, ip, |data|, c0) && data == in0[ip..ip + |data|] && |data| == done0 + 16 * nblocks0
    requires Run(f, encrypt, t.lStar, start, first, blkn0, data, sum0, c0, iv0, sum1)
    modifies outbuf
    ensures (use ==> nblocks < size) && blkn0 <= blkn && blkn + nblocks == blkn0 + nblocks0
    ensures Progress(outbuf, out0, op, inbuf, in0, ip, |data|, c) && |data| == done + 16 * nblocks && done == |c|
    ensures Run(f, encrypt, t.lStar, start, first, blkn, data, sum0, c, iv, sum)
  {
    hide Slot, View, Pattern, L, Progress, Run;
    iv, sum, blkn, nblocks, done, c := iv0, sum1, blkn0, nblocks0, done0, c0;
    if use && nblocks >= size {
      var ls := new nat[size];
      var slot := Prepare(ls, blkn);
      iv, sum, blkn, nblocks, done, c := Batches(f, encrypt, t.l, ls, slot, iv, sum, blkn, nblocks, outbuf, out0, op, inbuf, in0, ip, done,
                                                 t.lStar, start, first, data, sum0, c);
    }
  }

  method Prepare(ls: array<nat>, blkn: nat) returns (slot: nat)
    requires ls.Length in {16, 32, 64}
    modifies ls
    ensures Pattern(View(ls, ls.Length - blkn % ls.Length))
    ensures slot == Slot(ls.Length, ls.Length - blkn % ls.Length, ls.Length - 1)
  {
    hide Slot, View, Pattern;
    if ls.Length == 64 {
      slot := Prepare64(ls, blkn);
    } else if ls.Length == 32 {
      slot := Prepare32(ls, blkn);
    } else {
      slot := Prepare16(ls, blkn);
    }
  }

  /** _gcry_camellia_ocb_crypt: 64, 32 and 16 blocks at a time, each path used when the processor has it
      and enough blocks remain; the generic loop does the rest. */
  method OcbCrypt(f: seq<byte> -> seq<byte>, encrypt: bool, t: O.Table, use64: bool, use32: bool, use16: bool,
                  ghost start: Block, iv0: Block, sum0: Block, blkn0: nat,
                  outbuf: array<byte>, op: nat, inbuf: array<byte>, ip: nat, nblocks0: nat, ghost data: seq<byte>)
      returns (iv: Block, sum: Block, blkn: nat)
    requires B.OnBlocks(f) && O.TableOk(t) && iv0 == Offset(t.lStar, start, blkn0) && blkn0 % 0x1_0000 + nblocks0 < 0x1_0000
    requires op + 16 * nblocks0 <= outbuf.Length && ip + 16 * nblocks0 <= inbuf.Length
    requires Separate(outbuf, op, inbuf, ip) && data == inbuf[ip..ip + 16 * nblocks0]
    modifies outbuf
    ensures |data| % 16 == 0 && blkn == blkn0 + nblocks0 && iv == Offset(t.lStar, start, blkn)
    ensures var c := CryptFull(f, t.lStar, start, blkn0, data);
            outbuf[..] == Splice(old(outbuf[..]), op, c) && sum == Xor(sum0, Checksum(if encrypt then data else c))
  {
    hide L, Offset, Progress, Run, CryptFull, Checksum, Xor, Splice, O.TableOk;
    ghost var out0, in0 := outbuf[..], inbuf[..];
    assert data == in0[ip..ip + |data|];
    B.Starts(outbuf, op, inbuf, ip, |data|);
    RunNothing(f, encrypt, t.lStar, start, blkn0, data, sum0);
    ghost var c: seq<byte> := [];
    var nblocks, done := nblocks0, 0;
    iv, sum, blkn, nblocks, done, c := Path(use64, 64, f, encrypt, t, iv0, sum0, blkn0, nblocks, outbuf, out0, op, inbuf, in0, ip, done, start, blkn0, data, sum0, c);
    Rest(blkn0, nblocks0, blkn, nblocks);
    iv, sum, blkn, nblocks, done, c := Path(use32, 32, f, encrypt, t, iv, sum, blkn, nblocks, outbuf, out0, op, inbuf, in0, ip, done, start, blkn0, data, sum0, c);
    Rest(blkn0, nblocks0, blkn, nblocks);
    iv, sum, blkn, nblocks, done, c := Path(use16, 16, f, encrypt, t, iv, sum, blkn, nblocks, outbuf, out0, op, inbuf, in0, ip, done, start, blkn0, data, sum0, c);
    Rest(blkn0, nblocks0, blkn, nblocks);
    iv, sum, blkn := Generic(f, encrypt, t, start, iv, sum, blkn, outbuf, out0, op, inbuf, in0, ip, done, nblocks, blkn0, data, sum0, c);
  }

  /** bulk_ocb_crypt_128 on what is left, with 32 blocks of tmpbuf. */
  method Generic(f: seq<byte> -> seq<byte>, encrypt: bool, t: O.Table, ghost start: Block, iv0: Block, sum1: Block, blkn0: nat,
                 outbuf: array<byte>, ghost out0: seq<byte>, op: nat, inbuf: array<byte>, ghost in0: seq<byte>, ip: nat, done: nat,
                 nblocks: nat, ghost first: nat, ghost data: seq<byte>, ghost sum0: Block, ghost c0: seq<byte>)
      returns (iv: Block, sum: Block, blkn: nat)
    requires B.OnBlocks(f) && O.TableOk(t) && blkn0 % 0x1_0000 + nblocks < 0x1_0000
    requires Progress(outbuf, out0, op, inbuf, in0, ip, |data|, c0) && data == in0[ip..ip + |data|]
    requires |data| == done + 16 * nblocks && done == |c0|
    requires Run(f, encrypt, t.lStar, start, first, blkn0, data, sum0, c0, iv0, sum1)
    modifies outbuf
    ensures |data| % 16 == 0 && blkn == blkn0 + nblocks && iv == Offset(t.lStar, start, blkn)
    ensures var c := CryptFull(f, t.lStar, start, first, data);
            op + |data| <= |out0| && outbuf[..] == Splice(out0, op, c) && sum == Xor(sum0, Checksum(if encrypt then data else c))
  {
    hide L, Offset, Progress, Run, CryptFull, Checksum, Xor, Splice, O.TableOk;
    RunOffset(f, encrypt, t.lStar, start, first, blkn0, data, sum0, c0, iv0, sum1);
    NextInput(outbuf, out0, op, inbuf, in0, ip, |data|, c0, 16 * nblocks);
    B.Ends(outbuf, out0, op, inbuf, in0, ip, |data|, c0);
    ghost var x := data[done..done + 16 * nblocks];
    Apart(outbuf, out0, op, inbuf, in0, ip, |data|, c0);
    var tmpbuf := new byte[512];
    iv, sum, blkn := B.BulkOcb(f, encrypt, t, start, iv0, sum1, blkn0, outbuf, op + done, inbuf, ip + done, nblocks, tmpbuf, 32, x);
    ghost var y := CryptFull(f, t.lStar, start, blkn0, x);
    SpliceMore(out0, op, c0, y);
    RunMore(f, encrypt, t.lStar, start, first, blkn0, data, sum0, c0, iv0, sum1, y, iv, sum, x, nblocks);
    RunAll(f, encrypt, t.lStar, start, first, blkn, data, sum0, c0 + y, iv, sum);
  }

  lemma Apart(outbuf: array<byte>, out0: seq<byte>, op: nat, inbuf: array<byte>, in0: seq<byte>, ip: nat, total: nat, c: seq<byte>)
    requires Progress(outbuf, out0, op, inbuf, in0, ip, total, c)
    ensures Separate(outbuf, op, inbuf, ip)
  {
  }

  lemma RunAll(f: seq<byte> -> seq<byte>, encrypt: bool, lstar: Block, start: Block, first: nat, blkn: nat, data: seq<byte>,
               sum0: Block, c: seq<byte>, iv: Block, sum: Block)
    requires Run(f, encrypt, lstar, start, first, blkn, data, sum0, c, iv, sum) && |c| == |data|
    ensures |data| % 16 == 0 && c == CryptFull(f, lstar, start, first, data)
    ensures sum == Xor(sum0, Checksum(if encrypt then data else c))
  {
    hide CryptFull, Checksum, Xor;
    assert data[..|c|] == data;
  }

  // ---- associated data ----

  /** The sum and offset of HASH after whole blocks. */
  ghost predicate Hashed(k: Cipher, lstar: Block, a: seq<byte>, offset: Block, sum: Block)
    requires k.Valid() && k.bs == 16
  {
    |a| % 16 == 0 && offset == Offset(lstar, ZeroBytes(16), |a| / 16) && sum == AadSum(k, lstar, a)
  }

  lemma HashedMore(k: Cipher, lstar: Block, a: seq<byte>, offset: Block, sum: Block, b: Block, next: Block, sum': Block)
    requires k.Valid() && k.bs == 16 && Hashed(k, lstar, a, offset, sum)
    requires next == Xor(offset, L(lstar, Ntz(|a| / 16 + 1))) && sum' == Xor(sum, k.enc(Xor(next, b)))
    ensures Hashed(k, lstar, a + b, next, sum')
  {
    hide Xor, L, Ntz;
    assert (a + b)[..|a|] == a && (a + b)[|a|..] == b && |a + b| / 16 == |a| / 16 + 1;
  }

  /** A batch function for associated data. */
  method AuthKernel(k: Cipher, l: seq<Block>, ls: array<nat>, x: seq<byte>, offset0: Block, sum0: Block, ghost lstar: Block,
                    ghost a: seq<byte>) returns (offset: Block, sum: Block)
    requires k.Valid() && k.bs == 16 && |l| == 16 && forall i :: 0 <= i < 16 ==> l[i] == L(lstar, i)
    requires Ready(ls, |a| / 16) && (forall j :: 0 <= j < ls.Length ==> ls[j] < 16) && |x| == 16 * ls.Length
    requires Hashed(k, lstar, a, offset0, sum0)
    ensures Hashed(k, lstar, a + x, offset, sum)
  {
    hide Xor, L, Ntz, Hashed;
    offset, sum := offset0, sum0;
    assert x[..0] == [] && a + [] == a;
    assert |a| % 16 == 0 by { HashedWhole(k, lstar, a, offset0, sum0); }
    var j := 0;
    while j < ls.Length
      invariant j <= ls.Length && Hashed(k, lstar, a + x[..16 * j], offset, sum)
    {
      ghost var was, offset1, sum1 := a + x[..16 * j], offset, sum;
      var b := x[16 * j..16 * j + 16];
      offset := Xor(offset, l[ls[j]]);
      sum := Xor(sum, k.enc(Xor(offset, b)));
      WholeSum(|a|, 16 * j);
      HashedMore(k, lstar, was, offset1, sum1, b, offset, sum);
      PrefixGrows(x, 16 * j, 16 * j + 16, b);
      ConcatAssociates(a, x[..16 * j], b);
      j := j + 1;
    }
    assert x[..16 * j] == x;
  }

  lemma HashedWhole(k: Cipher, lstar: Block, a: seq<byte>, offset: Block, sum: Block)
    requires k.Valid() && k.bs == 16 && Hashed(k, lstar, a, offset, sum)
    ensures |a| % 16 == 0
  {
  }

  method AuthBatches(k: Cipher, l: seq<Block>, ls: array<nat>, slot: nat, offset0: Block, sum0: Block, blkn0: nat, nblocks0: nat,
                     abuf: seq<byte>, pos0: nat, ghost lstar: Block, ghost a: seq<byte>)
      returns (offset: Block, sum: Block, blkn: nat, nblocks: nat, pos: nat)
    requires k.Valid() && k.bs == 16 && ls.Length in {8, 16, 32, 64} && |l| == 16 && forall i :: 0 <= i < 16 ==> l[i] == L(lstar, i)
    requires Pattern(View(ls, ls.Length - blkn0 % ls.Length))
    requires slot == Slot(ls.Length, ls.Length - blkn0 % ls.Length, ls.Length - 1)
    requires blkn0 % 0x1_0000 + nblocks0 < 0x1_0000 && |abuf| == pos0 + 16 * nblocks0
    requires Hashed(k, lstar, a + abuf[..pos0], offset0, sum0) && |a + abuf[..pos0]| / 16 == blkn0
    modifies ls
    ensures nblocks < ls.Length && blkn0 <= blkn && blkn + nblocks == blkn0 + nblocks0 && |abuf| == pos + 16 * nblocks
    ensures Hashed(k, lstar, a + abuf[..pos], offset, sum) && |a + abuf[..pos]| / 16 == blkn
  {
    hide Ntz, Slot, L, View, Pattern, Ready, Hashed;
    offset, sum, blkn, nblocks, pos := offset0, sum0, blkn0, nblocks0, pos0;
    ghost var r := blkn0 % ls.Length;
    while nblocks >= ls.Length
      invariant 0 <= nblocks && blkn + nblocks == blkn0 + nblocks0 && blkn % ls.Length == r && blkn >= blkn0
      invariant Pattern(View(ls, ls.Length - r)) && |abuf| == pos + 16 * nblocks
      invariant Hashed(k, lstar, a + abuf[..pos], offset, sum) && |a + abuf[..pos]| / 16 == blkn
    {
      SameRemainder(blkn0, nblocks0, blkn, nblocks, ls.Length);
      Patch(ls, slot, blkn);
      var n := 16 * ls.Length;
      ghost var was := a + abuf[..pos];
      var x := abuf[pos..pos + n];
      HashedWhole(k, lstar, was, offset, sum);
      offset, sum := AuthKernel(k, l, ls, x, offset, sum, lstar, was);
      PrefixGrows(abuf, pos, pos + n, x);
      ConcatAssociates(a, abuf[..pos], x);
      WholeSum(|was|, n);
      pos := pos + n;
      blkn := blkn + ls.Length;
      nblocks := nblocks - ls.Length;
    }
  }

  /** _gcry_camellia_ocb_auth: 32 and 16 blocks at a time, then bulk_ocb_auth_128. */
  method OcbAuth(k: Cipher, t: O.Table, use32: bool, use16: bool, offset0: Block, sum0: Block, blkn0: nat, abuf: seq<byte>,
                 nblocks0: nat, ghost a: seq<byte>) returns (offset: Block, sum: Block, blkn: nat)
    requires k.Valid() && k.bs == 16 && O.TableOk(t) && blkn0 % 0x1_0000 + nblocks0 < 0x1_0000 && |abuf| == 16 * nblocks0
    requires Hashed(k, t.lStar, a, offset0, sum0) && blkn0 == |a| / 16
    ensures blkn == blkn0 + nblocks0 && Hashed(k, t.lStar, a + abuf, offset, sum)
  {
    hide Slot, View, Pattern, L, Hashed;
    offset, sum, blkn := offset0, sum0, blkn0;
    var nblocks, pos := nblocks0, 0;
    assert a + abuf[..0] == a;
    if use32 && nblocks >= 32 {
      var ls := new nat[32];
      var slot := Prepare(ls, blkn);
      offset, sum, blkn, nblocks, pos := AuthBatches(k, t.l, ls, slot, offset, sum, blkn, nblocks, abuf, pos, t.lStar, a);
    }
    Rest(blkn0, nblocks0, blkn, nblocks);
    if use16 && nblocks >= 16 {
      var ls := new nat[16];
      var slot := Prepare(ls, blkn);
      offset, sum, blkn, nblocks, pos := AuthBatches(k, t.l, ls, slot, offset, sum, blkn, nblocks, abuf, pos, t.lStar, a);
    }
    Rest(blkn0, nblocks0, blkn, nblocks);
    var tmpbuf := new byte[512];
    offset, sum, blkn := BulkOcbAuth(k, t, offset, sum, blkn, abuf[pos..], nblocks, tmpbuf, 32, a + abuf[..pos]);
    ConcatAssociates(a, abuf[..pos], abuf[pos..]);
    assert abuf[..pos] + abuf[pos..] == abuf;
  }

  // ---- bulk_ocb_auth_128 ----

  /** Offsets of the blocks of x, which follow those of a, each with its block added. */
  function Inputs(lstar: Block, n: nat, x: seq<byte>): (r: seq<byte>)
    requires |x| % 16 == 0
    ensures |r| == |x|
  {
    if x == [] then []
    else
      var m := |x| - 16;
      Inputs(lstar, n, x[..m]) + Xor(Offset(lstar, ZeroBytes(16), n + |x| / 16), x[m..])
  }

  lemma InputsNext(lstar: Block, n: nat, x: seq<byte>, b: Block)
    requires |x| % 16 == 0
    ensures Inputs(lstar, n, x + b) == Inputs(lstar, n, x) + Xor(Offset(lstar, ZeroBytes(16), n + |x| / 16 + 1), b)
  {
    hide Xor, Offset;
    assert (x + b)[..|x|] == x && (x + b)[|x|..] == b && |x + b| / 16 == |x| / 16 + 1;
  }

  /** Enciphering the inputs and adding them up continues the sum of HASH. */
  lemma {:induction false} AadSumMore(k: Cipher, lstar: Block, a: seq<byte>, x: seq<byte>)
    requires k.Valid() && k.bs == 16 && |a| % 16 == 0 && |x| % 16 == 0
    ensures B.OnBlocks(k.enc) && |a + x| % 16 == 0
    ensures AadSum(k, lstar, a + x) == Xor(AadSum(k, lstar, a), Checksum(B.Blockwise(k.enc, Inputs(lstar, |a| / 16, x))))
    decreases |x|
  {
    hide Xor, Offset, Checksum;
    if x == [] {
      assert a + x == a;
      B.NoBlocks(k.enc);
      B.NoSum(AadSum(k, lstar, a));
    } else {
      var m := |x| - 16;
      var was, b := x[..m], x[m..];
      AadSumMore(k, lstar, a, was);
      assert x == was + b;
      ConcatAssociates(a, was, b);
      AadSumStep(k, lstar, a, was, b, AadSum(k, lstar, a));
    }
  }

  lemma AadSumStep(k: Cipher, lstar: Block, a: seq<byte>, was: seq<byte>, b: Block, sum: Block)
    requires k.Valid() && k.bs == 16 && |a| % 16 == 0 && |was| % 16 == 0 && B.OnBlocks(k.enc) && |a + was| % 16 == 0
    requires AadSum(k, lstar, a + was) == Xor(sum, Checksum(B.Blockwise(k.enc, Inputs(lstar, |a| / 16, was))))
    ensures |a + was + b| % 16 == 0 && |was + b| % 16 == 0
    ensures AadSum(k, lstar, a + was + b) == Xor(sum, Checksum(B.Blockwise(k.enc, Inputs(lstar, |a| / 16, was + b))))
  {
    hide Xor, Offset, Checksum, B.Blockwise, Inputs, AadSum;
    var n := |a| / 16 + |was| / 16 + 1;
    WholeSum(|a|, |was|);
    InputsNext(lstar, |a| / 16, was, b);
    var e := Xor(Offset(lstar, ZeroBytes(16), n), b);
    B.BlockwiseNext(k.enc, Inputs(lstar, |a| / 16, was), e);
    B.SumNext(sum, B.Blockwise(k.enc, Inputs(lstar, |a| / 16, was)), k.enc(e));
    NextAad(k, lstar, a + was, b);
  }

  lemma NextAad(k: Cipher, lstar: Block, a: seq<byte>, b: Block)
    requires k.Valid() && k.bs == 16 && |a| % 16 == 0
    ensures |a + b| % 16 == 0
    ensures AadSum(k, lstar, a + b) == Xor(AadSum(k, lstar, a), k.enc(Xor(Offset(lstar, ZeroBytes(16), |a| / 16 + 1), b)))
  {
    hide Xor, Offset;
    assert (a + b)[..|a|] == a && (a + b)[|a|..] == b && |a + b| / 16 == |a| / 16 + 1;
  }

  method BulkOcbAuth(k: Cipher, t: O.Table, offset0: Block, sum0: Block, blkn0: nat, abuf: seq<byte>, nblocks0: nat,
                     tmpbuf: array<byte>, T: nat, ghost a: seq<byte>) returns (offset: Block, sum: Block, blkn: nat)
    requires k.Valid() && k.bs == 16 && O.TableOk(t) && blkn0 % 0x1_0000 + nblocks0 < 0x1_0000 && |abuf| == 16 * nblocks0
    requires 0 < T && 16 * T <= tmpbuf.Length && Hashed(k, t.lStar, a, offset0, sum0) && blkn0 == |a| / 16
    modifies tmpbuf
    ensures blkn == blkn0 + nblocks0 && Hashed(k, t.lStar, a + abuf, offset, sum)
  {
    hide Xor, Offset, AadSum, O.TableOk, Hashed;
    offset, sum, blkn := offset0, sum0, blkn0;
    var nblocks, pos := nblocks0, 0;
    assert a + abuf[..0] == a;
    while nblocks >= 1
      invariant 0 <= nblocks && blkn + nblocks == blkn0 + nblocks0 && |abuf| == pos + 16 * nblocks
      invariant Hashed(k, t.lStar, a + abuf[..pos], offset, sum) && |a + abuf[..pos]| / 16 == blkn && blkn >= blkn0
    {
      var curr := B.Batch(nblocks, T);
      var n := 16 * curr;
      Rest(blkn0, nblocks0, blkn, nblocks);
      ghost var was := a + abuf[..pos];
      HashedWhole(k, t.lStar, was, offset, sum);
      offset, sum := AuthBatch(k, t, offset, sum, blkn, abuf[pos..pos + n], tmpbuf, curr, was);
      PrefixGrows(abuf, pos, pos + n, abuf[pos..pos + n]);
      ConcatAssociates(a, abuf[..pos], abuf[pos..pos + n]);
      WholeSum(|was|, n);
      pos := pos + n;
      blkn := blkn + curr;
      nblocks := nblocks - curr;
    }
    assert abuf[..pos] == abuf;
  }

  /** One batch: the inputs go to tmpbuf, through the cipher, and into the sum. */
  method AuthBatch(k: Cipher, t: O.Table, offset0: Block, sum0: Block, blkn: nat, x: seq<byte>, tmpbuf: array<byte>, curr: nat,
                   ghost a: seq<byte>) returns (offset: Block, sum: Block)
    requires k.Valid() && k.bs == 16 && O.TableOk(t) && blkn % 0x1_0000 + curr < 0x1_0000 && |x| == 16 * curr <= tmpbuf.Length
    requires Hashed(k, t.lStar, a, offset0, sum0) && blkn == |a| / 16
    modifies tmpbuf
    ensures Hashed(k, t.lStar, a + x, offset, sum)
  {
    hide Xor, Offset, AadSum, O.TableOk, B.Blockwise, Checksum, Inputs;
    offset := AuthInputs(t, offset0, blkn, x, tmpbuf, curr);
    AadSumMore(k, t.lStar, a, x);
    B.CryptTmp(k.enc, tmpbuf, curr, Inputs(t.lStar, blkn, x));
    assert tmpbuf[0..16 * curr] == tmpbuf[..16 * curr];
    sum := B.SumBlocks(tmpbuf, 0, curr, sum0, B.Blockwise(k.enc, Inputs(t.lStar, blkn, x)));
    WholeSum(|a|, |x|);
  }

  method AuthInputs(t: O.Table, offset0: Block, blkn: nat, x: seq<byte>, tmpbuf: array<byte>, curr: nat) returns (offset: Block)
    requires O.TableOk(t) && blkn % 0x1_0000 + curr < 0x1_0000 && |x| == 16 * curr <= tmpbuf.Length
    requires offset0 == Offset(t.lStar, ZeroBytes(16), blkn)
    modifies tmpbuf
    ensures |x| % 16 == 0 && offset == Offset(t.lStar, ZeroBytes(16), blkn + curr)
    ensures tmpbuf[..16 * curr] == Inputs(t.lStar, blkn, x)
  {
    hide Xor, Offset, O.TableOk, Inputs, L, Ntz;
    offset := offset0;
    assert x[..0] == [] && tmpbuf[..0] == [];
    NoInputs(t.lStar, blkn);
    var i := 0;
    while i < curr
      invariant 0 <= i <= curr && offset == Offset(t.lStar, ZeroBytes(16), blkn + i)
      invariant tmpbuf[..16 * i] == Inputs(t.lStar, blkn, x[..16 * i])
    {
      B.SmallNumber(blkn, i, curr);
      var l := O.GetL(t, blkn + i + 1);
      O.NextOffset(t.lStar, ZeroBytes(16), blkn + i);
      offset := Xor(offset, l);
      var b := x[16 * i..16 * i + 16];
      InputsNext(t.lStar, blkn, x[..16 * i], b);
      PrefixGrows(x, 16 * i, 16 * i + 16, b);
      B.PutTmp(tmpbuf, 16 * i, Xor(offset, b));
      i := i + 1;
    }
    assert x[..16 * curr] == x;
  }

  lemma NoInputs(lstar: Block, n: nat)
    ensures Inputs(lstar, n, []) == []
  {
  }
}
