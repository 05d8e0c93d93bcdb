/** bulkhelp.h: the bulk loops, which run a block function over batches of up to tmpbuf_nblocks blocks,
    against the modes taken a block at a time. */
module Bulk {
  import opened Buffering
  import opened Bytes
  import opened CipherBlock
  import opened Counter
  import Cbc
  import Cfb
  import GF = GaloisField
  import O = Ocb
  import R = Rfc8452
  import V = Rfc7253
  import W = BitWords

  // ---- a function on blocks, applied to several ----

  ghost predicate OnBlocks(f: seq<byte> -> seq<byte>) {
    forall b: seq<byte> {:trigger f(b)} :: |b| == 16 ==> |f(b)| == 16
  }

  function Blockwise(f: seq<byte> -> seq<byte>, s: seq<byte>): (r: seq<byte>)
    requires |s| % 16 == 0 && OnBlocks(f)
    ensures |r| == |s|
  {
    if s == [] then [] else Blockwise(f, s[..|s| - 16]) + f(s[|s| - 16..])
  }

  lemma BlockwiseNext(f: seq<byte> -> seq<byte>, s: seq<byte>, b: seq<byte>)
    requires |s| % 16 == 0 && OnBlocks(f) && |b| == 16
    ensures Blockwise(f, s + b) == Blockwise(f, s) + f(b)
  {
    assert (s + b)[..|s|] == s && (s + b)[|s|..] == b;
  }

  lemma {:induction false} BlockwiseConcat(f: seq<byte> -> seq<byte>, s: seq<byte>, t: seq<byte>)
    requires |s| % 16 == 0 && |t| % 16 == 0 && OnBlocks(f)
    ensures |s + t| % 16 == 0 && Blockwise(f, s + t) == Blockwise(f, s) + Blockwise(f, t)
    decreases |t|
  {
    if t == [] {
      assert s + t == s;
    } else {
      var n := |t| - 16;
      assert t == t[..n] + t[n..];
      ConcatAssociates(s, t[..n], t[n..]);
      BlockwiseConcat(f, s, t[..n]);
      BlockwiseNext(f, s + t[..n], t[n..]);
      BlockwiseNext(f, t[..n], t[n..]);
    }
  }

  /** crypt_fn: from one buffer to another, or in place. */
  method CryptFn(f: seq<byte> -> seq<byte>, dst: array<byte>, dp: nat, src: array<byte>, sp: nat, n: nat, ghost s: seq<byte>)
    requires OnBlocks(f) && dp + 16 * n <= dst.Length && sp + 16 * n <= src.Length && Separate(dst, dp, src, sp)
    requires s == src[sp..sp + 16 * n]
    modifies dst
    ensures |s| % 16 == 0 && dst[..] == Splice(old(dst[..]), dp, Blockwise(f, s))
  {
    hide Blockwise, Progress;
    ghost var d0, s0 := dst[..], src[..];
    assert s == s0[sp..sp + 16 * n];
    SpliceNothing(d0, dp);
    NoBlocks(f);
    assert Progress(dst, d0, dp, src, s0, sp, 16 * n, []) by { Starts(dst, dp, src, sp, 16 * n); }
    assert s[..0] == [];
    var i := 0;
    while i < n
      invariant 0 <= i <= n && Progress(dst, d0, dp, src, s0, sp, 16 * n, Blockwise(f, s[..16 * i]))
    {
      NextInput(dst, d0, dp, src, s0, sp, 16 * n, Blockwise(f, s[..16 * i]), 16);
      var b := src[sp + 16 * i..sp + 16 * i + 16];
      BlockwiseNext(f, s[..16 * i], b);
      PrefixGrows(s, 16 * i, 16 * i + 16, b);
      PutMore(dst, d0, dp, src, s0, sp, 16 * n, Blockwise(f, s[..16 * i]), dp + 16 * i, f(b));
      i := i + 1;
    }
    assert s[..16 * n] == s;
    Ends(dst, d0, dp, src, s0, sp, 16 * n, Blockwise(f, s));
  }

  lemma NoBlocks(f: seq<byte> -> seq<byte>)
    requires OnBlocks(f)
    ensures Blockwise(f, []) == []
  {
  }

  lemma Starts(outbuf: array<byte>, op: nat, inbuf: array<byte>, ip: nat, total: nat)
    requires op + total <= outbuf.Length && ip + total <= inbuf.Length && Separate(outbuf, op, inbuf, ip)
    ensures Progress(outbuf, outbuf[..], op, inbuf, inbuf[..], ip, total, [])
  {
    SpliceNothing(outbuf[..], op);
  }

  lemma Ends(outbuf: array<byte>, out0: seq<byte>, op: nat, inbuf: array<byte>, in0: seq<byte>, ip: nat, total: nat, out: seq<byte>)
    requires Progress(outbuf, out0, op, inbuf, in0, ip, total, out)
    ensures op + |out| <= |out0| == outbuf.Length && outbuf[..] == Splice(out0, op, out)
  {
  }

  /** A batch of masks in tmpbuf is xored onto the next blocks of input. */
  method XorBatch(outbuf: array<byte>, ghost out0: seq<byte>, op: nat, inbuf: array<byte>, ghost in0: seq<byte>, ip: nat,
                  ghost data: seq<byte>, ghost st: seq<byte>, done: nat, tmpbuf: array<byte>, n: nat)
    requires Xored(outbuf, out0, op, inbuf, in0, ip, data, st) && done == |st| && done + 16 * n <= |data|
    requires tmpbuf != outbuf && 16 * n <= tmpbuf.Length
    modifies outbuf
    ensures Xored(outbuf, out0, op, inbuf, in0, ip, data, st + tmpbuf[..16 * n])
  {
    hide Xor, Front, Splice;
    ghost var ks := tmpbuf[..16 * n];
    assert st + ks[..0] == st;
    var i := 0;
    while i < n
      invariant 0 <= i <= n && Xored(outbuf, out0, op, inbuf, in0, ip, data, st + ks[..16 * i])
    {
      ghost var now := st + ks[..16 * i];
      XoredApart(outbuf, out0, op, inbuf, in0, ip, data, now);
      XoredRead(outbuf, out0, op, inbuf, in0, ip, data, now, 16);
      assert tmpbuf[16 * i..16 * i + 16] == ks[16 * i..16 * i + 16];
      XoredPut(outbuf, out0, op, inbuf, in0, ip, data, now, ks[16 * i..16 * i + 16], op + done + 16 * i,
               Xor(inbuf[ip + done + 16 * i..ip + done + 16 * i + 16], tmpbuf[16 * i..16 * i + 16]));
      PrefixGrows(ks, 16 * i, 16 * i + 16, ks[16 * i..16 * i + 16]);
      ConcatAssociates(st, ks[..16 * i], ks[16 * i..16 * i + 16]);
      i := i + 1;
    }
    assert ks[..16 * n] == ks;
  }

  /** tmpbuf through the block function, in place. */
  method CryptTmp(f: seq<byte> -> seq<byte>, tmpbuf: array<byte>, n: nat, ghost s: seq<byte>)
    requires OnBlocks(f) && 16 * n <= tmpbuf.Length && s == tmpbuf[..16 * n]
    modifies tmpbuf
    ensures |s| % 16 == 0 && tmpbuf[..16 * n] == Blockwise(f, s)
  {
    hide Blockwise, Splice;
    ghost var t0 := tmpbuf[..];
    assert tmpbuf[0..16 * n] == tmpbuf[..16 * n];
    CryptFn(f, tmpbuf, 0, tmpbuf, 0, n, s);
    SpliceSlices(t0, 0, Blockwise(f, s));
    assert tmpbuf[..16 * n] == tmpbuf[..][0..16 * n];
  }

  method PutTmp(tmpbuf: array<byte>, at: nat, b: seq<byte>)
    requires at + |b| <= tmpbuf.Length
    modifies tmpbuf
    ensures tmpbuf[..at + |b|] == old(tmpbuf[..at]) + b
  {
    ghost var t0 := tmpbuf[..];
    Put(tmpbuf, at, b);
    assert tmpbuf[..at + |b|] == tmpbuf[..][..at + |b|] && t0[..at] == old(tmpbuf[..at]);
  }

  function Batch(nblocks: nat, T: nat): (n: nat)
    requires nblocks > 0 && T > 0
    ensures 0 < n <= nblocks && n <= T
  {
    if nblocks > T then T else nblocks
  }

  // ---- counter mode ----

  /** What cipher_block_add makes of a number of blocks: its second argument has 32 bits. */
  function Low32(n: nat): (r: nat)
    ensures r < 0x1_0000_0000 && r <= n && (n < 0x1_0000_0000 ==> r == n)
  {
    n % 0x1_0000_0000
  }

  /** n counter blocks from ctr on, as a batch has them. */
  function Counters(ctr: seq<byte>, n: nat): (s: seq<byte>)
    requires |ctr| == 16
    ensures |s| == 16 * n
  {
    if n == 0 then [] else Counters(ctr, n - 1) + AddBE(ctr, Low32(n - 1))
  }

  /** What is added to the first counter for block i, when batches have up to T blocks. */
  function Counted(T: nat, i: nat): nat
    requires T > 0
  {
    DivMod(i, T);
    var q: nat, w := i / T, Low32(T);
    q * w + Low32(i % T)
  }

  /** The masks of n blocks. */
  function CtrMasks(k: Cipher, ctr: seq<byte>, T: nat, n: nat): (s: seq<byte>)
    requires k.Valid() && k.bs == 16 == |ctr| && T > 0
    ensures |s| == 16 * n
  {
    if n == 0 then [] else CtrMasks(k, ctr, T, n - 1) + k.enc(AddBE(ctr, Counted(T, n - 1)))
  }

  /** Batches that are all full but the last one. */
  lemma CountedNext(T: nat, done: nat, m: nat)
    requires T > 0 && done % T == 0 && m <= T
    ensures Counted(T, done + m) == Counted(T, done) + Low32(m)
  {
    var q := done / T;
    DivMod(done, T);
    if m < T {
      DivModUnique(done + m, T, q, m);
    } else {
      DivModUnique(done + m, T, q + 1, 0);
      assert (q + 1) * Low32(T) == q * Low32(T) + Low32(T);
    }
  }

  /** A batch of counters, enciphered, is the next masks. */
  lemma {:induction false} BatchMasks(k: Cipher, ctr: seq<byte>, T: nat, done: nat, m: nat)
    requires k.Valid() && k.bs == 16 == |ctr| && T > 0 && done % T == 0 && m <= T
    ensures OnBlocks(k.enc)
    ensures CtrMasks(k, ctr, T, done + m) == CtrMasks(k, ctr, T, done) + Blockwise(k.enc, Counters(AddBE(ctr, Counted(T, done)), m))
    decreases m
  {
    hide AddBE, Blockwise, Counted, Low32;
    var c := AddBE(ctr, Counted(T, done));
    if m == 0 {
      NoBlocks(k.enc);
    } else {
      BatchMasks(k, ctr, T, done, m - 1);
      CountedNext(T, done, m - 1);
      AddAdd(ctr, Counted(T, done), Low32(m - 1));
      BlockwiseNext(k.enc, Counters(c, m - 1), AddBE(c, Low32(m - 1)));
    }
  }

  method FillCounters(ctr: seq<byte>, tmpbuf: array<byte>, n: nat)
    requires |ctr| == 16 && 0 < n && 16 * n <= tmpbuf.Length
    modifies tmpbuf
    ensures tmpbuf[..16 * n] == Counters(ctr, n)
  {
    hide AddBE, BlockAdd;
    AddZero(ctr);
    PutTmp(tmpbuf, 0, ctr);
    assert Counters(ctr, 1) == Counters(ctr, 0) + AddBE(ctr, 0);
    var i := 1;
    while i < n
      invariant 1 <= i <= n && tmpbuf[..16 * i] == Counters(ctr, i)
    {
      BlockAddIs(ctr, Low32(i));
      PutTmp(tmpbuf, 16 * i, BlockAdd(ctr, Low32(i)));
      i := i + 1;
    }
  }

  /** bulk_ctr_enc_128, for any number of blocks and any size of tmpbuf. */
  method BulkCtr(k: Cipher, outbuf: array<byte>, op: nat, inbuf: array<byte>, ip: nat, nblocks0: nat, ctr0: seq<byte>,
                 tmpbuf: array<byte>, T: nat, ghost data: seq<byte>) returns (ctr: seq<byte>)
    requires k.Valid() && k.bs == 16 == |ctr0| && 0 < T && 16 * T <= tmpbuf.Length
    requires tmpbuf != outbuf && tmpbuf != inbuf && Separate(outbuf, op, inbuf, ip)
    requires op + 16 * nblocks0 <= outbuf.Length && ip + 16 * nblocks0 <= inbuf.Length && data == inbuf[ip..ip + 16 * nblocks0]
    modifies outbuf, tmpbuf
    ensures ctr == AddBE(ctr0, Counted(T, nblocks0))
    ensures outbuf[..] == Splice(old(outbuf[..]), op, Xor(data, CtrMasks(k, ctr0, T, nblocks0)))
  {
    hide AddBE, BlockAdd, Blockwise, Xored, Splice, Xor, Counters, CtrMasks, Counted, Low32;
    ghost var out0, in0 := outbuf[..], inbuf[..];
    XoredNothing(outbuf, op, inbuf, ip, 16 * nblocks0);
    MasksStart(k, ctr0, T);
    ctr := ctr0;
    var nblocks, done := nblocks0, 0;
    while nblocks >= 1
      invariant 0 <= nblocks && done + nblocks == nblocks0 && (nblocks == 0 || done % T == 0)
      invariant ctr == AddBE(ctr0, Counted(T, done))
      invariant Xored(outbuf, out0, op, inbuf, in0, ip, data, CtrMasks(k, ctr0, T, done))
    {
      var curr := Batch(nblocks, T);
      FillCounters(ctr, tmpbuf, curr);
      BlockAddIs(ctr, Low32(curr));
      AddAdd(ctr0, Counted(T, done), Low32(curr));
      CountedNext(T, done, curr);
      BatchMasks(k, ctr0, T, done, curr);
      CryptTmp(k.enc, tmpbuf, curr, Counters(ctr, curr));
      ctr := BlockAdd(ctr, Low32(curr));
      XorBatch(outbuf, out0, op, inbuf, in0, ip, data, CtrMasks(k, ctr0, T, done), 16 * done, tmpbuf, curr);
      NextStart(T, done, curr, nblocks);
      nblocks := nblocks - curr;
      done := done + curr;
    }
    XoredAll(outbuf, out0, op, inbuf, in0, ip, data, CtrMasks(k, ctr0, T, nblocks0));
  }

  lemma MasksStart(k: Cipher, ctr: seq<byte>, T: nat)
    requires k.Valid() && k.bs == 16 == |ctr| && T > 0
    ensures CtrMasks(k, ctr, T, 0) == [] && AddBE(ctr, Counted(T, 0)) == ctr && 0 % T == 0
  {
    DivModUnique(0, T, 0, 0);
    AddZero(ctr);
  }

  lemma NextStart(T: nat, done: nat, curr: nat, nblocks: nat)
    requires T > 0 && nblocks > 0 && done % T == 0 && curr == Batch(nblocks, T)
    ensures nblocks == curr || (done + curr) % T == 0
  {
    DivMod(done, T);
    if nblocks > T {
      DivModUnique(done + T, T, done / T + 1, 0);
    }
  }

  lemma CountedExact(T: nat, i: nat)
    requires T > 0
    ensures T < 0x1_0000_0000 || i < 0x1_0000_0000 ==> Counted(T, i) == i
    ensures T >= 0x1_0000_0000 && i == 0x1_0000_0000 ==> Counted(T, i) == 0
  {
    var q := i / T;
    DivMod(i, T);
    if T >= 0x1_0000_0000 && i < T {
      DivModUnique(i, T, 0, i);
    } else if T == 0x1_0000_0000 == i {
      DivModUnique(i, T, 1, 0);
    } else if T < 0x1_0000_0000 {
      assert Low32(T) == T && Low32(i % T) == i % T;
    }
  }

  /** CtrMasks that count right are the key stream. */
  lemma {:induction false} MasksGiveStream(k: Cipher, ctr: seq<byte>, T: nat, n: nat)
    requires k.Valid() && k.bs == 16 == |ctr| && T > 0 && (T < 0x1_0000_0000 || n <= 0x1_0000_0000)
    ensures CtrMasks(k, ctr, T, n) == KeyStream(k, ctr, 0, 16 * n)
    decreases n
  {
    hide KeyByte, KeyStream, AddBE, Counted;
    if n == 0 {
      assert KeyStream(k, ctr, 0, 0) == [];
    } else {
      MasksGiveStream(k, ctr, T, n - 1);
      CountedExact(T, n - 1);
      StreamBlock(k, ctr, n - 1);
      StreamConcat(k, ctr, 0, 16 * (n - 1), 16);
    }
  }

  lemma {:induction false} MasksSlice(k: Cipher, ctr: seq<byte>, T: nat, n: nat, i: nat)
    requires k.Valid() && k.bs == 16 == |ctr| && T > 0 && i < n
    ensures CtrMasks(k, ctr, T, n)[16 * i..16 * i + 16] == k.enc(AddBE(ctr, Counted(T, i)))
    decreases n
  {
    hide AddBE, Counted;
    var front := CtrMasks(k, ctr, T, n - 1);
    if i == n - 1 {
      assert (front + k.enc(AddBE(ctr, Counted(T, i))))[16 * i..16 * i + 16] == k.enc(AddBE(ctr, Counted(T, i)));
    } else {
      MasksSlice(k, ctr, T, n - 1, i);
      assert CtrMasks(k, ctr, T, n)[16 * i..16 * i + 16] == front[16 * i..16 * i + 16];
    }
  }

  /** For the size of tmpbuf and a number of blocks: the output is counter mode and the counter is advanced
      by the number of blocks, for every cipher, counter and data, if and only if no batch has 2^32 blocks. */
  lemma BulkCtrExact(T: nat, n: nat)
    requires T > 0
    ensures (forall k: Cipher, ctr: seq<byte>, data: seq<byte> :: k.Valid() && k.bs == 16 == |ctr| && |data| == 16 * n ==>
               && Xor(data, CtrMasks(k, ctr, T, n)) == CtrCrypt(k, ctr, 0, data)
               && AddBE(ctr, Counted(T, n)) == AddBE(ctr, n))
       <==> T < 0x1_0000_0000 || n < 0x1_0000_0000
  {
    hide KeyByte, KeyStream, AddBE, Counted, CtrMasks, Xor;
    if T < 0x1_0000_0000 || n < 0x1_0000_0000 {
      CountedExact(T, n);
      forall k: Cipher, ctr: seq<byte>, data: seq<byte> | k.Valid() && k.bs == 16 == |ctr| && |data| == 16 * n
        ensures Xor(data, CtrMasks(k, ctr, T, n)) == CtrCrypt(k, ctr, 0, data)
      {
        MasksGiveStream(k, ctr, T, n);
      }
    } else {
      var k, ctr, data := WrongBatch(T, n);
    }
  }

  /** The block or the counter after 2^32 of a batch is the first one again. */
  lemma WrongBatch(T: nat, n: nat) returns (k: Cipher, ctr: seq<byte>, data: seq<byte>)
    requires T >= 0x1_0000_0000 && n >= 0x1_0000_0000
    ensures k.Valid() && k.bs == 16 == |ctr| && |data| == 16 * n
    ensures Xor(data, CtrMasks(k, ctr, T, n)) != CtrCrypt(k, ctr, 0, data) || AddBE(ctr, Counted(T, n)) != AddBE(ctr, n)
  {
    hide KeyByte, KeyStream, AddBE, Counted, CtrMasks, Xor;
    var i := 0x1_0000_0000;
    k, ctr, data := Identity(16), ZeroBytes(16), ZeroBytes(16 * n);
    IdentityValid(16);
    CountedExact(T, i);
    AddDiffers();
    if n > i {
      var masks, ks := CtrMasks(k, ctr, T, n), KeyStream(k, ctr, 0, 16 * n);
      MasksSlice(k, ctr, T, n, i);
      StreamSlice(k, ctr, 0, 16 * n, 16 * i, 16 * i + 16);
      StreamBlock(k, ctr, i);
      assert masks != ks;
      XorZero(masks);
      XorZero(ks);
    }
  }

  lemma AddDiffers()
    ensures AddBE(ZeroBytes(16), 0) != AddBE(ZeroBytes(16), 0x1_0000_0000)
  {
    hide BigEndian, ToBigEndian;
    var z := BigEndian(ZeroBytes(16));
    BigEndianRoundTrip(z, 16);
    BigEndianRoundTrip(z + 0x1_0000_0000, 16);
    BigEndianBound(ZeroBytes(16));
    Pow256Values();
    if z + 0x1_0000_0000 < Pow256(16) {
      DivModUnique(z + 0x1_0000_0000, Pow256(16), 0, z + 0x1_0000_0000);
    } else {
      DivModUnique(z + 0x1_0000_0000, Pow256(16), 1, z + 0x1_0000_0000 - Pow256(16));
    }
    DivModUnique(z, Pow256(16), 0, z);
  }

  // ---- counter mode with a little-endian 32-bit counter ----

  function Counters32(ctr: seq<byte>, n: nat): (s: seq<byte>)
    requires |ctr| == 16
    ensures |s| == 16 * n
  {
    if n == 0 then [] else Counters32(ctr, n - 1) + R.IncLE32(ctr, n - 1)
  }

  lemma {:induction false} Counters32GiveStream(k: Cipher, ctr: seq<byte>, n: nat)
    requires k.Valid() && k.bs == 16 == |ctr|
    ensures OnBlocks(k.enc) && Blockwise(k.enc, Counters32(ctr, n)) == R.KeyStream(k, ctr, 0, 16 * n)
  {
    hide R.KeyByte, R.KeyStream, R.IncLE32, Blockwise;
    if n == 0 {
      NoBlocks(k.enc);
    } else {
      Counters32GiveStream(k, ctr, n - 1);
      BlockwiseNext(k.enc, Counters32(ctr, n - 1), R.IncLE32(ctr, n - 1));
      R.StreamBlock(k, ctr, n - 1);
      R.StreamConcat(k, ctr, 0, 16 * (n - 1), 16);
    }
  }

  lemma IncPlus(ctr: seq<byte>, m: nat, n: nat)
    requires |ctr| == 16
    ensures R.IncLE32(R.IncLE32(ctr, m), n) == R.IncLE32(ctr, m + n)
  {
    hide LittleEndian, ToLittleEndian;
    var x := LittleEndian(ctr[..4]);
    var c := R.IncLE32(ctr, m);
    assert c[..4] == ToLittleEndian(x + m, 4) && c[4..] == ctr[4..];
    LittleEndianRoundTrip(x + m, 4);
    LittleEndianRoundTrip(LittleEndian(c[..4]) + n, 4);
    LittleEndianRoundTrip(x + m + n, 4);
    SumMod(x + m, n, Pow256(4));
    LittleEndianInjective(ToLittleEndian(LittleEndian(c[..4]) + n, 4), ToLittleEndian(x + m + n, 4));
  }

  lemma Stream32Shift(k: Cipher, ctr: seq<byte>, q: nat, len: nat)
    requires k.Valid() && k.bs == 16 == |ctr|
    ensures R.KeyStream(k, R.IncLE32(ctr, q), 0, len) == R.KeyStream(k, ctr, 16 * q, len)
  {
    hide R.IncLE32;
    forall i | 0 <= i < len
      ensures R.KeyByte(k, R.IncLE32(ctr, q), i) == R.KeyByte(k, ctr, 16 * q + i)
    {
      IncPlus(ctr, q, i / 16);
      assert (16 * q + i) / 16 == q + i / 16 && (16 * q + i) % 16 == i % 16;
    }
  }

  /** The low word of a 64-bit word plus n, its high word kept. */
  function LowWordPlus(lo: nat, n: nat): nat
    requires lo < 0x1_0000_0000_0000_0000
  {
    lo - lo % 0x1_0000_0000 + (lo % 0x1_0000_0000 + n) % 0x1_0000_0000
  }

  lemma LowWordOf(a: nat, b: nat, n: nat)
    requires a < 0x1_0000_0000 && b < 0x1_0000_0000
    ensures LowWordPlus(a + 0x1_0000_0000 * b, n) == (a + n) % 0x1_0000_0000 + 0x1_0000_0000 * b
  {
    assert (a + 0x1_0000_0000 * b) % 0x1_0000_0000 == a;
  }

  /** The 64-bit arithmetic of the loop changes the first four octets only. */
  lemma LowWordIsInc(ctr: seq<byte>, n: nat)
    requires |ctr| == 16
    ensures LittleEndian(ctr[..8]) < 0x1_0000_0000_0000_0000
    ensures ToLittleEndian(LowWordPlus(LittleEndian(ctr[..8]), n), 8) + ctr[8..] == R.IncLE32(ctr, n)
  {
    hide LittleEndian, ToLittleEndian, LowWordPlus;
    var a, b := LittleEndian(ctr[..4]), LittleEndian(ctr[4..8]);
    assert ctr[..8] == ctr[..4] + ctr[4..8];
    LittleEndianConcat(ctr[..4], ctr[4..8]);
    LittleEndianBound(ctr[..4]);
    LittleEndianBound(ctr[4..8]);
    LittleEndianBound(ctr[..8]);
    Pow256Values();
    LowWordOf(a, b, n);
    var w := ToLittleEndian(a + n, 4);
    LittleEndianRoundTrip(a + n, 4);
    LittleEndianConcat(w, ctr[4..8]);
    var v := LowWordPlus(LittleEndian(ctr[..8]), n);
    LittleEndianRoundTrip(v, 8);
    assert v == LittleEndian(w + ctr[4..8]);
    LittleEndianBound(w + ctr[4..8]);
    DivModUnique(v, 0x1_0000_0000_0000_0000, 0, v);
    LittleEndianInjective(ToLittleEndian(v, 8), w + ctr[4..8]);
    assert ctr[4..] == ctr[4..8] + ctr[8..];
    ConcatAssociates(w, ctr[4..8], ctr[8..]);
  }

  method FillCounters32(ctr: seq<byte>, tmpbuf: array<byte>, n: nat)
    requires |ctr| == 16 && 0 < n && 16 * n <= tmpbuf.Length
    modifies tmpbuf
    ensures tmpbuf[..16 * n] == Counters32(ctr, n)
  {
    hide R.IncLE32, LittleEndian, ToLittleEndian, LowWordPlus;
    R.IncStart(ctr);
    LowWordIsInc(ctr, 0);
    var lo := LittleEndian(ctr[..8]);
    PutTmp(tmpbuf, 0, ctr);
    assert Counters32(ctr, 1) == Counters32(ctr, 0) + R.IncLE32(ctr, 0);
    var i := 1;
    while i < n
      invariant 1 <= i <= n && tmpbuf[..16 * i] == Counters32(ctr, i)
    {
      LowWordIsInc(ctr, i);
      PutTmp(tmpbuf, 16 * i, ToLittleEndian(LowWordPlus(lo, i), 8) + ctr[8..]);
      i := i + 1;
    }
  }

  /** bulk_ctr32le_enc_128 is the counter mode of RFC 8452. */
  method BulkCtr32Le(k: Cipher, outbuf: array<byte>, op: nat, inbuf: array<byte>, ip: nat, nblocks0: nat, ctr0: seq<byte>,
                     tmpbuf: array<byte>, T: nat, ghost data: seq<byte>) returns (ctr: seq<byte>)
    requires k.Valid() && k.bs == 16 == |ctr0| && 0 < T && 16 * T <= tmpbuf.Length
    requires tmpbuf != outbuf && tmpbuf != inbuf && Separate(outbuf, op, inbuf, ip)
    requires op + 16 * nblocks0 <= outbuf.Length && ip + 16 * nblocks0 <= inbuf.Length && data == inbuf[ip..ip + 16 * nblocks0]
    modifies outbuf, tmpbuf
    ensures |ctr| == 16 && ctr == R.IncLE32(ctr0, nblocks0)
    ensures outbuf[..] == Splice(old(outbuf[..]), op, R.AesCtr(k, ctr0, data))
  {
    hide R.KeyByte, R.KeyStream, R.IncLE32, Blockwise, Xored, Splice, Xor, Counters32, LittleEndian, ToLittleEndian, LowWordPlus;
    ghost var out0, in0 := outbuf[..], inbuf[..];
    XoredNothing(outbuf, op, inbuf, ip, 16 * nblocks0);
    assert R.KeyStream(k, ctr0, 0, 0) == [];
    R.IncStart(ctr0);
    ctr := ctr0;
    var nblocks, done := nblocks0, 0;
    while nblocks >= 1
      invariant 0 <= nblocks && done + nblocks == nblocks0 && |ctr| == 16 && ctr == R.IncLE32(ctr0, done)
      invariant Xored(outbuf, out0, op, inbuf, in0, ip, data, R.KeyStream(k, ctr0, 0, 16 * done))
    {
      var curr := Batch(nblocks, T);
      FillCounters32(ctr, tmpbuf, curr);
      IncPlus(ctr0, done, curr);
      Counters32GiveStream(k, ctr, curr);
      Stream32Shift(k, ctr0, done, 16 * curr);
      R.StreamConcat(k, ctr0, 0, 16 * done, 16 * curr);
      CryptTmp(k.enc, tmpbuf, curr, Counters32(ctr, curr));
      ctr := NextCounter32(ctr, curr);
      XorBatch(outbuf, out0, op, inbuf, in0, ip, data, R.KeyStream(k, ctr0, 0, 16 * done), 16 * done, tmpbuf, curr);
      nblocks := nblocks - curr;
      done := done + curr;
    }
    XoredAll(outbuf, out0, op, inbuf, in0, ip, data, R.KeyStream(k, ctr0, 0, 16 * nblocks0));
  }

  /** buf_put_le32 (ctr, (u32)ctr_lo + curr_blks) */
  method NextCounter32(ctr: seq<byte>, n: nat) returns (next: seq<byte>)
    requires |ctr| == 16
    ensures |next| == 16 && next == R.IncLE32(ctr, n)
  {
    hide LittleEndian, ToLittleEndian, Pow256;
    var x := LittleEndian(ctr[..4]) + n;
    LittleEndianRoundTrip(x, 4);
    LittleEndianRoundTrip(x % 0x1_0000_0000, 4);
    Pow256Values();
    LittleEndianInjective(ToLittleEndian(x % 0x1_0000_0000, 4), ToLittleEndian(x, 4));
    next := ToLittleEndian(x % 0x1_0000_0000, 4) + ctr[4..];
  }

  // ---- cipher feedback, decryption ----

  /** The masks: every block of IV and ciphertext but the last, enciphered. */
  function Masks(k: Cipher, iv: seq<byte>, c: seq<byte>, n: nat): (s: seq<byte>)
    requires k.Valid() && k.bs == 16 == |iv| && 16 * n <= |c|
    ensures |s| == 16 * n
  {
    Blockwise(k.enc, (iv + c)[..16 * n])
  }

  /** Block by block, these are the masks of cipher feedback. */
  lemma MasksAre(k: Cipher, iv: seq<byte>, c: seq<byte>, n: nat, p: nat)
    requires k.Valid() && k.bs == 16 == |iv| && 16 * n <= |c| && p < 16 * n
    ensures Masks(k, iv, c, n)[p] == Cfb.Mask(k, iv, c, p)
  {
    hide Blockwise;
    var q := p / 16;
    BlockwiseAt(k.enc, (iv + c)[..16 * n], q);
    var b := (iv + c)[..16 * n][16 * q..16 * q + 16];
    assert b == Cfb.Before(16, iv, c, q) by {
      if q > 0 {
        assert b == c[16 * (q - 1)..16 * q];
      }
    }
    assert Masks(k, iv, c, n)[16 * q..16 * q + 16][p % 16] == k.enc(b)[p % 16];
  }

  lemma {:induction false} BlockwiseAt(f: seq<byte> -> seq<byte>, s: seq<byte>, q: nat)
    requires |s| % 16 == 0 && OnBlocks(f) && 16 * q + 16 <= |s|
    ensures Blockwise(f, s)[16 * q..16 * q + 16] == f(s[16 * q..16 * q + 16])
    decreases |s|
  {
    var m := |s| - 16;
    if 16 * q == m {
      assert s[m..] == s[16 * q..16 * q + 16];
    } else {
      BlockwiseAt(f, s[..m], q);
      assert s[..m][16 * q..16 * q + 16] == s[16 * q..16 * q + 16];
      assert Blockwise(f, s)[16 * q..16 * q + 16] == Blockwise(f, s[..m])[16 * q..16 * q + 16];
    }
  }

  /** What the masks give is the plaintext. */
  lemma MaskedIsRelated(k: Cipher, iv: seq<byte>, c: seq<byte>, n: nat)
    requires k.Valid() && k.bs == 16 == |iv| && 16 * n == |c|
    ensures Cfb.Related(k, iv, Xor(c, Masks(k, iv, c, n)), c)
  {
    hide Masks, Cfb.Mask, XorByte;
    var m := Masks(k, iv, c, n);
    forall i | 0 <= i < |c|
      ensures c[i] == XorByte(Xor(c, m)[i], Cfb.Mask(k, iv, c, i))
    {
      MasksAre(k, iv, c, n, i);
      XorByteLaws(c[i], m[i], m[i]);
      XorByteLaws(m[i], m[i], m[i]);
    }
  }

  /** The blocks of a batch: the IV and all but the last of them. */
  lemma MasksMore(k: Cipher, iv0: seq<byte>, c: seq<byte>, i: nat, n: nat, iv: seq<byte>)
    requires k.Valid() && k.bs == 16 == |iv0| == |iv| && n > 0 && 16 * (i + n) <= |c|
    requires iv == (iv0 + c)[16 * i..16 * i + 16]
    ensures var s := iv + c[16 * i..16 * (i + n) - 16];
            |s| % 16 == 0 && Masks(k, iv0, c, i + n) == Masks(k, iv0, c, i) + Blockwise(k.enc, s)
    ensures c[16 * (i + n) - 16..16 * (i + n)] == (iv0 + c)[16 * (i + n)..16 * (i + n) + 16]
  {
    hide Blockwise;
    var w, s := iv0 + c, iv + c[16 * i..16 * (i + n) - 16];
    SliceMore(w, 16 * i, 16 * i + 16, 16 * (i + n));
    assert w[16 * i + 16..16 * (i + n)] == c[16 * i..16 * (i + n) - 16];
    PrefixGrows(w, 16 * i, 16 * (i + n), s);
    BlockwiseConcat(k.enc, w[..16 * i], s);
  }

  /** One batch: IV and ciphertext are copied to tmpbuf before the output, which may be the input, is written. */
  method CfbBatch(k: Cipher, outbuf: array<byte>, ghost out0: seq<byte>, op: nat, inbuf: array<byte>, ghost in0: seq<byte>, ip: nat,
                  ghost data: seq<byte>, ghost iv0: seq<byte>, iv: seq<byte>, done: nat, tmpbuf: array<byte>, curr: nat)
    returns (next: seq<byte>)
    requires k.Valid() && k.bs == 16 == |iv0| == |iv| && curr > 0 && 16 * (done + curr) <= |data| && 16 * curr <= tmpbuf.Length
    requires tmpbuf != outbuf && tmpbuf != inbuf && iv == (iv0 + data)[16 * done..16 * done + 16]
    requires Xored(outbuf, out0, op, inbuf, in0, ip, data, Masks(k, iv0, data, done))
    modifies outbuf, tmpbuf
    ensures |next| == 16 && next == (iv0 + data)[16 * (done + curr)..16 * (done + curr) + 16]
    ensures Xored(outbuf, out0, op, inbuf, in0, ip, data, Masks(k, iv0, data, done + curr))
  {
    hide Blockwise, Xored, Splice, Xor, Masks;
    ghost var st, n := Masks(k, iv0, data, done), 16 * curr;
    XoredApart(outbuf, out0, op, inbuf, in0, ip, data, st);
    XoredRead(outbuf, out0, op, inbuf, in0, ip, data, st, n);
    var from := ip + 16 * done;
    ghost var s := iv + data[16 * done..16 * (done + curr) - 16];
    Chunks(inbuf[..], from, data, 16 * done, n);
    assert inbuf[from..from + n] == inbuf[..][from..from + n];
    MasksMore(k, iv0, data, done, curr, iv);
    PutTmp(tmpbuf, 0, iv);
    assert tmpbuf[..0] == [] && tmpbuf[..16] == iv;
    PutTmp(tmpbuf, 16, inbuf[from..from + 16 * curr - 16]);
    assert inbuf[from..from + 16 * curr - 16] == inbuf[..][from..from + n - 16];
    next := inbuf[from + 16 * curr - 16..from + 16 * curr];
    assert next == inbuf[..][from + n - 16..from + n];
    CryptTmp(k.enc, tmpbuf, curr, s);
    XorBatch(outbuf, out0, op, inbuf, in0, ip, data, st, 16 * done, tmpbuf, curr);
  }

  lemma Chunks(s: seq<byte>, from: nat, data: seq<byte>, at: nat, n: nat)
    requires n >= 16 && from + n <= |s| && at + n <= |data| && s[from..from + n] == data[at..at + n]
    ensures s[from..from + n - 16] == data[at..at + n - 16] && s[from + n - 16..from + n] == data[at + n - 16..at + n]
  {
    SliceOfSlice(s, from, from + n, 0, n - 16);
    SliceOfSlice(data, at, at + n, 0, n - 16);
    SliceOfSlice(s, from, from + n, n - 16, n);
    SliceOfSlice(data, at, at + n, n - 16, n);
  }

  /** bulk_cfb_dec_128 */
  method BulkCfbDec(k: Cipher, outbuf: array<byte>, op: nat, inbuf: array<byte>, ip: nat, nblocks0: nat, iv0: seq<byte>,
                    tmpbuf: array<byte>, T: nat, ghost data: seq<byte>) returns (iv: seq<byte>)
    requires k.Valid() && k.bs == 16 == |iv0| && 0 < T && 16 * T <= tmpbuf.Length
    requires tmpbuf != outbuf && tmpbuf != inbuf && Separate(outbuf, op, inbuf, ip)
    requires op + 16 * nblocks0 <= outbuf.Length && ip + 16 * nblocks0 <= inbuf.Length && data == inbuf[ip..ip + 16 * nblocks0]
    modifies outbuf, tmpbuf
    ensures |iv| == 16 && iv == (iv0 + data)[16 * nblocks0..]
    ensures var p := Xor(data, Masks(k, iv0, data, nblocks0));
            Cfb.Related(k, iv0, p, data) && outbuf[..] == Splice(old(outbuf[..]), op, p)
  {
    hide Blockwise, Xored, Splice, Xor, Masks, Cfb.Related;
    ghost var out0, in0 := outbuf[..], inbuf[..];
    XoredNothing(outbuf, op, inbuf, ip, 16 * nblocks0);
    iv := iv0;
    assert Masks(k, iv0, data, 0) == [];
    assert (iv0 + data)[0..16] == iv0;
    var nblocks, done := nblocks0, 0;
    while nblocks >= 1
      invariant 0 <= nblocks && done + nblocks == nblocks0 && |iv| == 16 && iv == (iv0 + data)[16 * done..16 * done + 16]
      invariant Xored(outbuf, out0, op, inbuf, in0, ip, data, Masks(k, iv0, data, done))
    {
      var curr := Batch(nblocks, T);
      iv := CfbBatch(k, outbuf, out0, op, inbuf, in0, ip, data, iv0, iv, done, tmpbuf, curr);
      nblocks := nblocks - curr;
      done := done + curr;
    }
    MaskedIsRelated(k, iv0, data, nblocks0);
    XoredAll(outbuf, out0, op, inbuf, in0, ip, data, Masks(k, iv0, data, nblocks0));
    assert (iv0 + data)[16 * nblocks0..16 * nblocks0 + 16] == (iv0 + data)[16 * nblocks0..];
  }

  // ---- cipher block chaining, decryption ----

  lemma BothOnBlocks(k: Cipher)
    requires k.Valid() && k.bs == 16
    ensures OnBlocks(k.enc) && OnBlocks(k.dec)
  {
  }

  /** So many blocks of the call are decrypted and put out, and iv is the ciphertext block after them. */
  ghost predicate CbcUpTo(k: Cipher, iv0: seq<byte>, outbuf: array<byte>, out0: seq<byte>, op: nat, inbuf: array<byte>, in0: seq<byte>,
                          ip: nat, total: nat, done: nat, iv: seq<byte>)
    requires k.Valid() && k.bs == 16 == |iv0|
    reads outbuf, inbuf
  {
    && 16 * done <= total && ip + total <= |in0|
    && var data := in0[ip..ip + total][..16 * done];
    iv == Cbc.LastBlock(16, iv0, data) && Progress(outbuf, out0, op, inbuf, in0, ip, total, Cbc.CbcOpen(k, iv0, data))
  }

  /** One block, already deciphered to d: it is xored with the ciphertext block before it, and its own
      ciphertext is saved before the output may overwrite it. */
  method CbcOne(k: Cipher, outbuf: array<byte>, ghost out0: seq<byte>, op: nat, inbuf: array<byte>, ghost in0: seq<byte>, ip: nat,
                ghost total: nat, ghost iv0: seq<byte>, iv: seq<byte>, done: nat, d: seq<byte>) returns (next: seq<byte>)
    requires k.Valid() && k.bs == 16 == |iv0| && CbcUpTo(k, iv0, outbuf, out0, op, inbuf, in0, ip, total, done, iv)
    requires 16 * done + 16 <= total && d == k.dec(in0[ip..ip + total][16 * done..16 * done + 16])
    modifies outbuf
    ensures CbcUpTo(k, iv0, outbuf, out0, op, inbuf, in0, ip, total, done + 1, next)
  {
    hide Xor, Progress, Cbc.CbcOpen, Cbc.LastBlock;
    ghost var data := in0[ip..ip + total];
    var at := 16 * done;
    ghost var p := Cbc.CbcOpen(k, iv0, data[..at]);
    NextInput(outbuf, out0, op, inbuf, in0, ip, total, p, 16);
    var x := inbuf[ip + at..ip + at + 16];
    Cbc.SealNext(k, iv0, data[..at], x);
    PrefixGrows(data, at, at + 16, x);
    PutMore(outbuf, out0, op, inbuf, in0, ip, total, p, op + at, Xor(d, iv));
    Cbc.LastIs(16, iv0, data[..at], x);
    next := x;
  }

  /** One batch, already deciphered into tmpbuf. */
  method CbcBatch(k: Cipher, outbuf: array<byte>, ghost out0: seq<byte>, op: nat, inbuf: array<byte>, ghost in0: seq<byte>, ip: nat,
                  ghost total: nat, ghost iv0: seq<byte>, iv: seq<byte>, done: nat, tmpbuf: array<byte>, curr: nat)
    returns (next: seq<byte>)
    requires k.Valid() && k.bs == 16 == |iv0| && 16 * (done + curr) <= total && 16 * curr <= tmpbuf.Length
    requires tmpbuf != outbuf && tmpbuf != inbuf && ip + total <= |in0|
    requires OnBlocks(k.dec) && tmpbuf[..16 * curr] == Blockwise(k.dec, in0[ip..ip + total][16 * done..16 * (done + curr)])
    requires CbcUpTo(k, iv0, outbuf, out0, op, inbuf, in0, ip, total, done, iv)
    modifies outbuf
    ensures CbcUpTo(k, iv0, outbuf, out0, op, inbuf, in0, ip, total, done + curr, next)
  {
    hide Blockwise, Xor, CbcUpTo;
    ghost var data := in0[ip..ip + total];
    ghost var s := data[16 * done..16 * (done + curr)];
    next := iv;
    var i := 0;
    while i < curr
      invariant 0 <= i <= curr && CbcUpTo(k, iv0, outbuf, out0, op, inbuf, in0, ip, total, done + i, next)
    {
      BlockwiseAt(k.dec, s, i);
      SliceOfSlice(data, 16 * done, 16 * (done + curr), 16 * i, 16 * i + 16);
      assert tmpbuf[16 * i..16 * i + 16] == tmpbuf[..16 * curr][16 * i..16 * i + 16];
      next := CbcOne(k, outbuf, out0, op, inbuf, in0, ip, total, iv0, next, done + i, tmpbuf[16 * i..16 * i + 16]);
      i := i + 1;
    }
  }

  /** bulk_cbc_dec_128 is CBC decryption. */
  method BulkCbcDec(k: Cipher, outbuf: array<byte>, op: nat, inbuf: array<byte>, ip: nat, nblocks0: nat, iv0: seq<byte>,
                    tmpbuf: array<byte>, T: nat, ghost data: seq<byte>) returns (iv: seq<byte>)
    requires k.Valid() && k.bs == 16 == |iv0| && 0 < T && 16 * T <= tmpbuf.Length
    requires tmpbuf != outbuf && tmpbuf != inbuf && Separate(outbuf, op, inbuf, ip)
    requires op + 16 * nblocks0 <= outbuf.Length && ip + 16 * nblocks0 <= inbuf.Length && data == inbuf[ip..ip + 16 * nblocks0]
    modifies outbuf, tmpbuf
    ensures |data| % 16 == 0 && iv == Cbc.LastBlock(16, iv0, data)
    ensures outbuf[..] == Splice(old(outbuf[..]), op, Cbc.CbcOpen(k, iv0, data))
  {
    hide Blockwise, Xor, Progress, Splice, Cbc.CbcOpen, Cbc.LastBlock;
    ghost var out0, in0, total := outbuf[..], inbuf[..], 16 * nblocks0;
    assert data == in0[ip..ip + total];
    Starts(outbuf, op, inbuf, ip, total);
    Cbc.NoBlocks(k, iv0);
    BothOnBlocks(k);
    assert data[..0] == [];
    iv := iv0;
    var nblocks, done := nblocks0, 0;
    while nblocks >= 1
      invariant 0 <= nblocks && done + nblocks == nblocks0
      invariant CbcUpTo(k, iv0, outbuf, out0, op, inbuf, in0, ip, total, done, iv)
    {
      var curr := Batch(nblocks, T);
      DecryptAhead(k, outbuf, out0, op, inbuf, in0, ip, total, Cbc.CbcOpen(k, iv0, data[..16 * done]), done, tmpbuf, curr);
      iv := CbcBatch(k, outbuf, out0, op, inbuf, in0, ip, total, iv0, iv, done, tmpbuf, curr);
      nblocks := nblocks - curr;
      done := done + curr;
    }
    assert data[..total] == data;
    Ends(outbuf, out0, op, inbuf, in0, ip, total, Cbc.CbcOpen(k, iv0, data));
  }

  method DecryptAhead(k: Cipher, outbuf: array<byte>, ghost out0: seq<byte>, op: nat, inbuf: array<byte>, ghost in0: seq<byte>, ip: nat,
                      ghost total: nat, ghost p: seq<byte>, done: nat, tmpbuf: array<byte>, curr: nat)
    requires k.Valid() && k.bs == 16 && OnBlocks(k.dec) && 16 * (done + curr) <= total && 16 * curr <= tmpbuf.Length
    requires tmpbuf != outbuf && tmpbuf != inbuf && ip + total <= |in0| && |p| == 16 * done
    requires Progress(outbuf, out0, op, inbuf, in0, ip, total, p)
    modifies tmpbuf
    ensures tmpbuf[..16 * curr] == Blockwise(k.dec, in0[ip..ip + total][16 * done..16 * (done + curr)])
    ensures Progress(outbuf, out0, op, inbuf, in0, ip, total, p)
  {
    hide Blockwise, Progress, Splice;
    NextInput(outbuf, out0, op, inbuf, in0, ip, total, p, 16 * curr);
    ghost var t0, s := tmpbuf[..], in0[ip..ip + total][16 * done..16 * (done + curr)];
    CryptFn(k.dec, tmpbuf, 0, inbuf, ip + 16 * done, curr, s);
    SpliceSlices(t0, 0, Blockwise(k.dec, s));
    assert tmpbuf[..16 * curr] == tmpbuf[..][0..16 * curr];
  }

  // ---- whitened modes: XTS and OCB ----

  /** Each block is xored with its mask, put through f and xored again. */
  function Whiten(f: seq<byte> -> seq<byte>, w: seq<byte>, p: seq<byte>): (c: seq<byte>)
    requires OnBlocks(f) && |w| == |p| && |p| % 16 == 0
    ensures |c| == |p|
  {
    Xor(Blockwise(f, Xor(p, w)), w)
  }

  lemma WhitenConcat(f: seq<byte> -> seq<byte>, w: seq<byte>, v: seq<byte>, p: seq<byte>, q: seq<byte>)
    requires OnBlocks(f) && |w| == |p| && |v| == |q| && |p| % 16 == 0 && |q| % 16 == 0
    ensures |p + q| % 16 == 0 && Whiten(f, w + v, p + q) == Whiten(f, w, p) + Whiten(f, v, q)
  {
    hide Xor, Blockwise;
    XorConcat(p, q, w, v);
    BlockwiseConcat(f, Xor(p, w), Xor(q, v));
    XorConcat(Blockwise(f, Xor(p, w)), Blockwise(f, Xor(q, v)), w, v);
  }

  /** The masks of a run of blocks: block i of the call gets mask(i). */
  function MaskRun(mask: nat -> seq<byte>, from: nat, n: nat): (w: seq<byte>)
    requires forall i {:trigger mask(i)} :: |mask(i)| == 16
    ensures |w| == 16 * n
  {
    if n == 0 then [] else MaskRun(mask, from, n - 1) + mask(from + n - 1)
  }

  lemma {:induction false} MaskRunConcat(mask: nat -> seq<byte>, from: nat, m: nat, n: nat)
    requires forall i {:trigger mask(i)} :: |mask(i)| == 16
    ensures MaskRun(mask, from, m + n) == MaskRun(mask, from, m) + MaskRun(mask, from + m, n)
  {
    if n == 0 {
      assert MaskRun(mask, from, m) + [] == MaskRun(mask, from, m);
    } else {
      MaskRunConcat(mask, from, m, n - 1);
      ConcatAssociates(MaskRun(mask, from, m), MaskRun(mask, from + m, n - 1), mask(from + m + n - 1));
    }
  }

  /** The second half of a batch: the whitened input is in place in outbuf, its masks in tmpbuf. */
  method CryptWhite(f: seq<byte> -> seq<byte>, outbuf: array<byte>, o: nat, tmpbuf: array<byte>, n: nat, ghost s: seq<byte>, ghost x: seq<byte>)
    requires OnBlocks(f) && o + 16 * n <= |s| && 16 * n <= tmpbuf.Length && tmpbuf != outbuf && |x| == 16 * n
    requires outbuf[..] == Splice(s, o, x)
    modifies outbuf
    ensures |x| % 16 == 0 && outbuf[..] == Splice(s, o, Xor(Blockwise(f, x), tmpbuf[..16 * n]))
  {
    hide Blockwise, Splice, Xor, Progress;
    SpliceSlices(s, o, x);
    assert outbuf[o..o + 16 * n] == outbuf[..][o..o + 16 * n];
    CryptFn(f, outbuf, o, outbuf, o, n, x);
    ghost var y, w := Blockwise(f, x), tmpbuf[..16 * n];
    SpliceAgain(s, o, x, y);
    ghost var out0 := outbuf[..];
    Starts(outbuf, o, outbuf, o, 16 * n);
    SpliceSlices(s, o, y);
    assert out0[o..o + 16 * n] == y;
    assert Xor(y[..0], w[..0]) == [] by { EmptyXor(y, w); }
    var i := 0;
    while i < n
      invariant 0 <= i <= n && Progress(outbuf, out0, o, outbuf, out0, o, 16 * n, Xor(y[..16 * i], w[..16 * i]))
    {
      ghost var out := Xor(y[..16 * i], w[..16 * i]);
      NextInput(outbuf, out0, o, outbuf, out0, o, 16 * n, out, 16);
      assert tmpbuf[16 * i..16 * i + 16] == w[16 * i..16 * i + 16];
      XorConcat(y[..16 * i], y[16 * i..16 * i + 16], w[..16 * i], w[16 * i..16 * i + 16]);
      PrefixGrows(y, 16 * i, 16 * i + 16, y[16 * i..16 * i + 16]);
      PrefixGrows(w, 16 * i, 16 * i + 16, w[16 * i..16 * i + 16]);
      PutMore(outbuf, out0, o, outbuf, out0, o, 16 * n, out, o + 16 * i,
              Xor(outbuf[o + 16 * i..o + 16 * i + 16], tmpbuf[16 * i..16 * i + 16]));
      i := i + 1;
    }
    assert y[..16 * n] == y && w[..16 * n] == w;
    Ends(outbuf, out0, o, outbuf, out0, o, 16 * n, Xor(y, w));
    SpliceAgain(s, o, y, Xor(y, w));
  }

  lemma NoXor()
    ensures Xor([], []) == []
  {
  }

  lemma EmptyXor(y: seq<byte>, w: seq<byte>)
    ensures Xor(y[..0], w[..0]) == []
  {
  }

  /** The first half of a batch for one block: its mask goes to tmpbuf, the whitened input to outbuf. */
  method WhitenOne(mask: seq<byte>, outbuf: array<byte>, ghost out0: seq<byte>, op: nat, inbuf: array<byte>, ghost in0: seq<byte>, ip: nat,
                   ghost total: nat, ghost prev: seq<byte>, done: nat, i: nat, ghost w: seq<byte>, tmpbuf: array<byte>)
    requires |mask| == 16 && |w| == 16 * i && |prev| == done && done + 16 * i + 16 <= total && ip + total <= |in0|
    requires tmpbuf != outbuf && tmpbuf != inbuf && 16 * i + 16 <= tmpbuf.Length && tmpbuf[..16 * i] == w
    requires Progress(outbuf, out0, op, inbuf, in0, ip, total, prev + Xor(in0[ip..ip + total][done..done + 16 * i], w))
    modifies outbuf, tmpbuf
    ensures tmpbuf[..16 * i + 16] == w + mask
    ensures Progress(outbuf, out0, op, inbuf, in0, ip, total, prev + Xor(in0[ip..ip + total][done..done + 16 * i + 16], w + mask))
  {
    hide Xor, Progress;
    ghost var data := in0[ip..ip + total];
    ghost var x := data[done..done + 16 * i];
    ghost var out := prev + Xor(x, w);
    PutTmp(tmpbuf, 16 * i, mask);
    var at := done + 16 * i;
    NextInput(outbuf, out0, op, inbuf, in0, ip, total, out, 16);
    var b := inbuf[ip + at..ip + at + 16];
    PutMore(outbuf, out0, op, inbuf, in0, ip, total, out, op + at, Xor(b, mask));
    SliceMore(data, done, at, at + 16);
    XorConcat(x, b, w, mask);
    ConcatAssociates(prev, Xor(x, w), Xor(b, mask));
  }

  /** The second half of a batch, as part of the call. */
  method CryptBatch(f: seq<byte> -> seq<byte>, outbuf: array<byte>, ghost out0: seq<byte>, op: nat, inbuf: array<byte>, ghost in0: seq<byte>,
                    ip: nat, ghost total: nat, ghost w0: seq<byte>, done: nat, curr: nat, ghost w: seq<byte>, tmpbuf: array<byte>)
    requires OnBlocks(f) && |w0| == 16 * done && |w| == 16 * curr && 16 * (done + curr) <= total && ip + total <= |in0|
    requires tmpbuf != outbuf && tmpbuf != inbuf && 16 * curr <= tmpbuf.Length && tmpbuf[..16 * curr] == w
    requires var data := in0[ip..ip + total];
             Progress(outbuf, out0, op, inbuf, in0, ip, total,
                      Whiten(f, w0, data[..16 * done]) + Xor(data[16 * done..16 * done + 16 * curr], w))
    modifies outbuf
    ensures |w0 + w| == 16 * (done + curr)
    ensures Progress(outbuf, out0, op, inbuf, in0, ip, total, Whiten(f, w0 + w, in0[ip..ip + total][..16 * (done + curr)]))
  {
    hide Xor, Blockwise, Whiten, Splice;
    ghost var data := in0[ip..ip + total];
    ghost var q, prev := data[16 * done..16 * done + 16 * curr], Whiten(f, w0, data[..16 * done]);
    SpliceMore(out0, op, prev, Xor(q, w));
    CryptWhite(f, outbuf, op + 16 * done, tmpbuf, curr, Splice(out0, op, prev), Xor(q, w));
    WhitenDef(f, w, q);
    SpliceMore(out0, op, prev, Whiten(f, w, q));
    WhitenConcat(f, w0, w, data[..16 * done], q);
    PrefixGrows(data, 16 * done, 16 * done + 16 * curr, q);
  }

  lemma WhitenDef(f: seq<byte> -> seq<byte>, w: seq<byte>, p: seq<byte>)
    requires OnBlocks(f) && |w| == |p| && |p| % 16 == 0
    ensures Whiten(f, w, p) == Xor(Blockwise(f, Xor(p, w)), w)
  {
  }

  /** So many blocks of the call are whitened and put out. */
  ghost predicate UpTo(f: seq<byte> -> seq<byte>, mask: nat -> seq<byte>, outbuf: array<byte>, out0: seq<byte>, op: nat,
                       inbuf: array<byte>, in0: seq<byte>, ip: nat, total: nat, done: nat)
    requires OnBlocks(f) && forall i {:trigger mask(i)} :: |mask(i)| == 16
    reads outbuf, inbuf
  {
    && 16 * done <= total && ip + total <= |in0|
    && Progress(outbuf, out0, op, inbuf, in0, ip, total, Whiten(f, MaskRun(mask, 0, done), in0[ip..ip + total][..16 * done]))
  }

  // ---- XTS ----

  /** The tweak times x in GF(2^128), its lowest bit in its first octet. */
  function Alpha(t: seq<byte>): (r: seq<byte>)
    requires |t| == 16
    ensures |r| == 16
  {
    R.Reverse(OctetsBE(V.Double(BitsBE(R.Reverse(t)))))
  }

  function TweakAt(t: seq<byte>, i: nat): (r: seq<byte>)
    requires |t| == 16
    ensures |r| == 16
  {
    if i == 0 then t else Alpha(TweakAt(t, i - 1))
  }

  /** The octets of two little-endian words. */
  function TweakOf(lo: W.Word, hi: W.Word): (t: seq<byte>)
    ensures |t| == 16
  {
    R.Reverse(OctetsBE(lo + hi))
  }

  /** The words of a tweak, doubled by shifts and a conditional 0x87. */
  method NextTweak(lo: W.Word, hi: W.Word) returns (nlo: W.Word, nhi: W.Word)
    ensures TweakOf(nlo, nhi) == Alpha(TweakOf(lo, hi))
  {
    hide OctetsBE, BitsBE, V.Double;
    var carry := O.Masked135(hi[63]);
    nhi := GF.Add(W.Shl(hi, 1), W.Shr(lo, 63));
    nlo := GF.Add(W.Shl(lo, 1), carry);
    Doubled(lo, hi);
    R.ReverseTwice(OctetsBE(lo + hi));
    BitsOfOctets(lo + hi);
  }

  lemma Doubled(lo: W.Word, hi: W.Word)
    ensures GF.Add(W.Shl(lo, 1), O.Masked135(hi[63])) + GF.Add(W.Shl(hi, 1), W.Shr(lo, 63)) == V.Double(lo + hi)
  {
    forall i | 0 <= i < 128
      ensures (GF.Add(W.Shl(lo, 1), O.Masked135(hi[63])) + GF.Add(W.Shl(hi, 1), W.Shr(lo, 63)))[i] == V.Double(lo + hi)[i]
    {
    }
  }

  /** buf_get_le64 of both halves. */
  method LoadTweak(t: seq<byte>) returns (lo: W.Word, hi: W.Word)
    requires |t| == 16
    ensures TweakOf(lo, hi) == t
  {
    hide OctetsBE, BitsBE;
    lo := BitsBE(R.Reverse(t[..8]));
    hi := BitsBE(R.Reverse(t[8..]));
    assert R.Reverse(t) == R.Reverse(t[8..]) + R.Reverse(t[..8]);
    BitsConcat(R.Reverse(t[8..]), R.Reverse(t[..8]));
    OctetsOfBits(R.Reverse(t));
    R.ReverseTwice(t);
  }

  function Tweaks(t: seq<byte>): nat -> seq<byte>
    requires |t| == 16
  {
    (i: nat) => TweakAt(t, i)
  }

  lemma TweaksAre(t: seq<byte>)
    requires |t| == 16
    ensures forall i: nat {:trigger Tweaks(t)(i)} :: |Tweaks(t)(i)| == 16 && Tweaks(t)(i) == TweakAt(t, i)
  {
  }

  /** XEX over whole blocks from tweak t: block i is whitened with t times x^i. */
  function Xts(f: seq<byte> -> seq<byte>, t: seq<byte>, p: seq<byte>): (c: seq<byte>)
    requires OnBlocks(f) && |t| == 16 && |p| % 16 == 0
    ensures |c| == |p|
  {
    if p == [] then []
    else
      var m := |p| - 16;
      var w := TweakAt(t, m / 16);
      Xts(f, t, p[..m]) + Xor(f(Xor(p[m..], w)), w)
  }

  lemma {:induction false} XtsIsWhiten(f: seq<byte> -> seq<byte>, t: seq<byte>, p: seq<byte>)
    requires OnBlocks(f) && |t| == 16 && |p| % 16 == 0
    ensures (forall i: nat {:trigger Tweaks(t)(i)} :: |Tweaks(t)(i)| == 16)
    ensures |MaskRun(Tweaks(t), 0, |p| / 16)| == |p| && Xts(f, t, p) == Whiten(f, MaskRun(Tweaks(t), 0, |p| / 16), p)
    decreases |p|
  {
    hide Xor, Blockwise, TweakAt;
    TweaksAre(t);
    if p == [] {
      NoBlocks(f);
      NoXor();
    } else {
      var m := |p| - 16;
      XtsIsWhiten(f, t, p[..m]);
      assert p == p[..m] + p[m..];
      WhitenConcat(f, MaskRun(Tweaks(t), 0, m / 16), TweakAt(t, m / 16), p[..m], p[m..]);
      BlockwiseNext(f, [], Xor(p[m..], TweakAt(t, m / 16)));
      NoBlocks(f);
      assert [] + Xor(p[m..], TweakAt(t, m / 16)) == Xor(p[m..], TweakAt(t, m / 16));
      assert [] + f(Xor(p[m..], TweakAt(t, m / 16))) == f(Xor(p[m..], TweakAt(t, m / 16)));
    }
  }

  /** Decryption undoes encryption, block by block under the same tweaks. */
  lemma {:induction false} XtsRoundTrip(k: Cipher, t: seq<byte>, p: seq<byte>)
    requires k.Valid() && k.bs == 16 == |t| && |p| % 16 == 0
    ensures OnBlocks(k.enc) && OnBlocks(k.dec) && Xts(k.dec, t, Xts(k.enc, t, p)) == p
    decreases |p|
  {
    hide Xor, TweakAt;
    BothOnBlocks(k);
    if p != [] {
      var m := |p| - 16;
      var w := TweakAt(t, m / 16);
      XtsRoundTrip(k, t, p[..m]);
      var b := k.enc(Xor(p[m..], w));
      XorCancels(b, w);
      assert k.dec(b) == Xor(p[m..], w);
      XorCancels(p[m..], w);
      assert p == p[..m] + p[m..];
      var c := Xts(k.enc, t, p);
      assert c[..m] == Xts(k.enc, t, p[..m]) && c[m..] == Xor(b, w);
    }
  }

  method XtsBatch(f: seq<byte> -> seq<byte>, outbuf: array<byte>, ghost out0: seq<byte>, op: nat, inbuf: array<byte>, ghost in0: seq<byte>,
                  ip: nat, ghost total: nat, ghost t0: seq<byte>, lo0: W.Word, hi0: W.Word, done: nat, tmpbuf: array<byte>, curr: nat)
    returns (lo: W.Word, hi: W.Word)
    requires OnBlocks(f) && |t0| == 16 && TweakOf(lo0, hi0) == TweakAt(t0, done) && 16 * (done + curr) <= total
    requires tmpbuf != outbuf && tmpbuf != inbuf && 16 * curr <= tmpbuf.Length && ip + total <= |in0|
    requires forall i: nat {:trigger Tweaks(t0)(i)} :: |Tweaks(t0)(i)| == 16 && Tweaks(t0)(i) == TweakAt(t0, i)
    requires UpTo(f, Tweaks(t0), outbuf, out0, op, inbuf, in0, ip, total, done)
    modifies outbuf, tmpbuf
    ensures TweakOf(lo, hi) == TweakAt(t0, done + curr)
    ensures UpTo(f, Tweaks(t0), outbuf, out0, op, inbuf, in0, ip, total, done + curr)
  {
    hide Xor, Progress, Whiten, MaskRun, TweakOf, Alpha, Tweaks;
    ghost var data, mask := in0[ip..ip + total], Tweaks(t0);
    ghost var w0 := MaskRun(mask, 0, done);
    ghost var prev := Whiten(f, w0, data[..16 * done]);
    lo, hi := lo0, hi0;
    EmptyRun(mask, done);
    NoXor();
    assert data[16 * done..16 * done] == [] && prev + [] == prev && tmpbuf[..0] == [];
    var i := 0;
    while i < curr
      invariant 0 <= i <= curr && TweakOf(lo, hi) == TweakAt(t0, done + i) && tmpbuf[..16 * i] == MaskRun(mask, done, i)
      invariant Progress(outbuf, out0, op, inbuf, in0, ip, total, prev + Xor(data[16 * done..16 * done + 16 * i], MaskRun(mask, done, i)))
    {
      var t := TweakOf(lo, hi);
      WhitenOne(t, outbuf, out0, op, inbuf, in0, ip, total, prev, 16 * done, i, MaskRun(mask, done, i), tmpbuf);
      NextRun(mask, done, i);
      lo, hi := NextTweak(lo, hi);
      i := i + 1;
    }
    CryptBatch(f, outbuf, out0, op, inbuf, in0, ip, total, w0, done, curr, MaskRun(mask, done, curr), tmpbuf);
    MaskRunConcat(mask, 0, done, curr);
  }

  lemma EmptyRun(mask: nat -> seq<byte>, from: nat)
    requires forall i {:trigger mask(i)} :: |mask(i)| == 16
    ensures MaskRun(mask, from, 0) == []
  {
  }

  lemma NextRun(mask: nat -> seq<byte>, from: nat, n: nat)
    requires forall i {:trigger mask(i)} :: |mask(i)| == 16
    ensures MaskRun(mask, from, n + 1) == MaskRun(mask, from, n) + mask(from + n)
  {
  }

  /** bulk_xts_crypt_128 is XTS a block at a time, and leaves the next tweak. */
  method BulkXts(f: seq<byte> -> seq<byte>, outbuf: array<byte>, op: nat, inbuf: array<byte>, ip: nat, nblocks0: nat, t0: seq<byte>,
                 tmpbuf: array<byte>, T: nat, ghost data: seq<byte>) returns (tweak: seq<byte>)
    requires OnBlocks(f) && |t0| == 16 && 0 < T && 16 * T <= tmpbuf.Length
    requires tmpbuf != outbuf && tmpbuf != inbuf && Separate(outbuf, op, inbuf, ip)
    requires op + 16 * nblocks0 <= outbuf.Length && ip + 16 * nblocks0 <= inbuf.Length && data == inbuf[ip..ip + 16 * nblocks0]
    modifies outbuf, tmpbuf
    ensures |data| % 16 == 0 && tweak == TweakAt(t0, nblocks0)
    ensures outbuf[..] == Splice(old(outbuf[..]), op, Xts(f, t0, data))
  {
    hide Xor, Progress, Whiten, MaskRun, TweakOf, Alpha, Tweaks, Xts, Splice;
    ghost var out0, in0, total := outbuf[..], inbuf[..], 16 * nblocks0;
    assert data == in0[ip..ip + total];
    Starts(outbuf, op, inbuf, ip, total);
    TweaksAre(t0);
    assert data[..0] == [];
    XtsIsWhiten(f, t0, []);
    NothingXts(f, t0);
    var lo, hi := LoadTweak(t0);
    var nblocks, done := nblocks0, 0;
    while nblocks >= 1
      invariant 0 <= nblocks && done + nblocks == nblocks0 && TweakOf(lo, hi) == TweakAt(t0, done)
      invariant UpTo(f, Tweaks(t0), outbuf, out0, op, inbuf, in0, ip, total, done)
    {
      var curr := Batch(nblocks, T);
      lo, hi := XtsBatch(f, outbuf, out0, op, inbuf, in0, ip, total, t0, lo, hi, done, tmpbuf, curr);
      nblocks := nblocks - curr;
      done := done + curr;
    }
    assert data[..total] == data && |data| / 16 == nblocks0;
    XtsIsWhiten(f, t0, data);
    Ends(outbuf, out0, op, inbuf, in0, ip, total, Xts(f, t0, data));
    tweak := TweakOf(lo, hi);
  }

  lemma NothingXts(f: seq<byte> -> seq<byte>, t: seq<byte>)
    requires OnBlocks(f) && |t| == 16
    ensures Xts(f, t, []) == [] && TweakAt(t, 0) == t
  {
  }

  // ---- OCB ----

  /** The offsets after block n0 of a message. */
  function Offsets(lstar: V.Block, start: V.Block, n0: nat): nat -> seq<byte> {
    (i: nat) => V.Offset(lstar, start, n0 + 1 + i)
  }

  lemma OffsetsAre(lstar: V.Block, start: V.Block, n0: nat)
    ensures forall i: nat {:trigger Offsets(lstar, start, n0)(i)} ::
              |Offsets(lstar, start, n0)(i)| == 16 && Offsets(lstar, start, n0)(i) == V.Offset(lstar, start, n0 + 1 + i)
  {
    forall i: nat
      ensures |Offsets(lstar, start, n0)(i)| == 16 && Offsets(lstar, start, n0)(i) == V.Offset(lstar, start, n0 + 1 + i)
    {
      var b: V.Block := V.Offset(lstar, start, n0 + 1 + i);
      assert Offsets(lstar, start, n0)(i) == b;
    }
  }

  lemma {:induction false} CryptFullIsWhiten(f: seq<byte> -> seq<byte>, lstar: V.Block, start: V.Block, n0: nat, p: seq<byte>)
    requires OnBlocks(f) && |p| % 16 == 0
    ensures (forall i: nat {:trigger Offsets(lstar, start, n0)(i)} :: |Offsets(lstar, start, n0)(i)| == 16)
    ensures |MaskRun(Offsets(lstar, start, n0), 0, |p| / 16)| == |p|
    ensures V.CryptFull(f, lstar, start, n0, p) == Whiten(f, MaskRun(Offsets(lstar, start, n0), 0, |p| / 16), p)
    decreases |p|
  {
    hide Xor, Blockwise, V.Offset;
    OffsetsAre(lstar, start, n0);
    if p == [] {
      NoBlocks(f);
      NoXor();
    } else {
      var m := |p| - 16;
      var b, o := p[m..], V.Offset(lstar, start, n0 + |p| / 16);
      CryptFullIsWhiten(f, lstar, start, n0, p[..m]);
      assert p == p[..m] + b;
      WhitenConcat(f, MaskRun(Offsets(lstar, start, n0), 0, m / 16), o, p[..m], b);
      BlockwiseNext(f, [], Xor(b, o));
      NoBlocks(f);
      assert [] + Xor(b, o) == Xor(b, o) && [] + f(Xor(b, o)) == f(Xor(b, o));
      XorCommutes(o, b);
    }
  }

  /** The checksum takes in n blocks of a buffer. */
  method SumBlocks(buf: array<byte>, at: nat, n: nat, sum0: V.Block, ghost s: seq<byte>) returns (sum: V.Block)
    requires at + 16 * n <= buf.Length && s == buf[at..at + 16 * n]
    ensures |s| % 16 == 0 && sum == Xor(sum0, V.Checksum(s))
  {
    hide Xor, V.Checksum;
    sum := sum0;
    NoSum(sum0);
    assert s[..0] == [];
    var i := 0;
    while i < n
      invariant 0 <= i <= n && sum == Xor(sum0, V.Checksum(s[..16 * i]))
    {
      var b := buf[at + 16 * i..at + 16 * i + 16];
      assert b == s[16 * i..16 * i + 16];
      SumNext(sum0, s[..16 * i], b);
      PrefixGrows(s, 16 * i, 16 * i + 16, b);
      sum := Xor(sum, b);
      i := i + 1;
    }
    assert s[..16 * n] == s;
  }

  lemma NoSum(sum: V.Block)
    ensures Xor(sum, V.Checksum([])) == sum
  {
    hide Xor;
    XorZero(sum);
  }

  lemma SumNext(sum: V.Block, s: seq<byte>, b: V.Block)
    requires |s| % 16 == 0
    ensures |s + b| % 16 == 0 && Xor(Xor(sum, V.Checksum(s)), b) == Xor(sum, V.Checksum(s + b))
  {
    hide Xor;
    assert (s + b)[..|s|] == s && (s + b)[|s|..] == b;
    XorAssociates(sum, V.Checksum(s), b);
  }

  lemma {:induction false} SumConcat(sum: V.Block, s: seq<byte>, t: seq<byte>)
    requires |s| % 16 == 0 && |t| % 16 == 0
    ensures |s + t| % 16 == 0 && Xor(Xor(sum, V.Checksum(s)), V.Checksum(t)) == Xor(sum, V.Checksum(s + t))
    decreases |t|
  {
    hide Xor, V.Checksum;
    if t == [] {
      assert s + t == s;
      NoSum(Xor(sum, V.Checksum(s)));
    } else {
      var m := |t| - 16;
      assert t == t[..m] + t[m..];
      SumConcat(sum, s, t[..m]);
      SumNext(Xor(sum, V.Checksum(s)), t[..m], t[m..]);
      SumNext(sum, s + t[..m], t[m..]);
      ConcatAssociates(s, t[..m], t[m..]);
    }
  }

  ghost predicate OffsetMasks(lstar: V.Block, start: V.Block, n0: nat) {
    forall i: nat {:trigger Offsets(lstar, start, n0)(i)} ::
      |Offsets(lstar, start, n0)(i)| == 16 && Offsets(lstar, start, n0)(i) == V.Offset(lstar, start, n0 + 1 + i)
  }

  /** The state in the middle of a batch, after i of its blocks. */
  ghost predicate Whitened(lstar: V.Block, start: V.Block, first: nat, outbuf: array<byte>, out0: seq<byte>, op: nat, inbuf: array<byte>,
                           in0: seq<byte>, ip: nat, total: nat, prev: seq<byte>, done: nat, tmpbuf: array<byte>, i: nat)
    requires OffsetMasks(lstar, start, first)
    reads outbuf, inbuf, tmpbuf
  {
    && ip + total <= |in0| && 16 * (done + i) <= total && 16 * i <= tmpbuf.Length
    && tmpbuf[..16 * i] == MaskRun(Offsets(lstar, start, first), done, i)
    && Progress(outbuf, out0, op, inbuf, in0, ip, total,
                prev + Xor(in0[ip..ip + total][16 * done..16 * done + 16 * i], MaskRun(Offsets(lstar, start, first), done, i)))
  }

  /** The checksum has taken in s. */
  ghost predicate Summed(sum0: V.Block, sum: V.Block, s: seq<byte>) {
    |s| % 16 == 0 && sum == Xor(sum0, V.Checksum(s))
  }

  /** The offsets of a batch, each from the one before and an L value, and the whitened input. */
  method OcbFirstHalf(encrypt: bool, t: O.Table, ghost start: V.Block, offset0: V.Block, n0: nat, outbuf: array<byte>, ghost out0: seq<byte>,
                      op: nat, inbuf: array<byte>, ghost in0: seq<byte>, ip: nat, ghost total: nat, ghost prev: seq<byte>, ghost first: nat,
                      done: nat, tmpbuf: array<byte>, curr: nat, sum0: V.Block) returns (offset: V.Block, sum: V.Block)
    requires O.TableOk(t) && offset0 == V.Offset(t.lStar, start, first + done) && n0 == first + done && n0 % 0x1_0000 + curr < 0x1_0000
    requires tmpbuf != outbuf && tmpbuf != inbuf && 16 * curr <= tmpbuf.Length && ip + total <= |in0| && 16 * (done + curr) <= total
    requires OffsetMasks(t.lStar, start, first) && |prev| == 16 * done && Progress(outbuf, out0, op, inbuf, in0, ip, total, prev)
    modifies outbuf, tmpbuf
    ensures offset == V.Offset(t.lStar, start, first + done + curr)
    ensures Whitened(t.lStar, start, first, outbuf, out0, op, inbuf, in0, ip, total, prev, done, tmpbuf, curr)
    ensures if encrypt then Summed(sum0, sum, in0[ip..ip + total][16 * done..16 * done + 16 * curr]) else sum == sum0
  {
    hide Xor, Progress, MaskRun, V.Offset, O.TableOk, V.L, Offsets, V.Checksum;
    ghost var data, mask := in0[ip..ip + total], Offsets(t.lStar, start, first);
    offset, sum := offset0, sum0;
    var blkn := n0;
    EmptyRun(mask, done);
    NoXor();
    NoSum(sum0);
    assert data[16 * done..16 * done] == [] && prev + [] == prev && tmpbuf[..0] == [];
    var i := 0;
    while i < curr
      invariant 0 <= i <= curr && blkn == n0 + i && offset == V.Offset(t.lStar, start, first + done + i)
      invariant Whitened(t.lStar, start, first, outbuf, out0, op, inbuf, in0, ip, total, prev, done, tmpbuf, i)
      invariant if encrypt then Summed(sum0, sum, data[16 * done..16 * done + 16 * i]) else sum == sum0
    {
      blkn := blkn + 1;
      SmallNumber(n0, i, curr);
      var l := O.GetL(t, blkn);
      ghost var x := data[16 * done..16 * done + 16 * i];
      if encrypt {
        NextInput(outbuf, out0, op, inbuf, in0, ip, total, prev + Xor(x, MaskRun(mask, done, i)), 16);
        var b := inbuf[ip + 16 * done + 16 * i..ip + 16 * done + 16 * i + 16];
        SumNext(sum0, x, b);
        SliceMore(data, 16 * done, 16 * done + 16 * i, 16 * done + 16 * i + 16);
        sum := Xor(sum, b);
      }
      O.NextOffset(t.lStar, start, blkn - 1);
      offset := Xor(offset, l);
      WhitenOne(offset, outbuf, out0, op, inbuf, in0, ip, total, prev, 16 * done, i, MaskRun(mask, done, i), tmpbuf);
      NextRun(mask, done, i);
      i := i + 1;
    }
  }

  lemma SmallNumber(n: nat, i: nat, curr: nat)
    requires n % 0x1_0000 + curr < 0x1_0000 && i < curr
    ensures (n + i + 1) % 0x1_0000 != 0
  {
  }

  /** So many blocks of a call, put out. */
  ghost predicate SoFar(f: seq<byte> -> seq<byte>, lstar: V.Block, start: V.Block, first: nat, data: seq<byte>, done: nat, c: seq<byte>)
    requires OnBlocks(f)
  {
    && OffsetMasks(lstar, start, first)
    && 16 * done <= |data| && |c| == 16 * done
    && c == Whiten(f, MaskRun(Offsets(lstar, start, first), 0, done), data[..16 * done])
  }

  method OcbBatch(f: seq<byte> -> seq<byte>, encrypt: bool, t: O.Table, ghost start: V.Block, offset0: V.Block, n0: nat, outbuf: array<byte>,
                  ghost out0: seq<byte>, op: nat, inbuf: array<byte>, ghost in0: seq<byte>, ip: nat, ghost total: nat, ghost first: nat,
                  done: nat, tmpbuf: array<byte>, curr: nat, sum0: V.Block, ghost c: seq<byte>)
    returns (offset: V.Block, sum: V.Block, ghost c': seq<byte>)
    requires O.TableOk(t) && offset0 == V.Offset(t.lStar, start, first + done) && n0 == first + done && n0 % 0x1_0000 + curr < 0x1_0000
    requires tmpbuf != outbuf && tmpbuf != inbuf && 16 * curr <= tmpbuf.Length && ip + total <= |in0| && 16 * (done + curr) <= total
    requires OnBlocks(f) && SoFar(f, t.lStar, start, first, in0[ip..ip + total], done, c)
    requires Progress(outbuf, out0, op, inbuf, in0, ip, total, c)
    modifies outbuf, tmpbuf
    ensures offset == V.Offset(t.lStar, start, first + done + curr) && |c'| == 16 * (done + curr) && c <= c'
    ensures SoFar(f, t.lStar, start, first, in0[ip..ip + total], done + curr, c')
    ensures Progress(outbuf, out0, op, inbuf, in0, ip, total, c')
    ensures Summed(sum0, sum, if encrypt then in0[ip..ip + total][16 * done..16 * (done + curr)] else c'[16 * done..])
  {
    hide Xor, Progress, MaskRun, V.Offset, O.TableOk, Whiten, Offsets, V.Checksum;
    ghost var data, mask := in0[ip..ip + total], Offsets(t.lStar, start, first);
    offset, sum := OcbFirstHalf(encrypt, t, start, offset0, n0, outbuf, out0, op, inbuf, in0, ip, total, c, first, done, tmpbuf, curr, sum0);
    ghost var w0, w := MaskRun(mask, 0, done), MaskRun(mask, done, curr);
    CryptBatch(f, outbuf, out0, op, inbuf, in0, ip, total, w0, done, curr, w, tmpbuf);
    MaskRunConcat(mask, 0, done, curr);
    c' := Whiten(f, w0 + w, data[..16 * (done + curr)]);
    PrefixGrows(data, 16 * done, 16 * (done + curr), data[16 * done..16 * (done + curr)]);
    WhitenConcat(f, w0, w, data[..16 * done], data[16 * done..16 * (done + curr)]);
    if !encrypt {
      Written(outbuf, out0, op, inbuf, in0, ip, total, c', 16 * done);
      sum := SumBlocks(outbuf, op + 16 * done, curr, sum, c'[16 * done..]);
    }
  }

  lemma Written(outbuf: array<byte>, out0: seq<byte>, op: nat, inbuf: array<byte>, in0: seq<byte>, ip: nat, total: nat, c: seq<byte>, i: nat)
    requires Progress(outbuf, out0, op, inbuf, in0, ip, total, c) && i <= |c|
    ensures op + |c| <= outbuf.Length && outbuf[op + i..op + |c|] == c[i..]
  {
    hide Splice;
    SpliceSlices(out0, op, c);
    assert outbuf[op + i..op + |c|] == outbuf[..][op..op + |c|][i..];
  }

  /** bulk_ocb_crypt_128 computes the offsets, the blocks and the checksum of RFC 7253, while no block
      number in the call is a multiple of 65536. */
  method BulkOcb(f: seq<byte> -> seq<byte>, encrypt: bool, t: O.Table, ghost start: V.Block, offset0: V.Block, sum0: V.Block, blkn0: nat,
                 outbuf: array<byte>, op: nat, inbuf: array<byte>, ip: nat, nblocks0: nat, tmpbuf: array<byte>, T: nat, ghost data: seq<byte>)
    returns (offset: V.Block, sum: V.Block, blkn: nat)
    requires O.TableOk(t) && OnBlocks(f) && offset0 == V.Offset(t.lStar, start, blkn0) && blkn0 % 0x1_0000 + nblocks0 < 0x1_0000
    requires 0 < T && 16 * T <= tmpbuf.Length && tmpbuf != outbuf && tmpbuf != inbuf && Separate(outbuf, op, inbuf, ip)
    requires op + 16 * nblocks0 <= outbuf.Length && ip + 16 * nblocks0 <= inbuf.Length && data == inbuf[ip..ip + 16 * nblocks0]
    modifies outbuf, tmpbuf
    ensures |data| % 16 == 0 && blkn == blkn0 + nblocks0 && offset == V.Offset(t.lStar, start, blkn)
    ensures var c := V.CryptFull(f, t.lStar, start, blkn0, data);
            outbuf[..] == Splice(old(outbuf[..]), op, c) && sum == Xor(sum0, V.Checksum(if encrypt then data else c))
  {
    hide Xor, Progress, MaskRun, V.Offset, V.CryptFull, V.Checksum, O.TableOk, Whiten, Offsets, Splice;
    ghost var out0, in0, total := outbuf[..], inbuf[..], 16 * nblocks0;
    assert data == in0[ip..ip + total] && data[..0] == [];
    Starts(outbuf, op, inbuf, ip, total);
    OffsetsAre(t.lStar, start, blkn0);
    ghost var c: seq<byte> := [];
    CryptFullIsWhiten(f, t.lStar, start, blkn0, []);
    O.NoBlocks(f, t.lStar, start, blkn0);
    NoSum(sum0);
    offset, sum, blkn := offset0, sum0, blkn0;
    var nblocks, done := nblocks0, 0;
    while nblocks >= 1
      invariant 0 <= nblocks && done + nblocks == nblocks0 && blkn == blkn0 + done && offset == V.Offset(t.lStar, start, blkn)
      invariant |c| == 16 * done && SoFar(f, t.lStar, start, blkn0, data, done, c)
      invariant Progress(outbuf, out0, op, inbuf, in0, ip, total, c)
      invariant Summed(sum0, sum, if encrypt then data[..16 * done] else c)
    {
      var curr := Batch(nblocks, T);
      FewNumbers(blkn0, done, nblocks);
      ghost var was, s0 := c, sum;
      offset, sum, c := OcbBatch(f, encrypt, t, start, offset, blkn, outbuf, out0, op, inbuf, in0, ip, total, blkn0, done, tmpbuf, curr, sum, c);
      if encrypt {
        SumConcat(sum0, data[..16 * done], data[16 * done..16 * (done + curr)]);
        PrefixGrows(data, 16 * done, 16 * (done + curr), data[16 * done..16 * (done + curr)]);
      } else {
        SumConcat(sum0, was, c[16 * done..]);
        assert was + c[16 * done..] == c;
      }
      blkn := blkn + curr;
      nblocks := nblocks - curr;
      done := done + curr;
    }
    assert data[..total] == data && |data| / 16 == nblocks0;
    CryptFullIsWhiten(f, t.lStar, start, blkn0, data);
    Ends(outbuf, out0, op, inbuf, in0, ip, total, c);
  }

  lemma FewNumbers(n: nat, done: nat, left: nat)
    requires n % 0x1_0000 + done + left < 0x1_0000
    ensures (n + done) % 0x1_0000 + left < 0x1_0000
  {
  }
}
