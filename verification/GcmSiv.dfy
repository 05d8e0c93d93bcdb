/** cipher-gcm-siv.c: the GCM-SIV handle as a state machine, refining RFC 8452 for any split of the
    associated data into calls. */
module GcmSiv {
  import opened BitWords
  import opened Bytes
  import opened CipherBlock
  import opened CbcMac
  import opened Rfc8452
  import B = Bulk
  import G = GhashPpc
  import GF = GaloisField

  // ---- mulx_ghash ----

  /** 0xe1 in the top octet, where the mask is all ones. */
  function MaskE1(ones: bool): Word {
    seq(64, i => ones && (i == 63 || i == 62 || i == 61 || i == 56))
  }

  lemma MulxWords(t0: Word, t1: Word)
    ensures GF.Add(Shr(t1, 1), Shl(t0, 63)) + GF.Add(Shr(t0, 1), MaskE1(t1[0])) == GF.DivX(t1 + t0)
  {
  }

  /** The shift and mask of mulx_ghash divide by x. */
  method MulxGhash(a: Block) returns (r: Block)
    ensures BitsBE(r) == GF.DivX(BitsBE(a))
  {
    hide BitsBE, OctetsBE, Shr, Shl, MaskE1, GF.DivX, GF.Add;
    var t0, t1 := Get64(a, 0), Get64(a, 8);
    assert a == a[0..8] + a[8..16];
    BitsConcat(a[0..8], a[8..16]);
    MulxWords(t0, t1);
    var low, high := GF.Add(Shr(t1, 1), Shl(t0, 63)), GF.Add(Shr(t0, 1), MaskE1(t1[0]));
    r := OctetsBE(high) + OctetsBE(low);
    BitsConcat(OctetsBE(high), OctetsBE(low));
    BitsOfOctets(high);
    BitsOfOctets(low);
  }

  // ---- the byte counters ----

  type Word32 = n: nat | n < 0x1_0000_0000

  /** ctr[0] and ctr[1] */
  datatype Count = Count(lo: Word32, hi: Word32) {
    function Value(): nat {
      lo + 0x1_0000_0000 * hi
    }
  }

  /** gcm_siv_bytecounter_add for a 64-bit size_t: the carry is looked for by comparing the low
      word with all of add. */
  function CounterAdd(c: Count, add: nat): Count
    requires add < 0x1_0000_0000_0000_0000
  {
    var hi := (c.hi + add / 0x1_0000_0000) % 0x1_0000_0000;
    var lo := (c.lo + add) % 0x1_0000_0000;
    Count(lo, if lo >= add then hi else (hi + 1) % 0x1_0000_0000)
  }

  /** The words of the new counter, for add = q * 2^32 + r. */
  lemma CounterWords(c: Count, q: nat, r: nat)
    requires q < 0x1_0000_0000 && r < 0x1_0000_0000
    ensures var carry := c.lo + r >= 0x1_0000_0000;
            var up := q > 0 || carry;
            CounterAdd(c, 0x1_0000_0000 * q + r)
              == Count(if carry then c.lo + r - 0x1_0000_0000 else c.lo + r, Wrap32(c.hi + q + if up then 1 else 0))
  {
    var add := 0x1_0000_0000 * q + r;
    assert add / 0x1_0000_0000 == q;
    var carry := c.lo + r >= 0x1_0000_0000;
    var lo := if carry then c.lo + r - 0x1_0000_0000 else c.lo + r;
    assert (c.lo + add) % 0x1_0000_0000 == lo by {
      DivModUnique(c.lo + add, 0x1_0000_0000, if carry then q + 1 else q, lo);
    }
    WrapAgain(c.hi + q);
  }

  function Wrap32(n: nat): nat {
    n % 0x1_0000_0000
  }

  lemma WrapAgain(n: nat)
    ensures Wrap32(Wrap32(n) + 1) == Wrap32(n + 1)
  {
  }

  /** The counter as one 64-bit number. */
  lemma Sum64(lo: nat, hi: nat, q: nat, r: nat)
    requires lo < 0x1_0000_0000 && hi < 0x1_0000_0000 && q < 0x1_0000_0000 && r < 0x1_0000_0000
    ensures var carry := lo + r >= 0x1_0000_0000;
            (lo + 0x1_0000_0000 * hi + 0x1_0000_0000 * q + r) % 0x1_0000_0000_0000_0000
              == (if carry then lo + r - 0x1_0000_0000 else lo + r) + 0x1_0000_0000 * Wrap32(hi + q + if carry then 1 else 0)
  {
    var carry := lo + r >= 0x1_0000_0000;
    var h := hi + q + if carry then 1 else 0;
    DivModUnique(lo + 0x1_0000_0000 * hi + 0x1_0000_0000 * q + r, 0x1_0000_0000_0000_0000, h / 0x1_0000_0000,
                 (if carry then lo + r - 0x1_0000_0000 else lo + r) + 0x1_0000_0000 * Wrap32(h));
  }

  /** Calls the counter gets right: fewer than 2^32 octets, or a carry out of the low word. */
  predicate Exact(c: Count, add: nat) {
    && (add < 0x1_0000_0000 || c.lo + add % 0x1_0000_0000 >= 0x1_0000_0000)
    && c.Value() + add < 0x1_0000_0000_0000_0000
  }

  /** The words read together are the sum modulo 2^64 unless a carry is added that is none. */
  lemma CounterModulo(c: Count, add: nat, q: nat, r: nat)
    requires add == 0x1_0000_0000 * q + r && q < 0x1_0000_0000 && r < 0x1_0000_0000
    ensures CounterAdd(c, add).Value() == (c.Value() + add) % 0x1_0000_0000_0000_0000 <==> q == 0 || c.lo + r >= 0x1_0000_0000
  {
    hide CounterAdd, Wrap32;
    CounterWords(c, q, r);
    Sum64(c.lo, c.hi, q, r);
    WrapDiffers(c.hi + q);
  }

  /** The counter is exact just when it does not overflow and add is below 2^32 or its low word carries. */
  lemma CounterExact(c: Count, add: nat)
    requires add < 0x1_0000_0000_0000_0000
    ensures CounterAdd(c, add).Value() == c.Value() + add <==> Exact(c, add)
  {
    hide CounterAdd;
    DivMod(add, 0x1_0000_0000);
    CounterModulo(c, add, add / 0x1_0000_0000, add % 0x1_0000_0000);
    if c.Value() + add < 0x1_0000_0000_0000_0000 {
      DivModUnique(c.Value() + add, 0x1_0000_0000_0000_0000, 0, c.Value() + add);
    }
  }

  lemma WrapDiffers(n: nat)
    ensures Wrap32(n) != Wrap32(n + 1)
  {
  }

  /** A call with 2^32 octets that is counted as 2^33. */
  lemma CounterExample()
    ensures CounterAdd(Count(0, 0), 0x1_0000_0000).Value() == 0x2_0000_0000
  {
  }

  /** gcm_siv_check_len */
  function CheckLen(c: Count): bool {
    if c.hi > 0xf then false
    else if c.hi < 0xf then true
    else c.lo <= 0xffff_ffe0
  }

  lemma CheckLenMeans(c: Count)
    ensures CheckLen(c) <==> c.Value() <= 0x10_0000_0000 - 32
  {
  }

  /** The 64-bit number of bits, from shifted words. */
  function BitLength(c: Count): seq<byte> {
    ToLittleEndian(8 * c.lo % 0x1_0000_0000, 4) + ToLittleEndian(c.lo / 0x2000_0000 + 8 * c.hi % 0x1_0000_0000, 4)
  }

  lemma BitLengthMeans(c: Count)
    requires CheckLen(c)
    ensures BitLength(c) == ToLittleEndian(8 * c.Value(), 8)
  {
    hide ToLittleEndian, LittleEndian, Pow256;
    var x, y := 8 * c.lo % 0x1_0000_0000, c.lo / 0x2000_0000 + 8 * c.hi % 0x1_0000_0000;
    LittleEndianRoundTrip(x, 4);
    LittleEndianRoundTrip(y, 4);
    LittleEndianConcat(ToLittleEndian(x, 4), ToLittleEndian(y, 4));
    LittleEndianRoundTrip(8 * c.Value(), 8);
    Pow256Values();
    ShiftedWords(c.lo, c.hi);
    LittleEndianInjective(BitLength(c), ToLittleEndian(8 * c.Value(), 8));
  }

  lemma ShiftedWords(lo: Word32, hi: nat)
    requires hi <= 15
    ensures var x := 8 * lo % 0x1_0000_0000;
            var y := lo / 0x2000_0000 + 8 * hi % 0x1_0000_0000;
            var v := 8 * (lo + 0x1_0000_0000 * hi);
            x % 0x1_0000_0000 == x && y % 0x1_0000_0000 == y
              && v % 0x1_0000_0000_0000_0000 == v == x + 0x1_0000_0000 * y
  {
    assert 8 * lo == 8 * (lo % 0x2000_0000) + 0x1_0000_0000 * (lo / 0x2000_0000);
    DivModUnique(8 * lo, 0x1_0000_0000, lo / 0x2000_0000, 8 * (lo % 0x2000_0000));
  }

  // ---- do_polyval_buf ----

  /** GHASH of reversed blocks with the doubled key is POLYVAL. */
  lemma GhashStep(key: GF.Vec, h: GF.Vec, full: seq<byte>, b: Block)
    requires |full| % 16 == 0 && key == GF.DivX(h)
    ensures |full + b| % 16 == 0
    ensures G.NistMul(GF.Add(Polyval(h, full), BitsBE(Reverse(b))), key) == Polyval(h, full + b)
  {
    hide GF.DivX, Dot, GF.Add, BitsBE;
    assert (full + b)[..|full|] == full && (full + b)[|full|..] == b;
    LoadReversed(b);
    NistMulIsDot(GF.Add(Polyval(h, full), LoadLE(b)), h);
  }

  class Hash {
    const auth: Block              // the message-authentication key
    const key: Block               // u_ghash_key.key
    const macbuf: array<byte>
    var tag: Block                 // u_tag.tag
    var unused: nat                // filled octets of macbuf
    ghost var full: seq<byte>      // whole blocks already hashed

    ghost predicate Valid()
      reads this, macbuf
      ensures Valid() ==> macbuf.Length == 16 && unused < 16
    {
      && macbuf.Length == 16 && unused < 16 && Hashed()
    }

    ghost predicate Hashed()
      reads this`full, this`tag
      ensures Hashed() ==> |full| % 16 == 0
    {
      && |full| % 16 == 0 && BitsBE(key) == GF.DivX(LoadLE(auth))
      && BitsBE(tag) == Polyval(LoadLE(auth), full)
    }

    /** Everything fed so far, with the padding that was added. */
    ghost function Fed(): seq<byte>
      requires macbuf.Length == 16 && unused <= 16
      reads this, macbuf
    {
      full + macbuf[..unused]
    }

    /** polyval_set_key */
    constructor (auth: Block)
      ensures Valid() && Fed() == [] && this.auth == auth && fresh(macbuf)
    {
      hide GF.DivX, BitsBE;
      LoadReversed(auth);
      ZeroIsZero();
      this.auth := auth;
      var k := MulxGhash(Reverse(auth));
      key := k;
      macbuf := new byte[16];
      tag, unused, full := ZeroBytes(16), 0, [];
    }

    /** The hash, reversed, is the digest of RFC 8452. */
    lemma DigestIs(data: seq<byte>)
      requires Valid() && full == data
      ensures |data| % 16 == 0 && Reverse(tag) == StoreLE(Polyval(LoadLE(auth), data))
    {
      hide BitsBE, OctetsBE, Polyval, LoadLE, GF.DivX;
      OctetsOfBits(tag);
    }

    /** One block of ghash_fn on a block already reversed. */
    method HashBlock(ghost b: Block, r: Block)
      requires Hashed() && r == Reverse(b)
      modifies this`tag, this`full
      ensures Hashed() && full == old(full) + b
    {
      hide GF.DivX, GF.Add, BitsBE, OctetsBE, G.NistMul, Polyval;
      GhashStep(BitsBE(key), LoadLE(auth), full, b);
      var t := G.NistMul(GF.Add(BitsBE(tag), BitsBE(r)), BitsBE(key));
      BitsOfOctets(t);
      tag := OctetsBE(t);
      full := full + b;
    }

    /** The block in macbuf, which is reversed in place. */
    method HashBuffer()
      requires macbuf.Length == 16 && unused == 16 && Hashed()
      modifies this`tag, this`full, this`unused, macbuf
      ensures Valid() && unused == 0 && full == old(Fed())
    {
      hide Hashed;
      ghost var b := macbuf[..];
      var r := Reverse(macbuf[..]);
      Put(macbuf, 0, r);
      assert macbuf[..] == r;
      HashBlock(b, macbuf[..]);
      unused := 0;
    }

    /** Up to sixteen blocks are reversed into tmp_blocks, then hashed. */
    method HashBatch(buf: seq<byte>, pos: nat, n: nat)
      requires Hashed() && pos + 16 * n <= |buf|
      modifies this`tag, this`full
      ensures Hashed() && full == old(full) + buf[pos..pos + 16 * n]
    {
      hide Hashed;
      var tmp := seq(n, i requires 0 <= i < n => Reverse(buf[pos + 16 * i..pos + 16 * i + 16]));
      ghost var f0 := full;
      assert buf[pos..pos] == [];
      var i := 0;
      while i < n
        invariant 0 <= i <= n && Hashed() && full == f0 + buf[pos..pos + 16 * i]
      {
        HashBlock(buf[pos + 16 * i..pos + 16 * i + 16], tmp[i]);
        SliceMore(buf, pos, pos + 16 * i, pos + 16 * i + 16);
        ConcatAssociates(f0, buf[pos..pos + 16 * i], buf[pos + 16 * i..pos + 16 * i + 16]);
        i := i + 1;
      }
    }

    /** The inner loop: whole blocks straight from the input. */
    method HashWhole(buf: seq<byte>, start: nat) returns (pos: nat)
      requires Hashed() && start <= |buf|
      modifies this`tag, this`full
      ensures Hashed() && start <= pos <= |buf| < pos + 16 && full == old(full) + buf[start..pos]
    {
      hide Hashed;
      ghost var f0 := full;
      var nblocks := (|buf| - start) / 16;
      pos := start;
      while nblocks > 0
        invariant 0 <= nblocks && start <= pos <= |buf| && 16 * nblocks <= |buf| - pos < 16 * nblocks + 16
        invariant Hashed() && full == f0 + buf[start..pos]
      {
        var n := if nblocks > 16 then 16 else nblocks;
        HashBatch(buf, pos, n);
        SliceMore(buf, start, pos, pos + 16 * n);
        ConcatAssociates(f0, buf[start..pos], buf[pos..pos + 16 * n]);
        pos := pos + 16 * n;
        nblocks := nblocks - n;
      }
    }

    method Fill(s: seq<byte>, pos: nat, n: nat)
      requires macbuf.Length == 16 && unused + n <= 16 && pos + n <= |s|
      modifies this`unused, macbuf
      ensures unused == old(unused) + n && Fed() == old(Fed()) + s[pos..pos + n]
    {
      ghost var u, m0 := unused, macbuf[..unused];
      forall i | 0 <= i < n {
        macbuf[unused + i] := s[pos + i];
      }
      unused := unused + n;
      assert macbuf[..unused] == m0 + s[pos..pos + n];
    }

    /** One turn of the outer loop.  Stops when the input is used up. */
    method Turn(buf: seq<byte>, start: nat, doPadding: bool, ghost was: seq<byte>) returns (pos: nat)
      requires Valid() && start <= |buf| && Fed() == was + buf[..start]
      requires start < |buf| || (unused > 0 && doPadding)
      modifies this, macbuf
      ensures Valid() && start <= pos <= |buf| && (pos < |buf| ==> start < pos)
      ensures pos < |buf| || !doPadding ==> Fed() == was + buf[..pos]
      ensures pos == |buf| && doPadding ==> unused == 0 && full == PadZero(was + buf)
    {
      hide Hashed, PadZero;
      pos := start;
      if pos < |buf| && (|buf| - pos + unused < 16 || unused > 0) {
        var n := if |buf| - pos > 16 - unused then 16 - unused else |buf| - pos;
        Fill(buf, pos, n);
        PrefixMore(was, buf, pos, pos + n);
        pos := pos + n;
      }
      assert buf[..|buf|] == buf;
      if pos == |buf| {
        if !doPadding && unused < 16 {
          return;
        }
        PadLength(full, macbuf[..unused]);
        var n := 16 - unused;
        if n > 0 {
          Fill(ZeroBytes(n), 0, n);
        }
        assert Fed() == was + buf + ZeroBytes(n);
        HashBuffer();
      } else if unused > 0 {
        assert unused == 16;  // a buffered block is full here, as the code asserts
        HashBuffer();
      }
      if pos < |buf| {
        ghost var p := pos;
        pos := HashWhole(buf, pos);
        PrefixMore(was, buf, p, pos);
        WholePrefix(was, buf, pos, full);
      }
    }

    /** do_polyval_buf */
    method Feed(buf: seq<byte>, doPadding: bool)
      requires Valid()
      modifies this, macbuf
      ensures Valid()
      ensures !doPadding ==> Fed() == old(Fed()) + buf
      ensures doPadding ==> unused == 0 && full == PadZero(old(Fed()) + buf)
    {
      hide Hashed, PadZero;
      ghost var was := Fed();
      assert was + buf[..0] == was;
      if |buf| == 0 && (unused == 0 || !doPadding) {
        assert was + buf == was;
        if unused == 0 {
          assert was == full;
          WholeIsPadded(was);
        }
        return;
      }
      var pos := Turn(buf, 0, doPadding, was);
      while pos < |buf|
        invariant Valid() && 0 <= pos <= |buf|
        invariant pos < |buf| || !doPadding ==> Fed() == was + buf[..pos]
        invariant pos == |buf| && doPadding ==> unused == 0 && full == PadZero(was + buf)
      {
        pos := Turn(buf, pos, doPadding, was);
      }
      assert buf[..pos] == buf;
    }
  }

  lemma ZeroIsZero()
    ensures BitsBE(ZeroBytes(16)) == GF.ZERO
  {
  }

  /** When whole blocks use up the input nothing is left to pad. */
  lemma WholePrefix(was: seq<byte>, buf: seq<byte>, pos: nat, full: seq<byte>)
    requires pos <= |buf| && |full| % 16 == 0 && full == was + buf[..pos]
    ensures pos == |buf| ==> full == PadZero(was + buf)
  {
    hide PadZero;
    if pos == |buf| {
      assert buf[..pos] == buf;
      WholeIsPadded(was + buf);
    }
  }

  // ---- do_ctr_le32 ----

  /** The next octets of a call, xored with the start of key stream block q. */
  method CtrPart(k: Cipher, ctr0: Block, ghost q: nat, tmp: Block, outbuf: array<byte>, ghost out0: seq<byte>, op: nat,
                 inbuf: array<byte>, ghost in0: seq<byte>, ip: nat, ghost data: seq<byte>, done: nat, n: nat)
    requires k.Valid() && k.bs == 16 && tmp == k.enc(IncLE32(ctr0, q)) && n <= 16 && done == 16 * q && done + n <= |data|
    requires Xored(outbuf, out0, op, inbuf, in0, ip, data, KeyStream(k, ctr0, 0, done))
    modifies outbuf
    ensures Xored(outbuf, out0, op, inbuf, in0, ip, data, KeyStream(k, ctr0, 0, done + n))
  {
    hide KeyByte, KeyStream, IncLE32, Xor, Splice, Front;
    ghost var st := KeyStream(k, ctr0, 0, done);
    XoredApart(outbuf, out0, op, inbuf, in0, ip, data, st);
    XoredRead(outbuf, out0, op, inbuf, in0, ip, data, st, n);
    StreamBlock(k, ctr0, q);
    StreamSlice(k, ctr0, 16 * q, 16, 0, n);
    StreamConcat(k, ctr0, 0, done, n);
    assert tmp[..n] == tmp[0..n];
    XoredPut(outbuf, out0, op, inbuf, in0, ip, data, st, KeyStream(k, ctr0, done, n), op + done,
             Xor(inbuf[ip + done..ip + done + n], tmp[..n]));
  }

  /** The first word of the counter plus one. */
  method NextCounter(k: Cipher, ctr: Block, ghost ctr0: Block, ghost q: nat) returns (next: Block)
    requires ctr == IncLE32(ctr0, q)
    ensures next == IncLE32(ctr0, q + 1)
  {
    hide LittleEndian, ToLittleEndian;
    IncNext(ctr0, q);
    next := ToLittleEndian((LittleEndian(ctr[..4]) + 1) % 0x1_0000_0000, 4) + ctr[4..];
    Truncates(LittleEndian(ctr[..4]) + 1);
  }

  lemma Truncates(n: nat)
    ensures ToLittleEndian(n % 0x1_0000_0000, 4) == ToLittleEndian(n, 4)
  {
    hide LittleEndian, ToLittleEndian, Pow256;
    LittleEndianRoundTrip(n, 4);
    LittleEndianRoundTrip(n % 0x1_0000_0000, 4);
    Pow256Values();
    LittleEndianInjective(ToLittleEndian(n % 0x1_0000_0000, 4), ToLittleEndian(n, 4));
  }

  /** The front of a call that has put out counter mode on its first n octets. */
  lemma FrontOfStream(k: Cipher, ctr0: Block, outbuf: array<byte>, out0: seq<byte>, op: nat, inbuf: array<byte>, in0: seq<byte>,
                      ip: nat, data: seq<byte>, n: nat)
    requires k.Valid() && k.bs == 16 && n <= |data| && op + |data| <= |out0| == outbuf.Length && |in0| == inbuf.Length
    requires ip + |data| <= |in0| && data == in0[ip..ip + |data|] && Separate(outbuf, op, inbuf, ip)
    requires outbuf[..] == Splice(out0, op, AesCtr(k, ctr0, data[..n]))
    requires if outbuf == inbuf then in0 == out0 else inbuf[..] == in0
    ensures Xored(outbuf, out0, op, inbuf, in0, ip, data, KeyStream(k, ctr0, 0, n))
  {
    hide KeyByte, Splice;
  }

  lemma IncKeeps(ctr0: Block, q: nat)
    ensures IncLE32(ctr0, q)[4..] == ctr0[4..]
  {
    hide LittleEndian, ToLittleEndian;
  }

  method DoCtrLe32(k: Cipher, bulk: bool, ctr0: Block, outbuf: array<byte>, op: nat, inbuf: array<byte>, ip: nat,
                   inbuflen: nat, ghost data: seq<byte>) returns (ctr: Block)
    requires k.Valid() && k.bs == 16 && op + inbuflen <= outbuf.Length && ip + inbuflen <= inbuf.Length
    requires Separate(outbuf, op, inbuf, ip) && data == inbuf[ip..ip + inbuflen]
    modifies outbuf
    ensures outbuf[..] == Splice(old(outbuf[..]), op, AesCtr(k, ctr0, data))
    ensures ctr[4..] == ctr0[4..]
  {
    hide KeyByte, KeyStream, Xored, Splice, Xor;
    ghost var out0, in0 := outbuf[..], inbuf[..];
    XoredNothing(outbuf, op, inbuf, ip, inbuflen);
    assert KeyStream(k, ctr0, 0, 0) == [];
    ctr := ctr0;
    IncStart(ctr0);
    if inbuflen == 0 {
      XoredAll(outbuf, out0, op, inbuf, in0, ip, data, KeyStream(k, ctr0, 0, 0));
      return;
    }
    var nblocks := inbuflen / 16;
    var done := 0;
    ghost var q := 0;
    if nblocks > 0 && bulk {
      var tmpbuf := new byte[256];
      done := 16 * nblocks;
      q := nblocks;
      assert data[..done] == inbuf[ip..ip + done];
      ctr := B.BulkCtr32Le(k, outbuf, op, inbuf, ip, nblocks, ctr0, tmpbuf, 16, data[..done]);
      FrontOfStream(k, ctr0, outbuf, out0, op, inbuf, in0, ip, data, done);
      IncKeeps(ctr0, q);
    }
    var tmp: Block := ZeroBytes(16);
    var more := true;
    while more
      invariant done <= inbuflen && (more ==> done == 16 * q && ctr == IncLE32(ctr0, q)) && ctr[4..] == ctr0[4..]
      invariant !more ==> done == inbuflen
      invariant Xored(outbuf, out0, op, inbuf, in0, ip, data, KeyStream(k, ctr0, 0, done))
      decreases inbuflen - done, more
      modifies outbuf
    {
      tmp := k.enc(ctr);
      ctr := NextCounter(k, ctr, ctr0, q);
      assert ctr[4..] == ctr0[4..];
      if inbuflen - done < 16 {
        break;
      }
      CtrPart(k, ctr0, q, tmp, outbuf, out0, op, inbuf, in0, ip, data, done, 16);
      done := done + 16;
      q := q + 1;
      more := done < inbuflen;
    }
    if done < inbuflen {
      CtrPart(k, ctr0, q, tmp, outbuf, out0, op, inbuf, in0, ip, data, done, inbuflen - done);
    }
    XoredAll(outbuf, out0, op, inbuf, in0, ip, data, KeyStream(k, ctr0, 0, inbuflen));
  }

  // ---- the handle ----

  datatype Status = Ok | InvState | InvLength | InvArg | BufferTooShort | BadTag

  /** What has become of a handle's message: sealed, or opened with an answer. */
  datatype Outcome = Pending | DidSeal(msg: seq<byte>, text: seq<byte>) | DidOpen(text: seq<byte>, answer: Opened)

  /** The associated data so far, whether every call kept the byte counter exact, and the message. */
  datatype Log = Log(aad: seq<byte>, exact: bool, done: Outcome)

  /** The values of a handle. */
  datatype Session = Session(aadlen: Count, datalen: Count, over: bool, aadFinal: bool, dataFinal: bool,
                             marksTag: bool, tagiv: Block, log: Log)

  const NO_OCTETS := Count(0, 0)

  ghost predicate Good(s: Session, fed: seq<byte>) {
    && (!s.over && !s.dataFinal ==> !s.aadFinal && s.datalen == NO_OCTETS && fed == s.log.aad)
    && (!s.over ==> CheckLen(s.aadlen) && (s.log.exact ==> s.aadlen.Value() == |s.log.aad|))
  }

  /** What _gcry_cipher_gcm_siv_authenticate answers. */
  function AuthStatus(s: Session, n: nat): Status
    requires n < 0x1_0000_0000_0000_0000
  {
    if s.over then InvLength
    else if s.marksTag || s.aadFinal || s.dataFinal then InvState
    else if CheckLen(CounterAdd(s.aadlen, n)) then Ok
    else InvLength
  }

  /** What _gcry_cipher_gcm_siv_encrypt answers, and _decrypt before it compares tags. */
  function CryptStatus(s: Session, decrypt: bool, outbuflen: nat, n: nat): Status
    requires n < 0x1_0000_0000_0000_0000
  {
    if outbuflen < n then BufferTooShort
    else if s.over then InvLength
    else if s.marksTag != decrypt || s.dataFinal then InvState
    else if CheckLen(CounterAdd(s.datalen, n)) then Ok
    else InvLength
  }

  /** The length block of a message of n octets, as the counters have it. */
  function Lengths(aadlen: Count, n: nat): Block
    requires n < 0x1_0000_0000_0000_0000
  {
    BitLength(aadlen) + BitLength(CounterAdd(NO_OCTETS, n))
  }

  /** The counters are right, and with them the length block, when every call to authenticate was
      exact and the message has fewer than 2^32 octets; a longer message is counted wrong. */
  lemma LengthsExact(s: Session, fed: seq<byte>, n: nat)
    requires Good(s, fed) && !s.over && s.log.exact && n < 0x1_0000_0000_0000_0000
    requires CheckLen(CounterAdd(NO_OCTETS, n))
    ensures Lengths(s.aadlen, n) == LengthBlock(|s.log.aad|, n) <==> n < 0x1_0000_0000
  {
    hide BitLength, ToLittleEndian, CounterAdd, Exact, LengthBlock, Lengths, Good;
    var d := CounterAdd(NO_OCTETS, n);
    assert s.aadlen.Value() == |s.log.aad| && CheckLen(s.aadlen) by { GoodCounts(s, fed); }
    BitLengthMeans(s.aadlen);
    BitLengthMeans(d);
    SecondHalves(s.aadlen, n, |s.log.aad|);
    FirstCount(n);
    if n < 0x1_0000_0000 {
    } else {
      BitCountsDiffer(d.Value(), n);
    }
  }

  lemma GoodCounts(s: Session, fed: seq<byte>)
    requires Good(s, fed) && !s.over && s.log.exact
    ensures s.aadlen.Value() == |s.log.aad| && CheckLen(s.aadlen)
  {
  }

  lemma SecondHalves(a: Count, n: nat, m: nat)
    requires n < 0x1_0000_0000_0000_0000
    ensures |BitLength(a)| == 8
    ensures Lengths(a, n) == BitLength(a) + BitLength(CounterAdd(NO_OCTETS, n))
    ensures LengthBlock(m, n) == ToLittleEndian(8 * m, 8) + ToLittleEndian(8 * n, 8)
    ensures Lengths(a, n)[8..] == BitLength(CounterAdd(NO_OCTETS, n)) && LengthBlock(m, n)[8..] == ToLittleEndian(8 * n, 8)
  {
  }

  /** The first call with 2^32 octets or more is counted 2^32 too high. */
  lemma FirstCount(n: nat)
    requires n < 0x1_0000_0000_0000_0000 && CheckLen(CounterAdd(NO_OCTETS, n))
    ensures CounterAdd(NO_OCTETS, n).Value()
         == if n < 0x1_0000_0000 then n else (n + 0x1_0000_0000) % 0x1_0000_0000_0000_0000
  {
    hide CounterAdd, CheckLen, Wrap32;
    var q, r := n / 0x1_0000_0000, n % 0x1_0000_0000;
    DivMod(n, 0x1_0000_0000);
    CounterWords(NO_OCTETS, q, r);
    if q == 0 {
      assert Wrap32(0) == 0 by { ZeroWraps(); }
    } else {
      Sum64(0, 1, q, r);
    }
  }

  lemma ZeroWraps()
    ensures Wrap32(0) == 0
  {
  }

  lemma BitCountsDiffer(m: nat, n: nat)
    requires m == (n + 0x1_0000_0000) % 0x1_0000_0000_0000_0000
    ensures ToLittleEndian(8 * m, 8) != ToLittleEndian(8 * n, 8)
  {
    hide ToLittleEndian, LittleEndian, Pow256;
    LittleEndianRoundTrip(8 * m, 8);
    LittleEndianRoundTrip(8 * n, 8);
    Pow256Values();
  }

  lemma PadZeroAfterWhole(whole: seq<byte>, m: seq<byte>)
    requires |whole| % 16 == 0
    ensures PadZero(whole + m) == whole + PadZero(m)
  {
    hide ZeroBytes;
    assert |whole + m| % 16 == |m| % 16;
    ConcatAssociates(whole, m, ZeroBytes((16 - |m| % 16) % 16));
  }

  lemma WholesJoin(a: seq<byte>, b: seq<byte>)
    requires |a| % 16 == 0 && |b| % 16 == 0
    ensures |a + b| % 16 == 0
  {
  }

  lemma PadZeroTwice(a: seq<byte>, m: seq<byte>, lengths: Block)
    ensures PadZero(PadZero(PadZero(a) + m) + lengths) == MacInput(a, m, lengths)
  {
    hide PadZero;
    PadZeroAfterWhole(PadZero(a), m);
    WholesJoin(PadZero(a), PadZero(m));
    WholesJoin(PadZero(a) + PadZero(m), lengths);
    WholeIsPadded(PadZero(a) + PadZero(m) + lengths);
  }

  /** The keys of section 4 of RFC 8452: halves of blocks that number the nonce. */
  function Half(k: Cipher, nonce: seq<byte>, i: nat): (h: seq<byte>)
    requires k.Valid() && k.bs == 16 && |nonce| == 12
    ensures |h| == 8
  {
    k.enc(ToLittleEndian(i, 4) + nonce)[..8]
  }

  function AuthKey(k: Cipher, nonce: seq<byte>): Block
    requires k.Valid() && k.bs == 16 && |nonce| == 12
  {
    Half(k, nonce, 0) + Half(k, nonce, 1)
  }

  function EncKey(k: Cipher, nonce: seq<byte>, keylen: nat): (e: seq<byte>)
    requires k.Valid() && k.bs == 16 && |nonce| == 12 && keylen in {16, 32}
    ensures |e| == keylen
  {
    var e := Half(k, nonce, 2) + Half(k, nonce, 3);
    if keylen == 16 then e else e + Half(k, nonce, 4) + Half(k, nonce, 5)
  }

  /** The keys when enciphering changes nothing: the block for number i is i and the nonce. */
  lemma DerivedKeys(nonce: seq<byte>)
    requires |nonce| == 12
    ensures Identity(16).Valid()
    ensures AuthKey(Identity(16), nonce) == [0, 0, 0, 0] + nonce[..4] + [1, 0, 0, 0] + nonce[..4]
    ensures EncKey(Identity(16), nonce, 16) == [2, 0, 0, 0] + nonce[..4] + [3, 0, 0, 0] + nonce[..4]
    ensures EncKey(Identity(16), nonce, 32)
         == EncKey(Identity(16), nonce, 16) + [4, 0, 0, 0] + nonce[..4] + [5, 0, 0, 0] + nonce[..4]
  {
    IdentityValid(16);
    hide ToLittleEndian;
    SmallNumber(0);
    SmallNumber(1);
    SmallNumber(2);
    SmallNumber(3);
    SmallNumber(4);
    SmallNumber(5);
    FirstEight(nonce, 0);
    FirstEight(nonce, 1);
    FirstEight(nonce, 2);
    FirstEight(nonce, 3);
    FirstEight(nonce, 4);
    FirstEight(nonce, 5);
  }

  lemma SmallNumber(i: nat)
    requires i < 256
    ensures ToLittleEndian(i, 4) == [Octet(i), 0, 0, 0]
  {
    hide Octet;
    assert i % 256 == i && i / 256 == 0;
    NoNumber(3);
    assert Octet(0) == 0 by {
      ZeroOctet();
    }
    assert ZeroBytes(3) == [0, 0, 0];
  }

  lemma ZeroOctet()
    ensures Octet(0) == 0
  {
  }

  lemma {:induction false} NoNumber(n: nat)
    ensures ToLittleEndian(0, n) == ZeroBytes(n)
  {
    if n > 0 {
      NoNumber(n - 1);
    }
  }

  lemma FirstEight(nonce: seq<byte>, i: nat)
    requires |nonce| == 12 && i < 256
    ensures Identity(16).Valid() && Half(Identity(16), nonce, i) == [Octet(i), 0, 0, 0] + nonce[..4]
  {
    hide ToLittleEndian, Octet;
    IdentityValid(16);
    SmallNumber(i);
    assert ([Octet(i), 0, 0, 0] + nonce)[..8] == [Octet(i), 0, 0, 0] + nonce[..4];
  }

  /** A successful encryption: the tag, and the ciphertext at position op of the output. */
  ghost predicate SealedAt(k: Cipher, auth: Block, nonce: seq<byte>, aad: seq<byte>, aadlen: Count, data: seq<byte>,
                           before: seq<byte>, op: nat, now: seq<byte>, tag: Block)
  {
    && k.Valid() && k.bs == 16 && |nonce| == 12 && |data| < 0x1_0000_0000_0000_0000 && op + |data| <= |before|
    && var s := Seal(k, auth, nonce, aad, data, Lengths(aadlen, |data|));
    tag == s.tag && now == Splice(before, op, s.text)
  }

  /** A decryption that went as far as comparing tags: the message, or zeros. */
  ghost predicate OpenedAt(k: Cipher, auth: Block, nonce: seq<byte>, aad: seq<byte>, aadlen: Count, data: seq<byte>,
                           before: seq<byte>, op: nat, now: seq<byte>, tag: Block, st: Status)
  {
    && k.Valid() && k.bs == 16 && |nonce| == 12 && |data| < 0x1_0000_0000_0000_0000 && op + |data| <= |before|
    && match Open(k, auth, nonce, aad, data, tag, Lengths(aadlen, |data|))
       case Plain(msg) => st == Ok && |msg| == |data| && now == Splice(before, op, msg)
       case Refused => st == BadTag && now == Splice(before, op, ZeroBytes(|data|))
  }

  /** u_iv.iv: the nonce, then zeros. */
  function IvOf(nonce: seq<byte>): Block
    requires |nonce| == 12
  {
    nonce + ZeroBytes(4)
  }

  lemma FreshSession()
    ensures Good(Session(NO_OCTETS, NO_OCTETS, false, false, false, false, ZeroBytes(16), Log([], true, Pending)), [])
  {
  }

  /** The tag a handle holds belongs to the message it has sealed, or was compared with that of the
      message it has opened. */
  ghost predicate Held(k: Cipher, auth: Block, nonce: seq<byte>, s: Session)
    requires k.Valid() && k.bs == 16 && |nonce| == 12
  {
    && (!s.log.done.Pending? ==> s.dataFinal && s.marksTag && !s.over)
    && match s.log.done
       case Pending => true
       case DidSeal(msg, text) =>
         |msg| < 0x1_0000_0000_0000_0000
         && Seal(k, auth, nonce, s.log.aad, msg, Lengths(s.aadlen, |msg|)) == Sealed(text, s.tagiv)
       case DidOpen(text, answer) =>
         |text| < 0x1_0000_0000_0000_0000
         && Open(k, auth, nonce, s.log.aad, text, s.tagiv, Lengths(s.aadlen, |text|)) == answer
  }

  class Handle {
    const cipher: Cipher   // keyed with the message-encryption key
    const bulk: bool       // whether bulk.ctr32le_enc is set
    const nonce: seq<byte>
    const iv: Block
    const hash: Hash
    var aadlen: Count
    var datalen: Count
    var over: bool         // datalen_over_limits
    var aadFinal: bool     // ghash_aad_finalized
    var dataFinal: bool    // ghash_data_finalized
    var marksTag: bool
    var tagiv: Block
    ghost var log: Log

    ghost function View(): Session
      reads this
    {
      Session(aadlen, datalen, over, aadFinal, dataFinal, marksTag, tagiv, log)
    }

    ghost predicate Valid()
      reads this, hash, hash.macbuf
    {
      && cipher.Valid() && cipher.bs == 16 && |nonce| == 12 && iv == IvOf(nonce)
      && hash.Valid() && Good(View(), hash.Fed()) && Held(cipher, hash.auth, nonce, View())
    }

    /** The state set_nonce leaves, for its derived keys. */
    constructor (cipher: Cipher, auth: Block, bulk: bool, nonce: seq<byte>)
      requires cipher.Valid() && cipher.bs == 16 && |nonce| == 12
      ensures Valid() && !over && !dataFinal && !marksTag && log == Log([], true, Pending) && this.nonce == nonce
      ensures hash.auth == auth && this.cipher == cipher && fresh(hash) && fresh(hash.macbuf)
    {
      hide Hash.Valid, Hash.Hashed, CheckLen, IvOf, Good;
      FreshSession();
      this.cipher, this.bulk, this.nonce, iv := cipher, bulk, nonce, IvOf(nonce);
      aadlen, datalen := NO_OCTETS, NO_OCTETS;
      over, aadFinal, dataFinal, marksTag := false, false, false, false;
      tagiv, log := ZeroBytes(16), Log([], true, Pending);
      hash := new Hash(auth);
    }

    method Authenticate(aad: seq<byte>) returns (st: Status)
      requires Valid() && |aad| < 0x1_0000_0000_0000_0000
      modifies this`aadlen, this`over, this`log, hash, hash.macbuf
      ensures Valid() && st == AuthStatus(old(View()), |aad|)
      ensures over == (st == InvLength)
      ensures st == Ok ==> aadlen == CounterAdd(old(aadlen), |aad|) && log.aad == old(log.aad) + aad
      ensures st == Ok ==> log.exact == (old(log.exact) && Exact(old(aadlen), |aad|)) && log.done == old(log.done)
      ensures st == InvState ==> unchanged(this, hash)
    {
      hide CounterAdd, Hash.Valid, Exact;
      if over {
        return InvLength;
      }
      if marksTag || aadFinal || dataFinal {
        return InvState;
      }
      ghost var was := aadlen;
      aadlen := CounterAdd(aadlen, |aad|);
      if !CheckLen(aadlen) {
        over := true;
        return InvLength;
      }
      hash.Feed(aad, false);
      CounterExact(was, |aad|);
      log := log.(aad := log.aad + aad, exact := log.exact && Exact(was, |aad|));
      return Ok;
    }

    /** The start of the message marks the end of the associated data; its length is counted. */
    method StartData(n: nat) returns (ok: bool)
      requires Valid() && !over && !dataFinal && n < 0x1_0000_0000_0000_0000
      modifies this`aadFinal, this`datalen, this`over, hash, hash.macbuf
      ensures ok == CheckLen(CounterAdd(NO_OCTETS, n)) && datalen == CounterAdd(NO_OCTETS, n) && over == !ok
      ensures hash.Valid() && hash.unused == 0 && hash.full == PadZero(log.aad)
    {
      hide CounterAdd, Hash.Valid, PadZero;
      if !aadFinal {
        hash.Feed([], true);
        assert log.aad + [] == log.aad;
        aadFinal := true;
      }
      datalen := CounterAdd(datalen, n);
      ok := CheckLen(datalen);
      if !ok {
        over := true;
      }
    }

    /** The message and the length block go to POLYVAL, and the tag is made from the digest. */
    method FinishData(msg: seq<byte>) returns (t: Block)
      requires hash.Valid() && hash.unused == 0 && hash.full == PadZero(log.aad) && |msg| < 0x1_0000_0000_0000_0000
      requires cipher.Valid() && cipher.bs == 16 && |nonce| == 12 && iv == IvOf(nonce)
      requires datalen == CounterAdd(NO_OCTETS, |msg|)
      modifies this`dataFinal, hash, hash.macbuf
      ensures hash.Valid() && dataFinal
      ensures t == Tag(cipher, hash.auth, nonce, log.aad, msg, Lengths(aadlen, |msg|))
    {
      hide CounterAdd, Hash.Hashed, PadZero, BitLength, Masked, StoreLE, BitsBE, LoadLE, GF.DivX, Xor, MacInput, Polyval, Reverse;
      assert hash.Fed() == hash.full;
      hash.Feed(msg, true);
      assert hash.Fed() == hash.full;
      dataFinal := true;
      var lengths: Block := Lengths(aadlen, |msg|);
      hash.Feed(lengths, true);
      PadZeroTwice(log.aad, msg, lengths);
      hash.DigestIs(MacInput(log.aad, msg, lengths));
      var digest := Reverse(hash.tag);
      t := cipher.enc(Masked(Xor(iv, digest)));
    }

    ghost predicate Apart(outbuf: array<byte>, inbuf: array<byte>) {
      outbuf != hash.macbuf && inbuf != hash.macbuf
    }

    method Encrypt(outbuf: array<byte>, op: nat, outbuflen: nat, inbuf: array<byte>, ip: nat, inbuflen: nat,
                   ghost data: seq<byte>) returns (st: Status)
      requires Valid() && Apart(outbuf, inbuf) && Separate(outbuf, op, inbuf, ip) && inbuflen < 0x1_0000_0000_0000_0000
      requires op + outbuflen <= outbuf.Length && ip + inbuflen <= inbuf.Length && data == inbuf[ip..ip + inbuflen]
      modifies this`aadFinal, this`dataFinal, this`datalen, this`over, this`marksTag, this`tagiv, this`log, hash, hash.macbuf, outbuf
      ensures Valid() && st == CryptStatus(old(View()), false, outbuflen, inbuflen)
      ensures st == Ok ==> dataFinal && marksTag && !over
      ensures st == Ok ==> log.aad == old(log.aad) && log.exact == old(log.exact) && aadlen == old(aadlen)
      ensures st == Ok ==> log.done == DidSeal(data, AesCtr(cipher, CounterStart(tagiv), data))
      ensures st == Ok ==> SealedAt(cipher, hash.auth, nonce, log.aad, aadlen, data, old(outbuf[..]), op, outbuf[..], tagiv)
      ensures st == BufferTooShort || st == InvState ==> unchanged(this, hash)
      ensures st != Ok ==> outbuf[..] == old(outbuf[..])
    {
      hide CounterAdd, CheckLen, Hash.Valid, Tag, AesCtr, Splice, Lengths, CounterStart, Exact;
      if outbuflen < inbuflen {
        return BufferTooShort;
      }
      if over {
        return InvLength;
      }
      if marksTag || dataFinal {
        return InvState;
      }
      var ok := StartData(inbuflen);
      if !ok {
        return InvLength;
      }
      tagiv := FinishData(inbuf[ip..ip + inbuflen]);
      marksTag := true;
      var ctr := DoCtrLe32(cipher, bulk, CounterStart(tagiv), outbuf, op, inbuf, ip, inbuflen, data);
      log := log.(done := DidSeal(data, AesCtr(cipher, CounterStart(tagiv), data)));
      return Ok;
    }

    method SetDecryptionTag(tag: seq<byte>) returns (st: Status)
      requires Valid()
      modifies this`tagiv, this`marksTag
      ensures Valid() && st == if |tag| != 16 then InvArg else if old(marksTag) then InvState else Ok
      ensures st == Ok ==> marksTag && tagiv == tag
      ensures st != Ok ==> unchanged(this)
    {
      hide Hash.Valid, CheckLen;
      if |tag| != 16 {
        return InvArg;
      }
      if marksTag {
        return InvState;
      }
      tagiv := tag;
      marksTag := true;
      return Ok;
    }

    method Decrypt(outbuf: array<byte>, op: nat, outbuflen: nat, inbuf: array<byte>, ip: nat, inbuflen: nat,
                   ghost data: seq<byte>) returns (st: Status)
      requires Valid() && Apart(outbuf, inbuf) && Separate(outbuf, op, inbuf, ip) && inbuflen < 0x1_0000_0000_0000_0000
      requires op + outbuflen <= outbuf.Length && ip + inbuflen <= inbuf.Length && data == inbuf[ip..ip + inbuflen]
      modifies this`aadFinal, this`dataFinal, this`datalen, this`over, this`log, hash, hash.macbuf, outbuf
      ensures Valid()
      ensures CryptStatus(old(View()), true, outbuflen, inbuflen) != Ok ==>
        st == CryptStatus(old(View()), true, outbuflen, inbuflen) && outbuf[..] == old(outbuf[..])
      ensures CryptStatus(old(View()), true, outbuflen, inbuflen) == Ok ==>
        && dataFinal && log.aad == old(log.aad) && log.exact == old(log.exact)
        && log.done == DidOpen(data, if st == Ok then Plain(AesCtr(cipher, CounterStart(tagiv), data)) else Refused)
      ensures CryptStatus(old(View()), true, outbuflen, inbuflen) == Ok ==>
        OpenedAt(cipher, hash.auth, nonce, log.aad, aadlen, data, old(outbuf[..]), op, outbuf[..], tagiv, st)
    {
      hide CounterAdd, CheckLen, Hash.Valid, Tag, AesCtr, Splice, Lengths, CounterStart, Exact;
      if outbuflen < inbuflen {
        return BufferTooShort;
      }
      if over {
        return InvLength;
      }
      if !marksTag || dataFinal {
        return InvState;
      }
      var ok := StartData(inbuflen);
      if !ok {
        return InvLength;
      }
      ghost var out0 := outbuf[..];
      ghost var msg := AesCtr(cipher, CounterStart(tagiv), data);
      var ctr := DoCtrLe32(cipher, bulk, CounterStart(tagiv), outbuf, op, inbuf, ip, inbuflen, data);
      SpliceSlices(out0, op, msg);
      assert outbuf[op..op + inbuflen] == outbuf[..][op..op + inbuflen];
      var expected := FinishData(outbuf[op..op + inbuflen]);
      log := log.(done := DidOpen(data, if tagiv == expected then Plain(msg) else Refused));
      if tagiv != expected {
        Put(outbuf, op, ZeroBytes(inbuflen));
        SpliceAgain(out0, op, msg, ZeroBytes(inbuflen));
        return BadTag;
      }
      return Ok;
    }

    /** Whether the handle has a tag of its own making. */
    ghost predicate Tagged()
      reads this
    {
      marksTag && dataFinal && !over
    }

    /** The check both tag calls start with; without a message an empty one is sealed. */
    method FinishTag() returns (st: Status)
      requires Valid()
      modifies this`aadFinal, this`dataFinal, this`datalen, this`over, this`marksTag, this`tagiv, this`log, hash, hash.macbuf
      ensures Valid() && st == if old(over) then InvLength else if old(marksTag != dataFinal) then InvState else Ok
      ensures st == Ok ==> Tagged()
      ensures old(Tagged()) ==> tagiv == old(tagiv)
      ensures st == Ok && !old(marksTag) ==> tagiv == Tag(cipher, hash.auth, nonce, log.aad, [], Lengths(aadlen, 0))
    {
      hide CounterAdd, Hash.Valid, Tag, AesCtr, Splice, Lengths, Hash.Hashed;
      NothingCounted();
      if !marksTag {
        var none := new byte[0];
        st := Encrypt(none, 0, 0, none, 0, 0, []);
        if st != Ok {
          return;
        }
      }
      if over {
        return InvLength;
      }
      if !dataFinal {
        return InvState;
      }
      return Ok;
    }

    method GetTag(outbuflen: nat) returns (st: Status, tag: seq<byte>)
      requires Valid()
      modifies this`aadFinal, this`dataFinal, this`datalen, this`over, this`marksTag, this`tagiv, this`log, hash, hash.macbuf
      ensures Valid() && st == if old(over) then InvLength else if old(marksTag != dataFinal) then InvState else Ok
      ensures st == Ok ==> tag == tagiv[..if outbuflen > 16 then 16 else outbuflen]
      ensures old(Tagged()) ==> tagiv == old(tagiv)
      ensures st == Ok && !old(marksTag) ==> tagiv == Tag(cipher, hash.auth, nonce, log.aad, [], Lengths(aadlen, 0))
    {
      hide CounterAdd, Hash.Valid, Tag, Lengths, Good;
      tag := [];
      st := FinishTag();
      if st == Ok {
        tag := tagiv[..if outbuflen > 16 then 16 else outbuflen];
      }
    }

    method CheckTag(tag: seq<byte>) returns (st: Status)
      requires Valid()
      modifies this`aadFinal, this`dataFinal, this`datalen, this`over, this`marksTag, this`tagiv, this`log, hash, hash.macbuf
      ensures Valid()
      ensures st == if old(over) then InvLength else if old(marksTag != dataFinal) then InvState else if tag == tagiv then Ok else BadTag
      ensures old(Tagged()) ==> tagiv == old(tagiv)
      ensures st == Ok && !old(marksTag) ==> tag == Tag(cipher, hash.auth, nonce, log.aad, [], Lengths(aadlen, 0))
    {
      hide CounterAdd, Hash.Valid, Tag, Lengths, Good;
      st := FinishTag();
      if st == Ok && (|tag| != 16 || tag != tagiv) {
        return BadTag;
      }
    }
  }

  /** _gcry_cipher_gcm_siv_set_nonce: siv_keylen is zero before a key is set, marksIv says a nonce has
      been set since, and setkey makes a cipher of a key. */
  method SetNonce(master: Cipher, setkey: seq<byte> -> Cipher, keylen: nat, marksIv: bool, bulk: bool, nonce: seq<byte>)
      returns (st: Status, h: Handle?)
    requires master.Valid() && master.bs == 16 && keylen in {0, 16, 32}
    requires |nonce| == 12 && keylen > 0 ==> var k := setkey(EncKey(master, nonce, keylen)); k.Valid() && k.bs == 16
    ensures st == if |nonce| != 12 then InvArg else if keylen == 0 || marksIv then InvState else Ok
    ensures st == Ok ==>
      && h != null && fresh(h) && h.Valid() && !h.over && !h.dataFinal && !h.marksTag && h.log == Log([], true, Pending) && h.nonce == nonce
      && h.hash.auth == AuthKey(master, nonce) && h.cipher == setkey(EncKey(master, nonce, keylen))
  {
    h := null;
    if |nonce| != 12 {
      return InvArg, h;
    }
    if keylen == 0 {
      return InvState, h;
    }
    if marksIv {
      return InvState, h;
    }
    hide Handle.Valid, Half;
    var auth := master.enc(ToLittleEndian(0, 4) + nonce)[..8] + master.enc(ToLittleEndian(1, 4) + nonce)[..8];
    var enc := master.enc(ToLittleEndian(2, 4) + nonce)[..8] + master.enc(ToLittleEndian(3, 4) + nonce)[..8];
    HalvesAre(master, nonce);
    if keylen >= 24 {
      enc := enc + master.enc(ToLittleEndian(4, 4) + nonce)[..8];
    }
    if keylen >= 32 {
      enc := enc + master.enc(ToLittleEndian(5, 4) + nonce)[..8];
    }
    h := new Handle(setkey(enc), auth, bulk, nonce);
    return Ok, h;
  }

  lemma HalvesAre(k: Cipher, nonce: seq<byte>)
    requires k.Valid() && k.bs == 16 && |nonce| == 12
    ensures forall i {:trigger Half(k, nonce, i)} :: 0 <= i < 6 ==> Half(k, nonce, i) == k.enc(ToLittleEndian(i, 4) + nonce)[..8]
  {
  }

  lemma NothingCounted()
    ensures CounterAdd(NO_OCTETS, 0) == NO_OCTETS && CheckLen(NO_OCTETS)
  {
  }

  /** Two handles with the same keys and nonce, one of which has sealed a message and the other opened
      that text with that tag: the answer was the message, when both counted the same associated data
      exactly, in whatever calls it came. */
  lemma DecryptUndoesEncrypt(e: Handle, d: Handle)
    requires e.Valid() && d.Valid() && e.cipher == d.cipher && e.hash.auth == d.hash.auth && e.nonce == d.nonce
    requires e.log.done.DidSeal? && d.log.done.DidOpen? && d.log.done.text == e.log.done.text && d.tagiv == e.tagiv
    requires e.log.aad == d.log.aad && e.log.exact && d.log.exact
    ensures d.log.done.answer == Plain(e.log.done.msg)
  {
    hide Tag, AesCtr, Lengths, CheckLen, Seal, Open, Hash.Valid;
    assert e.aadlen == d.aadlen;
    var msg, lengths := e.log.done.msg, Lengths(e.aadlen, |e.log.done.msg|);
    SealLength(e.cipher, e.hash.auth, e.nonce, e.log.aad, msg, lengths);
    OpenUndoesSeal(e.cipher, e.hash.auth, e.nonce, e.log.aad, msg, lengths, e.log.done.text, e.tagiv);
  }

  lemma SealLength(k: Cipher, auth: Block, nonce: seq<byte>, aad: seq<byte>, msg: seq<byte>, lengths: Block)
    requires k.Valid() && k.bs == 16 && |nonce| == 12
    ensures |Seal(k, auth, nonce, aad, msg, lengths).text| == |msg|
  {
  }
}
