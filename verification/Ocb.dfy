/** cipher-ocb.c: the OCB handle, refining RFC 7253 for any split of the data into calls. */
module Ocb {
  import opened BitHelp
  import opened BitWords
  import opened Bytes
  import opened CipherBlock
  import opened Rfc7253
  import GF = GaloisField

  // ---- doubling and shifting by words ----

  function WordOr(a: Word, b: Word): Word {
    seq(64, i requires 0 <= i < 64 => a[i] || b[i])
  }

  function WordXor(a: Word, b: Word): Word {
    GF.Add(a, b)
  }

  /** l_0 & 135 where l_0 is all ones or all zeros. */
  function Masked135(ones: bool): Word {
    seq(64, i => ones && (i == 7 || i == 2 || i == 1 || i == 0))
  }

  /** double_block: adding a word to itself is a shift by one. */
  method DoubleBlockWords(b1: Word, b0: Word) returns (l: Word, r: Word)
    ensures r + l == Double(b0 + b1)
  {
    l := b1;
    r := b0;
    var l0 := l[63];
    l := WordXor(Shl(l, 1), Shr(r, 63));
    r := WordXor(Shl(r, 1), Masked135(l0));
    forall i | 0 <= i < 128
      ensures (r + l)[i] == Double(b0 + b1)[i]
    {
    }
  }

  /** bit_copy: a block taken from 192 bits starting at any bit offset below 64. */
  method BitCopy(s: seq<byte>, bitoff: nat) returns (d: Block)
    requires |s| == 24 && bitoff < 64
    ensures d == OctetsBE(BitsBE(s)[64 - bitoff..192 - bitoff])
  {
    hide BitsBE, WordOr, Get64, Shl, Shr, OctetsBE;
    var byteoff := bitoff / 8;
    var shift := bitoff % 8;
    var s0l := Get64(s, byteoff);
    var s1l := Get64(s, byteoff + 8);
    var s1r := if shift != 0 then s1l else GF.Zeros(64);
    var s2r := if shift != 0 then Shl(Get64(s, 16), 8 * byteoff) else GF.Zeros(64);
    var hi := WordOr(Shl(s0l, shift), Shr(s1r, (64 - shift) % 64));
    var lo := WordOr(Shl(s1l, shift), Shr(s2r, (64 - shift) % 64));
    BitCopyHigh(s, byteoff, shift);
    BitCopyLow(s, byteoff, shift);
    OctetsConcat(hi, lo);
    Adjacent(BitsBE(s), 64 - bitoff, lo, hi);
    d := OctetsBE(hi) + OctetsBE(lo);
  }

  lemma Adjacent(v: seq<bool>, a: nat, lo: seq<bool>, hi: seq<bool>)
    requires a + 128 <= |v| && lo == v[a..a + 64] && hi == v[a + 64..a + 128]
    ensures lo + hi == v[a..a + 128]
  {
  }

  lemma Get64Is(s: seq<byte>, p: nat)
    requires |s| == 24 && p <= 16
    ensures Get64(s, p) == BitsBE(s)[128 - 8 * p..192 - 8 * p]
  {
    hide BitsBE;
    BitsConcat(s[..p] + s[p..p + 8], s[p + 8..]);
    BitsConcat(s[..p], s[p..p + 8]);
    assert s == s[..p] + s[p..p + 8] + s[p + 8..];
  }

  /** Two neighbouring words shifted together give the word that starts shift bits lower. */
  lemma Funnel(v: seq<bool>, a: nat, shift: nat, w: Word, next: Word)
    requires a + 64 <= |v| && shift < 8 && shift <= a
    requires w == v[a..a + 64]
    requires forall j :: 64 - shift <= j < 64 ==> next[j] == v[a + j - 64]
    requires shift == 0 ==> next == GF.Zeros(64)
    ensures WordOr(Shl(w, shift), Shr(next, (64 - shift) % 64)) == v[a - shift..a - shift + 64]
  {
    var x := WordOr(Shl(w, shift), Shr(next, (64 - shift) % 64));
    if shift == 0 {
      forall j | 0 <= j < 64
        ensures x[j] == v[a - shift + j]
      {
      }
    } else {
      forall j | 0 <= j < 64
        ensures x[j] == v[a - shift + j]
      {
        if j < shift {
          assert Shr(next, 64 - shift)[j] == next[64 - shift + j];
        } else {
          assert Shl(w, shift)[j] == w[j - shift];
        }
      }
    }
  }

  lemma BitCopyHigh(s: seq<byte>, byteoff: nat, shift: nat)
    requires |s| == 24 && byteoff < 8 && shift < 8
    ensures WordOr(Shl(Get64(s, byteoff), shift),
                   Shr(if shift != 0 then Get64(s, byteoff + 8) else GF.Zeros(64), (64 - shift) % 64))
         == BitsBE(s)[128 - 8 * byteoff - shift..192 - 8 * byteoff - shift]
  {
    hide BitsBE, WordOr, Get64, Shl, Shr;
    Get64Is(s, byteoff);
    Get64Is(s, byteoff + 8);
    var s1r := if shift != 0 then Get64(s, byteoff + 8) else GF.Zeros(64);
    Funnel(BitsBE(s), 128 - 8 * byteoff, shift, Get64(s, byteoff), s1r);
  }

  lemma BitCopyLow(s: seq<byte>, byteoff: nat, shift: nat)
    requires |s| == 24 && byteoff < 8 && shift < 8
    ensures WordOr(Shl(Get64(s, byteoff + 8), shift),
                   Shr(if shift != 0 then Shl(Get64(s, 16), 8 * byteoff) else GF.Zeros(64), (64 - shift) % 64))
         == BitsBE(s)[64 - 8 * byteoff - shift..128 - 8 * byteoff - shift]
  {
    hide BitsBE, WordOr, Get64, Shr;
    Get64Is(s, byteoff + 8);
    Get64Is(s, 16);
    var s2r := if shift != 0 then Shl(Get64(s, 16), 8 * byteoff) else GF.Zeros(64);
    Funnel(BitsBE(s), 64 - 8 * byteoff, shift, Get64(s, byteoff + 8), s2r);
  }

  // ---- the table of L values ----

  datatype Status = Ok | InvState | InvArg | InvLength | BufferTooShort | CipherAlgo | Bug | BadTag | AssertionFailed

  /** What setkey leaves behind: L_*, L_$ and L_0 .. L_15. */
  datatype Table = Table(lStar: Block, lDollar: Block, l: seq<Block>)

  ghost predicate TableOk(t: Table) {
    && t.lDollar == Doubles(1, t.lStar) && |t.l| == 16
    && forall i :: 0 <= i < 16 ==> t.l[i] == L(t.lStar, i)
  }

  /** ocb_get_l: for block numbers that are not multiples of 65536 the table suffices, although
      the count is taken of the low 32 bits only. */
  method GetL(t: Table, n: nat) returns (r: Block)
    requires TableOk(t) && n % 0x1_0000 != 0
    ensures r == L(t.lStar, Ntz(n))
  {
    ghost var m := n % 0x1_0000_0000;
    Pow2Values();
    assert m % 0x1_0000 != 0;
    NtzBelow(n, 16);
    NtzTruncated(n, 32);
    CtzIsNtz(n % 0x1_0000_0000);
    var ntz := Ctz(n % 0x1_0000_0000);
    r := t.l[ntz];
  }

  method DoubleOctets(b: Block) returns (d: Block)
    ensures d == DoubleBlock(b)
  {
    var l1, l0 := Get64(b, 0), Get64(b, 8);
    assert b == b[0..8] + b[8..16];
    BitsConcat(b[0..8], b[8..16]);
    var l, r := DoubleBlockWords(l1, l0);
    d := OctetsBE(l) + OctetsBE(r);
    OctetsConcat(l, r);
  }

  /** ocb_get_L_big: refuses numbers with fewer than sixteen trailing zeros. */
  method GetLBig(t: Table, n: nat) returns (ok: bool, r: Block)
    requires TableOk(t) && 0 < n < 0x1_0000_0000_0000_0000
    ensures ok <==> Ntz(n) >= 16
    ensures ok ==> r == L(t.lStar, Ntz(n))
  {
    Ctz64IsNtz(n);
    var ntz := Ctz64(n);
    r := t.l[15];
    if ntz < 16 {
      return false, r;
    }
    ok := true;
    ghost var done := 0;
    ntz := ntz - 15;
    while ntz > 0
      invariant ntz + 15 + done == Ntz(n) && r == L(t.lStar, 15 + done)
    {
      r := DoubleOctets(r);
      ntz := ntz - 1;
      done := done + 1;
    }
  }

  method SetKeyTable(k: Cipher) returns (t: Table)
    requires k.Valid() && k.bs == 16
    ensures TableOk(t) && t.lStar == k.enc(ZeroBytes(16))
  {
    hide DoubleBlock;
    var lStar := k.enc(ZeroBytes(16));
    var lDollar := DoubleOctets(lStar);
    assert lDollar == Doubles(1, lStar) by { assert Doubles(0, lStar) == lStar; }
    var x := DoubleOctets(lDollar);
    assert x == Doubles(2, lStar);
    var l: seq<Block> := [x];
    var i := 1;
    while i < 16
      invariant 1 <= i <= 16 && |l| == i && x == L(lStar, i - 1)
      invariant forall j :: 0 <= j < i ==> l[j] == L(lStar, j)
    {
      x := DoubleOctets(x);
      l := l + [x];
      i := i + 1;
    }
    t := Table(lStar, lDollar, l);
  }

  lemma NextOffset(lstar: Block, start: Block, n: nat)
    ensures Offset(lstar, start, n + 1) == Xor(Offset(lstar, start, n), L(lstar, Ntz(n + 1)))
  {
  }

  /** A run that stops before the next multiple of 65536 has none in it. */
  lemma SameRun(n0: nat, d: nat, count: nat)
    requires n0 % 0x1_0000 + count < 0x1_0000 && 0 < d <= count
    ensures (n0 + d) % 0x1_0000 != 0
  {
  }

  /** The loop over blocks whose L comes from the table, from block n0 + 1 on; its assertion on the
      block number holds. */
  method CryptRun(f: seq<byte> -> seq<byte>, t: Table, ghost start: Block, iv0: Block, n0: nat,
                  outbuf: array<byte>, op: nat, inbuf: array<byte>, ip: nat, count: nat, ghost input: seq<byte>)
      returns (iv: Block)
    requires TableOk(t) && op + 16 * count <= outbuf.Length && ip + 16 * count <= inbuf.Length
    requires forall b: seq<byte> {:trigger f(b)} :: |b| == 16 ==> |f(b)| == 16
    requires Separate(outbuf, op, inbuf, ip) && input == inbuf[ip..ip + 16 * count] && |input| % 16 == 0
    requires iv0 == Offset(t.lStar, start, n0) && n0 % 0x1_0000 + count < 0x1_0000
    modifies outbuf
    ensures iv == Offset(t.lStar, start, n0 + count)
    ensures outbuf[..] == Splice(old(outbuf[..]), op, CryptFull(f, t.lStar, start, n0, input))
  {
    hide CryptBlock, CryptFull, Offset, TableOk, Ntz, L, Splice, Xor;
    ghost var in0, out0 := inbuf[..], outbuf[..];
    assert input == in0[ip..ip + 16 * count];
    ghost var done := [];
    ghost var j := 0;
    var nblks, o, i, n := count, op, ip, n0;
    iv := iv0;
    NoBlocks(f, t.lStar, start, n0);
    assert input[..0] == [];
    SpliceNothing(out0, op);
    while nblks > 0
      invariant 0 <= nblks && 0 <= j && j + nblks == count && o == op + 16 * j && i == ip + 16 * j && n == n0 + j
      invariant iv == Offset(t.lStar, start, n)
      invariant |done| == 16 * j && done == CryptFull(f, t.lStar, start, n0, input[..16 * j])
      invariant outbuf[..] == Splice(out0, op, done) && (inbuf != outbuf ==> inbuf[..] == in0)
    {
      n := n + 1;
      SameRun(n0, j + 1, count);
      assert 16 * j + 16 <= |input|;
      var l := GetL(t, n);
      NextOffset(t.lStar, start, n - 1);
      iv := Xor(iv, l);
      ReadAhead(outbuf, out0, op, done, inbuf, in0, i, 16);
      SliceOfSlice(in0, ip, ip + 16 * count, 16 * j, 16 * j + 16);
      ghost var p := input[16 * j..16 * j + 16];
      Whitened(f, iv, outbuf, o, inbuf, i);
      NextBlock(f, t.lStar, start, n0, input, j);
      ghost var c := CryptBlock(f, t.lStar, start, n, p);
      BlockOf(f, t.lStar, start, n, p, iv);
      SpliceMore(out0, op, done, c);
      done := done + c;
      o := o + 16;
      i := i + 16;
      nblks := nblks - 1;
      j := j + 1;
    }
    assert input[..16 * j] == input;
  }

  lemma BlockOf(f: seq<byte> -> seq<byte>, lstar: Block, start: Block, n: nat, p: Block, o: Block)
    requires o == Offset(lstar, start, n) && |f(Xor(o, p))| == 16
    ensures CryptBlock(f, lstar, start, n, p) == Xor(f(Xor(o, p)), o)
  {
  }

  /** Which of a call's input and output is plaintext, and which ciphertext. */
  ghost function PlainPart(encrypt: bool, input: seq<byte>, out: seq<byte>): seq<byte> {
    if encrypt then input else out
  }

  ghost function SealedPart(encrypt: bool, input: seq<byte>, out: seq<byte>): seq<byte> {
    if encrypt then out else input
  }

  lemma PartsConcat(encrypt: bool, p: seq<byte>, s: seq<byte>, i: seq<byte>, o: seq<byte>, j: seq<byte>, q: seq<byte>)
    ensures p + PlainPart(encrypt, i, o) + PlainPart(encrypt, j, q) == p + PlainPart(encrypt, i + j, o + q)
    ensures s + SealedPart(encrypt, i, o) + SealedPart(encrypt, j, q) == s + SealedPart(encrypt, i + j, o + q)
  {
    ConcatAssociates(p, PlainPart(encrypt, i, o), PlainPart(encrypt, j, q));
    ConcatAssociates(s, SealedPart(encrypt, i, o), SealedPart(encrypt, j, q));
  }

  lemma PartsEmpty(encrypt: bool)
    ensures PlainPart(encrypt, [], []) == [] && SealedPart(encrypt, [], []) == []
  {
  }

  class Handle {
    const cipher: Cipher
    const taglen: nat
    const table: Table
    const aadLeftover: array<byte>
    var marksIv: bool
    var marksTag: bool
    var marksFinalize: bool
    var dataFinalized: bool
    var aadFinalized: bool
    var iv: Block           // u_iv: the running offset
    var ctr: Block          // u_ctr: the running checksum
    var tag: Block
    var aadOffset: Block
    var aadSum: Block
    var aadNleftover: nat
    var aadNblocks: nat
    var dataNblocks: nat
    ghost var start: Block       // Offset_0
    ghost var plain: seq<byte>   // all plaintext since the nonce was set
    ghost var sealed: seq<byte>  // all ciphertext since the nonce was set
    ghost var aadFull: seq<byte> // the associated data already summed

    ghost predicate Keyed()
      reads this, aadLeftover
    {
      && cipher.Valid() && cipher.bs == 16 && aadLeftover.Length == 16 && aadNleftover < 16
      && TableOk(table) && table.lStar == cipher.enc(ZeroBytes(16))
      && taglen in {8, 12, 16}
    }

    /** While only whole blocks have been processed. */
    ghost predicate Running()
      reads this`plain, this`sealed, this`iv, this`ctr, this`start, this`dataNblocks
    {
      && |plain| % 16 == 0 && dataNblocks == |plain| / 16 && cipher.Valid() && cipher.bs == 16
      && sealed == CryptFull(cipher.enc, table.lStar, start, 0, plain)
      && iv == Offset(table.lStar, start, dataNblocks)
      && ctr == Checksum(plain)
    }

    /** The state of the data part, with or without a short last block. */
    ghost predicate Whole()
      reads this`sealed, this`plain, this`iv, this`ctr, this`start
    {
      && cipher.Valid() && cipher.bs == 16
      && sealed == Seal(cipher, table.lStar, start, plain)
      && iv == LastOffset(table.lStar, start, plain)
      && ctr == LastChecksum(plain)
    }

    function F(encrypt: bool): seq<byte> -> seq<byte> {
      if encrypt then cipher.enc else cipher.dec
    }

    /** ocb_checksum over count blocks at pos. */
    method ChecksumRun(buf: array<byte>, pos: nat, count: nat)
      requires pos + 16 * count <= buf.Length
      modifies this`ctr
      ensures ctr == Xor(old(ctr), Checksum(buf[pos..pos + 16 * count]))
    {
      hide Xor, Checksum;
      ghost var b0 := buf[..];
      ghost var p := b0[pos..pos + 16 * count];
      assert p == buf[pos..pos + 16 * count];
      ghost var j := 0;
      ghost var c0 := ctr;
      var i, nblks := pos, count;
      EmptyChecksum();
      XorZero(c0);
      assert p[..0] == [];
      while nblks > 0
        invariant 0 <= j && 0 <= nblks && j + nblks == count && i == pos + 16 * j
        invariant ctr == Xor(c0, Checksum(p[..16 * j]))
      {
        NextChecksum(p, j);
        SliceOfSlice(b0, pos, pos + 16 * count, 16 * j, 16 * j + 16);
        assert buf[i..i + 16] == b0[i..i + 16];
        XorAssociates(c0, Checksum(p[..16 * j]), p[16 * j..16 * j + 16]);
        ctr := Xor(ctr, buf[i..i + 16]);
        i := i + 16;
        nblks := nblks - 1;
        j := j + 1;
      }
      assert p[..16 * j] == p;
    }

    /** Accounts for whole blocks that went in and came out. */
    ghost method Record(encrypt: bool, input: seq<byte>, out: seq<byte>)
      requires cipher.Valid() && cipher.bs == 16 && |plain| % 16 == 0 && |input| % 16 == 0
      requires sealed == CryptFull(cipher.enc, table.lStar, start, 0, plain)
      requires out == CryptFull(F(encrypt), table.lStar, start, |plain| / 16, input)
      modifies this`plain, this`sealed
      ensures plain == old(plain) + PlainPart(encrypt, input, out) && |plain| % 16 == 0
      ensures sealed == old(sealed) + SealedPart(encrypt, input, out)
      ensures sealed == CryptFull(cipher.enc, table.lStar, start, 0, plain)
      ensures Checksum(plain) == Xor(Checksum(old(plain)), Checksum(PlainPart(encrypt, input, out)))
    {
      hide CryptFull, Checksum, Xor;
      if encrypt {
        Extended(cipher, table.lStar, start, plain, sealed, input, out);
        plain, sealed := plain + input, sealed + out;
      } else {
        FullRoundTrip(cipher, table.lStar, start, |plain| / 16, input);
        Extended(cipher, table.lStar, start, plain, sealed, out, input);
        plain, sealed := plain + out, sealed + input;
      }
    }

    /** Some blocks by way of the table: checksum before encrypting or after decrypting. */
    method CryptChunk(encrypt: bool, outbuf: array<byte>, op: nat, inbuf: array<byte>, ip: nat, count: nat)
        returns (ghost out: seq<byte>)
      requires Keyed() && Running() && op + 16 * count <= outbuf.Length && ip + 16 * count <= inbuf.Length
      requires Separate(outbuf, op, inbuf, ip) && outbuf != aadLeftover
      requires dataNblocks % 0x1_0000 + count < 0x1_0000
      modifies this`iv, this`ctr, this`dataNblocks, this`plain, this`sealed, outbuf
      ensures Running() && |out| == 16 * count && dataNblocks == old(dataNblocks) + count
      ensures outbuf[..] == Splice(old(outbuf[..]), op, out)
      ensures plain == old(plain) + PlainPart(encrypt, old(inbuf[ip..ip + 16 * count]), out)
      ensures sealed == old(sealed) + SealedPart(encrypt, old(inbuf[ip..ip + 16 * count]), out)
    {
      hide CryptFull, Checksum, Xor, Offset, TableOk, Splice;
      ghost var input := inbuf[ip..ip + 16 * count];
      ghost var out0 := outbuf[..];
      if encrypt {
        ChecksumRun(inbuf, ip, count);
      }
      iv := CryptRun(F(encrypt), table, start, iv, dataNblocks, outbuf, op, inbuf, ip, count, input);
      dataNblocks := dataNblocks + count;
      out := CryptFull(F(encrypt), table.lStar, start, old(dataNblocks), input);
      SpliceSlices(out0, op, out);
      assert outbuf[op..op + 16 * count] == outbuf[..][op..op + 16 * count];
      if !encrypt {
        ChecksumRun(outbuf, op, count);
      }
      Record(encrypt, input, out);
    }

    /** A block whose number is a multiple of 65536: its L is computed. */
    method CryptBig(encrypt: bool, outbuf: array<byte>, op: nat, inbuf: array<byte>, ip: nat)
        returns (ghost out: seq<byte>)
      requires Keyed() && Running() && op + 16 <= outbuf.Length && ip + 16 <= inbuf.Length
      requires Separate(outbuf, op, inbuf, ip) && outbuf != aadLeftover
      requires (dataNblocks + 1) % 0x1_0000 == 0 && dataNblocks + 1 < 0x1_0000_0000_0000_0000
      modifies this`iv, this`ctr, this`dataNblocks, this`plain, this`sealed, outbuf
      ensures Running() && |out| == 16 && dataNblocks == old(dataNblocks) + 1
      ensures outbuf[..] == Splice(old(outbuf[..]), op, out)
      ensures plain == old(plain) + PlainPart(encrypt, old(inbuf[ip..ip + 16]), out)
      ensures sealed == old(sealed) + SealedPart(encrypt, old(inbuf[ip..ip + 16]), out)
    {
      hide CryptFull, CryptBlock, Checksum, Xor, Offset, TableOk, Splice, Ntz, L;
      ghost var input := inbuf[ip..ip + 16];
      ghost var out0, n0 := outbuf[..], dataNblocks;
      NtzBelow(dataNblocks + 1, 16);
      Pow2Values();
      var ok, l := GetLBig(table, dataNblocks + 1);
      if encrypt {
        ChecksumRun(inbuf, ip, 1);
      }
      NextOffset(table.lStar, start, dataNblocks);
      iv := Xor(iv, l);
      Whitened(F(encrypt), iv, outbuf, op, inbuf, ip);
      BlockOf(F(encrypt), table.lStar, start, n0 + 1, input, iv);
      dataNblocks := dataNblocks + 1;
      SingleBlock(F(encrypt), table.lStar, start, n0, input);
      out := CryptFull(F(encrypt), table.lStar, start, n0, input);
      SpliceSlices(out0, op, out);
      assert outbuf[op..op + 16] == outbuf[..][op..op + 16];
      if !encrypt {
        ChecksumRun(outbuf, op, 1);
      }
      Record(encrypt, input, out);
    }

    /** One round of the loop over whole blocks: the block that overflows the table, or blocks up
        to the next overflow, cut to 24 KiB when there is enough data. */
    method CryptRound(encrypt: bool, outbuf: array<byte>, op: nat, inbuf: array<byte>, ip: nat, inbuflen: nat)
        returns (len: nat, ghost out: seq<byte>)
      requires Keyed() && Running() && 16 <= inbuflen && op + inbuflen <= outbuf.Length && ip + inbuflen <= inbuf.Length
      requires Separate(outbuf, op, inbuf, ip) && outbuf != aadLeftover
      requires dataNblocks < 0xffff_ffff_ffff_ffff
      modifies this`iv, this`ctr, this`dataNblocks, this`plain, this`sealed, outbuf
      ensures Running() && 0 < len <= inbuflen && len % 16 == 0 && |out| == len
      ensures 16 * dataNblocks == 16 * old(dataNblocks) + len
      ensures outbuf[..] == Splice(old(outbuf[..]), op, out)
      ensures plain == old(plain) + PlainPart(encrypt, old(inbuf[ip..ip + len]), out)
      ensures sealed == old(sealed) + SealedPart(encrypt, old(inbuf[ip..ip + len]), out)
    {
      hide TableOk, Running, Splice;
      var nblks := inbuflen / 16;
      var nmaxblks := (dataNblocks + 1) % 0x1_0000;
      nmaxblks := (0x1_0000 - nmaxblks) % 0x1_0000;
      if nmaxblks == 0 {
        out := CryptBig(encrypt, outbuf, op, inbuf, ip);
        len := 16;
      } else {
        nblks := if nblks < nmaxblks then nblks else nmaxblks;
        if nblks > 32 * 1024 / 16 {
          nblks := 24 * 1024 / 16;
        }
        out := CryptChunk(encrypt, outbuf, op, inbuf, ip, nblks);
        len := 16 * nblks;
      }
    }

    method CryptWhole(encrypt: bool, outbuf: array<byte>, op: nat, inbuf: array<byte>, ip: nat, inbuflen: nat)
        returns (done: nat, ghost out: seq<byte>)
      requires Keyed() && Running() && op + inbuflen <= outbuf.Length && ip + inbuflen <= inbuf.Length
      requires Separate(outbuf, op, inbuf, ip) && outbuf != aadLeftover
      requires 16 * dataNblocks + inbuflen < 0xf_ffff_ffff_ffff_fff0
      modifies this`iv, this`ctr, this`dataNblocks, this`plain, this`sealed, outbuf
      ensures Running() && done <= inbuflen < done + 16 && done % 16 == 0 && |out| == done
      ensures outbuf[..] == Splice(old(outbuf[..]), op, out)
      ensures plain == old(plain) + PlainPart(encrypt, old(inbuf[ip..ip + done]), out)
      ensures sealed == old(sealed) + SealedPart(encrypt, old(inbuf[ip..ip + done]), out)
    {
      hide TableOk, Running, Splice, PlainPart, SealedPart;
      ghost var in0, out0, p0, s0 := inbuf[..], outbuf[..], plain, sealed;
      var left := inbuflen;
      done := 0;
      out := [];
      SpliceNothing(out0, op);
      assert in0[ip..ip] == [] && PlainPart(encrypt, [], []) == [] && SealedPart(encrypt, [], []) == [] by {
        PartsEmpty(encrypt);
      }
      while left >= 16
        invariant Keyed() && Running() && left >= 0 && done + left == inbuflen && done % 16 == 0 && |out| == done
        invariant 16 * dataNblocks + left < 0xf_ffff_ffff_ffff_fff0
        invariant outbuf[..] == Splice(out0, op, out) && (inbuf != outbuf ==> inbuf[..] == in0)
        invariant plain == p0 + PlainPart(encrypt, in0[ip..ip + done], out)
        invariant sealed == s0 + SealedPart(encrypt, in0[ip..ip + done], out)
        decreases left
      {
        ghost var now := inbuf[..];
        var len;
        ghost var more;
        len, more := CryptRound(encrypt, outbuf, op + done, inbuf, ip + done, left);
        ReadSlice(out0, op, out, now, in0, ip + done, len, outbuf == inbuf);
        SpliceMore(out0, op, out, more);
        PartsConcat(encrypt, p0, s0, in0[ip..ip + done], out, in0[ip + done..ip + done + len], more);
        assert in0[ip..ip + done] + in0[ip + done..ip + done + len] == in0[ip..ip + done + len];
        out := out + more;
        done := done + len;
        left := left - len;
      }
    }

    /** The short last block, at most once and only after finalize. */
    method CryptTail(encrypt: bool, outbuf: array<byte>, op: nat, inbuf: array<byte>, ip: nat, len: nat)
        returns (ghost out: seq<byte>)
      requires Keyed() && Running() && 0 < len < 16 && op + len <= outbuf.Length && ip + len <= inbuf.Length
      requires outbuf != aadLeftover
      modifies this`iv, this`ctr, this`plain, this`sealed, outbuf
      ensures Whole() && |out| == len && outbuf[..] == Splice(old(outbuf[..]), op, out)
      ensures plain == old(plain) + PlainPart(encrypt, old(inbuf[ip..ip + len]), out)
      ensures sealed == old(sealed) + SealedPart(encrypt, old(inbuf[ip..ip + len]), out)
    {
      hide CryptFull, Checksum, Xor, Offset, TableOk, Splice, LastOffset, LastChecksum, Seal;
      var input := inbuf[ip..ip + len];
      iv := Xor(iv, table.lStar);
      var pad := cipher.enc(iv);
      var l: Block;
      if encrypt {
        l := input + ZeroBytes(16 - len);
        l := l[len := 0x80];
        assert l == Pad(input);
        ctr := Xor(ctr, l);
        out := Xor(input, pad[..len]);
        Put(outbuf, op, Xor(input, pad[..len]));
        SealTail(cipher, table.lStar, start, plain, sealed, input);
        plain, sealed := plain + input, sealed + out;
      } else {
        l := input + pad[len..];
        TailXor(input, pad, len);
        l := Xor(l, pad);
        l := l[len := 0x80];
        out := l[..len];
        assert l == Pad(out);
        Put(outbuf, op, l[..len]);
        ctr := Xor(ctr, l);
        XorCancels(input, pad[..len]);
        SealTail(cipher, table.lStar, start, plain, sealed, out);
        plain, sealed := plain + out, sealed + input;
      }
    }

    // ---- associated data ----

    ghost function Aad(): seq<byte>
      reads this, aadLeftover
      requires aadLeftover.Length == 16 && aadNleftover <= 16
    {
      aadFull + aadLeftover[..aadNleftover]
    }

    ghost predicate AadRunning()
      reads this`aadFull, this`aadNblocks, this`aadOffset, this`aadSum
      ensures AadRunning() ==> cipher.Valid() && cipher.bs == 16
    {
      && cipher.Valid() && cipher.bs == 16
      && |aadFull| % 16 == 0 && aadNblocks == |aadFull| / 16
      && aadOffset == Offset(table.lStar, ZeroBytes(16), aadNblocks)
      && aadSum == AadSum(cipher, table.lStar, aadFull)
    }

    ghost predicate AadDone()
      reads this`aadNleftover, this`aadSum, this`aadFull
      ensures AadDone() ==> aadNleftover == 0
    {
      && cipher.Valid() && cipher.bs == 16 && aadNleftover == 0
      && aadSum == Hash(cipher, table.lStar, aadFull)
    }

    /** Sums one block whose L is known. */
    method AadBlock(l: Block, a: Block)
      requires AadRunning() && l == L(table.lStar, Ntz(aadNblocks + 1))
      modifies this`aadNblocks, this`aadOffset, this`aadSum, this`aadFull
      ensures AadRunning() && aadFull == old(aadFull) + a && aadNblocks == old(aadNblocks) + 1
    {
      hide Xor, Offset, TableOk, L, Ntz, AadSum;
      NextOffset(table.lStar, ZeroBytes(16), aadNblocks);
      NextAadSum(cipher, table.lStar, aadFull, a);
      aadNblocks := aadNblocks + 1;
      aadOffset := Xor(aadOffset, l);
      var x := Xor(aadOffset, a);
      x := cipher.enc(x);
      aadSum := Xor(aadSum, x);
      aadFull := aadFull + a;
    }

    /** Adds n octets of abuf to the partly filled block. */
    method AadStore(abuf: seq<byte>, pos: nat, n: nat)
      requires aadLeftover.Length == 16 && aadNleftover + n <= 16 && pos + n <= |abuf|
      modifies this`aadNleftover, aadLeftover
      ensures aadNleftover == old(aadNleftover) + n
      ensures aadLeftover[..aadNleftover] == old(aadLeftover[..aadNleftover]) + abuf[pos..pos + n]
    {
      forall i | 0 <= i < n {
        aadLeftover[aadNleftover + i] := abuf[pos + i];
      }
      aadNleftover := aadNleftover + n;
    }

    /** The block completed from the leftover buffer asks for the wrong L when its number is a
        multiple of 65536, and trips the assertion of ocb_get_L_big. */
    predicate Trips(n: nat)
      reads this
    {
      aadNleftover > 0 && aadNleftover + n >= 16 && (aadNblocks + 1) % 0x1_0000 == 0
    }

    method Authenticate(abuf: seq<byte>) returns (st: Status)
      requires Keyed() && (marksIv && !aadFinalized ==> AadRunning())
      requires 16 * aadNblocks + |abuf| < 0xf_ffff_ffff_ffff_ffe0  // block numbers stay below 2^64
      modifies this`aadNleftover, this`aadNblocks, this`aadOffset, this`aadSum, this`aadFull, aadLeftover
      ensures st in {Ok, InvState, AssertionFailed}
      ensures st == InvState <==> !marksIv || marksTag || aadFinalized
      ensures st == AssertionFailed <==> st != InvState && old(Trips(|abuf|))
      ensures st == Ok ==> Keyed() && AadRunning() && Aad() == old(Aad()) + abuf
      ensures st == InvState ==> unchanged(this, aadLeftover)
    {
      hide Xor, Offset, TableOk, L, Ntz, AadSum, AadRunning;
      if !marksIv || marksTag || aadFinalized {
        return InvState;
      }
      var pos, abuflen := 0, |abuf|;
      ghost var was := Aad();
      if aadNleftover > 0 {
        var n := abuflen;
        if n > 16 - aadNleftover {
          n := 16 - aadNleftover;
        }
        AadStore(abuf, pos, n);
        pos := pos + n;
        abuflen := abuflen - n;
        assert Aad() == was + abuf[..pos];
        if aadNleftover == 16 {
          var l;
          if (aadNblocks + 1) % 0x1_0000 == 0 {
            OddNumber(aadNblocks + 2);
            var ok;
            ok, l := GetLBig(table, aadNblocks + 2);
            if !ok {
              return AssertionFailed;
            }
          } else {
            l := GetL(table, aadNblocks + 1);
          }
          AadBlock(l, aadLeftover[..]);
          assert was + abuf[..pos] == aadFull;
          aadNleftover := 0;
          assert Aad() == was + abuf[..pos];
        }
      }
      if abuflen == 0 {
        assert abuf[..pos] == abuf;
        return Ok;
      }
      AadWholeBlocks(abuf, pos, abuflen, was);
      return Ok;
    }

    /** The loop over blocks whose L comes from the table; its assertion on the block number holds. */
    method AadRun(abuf: seq<byte>, pos0: nat, count: nat)
      requires Keyed() && AadRunning() && pos0 + 16 * count <= |abuf|
      requires aadNblocks % 0x1_0000 + count < 0x1_0000
      modifies this`aadNblocks, this`aadOffset, this`aadSum, this`aadFull
      ensures Keyed() && AadRunning() && aadFull == old(aadFull) + abuf[pos0..pos0 + 16 * count]
      ensures aadNblocks == old(aadNblocks) + count
    {
      hide Xor, Offset, TableOk, L, Ntz, AadSum;
      var pos, nblks := pos0, count;
      ghost var n0, f0 := aadNblocks, aadFull;
      while nblks > 0
        invariant 0 <= nblks <= count && pos == pos0 + 16 * (count - nblks) && aadNblocks == n0 + (count - nblks)
        invariant Keyed() && AadRunning() && aadFull == f0 + abuf[pos0..pos]
      {
        assert (aadNblocks + 1) % 0x1_0000 != 0;
        var l := GetL(table, aadNblocks + 1);
        AadBlock(l, abuf[pos..pos + 16]);
        assert abuf[pos0..pos] + abuf[pos..pos + 16] == abuf[pos0..pos + 16];
        pos := pos + 16;
        nblks := nblks - 1;
      }
    }

    /** One round of the loop over whole blocks: up to the next overflow of the table, or the one
        block that overflows it. */
    method AadRound(abuf: seq<byte>, pos: nat, abuflen: nat) returns (len: nat)
      requires Keyed() && AadRunning() && 16 <= abuflen && pos + abuflen <= |abuf|
      requires aadNblocks < 0xffff_ffff_ffff_ffff
      modifies this`aadNblocks, this`aadOffset, this`aadSum, this`aadFull
      ensures Keyed() && AadRunning() && 0 < len <= abuflen && len % 16 == 0
      ensures aadFull == old(aadFull) + abuf[pos..pos + len] && 16 * aadNblocks == 16 * old(aadNblocks) + len
    {
      hide Xor, Offset, TableOk, L, Ntz, AadSum, AadRunning;
      var nblks := abuflen / 16;
      var nmaxblks := (aadNblocks + 1) % 0x1_0000;
      nmaxblks := (0x1_0000 - nmaxblks) % 0x1_0000;
      if nmaxblks == 0 {
        Multiple65536(aadNblocks + 1);
        var ok, l := GetLBig(table, aadNblocks + 1);
        AadBlock(l, abuf[pos..pos + 16]);
        len := 16;
      } else {
        nblks := if nblks < nmaxblks then nblks else nmaxblks;
        AadRun(abuf, pos, nblks);
        len := 16 * nblks;
      }
    }

    method AadWholeBlocks(abuf: seq<byte>, pos0: nat, abuflen0: nat, ghost was: seq<byte>)
      requires Keyed() && AadRunning() && pos0 + abuflen0 == |abuf| && abuflen0 > 0 && aadNleftover == 0
      requires aadFull == was + abuf[..pos0]
      requires 16 * aadNblocks + abuflen0 < 0xf_ffff_ffff_ffff_fff0
      modifies this`aadNleftover, this`aadNblocks, this`aadOffset, this`aadSum, this`aadFull, aadLeftover
      ensures Keyed() && AadRunning() && Aad() == was + abuf
    {
      hide TableOk, AadRunning;
      var pos, abuflen := pos0, abuflen0;
      while abuflen >= 16
        invariant pos + abuflen == |abuf| && aadNleftover == 0 && abuflen >= 0
        invariant Keyed() && AadRunning() && aadFull == was + abuf[..pos]
        invariant 16 * aadNblocks + abuflen < 0xf_ffff_ffff_ffff_fff0
        decreases abuflen
      {
        var len := AadRound(abuf, pos, abuflen);
        assert abuf[..pos] + abuf[pos..pos + len] == abuf[..pos + len];
        pos := pos + len;
        abuflen := abuflen - len;
      }
      AadStore(abuf, pos, abuflen);
      assert abuf == abuf[..pos] + abuf[pos..pos + abuflen];
    }

    /** ocb_aad_finalize: the short last block of the associated data. */
    method AadFinalize()
      requires Keyed() && marksIv && !marksTag && (if aadFinalized then AadDone() else AadRunning())
      modifies this`aadNleftover, this`aadOffset, this`aadSum, this`aadFull, this`aadFinalized
      ensures Keyed() && aadFinalized && AadDone() && aadFull == old(Aad())
    {
      hide Xor, Offset, TableOk, AadSum, Hash;
      if aadFinalized {
        return;
      }
      ghost var left := aadLeftover[..aadNleftover];
      HashTail(cipher, table.lStar, aadFull, left);
      if aadNleftover > 0 {
        aadOffset := Xor(aadOffset, table.lStar);
        var l := aadLeftover[..aadNleftover] + ZeroBytes(16 - aadNleftover);
        l := l[aadNleftover := 0x80];
        assert l == Pad(left);
        l := Xor(l, aadOffset);
        l := cipher.enc(l);
        aadSum := Xor(aadSum, l);
        aadNleftover := 0;
      }
      aadFull := aadFull + left;
      aadFinalized := true;
    }

    // ---- the whole handle ----

    ghost predicate Valid()
      reads this, aadLeftover
    {
      && Keyed()
      && (marksTag ==> dataFinalized && aadFinalized) && (dataFinalized ==> marksIv)
      && (marksIv ==>
            && (if aadFinalized then AadDone() else AadRunning())
            && (if dataFinalized then Whole() && tag == ExpectedTag() else Running()))
    }

    ghost function ExpectedTag(): Block
      requires Keyed()
      reads this, aadLeftover
    {
      if marksTag then Rfc7253.Tag(cipher, table.lStar, start, aadFull, plain)
      else DataTag(cipher, table.lStar, start, plain)
    }

    constructor (cipher: Cipher, taglen: nat)
      requires cipher.Valid() && cipher.bs == 16 && taglen in {8, 12, 16}
      ensures Valid() && !marksIv && this.cipher == cipher && this.taglen == taglen && fresh(aadLeftover)
    {
      var t := SetKeyTable(cipher);
      this.cipher, this.taglen, table := cipher, taglen, t;
      aadLeftover := new byte[16];
      marksIv, marksTag, marksFinalize, dataFinalized, aadFinalized := false, false, false, false, false;
      iv, ctr, tag, aadOffset, aadSum := ZeroBytes(16), ZeroBytes(16), ZeroBytes(16), ZeroBytes(16), ZeroBytes(16);
      aadNleftover, aadNblocks, dataNblocks := 0, 0, 0;
      start, plain, sealed, aadFull := ZeroBytes(16), [], [], [];
    }

    method SetNonce(nonce: seq<byte>) returns (st: Status)
      requires Keyed()
      modifies this
      ensures st == if |nonce| > 15 || |nonce| < 8 then InvLength else Ok
      ensures st == Ok ==> Valid() && marksIv && !marksTag && !marksFinalize && !dataFinalized && !aadFinalized
      ensures st == Ok ==> plain == [] && sealed == [] && Aad() == [] && start == Start(cipher, taglen, nonce)
      ensures st != Ok ==> unchanged(this)
    {
      hide TableOk, Xor, Start, Running, AadRunning, Whole, AadDone, ExpectedTag;
      if |nonce| > 15 || |nonce| < 8 {
        return InvLength;
      }
      iv := StartOffset(cipher, taglen, nonce);
      marksIv := true;
      Restart();
      marksTag, marksFinalize := false, false;
      dataFinalized, aadFinalized := false, false;
      return Ok;
    }

    /** Clears everything but the offset, which becomes Offset_0. */
    method Restart()
      requires cipher.Valid() && cipher.bs == 16
      modifies this`start, this`ctr, this`aadOffset, this`aadSum, this`dataNblocks, this`aadNblocks,
               this`aadNleftover, this`plain, this`sealed, this`aadFull
      ensures start == iv && Running() && AadRunning()
      ensures plain == [] && sealed == [] && aadFull == [] && aadNleftover == 0
    {
      hide Xor, Offset, CryptFull, Checksum, AadSum;
      start := iv;
      ctr := ZeroBytes(16);
      aadOffset, aadSum := ZeroBytes(16), ZeroBytes(16);
      dataNblocks, aadNblocks, aadNleftover := 0, 0, 0;
      plain, sealed, aadFull := [], [], [];
      FreshState(cipher, table.lStar, start);
    }

    /** ocb_crypt: whole blocks at any time; after finalize, one last call of any length. */
    method Crypt(encrypt: bool, outbuf: array<byte>, op: nat, outbuflen: nat, inbuf: array<byte>, ip: nat, inbuflen: nat)
        returns (st: Status, ghost out: seq<byte>)
      requires Valid() && op + outbuflen <= outbuf.Length && ip + inbuflen <= inbuf.Length
      requires Separate(outbuf, op, inbuf, ip) && outbuf != aadLeftover
      requires marksIv && !dataFinalized ==> 16 * dataNblocks + inbuflen < 0xf_ffff_ffff_ffff_fff0
      modifies this`iv, this`ctr, this`dataNblocks, this`plain, this`sealed, this`tag, this`dataFinalized, outbuf
      ensures Valid()
      ensures st == if !marksIv || old(dataFinalized) then InvState
                    else if outbuflen < inbuflen then BufferTooShort
                    else if !marksFinalize && inbuflen % 16 != 0 then InvLength
                    else Ok
      ensures st != Ok ==> unchanged(this, outbuf)
      ensures st == Ok ==> dataFinalized == marksFinalize && |out| == inbuflen
      ensures st == Ok ==> outbuf[..] == Splice(old(outbuf[..]), op, out)
      ensures st == Ok ==> plain == old(plain) + PlainPart(encrypt, old(inbuf[ip..ip + inbuflen]), out)
      ensures st == Ok ==> sealed == old(sealed) + SealedPart(encrypt, old(inbuf[ip..ip + inbuflen]), out)
    {
      hide TableOk, Running, AadRunning, AadDone, Splice, Whole, Rfc7253.Tag, DataTag;
      out := [];
      if !marksIv || dataFinalized {
        return InvState, out;
      }
      if outbuflen < inbuflen {
        return BufferTooShort, out;
      }
      if !marksFinalize && inbuflen % 16 != 0 {
        return InvLength, out;
      }
      out := CryptData(encrypt, outbuf, op, inbuf, ip, inbuflen);
      if marksFinalize {
        DataFinal();
      }
      st := Ok;
    }

    /** All of a call's data; without finalize it is whole blocks. */
    method CryptData(encrypt: bool, outbuf: array<byte>, op: nat, inbuf: array<byte>, ip: nat, inbuflen: nat)
        returns (ghost out: seq<byte>)
      requires Keyed() && Running() && op + inbuflen <= outbuf.Length && ip + inbuflen <= inbuf.Length
      requires Separate(outbuf, op, inbuf, ip) && outbuf != aadLeftover
      requires 16 * dataNblocks + inbuflen < 0xf_ffff_ffff_ffff_fff0
      modifies this`iv, this`ctr, this`dataNblocks, this`plain, this`sealed, outbuf
      ensures Whole() && (inbuflen % 16 == 0 ==> Running())
      ensures |out| == inbuflen && outbuf[..] == Splice(old(outbuf[..]), op, out)
      ensures plain == old(plain) + PlainPart(encrypt, old(inbuf[ip..ip + inbuflen]), out)
      ensures sealed == old(sealed) + SealedPart(encrypt, old(inbuf[ip..ip + inbuflen]), out)
    {
      hide TableOk, Running, Splice, Whole, PlainPart, SealedPart;
      ghost var in0, out0, p0, s0 := inbuf[..], outbuf[..], plain, sealed;
      var done;
      done, out := CryptWhole(encrypt, outbuf, op, inbuf, ip, inbuflen);
      var left := inbuflen - done;
      if left > 0 {
        ghost var now := inbuf[..];
        ghost var more := CryptTail(encrypt, outbuf, op + done, inbuf, ip + done, left);
        ReadSlice(out0, op, out, now, in0, ip + done, left, outbuf == inbuf);
        SpliceMore(out0, op, out, more);
        PartsConcat(encrypt, p0, s0, in0[ip..ip + done], out, in0[ip + done..ip + inbuflen], more);
        assert in0[ip..ip + done] + in0[ip + done..ip + inbuflen] == in0[ip..ip + inbuflen];
        out := out + more;
      } else {
        WholeBlocksOnly();
      }
    }

    lemma WholeBlocksOnly()
      requires Running()
      ensures Whole()
    {
      hide Offset, CryptFull, Checksum, Xor;
      SealTail(cipher, table.lStar, start, plain, sealed, []);
      assert plain + [] == plain;
    }

    /** The part of the tag that depends on the data. */
    method DataFinal()
      requires Keyed() && Whole() && !marksTag
      modifies this`tag, this`dataFinalized
      ensures dataFinalized && tag == ExpectedTag()
    {
      hide TableOk, LastOffset, LastChecksum, Xor, Seal;
      tag := Xor(ctr, iv);
      LDollar(table);
      tag := Xor(tag, table.lDollar);
      tag := cipher.enc(tag);
      dataFinalized := true;
    }

    /** compute_tag_if_needed */
    method ComputeTag()
      requires Valid() && marksIv && dataFinalized
      modifies this`tag, this`marksTag, this`aadNleftover, this`aadOffset, this`aadSum, this`aadFull, this`aadFinalized
      ensures Valid() && marksTag && Aad() == old(Aad())
      ensures tag == Rfc7253.Tag(cipher, table.lStar, start, old(Aad()), plain)
    {
      hide TableOk, Running, AadRunning, Whole, DataTag, Hash, Xor;
      if marksTag {
        assert Aad() == aadFull;
      } else {
        AadFinalize();
        tag := Xor(tag, aadSum);
        marksTag := true;
        assert Aad() == aadFull;
      }
    }

    method GetTag(outtagsize: nat) returns (st: Status, outtag: seq<byte>)
      requires Valid()
      modifies this`tag, this`marksTag, this`aadNleftover, this`aadOffset, this`aadSum, this`aadFull, this`aadFinalized
      ensures Valid()
      ensures st == if taglen > outtagsize then BufferTooShort else if !dataFinalized then InvState else Ok
      ensures st == Ok ==> outtag == Rfc7253.Tag(cipher, table.lStar, start, old(Aad()), plain)[..taglen]
    {
      if taglen > outtagsize {
        return BufferTooShort, [];
      }
      if !dataFinalized {
        return InvState, [];
      }
      ComputeTag();
      return Ok, tag[..taglen];
    }

    method CheckTag(intag: seq<byte>) returns (st: Status)
      requires Valid()
      modifies this`tag, this`marksTag, this`aadNleftover, this`aadOffset, this`aadSum, this`aadFull, this`aadFinalized
      ensures Valid()
      ensures !dataFinalized ==> st == InvState
      ensures dataFinalized ==>
        st == if intag == Rfc7253.Tag(cipher, table.lStar, start, old(Aad()), plain)[..taglen] then Ok else BadTag
    {
      if !dataFinalized {
        return InvState;
      }
      ComputeTag();
      var n := if |intag| < taglen then |intag| else taglen;
      if intag[..n] != tag[..n] || taglen != |intag| {
        return BadTag;
      }
      assert intag == intag[..n];
      return Ok;
    }

    /** gcry_cipher_final */
    method Finalize()
      modifies this`marksFinalize
      ensures marksFinalize
    {
      marksFinalize := true;
    }
  }

  lemma FreshState(k: Cipher, lstar: Block, start: Block)
    requires k.Valid() && k.bs == 16
    ensures Offset(lstar, start, 0) == start && Offset(lstar, ZeroBytes(16), 0) == ZeroBytes(16)
    ensures CryptFull(k.enc, lstar, start, 0, []) == [] && Checksum([]) == ZeroBytes(16)
    ensures AadSum(k, lstar, []) == ZeroBytes(16)
  {
  }

  /** Format the nonce, encipher its top, stretch, and copy 128 bits from the bottom offset. */
  method StartOffset(k: Cipher, taglen: nat, nonce: seq<byte>) returns (o: Block)
    requires k.Valid() && k.bs == 16 && 8 <= |nonce| <= 15 && taglen <= 16
    ensures o == Start(k, taglen, nonce)
  {
    hide Xor;
    var ktop := ZeroBytes(16 - |nonce|) + nonce;
    ktop := ktop[0 := Octet(taglen * 8 % 128 * 2)];
    ktop := ktop[16 - |nonce| - 1 := OrByte(ktop[16 - |nonce| - 1], 1)];
    FormatSteps(taglen, nonce, ktop);
    BottomBound(ktop);
    var bottom := Bottom(ktop);
    ktop := ktop[15 := ktop[15] & 0xc0];
    ktop := k.enc(ktop);
    var stretch := ktop + Xor(ktop[..8], ktop[1..9]);
    o := BitCopy(stretch, bottom);
  }

  lemma FormatSteps(taglen: nat, nonce: seq<byte>, n: seq<byte>)
    requires 8 <= |nonce| <= 15 && taglen <= 16
    requires var k := (ZeroBytes(16 - |nonce|) + nonce)[0 := Octet(taglen * 8 % 128 * 2)];
             n == k[15 - |nonce| := OrByte(k[15 - |nonce|], 1)]
    ensures n == FormatNonce(taglen, nonce)
  {
    hide OrByte;
    OrZero(Octet(taglen * 8 % 128 * 2));
    OrZero(1);
  }

  lemma LDollar(t: Table)
    requires TableOk(t)
    ensures t.lDollar == Doubles(1, t.lStar)
  {
  }

  lemma OrZero(b: byte)
    ensures OrByte(0, b) == b && OrByte(1, b) == OrByte(b, 1)
  {
  }

  lemma HashTail(k: Cipher, lstar: Block, a: seq<byte>, left: seq<byte>)
    requires k.Valid() && k.bs == 16 && |a| % 16 == 0 && |left| < 16
    ensures Hash(k, lstar, a + left)
         == if left == [] then AadSum(k, lstar, a)
            else Xor(AadSum(k, lstar, a), k.enc(Xor(Pad(left), Xor(Offset(lstar, ZeroBytes(16), |a| / 16), lstar))))
  {
    hide Xor, Offset, AadSum;
    var b := a + left;
    assert Full(|b|) == |a| && b[..|a|] == a && b[|a|..] == left;
  }

  lemma Multiple65536(n: nat)
    requires n > 0 && n % 0x1_0000 == 0
    ensures Ntz(n) >= 16
  {
    NtzBelow(n, 16);
    Pow2Values();
  }

  lemma OddNumber(n: nat)
    requires n > 0 && (n - 1) % 0x1_0000 == 0
    ensures n % 2 == 1 && Ntz(n) == 0
  {
    var q := (n - 1) / 0x1_0000;
    OddCount(0x8000 * q);
  }

  lemma OddCount(x: nat)
    ensures (2 * x + 1) % 2 == 1 && Ntz(2 * x + 1) == 0
  {
  }

  lemma NextAadSum(k: Cipher, lstar: Block, a: seq<byte>, b: Block)
    requires k.Valid() && k.bs == 16 && |a| % 16 == 0
    ensures AadSum(k, lstar, a + b) == Xor(AadSum(k, lstar, a), k.enc(Xor(Offset(lstar, ZeroBytes(16), |a| / 16 + 1), b)))
  {
    hide Xor, Offset;
    var c := a + b;
    assert |c| - 16 == |a| && |c| / 16 == |a| / 16 + 1;
    assert c[..|c| - 16] == a && c[|c| - 16..] == b;
  }

  lemma TailXor(input: seq<byte>, pad: Block, len: nat)
    requires len < 16 && |input| == len
    ensures Xor(input + pad[len..], pad) == Xor(input, pad[..len]) + ZeroBytes(16 - len)
  {
    hide Xor;
    assert pad == pad[..len] + pad[len..];
    XorConcat(input, pad[len..], pad[..len], pad[len..]);
    XorSelf(pad[len..]);
  }

  lemma SealTail(k: Cipher, lstar: Block, start: Block, plain: seq<byte>, sealed: seq<byte>, p: seq<byte>)
    requires k.Valid() && k.bs == 16 && |plain| % 16 == 0 && |p| < 16
    requires sealed == CryptFull(k.enc, lstar, start, 0, plain)
    ensures var o := Offset(lstar, start, |plain| / 16);
            && LastOffset(lstar, start, plain + p) == (if p == [] then o else Xor(o, lstar))
            && LastChecksum(plain + p) == (if p == [] then Checksum(plain) else Xor(Checksum(plain), Pad(p)))
            && Seal(k, lstar, start, plain + p) == sealed + PadXor(k, LastOffset(lstar, start, plain + p), p)
  {
    hide CryptFull, Checksum, Xor, Offset;
    var q := plain + p;
    assert Full(|q|) == |plain| && q[..|plain|] == plain && q[|plain|..] == p;
  }

  lemma EmptyChecksum()
    ensures Checksum([]) == ZeroBytes(16)
  {
  }

  lemma NextChecksum(p: seq<byte>, j: nat)
    requires 16 * j + 16 <= |p|
    ensures Checksum(p[..16 * j + 16]) == Xor(Checksum(p[..16 * j]), p[16 * j..16 * j + 16])
  {
    var q := p[..16 * j + 16];
    assert q[..|q| - 16] == p[..16 * j] && q[|q| - 16..] == p[16 * j..16 * j + 16];
  }

  lemma {:induction false} ChecksumConcat(p: seq<byte>, q: seq<byte>)
    requires |p| % 16 == 0 && |q| % 16 == 0
    ensures Checksum(p + q) == Xor(Checksum(p), Checksum(q))
  {
    hide Xor;
    if q == [] {
      assert p + q == p;
      XorZero(Checksum(p));
    } else {
      var m := |q| - 16;
      assert (p + q)[..|p| + m] == p + q[..m] && (p + q)[|p| + m..] == q[m..];
      ChecksumConcat(p, q[..m]);
      XorAssociates(Checksum(p), Checksum(q[..m]), q[m..]);
    }
  }

  lemma SingleBlock(f: seq<byte> -> seq<byte>, lstar: Block, start: Block, n: nat, p: Block)
    ensures CryptFull(f, lstar, start, n, p) == CryptBlock(f, lstar, start, n + 1, p)
  {
    hide CryptBlock;
    assert p[..0] == [] && p[0..] == p;
  }

  /** Encrypting further blocks p to c keeps the ciphertext so far the encryption of the plaintext
      so far, and adds the checksum of p. */
  lemma Extended(k: Cipher, lstar: Block, start: Block, plain: seq<byte>, sealed: seq<byte>, p: seq<byte>, c: seq<byte>)
    requires |plain| % 16 == 0 && |p| % 16 == 0
    requires sealed == CryptFull(k.enc, lstar, start, 0, plain)
    requires c == CryptFull(k.enc, lstar, start, |plain| / 16, p)
    ensures |plain + p| % 16 == 0
    ensures sealed + c == CryptFull(k.enc, lstar, start, 0, plain + p)
    ensures Checksum(plain + p) == Xor(Checksum(plain), Checksum(p))
  {
    hide CryptFull, Checksum, Xor;
    CryptFullSplit(k.enc, lstar, start, 0, plain, p);
    ChecksumConcat(plain, p);
  }

  lemma NoBlocks(f: seq<byte> -> seq<byte>, lstar: Block, start: Block, n: nat)
    ensures CryptFull(f, lstar, start, n, []) == []
  {
  }

  lemma NextBlock(f: seq<byte> -> seq<byte>, lstar: Block, start: Block, n: nat, p: seq<byte>, j: nat)
    requires 16 * j + 16 <= |p|
    ensures CryptFull(f, lstar, start, n, p[..16 * j + 16])
         == CryptFull(f, lstar, start, n, p[..16 * j]) + CryptBlock(f, lstar, start, n + j + 1, p[16 * j..16 * j + 16])
  {
    hide CryptBlock;
    var q := p[..16 * j + 16];
    assert q[..|q| - 16] == p[..16 * j] && q[|q| - 16..] == p[16 * j..16 * j + 16] && |q| / 16 == j + 1;
  }

  /** out = o xor f(in xor o), through the output buffer. */
  method Whitened(f: seq<byte> -> seq<byte>, o: Block, outbuf: array<byte>, op: nat, inbuf: array<byte>, ip: nat)
    requires op + 16 <= outbuf.Length && ip + 16 <= inbuf.Length && Separate(outbuf, op, inbuf, ip)
    requires |f(Xor(o, inbuf[ip..ip + 16]))| == 16
    modifies outbuf
    ensures outbuf[..] == Splice(old(outbuf[..]), op, Xor(f(Xor(o, old(inbuf[ip..ip + 16]))), o))
  {
    hide Xor, Splice;
    ghost var out0 := outbuf[..];
    var x := Xor(o, inbuf[ip..ip + 16]);
    Put(outbuf, op, x);
    SpliceSlices(out0, op, x);
    assert outbuf[op..op + 16] == outbuf[..][op..op + 16];
    var y := f(outbuf[op..op + 16]);
    Put(outbuf, op, y);
    SpliceAgain(out0, op, x, y);
    SpliceSlices(out0, op, y);
    assert outbuf[op..op + 16] == outbuf[..][op..op + 16];
    var z := Xor(outbuf[op..op + 16], o);
    Put(outbuf, op, z);
    SpliceAgain(out0, op, y, z);
  }

  // ---- what a caller sees ----

  /** Two handles with the same key and nonce that hold the same ciphertext, one having encrypted
      and the other decrypted, under any splits into calls and in place or not: they hold the same
      plaintext, offset and checksum, and with the same associated data the same tag. */
  lemma OpenUndoesSeal(e: Handle, d: Handle)
    requires e.Valid() && d.Valid() && e.marksIv && d.marksIv
    requires e.cipher == d.cipher && e.start == d.start && e.sealed == d.sealed
    ensures e.plain == d.plain && e.iv == d.iv && e.ctr == d.ctr
    ensures e.marksTag && d.marksTag && e.aadFull == d.aadFull ==> e.tag == d.tag
  {
    hide TableOk, Seal, LastOffset, LastChecksum, DataTag, Rfc7253.Tag, Hash, AadSum, Offset, Handle.Running;
    if !e.dataFinalized {
      e.WholeBlocksOnly();
    }
    if !d.dataFinalized {
      d.WholeBlocksOnly();
    }
    SealInjective(e.cipher, e.table.lStar, e.start, e.plain, d.plain);
  }

  /** When the assertion trips, in terms of the octets given so far: exactly when the call completes
      a buffered block whose number is a multiple of 65536. */
  lemma TripsWhen(h: Handle, n: nat)
    requires h.Keyed() && h.AadRunning()
    ensures h.Trips(n) <==> var m := |h.Aad()|; m % 16 > 0 && m % 16 + n >= 16 && (m / 16 + 1) % 0x1_0000 == 0
  {
    hide TableOk, AadSum, Offset;
    assert |h.Aad()| == 16 * h.aadNblocks + h.aadNleftover;
  }

  /** For example 65535 blocks and one octet, then fifteen octets. */
  lemma TripExample(h: Handle)
    requires h.Keyed() && h.AadRunning() && |h.Aad()| == 16 * 65535 + 1
    ensures h.Trips(15) && !h.Trips(14)
  {
    hide TableOk, AadSum, Offset;
    TripsWhen(h, 15);
    TripsWhen(h, 14);
  }

  /** A run that trips it: associated data of 65535 blocks and one octet, then fifteen octets. */
  method TripRun(cipher: Cipher) returns (h: Handle, st: Status)
    requires cipher.Valid() && cipher.bs == 16
    ensures fresh(h) && h.cipher == cipher && st == AssertionFailed
  {
    hide Handle.Valid, Start;
    h := new Handle(cipher, 16);
    HandleKeyed(h);
    st := h.SetNonce(ZeroBytes(12));
    HandleKeyed(h);
    st := h.Authenticate(ZeroBytes(16 * 65535 + 1));
    TripExample(h);
    st := h.Authenticate(ZeroBytes(15));
  }

  lemma HandleKeyed(h: Handle)
    requires h.Valid()
    ensures h.Keyed() && (h.marksIv && !h.aadFinalized ==> h.AadRunning())
  {
    hide TableOk, AadSum, Offset, Xor;
  }
}
