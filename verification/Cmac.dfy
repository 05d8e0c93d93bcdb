/** cipher-cmac.c: CMAC over data written in any pieces. */
module Cmac {
  import opened Buffering
  import opened Bytes
  import opened CipherBlock
  import opened Sp80038B
  import GF = GaloisField
  import N = BitNumbers

  // ---- subkeys ----

  function ShlByte(b: byte, carry: byte): byte {
    carry | (b << 1)
  }

  function CarryOf(b: byte): byte {
    b >> 7
  }

  lemma ShlByteBits(b: byte, next: byte, i: nat)
    requires i < 8
    ensures Bit(ShlByte(b, CarryOf(next)), i) == if i == 0 then Bit(next, 7) else Bit(b, i - 1)
    ensures Bit(ShlByte(b, 0), i) == if i == 0 then false else Bit(b, i - 1)
    ensures CarryOf(next) != 0 <==> Bit(next, 7)
  {
  }

  /** The octets the loop has shifted, from position i on. */
  ghost predicate Shifted(b: seq<byte>, r: seq<byte>, i: nat)
    requires |b| == |r| && i <= |b|
  {
    && (forall j :: i <= j < |b| - 1 ==> r[j] == ShlByte(b[j], CarryOf(b[j + 1])))
    && (i < |b| ==> r[|b| - 1] == ShlByte(b[|b| - 1], 0))
  }

  lemma ShiftedBitAt(b: seq<byte>, r: seq<byte>, i: nat)
    requires |b| == |r| > 0 && Shifted(b, r, 0) && i < 8 * |b|
    ensures BitsBE(r)[i] == if i == 0 then false else BitsBE(b)[i - 1]
  {
    hide Bit, ShlByte, CarryOf, BitsBE;
    var q, e := i / 8, i % 8;
    var j := |b| - 1 - q;
    BitAt(r, i);
    if e > 0 {
      BitAt(b, i - 1);
      assert (i - 1) / 8 == q && (i - 1) % 8 == e - 1;
      ShlByteBits(b[j], if j < |b| - 1 then b[j + 1] else 0, e);
    } else if i > 0 {
      BitAt(b, i - 1);
      assert (i - 1) / 8 == q - 1 && (i - 1) % 8 == 7;
      ShlByteBits(b[j], b[j + 1], 0);
    } else {
      ShlByteBits(b[j], 0, 0);
    }
  }

  lemma ShiftedBits(b: seq<byte>, r: seq<byte>)
    requires |b| == |r| > 0 && Shifted(b, r, 0)
    ensures BitsBE(r) == ShiftLeft(BitsBE(b))
  {
    hide BitsBE, Shifted;
    forall i | 0 <= i < 8 * |b|
      ensures BitsBE(r)[i] == ShiftLeft(BitsBE(b))[i]
    {
      ShiftedBitAt(b, r, i);
    }
  }

  function Rb(bs: nat): byte {
    if bs == 16 then 0x87 else 0x1b
  }

  lemma RbBits(bs: nat, i: nat)
    requires bs in {8, 16} && i < 8
    ensures Bit(Rb(bs), i) == R(8 * bs)[i]
  {
  }

  lemma ReducedBits(r: seq<byte>, d: seq<byte>)
    requires |r| == |d| && |r| in {8, 16} && d == r[|r| - 1 := XorByte(r[|r| - 1], Rb(|r|))]
    ensures BitsBE(d) == GF.Add(BitsBE(r), R(8 * |r|))
  {
    hide Bit, BitsBE, Rb, XorByte;
    forall i | 0 <= i < 8 * |r|
      ensures BitsBE(d)[i] == GF.Add(BitsBE(r), R(8 * |r|))[i]
    {
      BitAt(r, i);
      BitAt(d, i);
      if i < 8 {
        N.XorBits(r[|r| - 1], Rb(|r|), i);
        RbBits(|r|, i);
      } else {
        assert i / 8 > 0;
      }
    }
  }

  method ShiftInPlace(buf: array<byte>) returns (carry: byte)
    requires buf.Length in {8, 16}
    modifies buf
    ensures Shifted(old(buf[..]), buf[..], 0) && carry == CarryOf(old(buf[0]))
  {
    hide ShlByte, CarryOf;
    ghost var b := buf[..];
    carry := 0;
    var i := buf.Length - 1;
    while i >= 0
      invariant -1 <= i < buf.Length && Shifted(b, buf[..], i + 1) && buf[..i + 1] == b[..i + 1]
      invariant carry == if i == buf.Length - 1 then 0 else CarryOf(b[i + 1])
    {
      var bi := buf[i];
      assert bi == buf[..i + 1][i];
      var t := ShlByte(bi, carry);
      carry := CarryOf(bi);
      buf[i] := t;
      assert buf[..i] == b[..i + 1][..i];
      i := i - 1;
    }
  }

  /** The byte-wise loop and the conditional addition of 0x87 or 0x1b double the block. */
  method DoubleInPlace(buf: array<byte>)
    requires buf.Length in {8, 16}
    modifies buf
    ensures buf[..] == DoubleOctets(old(buf[..]))
  {
    hide ShlByte, CarryOf, Rb, BitsBE, OctetsBE, XorByte, Shifted, ShiftLeft, R, GF.Add;
    ghost var b := buf[..];
    var carry := ShiftInPlace(buf);
    ghost var r := buf[..];
    ShiftedBits(b, r);
    ShlByteBits(0, b[0], 0);
    TopBit(b);
    if carry != 0 {
      buf[buf.Length - 1] := XorByte(buf[buf.Length - 1], Rb(buf.Length));
      ReducedBits(r, buf[..]);
    }
    OctetsOfBits(buf[..]);
  }

  lemma TopBit(b: seq<byte>)
    requires |b| > 0
    ensures BitsBE(b)[8 * |b| - 1] == Bit(b[0], 7)
  {
    hide Bit, BitsBE;
    BitAt(b, 8 * |b| - 1);
    assert (8 * |b| - 1) / 8 == |b| - 1 && (8 * |b| - 1) % 8 == 7;
  }

  // ---- the context ----

  datatype Status = Ok | InvState | InvArg | Checksum

  /** What one call takes in after the buffered block is filled: with the bulk function the length of
      the hashed blocks is computed in 32 bits. */
  function Taken(bs: nat, bulk: bool, rest: seq<byte>): seq<byte>
    requires bs in {8, 16}
  {
    if bulk && |rest| > bs then
      var n := BulkBlocks(bs, |rest|);
      var p := Shift32(bs, n);
      BulkFits(bs, |rest|);
      rest[..bs * n] + rest[p..p + if |rest| - p > bs then bs else |rest| - p]
    else rest
  }

  /** nblocks << blocksize_shift, in 32 bits. */
  function Shift32(bs: nat, n: nat): nat {
    bs * n % 0x1_0000_0000
  }

  /** nblocks, an unsigned int, less one if it covers everything. */
  function BulkBlocks(bs: nat, len: nat): nat
    requires bs in {8, 16} && len > bs
  {
    var n := len / bs % 0x1_0000_0000;
    if Shift32(bs, n) == len && n > 0 then n - 1 else n
  }

  lemma BulkFits(bs: nat, len: nat)
    requires bs in {8, 16} && len > bs
    ensures bs * BulkBlocks(bs, len) <= len && Shift32(bs, BulkBlocks(bs, len)) < len
    ensures Shift32(bs, len / bs % 0x1_0000_0000) == len ==> len / bs % 0x1_0000_0000 > 0
    ensures len < 0x1_0000_0000 ==> Shift32(bs, BulkBlocks(bs, len)) == bs * BulkBlocks(bs, len) && len <= bs * BulkBlocks(bs, len) + bs
  {
    if bs == 16 {
      BulkFits16(len);
    } else {
      BulkFits8(len);
    }
  }

  lemma BulkFits16(len: nat)
    requires len > 16
    ensures 16 * BulkBlocks(16, len) <= len && Shift32(16, BulkBlocks(16, len)) < len
    ensures Shift32(16, len / 16 % 0x1_0000_0000) == len ==> len / 16 % 0x1_0000_0000 > 0
    ensures len < 0x1_0000_0000 ==> Shift32(16, BulkBlocks(16, len)) == 16 * BulkBlocks(16, len) && len <= 16 * BulkBlocks(16, len) + 16
  {
  }

  lemma BulkFits8(len: nat)
    requires len > 8
    ensures 8 * BulkBlocks(8, len) <= len && Shift32(8, BulkBlocks(8, len)) < len
    ensures Shift32(8, len / 8 % 0x1_0000_0000) == len ==> len / 8 % 0x1_0000_0000 > 0
    ensures len < 0x1_0000_0000 ==> Shift32(8, BulkBlocks(8, len)) == 8 * BulkBlocks(8, len) && len <= 8 * BulkBlocks(8, len) + 8
  {
  }

  /** Octets are lost, or hashed twice, exactly when the bulk function is used on 2^32 or more. */
  lemma TakenExact(bs: nat, bulk: bool, rest: seq<byte>)
    requires bs in {8, 16}
    ensures Taken(bs, bulk, rest) == rest <==> !bulk || |rest| < 0x1_0000_0000
  {
    if bulk && |rest| > bs {
      BulkFits(bs, |rest|);
      var n, p := BulkBlocks(bs, |rest|), Shift32(bs, BulkBlocks(bs, |rest|));
      if |rest| < 0x1_0000_0000 {
        assert rest[..bs * n] + rest[bs * n..|rest|] == rest;
      } else {
        TakenLength(bs, |rest|);
      }
    }
  }

  lemma TakenLength(bs: nat, len: nat)
    requires bs in {8, 16} && len >= 0x1_0000_0000
    ensures var p := Shift32(bs, BulkBlocks(bs, len));
            len - p > bs ==> bs * BulkBlocks(bs, len) + bs != len
    ensures len - Shift32(bs, BulkBlocks(bs, len)) <= bs ==>
      bs * BulkBlocks(bs, len) + len - Shift32(bs, BulkBlocks(bs, len)) != len
  {
    if bs == 16 {
      TakenLength16(len);
    } else {
      TakenLength8(len);
    }
  }

  lemma TakenLength16(len: nat)
    requires len >= 0x1_0000_0000
    ensures var n := BulkBlocks(16, len);
            len - Shift32(16, n) > 16 && 16 * n + 16 != len
  {
    var q := len / 16;
    var n := q % 0x1_0000_0000;
    assert Shift32(16, n) < 0x1_0000_0000 <= len;
    assert BulkBlocks(16, len) == n;
    if q < 0x1_0000_0000 {
      assert n == q;
    } else {
      assert n + 1 <= 0x1_0000_0000 <= q;
    }
  }

  lemma TakenLength8(len: nat)
    requires len >= 0x1_0000_0000
    ensures var n := BulkBlocks(8, len);
            len - Shift32(8, n) > 8 && 8 * n + 8 != len
  {
    var q := len / 8;
    var n := q % 0x1_0000_0000;
    assert Shift32(8, n) < 0x1_0000_0000 <= len;
    assert BulkBlocks(8, len) == n;
    if q < 0x1_0000_0000 {
      assert n == q;
    } else {
      assert n + 1 <= 0x1_0000_0000 <= q;
    }
  }

  lemma TakenBulk(bs: nat, rest: seq<byte>, full: seq<byte>)
    requires bs in {8, 16} && |rest| > bs
    ensures var n := BulkBlocks(bs, |rest|);
            var p := Shift32(bs, n);
            bs * n <= |rest| && p < |rest|
            && full + rest[..bs * n] + rest[p..p + if |rest| - p > bs then bs else |rest| - p] == full + Taken(bs, true, rest)
  {
    BulkFits(bs, |rest|);
    var n := BulkBlocks(bs, |rest|);
    var p := Shift32(bs, n);
    ConcatAssociates(full, rest[..bs * n], rest[p..p + if |rest| - p > bs then bs else |rest| - p]);
  }

  lemma TakenLoop(bs: nat, bulk: bool, rest: seq<byte>, pos: nat, full: seq<byte>)
    requires bs in {8, 16} && !(bulk && |rest| > bs) && pos < |rest| <= pos + bs
    ensures full + rest[..pos] + rest[pos..pos + if |rest| - pos > bs then bs else |rest| - pos] == full + Taken(bs, bulk, rest)
  {
    assert rest[..pos] + rest[pos..|rest|] == rest;
    ConcatAssociates(full, rest[..pos], rest[pos..|rest|]);
  }

  class Context {
    const cipher: Cipher
    const bulk: bool           // whether bulk.cbc_enc is set
    const macbuf: array<byte>
    const k1: seq<byte>        // the subkeys
    const k2: seq<byte>
    var iv: seq<byte>
    var unused: nat            // filled octets of macbuf
    var tag: bool
    ghost var data: seq<byte>  // everything taken in so far

    ghost predicate Fixed() {
      && cipher.Valid() && cipher.bs in {8, 16} && macbuf.Length == cipher.bs && k1 == K1(cipher) && k2 == K2(cipher)
    }

    /** Data may follow: the last block, full or not, is still in the buffer. */
    ghost predicate Open()
      reads this, macbuf
      ensures Open() ==> cipher.Valid() && macbuf.Length == cipher.bs && unused <= cipher.bs
    {
      && Fixed() && !tag
      && var m := LastStart(cipher.bs, |data|);
      unused == |data| - m && Chained(data[..m]) && macbuf[..unused] == data[m..]
    }

    ghost predicate Chained(full: seq<byte>)
      reads this`iv
      requires cipher.Valid()
    {
      |full| % cipher.bs == 0 && iv == CbcChain(cipher, full)
    }

    ghost predicate Finished()
      reads this
    {
      Fixed() && iv == Cmac(cipher, data)
    }

    /** A context with its subkeys, as generate_subkeys and memset leave it. */
    constructor (cipher: Cipher, bulk: bool, k1: seq<byte>, k2: seq<byte>)
      requires cipher.Valid() && cipher.bs in {8, 16} && k1 == K1(cipher) && k2 == K2(cipher)
      ensures Open() && Fixed() && data == [] && fresh(macbuf) && this.cipher == cipher && this.bulk == bulk
    {
      hide K1, K2;
      this.cipher, this.bulk, this.k1, this.k2 := cipher, bulk, k1, k2;
      macbuf := new byte[cipher.bs](_ => 0);
      iv, unused, tag, data := ZeroBytes(cipher.bs), 0, false, [];
    }

    /** _gcry_cmac_reset keeps only the subkeys. */
    method Reset()
      requires Fixed()
      modifies this, macbuf
      ensures Open() && data == []
    {
      hide K1, K2;
      forall i | 0 <= i < macbuf.Length {
        macbuf[i] := 0;
      }
      iv, unused, tag, data := ZeroBytes(cipher.bs), 0, false, [];
    }

    method ChainBlock(b: seq<byte>, ghost full: seq<byte>)
      requires cipher.Valid() && |b| == cipher.bs && Chained(full)
      modifies this`iv
      ensures |full + b| % cipher.bs == 0 && Chained(full + b)
    {
      hide CbcChain, Xor;
      NextChain(cipher, full, b);
      iv := Xor(iv, b);
      iv := cipher.enc(iv);
    }

    /** Whole blocks of the input: the bulk function, or the loop that leaves the last block. */
    method ChainBlocks(input: seq<byte>, start: nat, n: nat, ghost full: seq<byte>) returns (pos: nat)
      requires cipher.Valid() && Chained(full) && start + cipher.bs * n <= |input|
      modifies this`iv
      ensures pos == start + cipher.bs * n && Chained(full + input[start..pos])
    {
      hide Chained;
      pos := start;
      assert full + input[start..start] == full;
      var i := 0;
      while i < n
        invariant 0 <= i <= n && pos == start + cipher.bs * i && pos <= |input| && Chained(full + input[start..pos])
      {
        NextBlock(cipher.bs, i, n);
        var b := input[pos..pos + cipher.bs];
        ChainBlock(b, full + input[start..pos]);
        SliceMore(input, start, pos, pos + cipher.bs);
        ConcatAssociates(full, input[start..pos], b);
        pos := pos + cipher.bs;
        i := i + 1;
      }
    }

    method CopyIn(s: seq<byte>, pos: nat, n: nat)
      requires unused + n <= macbuf.Length && pos + n <= |s|
      modifies this`unused, macbuf
      ensures unused == old(unused) + n && macbuf[..unused] == old(macbuf[..unused]) + s[pos..pos + n]
    {
      ghost var before, u := macbuf[..], unused;
      Put(macbuf, unused, s[pos..pos + n]);
      unused := unused + n;
      assert macbuf[..unused] == macbuf[..][..unused] && before[..u] == old(macbuf[..unused]);
    }

    /** Where the input goes once the buffered block is full: the octets before pos complete it. */
    function Fill(input: seq<byte>): (pos: nat)
      requires unused <= cipher.bs && unused + |input| > cipher.bs
      reads this`unused
      ensures pos < |input|
    {
      if unused > 0 then cipher.bs - unused else 0
    }

    lemma NotTagged()
      requires Open()
      ensures !tag && Fixed()
    {
      hide K1, K2, LastStart;
    }

    /** What a call adds to the data. */
    function TakenAll(input: seq<byte>): seq<byte>
      requires Fixed() && unused <= cipher.bs
      reads this`unused
    {
      if unused + |input| <= cipher.bs then input
      else input[..Fill(input)] + Taken(cipher.bs, bulk, input[Fill(input)..])
    }

    /** _gcry_cmac_write: all of the input is taken in, but for the case TakenExact describes. */
    method Write(input: seq<byte>) returns (st: Status)
      requires tag || Open()
      modifies this`iv, this`unused, this`data, macbuf
      ensures st == if tag then InvState else Ok
      ensures st != Ok ==> unchanged(this) && unchanged(macbuf)
      ensures st == Ok ==> Open() && data == old(data) + old(TakenAll(input))
    {
      hide Chained, LastStart, Taken, CbcChain, K1, K2;
      if tag {
        return InvState;
      }
      ghost var was := data;
      if |input| == 0 {
        assert was + input == was;
        return Ok;
      }
      var bs := cipher.bs;
      ghost var m := LastStart(bs, |was|);
      if unused + |input| <= bs {
        CopyIn(input, 0, |input|);
        assert input[0..|input|] == input;
        Kept(was, input, m, m, 0, |was| - m);
        assert input[0..] == input;
        data := data + input;
        LastStartIs(bs, |data|, m);
        return Ok;
      }
      var pos := FillBlock(input);
      var rest := input[pos..];
      WriteRest(rest, was + input[..pos]);
      ConcatAssociates(was, input[..pos], Taken(bs, bulk, rest));
      return Ok;
    }

    /** A call with fewer than 2^32 octets is taken in whole. */
    lemma TakenWhole(input: seq<byte>)
      requires Open() && (!bulk || |input| < 0x1_0000_0000)
      ensures Fixed() && TakenAll(input) == input
    {
      hide Taken, K1, K2, LastStart;
      if unused + |input| > cipher.bs {
        TakenExact(cipher.bs, bulk, input[Fill(input)..]);
      }
    }

    /** Completes and chains the buffered block, if there is one. */
    method FillBlock(input: seq<byte>) returns (pos: nat)
      requires Open() && unused + |input| > cipher.bs
      modifies this`iv, this`unused, macbuf
      ensures pos == old(Fill(input)) && unused == 0 && Chained(data + input[..pos])
    {
      hide Chained, LastStart, CbcChain, K1, K2;
      ghost var was, m := data, LastStart(cipher.bs, |data|);
      assert was == was[..m] + was[m..];
      pos := 0;
      if unused > 0 {
        var n := |input|;
        if n > cipher.bs - unused {
          n := cipher.bs - unused;
        }
        CopyIn(input, 0, n);
        assert input[0..n] == input[..n];
        pos := n;
        assert macbuf[..] == macbuf[..unused] == was[m..] + input[..n];
        ConcatAssociates(was[..m], was[m..], input[..n]);
        ChainBlock(macbuf[..], was[..m]);
        unused := 0;
      } else {
        assert was[..m] == was && was + input[..0] == was;
      }
    }

    method WriteRest(rest: seq<byte>, ghost full: seq<byte>)
      requires Fixed() && !tag && unused == 0 && Chained(full) && |rest| > 0
      modifies this`iv, this`unused, this`data, macbuf
      ensures Open() && data == full + Taken(cipher.bs, bulk, rest)
    {
      hide Chained, LastStart, CbcChain, K1, K2, Open, Taken, BulkBlocks, Shift32;
      if bulk && |rest| > cipher.bs {
        var nblocks := BulkBlocks(cipher.bs, |rest|);
        BulkFits(cipher.bs, |rest|);
        ghost var hashed := ChainBlocks(rest, 0, nblocks, full);
        assert rest[0..hashed] == rest[..hashed];
        KeepLast(rest, Shift32(cipher.bs, nblocks), full + rest[..hashed]);
        TakenBulk(cipher.bs, rest, full);
      } else {
        var pos := ChainLoop(rest, full);
        KeepLast(rest, pos, full + rest[..pos]);
        TakenLoop(cipher.bs, bulk, rest, pos, full);
      }
    }

    /** Block by block, while there is more than one block. */
    method ChainLoop(rest: seq<byte>, ghost full: seq<byte>) returns (pos: nat)
      requires cipher.Valid() && Chained(full) && |rest| > 0
      modifies this`iv
      ensures pos < |rest| <= pos + cipher.bs && Chained(full + rest[..pos])
    {
      hide Chained;
      pos := 0;
      assert full + rest[..0] == full;
      while |rest| - pos > cipher.bs
        invariant pos < |rest| && Chained(full + rest[..pos])
      {
        ghost var p := pos;
        ChainBlock(rest[pos..pos + cipher.bs], full + rest[..pos]);
        pos := pos + cipher.bs;
        assert rest[..p] + rest[p..pos] == rest[..pos];
        ConcatAssociates(full, rest[..p], rest[p..pos]);
      }
    }

    /** The last block of the input stays in the buffer. */
    method KeepLast(rest: seq<byte>, pos: nat, ghost full: seq<byte>)
      requires Fixed() && !tag && unused == 0 && Chained(full) && pos < |rest|
      modifies this`unused, this`data, macbuf
      ensures Open() && data == full + rest[pos..pos + if |rest| - pos > cipher.bs then cipher.bs else |rest| - pos]
    {
      hide LastStart, CbcChain, K1, K2;
      var n := |rest| - pos;
      assert n > 0;  // so BUG() is not reached
      if n > cipher.bs - unused {
        n := cipher.bs - unused;
      }
      ghost var tail := rest[pos..pos + n];
      assert macbuf[..unused] == [];
      CopyIn(rest, pos, n);
      data := full + tail;
      LastStartIs(cipher.bs, |data|, |full|);
      assert data[..|full|] == full && data[|full|..] == tail;
    }

    /** _gcry_cmac_final */
    method Final()
      requires Open()
      modifies this`iv, this`unused, macbuf
      ensures Finished()
    {
      hide CbcChain, K1, K2, Xor;
      ghost var m := LastStart(cipher.bs, |data|);
      var count := unused;
      ghost var last := macbuf[..unused];
      var subkey := k1;
      if count == cipher.bs {
        assert macbuf[..] == last;
      } else {
        subkey := k2;
        Put(macbuf, count, [0x80] + ZeroBytes(cipher.bs - count - 1));
        assert macbuf[..] == last + [0x80] + ZeroBytes(cipher.bs - 1 - |last|);
      }
      Put(macbuf, 0, Xor(macbuf[..], subkey));
      assert macbuf[..] == LastMasked(cipher, last);
      iv := Xor(iv, macbuf[..]);
      iv := cipher.enc(iv);
      unused := 0;
    }

    /** cmac_tag, for a tag that is handed out. */
    method GetTag(taglen: nat) returns (st: Status, t: seq<byte>)
      requires if tag then Finished() else Open()
      modifies this`iv, this`unused, this`tag, macbuf
      ensures st == if taglen == 0 || taglen > cipher.bs then InvArg else Ok
      ensures st == Ok ==> tag && Finished() && t == Cmac(cipher, data)[..taglen]
      ensures st != Ok ==> unchanged(this) && unchanged(macbuf)
    {
      hide Cmac, K1, K2;
      t := [];
      if taglen == 0 || taglen > cipher.bs {
        return InvArg, t;
      }
      if !tag {
        Final();
        tag := true;
      }
      return Ok, iv[..taglen];
    }

    /** cmac_tag, for a tag to be compared. */
    method CheckTag(t: seq<byte>) returns (st: Status)
      requires if tag then Finished() else Open()
      modifies this`iv, this`unused, this`tag, macbuf
      ensures st == if |t| == 0 || |t| > cipher.bs then InvArg else if t == Cmac(cipher, data)[..|t|] then Ok else Checksum
      ensures st == Ok || st == Checksum ==> tag && Finished()
    {
      hide Cmac, K1, K2;
      var mine;
      st, mine := GetTag(|t|);
      if st == Ok && t != mine {
        return Checksum;
      }
    }
  }

  /** _gcry_cmac_generate_subkeys */
  method GenerateSubkeys(k: Cipher) returns (k1: seq<byte>, k2: seq<byte>)
    requires k.Valid() && k.bs in {8, 16}
    ensures k1 == K1(k) && k2 == K2(k)
  {
    hide DoubleOctets;
    var buf := new byte[k.bs];
    Put(buf, 0, k.enc(ZeroBytes(k.bs)));
    assert buf[..] == k.enc(ZeroBytes(k.bs));
    DoubleInPlace(buf);
    k1 := buf[..];
    DoubleInPlace(buf);
    k2 := buf[..];
  }
}
