/** What the definitions of RFC 7253 come to: the nonce block and the stretched key as numbers, and
    short messages written out. */
module OcbForms {
  import opened Bytes
  import opened CipherBlock
  import opened Rfc7253
  import BitHelp
  import N = BitNumbers

  // ---- the nonce (section 4.2) ----

  lemma OrBit(b: byte, i: nat)
    requires i < 8
    ensures Bit(OrByte(1, b), i) == (i == 0 || Bit(b, i)) && OrByte(0, b) == b
  {
  }

  lemma EvenOctet(m: nat)
    requires m < 128
    ensures !Bit(Octet(2 * m), 0)
  {
    hide Val, Octet, Bit;
    N.ValBits(Octet(2 * m));
    ValOctet(2 * m);
  }

  lemma OrOne(m: nat)
    requires m < 128
    ensures Val(OrByte(1, Octet(2 * m))) == 2 * m + 1 && Val(OrByte(0, Octet(2 * m))) == 2 * m
  {
    hide Val, Octet, OrByte, Bit;
    var b := Octet(2 * m);
    EvenOctet(m);
    ValOctet(2 * m);
    forall i: nat | i < 8
      ensures Bit(OrByte(1, b), i) == (i == 0 || Bit(b, i)) && OrByte(0, b) == b
    {
      OrBit(b, i);
    }
    N.ValBits(b);
    N.ValBits(OrByte(1, b));
  }

  lemma {:induction false} ZeroNumber(n: nat)
    ensures BigEndian(ZeroBytes(n)) == 0
  {
    if n > 0 {
      assert ZeroBytes(n)[..n - 1] == ZeroBytes(n - 1);
      ZeroNumber(n - 1);
    }
  }

  lemma OneNumber(b: byte)
    ensures BigEndian([b]) == Val(b) && Val(1) == 1
  {
    assert [b][..0] == [];
  }

  /** The octets before the nonce: the tag length on top, a one at the end. */
  lemma HeadNumber(m: nat, n: nat)
    requires m < 128 && n < 15
    ensures BigEndian([OrByte(0, Octet(2 * m))] + ZeroBytes(14 - n) + [1]) == 2 * m * Pow256(15 - n) + 1
  {
    hide Val, Octet, OrByte, BigEndian, Pow256;
    var x := OrByte(0, Octet(2 * m));
    OrOne(m);
    OneNumber(x);
    OneNumber(1);
    ZeroNumber(14 - n);
    var tail := ZeroBytes(14 - n) + [1];
    assert [x] + ZeroBytes(14 - n) + [1] == [x] + tail;
    BigEndianConcat(ZeroBytes(14 - n), [1]);
    BigEndianConcat([x], tail);
  }

  /** num2str(TAGLEN mod 128, 7) || zeros || 1 || N, as a number. */
  lemma NonceNumber(taglen: nat, nonce: seq<byte>)
    requires 8 <= |nonce| <= 15 && taglen <= 16
    ensures BigEndian(FormatNonce(taglen, nonce))
         == 2 * (8 * taglen % 128) * Pow256(15) + Pow256(|nonce|) + BigEndian(nonce)
  {
    var m, n := 8 * taglen % 128, |nonce|;
    FormatIs(taglen, nonce, m);
    hide *;
    if n == 15 {
      LongNonce(m, nonce);
    } else {
      ShortNonce(m, nonce);
    }
  }

  lemma FormatIs(taglen: nat, nonce: seq<byte>, m: nat)
    requires 8 <= |nonce| <= 15 && taglen <= 16 && m == 8 * taglen % 128
    ensures |nonce| == 15 ==> FormatNonce(taglen, nonce) == [OrByte(1, Octet(2 * m))] + nonce
    ensures |nonce| < 15 ==> FormatNonce(taglen, nonce) == [OrByte(0, Octet(2 * m))] + ZeroBytes(14 - |nonce|) + [1] + nonce
  {
    hide Octet, OrByte;
    assert taglen * 8 % 128 * 2 == 2 * m;
    ZeroOctets();
  }

  lemma LongNonce(m: nat, nonce: seq<byte>)
    requires m < 128 && |nonce| == 15
    ensures BigEndian([OrByte(1, Octet(2 * m))] + nonce) == 2 * m * Pow256(15) + Pow256(15) + BigEndian(nonce)
  {
    hide *;
    var x := OrByte(1, Octet(2 * m));
    OrOne(m);
    OneNumber(x);
    BigEndianConcat([x], nonce);
    Distributes(2 * m, 1, Pow256(15));
  }

  lemma ShortNonce(m: nat, nonce: seq<byte>)
    requires m < 128 && |nonce| < 15
    ensures BigEndian([OrByte(0, Octet(2 * m))] + ZeroBytes(14 - |nonce|) + [1] + nonce)
         == 2 * m * Pow256(15) + Pow256(|nonce|) + BigEndian(nonce)
  {
    hide *;
    var n, head := |nonce|, [OrByte(0, Octet(2 * m))] + ZeroBytes(14 - |nonce|) + [1];
    HeadNumber(m, n);
    BigEndianConcat(head, nonce);
    Pow256Plus(15 - n, n);
    Distributes(2 * m * Pow256(15 - n), 1, Pow256(n));
    Regroups(2 * m, Pow256(15 - n), Pow256(n));
  }

  lemma ZeroOctets()
    ensures ZeroBytes(0) == []
  {
  }

  lemma Distributes(a: nat, b: nat, c: nat)
    ensures (a + b) * c == a * c + b * c
  {
  }

  lemma Regroups(a: nat, b: nat, c: nat)
    ensures a * b * c == a * (b * c)
  {
  }

  lemma LowSix(b: byte)
    ensures Val(b & 0x3f) == Val(b) % 64 && Val(b & 0xc0) == Val(b) - Val(b) % 64
  {
    hide Val, Bit;
    var low, high := b & 0x3f, b & 0xc0;
    forall i: nat | i < 8
      ensures Bit(low, i) == (i < 6 && Bit(b, i)) && Bit(high, i) == (i >= 6 && Bit(b, i))
    {
      MaskedBit(b, i);
    }
    N.ValBits(b);
    N.ValBits(low);
    N.ValBits(high);
  }

  lemma MaskedBit(b: byte, i: nat)
    requires i < 8
    ensures Bit(b & 0x3f, i) == (i < 6 && Bit(b, i)) && Bit(b & 0xc0, i) == (i >= 6 && Bit(b, i))
  {
  }

  /** bottom is the nonce block modulo 64, and Ktop is made from the rest. */
  lemma BottomMeans(n: Block)
    ensures Bottom(n) == BigEndian(n) % 64 && BigEndian(n[15 := n[15] & 0xc0]) == BigEndian(n) - BigEndian(n) % 64
  {
    hide Val;
    var m := n[15 := n[15] & 0xc0];
    assert m[..15] == n[..15];
    var q := BigEndian(n[..15]);
    assert BigEndian(n) == 256 * q + Val(n[15]);
    assert BigEndian(m) == 256 * q + Val(n[15] & 0xc0);
    hide BigEndian;
    LowSix(n[15]);
    Remainder(q, Val(n[15]));
  }

  lemma Remainder(q: nat, v: nat)
    ensures (256 * q + v) % 64 == v % 64
  {
  }

  /** Offset_0: 128 bits of Stretch, from bit position bottom on. */
  lemma StretchNumber(ktop: Block, bottom: nat)
    requires bottom < 64
    ensures BigEndian(StretchAt(ktop, bottom))
         == BigEndian(ktop + Xor(ktop[..8], ktop[1..9])) / BitHelp.Pow2(64 - bottom) % BitHelp.Pow2(128)
  {
    hide N.Number, BigEndian, BitsBE, OctetsBE, BitHelp.Pow2, Xor;
    var stretch := ktop + Xor(ktop[..8], ktop[1..9]);
    var v := BitsBE(stretch);
    N.NumberBE(stretch);
    N.NumberSlice(v, 64 - bottom, 192 - bottom);
    N.OctetsNumber(v[64 - bottom..192 - bottom]);
  }

  /** Offset_0 from the nonce block, all as numbers. */
  lemma StartMeans(k: Cipher, taglen: nat, nonce: seq<byte>)
    requires k.Valid() && k.bs == 16 && 8 <= |nonce| <= 15 && taglen <= 16
    ensures var n := BigEndian(FormatNonce(taglen, nonce));
            var ktop := k.enc(ToBigEndian(n - n % 64, 16));
            && |ktop| == 16
            && BigEndian(Start(k, taglen, nonce))
               == BigEndian(ktop + Xor(ktop[..8], ktop[1..9])) / BitHelp.Pow2(64 - n % 64) % BitHelp.Pow2(128)
  {
    hide FormatNonce, BigEndian, ToBigEndian, StretchAt, BitHelp.Pow2, Xor, Bottom;
    var b := FormatNonce(taglen, nonce);
    var m := b[15 := b[15] & 0xc0];
    BottomMeans(b);
    ToBigEndianOf(m);
    StretchNumber(k.enc(m), Bottom(b));
  }

  // ---- offsets and short messages (sections 4.1 to 4.3) ----

  /** The first offsets: L_0, L_1, L_0, L_2 are added in turn, L_i being L_* doubled i + 2 times. */
  lemma FirstOffsets(lstar: Block, start: Block)
    ensures var l0 := DoubleBlock(DoubleBlock(lstar));
            var l1 := DoubleBlock(l0);
            && Offset(lstar, start, 1) == Xor(start, l0)
            && Offset(lstar, start, 2) == Xor(Offset(lstar, start, 1), l1)
            && Offset(lstar, start, 3) == Xor(Offset(lstar, start, 2), l0)
            && Offset(lstar, start, 4) == Xor(Offset(lstar, start, 3), DoubleBlock(l1))
  {
    hide Xor, DoubleBlock;
    assert BitHelp.Ntz(1) == 0 && BitHelp.Ntz(3) == 0;
    assert BitHelp.Ntz(2) == 1 + BitHelp.Ntz(1);
    assert BitHelp.Ntz(4) == 1 + BitHelp.Ntz(2);
    DoublesAre(lstar);
  }

  lemma DoublesAre(b: Block)
    ensures Doubles(1, b) == DoubleBlock(b) && Doubles(2, b) == DoubleBlock(DoubleBlock(b))
    ensures Doubles(3, b) == DoubleBlock(Doubles(2, b)) && Doubles(4, b) == DoubleBlock(Doubles(3, b))
  {
    hide DoubleBlock;
    assert Doubles(0, b) == b;
  }

  /** A block and a shorter rest: ciphertext and tag without associated data. */
  lemma ShortMessage(k: Cipher, start: Block, x: Block, y: seq<byte>)
    requires k.Valid() && k.bs == 16 && 0 < |y| < 16
    ensures var l := k.enc(ZeroBytes(16));
            var o1 := Xor(start, DoubleBlock(DoubleBlock(l)));
            var o2 := Xor(o1, l);
            var sum := Xor(x, y + ([0x80] + ZeroBytes(15 - |y|)));
            && Seal(k, l, start, x + y) == Xor(k.enc(Xor(o1, x)), o1) + Xor(y, k.enc(o2)[..|y|])
            && Tag(k, l, start, [], x + y) == k.enc(Xor(Xor(sum, o2), DoubleBlock(l)))
  {
    hide Xor, DoubleBlock, Offset;
    var l, p := k.enc(ZeroBytes(16)), x + y;
    FirstOffsets(l, start);
    DoublesAre(l);
    Parts(x, y);
    OneBlock(k, l, start, x);
    assert y + [0x80] + ZeroBytes(15 - |y|) == y + ([0x80] + ZeroBytes(15 - |y|));
    NoAad(k, l);
    XorZero(DataTag(k, l, start, p));
  }

  /** Associated data adds its HASH to the tag. */
  lemma TagWithAad(k: Cipher, l: Block, start: Block, a: seq<byte>, p: seq<byte>)
    requires k.Valid() && k.bs == 16
    ensures Tag(k, l, start, a, p) == Xor(Tag(k, l, start, [], p), Hash(k, l, a))
  {
    hide Xor, DataTag;
    NoAad(k, l);
    XorZero(DataTag(k, l, start, p));
  }

  lemma Parts(x: Block, y: seq<byte>)
    requires |y| < 16
    ensures Full(|x + y|) == 16 && (x + y)[..16] == x && (x + y)[16..] == y
  {
  }

  lemma OneBlock(k: Cipher, l: Block, start: Block, x: Block)
    requires k.Valid() && k.bs == 16
    ensures CryptFull(k.enc, l, start, 0, x) == CryptBlock(k.enc, l, start, 1, x) && Checksum(x) == x
  {
    hide Xor, CryptBlock;
    assert x[..0] == [] && x[0..] == x;
    XorZero(x);
    assert Checksum([]) == ZeroBytes(16);
  }

  lemma NoAad(k: Cipher, l: Block)
    requires k.Valid() && k.bs == 16
    ensures Hash(k, l, []) == ZeroBytes(16)
  {
  }

  /** A block and a shorter rest of associated data. */
  lemma ShortAad(k: Cipher, x: Block, y: seq<byte>)
    requires k.Valid() && k.bs == 16 && 0 < |y| < 16
    ensures var l := k.enc(ZeroBytes(16));
            var o1 := DoubleBlock(DoubleBlock(l));
            Hash(k, l, x + y) == Xor(k.enc(Xor(o1, x)), k.enc(Xor(y + ([0x80] + ZeroBytes(15 - |y|)), Xor(o1, l))))
  {
    hide Xor, DoubleBlock, Offset;
    var l := k.enc(ZeroBytes(16));
    var l0 := DoubleBlock(DoubleBlock(l));
    FirstOffsets(l, ZeroBytes(16));
    XorZero(l0);
    Parts(x, y);
    OneAad(k, l, x);
    assert y + [0x80] + ZeroBytes(15 - |y|) == y + ([0x80] + ZeroBytes(15 - |y|));
  }

  lemma OneAad(k: Cipher, l: Block, x: Block)
    requires k.Valid() && k.bs == 16
    ensures AadSum(k, l, x) == k.enc(Xor(Offset(l, ZeroBytes(16), 1), x))
  {
    hide Xor, Offset;
    assert x[..0] == [] && x[0..] == x;
    assert AadSum(k, l, []) == ZeroBytes(16);
    XorZero(k.enc(Xor(Offset(l, ZeroBytes(16), 1), x)));
  }
}
