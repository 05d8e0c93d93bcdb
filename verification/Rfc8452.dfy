/** AES-GCM-SIV as sections 3 and 4 of RFC 8452 define it, over any 128-bit block cipher, and the
    reduction of POLYVAL to GHASH. */
module Rfc8452 {
  import opened Bytes
  import opened CipherBlock
  import opened GaloisField
  import opened CbcMac
  import G = GhashPpc

  // ---- section 3: POLYVAL ----

  /** cipher_block_bswap */
  function Reverse(b: seq<byte>): (r: seq<byte>)
    ensures |r| == |b|
  {
    seq(|b|, i requires 0 <= i < |b| => b[|b| - 1 - i])
  }

  /** The lowest bit of the first octet is the coefficient of x^0. */
  function LoadLE(b: Block): Vec {
    seq(128, i requires 0 <= i < 128 => Bit(b[i / 8], i % 8))
  }

  function StoreLE(v: Vec): Block {
    Reverse(OctetsBE(v))
  }

  /** v times x^-n */
  function DivPow(n: nat, v: Vec): Vec {
    if n == 0 then v else DivPow(n - 1, DivX(v))
  }

  /** dot(a, b) = a * b * x^-128 */
  function Dot(a: Vec, b: Vec): Vec {
    DivPow(128, Mul(a, b))
  }

  /** S_j = dot(S_{j-1} + X_j, H) */
  function Polyval(h: Vec, data: seq<byte>): Vec
    requires |data| % 16 == 0
  {
    if data == [] then ZERO
    else
      var m := |data| - 16;
      Dot(Add(Polyval(h, data[..m]), LoadLE(data[m..])), h)
  }

  lemma LoadReversed(b: Block)
    ensures LoadLE(b) == BitsBE(Reverse(b))
  {
    hide Bit;
  }

  lemma ReverseTwice(b: seq<byte>)
    ensures Reverse(Reverse(b)) == b
  {
  }

  lemma {:induction false} DivPowPow(n: nat, v: Vec)
    ensures DivPow(n, Pow(n, v)) == v
  {
    hide MulX, DivX;
    if n > 0 {
      PowSucc(n - 1, v);
      DivXMulX(Pow(n - 1, v));
      DivPowPow(n - 1, v);
    }
  }

  /** The product of SP 800-38D with a key divided by x is the product of RFC 8452. */
  lemma NistMulIsDot(a: Vec, h: Vec)
    ensures G.NistMul(a, DivX(h)) == Dot(a, h)
  {
    hide MulX, DivX, Act, Pow, DivPow;
    var p := G.NistMul(a, DivX(h));
    G.NistMulMeans(a, DivX(h));
    PowSucc(127, p);
    ActMulX(a, DivX(h));
    MulXDivX(h);
    DivPowPow(128, p);
  }

  // ---- section 4 ----

  /** The counter block n steps on: only its first four octets change, modulo 2^32. */
  function IncLE32(b: Block, n: nat): Block {
    ToLittleEndian(LittleEndian(b[..4]) + n, 4) + b[4..]
  }

  function KeyByte(k: Cipher, ctr: Block, p: nat): byte
    requires k.Valid() && k.bs == 16
  {
    k.enc(IncLE32(ctr, p / 16))[p % 16]
  }

  function KeyStream(k: Cipher, ctr: Block, from: nat, len: nat): (s: seq<byte>)
    requires k.Valid() && k.bs == 16
    ensures |s| == len
  {
    seq(len, i requires 0 <= i < len => KeyByte(k, ctr, from + i))
  }

  function AesCtr(k: Cipher, ctr: Block, data: seq<byte>): (r: seq<byte>)
    requires k.Valid() && k.bs == 16
    ensures |r| == |data|
  {
    Xor(data, KeyStream(k, ctr, 0, |data|))
  }

  /** The lengths in bits, each in eight octets. */
  function LengthBlock(aadlen: nat, msglen: nat): Block {
    ToLittleEndian(8 * aadlen, 8) + ToLittleEndian(8 * msglen, 8)
  }

  function ClearTop(b: byte): byte {
    b & 0x7f
  }

  function SetTop(b: byte): byte {
    b | 0x80
  }

  function Masked(b: Block): Block {
    b[..15] + [ClearTop(b[15])]
  }

  function CounterStart(tag: Block): Block {
    tag[..15] + [SetTop(tag[15])]
  }

  function MacInput(aad: seq<byte>, msg: seq<byte>, lengths: Block): (r: seq<byte>)
    ensures |r| % 16 == 0
  {
    PadZero(aad) + PadZero(msg) + lengths
  }

  /** The tag, for a given length block. */
  function Tag(k: Cipher, auth: Block, nonce: seq<byte>, aad: seq<byte>, msg: seq<byte>, lengths: Block): Block
    requires k.Valid() && k.bs == 16 && |nonce| == 12
  {
    k.enc(Masked(Xor(nonce + ZeroBytes(4), StoreLE(Polyval(LoadLE(auth), MacInput(aad, msg, lengths))))))
  }

  datatype Sealed = Sealed(text: seq<byte>, tag: Block)

  function Seal(k: Cipher, auth: Block, nonce: seq<byte>, aad: seq<byte>, msg: seq<byte>, lengths: Block): Sealed
    requires k.Valid() && k.bs == 16 && |nonce| == 12
  {
    var tag := Tag(k, auth, nonce, aad, msg, lengths);
    Sealed(AesCtr(k, CounterStart(tag), msg), tag)
  }

  datatype Opened = Plain(msg: seq<byte>) | Refused

  function Open(k: Cipher, auth: Block, nonce: seq<byte>, aad: seq<byte>, text: seq<byte>, tag: Block, lengths: Block): Opened
    requires k.Valid() && k.bs == 16 && |nonce| == 12
  {
    var msg := AesCtr(k, CounterStart(tag), text);
    if Tag(k, auth, nonce, aad, msg, lengths) == tag then Plain(msg) else Refused
  }

  lemma AesCtrTwice(k: Cipher, ctr: Block, data: seq<byte>)
    requires k.Valid() && k.bs == 16
    ensures AesCtr(k, ctr, AesCtr(k, ctr, data)) == data
  {
    hide Xor, KeyStream;
    XorCancels(data, KeyStream(k, ctr, 0, |data|));
  }

  /** Opening what was sealed gives the message back, and what opens to a message is its seal. */
  lemma OpenUndoesSeal(k: Cipher, auth: Block, nonce: seq<byte>, aad: seq<byte>, msg: seq<byte>, lengths: Block,
                       text: seq<byte>, tag: Block)
    requires k.Valid() && k.bs == 16 && |nonce| == 12
    ensures Open(k, auth, nonce, aad, text, tag, lengths) == Plain(msg)
       <==> Seal(k, auth, nonce, aad, msg, lengths) == Sealed(text, tag)
  {
    hide AesCtr, Tag, CounterStart;
    AesCtrTwice(k, CounterStart(tag), msg);
    AesCtrTwice(k, CounterStart(tag), text);
  }

  lemma StreamConcat(k: Cipher, ctr: Block, from: nat, m: nat, n: nat)
    requires k.Valid() && k.bs == 16
    ensures KeyStream(k, ctr, from, m + n) == KeyStream(k, ctr, from, m) + KeyStream(k, ctr, from + m, n)
  {
    hide KeyByte;
  }

  lemma StreamSlice(k: Cipher, ctr: Block, from: nat, len: nat, i: nat, j: nat)
    requires k.Valid() && k.bs == 16 && i <= j <= len
    ensures KeyStream(k, ctr, from, len)[i..j] == KeyStream(k, ctr, from + i, j - i)
  {
    hide KeyByte;
  }

  lemma StreamBlock(k: Cipher, ctr: Block, q: nat)
    requires k.Valid() && k.bs == 16
    ensures KeyStream(k, ctr, 16 * q, 16) == k.enc(IncLE32(ctr, q))
  {
    hide IncLE32;
    forall i | 0 <= i < 16
      ensures KeyByte(k, ctr, 16 * q + i) == k.enc(IncLE32(ctr, q))[i]
    {
      assert (16 * q + i) / 16 == q && (16 * q + i) % 16 == i;
    }
  }

  lemma IncStart(b: Block)
    ensures IncLE32(b, 0) == b
  {
    hide LittleEndian, ToLittleEndian, Pow256;
    ToLittleEndianOf(b[..4]);
  }

  lemma ToLittleEndianOf(s: seq<byte>)
    ensures ToLittleEndian(LittleEndian(s), |s|) == s
  {
    hide LittleEndian, ToLittleEndian, Pow256;
    LittleEndianBound(s);
    LittleEndianRoundTrip(LittleEndian(s), |s|);
    DivModUnique(LittleEndian(s), Pow256(|s|), 0, LittleEndian(s));
    LittleEndianInjective(ToLittleEndian(LittleEndian(s), |s|), s);
  }

  /** The step of do_ctr_le32: one more than a counter n steps on is the counter n + 1 steps on,
      also when the 32-bit word wraps. */
  lemma IncNext(b: Block, n: nat)
    ensures IncLE32(IncLE32(b, n), 1) == IncLE32(b, n + 1)
  {
    hide LittleEndian, ToLittleEndian;
    var c := IncLE32(b, n);
    assert c[..4] == ToLittleEndian(LittleEndian(b[..4]) + n, 4) && c[4..] == b[4..];
    LittleEndianRoundTrip(LittleEndian(b[..4]) + n, 4);
    Pow256Values();
    LittleEndianRoundTrip(LittleEndian(c[..4]) + 1, 4);
    LittleEndianRoundTrip(LittleEndian(b[..4]) + n + 1, 4);
    WrapOnce(LittleEndian(b[..4]) + n);
    LittleEndianInjective(ToLittleEndian(LittleEndian(c[..4]) + 1, 4), ToLittleEndian(LittleEndian(b[..4]) + n + 1, 4));
  }

  lemma WrapOnce(x: nat)
    ensures (x % 0x1_0000_0000 + 1) % 0x1_0000_0000 == (x + 1) % 0x1_0000_0000
  {
  }

  /** No key stream block repeats within 2^32 blocks, and the other 96 bits of the counter stay. */
  lemma CountersDiffer(b: Block, m: nat, n: nat)
    requires m < n < m + 0x1_0000_0000
    ensures IncLE32(b, m) != IncLE32(b, n) && IncLE32(b, m)[4..] == IncLE32(b, n)[4..] == b[4..]
  {
    hide LittleEndian, ToLittleEndian;
    var x := LittleEndian(b[..4]);
    LittleEndianRoundTrip(x + m, 4);
    LittleEndianRoundTrip(x + n, 4);
    Pow256Values();
    assert IncLE32(b, m)[..4] == ToLittleEndian(x + m, 4) && IncLE32(b, n)[..4] == ToLittleEndian(x + n, 4);
  }

  // ---- what the definitions come to ----

  lemma SetTopBits(b: byte, i: nat)
    requires i < 8
    ensures Bit(SetTop(b), i) == (i == 7 || Bit(b, i))
    ensures Bit(ClearTop(b), i) == (i != 7 && Bit(b, i))
  {
  }

  /** The first counter is the tag with its highest bit set, what is enciphered for the tag has it clear. */
  lemma TopBitOnly(t: Block, i: nat)
    requires i < 128
    ensures LoadLE(CounterStart(t))[i] == (i == 127 || LoadLE(t)[i])
    ensures LoadLE(Masked(t))[i] == (i != 127 && LoadLE(t)[i])
  {
    hide Bit, SetTop, ClearTop;
    SetTopBits(t[15], i % 8);
  }

  /** No counter block is what is enciphered for a tag, however long the message. */
  lemma NeverMasked(t: Block, x: Block, n: nat)
    ensures IncLE32(CounterStart(t), n) != Masked(x)
  {
    hide Bit, SetTop, ClearTop, ToLittleEndian, LittleEndian;
    SetTopBits(t[15], 7);
    SetTopBits(x[15], 7);
    assert IncLE32(CounterStart(t), n)[15] == SetTop(t[15]) && Masked(x)[15] == ClearTop(x[15]);
  }

  /** Both lengths, in bits, the associated data first. */
  lemma LengthBlockMeans(aadlen: nat, msglen: nat)
    requires aadlen < 0x2000_0000_0000_0000 && msglen < 0x2000_0000_0000_0000
    ensures LittleEndian(LengthBlock(aadlen, msglen)[..8]) == 8 * aadlen
    ensures LittleEndian(LengthBlock(aadlen, msglen)[8..]) == 8 * msglen
  {
    hide ToLittleEndian, LittleEndian;
    Pow256Values();
    LittleEndianRoundTrip(8 * aadlen, 8);
    LittleEndianRoundTrip(8 * msglen, 8);
    var b := LengthBlock(aadlen, msglen);
    assert b[..8] == ToLittleEndian(8 * aadlen, 8) && b[8..] == ToLittleEndian(8 * msglen, 8);
  }

  /** POLYVAL of two blocks, and a block that goes in and out unchanged. */
  lemma PolyvalTwo(h: Vec, a: Block, b: Block)
    ensures Polyval(h, a + b) == Dot(Add(Dot(LoadLE(a), h), LoadLE(b)), h)
    ensures StoreLE(LoadLE(a)) == a
  {
    hide LoadLE, Dot, Add, OctetsBE, BitsBE;
    assert (a + b)[..16] == a && (a + b)[16..] == b;
    assert a[..0] == [] && a[0..] == a;
    assert Polyval(h, []) == ZERO;
    assert Polyval(h, a) == Dot(Add(ZERO, LoadLE(a)), h);
    ZeroFirst(LoadLE(a));
    LoadReversed(a);
    OctetsOfBits(Reverse(a));
    ReverseTwice(a);
  }

  lemma ZeroFirst(v: Vec)
    ensures Add(ZERO, v) == v
  {
    AddZero(v);
    AddLaws(ZERO, v, v);
  }

  /** The tag of one block of associated data and one of message, each short. */
  lemma ShortTag(k: Cipher, auth: Block, nonce: seq<byte>, a: byte, m: byte, lengths: Block)
    requires k.Valid() && k.bs == 16 && |nonce| == 12
    ensures MacInput([a], [m], lengths) == [a] + ZeroBytes(15) + [m] + ZeroBytes(15) + lengths
    ensures Tag(k, auth, nonce, [], [], lengths)
         == k.enc(Masked(Xor(nonce + [0, 0, 0, 0], StoreLE(Dot(LoadLE(lengths), LoadLE(auth))))))
  {
    hide LoadLE, Dot, Add, OctetsBE, Masked, Xor;
    assert PadZero([]) == [];
    assert MacInput([], [], lengths) == lengths;
    assert lengths[..0] == [] && lengths[0..] == lengths;
    assert Polyval(LoadLE(auth), []) == ZERO;
    assert Polyval(LoadLE(auth), lengths) == Dot(Add(ZERO, LoadLE(lengths)), LoadLE(auth));
    ZeroFirst(LoadLE(lengths));
    assert ZeroBytes(4) == [0, 0, 0, 0];
  }
}
