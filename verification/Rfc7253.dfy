/** OCB as sections 2 and 4 of RFC 7253 define it. */
module Rfc7253 {
  import opened BitHelp
  import opened Bytes
  import opened CipherBlock
  import GF = GaloisField

  type Block = b: seq<byte> | |b| == 16 witness ZeroBytes(16)

  /** double(S), section 2. */
  function Double(v: GF.Vec): GF.Vec {
    GF.Add(GF.Shl1(v), GF.If(v[127], Residue87()))
  }

  /** zeros(120) || 10000111 */
  function Residue87(): GF.Vec {
    seq(128, i => i == 7 || i == 2 || i == 1 || i == 0)
  }

  function DoubleBlock(b: Block): Block {
    OctetsBE(Double(BitsBE(b)))
  }

  function Doubles(n: nat, b: Block): Block {
    if n == 0 then b else DoubleBlock(Doubles(n - 1, b))
  }

  /** L_i: L_$ is double(L_*), L_0 is double(L_$), and so on. */
  function L(lstar: Block, i: nat): Block {
    Doubles(i + 2, lstar)
  }

  /** Offset_n = Offset_{n-1} xor L_{ntz(n)} */
  function Offset(lstar: Block, start: Block, n: nat): Block {
    if n == 0 then start else Xor(Offset(lstar, start, n - 1), L(lstar, Ntz(n)))
  }

  /** C_n = Offset_n xor f(P_n xor Offset_n) */
  function CryptBlock(f: seq<byte> -> seq<byte>, lstar: Block, start: Block, n: nat, p: Block): Block {
    var o := Offset(lstar, start, n);
    var x := f(Xor(o, p));
    if |x| == 16 then Xor(x, o) else o
  }

  /** Whole blocks, the first of them being block number n + 1. */
  function CryptFull(f: seq<byte> -> seq<byte>, lstar: Block, start: Block, n: nat, p: seq<byte>): (c: seq<byte>)
    requires |p| % 16 == 0
    ensures |c| == |p|
  {
    if p == [] then []
    else
      var m := |p| - 16;
      CryptFull(f, lstar, start, n, p[..m]) + CryptBlock(f, lstar, start, n + |p| / 16, p[m..])
  }

  function Checksum(p: seq<byte>): Block
    requires |p| % 16 == 0
  {
    if p == [] then ZeroBytes(16) else Xor(Checksum(p[..|p| - 16]), p[|p| - 16..])
  }

  /** A short last block followed by a one bit and zeros. */
  function Pad(p: seq<byte>): Block
    requires |p| < 16
  {
    p + [0x80] + ZeroBytes(15 - |p|)
  }

  /** Sum_m of HASH, section 4.1. */
  function AadSum(k: Cipher, lstar: Block, a: seq<byte>): Block
    requires |a| % 16 == 0 && k.Valid() && k.bs == 16
  {
    if a == [] then ZeroBytes(16)
    else
      var m := |a| - 16;
      Xor(AadSum(k, lstar, a[..m]), k.enc(Xor(Offset(lstar, ZeroBytes(16), |a| / 16), a[m..])))
  }

  function Full(n: nat): (m: nat)
    ensures m % 16 == 0 && m <= n < m + 16
  {
    n / 16 * 16
  }

  /** HASH(K, A) */
  function Hash(k: Cipher, lstar: Block, a: seq<byte>): Block
    requires k.Valid() && k.bs == 16
  {
    var m := Full(|a|);
    var sum := AadSum(k, lstar, a[..m]);
    if m == |a| then sum
    else Xor(sum, k.enc(Xor(Pad(a[m..]), Xor(Offset(lstar, ZeroBytes(16), m / 16), lstar))))
  }

  /** The ciphertext, section 4.2. */
  function Seal(k: Cipher, lstar: Block, start: Block, p: seq<byte>): (c: seq<byte>)
    requires k.Valid() && k.bs == 16
    ensures |c| == |p|
  {
    var m := Full(|p|);
    CryptFull(k.enc, lstar, start, 0, p[..m]) + PadXor(k, LastOffset(lstar, start, p), p[m..])
  }

  /** Offset_m, or Offset_* when the last block is short. */
  function LastOffset(lstar: Block, start: Block, p: seq<byte>): Block {
    var m := Full(|p|);
    var o := Offset(lstar, start, m / 16);
    if m == |p| then o else Xor(o, lstar)
  }

  function LastChecksum(p: seq<byte>): Block {
    var m := Full(|p|);
    var s := Checksum(p[..m]);
    if m == |p| then s else Xor(s, Pad(p[m..]))
  }

  function PadXor(k: Cipher, o: Block, p: seq<byte>): (c: seq<byte>)
    requires k.Valid() && k.bs == 16 && |p| < 16
    ensures |c| == |p|
  {
    Xor(p, k.enc(o)[..|p|])
  }

  /** ENCIPHER(K, Checksum xor Offset xor L_$) */
  function DataTag(k: Cipher, lstar: Block, start: Block, p: seq<byte>): Block
    requires k.Valid() && k.bs == 16
  {
    k.enc(Xor(Xor(LastChecksum(p), LastOffset(lstar, start, p)), Doubles(1, lstar)))
  }

  function Tag(k: Cipher, lstar: Block, start: Block, a: seq<byte>, p: seq<byte>): Block
    requires k.Valid() && k.bs == 16
  {
    Xor(DataTag(k, lstar, start, p), Hash(k, lstar, a))
  }

  // ---- offsets ----

  /** The bits of Stretch = Ktop || (Ktop[1..64] xor Ktop[9..72]) that start at bottom. */
  function StretchAt(ktop: Block, bottom: nat): Block
    requires bottom < 64
  {
    var stretch := ktop + Xor(ktop[..8], ktop[1..9]);
    OctetsBE(BitsBE(stretch)[64 - bottom..192 - bottom])
  }

  function OrByte(a: byte, b: byte): byte {
    a | b
  }

  /** The formatted nonce of section 4.2: tag length, padding, a one bit, then N. */
  function FormatNonce(taglen: nat, nonce: seq<byte>): Block
    requires 8 <= |nonce| <= 15 && taglen <= 16
  {
    var head := ZeroBytes(15 - |nonce|) + [1];
    [OrByte(head[0], Octet(taglen * 8 % 128 * 2))] + head[1..] + nonce
  }

  /** The number in the last six bits. */
  function Bottom(n: Block): nat {
    Val(n[15] & 0x3f)
  }

  /** Offset_0 */
  function Start(k: Cipher, taglen: nat, nonce: seq<byte>): Block
    requires k.Valid() && k.bs == 16 && 8 <= |nonce| <= 15 && taglen <= 16
  {
    var n := FormatNonce(taglen, nonce);
    BottomBound(n);
    StretchAt(k.enc(n[15 := n[15] & 0xc0]), Bottom(n))
  }

  lemma BottomBound(n: Block)
    ensures Bottom(n) < 64
  {
  }

  // ---- decryption undoes encryption ----

  lemma {:induction false} CryptFullSplit(f: seq<byte> -> seq<byte>, lstar: Block, start: Block, n: nat,
                                          p: seq<byte>, q: seq<byte>)
    requires |p| % 16 == 0 && |q| % 16 == 0
    ensures CryptFull(f, lstar, start, n, p + q)
         == CryptFull(f, lstar, start, n, p) + CryptFull(f, lstar, start, n + |p| / 16, q)
  {
    hide CryptBlock;
    if q == [] {
      assert p + q == p;
    } else {
      var m := |q| - 16;
      assert n + |p + q| / 16 == n + |p| / 16 + |q| / 16;
      assert (p + q)[..|p| + m] == p + q[..m] && (p + q)[|p| + m..] == q[m..];
      CryptFullSplit(f, lstar, start, n, p, q[..m]);
    }
  }

  lemma BlockRoundTrip(k: Cipher, lstar: Block, start: Block, n: nat, p: Block)
    requires k.Valid() && k.bs == 16
    ensures CryptBlock(k.dec, lstar, start, n, CryptBlock(k.enc, lstar, start, n, p)) == p
    ensures CryptBlock(k.enc, lstar, start, n, CryptBlock(k.dec, lstar, start, n, p)) == p
  {
    hide Xor, Offset;
    var o := Offset(lstar, start, n);
    XorCancels(p, o);
    XorCommutes(o, p);
    XorCancels(k.enc(Xor(o, p)), o);
    XorCancels(k.dec(Xor(o, p)), o);
  }

  lemma {:induction false} FullRoundTrip(k: Cipher, lstar: Block, start: Block, n: nat, p: seq<byte>)
    requires k.Valid() && k.bs == 16 && |p| % 16 == 0
    ensures CryptFull(k.dec, lstar, start, n, CryptFull(k.enc, lstar, start, n, p)) == p
    ensures CryptFull(k.enc, lstar, start, n, CryptFull(k.dec, lstar, start, n, p)) == p
  {
    hide CryptBlock;
    if p != [] {
      var m := |p| - 16;
      FullRoundTrip(k, lstar, start, n, p[..m]);
      BlockRoundTrip(k, lstar, start, n + |p| / 16, p[m..]);
      var c, d := CryptFull(k.enc, lstar, start, n, p), CryptFull(k.dec, lstar, start, n, p);
      assert c[..m] == CryptFull(k.enc, lstar, start, n, p[..m]);
      assert d[..m] == CryptFull(k.dec, lstar, start, n, p[..m]);
      assert p == p[..m] + p[m..];
    }
  }

  /** The ciphertext determines the plaintext. */
  lemma SealInjective(k: Cipher, lstar: Block, start: Block, p: seq<byte>, q: seq<byte>)
    requires k.Valid() && k.bs == 16
    requires Seal(k, lstar, start, p) == Seal(k, lstar, start, q)
    ensures p == q
  {
    hide CryptFull, Xor, Offset;
    var m := Full(|p|);
    var cp, cq := CryptFull(k.enc, lstar, start, 0, p[..m]), CryptFull(k.enc, lstar, start, 0, q[..m]);
    var o := LastOffset(lstar, start, p);
    assert cp == Seal(k, lstar, start, p)[..m] == cq;
    FullRoundTrip(k, lstar, start, 0, p[..m]);
    FullRoundTrip(k, lstar, start, 0, q[..m]);
    assert PadXor(k, o, p[m..]) == Seal(k, lstar, start, p)[m..] == PadXor(k, o, q[m..]);
    XorCancels(p[m..], k.enc(o)[..|p| - m]);
    XorCancels(q[m..], k.enc(o)[..|p| - m]);
    assert p == p[..m] + p[m..] && q == q[..m] + q[m..];
  }
}
