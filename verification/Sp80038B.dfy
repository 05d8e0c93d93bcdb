/** CMAC as sections 6.1 and 6.2 of NIST SP 800-38B define it, for blocks of 8 or 16 octets. */
module Sp80038B {
  import opened Buffering
  import opened Bytes
  import opened CipherBlock
  import GF = GaloisField

  /** The lowest terms of the field polynomial: R_64 is 0x1b, R_128 is 0x87. */
  function R(n: nat): (r: seq<bool>)
    ensures |r| == n
  {
    if n == 64 then seq(n, i => i == 4 || i == 3 || i == 1 || i == 0)
    else seq(n, i => i == 7 || i == 2 || i == 1 || i == 0)
  }

  function ShiftLeft(v: seq<bool>): (r: seq<bool>)
    ensures |r| == |v|
  {
    if v == [] then [] else [false] + v[..|v| - 1]
  }

  /** Multiplication by x in GF(2^64) or GF(2^128). */
  function Double(v: seq<bool>): (r: seq<bool>)
    ensures |r| == |v|
  {
    if v == [] || !v[|v| - 1] then ShiftLeft(v) else GF.Add(ShiftLeft(v), R(|v|))
  }

  function DoubleOctets(b: seq<byte>): (r: seq<byte>)
    ensures |r| == |b|
  {
    EightTimes(|b|);
    OctetsBE(Double(BitsBE(b)))
  }

  lemma EightTimes(n: nat)
    ensures 8 * n % 8 == 0 && 8 * n / 8 == n
  {
  }

  function K1(k: Cipher): (s: seq<byte>)
    requires k.Valid()
    ensures |s| == k.bs
  {
    DoubleOctets(k.enc(ZeroBytes(k.bs)))
  }

  function K2(k: Cipher): (s: seq<byte>)
    requires k.Valid()
    ensures |s| == k.bs
  {
    DoubleOctets(K1(k))
  }

  /** C_i = E(C_{i-1} xor M_i) over whole blocks. */
  function CbcChain(k: Cipher, data: seq<byte>): (c: seq<byte>)
    requires k.Valid() && |data| % k.bs == 0
    ensures |c| == k.bs
  {
    if data == [] then ZeroBytes(k.bs)
    else
      var m := AllButLast(k.bs, |data|);
      k.enc(Xor(CbcChain(k, data[..m]), data[m..]))
  }

  /** The last block under K1, or a short one with a one bit and zeros under K2. */
  function LastMasked(k: Cipher, last: seq<byte>): (b: seq<byte>)
    requires k.Valid() && |last| <= k.bs
    ensures |b| == k.bs
  {
    if |last| == k.bs then Xor(last, K1(k))
    else Xor(last + [0x80] + ZeroBytes(k.bs - 1 - |last|), K2(k))
  }

  function Cmac(k: Cipher, data: seq<byte>): (t: seq<byte>)
    requires k.Valid()
    ensures |t| == k.bs
  {
    var m := LastStart(k.bs, |data|);
    k.enc(Xor(CbcChain(k, data[..m]), LastMasked(k, data[m..])))
  }

  lemma NextChain(k: Cipher, data: seq<byte>, b: seq<byte>)
    requires k.Valid() && |data| % k.bs == 0 && |b| == k.bs
    ensures |data + b| % k.bs == 0 && CbcChain(k, data + b) == k.enc(Xor(CbcChain(k, data), b))
  {
    hide Xor;
    DivMod(|data|, k.bs);
    DivModUnique(|data| + k.bs, k.bs, |data| / k.bs + 1, 0);
    assert (data + b)[..|data|] == data && (data + b)[|data|..] == b;
  }

  /** Doubling is linear and loses nothing. */
  lemma DoubleLinear(v: seq<bool>, w: seq<bool>)
    requires |v| == |w|
    ensures Double(GF.Add(v, w)) == GF.Add(Double(v), Double(w))
  {
    assert ShiftLeft(GF.Add(v, w)) == GF.Add(ShiftLeft(v), ShiftLeft(w));
  }

  // ---- under the identity permutation the subkeys are zero ----

  lemma ZeroBits(n: nat)
    ensures BitsBE(ZeroBytes(n)) == seq(8 * n, i => false)
  {
    hide BitsBE, Bit;
    forall i | 0 <= i < 8 * n
      ensures BitsBE(ZeroBytes(n))[i] == false
    {
      BitAt(ZeroBytes(n), i);
      ZeroBit(i % 8);
    }
  }

  lemma ZeroBit(i: nat)
    requires i < 8
    ensures !Bit(0, i)
  {
  }

  lemma DoubleZero(bs: nat)
    ensures DoubleOctets(ZeroBytes(bs)) == ZeroBytes(bs)
  {
    hide BitsBE, OctetsBE, Bit;
    ZeroBits(bs);
    var v := BitsBE(ZeroBytes(bs));
    assert ShiftLeft(v) == v;
    OctetsOfBits(ZeroBytes(bs));
  }

  // ---- what the MAC comes to ----

  /** Of nothing: a one bit and zeros, under the second subkey. */
  lemma NothingMac(k: Cipher)
    requires k.Valid()
    ensures Cmac(k, []) == k.enc(Xor([0x80] + ZeroBytes(k.bs - 1), DoubleOctets(DoubleOctets(k.enc(ZeroBytes(k.bs))))))
  {
    hide DoubleOctets;
    var b := [] + [0x80] + ZeroBytes(k.bs - 1);
    assert b == [0x80] + ZeroBytes(k.bs - 1);
    DivModUnique(0, k.bs, 0, 0);
    ZeroXor(Xor(b, K2(k)));
  }

  /** Of two blocks, the second full: under the first subkey. */
  lemma TwoBlockMac(k: Cipher, x: seq<byte>, y: seq<byte>)
    requires k.Valid() && |x| == |y| == k.bs
    ensures Cmac(k, x + y) == k.enc(Xor(k.enc(x), Xor(y, DoubleOctets(k.enc(ZeroBytes(k.bs))))))
  {
    hide DoubleOctets;
    FirstWhole(k, x);
    DivModUnique(k.bs, k.bs, 1, 0);
    LastStartIs(k.bs, |x + y|, k.bs);
    assert (x + y)[..k.bs] == x && (x + y)[k.bs..] == y;
  }

  /** Of a block and a shorter rest: padded, under the second. */
  lemma ShortMac(k: Cipher, x: seq<byte>, y: seq<byte>)
    requires k.Valid() && |x| == k.bs && 0 < |y| < k.bs
    ensures Cmac(k, x + y)
         == k.enc(Xor(k.enc(x), Xor(y + ([0x80] + ZeroBytes(k.bs - 1 - |y|)), DoubleOctets(DoubleOctets(k.enc(ZeroBytes(k.bs)))))))
  {
    hide DoubleOctets;
    FirstWhole(k, x);
    DivModUnique(k.bs, k.bs, 1, 0);
    LastStartIs(k.bs, |x + y|, k.bs);
    assert (x + y)[..k.bs] == x && (x + y)[k.bs..] == y;
    assert y + [0x80] + ZeroBytes(k.bs - 1 - |y|) == y + ([0x80] + ZeroBytes(k.bs - 1 - |y|));
  }

  lemma NothingChained(k: Cipher)
    requires k.Valid()
    ensures 0 % k.bs == 0 && CbcChain(k, []) == ZeroBytes(k.bs)
  {
    DivModUnique(0, k.bs, 0, 0);
  }

  lemma FirstWhole(k: Cipher, x: seq<byte>)
    requires k.Valid() && |x| == k.bs
    ensures |x| % k.bs == 0 && CbcChain(k, x) == k.enc(x)
  {
    DivModUnique(k.bs, k.bs, 1, 0);
    DivModUnique(0, k.bs, 0, 0);
    NextChain(k, [], x);
    assert [] + x == x;
    ZeroXor(x);
  }

  lemma ZeroXor(x: seq<byte>)
    ensures Xor(ZeroBytes(|x|), x) == x
  {
    XorZero(x);
  }
}
