/** Counter blocks (cipher_block_add) and the key stream they give. */
module Counter {
  import opened Bytes
  import opened CipherBlock

  /** b plus n, as a big-endian number modulo 256^|b|. */
  function AddBE(b: seq<byte>, n: nat): (r: seq<byte>)
    ensures |r| == |b|
  {
    ToBigEndian(BigEndian(b) + n, |b|)
  }

  lemma {:induction false} ToBigEndianMod(n: nat, m: nat, len: nat)
    requires n % Pow256(len) == m % Pow256(len)
    ensures ToBigEndian(n, len) == ToBigEndian(m, len)
  {
    hide BigEndian, ToBigEndian, Pow256;
    BigEndianRoundTrip(n, len);
    BigEndianRoundTrip(m, len);
    BigEndianInjective(ToBigEndian(n, len), ToBigEndian(m, len));
  }

  lemma AddAdd(b: seq<byte>, m: nat, n: nat)
    ensures AddBE(AddBE(b, m), n) == AddBE(b, m + n)
  {
    hide BigEndian, ToBigEndian, Pow256;
    var x := BigEndian(b) + m;
    BigEndianRoundTrip(x, |b|);
    SumMod(x, n, Pow256(|b|));
    ToBigEndianMod(BigEndian(AddBE(b, m)) + n, x + n, |b|);
  }

  lemma SumMod(x: nat, n: nat, d: nat)
    requires d > 0
    ensures (x % d + n) % d == (x + n) % d
  {
    DivMod(x, d);
    DivMod(x % d + n, d);
    var q, s := x / d, (x % d + n) / d;
    Distribute(d, q, s);
    DivModUnique(x + n, d, q + s, (x % d + n) % d);
  }

  lemma AddZero(b: seq<byte>)
    ensures AddBE(b, 0) == b
  {
    ToBigEndianOf(b);
  }

  // ---- cipher_block_add ----

  function Low64(n: nat): nat {
    n % 0x1_0000_0000_0000_0000
  }

  /** Addition in one or two 64-bit words, the carry detected by comparison. */
  function BlockAdd(b: seq<byte>, add: nat): (r: seq<byte>)
    requires |b| == 8 || |b| == 16
    ensures |r| == |b|
  {
    if |b| == 8 then ToBigEndian(Low64(BigEndian(b) + add), 8)
    else
      var s0 := Low64(BigEndian(b[8..]) + add);
      var s1 := Low64(BigEndian(b[..8]) + if s0 < add then 1 else 0);
      ToBigEndian(s1, 8) + ToBigEndian(s0, 8)
  }

  lemma TwoWordSum(h: nat, l: nat, add: nat)
    requires h < 0x1_0000_0000_0000_0000 && l < 0x1_0000_0000_0000_0000 && add < 0x1_0000_0000
    ensures var s0 := Low64(l + add);
            var s1 := Low64(h + if s0 < add then 1 else 0);
            (h * 0x1_0000_0000_0000_0000 + l + add) % 0x1_0000_0000_0000_0000_0000_0000_0000_0000
              == s1 * 0x1_0000_0000_0000_0000 + s0
  {
  }

  lemma OneWordAdd(b: seq<byte>, add: nat)
    requires |b| == 8
    ensures BlockAdd(b, add) == AddBE(b, add)
  {
    hide BigEndian, ToBigEndian, Pow256;
    Pow256Values();
    ToBigEndianMod(Low64(BigEndian(b) + add), BigEndian(b) + add, 8);
  }

  lemma TwoWordAdd(b: seq<byte>, add: nat)
    requires |b| == 16 && add < 0x1_0000_0000
    ensures BlockAdd(b, add) == AddBE(b, add)
  {
    hide BigEndian, ToBigEndian, Pow256, Low64;
    Pow256Values();
    var h, l := BigEndian(b[..8]), BigEndian(b[8..]);
    assert b == b[..8] + b[8..];
    BigEndianConcat(b[..8], b[8..]);
    BigEndianBound(b[..8]);
    BigEndianBound(b[8..]);
    TwoWordSum(h, l, add);
    LowIsWord(l + add);
    var s0 := Low64(l + add);
    var s1 := Low64(h + if s0 < add then 1 else 0);
    LowIsWord(h + if s0 < add then 1 else 0);
    TwoWords(s1, s0, h * 0x1_0000_0000_0000_0000 + l + add);
  }

  lemma LowIsWord(n: nat)
    ensures Low64(n) < 0x1_0000_0000_0000_0000
  {
  }

  /** The word arithmetic is addition modulo the block's size. */
  lemma BlockAddIs(b: seq<byte>, add: nat)
    requires (|b| == 8 || |b| == 16) && add < 0x1_0000_0000
    ensures BlockAdd(b, add) == AddBE(b, add)
  {
    hide BlockAdd, AddBE;
    if |b| == 8 {
      OneWordAdd(b, add);
    } else {
      TwoWordAdd(b, add);
    }
  }

  lemma TwoWords(s1: nat, s0: nat, n: nat)
    requires s1 < 0x1_0000_0000_0000_0000 && s0 < 0x1_0000_0000_0000_0000
    requires n % 0x1_0000_0000_0000_0000_0000_0000_0000_0000 == s1 * 0x1_0000_0000_0000_0000 + s0
    ensures ToBigEndian(s1, 8) + ToBigEndian(s0, 8) == ToBigEndian(n, 16)
  {
    hide BigEndian, ToBigEndian, Pow256;
    Pow256Values();
    BigEndianRoundTrip(s1, 8);
    BigEndianRoundTrip(s0, 8);
    BigEndianRoundTrip(n, 16);
    BigEndianConcat(ToBigEndian(s1, 8), ToBigEndian(s0, 8));
    BigEndianInjective(ToBigEndian(s1, 8) + ToBigEndian(s0, 8), ToBigEndian(n, 16));
  }

  // ---- the key stream ----

  /** Octet p of the stream that starts with the encryption of ctr. */
  function KeyByte(k: Cipher, ctr: seq<byte>, p: nat): byte
    requires k.Valid() && |ctr| == k.bs
  {
    k.enc(AddBE(ctr, p / k.bs))[p % k.bs]
  }

  function KeyStream(k: Cipher, ctr: seq<byte>, from: nat, len: nat): (s: seq<byte>)
    requires k.Valid() && |ctr| == k.bs
    ensures |s| == len
  {
    seq(len, i requires 0 <= i < len => KeyByte(k, ctr, from + i))
  }

  lemma StreamConcat(k: Cipher, ctr: seq<byte>, from: nat, m: nat, n: nat)
    requires k.Valid() && |ctr| == k.bs
    ensures KeyStream(k, ctr, from, m + n) == KeyStream(k, ctr, from, m) + KeyStream(k, ctr, from + m, n)
  {
    hide KeyByte;
  }

  lemma StreamSlice(k: Cipher, ctr: seq<byte>, from: nat, len: nat, i: nat, j: nat)
    requires k.Valid() && |ctr| == k.bs && i <= j <= len
    ensures KeyStream(k, ctr, from, len)[i..j] == KeyStream(k, ctr, from + i, j - i)
  {
    hide KeyByte;
  }

  /** Block q of the stream is the encryption of the counter plus q. */
  lemma StreamBlock(k: Cipher, ctr: seq<byte>, q: nat)
    requires k.Valid() && |ctr| == k.bs
    ensures KeyStream(k, ctr, k.bs * q, k.bs) == k.enc(AddBE(ctr, q))
  {
    hide AddBE;
    forall i | 0 <= i < k.bs
      ensures KeyByte(k, ctr, k.bs * q + i) == k.enc(AddBE(ctr, q))[i]
    {
      DivModUnique(k.bs * q + i, k.bs, q, i);
    }
  }

  /** Counter mode on data at a stream position. */
  function CtrCrypt(k: Cipher, ctr: seq<byte>, pos: nat, data: seq<byte>): (r: seq<byte>)
    requires k.Valid() && |ctr| == k.bs
    ensures |r| == |data|
  {
    Xor(data, KeyStream(k, ctr, pos, |data|))
  }

  lemma CtrConcat(k: Cipher, ctr: seq<byte>, pos: nat, a: seq<byte>, b: seq<byte>)
    requires k.Valid() && |ctr| == k.bs
    ensures CtrCrypt(k, ctr, pos, a + b) == CtrCrypt(k, ctr, pos, a) + CtrCrypt(k, ctr, pos + |a|, b)
  {
    hide Xor, KeyStream;
    StreamConcat(k, ctr, pos, |a|, |b|);
    XorConcat(a, b, KeyStream(k, ctr, pos, |a|), KeyStream(k, ctr, pos + |a|, |b|));
  }

  /** Counter mode undoes itself. */
  lemma CtrTwice(k: Cipher, ctr: seq<byte>, pos: nat, data: seq<byte>)
    requires k.Valid() && |ctr| == k.bs
    ensures CtrCrypt(k, ctr, pos, CtrCrypt(k, ctr, pos, data)) == data
  {
    hide Xor, KeyStream;
    XorCancels(data, KeyStream(k, ctr, pos, |data|));
  }

  // ---- a key stream that begins with octets left over from another one ----

  function LateByte(k: Cipher, ctr: seq<byte>, stale: seq<byte>, p: nat): byte
    requires k.Valid() && |ctr| == k.bs
  {
    if p < |stale| then stale[p] else KeyByte(k, ctr, p - |stale|)
  }

  function LateStream(k: Cipher, ctr: seq<byte>, stale: seq<byte>, from: nat, len: nat): (s: seq<byte>)
    requires k.Valid() && |ctr| == k.bs
    ensures |s| == len
  {
    seq(len, i requires 0 <= i < len => LateByte(k, ctr, stale, from + i))
  }

  function LateCrypt(k: Cipher, ctr: seq<byte>, stale: seq<byte>, pos: nat, data: seq<byte>): (r: seq<byte>)
    requires k.Valid() && |ctr| == k.bs
    ensures |r| == |data|
  {
    Xor(data, LateStream(k, ctr, stale, pos, |data|))
  }

  lemma LateConcat(k: Cipher, ctr: seq<byte>, stale: seq<byte>, pos: nat, a: seq<byte>, b: seq<byte>)
    requires k.Valid() && |ctr| == k.bs
    ensures LateCrypt(k, ctr, stale, pos, a + b) == LateCrypt(k, ctr, stale, pos, a) + LateCrypt(k, ctr, stale, pos + |a|, b)
  {
    hide Xor, LateByte;
    assert LateStream(k, ctr, stale, pos, |a + b|)
        == LateStream(k, ctr, stale, pos, |a|) + LateStream(k, ctr, stale, pos + |a|, |b|);
    XorConcat(a, b, LateStream(k, ctr, stale, pos, |a|), LateStream(k, ctr, stale, pos + |a|, |b|));
  }

  lemma LateTwice(k: Cipher, ctr: seq<byte>, stale: seq<byte>, pos: nat, data: seq<byte>)
    requires k.Valid() && |ctr| == k.bs
    ensures LateCrypt(k, ctr, stale, pos, LateCrypt(k, ctr, stale, pos, data)) == data
  {
    hide Xor, LateStream;
    XorCancels(data, LateStream(k, ctr, stale, pos, |data|));
  }

  /** Past the octets left over it is counter mode. */
  lemma LateIsCtr(k: Cipher, ctr: seq<byte>, stale: seq<byte>, pos: nat, data: seq<byte>)
    requires k.Valid() && |ctr| == k.bs && |stale| <= pos
    ensures LateCrypt(k, ctr, stale, pos, data) == CtrCrypt(k, ctr, pos - |stale|, data)
  {
    hide Xor, KeyByte;
    var late, plain := LateStream(k, ctr, stale, pos, |data|), KeyStream(k, ctr, pos - |stale|, |data|);
    assert |late| == |plain|;
    forall i | 0 <= i < |late|
      ensures late[i] == plain[i]
    {
      var p, q := pos + i, pos - |stale| + i;
      assert late[i] == LateByte(k, ctr, stale, p);
      assert plain[i] == KeyByte(k, ctr, q);
      assert p - |stale| == q;
    }
    assert late == plain;
  }

  /** Before that it is those octets. */
  lemma LateIsStale(k: Cipher, ctr: seq<byte>, stale: seq<byte>, pos: nat, data: seq<byte>)
    requires k.Valid() && |ctr| == k.bs && pos + |data| <= |stale|
    ensures LateCrypt(k, ctr, stale, pos, data) == Xor(data, stale[pos..pos + |data|])
  {
    hide Xor, KeyByte;
    var late, plain := LateStream(k, ctr, stale, pos, |data|), stale[pos..pos + |data|];
    assert |late| == |plain|;
    forall i | 0 <= i < |late|
      ensures late[i] == plain[i]
    {
      assert late[i] == LateByte(k, ctr, stale, pos + i);
    }
    assert late == plain;
  }
}
