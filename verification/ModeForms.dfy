/** What the definitions of the simpler modes come to on two blocks: counter mode, CBC with and without
    ciphertext stealing, cipher feedback, XTS and GHASH. */
module ModeForms {
  import opened Bytes
  import opened CipherBlock
  import B = Buffering
  import Bulk
  import Cbc
  import Cfb
  import C = Counter
  import G = GhashPpc
  import GF = GaloisField

  lemma OneWhole(bs: nat)
    requires bs > 0
    ensures bs % bs == 0 && (bs + bs) % bs == 0 && 0 % bs == 0
    ensures bs / bs == 1 && 0 / bs == 0
  {
    DivModUnique(bs, bs, 1, 0);
    DivModUnique(bs + bs, bs, 2, 0);
    DivModUnique(0, bs, 0, 0);
  }

  // ---- counter mode ----

  /** A counter block is a number of its own length that wraps. */
  lemma AddMeans(b: seq<byte>, n: nat)
    ensures BigEndian(C.AddBE(b, n)) == (BigEndian(b) + n) % Pow256(|b|)
  {
    hide BigEndian, ToBigEndian, Pow256;
    BigEndianRoundTrip(BigEndian(b) + n, |b|);
  }

  /** The first block is masked by the counter as given, the next by its successor. */
  lemma CtrTwo(k: Cipher, ctr: seq<byte>, x: seq<byte>, y: seq<byte>)
    requires k.Valid() && |ctr| == |x| == |y| == k.bs
    ensures C.CtrCrypt(k, ctr, 0, x + y) == Xor(x, k.enc(ctr)) + Xor(y, k.enc(C.AddBE(ctr, 1)))
  {
    hide C.KeyStream, C.AddBE, Xor;
    C.StreamBlock(k, ctr, 0);
    C.StreamBlock(k, ctr, 1);
    C.AddZero(ctr);
    C.CtrConcat(k, ctr, 0, x, y);
  }

  // ---- CBC ----

  lemma CbcTwo(k: Cipher, iv: seq<byte>, x: seq<byte>, y: seq<byte>)
    requires k.Valid() && |iv| == |x| == |y| == k.bs
    ensures |x + y| % k.bs == 0
    ensures var c := k.enc(Xor(x, iv));
            Cbc.CbcSeal(k, iv, x + y) == c + k.enc(Xor(y, c))
  {
    hide Xor;
    OneWhole(k.bs);
    CbcOne(k, iv, x);
    B.AllButLastIs(k.bs, |x + y|);
    assert (x + y)[..k.bs] == x && (x + y)[k.bs..] == y;
  }

  lemma CbcOne(k: Cipher, iv: seq<byte>, x: seq<byte>)
    requires k.Valid() && |iv| == |x| == k.bs
    ensures |x| % k.bs == 0 && Cbc.CbcSeal(k, iv, x) == k.enc(Xor(x, iv))
  {
    hide Xor;
    OneWhole(k.bs);
    assert x[..0] == [] && x[0..] == x;
    assert Cbc.CbcSeal(k, iv, []) == [];
  }

  /** A block and a shorter rest: the block for the rest, padded with zeros, goes first, and of the block
      before it as much is kept as the rest is long. */
  lemma CtsTwo(k: Cipher, iv: seq<byte>, x: seq<byte>, y: seq<byte>)
    requires k.Valid() && |iv| == |x| == k.bs && 0 < |y| < k.bs
    ensures var c := k.enc(Xor(x, iv));
            Cbc.CtsSeal(k, iv, x + y) == k.enc(Xor(y + ZeroBytes(k.bs - |y|), c)) + c[..|y|]
  {
    hide Xor, Cbc.CbcSeal, Cbc.SwapCut;
    var bs, z := k.bs, y + ZeroBytes(k.bs - |y|);
    DivModUnique(bs + |y|, bs, 1, |y|);
    CbcTwo(k, iv, x, z);
    assert x + y + ZeroBytes(bs - |y|) == x + z;
    var c := k.enc(Xor(x, iv));
    Exchanged(c, k.enc(Xor(z, c)), bs, |y|);
  }

  lemma Exchanged(a: seq<byte>, b: seq<byte>, bs: nat, r: nat)
    requires |a| == |b| == bs && r <= bs
    ensures Cbc.SwapCut(a + b, bs, bs, r) == b + a[..r]
  {
    var z := a + b;
    assert z[..0] == [] && z[bs..] == b && z[0..r] == a[..r];
  }

  // ---- cipher feedback ----

  lemma CfbTwo(k: Cipher, iv: seq<byte>, x: seq<byte>, y: seq<byte>, c: seq<byte>, d: seq<byte>)
    requires k.Valid() && |iv| == |x| == |y| == |c| == |d| == k.bs
    requires Cfb.Related(k, iv, x + y, c + d)
    ensures c == Xor(x, k.enc(iv)) && d == Xor(y, k.enc(c))
  {
    hide XorByte;
    var bs := k.bs;
    OneWhole(bs);
    forall i | 0 <= i < bs
      ensures c[i] == Xor(x, k.enc(iv))[i] && d[i] == Xor(y, k.enc(c))[i]
    {
      DivModUnique(i, bs, 0, i);
      DivModUnique(bs + i, bs, 1, i);
      assert (c + d)[i] == XorByte((x + y)[i], Cfb.Mask(k, iv, c + d, i));
      assert (c + d)[bs + i] == XorByte((x + y)[bs + i], Cfb.Mask(k, iv, c + d, bs + i));
      assert (c + d)[0..bs] == c;
      assert bs * (1 - 1) == 0;
    }
  }

  /** Eight-bit feedback: the first octet of the register masks an octet, which then joins the register. */
  lemma Cfb8Two(k: Cipher, iv: seq<byte>, x: byte, y: byte, c: byte, d: byte)
    requires k.Valid() && |iv| == k.bs && Cfb.Related8(k, iv, [x, y], [c, d])
    ensures c == XorByte(x, k.enc(iv)[0]) && d == XorByte(y, k.enc(iv[1..] + [c])[0])
  {
    hide XorByte;
    assert (iv + [c, d])[0..k.bs] == iv && (iv + [c, d])[1..1 + k.bs] == iv[1..] + [c];
    assert [c, d][1] == XorByte([x, y][1], Cfb.Mask8(k, iv, [c, d], 1));
    assert [c, d][0] == XorByte([x, y][0], Cfb.Mask8(k, iv, [c, d], 0));
  }

  // ---- XTS ----

  lemma XtsTwo(f: seq<byte> -> seq<byte>, t: seq<byte>, x: seq<byte>, y: seq<byte>)
    requires Bulk.OnBlocks(f) && |t| == |x| == |y| == 16
    ensures Bulk.Xts(f, t, x + y) == Xor(f(Xor(x, t)), t) + Xor(f(Xor(y, Bulk.Alpha(t))), Bulk.Alpha(t))
  {
    hide Xor, Bulk.Alpha;
    assert (x + y)[..16] == x && (x + y)[16..] == y;
    assert x[..0] == [] && x[0..] == x;
    assert Bulk.Xts(f, t, []) == [];
    assert Bulk.Xts(f, t, x) == [] + Xor(f(Xor(x, t)), t);
    assert Bulk.TweakAt(t, 1) == Bulk.Alpha(Bulk.TweakAt(t, 0));
  }

  // ---- GHASH ----

  /** A block is added and then multiplied. */
  lemma GhashTwo(h: GF.Vec, y: GF.Vec, a: GF.Vec, b: GF.Vec)
    ensures G.Ghash(h, y, [a, b]) == G.NistMul(GF.Add(G.NistMul(GF.Add(y, a), h), b), h)
  {
    hide G.NistMul, GF.Add;
    assert [a, b][..1] == [a] && [a][..0] == [];
    assert G.Ghash(h, y, []) == y;
  }
}
