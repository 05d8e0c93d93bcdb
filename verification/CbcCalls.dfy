/** Several CBC calls on one handle: whole blocks chain from call to call; with ciphertext stealing the
    two directions leave different IVs, so a second call does not decrypt. */
module CbcCalls {
  import opened Buffering
  import opened Bytes
  import opened CipherBlock
  import opened Cbc

  // ---- whole blocks ----

  /** Two calls make the ciphertext of one. */
  lemma {:induction false} SealChains(k: Cipher, iv: seq<byte>, p: seq<byte>, q: seq<byte>)
    requires k.Valid() && |iv| == k.bs && |p| % k.bs == 0 && |q| % k.bs == 0
    ensures |p + q| % k.bs == 0
    ensures var c := CbcSeal(k, iv, p); var x := LastBlock(k.bs, iv, c);
              && CbcSeal(k, iv, p + q) == c + CbcSeal(k, x, q)
              && LastBlock(k.bs, iv, CbcSeal(k, iv, p + q)) == LastBlock(k.bs, x, CbcSeal(k, x, q))
    decreases |q|
  {
    hide Xor, CbcSeal, LastBlock;
    var c := CbcSeal(k, iv, p);
    var x := LastBlock(k.bs, iv, c);
    NoBlocks(k, x);
    if q == [] {
      assert p + q == p && c + [] == c;
    } else {
      var m := AllButLast(k.bs, |q|);
      var d, b := CbcSeal(k, x, q[..m]), q[m..];
      SealChains(k, iv, p, q[..m]);
      ConcatAssociates(p, q[..m], b);
      assert q == q[..m] + b;
      SealNext(k, iv, p + q[..m], b);
      SealNext(k, x, q[..m], b);
      var e := k.enc(Xor(b, LastBlock(k.bs, x, d)));
      ConcatAssociates(c, d, e);
      LastIs(k.bs, iv, c + d, e);
      LastIs(k.bs, x, d, e);
    }
  }

  lemma {:induction false} OpenChains(k: Cipher, iv: seq<byte>, c: seq<byte>, d: seq<byte>)
    requires k.Valid() && |iv| == k.bs && |c| % k.bs == 0 && |d| % k.bs == 0
    ensures |c + d| % k.bs == 0
    ensures var x := LastBlock(k.bs, iv, c);
              && CbcOpen(k, iv, c + d) == CbcOpen(k, iv, c) + CbcOpen(k, x, d)
              && LastBlock(k.bs, iv, c + d) == LastBlock(k.bs, x, d)
    decreases |d|
  {
    hide Xor, CbcOpen, LastBlock;
    var x := LastBlock(k.bs, iv, c);
    NoBlocks(k, x);
    if d == [] {
      assert c + d == c && CbcOpen(k, iv, c) + [] == CbcOpen(k, iv, c);
    } else {
      var m := AllButLast(k.bs, |d|);
      var b := d[m..];
      OpenChains(k, iv, c, d[..m]);
      ConcatAssociates(c, d[..m], b);
      assert d == d[..m] + b;
      SealNext(k, iv, c + d[..m], b);
      SealNext(k, x, d[..m], b);
      ConcatAssociates(CbcOpen(k, iv, c), CbcOpen(k, x, d[..m]), Xor(k.dec(b), LastBlock(k.bs, x, d[..m])));
      LastIs(k.bs, iv, c + d[..m], b);
      LastIs(k.bs, x, d[..m], b);
    }
  }

  /** One side encrypts in two calls, the other decrypts the text in any two others. */
  lemma AnySplit(k: Cipher, iv: seq<byte>, p: seq<byte>, q: seq<byte>, c: seq<byte>, d: seq<byte>, x: seq<byte>)
    requires k.Valid() && |iv| == k.bs && |p| % k.bs == 0 && |q| % k.bs == 0 && |c| % k.bs == 0 && |d| % k.bs == 0
    requires x == LastBlock(k.bs, iv, CbcSeal(k, iv, p)) && c + d == CbcSeal(k, iv, p) + CbcSeal(k, x, q)
    ensures CbcOpen(k, iv, c) + CbcOpen(k, LastBlock(k.bs, iv, c), d) == p + q
    ensures LastBlock(k.bs, LastBlock(k.bs, iv, c), d) == LastBlock(k.bs, x, CbcSeal(k, x, q))
  {
    hide Xor, CbcOpen, CbcSeal, LastBlock;
    SealChains(k, iv, p, q);
    var text, whole := p + q, c + d;
    assert whole == CbcSeal(k, iv, text);
    OpenWhole(k, iv, c, d, whole, text);
  }

  lemma OpenWhole(k: Cipher, iv: seq<byte>, c: seq<byte>, d: seq<byte>, whole: seq<byte>, text: seq<byte>)
    requires k.Valid() && |iv| == k.bs && |c| % k.bs == 0 && |d| % k.bs == 0 && |text| % k.bs == 0
    requires whole == c + d == CbcSeal(k, iv, text)
    ensures CbcOpen(k, iv, c) + CbcOpen(k, LastBlock(k.bs, iv, c), d) == text
    ensures LastBlock(k.bs, LastBlock(k.bs, iv, c), d) == LastBlock(k.bs, iv, whole)
  {
    hide Xor, CbcOpen, CbcSeal, LastBlock;
    OpenChains(k, iv, c, d);
    CbcRoundTrip(k, iv, text);
  }

  // ---- ciphertext stealing ----

  /** Octets deciphered first, before the IV is added. */
  function FirstDeciphered(k: Cipher, c: seq<byte>): (b: seq<byte>)
    requires k.Valid() && Accepted(k.bs, |c|) && |c| >= k.bs
    ensures |b| == k.bs
  {
    if |c| > k.bs && |c| - RestBytes(k.bs, |c|) == k.bs then
      var r := RestBytes(k.bs, |c|);
      k.dec(c[k.bs..] + k.dec(c[..k.bs])[r..])
    else k.dec(c[..k.bs])
  }

  lemma {:induction false} OpenStarts(k: Cipher, iv: seq<byte>, c: seq<byte>)
    requires k.Valid() && |iv| == k.bs && |c| % k.bs == 0 && |c| >= k.bs
    ensures CbcOpen(k, iv, c)[..k.bs] == Xor(k.dec(c[..k.bs]), iv)
    decreases |c|
  {
    hide Xor;
    var m := AllButLast(k.bs, |c|);
    if m == 0 {
      assert c[..k.bs] == c == c[0..] && c[..0] == [];
      NoBlocks(k, iv);
      assert [] + Xor(k.dec(c), iv) == Xor(k.dec(c), iv);
    } else {
      AllButLastIs(k.bs, m);
      OpenStarts(k, iv, c[..m]);
      assert c[..m][..k.bs] == c[..k.bs];
    }
  }

  /** The IV only reaches the first block. */
  lemma TextStarts(k: Cipher, iv: seq<byte>, c: seq<byte>)
    requires k.Valid() && |iv| == k.bs && Accepted(k.bs, |c|) && |c| >= k.bs
    ensures TextOpen(k, iv, c)[..k.bs] == Xor(FirstDeciphered(k, c), iv)
  {
    hide Xor, CbcOpen, RestBytes;
    var bs := k.bs;
    if |c| == bs {
      OpenStarts(k, iv, c);
    } else {
      var r := RestBytes(bs, |c|);
      var h := |c| - r - bs;
      CtsOpenIs(k, iv, c, h);
      if h == 0 {
        assert c[..0] == [] && c[0..bs] == c[..bs];
        NoBlocks(k, iv);
      } else {
        AllButLastIs(bs, h);
        OpenStarts(k, iv, c[..h]);
        assert c[..h][..bs] == c[..bs];
      }
    }
  }

  lemma TextRoundTrip(k: Cipher, iv: seq<byte>, p: seq<byte>)
    requires k.Valid() && |iv| == k.bs && Accepted(k.bs, |p|)
    ensures TextOpen(k, iv, TextSeal(k, iv, p)) == p
  {
    hide CbcSeal, CbcOpen, CtsSeal, CtsOpen;
    if |p| <= k.bs {
      CbcRoundTrip(k, iv, p);
    } else {
      CtsRoundTrip(k, iv, p);
    }
  }

  /** A text decrypts under another IV than the one it was made with only if it is empty. */
  lemma WrongIv(k: Cipher, iv: seq<byte>, iv': seq<byte>, q: seq<byte>)
    requires k.Valid() && |iv| == |iv'| == k.bs && Accepted(k.bs, |q|)
    ensures TextOpen(k, iv', TextSeal(k, iv, q)) == q <==> iv == iv' || q == []
  {
    hide TextOpen, TextSeal, Xor, FirstDeciphered;
    TextRoundTrip(k, iv, q);
    if q == [] {
      assert TextOpen(k, iv', TextSeal(k, iv, q)) == [];
    } else {
      NotShort(k.bs, |q|);
      var c := TextSeal(k, iv, q);
      var b := FirstDeciphered(k, c);
      TextStarts(k, iv, c);
      TextStarts(k, iv', c);
      XorCancels(iv, b);
      XorCancels(iv', b);
    }
  }

  lemma NotShort(bs: nat, n: nat)
    requires Accepted(bs, n) && n > 0
    ensures n >= bs
  {
    if n < bs {
      DivModUnique(n, bs, 0, n);
    }
  }

  lemma {:induction false} ZerosStay(bs: nat, m: nat)
    requires bs > 0 && m % bs == 0
    ensures Identity(bs).Valid() && CbcSeal(Identity(bs), ZeroBytes(bs), ZeroBytes(m)) == ZeroBytes(m)
    decreases m
  {
    hide Xor;
    IdentityValid(bs);
    if m > 0 {
      var h := AllButLast(bs, m);
      ZerosStay(bs, h);
      assert ZeroBytes(m)[..h] == ZeroBytes(h) && ZeroBytes(m)[h..] == ZeroBytes(bs);
      if h >= bs {
        assert ZeroBytes(h)[h - bs..] == ZeroBytes(bs);
      }
      XorZero(ZeroBytes(bs));
    }
  }

  /** Above one block: zeros up to the last block, then a one, under the identity permutation. */
  lemma IvsDiffer(bs: nat, n: nat) returns (k: Cipher, iv: seq<byte>, p: seq<byte>)
    requires bs > 0 && n > bs
    ensures k.Valid() && k == Identity(bs) && iv == ZeroBytes(bs) && |p| == n
    ensures SealIv(k, iv, p) != OpenIv(k, iv, TextSeal(k, iv, p))
  {
    hide Xor, CbcSeal, RestBytes, SealIv, OpenIv, TextSeal;
    var r := RestBytes(bs, n);
    var m := n - r;
    k, iv, p := Identity(bs), ZeroBytes(bs), ZeroBytes(m) + ([1] + ZeroBytes(r - 1));
    ZerosStay(bs, m);
    CtsIvs(k, iv, p);
    assert p[..m] == ZeroBytes(m) && p[m..] == [1] + ZeroBytes(r - 1);
    var last := [1] + ZeroBytes(r - 1) + ZeroBytes(bs - r);
    assert ZeroBytes(m)[m - bs..] == ZeroBytes(bs);
    XorZero(last);
    assert last[0] != ZeroBytes(bs)[0];
  }

  lemma ShortIvs(k: Cipher, iv: seq<byte>, p: seq<byte>)
    requires k.Valid() && |iv| == k.bs && Accepted(k.bs, |p|) && |p| <= k.bs
    ensures SealIv(k, iv, p) == OpenIv(k, iv, TextSeal(k, iv, p))
  {
    hide CbcSeal;
  }

  /** For every length a call accepts: both directions leave the same IV whatever the cipher, the IV and
      the data if and only if the length is at most one block. */
  lemma IvsAgree(bs: nat, n: nat)
    requires Accepted(bs, n)
    ensures (forall k: Cipher, iv: seq<byte>, p: seq<byte> :: k.Valid() && k.bs == bs == |iv| && |p| == n ==>
               SealIv(k, iv, p) == OpenIv(k, iv, TextSeal(k, iv, p)))
       <==> n <= bs
  {
    hide SealIv, OpenIv, TextSeal;
    if n > bs {
      var k, iv, p := IvsDiffer(bs, n);
    } else {
      forall k: Cipher, iv: seq<byte>, p: seq<byte> | k.Valid() && k.bs == bs == |iv| && |p| == n
        ensures SealIv(k, iv, p) == OpenIv(k, iv, TextSeal(k, iv, p))
      {
        ShortIvs(k, iv, p);
      }
    }
  }

  // ---- any number of calls ----

  ghost predicate AllAccepted(bs: nat, ps: seq<seq<byte>>) {
    forall i :: 0 <= i < |ps| ==> Accepted(bs, |ps[i]|)
  }

  /** The IV after calls of encryption. */
  ghost function EncIv(k: Cipher, iv: seq<byte>, ps: seq<seq<byte>>): (r: seq<byte>)
    requires k.Valid() && |iv| == k.bs && AllAccepted(k.bs, ps)
    ensures |r| == k.bs
  {
    if ps == [] then iv else SealIv(k, EncIv(k, iv, ps[..|ps| - 1]), ps[|ps| - 1])
  }

  /** The IV on a handle that decrypted them one by one. */
  ghost function DecIv(k: Cipher, iv: seq<byte>, ps: seq<seq<byte>>): (r: seq<byte>)
    requires k.Valid() && |iv| == k.bs && AllAccepted(k.bs, ps)
    ensures |r| == k.bs
  {
    if ps == [] then iv
    else
      var before, p := ps[..|ps| - 1], ps[|ps| - 1];
      OpenIv(k, DecIv(k, iv, before), TextSeal(k, EncIv(k, iv, before), p))
  }

  /** What one more call decrypts to. */
  ghost function NextText(k: Cipher, iv: seq<byte>, ps: seq<seq<byte>>, q: seq<byte>): seq<byte>
    requires k.Valid() && |iv| == k.bs && AllAccepted(k.bs, ps) && Accepted(k.bs, |q|)
  {
    TextOpen(k, DecIv(k, iv, ps), TextSeal(k, EncIv(k, iv, ps), q))
  }

  /** The length of the last call that was not empty, or zero. */
  function LastLength(lens: seq<nat>): nat {
    if lens == [] then 0
    else if lens[|lens| - 1] > 0 then lens[|lens| - 1]
    else LastLength(lens[..|lens| - 1])
  }

  ghost predicate HasLengths(ps: seq<seq<byte>>, lens: seq<nat>) {
    |ps| == |lens| && forall i :: 0 <= i < |lens| ==> |ps[i]| == lens[i]
  }

  ghost predicate LengthsAccepted(bs: nat, lens: seq<nat>) {
    forall i :: 0 <= i < |lens| ==> Accepted(bs, lens[i])
  }

  lemma EmptyKeeps(k: Cipher, iv: seq<byte>, iv': seq<byte>)
    requires k.Valid() && |iv| == |iv'| == k.bs
    ensures Accepted(k.bs, 0) && SealIv(k, iv, []) == iv && OpenIv(k, iv', TextSeal(k, iv, [])) == iv'
  {
    NoBlocks(k, iv);
  }

  /** A call of one block brings the two sides together, wherever they stood. */
  lemma BlockMeets(k: Cipher, iv: seq<byte>, iv': seq<byte>, p: seq<byte>)
    requires k.Valid() && |iv| == |iv'| == |p| == k.bs && Accepted(k.bs, |p|)
    ensures SealIv(k, iv, p) == OpenIv(k, iv', TextSeal(k, iv, p))
  {
    hide CbcSeal;
  }

  /** Above one block the IV decryption leaves depends on the ciphertext alone. */
  lemma LongForgets(k: Cipher, iv: seq<byte>, iv': seq<byte>, c: seq<byte>)
    requires k.Valid() && |iv| == |iv'| == k.bs && |c| > k.bs
    ensures OpenIv(k, iv, c) == OpenIv(k, iv', c)
  {
    hide RestBytes;
  }

  /** The two sides stand at the same IV when the last call that was not empty had one block. */
  lemma {:induction false} IvsMeet(k: Cipher, iv: seq<byte>, ps: seq<seq<byte>>, lens: seq<nat>)
    requires k.Valid() && |iv| == k.bs && HasLengths(ps, lens) && AllAccepted(k.bs, ps) && LastLength(lens) <= k.bs
    ensures EncIv(k, iv, ps) == DecIv(k, iv, ps)
    decreases |ps|
  {
    hide SealIv, OpenIv, TextSeal, Accepted;
    if ps != [] {
      var before, p := ps[..|ps| - 1], ps[|ps| - 1];
      if p == [] {
        IvsMeet(k, iv, before, lens[..|lens| - 1]);
        EmptyKeeps(k, EncIv(k, iv, before), DecIv(k, iv, before));
      } else {
        NotShort(k.bs, |p|);
        BlockMeets(k, EncIv(k, iv, before), DecIv(k, iv, before), p);
      }
    }
  }

  /** Under the identity permutation zeros leave an IV of zeros as it is. */
  lemma ZerosKeep(bs: nat, n: nat)
    requires Accepted(bs, n)
    ensures Identity(bs).Valid() && SealIv(Identity(bs), ZeroBytes(bs), ZeroBytes(n)) == ZeroBytes(bs)
  {
    hide Xor, CbcSeal, RestBytes, CtsSeal;
    IdentityValid(bs);
    if n <= bs {
      ZerosStay(bs, n);
      assert n == bs ==> ZeroBytes(n)[n - bs..] == ZeroBytes(bs);
    } else {
      var r := RestBytes(bs, n);
      var m := n - r;
      CtsIvs(Identity(bs), ZeroBytes(bs), ZeroBytes(n));
      ZerosStay(bs, m);
      assert ZeroBytes(n)[..m] == ZeroBytes(m) && ZeroBytes(m)[m - bs..] == ZeroBytes(bs);
      assert ZeroBytes(n)[m..] + ZeroBytes(bs - r) == ZeroBytes(bs);
      XorZero(ZeroBytes(bs));
    }
  }

  /** Calls of zeros. */
  function Zeros(lens: seq<nat>): (ps: seq<seq<byte>>)
    ensures |ps| == |lens| && forall i :: 0 <= i < |lens| ==> |ps[i]| == lens[i]
  {
    seq(|lens|, i requires 0 <= i < |lens| => ZeroBytes(lens[i]))
  }

  lemma {:induction false} ZerosKeepAll(bs: nat, lens: seq<nat>)
    requires bs > 0 && LengthsAccepted(bs, lens)
    ensures Identity(bs).Valid() && AllAccepted(bs, Zeros(lens))
    ensures EncIv(Identity(bs), ZeroBytes(bs), Zeros(lens)) == ZeroBytes(bs)
    decreases |lens|
  {
    hide SealIv, Accepted;
    IdentityValid(bs);
    if lens != [] {
      var n := |lens| - 1;
      ZerosKeepAll(bs, lens[..n]);
      assert Zeros(lens)[..n] == Zeros(lens[..n]) && Zeros(lens)[n] == ZeroBytes(lens[n]);
      ZerosKeep(bs, lens[n]);
    }
  }

  /** Otherwise there are calls after which they stand apart. */
  lemma {:induction false} IvsPart(bs: nat, lens: seq<nat>) returns (k: Cipher, iv: seq<byte>, ps: seq<seq<byte>>)
    requires bs > 0 && LengthsAccepted(bs, lens) && LastLength(lens) > bs
    ensures k.Valid() && k.bs == bs == |iv| && HasLengths(ps, lens) && AllAccepted(bs, ps)
    ensures EncIv(k, iv, ps) != DecIv(k, iv, ps)
    decreases |lens|
  {
    hide SealIv, OpenIv, TextSeal, Accepted;
    var n := |lens| - 1;
    var before;
    if lens[n] == 0 {
      k, iv, before := IvsPart(bs, lens[..n]);
      ps := before + [[]];
      assert ps[..n] == before;
      EmptyKeeps(k, EncIv(k, iv, before), DecIv(k, iv, before));
    } else {
      var p;
      k, iv, p := IvsDiffer(bs, lens[n]);
      before := Zeros(lens[..n]);
      ps := before + [p];
      assert ps[..n] == before;
      ZerosKeepAll(bs, lens[..n]);
      LongForgets(k, iv, DecIv(k, iv, before), TextSeal(k, iv, p));
    }
  }

  lemma NextIs(k: Cipher, iv: seq<byte>, ps: seq<seq<byte>>, q: seq<byte>)
    requires k.Valid() && |iv| == k.bs && AllAccepted(k.bs, ps) && Accepted(k.bs, |q|)
    ensures NextText(k, iv, ps, q) == q <==> EncIv(k, iv, ps) == DecIv(k, iv, ps) || q == []
  {
    hide EncIv, DecIv, TextSeal, TextOpen, Accepted;
    WrongIv(k, EncIv(k, iv, ps), DecIv(k, iv, ps), q);
  }

  ghost predicate Given(bs: nat, k: Cipher, iv: seq<byte>, ps: seq<seq<byte>>, lens: seq<nat>, q: seq<byte>, n: nat) {
    k.Valid() && k.bs == bs == |iv| && HasLengths(ps, lens) && |q| == n
  }

  lemma GivenAccepted(bs: nat, ps: seq<seq<byte>>, lens: seq<nat>)
    requires HasLengths(ps, lens) && LengthsAccepted(bs, lens)
    ensures AllAccepted(bs, ps)
  {
    hide Accepted;
  }

  /** For the lengths of any calls and of one more: it decrypts to what was encrypted, whatever the
      cipher, IV and data, if and only if it is empty, or the last call before it that was not empty
      had one block, or there was none. */
  lemma AnyCall(bs: nat, lens: seq<nat>, n: nat)
    requires bs > 0 && LengthsAccepted(bs, lens) && Accepted(bs, n)
    ensures (forall k: Cipher, iv: seq<byte>, ps: seq<seq<byte>>, q: seq<byte> ::
               Given(bs, k, iv, ps, lens, q, n) ==> AllAccepted(bs, ps) && NextText(k, iv, ps, q) == q)
       <==> n == 0 || LastLength(lens) <= bs
  {
    hide EncIv, DecIv, NextText, AllAccepted, HasLengths, LengthsAccepted, Accepted;
    if n > 0 && LastLength(lens) > bs {
      var k, iv, ps := IvsPart(bs, lens);
      var q := ZeroBytes(n);
      NextIs(k, iv, ps, q);
      assert Given(bs, k, iv, ps, lens, q, n);
    } else {
      forall k: Cipher, iv: seq<byte>, ps: seq<seq<byte>>, q: seq<byte> | Given(bs, k, iv, ps, lens, q, n)
        ensures AllAccepted(bs, ps) && NextText(k, iv, ps, q) == q
      {
        GivenAccepted(bs, ps, lens);
        NextIs(k, iv, ps, q);
        if n > 0 {
          IvsMeet(k, iv, ps, lens);
        }
      }
    }
  }
}
