/** cipher-cbc.c: cipher block chaining, and its form with ciphertext stealing, in place. */
module Cbc {
  import opened Buffering
  import opened Bytes
  import opened CipherBlock

  datatype Status = Ok | BufferTooShort | InvLength

  // ---- what the modes mean ----

  /** The block that is chained to the next one. */
  function LastBlock(bs: nat, iv: seq<byte>, c: seq<byte>): (b: seq<byte>)
    requires |iv| == bs
    ensures |b| == bs
  {
    if |c| < bs then iv else c[|c| - bs..]
  }

  /** C_i = E(P_i xor C_{i-1}) */
  function CbcSeal(k: Cipher, iv: seq<byte>, p: seq<byte>): (c: seq<byte>)
    requires k.Valid() && |iv| == k.bs && |p| % k.bs == 0
    ensures |c| == |p|
  {
    if p == [] then []
    else
      var m := AllButLast(k.bs, |p|);
      var c := CbcSeal(k, iv, p[..m]);
      c + k.enc(Xor(p[m..], LastBlock(k.bs, iv, c)))
  }

  /** P_i = D(C_i) xor C_{i-1} */
  function CbcOpen(k: Cipher, iv: seq<byte>, c: seq<byte>): (p: seq<byte>)
    requires k.Valid() && |iv| == k.bs && |c| % k.bs == 0
    ensures |p| == |c|
  {
    if c == [] then []
    else
      var m := AllButLast(k.bs, |c|);
      CbcOpen(k, iv, c[..m]) + Xor(k.dec(c[m..]), LastBlock(k.bs, iv, c[..m]))
  }

  lemma SealNext(k: Cipher, iv: seq<byte>, p: seq<byte>, b: seq<byte>)
    requires k.Valid() && |iv| == k.bs && |p| % k.bs == 0 && |b| == k.bs
    ensures |p + b| % k.bs == 0
    ensures CbcSeal(k, iv, p + b) == CbcSeal(k, iv, p) + k.enc(Xor(b, LastBlock(k.bs, iv, CbcSeal(k, iv, p))))
    ensures CbcOpen(k, iv, p + b) == CbcOpen(k, iv, p) + Xor(k.dec(b), LastBlock(k.bs, iv, p))
  {
    hide Xor, LastBlock;
    DivMod(|p|, k.bs);
    DivModUnique(|p| + k.bs, k.bs, |p| / k.bs + 1, 0);
    assert (p + b)[..|p|] == p && (p + b)[|p|..] == b;
  }

  lemma {:induction false} CbcRoundTrip(k: Cipher, iv: seq<byte>, p: seq<byte>)
    requires k.Valid() && |iv| == k.bs && |p| % k.bs == 0
    ensures CbcOpen(k, iv, CbcSeal(k, iv, p)) == p
    decreases |p|
  {
    hide Xor, LastBlock;
    if p != [] {
      var m := AllButLast(k.bs, |p|);
      var c := CbcSeal(k, iv, p[..m]);
      var b := k.enc(Xor(p[m..], LastBlock(k.bs, iv, c)));
      CbcRoundTrip(k, iv, p[..m]);
      SealNext(k, iv, c, b);
      assert k.dec(b) == Xor(p[m..], LastBlock(k.bs, iv, c));
      XorCancels(p[m..], LastBlock(k.bs, iv, c));
      assert p == p[..m] + p[m..];
    }
  }

  /** Octets of the last block, which is full when the length is a multiple of the block size. */
  function RestBytes(bs: nat, n: nat): (r: nat)
    requires bs > 0 && n > bs
    ensures 0 < r <= bs && bs <= n - r && (n - r) % bs == 0
  {
    RestFacts(bs, n);
    if n % bs == 0 then bs else n % bs
  }

  lemma RestFacts(bs: nat, n: nat)
    requires bs > 0 && n > bs
    ensures n % bs < bs && n - n % bs >= bs && (n - n % bs) % bs == 0 && (n % bs == 0 ==> n - bs >= bs && (n - bs) % bs == 0)
  {
    DivMod(n, bs);
    var q := n / bs;
    if q == 0 {
      assert false;
    }
    assert bs * q == bs * (q - 1) + bs;
    DivModUnique(n - n % bs, bs, q, 0);
    if n % bs == 0 {
      if q == 1 {
        assert false;
      }
      assert bs * (q - 1) == bs * (q - 2) + bs;
      DivModUnique(n - bs, bs, q - 1, 0);
    }
  }

  /** Ciphertext stealing, as the addendum to SP 800-38A defines CBC-CS3: the zero-padded data goes
      through CBC, the last two blocks change places and what is then last is cut to length. */
  function CtsSeal(k: Cipher, iv: seq<byte>, p: seq<byte>): (c: seq<byte>)
    requires k.Valid() && |iv| == k.bs && |p| > k.bs
    ensures |c| == |p|
  {
    var r := RestBytes(k.bs, |p|);
    var m := |p| - r;
    WholeMore(k.bs, m);
    SwapCut(CbcSeal(k, iv, p + ZeroBytes(k.bs - r)), m, k.bs, r)
  }

  /** The last two blocks change places, and the one that is then last is cut to r octets. */
  function SwapCut(z: seq<byte>, m: nat, bs: nat, r: nat): (c: seq<byte>)
    requires bs <= m && m + bs == |z| && r <= bs
    ensures |c| == m + r
  {
    z[..m - bs] + z[m..] + z[m - bs..m - bs + r]
  }

  lemma WholeMore(bs: nat, m: nat)
    requires bs > 0 && m % bs == 0
    ensures (m + bs) % bs == 0
  {
    DivMod(m, bs);
    DivModUnique(m + bs, bs, m / bs + 1, 0);
  }

  lemma WholeLess(bs: nat, m: nat)
    requires bs > 0 && m % bs == 0 && m >= bs
    ensures (m - bs) % bs == 0
  {
    AllButLastIs(bs, m);
  }

  /** The last two blocks of a stolen ciphertext: the second is the shortened block, the first the
      final one. */
  function CtsTail(k: Cipher, x: seq<byte>, last: seq<byte>): (t: seq<byte>)
    requires k.Valid() && |x| == k.bs && |last| <= k.bs
    ensures |t| == k.bs + |last|
  {
    k.enc(Xor(last + ZeroBytes(k.bs - |last|), x)) + x[..|last|]
  }

  /** What encryption computes: whole blocks in CBC, then the tail from the last of them. */
  lemma CtsSealIs(k: Cipher, iv: seq<byte>, p: seq<byte>)
    requires k.Valid() && |iv| == k.bs && |p| > k.bs
    ensures var m := |p| - RestBytes(k.bs, |p|);
            var c := CbcSeal(k, iv, p[..m]);
            CtsSeal(k, iv, p) == c[..m - k.bs] + CtsTail(k, c[m - k.bs..], p[m..])
  {
    hide Xor, CbcSeal, RestBytes, LastBlock, CtsSeal, CtsTail, SwapCut;
    var bs, r := k.bs, RestBytes(k.bs, |p|);
    var m := |p| - r;
    var c, last := CbcSeal(k, iv, p[..m]), p[m..] + ZeroBytes(bs - r);
    SealPadded(k, iv, p, m, last);
    CtsSealDef(k, iv, p, m, r);
    Swapped(c, k.enc(Xor(last, c[m - bs..])), bs, r);
    CtsTailDef(k, c[m - bs..], p[m..], last);
  }

  lemma SealPadded(k: Cipher, iv: seq<byte>, p: seq<byte>, m: nat, last: seq<byte>)
    requires k.Valid() && |iv| == k.bs <= m <= |p| <= m + k.bs && m % k.bs == 0
    requires last == p[m..] + ZeroBytes(k.bs - (|p| - m))
    ensures |p + ZeroBytes(k.bs - (|p| - m))| % k.bs == 0
    ensures var c := CbcSeal(k, iv, p[..m]);
            CbcSeal(k, iv, p + ZeroBytes(k.bs - (|p| - m))) == c + k.enc(Xor(last, c[m - k.bs..]))
  {
    hide Xor, CbcSeal, LastBlock;
    assert p == p[..m] + p[m..];
    ConcatAssociates(p[..m], p[m..], ZeroBytes(k.bs - (|p| - m)));
    SealNext(k, iv, p[..m], last);
    LastOf(k.bs, iv, CbcSeal(k, iv, p[..m]));
  }

  lemma CtsTailDef(k: Cipher, x: seq<byte>, s: seq<byte>, last: seq<byte>)
    requires k.Valid() && |x| == k.bs && |s| <= k.bs && last == s + ZeroBytes(k.bs - |s|)
    ensures CtsTail(k, x, s) == k.enc(Xor(last, x)) + x[..|s|]
  {
  }

  lemma CtsSealDef(k: Cipher, iv: seq<byte>, p: seq<byte>, m: nat, r: nat)
    requires k.Valid() && |iv| == k.bs && |p| > k.bs && r == RestBytes(k.bs, |p|) && m == |p| - r
    ensures (m + k.bs) % k.bs == 0
    ensures CtsSeal(k, iv, p) == SwapCut(CbcSeal(k, iv, p + ZeroBytes(k.bs - r)), m, k.bs, r)
  {
    hide CbcSeal, RestBytes, SwapCut;
    WholeMore(k.bs, m);
  }

  lemma Swapped(c: seq<byte>, e: seq<byte>, bs: nat, r: nat)
    requires r <= bs <= |c| && |e| == bs
    ensures SwapCut(c + e, |c|, bs, r) == c[..|c| - bs] + (e + c[|c| - bs..][..r])
  {
    var m, z := |c|, c + e;
    assert z[..m - bs] == c[..m - bs] && z[m..] == e && z[m - bs..m - bs + r] == c[m - bs..][..r];
    ConcatAssociates(c[..m - bs], e, c[m - bs..][..r]);
  }

  /** What decryption computes from the last two blocks and the block before them. */
  function CtsOpenTail(k: Cipher, prev: seq<byte>, e: seq<byte>, cn: seq<byte>): (t: seq<byte>)
    requires k.Valid() && |prev| == |e| == k.bs && |cn| <= k.bs
    ensures |t| == k.bs + |cn|
  {
    var d := k.dec(e);
    Xor(k.dec(cn + d[|cn|..]), prev) + Xor(d[..|cn|], cn)
  }

  function CtsOpen(k: Cipher, iv: seq<byte>, c: seq<byte>): (p: seq<byte>)
    requires k.Valid() && |iv| == k.bs && |c| > k.bs
    ensures |p| == |c|
  {
    var r := RestBytes(k.bs, |c|);
    var h := |c| - r - k.bs;
    WholeLess(k.bs, h + k.bs);
    CbcOpen(k, iv, c[..h]) + CtsOpenTail(k, LastBlock(k.bs, iv, c[..h]), c[h..h + k.bs], c[h + k.bs..])
  }

  /** Opening the tail of a stolen ciphertext gives the last full block and the short one. */
  lemma TailUndone(k: Cipher, prev: seq<byte>, pb: seq<byte>, last: seq<byte>)
    requires k.Valid() && |prev| == |pb| == k.bs && |last| <= k.bs
    ensures var x := k.enc(Xor(pb, prev));
            var t := CtsTail(k, x, last);
            CtsOpenTail(k, prev, t[..k.bs], t[k.bs..]) == pb + last
  {
    hide XorByte, Xor;
    var x, z, r := k.enc(Xor(pb, prev)), ZeroBytes(k.bs - |last|), |last|;
    var t := CtsTail(k, x, last);
    assert t[..k.bs] == k.enc(Xor(last + z, x)) && t[k.bs..] == x[..r];
    var d := k.dec(t[..k.bs]);
    assert d == Xor(last + z, x);
    assert x == x[..r] + x[r..];
    XorConcat(last, z, x[..r], x[r..]);
    assert d[..r] == Xor(last, x[..r]) && d[r..] == Xor(z, x[r..]);
    XorZero(x[r..]);
    XorCancels(last, x[..r]);
    assert x[..r] + d[r..] == x;
    assert k.dec(x) == Xor(pb, prev);
    XorCancels(pb, prev);
  }

  /** Ciphertext stealing round-trips from the same IV for every length above one block. */
  lemma CtsRoundTrip(k: Cipher, iv: seq<byte>, p: seq<byte>)
    requires k.Valid() && |iv| == k.bs && |p| > k.bs
    ensures CtsOpen(k, iv, CtsSeal(k, iv, p)) == p
  {
    hide CbcSeal, CbcOpen, CtsSeal, CtsTail, CtsOpenTail, Xor, RestBytes, LastBlock;
    var bs, r := k.bs, RestBytes(k.bs, |p|);
    var m := |p| - r;
    var h := m - bs;
    WholeLess(bs, m);
    CtsSealIs(k, iv, p);
    var c := CbcSeal(k, iv, p[..m]);
    var c', pb := CbcSeal(k, iv, p[..h]), p[h..m];
    assert p[..m] == p[..h] + pb;
    SealNext(k, iv, p[..h], pb);
    var prev := LastBlock(bs, iv, c');
    var x := k.enc(Xor(pb, prev));
    assert c[..h] == c' && c[h..] == x;
    var t := CtsTail(k, x, p[m..]);
    var s := CtsSeal(k, iv, p);
    assert s == c' + t;
    assert s[..h] == c' && s[h..h + bs] == t[..bs] && s[h + bs..] == t[bs..];
    CbcRoundTrip(k, iv, p[..h]);
    TailUndone(k, prev, pb, p[m..]);
    assert p == p[..h] + (pb + p[m..]);
  }

  // ---- what a call with ciphertext stealing leaves ----

  /** Lengths the calls accept. */
  predicate Accepted(bs: nat, n: nat) {
    bs > 0 && (n > bs || n % bs == 0)
  }

  /** Plain CBC up to one block, ciphertext stealing above. */
  function TextSeal(k: Cipher, iv: seq<byte>, p: seq<byte>): (c: seq<byte>)
    requires k.Valid() && |iv| == k.bs && Accepted(k.bs, |p|)
    ensures |c| == |p|
  {
    if |p| <= k.bs then CbcSeal(k, iv, p) else CtsSeal(k, iv, p)
  }

  function TextOpen(k: Cipher, iv: seq<byte>, c: seq<byte>): (p: seq<byte>)
    requires k.Valid() && |iv| == k.bs && Accepted(k.bs, |c|)
    ensures |p| == |c|
  {
    if |c| <= k.bs then CbcOpen(k, iv, c) else CtsOpen(k, iv, c)
  }

  /** The IV encryption leaves: the block enciphered last. */
  function SealIv(k: Cipher, iv: seq<byte>, p: seq<byte>): (r: seq<byte>)
    requires k.Valid() && |iv| == k.bs && Accepted(k.bs, |p|)
    ensures |r| == k.bs
  {
    if |p| <= k.bs then LastBlock(k.bs, iv, CbcSeal(k, iv, p))
    else
      var h := |p| - RestBytes(k.bs, |p|) - k.bs;
      CtsSeal(k, iv, p)[h..h + k.bs]
  }

  /** The IV decryption leaves: the block that was stolen from. */
  function OpenIv(k: Cipher, iv: seq<byte>, c: seq<byte>): (r: seq<byte>)
    requires k.Valid() && |iv| == k.bs && Accepted(k.bs, |c|)
    ensures |r| == k.bs
  {
    if |c| <= k.bs then LastBlock(k.bs, iv, c)
    else
      var r := RestBytes(k.bs, |c|);
      var h := |c| - r - k.bs;
      c[h + k.bs..] + k.dec(c[h..h + k.bs])[r..]
  }

  /** The IVs of the two directions above one block, and when they are equal. */
  lemma CtsIvs(k: Cipher, iv: seq<byte>, p: seq<byte>)
    requires k.Valid() && |iv| == k.bs && |p| > k.bs
    ensures var r := RestBytes(k.bs, |p|);
            var h := |p| - r - k.bs;
            var x := CbcSeal(k, iv, p[..h + k.bs])[h..];
            && OpenIv(k, iv, TextSeal(k, iv, p)) == x
            && SealIv(k, iv, p) == k.enc(Xor(p[h + k.bs..] + ZeroBytes(k.bs - r), x))
            && (SealIv(k, iv, p) == OpenIv(k, iv, TextSeal(k, iv, p)) <==>
                  k.enc(Xor(p[h + k.bs..] + ZeroBytes(k.bs - r), x)) == x)
  {
    hide Xor, CbcSeal, RestBytes, CtsSeal, CtsTail;
    var bs, r := k.bs, RestBytes(k.bs, |p|);
    var h := |p| - r - bs;
    var c, last := CbcSeal(k, iv, p[..h + bs]), p[h + bs..];
    var x := c[h..];
    CtsSealIs(k, iv, p);
    TailHas(k, c[..h], x, last, CtsSeal(k, iv, p));
  }

  /** The last two blocks of a stolen ciphertext, and what is deciphered from them. */
  lemma TailHas(k: Cipher, head: seq<byte>, x: seq<byte>, last: seq<byte>, s: seq<byte>)
    requires k.Valid() && |x| == k.bs && |last| <= k.bs && s == head + CtsTail(k, x, last)
    ensures var h, e := |head|, k.enc(Xor(last + ZeroBytes(k.bs - |last|), x));
            && s[h..h + k.bs] == e && s[h + k.bs..] + k.dec(e)[|last|..] == x
  {
    hide Xor;
    var e := k.enc(Xor(last + ZeroBytes(k.bs - |last|), x));
    TailIs(head, CtsTail(k, x, last), k.bs);
    assert s[|head| + k.bs..] == x[..|last|];
    TailMask(last, ZeroBytes(k.bs - |last|), x, |last|);
  }

  lemma TailMask(last: seq<byte>, z: seq<byte>, x: seq<byte>, r: nat)
    requires |last| == r <= |x| && z == ZeroBytes(|x| - r)
    ensures x[..r] + Xor(last + z, x)[r..] == x
  {
    hide XorByte, Xor;
    assert x == x[..r] + x[r..];
    XorConcat(last, z, x[..r], x[r..]);
    XorZero(x[r..]);
    assert Xor(last + z, x)[r..] == Xor(z, x[r..]);
  }

  // ---- the code ----

  lemma BlockAfter(bs: nat, i: nat, n: nat)
    requires i < n
    ensures bs * (i + 1) == bs * i + bs <= bs * n
  {
    MulMono(bs, i, n);
  }

  lemma TwoBlocks(bs: nat, n: nat)
    ensures n > 0 ==> bs * n >= bs
  {
    if n > 0 {
      MulMono(bs, 0, n);
    }
  }

  lemma WholeTimes(bs: nat, i: nat)
    requires bs > 0
    ensures bs * i % bs == 0
  {
    DivModUnique(bs * i, bs, i, 0);
  }

  /** The next block of input is not the one that was written over. */
  lemma MacInput(outbuf: array<byte>, out0: seq<byte>, op: nat, inbuf: array<byte>, in0: seq<byte>, ip: nat, input: seq<byte>,
                 n: nat, done: nat, bs: nat, ivp: seq<byte>)
    requires |ivp| == bs && op + bs <= |out0| == outbuf.Length && |in0| == inbuf.Length && ip + |input| <= |in0|
    requires input == in0[ip..ip + |input|] && done + bs <= |input| && (n > 0 ==> done >= bs)
    requires outbuf[..] == if n == 0 then out0 else Splice(out0, op, ivp)
    requires if outbuf == inbuf then op == ip && in0 == out0 else inbuf[..] == in0
    ensures inbuf[ip + done..ip + done + bs] == input[done..done + bs]
  {
    hide Splice;
    if n > 0 {
      SpliceSlices(out0, op, ivp);
    }
    assert inbuf[ip + done..ip + done + bs] == inbuf[..][ip + done..ip + done + bs];
    SliceOfSlice(in0, ip, ip + |input|, done, done + bs);
  }

  lemma LastIs(bs: nat, iv: seq<byte>, c: seq<byte>, b: seq<byte>)
    requires |iv| == |b| == bs
    ensures LastBlock(bs, iv, c + b) == b
  {
  }

  class State {
    const cipher: Cipher
    const isMac: bool          // GCRY_CIPHER_CBC_MAC
    var iv: seq<byte>
    var lastiv: seq<byte>

    ghost predicate Valid()
      reads this
    {
      cipher.Valid() && cipher.bs in {8, 16} && |iv| == |lastiv| == cipher.bs
    }

    constructor (cipher: Cipher, isMac: bool, iv: seq<byte>)
      requires cipher.Valid() && cipher.bs in {8, 16} && |iv| == cipher.bs
      ensures Valid() && this.iv == iv && this.cipher == cipher && this.isMac == isMac
    {
      this.cipher, this.isMac, this.iv, lastiv := cipher, isMac, iv, ZeroBytes(cipher.bs);
    }

    /** cbc_encrypt_inner: whole blocks from the front of a call. */
    method EncryptInner(outbuf: array<byte>, ghost out0: seq<byte>, op: nat, inbuf: array<byte>, ghost in0: seq<byte>, ip: nat,
                        ghost total: nat, nblocks: nat) returns (ghost c: seq<byte>)
      requires Valid() && cipher.bs * nblocks <= total && Progress(outbuf, out0, op, inbuf, in0, ip, total, [])
      modifies this`iv, outbuf
      ensures Valid() && |c| == cipher.bs * nblocks && |c| % cipher.bs == 0 && Progress(outbuf, out0, op, inbuf, in0, ip, total, c)
      ensures c == CbcSeal(cipher, old(iv), in0[ip..ip + total][..|c|]) && iv == LastBlock(cipher.bs, old(iv), c)
    {
      hide Xor, Progress, LastBlock;
      ghost var iv0, input := iv, in0[ip..ip + total];
      var bs := cipher.bs;
      var ivp := iv;
      c := [];
      NoBlocks(cipher, iv0);
      assert input[..0] == [];
      var n, done := 0, 0;
      while n < nblocks
        invariant 0 <= n <= nblocks && done == bs * n == |c| && done <= total && done % bs == 0
        invariant Progress(outbuf, out0, op, inbuf, in0, ip, total, c)
        invariant c == CbcSeal(cipher, iv0, input[..done]) && ivp == LastBlock(bs, iv0, c)
        modifies outbuf
      {
        BlockAfter(bs, n, nblocks);
        NextInput(outbuf, out0, op, inbuf, in0, ip, total, c, bs);
        var x := inbuf[ip + done..ip + done + bs];
        PrefixGrows(input, done, done + bs, x);
        SealNext(cipher, iv0, input[..done], x);
        var b := cipher.enc(Xor(x, ivp));
        PutMore(outbuf, out0, op, inbuf, in0, ip, total, c, op + done, b);
        LastIs(bs, iv0, c, b);
        ivp := b;
        c := c + b;
        done := done + bs;
        n := n + 1;
        WholeTimes(bs, n);
      }
      iv := ivp;
    }

    /** cbc_encrypt_inner when only a MAC is wanted: the output position does not move. */
    method MacInner(outbuf: array<byte>, op: nat, inbuf: array<byte>, ip: nat, nblocks: nat, ghost input: seq<byte>)
      requires Valid() && |input| == cipher.bs * nblocks && op + cipher.bs <= outbuf.Length && ip + |input| <= inbuf.Length
      requires Separate(outbuf, op, inbuf, ip) && input == inbuf[ip..ip + |input|]
      modifies this`iv, outbuf
      ensures Valid() && |input| % cipher.bs == 0 && iv == LastBlock(cipher.bs, old(iv), CbcSeal(cipher, old(iv), input))
      ensures outbuf[..] == if nblocks == 0 then old(outbuf[..]) else Splice(old(outbuf[..]), op, iv)
    {
      hide Xor, LastBlock, Splice;
      ghost var iv0, out0, in0 := iv, outbuf[..], inbuf[..];
      ghost var c: seq<byte> := [];
      var bs := cipher.bs;
      var ivp := iv;
      NoBlocks(cipher, iv0);
      assert input[..0] == [] && input == in0[ip..ip + |input|];
      var n, done := 0, 0;
      while n < nblocks
        invariant 0 <= n <= nblocks && done == bs * n == |c| && done <= |input| && done % bs == 0 && |ivp| == bs
        invariant outbuf[..] == if n == 0 then out0 else Splice(out0, op, ivp)
        invariant outbuf != inbuf ==> inbuf[..] == in0
        invariant c == CbcSeal(cipher, iv0, input[..done]) && ivp == LastBlock(bs, iv0, c)
        modifies outbuf
      {
        BlockAfter(bs, n, nblocks);
        TwoBlocks(bs, n);
        MacInput(outbuf, out0, op, inbuf, in0, ip, input, n, done, bs, ivp);
        var x := inbuf[ip + done..ip + done + bs];
        PrefixGrows(input, done, done + bs, x);
        SealNext(cipher, iv0, input[..done], x);
        var b := cipher.enc(Xor(x, ivp));
        Put(outbuf, op, b);
        if n > 0 {
          SpliceAgain(out0, op, ivp, b);
        }
        LastIs(bs, iv0, c, b);
        ivp := b;
        c := c + b;
        done := done + bs;
        n := n + 1;
        WholeTimes(bs, n);
      }
      WholeTimes(bs, nblocks);
      assert input[..done] == input;
      iv := ivp;
    }

    /** _gcry_cipher_cbc_encrypt */
    method Encrypt(outbuf: array<byte>, op: nat, outbuflen: nat, inbuf: array<byte>, ip: nat, inbuflen: nat) returns (st: Status)
      requires Valid() && op + outbuflen <= outbuf.Length && ip + inbuflen <= inbuf.Length && Separate(outbuf, op, inbuf, ip)
      modifies this`iv, outbuf
      ensures Valid() && st == if outbuflen < (if isMac then cipher.bs else inbuflen) then BufferTooShort
                              else if inbuflen % cipher.bs != 0 then InvLength else Ok
      ensures st != Ok ==> unchanged(this) && outbuf[..] == old(outbuf[..])
      ensures st == Ok ==>
        var c := CbcSeal(cipher, old(iv), old(inbuf[ip..ip + inbuflen]));
        iv == LastBlock(cipher.bs, old(iv), c)
        && outbuf[..] == if !isMac then Splice(old(outbuf[..]), op, c)
                         else if inbuflen == 0 then old(outbuf[..]) else Splice(old(outbuf[..]), op, iv)
    {
      hide Splice, LastBlock, CbcSeal;
      var nblocks := inbuflen / cipher.bs;
      if outbuflen < (if isMac then cipher.bs else inbuflen) {
        return BufferTooShort;
      }
      if inbuflen % cipher.bs != 0 {
        return InvLength;
      }
      DivMod(inbuflen, cipher.bs);
      ghost var input := inbuf[ip..ip + inbuflen];
      if isMac {
        MacInner(outbuf, op, inbuf, ip, nblocks, input);
      } else {
        ghost var out0, in0 := outbuf[..], inbuf[..];
        SpliceNothing(out0, op);
        assert in0[ip..ip + inbuflen] == input && input[..inbuflen] == input;
        ghost var c := EncryptInner(outbuf, out0, op, inbuf, in0, ip, inbuflen, nblocks);
      }
      return Ok;
    }

    /** cbc_decrypt_inner: lastiv holds the deciphered block while the input may be overwritten. */
    method DecryptInner(outbuf: array<byte>, ghost out0: seq<byte>, op: nat, inbuf: array<byte>, ghost in0: seq<byte>, ip: nat,
                        ghost total: nat, nblocks: nat) returns (ghost p: seq<byte>)
      requires Valid() && cipher.bs * nblocks <= total && Progress(outbuf, out0, op, inbuf, in0, ip, total, [])
      modifies this`iv, this`lastiv, outbuf
      ensures Valid() && |p| == cipher.bs * nblocks && |p| % cipher.bs == 0 && Progress(outbuf, out0, op, inbuf, in0, ip, total, p)
      ensures p == CbcOpen(cipher, old(iv), in0[ip..ip + total][..|p|])
      ensures iv == LastBlock(cipher.bs, old(iv), in0[ip..ip + total][..|p|])
    {
      hide Xor, Progress, LastBlock;
      ghost var iv0, input := iv, in0[ip..ip + total];
      var bs := cipher.bs;
      p := [];
      NoBlocks(cipher, iv0);
      assert input[..0] == [];
      var n, done := 0, 0;
      while n < nblocks
        invariant 0 <= n <= nblocks && done == bs * n == |p| && done <= total && done % bs == 0
        invariant Valid() && Progress(outbuf, out0, op, inbuf, in0, ip, total, p)
        invariant p == CbcOpen(cipher, iv0, input[..done]) && iv == LastBlock(bs, iv0, input[..done])
        modifies this`iv, this`lastiv, outbuf
      {
        BlockAfter(bs, n, nblocks);
        NextInput(outbuf, out0, op, inbuf, in0, ip, total, p, bs);
        lastiv := cipher.dec(inbuf[ip + done..ip + done + bs]);
        var x := inbuf[ip + done..ip + done + bs];
        PrefixGrows(input, done, done + bs, x);
        SealNext(cipher, iv0, input[..done], x);
        var b := Xor(lastiv, iv);
        PutMore(outbuf, out0, op, inbuf, in0, ip, total, p, op + done, b);
        LastIs(bs, iv0, input[..done], x);
        iv := x;
        p := p + b;
        done := done + bs;
        n := n + 1;
        WholeTimes(bs, n);
      }
    }

    /** _gcry_cipher_cbc_decrypt */
    method Decrypt(outbuf: array<byte>, op: nat, outbuflen: nat, inbuf: array<byte>, ip: nat, inbuflen: nat) returns (st: Status)
      requires Valid() && op + outbuflen <= outbuf.Length && ip + inbuflen <= inbuf.Length && Separate(outbuf, op, inbuf, ip)
      modifies this`iv, this`lastiv, outbuf
      ensures Valid() && st == if outbuflen < inbuflen then BufferTooShort else if inbuflen % cipher.bs != 0 then InvLength else Ok
      ensures st != Ok ==> unchanged(this) && outbuf[..] == old(outbuf[..])
      ensures st == Ok ==>
        var c := old(inbuf[ip..ip + inbuflen]);
        iv == LastBlock(cipher.bs, old(iv), c) && outbuf[..] == Splice(old(outbuf[..]), op, CbcOpen(cipher, old(iv), c))
    {
      hide Splice, LastBlock, CbcOpen;
      if outbuflen < inbuflen {
        return BufferTooShort;
      }
      if inbuflen % cipher.bs != 0 {
        return InvLength;
      }
      DivMod(inbuflen, cipher.bs);
      ghost var out0, in0 := outbuf[..], inbuf[..];
      SpliceNothing(out0, op);
      assert in0[ip..ip + inbuflen] == inbuf[ip..ip + inbuflen] && in0[ip..ip + inbuflen][..inbuflen] == in0[ip..ip + inbuflen];
      ghost var p := DecryptInner(outbuf, out0, op, inbuf, in0, ip, inbuflen, inbuflen / cipher.bs);
      return Ok;
    }

    /** The last full ciphertext block at o is moved up while the data takes its place: what is written
        is the input xored with the IV, then the start of the moved block. */
    method Steal(outbuf: array<byte>, o: nat, inbuf: array<byte>, ip: nat, restbytes: nat)
      requires Valid() && 0 < restbytes <= cipher.bs && o + cipher.bs + restbytes <= outbuf.Length && ip + restbytes <= inbuf.Length
      requires outbuf == inbuf ==> ip == o + cipher.bs
      modifies outbuf
      ensures var x, last := old(outbuf[o..o + cipher.bs]), old(inbuf[ip..ip + restbytes]);
              outbuf[..] == Splice(old(outbuf[..]), o, Xor(last + ZeroBytes(cipher.bs - restbytes), iv) + x[..restbytes])
    {
      hide Stolen, XorByte, Xor;
      var bs := cipher.bs;
      ghost var s, last := outbuf[..], inbuf[ip..ip + restbytes];
      ghost var y := Xor(last + ZeroBytes(bs - restbytes), iv);
      XorAt(last, iv);
      StolenEnds(s, o, bs, y, restbytes);
      var i := 0;
      while i < restbytes
        invariant 0 <= i <= restbytes && outbuf[..] == Stolen(s, o, bs, y, i, i)
        invariant outbuf != inbuf ==> inbuf[ip..ip + restbytes] == last
      {
        StolenStep(s, o, bs, y, i, i);
        StolenBoth(s, o, bs, y, i);
        assert inbuf[ip + i] == inbuf[..][ip + i] == last[i];
        var b := inbuf[ip + i];
        outbuf[o + bs + i] := outbuf[o + i];
        outbuf[o + i] := XorByte(b, iv[i]);
        i := i + 1;
      }
      while i < bs
        invariant restbytes <= i <= bs && outbuf[..] == Stolen(s, o, bs, y, i, restbytes)
      {
        StolenStep(s, o, bs, y, i, restbytes);
        outbuf[o + i] := XorByte(0, iv[i]);
        i := i + 1;
      }
    }

    /** _gcry_cipher_cbc_cts_encrypt */
    method CtsEncrypt(outbuf: array<byte>, op: nat, outbuflen: nat, inbuf: array<byte>, ip: nat, inbuflen: nat) returns (st: Status)
      requires Valid() && op + outbuflen <= outbuf.Length && ip + inbuflen <= inbuf.Length && Separate(outbuf, op, inbuf, ip)
      modifies this`iv, outbuf
      ensures Valid() && st == CtsStatus(cipher.bs, outbuflen, inbuflen)
      ensures st != Ok ==> unchanged(this) && outbuf[..] == old(outbuf[..])
      ensures st == Ok ==> Sealed(old(iv), old(inbuf[ip..ip + inbuflen]), old(outbuf[..]), op, outbuf[..])
    {
      hide Splice, LastBlock, CbcSeal, CtsTail, CtsSeal, Xor;
      var bs := cipher.bs;
      var nblocks := inbuflen / bs;
      if outbuflen < inbuflen {
        return BufferTooShort;
      }
      if inbuflen % bs != 0 && !(inbuflen > bs) {
        return InvLength;
      }
      DivMod(inbuflen, bs);
      Blocks(bs, inbuflen);
      if inbuflen > bs && inbuflen % bs == 0 {
        nblocks := nblocks - 1;
      }
      ghost var out0, in0, iv0 := outbuf[..], inbuf[..], iv;
      ghost var input := in0[ip..ip + inbuflen];
      SpliceNothing(out0, op);
      assert input == inbuf[ip..ip + inbuflen] && input[..inbuflen] == input;
      ghost var c := EncryptInner(outbuf, out0, op, inbuf, in0, ip, inbuflen, nblocks);
      if inbuflen > bs {
        EncryptTail(outbuf, out0, op, inbuf, in0, ip, inbuflen, nblocks, c, iv0);
      }
      return Ok;
    }

    /** The part of CtsEncrypt after the whole blocks. */
    method EncryptTail(outbuf: array<byte>, ghost out0: seq<byte>, op: nat, inbuf: array<byte>, ghost in0: seq<byte>, ip: nat,
                       inbuflen: nat, nblocks: nat, ghost c: seq<byte>, ghost iv0: seq<byte>)
      requires Valid() && Progress(outbuf, out0, op, inbuf, in0, ip, inbuflen, c) && inbuflen > cipher.bs && |iv0| == cipher.bs
      requires |c| == cipher.bs * nblocks == inbuflen - RestBytes(cipher.bs, inbuflen)
      requires c == CbcSeal(cipher, iv0, in0[ip..ip + inbuflen][..|c|]) && iv == LastBlock(cipher.bs, iv0, c)
      modifies this`iv, outbuf
      ensures Valid() && Sealed(iv0, in0[ip..ip + inbuflen], out0, op, outbuf[..])
    {
      hide Splice, LastBlock, CbcSeal, CtsTail, CtsSeal, Xor, Progress;
      var bs := cipher.bs;
      var restbytes := if inbuflen % bs == 0 then bs else inbuflen % bs;
      ghost var x, input := iv, in0[ip..ip + inbuflen];
      var m := bs * nblocks;
      var o := op + m - bs;
      NextInput(outbuf, out0, op, inbuf, in0, ip, inbuflen, c, restbytes);
      ProgressIs(outbuf, out0, op, inbuf, in0, ip, inbuflen, c);
      assert input[m..m + restbytes] == input[m..];
      LastOf(bs, iv0, c);
      Inside(out0, op, c, m - bs, m);
      assert outbuf[o..o + bs] == outbuf[..][o..o + bs] && c[m - bs..m] == c[m - bs..];
      Steal(outbuf, o, inbuf, ip + m, restbytes);
      StealTail(outbuf, o, Splice(out0, op, c), input[m..], x);
      CtsSealIs(cipher, iv0, input);
      SpliceOver(out0, op, c, m - bs, CtsTail(cipher, x, input[m..]));
      TailIs(c[..m - bs], CtsTail(cipher, x, input[m..]), bs);
    }

    /** The stolen block is enciphered where it stands. */
    method StealTail(outbuf: array<byte>, o: nat, ghost s: seq<byte>, ghost last: seq<byte>, ghost x: seq<byte>)
      requires Valid() && 0 < |last| <= cipher.bs && |x| == cipher.bs && o + cipher.bs + |last| <= |s| == outbuf.Length
      requires outbuf[..] == Splice(s, o, Xor(last + ZeroBytes(cipher.bs - |last|), x) + x[..|last|])
      modifies this`iv, outbuf
      ensures Valid() && outbuf[..] == Splice(s, o, CtsTail(cipher, x, last)) && iv == CtsTail(cipher, x, last)[..cipher.bs]
    {
      hide Splice, Xor;
      ghost var y := Xor(last + ZeroBytes(cipher.bs - |last|), x);
      Inside(s, o, y + x[..|last|], 0, cipher.bs);
      assert (y + x[..|last|])[0..cipher.bs] == y;
      assert outbuf[o..o + cipher.bs] == outbuf[..][o + 0..o + cipher.bs];
      var e := cipher.enc(outbuf[o..o + cipher.bs]);
      Put(outbuf, o, e);
      SpliceFront(s, o, y, x[..|last|], e);
      iv := e;
    }

    /** What a successful encryption leaves. */
    ghost predicate Sealed(iv0: seq<byte>, p: seq<byte>, before: seq<byte>, op: nat, now: seq<byte>)
      requires cipher.Valid()
      reads this`iv
    {
      && |iv0| == cipher.bs && op + |p| <= |before| && Accepted(cipher.bs, |p|)
      && now == Splice(before, op, TextSeal(cipher, iv0, p)) && iv == SealIv(cipher, iv0, p)
    }

    /** _gcry_cipher_cbc_cts_decrypt.  The IV it leaves is not the one encryption leaves. */
    method CtsDecrypt(outbuf: array<byte>, op: nat, outbuflen: nat, inbuf: array<byte>, ip: nat, inbuflen: nat) returns (st: Status)
      requires Valid() && op + outbuflen <= outbuf.Length && ip + inbuflen <= inbuf.Length && Separate(outbuf, op, inbuf, ip)
      modifies this`iv, this`lastiv, outbuf
      ensures Valid() && st == CtsStatus(cipher.bs, outbuflen, inbuflen)
      ensures st != Ok ==> unchanged(this) && outbuf[..] == old(outbuf[..])
      ensures st == Ok ==> Opened(old(iv), old(inbuf[ip..ip + inbuflen]), old(outbuf[..]), op, outbuf[..])
    {
      hide Splice, LastBlock, CbcOpen, CtsOpenTail, Xor;
      var bs := cipher.bs;
      var nblocks := inbuflen / bs;
      if outbuflen < inbuflen {
        return BufferTooShort;
      }
      if inbuflen % bs != 0 && !(inbuflen > bs) {
        return InvLength;
      }
      DivMod(inbuflen, bs);
      Blocks(bs, inbuflen);
      if inbuflen > bs {
        nblocks := nblocks - 1;
        if inbuflen % bs == 0 {
          nblocks := nblocks - 1;
        }
        lastiv := iv;
      }
      ghost var out0, in0, iv0 := outbuf[..], inbuf[..], iv;
      ghost var input := in0[ip..ip + inbuflen];
      SpliceNothing(out0, op);
      assert input == inbuf[ip..ip + inbuflen] && input[..inbuflen] == input;
      ghost var p := DecryptInner(outbuf, out0, op, inbuf, in0, ip, inbuflen, nblocks);
      if inbuflen > bs {
        DecryptRest(outbuf, out0, op, inbuf, in0, ip, inbuflen, nblocks, p, iv0);
      }
      return Ok;
    }

    /** The part of CtsDecrypt after the whole blocks. */
    method DecryptRest(outbuf: array<byte>, ghost out0: seq<byte>, op: nat, inbuf: array<byte>, ghost in0: seq<byte>, ip: nat,
                       inbuflen: nat, nblocks: nat, ghost p: seq<byte>, ghost iv0: seq<byte>)
      requires Valid() && Progress(outbuf, out0, op, inbuf, in0, ip, inbuflen, p) && inbuflen > cipher.bs && |iv0| == cipher.bs
      requires |p| == cipher.bs * nblocks == inbuflen - RestBytes(cipher.bs, inbuflen) - cipher.bs && |p| % cipher.bs == 0
      requires p == CbcOpen(cipher, iv0, in0[ip..ip + inbuflen][..|p|]) && iv == LastBlock(cipher.bs, iv0, in0[ip..ip + inbuflen][..|p|])
      modifies this`iv, this`lastiv, outbuf
      ensures Valid() && Opened(iv0, in0[ip..ip + inbuflen], out0, op, outbuf[..])
    {
      hide Splice, LastBlock, CbcOpen, CtsOpenTail, Xor, Progress, CtsOpen, RestBytes, Opened;
      RestIs(cipher.bs, inbuflen);
      var bs := cipher.bs;
      var restbytes := if inbuflen % bs == 0 then bs else inbuflen % bs;
      var h := bs * nblocks;
      ghost var input := in0[ip..ip + inbuflen];
      CtsInput(outbuf, out0, op, inbuf, in0, ip, inbuflen, p, bs, restbytes);
      ghost var tail := CtsOpenTail(cipher, iv, input[h..h + bs], input[h + bs..]);
      CtsOpenIs(cipher, iv0, input, h);
      DecryptTail(outbuf, op + h, inbuf, ip + h, restbytes);
      SpliceMore(out0, op, p, tail);
      OpenedLong(iv0, input, out0, op, outbuf[..], restbytes, h);
    }

    lemma OpenedLong(iv0: seq<byte>, c: seq<byte>, before: seq<byte>, op: nat, now: seq<byte>, r: nat, h: nat)
      requires Valid() && |iv0| == cipher.bs < |c| && op + |c| <= |before| && r == RestBytes(cipher.bs, |c|) && h == |c| - r - cipher.bs
      requires now == Splice(before, op, CtsOpen(cipher, iv0, c)) && iv == c[h + cipher.bs..] + cipher.dec(c[h..h + cipher.bs])[r..]
      ensures Opened(iv0, c, before, op, now)
    {
      hide Splice, CtsOpen, RestBytes;
    }

    /** The last two blocks, the short one first saved in the IV. */
    method DecryptTail(outbuf: array<byte>, o: nat, inbuf: array<byte>, i: nat, restbytes: nat)
      requires Valid() && 0 < restbytes <= cipher.bs && Separate(outbuf, o, inbuf, i)
      requires o + cipher.bs + restbytes <= outbuf.Length && i + cipher.bs + restbytes <= inbuf.Length
      modifies this`iv, this`lastiv, outbuf
      ensures Valid()
      ensures var e, cn := old(inbuf[i..i + cipher.bs]), old(inbuf[i + cipher.bs..i + cipher.bs + restbytes]);
              outbuf[..] == Splice(old(outbuf[..]), o, CtsOpenTail(cipher, old(iv), e, cn)) && iv == cn + cipher.dec(e)[restbytes..]
    {
      hide Splice, Xor;
      var bs := cipher.bs;
      ghost var s, cn := outbuf[..], inbuf[i + bs..i + bs + restbytes];
      lastiv := iv;
      iv := inbuf[i + bs..i + bs + restbytes] + iv[restbytes..];
      var d := cipher.dec(inbuf[i..i + bs]);
      Put(outbuf, o, d);
      Inside(s, o, d, 0, restbytes);
      assert outbuf[o..o + restbytes] == outbuf[..][o + 0..o + restbytes] == d[0..restbytes] == d[..restbytes];
      assert iv[..restbytes] == cn;
      ghost var pn := Xor(d[..restbytes], cn);
      Put(outbuf, o, Xor(outbuf[o..o + restbytes], iv[..restbytes]));
      OverFront(s, o, d, pn);
      Inside(s, o, pn + d[restbytes..], 0, restbytes);
      assert outbuf[o..o + restbytes] == outbuf[..][o + 0..o + restbytes] == pn;
      Put(outbuf, o + bs, outbuf[o..o + restbytes]);
      SpliceMore(s, o, pn + d[restbytes..], pn);
      Inside(s, o, pn + d[restbytes..] + pn, restbytes, bs);
      assert outbuf[o + restbytes..o + bs] == outbuf[..][o + restbytes..o + bs] == d[restbytes..];
      iv := iv[..restbytes] + outbuf[o + restbytes..o + bs];
      var x := cipher.dec(iv);
      x := Xor(x, lastiv);
      Put(outbuf, o, x);
      SpliceFront(s, o, pn + d[restbytes..], pn, x);
    }

    /** What a successful decryption leaves. */
    ghost predicate Opened(iv0: seq<byte>, c: seq<byte>, before: seq<byte>, op: nat, now: seq<byte>)
      requires cipher.Valid()
      reads this`iv
    {
      && |iv0| == cipher.bs && op + |c| <= |before| && Accepted(cipher.bs, |c|)
      && now == Splice(before, op, TextOpen(cipher, iv0, c)) && iv == OpenIv(cipher, iv0, c)
    }
  }

  lemma ProgressIs(outbuf: array<byte>, out0: seq<byte>, op: nat, inbuf: array<byte>, in0: seq<byte>, ip: nat, total: nat, out: seq<byte>)
    requires Progress(outbuf, out0, op, inbuf, in0, ip, total, out)
    ensures op + total <= outbuf.Length == |out0| && ip + total <= inbuf.Length && Separate(outbuf, op, inbuf, ip)
    ensures outbuf[..] == Splice(out0, op, out)
  {
  }

  /** The two last blocks of the input are still there. */
  lemma CtsInput(outbuf: array<byte>, out0: seq<byte>, op: nat, inbuf: array<byte>, in0: seq<byte>, ip: nat, total: nat, p: seq<byte>,
                 bs: nat, r: nat)
    requires Progress(outbuf, out0, op, inbuf, in0, ip, total, p) && |p| + bs + r == total
    ensures var h, input := |p|, in0[ip..ip + total];
            input[h..h + bs] == inbuf[ip + h..ip + h + bs] && input[h + bs..] == inbuf[ip + h + bs..ip + h + bs + r]
    ensures op + total <= outbuf.Length == |out0| && ip + total <= inbuf.Length && Separate(outbuf, op, inbuf, ip)
    ensures outbuf[..] == Splice(out0, op, p)
  {
    LaterInput(outbuf, out0, op, inbuf, in0, ip, total, p, |p|, bs);
    LaterInput(outbuf, out0, op, inbuf, in0, ip, total, p, |p| + bs, r);
    var input := in0[ip..ip + total];
    assert input[|p| + bs..|p| + bs + r] == input[|p| + bs..];
  }

  lemma RestIs(bs: nat, n: nat)
    requires bs > 0 && n > bs
    ensures RestBytes(bs, n) == if n % bs == 0 then bs else n % bs
  {
  }

  lemma CtsOpenIs(k: Cipher, iv: seq<byte>, c: seq<byte>, h: nat)
    requires k.Valid() && |iv| == k.bs && |c| > k.bs && h == |c| - RestBytes(k.bs, |c|) - k.bs
    ensures h % k.bs == 0
    ensures CtsOpen(k, iv, c)
         == CbcOpen(k, iv, c[..h]) + CtsOpenTail(k, LastBlock(k.bs, iv, c[..h]), c[h..h + k.bs], c[h + k.bs..])
  {
    hide RestBytes, CbcOpen, CtsOpenTail, LastBlock;
    WholeLess(k.bs, h + k.bs);
  }

  lemma TailIs(c: seq<byte>, t: seq<byte>, bs: nat)
    requires |t| >= bs
    ensures (c + t)[|c|..|c| + bs] == t[..bs]
  {
  }

  function CtsStatus(bs: nat, outbuflen: nat, inbuflen: nat): Status
    requires bs > 0
  {
    if outbuflen < inbuflen then BufferTooShort
    else if inbuflen % bs != 0 && inbuflen <= bs then InvLength
    else Ok
  }

  /** How many whole blocks there are, and how many before the last one or two. */
  lemma Blocks(bs: nat, n: nat)
    requires bs > 0
    ensures n <= bs && n % bs == 0 ==> bs * (n / bs) == n
    ensures n > bs && n % bs != 0 ==> n / bs >= 1 && bs * (n / bs) == n - n % bs && bs * (n / bs - 1) == n - n % bs - bs
    ensures n > bs && n % bs == 0 ==> n / bs >= 2 && bs * (n / bs - 1) == n - bs && bs * (n / bs - 2) == n - bs - bs
  {
    DivMod(n, bs);
    var q := n / bs;
    assert bs * (q - 1) == bs * q - bs;
    assert bs * (q - 2) == bs * q - bs - bs;
    if n > bs {
      if q == 0 {
        assert false;
      }
      if n % bs == 0 && q == 1 {
        assert false;
      }
    }
  }

  lemma LastOf(bs: nat, iv: seq<byte>, c: seq<byte>)
    requires |iv| == bs && |c| >= bs
    ensures LastBlock(bs, iv, c) == c[|c| - bs..]
  {
  }

  lemma Inside(s: seq<byte>, at: nat, w: seq<byte>, p: nat, q: nat)
    requires at + |w| <= |s| && p <= q <= |w|
    ensures Splice(s, at, w)[at + p..at + q] == w[p..q]
  {
    SpliceSlices(s, at, w);
    SliceOfSlice(Splice(s, at, w), at, at + |w|, p, q);
  }

  /** Writing from the middle of a part on. */
  lemma SpliceOver(s: seq<byte>, at: nat, c: seq<byte>, i: nat, t: seq<byte>)
    requires at + |c| <= |s| && i <= |c| <= i + |t| && at + i + |t| <= |s|
    ensures Splice(Splice(s, at, c), at + i, t) == Splice(s, at, c[..i] + t)
  {
    var r := Splice(s, at, c);
    assert r[..at + i] == s[..at] + c[..i];
    assert r[at + i + |t|..] == s[at + i + |t|..];
    ConcatAssociates(s[..at], c[..i], t);
  }

  /** Writing over the first of two parts. */
  lemma SpliceFront(s: seq<byte>, at: nat, y: seq<byte>, z: seq<byte>, e: seq<byte>)
    requires at + |y| + |z| <= |s| && |e| == |y|
    ensures Splice(Splice(s, at, y + z), at, e) == Splice(s, at, e + z)
  {
    var r := Splice(s, at, y + z);
    assert r[..at] == s[..at] && r[at + |e|..] == z + s[at + |y| + |z|..];
    ConcatAssociates(s[..at], e, z);
    ConcatAssociates(s[..at] + e, z, s[at + |y| + |z|..]);
  }

  lemma OverFront(s: seq<byte>, at: nat, d: seq<byte>, e: seq<byte>)
    requires at + |d| <= |s| && |e| <= |d|
    ensures Splice(Splice(s, at, d), at, e) == Splice(s, at, e + d[|e|..])
  {
    assert d == d[..|e|] + d[|e|..];
    SpliceFront(s, at, d[..|e|], d[|e|..], e);
  }

  lemma XorAt(last: seq<byte>, iv: seq<byte>)
    requires |last| <= |iv|
    ensures var y := Xor(last + ZeroBytes(|iv| - |last|), iv);
            forall i :: 0 <= i < |iv| ==> y[i] == XorByte(if i < |last| then last[i] else 0, iv[i])
  {
  }

  /** The buffer while the block at o is being moved: i octets of y written, j octets moved. */
  function Stolen(s: seq<byte>, o: nat, bs: nat, y: seq<byte>, i: nat, j: nat): (r: seq<byte>)
    requires j <= i <= bs == |y| && o + bs + j <= |s|
    ensures |r| == |s|
  {
    s[..o] + y[..i] + s[o + i..o + bs] + s[o..o + j] + s[o + bs + j..]
  }

  lemma StolenAt(s: seq<byte>, o: nat, bs: nat, y: seq<byte>, i: nat, j: nat, k: nat)
    requires j <= i <= bs == |y| && o + bs + j <= |s| && k < |s|
    ensures Stolen(s, o, bs, y, i, j)[k]
         == if o <= k < o + i then y[k - o] else if o + bs <= k < o + bs + j then s[k - bs] else s[k]
  {
  }

  /** One octet is written; the input is still ahead. */
  lemma StolenStep(s: seq<byte>, o: nat, bs: nat, y: seq<byte>, i: nat, j: nat)
    requires j <= i < bs == |y| && o + bs + j <= |s|
    ensures var r := Stolen(s, o, bs, y, i, j);
            r[o + i] == s[o + i] && Stolen(s, o, bs, y, i + 1, j) == r[o + i := y[i]]
            && (forall k {:trigger r[k]} :: o + bs + j <= k < |s| ==> r[k] == s[k])
  {
    hide Stolen;
    var r := Stolen(s, o, bs, y, i, j);
    forall k | 0 <= k < |s|
      ensures Stolen(s, o, bs, y, i + 1, j)[k] == r[o + i := y[i]][k] && (o + bs + j <= k ==> r[k] == s[k])
    {
      StolenAt(s, o, bs, y, i, j, k);
      StolenAt(s, o, bs, y, i + 1, j, k);
    }
    StolenAt(s, o, bs, y, i, j, o + i);
  }

  /** An octet is moved, then one is written in its place. */
  lemma StolenBoth(s: seq<byte>, o: nat, bs: nat, y: seq<byte>, i: nat)
    requires i < bs == |y| && o + bs + i < |s|
    ensures var r := Stolen(s, o, bs, y, i, i);
            Stolen(s, o, bs, y, i + 1, i + 1) == r[o + bs + i := r[o + i]][o + i := y[i]]
  {
    hide Stolen;
    var r := Stolen(s, o, bs, y, i, i);
    StolenAt(s, o, bs, y, i, i, o + i);
    var t, u := Stolen(s, o, bs, y, i + 1, i + 1), r[o + bs + i := r[o + i]][o + i := y[i]];
    forall k | 0 <= k < |s|
      ensures t[k] == u[k]
    {
      StolenAt(s, o, bs, y, i, i, k);
      StolenAt(s, o, bs, y, i + 1, i + 1, k);
    }
  }

  lemma StolenEnds(s: seq<byte>, o: nat, bs: nat, y: seq<byte>, n: nat)
    requires n <= bs == |y| && o + bs + n <= |s|
    ensures Stolen(s, o, bs, y, 0, 0) == s
    ensures Stolen(s, o, bs, y, bs, n) == Splice(s, o, y + s[o..o + bs][..n])
  {
    assert s[o..o + bs][..n] == s[o..o + n];
    assert s[o + bs..o + bs] == [] && y[..bs] == y;
    ConcatAssociates(s[..o], y, s[o..o + n]);
  }

  lemma NoBlocks(k: Cipher, iv: seq<byte>)
    requires k.Valid() && |iv| == k.bs
    ensures 0 % k.bs == 0 && CbcSeal(k, iv, []) == [] && CbcOpen(k, iv, []) == [] && LastBlock(k.bs, iv, []) == iv
  {
    WholeTimes(k.bs, 0);
  }
}
