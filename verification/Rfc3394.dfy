/** Key wrap as section 2.2 of RFC 3394 and section 4 of RFC 5649 define it. */
module Rfc3394 {
  import opened Bytes
  import opened CipherBlock

  /** The block number step t works on, of n blocks: 1, ..., n, 1, ... */
  function Target(t: nat, n: nat): (i: nat)
    requires t > 0 && n > 0
    ensures 1 <= i <= n
  {
    (t - 1) % n + 1
  }

  /** A and R[1], ..., R[n] in one string. */
  ghost predicate Wrappable(k: Cipher, w: seq<byte>) {
    k.Valid() && k.bs == 16 && |w| % 8 == 0 && |w| >= 16
  }

  /** Step t of section 2.2.1: B = E(A | R[i]), A = MSB(B) ^ t, R[i] = LSB(B). */
  function WrapStep(k: Cipher, w: seq<byte>, t: nat): (r: seq<byte>)
    requires Wrappable(k, w) && t > 0
    ensures |r| == |w|
  {
    var p := 8 * Target(t, |w| / 8 - 1);
    var b := k.enc(w[..8] + w[p..p + 8]);
    Splice(Splice(w, 0, Xor(b[..8], ToBigEndian(t, 8))), p, b[8..])
  }

  /** Step t of section 2.2.2: B = D((A ^ t) | R[i]), A = MSB(B), R[i] = LSB(B). */
  function UnwrapStep(k: Cipher, w: seq<byte>, t: nat): (r: seq<byte>)
    requires Wrappable(k, w) && t > 0
    ensures |r| == |w|
  {
    var p := 8 * Target(t, |w| / 8 - 1);
    var b := k.dec(Xor(w[..8], ToBigEndian(t, 8)) + w[p..p + 8]);
    Splice(Splice(w, 0, b[..8]), p, b[8..])
  }

  function WrapSteps(k: Cipher, w: seq<byte>, s: nat): (r: seq<byte>)
    requires Wrappable(k, w)
    ensures |r| == |w|
  {
    if s == 0 then w else WrapStep(k, WrapSteps(k, w, s - 1), s)
  }

  /** Steps s, s - 1, ..., 1. */
  function UnwrapSteps(k: Cipher, w: seq<byte>, s: nat): (r: seq<byte>)
    requires Wrappable(k, w)
    ensures |r| == |w|
    decreases s
  {
    if s == 0 then w else UnwrapSteps(k, UnwrapStep(k, w, s), s - 1)
  }

  function Wrap(k: Cipher, w: seq<byte>): (r: seq<byte>)
    requires Wrappable(k, w)
    ensures |r| == |w|
  {
    WrapSteps(k, w, 6 * (|w| / 8 - 1))
  }

  function Unwrap(k: Cipher, w: seq<byte>): (r: seq<byte>)
    requires Wrappable(k, w)
    ensures |r| == |w|
  {
    UnwrapSteps(k, w, 6 * (|w| / 8 - 1))
  }

  /** The parts of a string after two disjoint writes, the first of them at the front. */
  lemma TwoParts(w: seq<byte>, p: nat, x: seq<byte>, y: seq<byte>)
    requires 8 <= p && p + 8 <= |w| && |x| == |y| == 8
    ensures var r := Splice(Splice(w, 0, x), p, y);
            r[..8] == x && r[p..p + 8] == y
  {
    hide Splice;
    SpliceSlices(w, 0, x);
    SpliceSlices(Splice(w, 0, x), p, y);
    SpliceKeeps(Splice(w, 0, x), p, y);
    var r := Splice(Splice(w, 0, x), p, y);
    assert r[..8] == r[..p][..8] && Splice(w, 0, x)[..p][..8] == Splice(w, 0, x)[0..8];
  }

  /** Writing both parts again, with what was there, restores the string. */
  lemma WriteBack(w: seq<byte>, p: nat, x: seq<byte>, y: seq<byte>)
    requires 8 <= p && p + 8 <= |w| && |x| == |y| == 8
    ensures Splice(Splice(Splice(Splice(w, 0, x), p, y), 0, w[..8]), p, w[p..p + 8]) == w
  {
    var r := Splice(Splice(w, 0, x), p, y);
    assert r == x + w[8..p] + y + w[p + 8..];
    assert Splice(r, 0, w[..8]) == w[..8] + w[8..p] + y + w[p + 8..];
    assert w == w[..8] + w[8..p] + w[p..p + 8] + w[p + 8..];
  }

  lemma Rejoin(a: seq<byte>, b: seq<byte>, x: seq<byte>)
    requires |a| == |b| == 8 && |x| == 16
    ensures (a + b)[..8] == a && (a + b)[8..] == b && x[..8] + x[8..] == x
  {
  }

  lemma StepUndone(k: Cipher, w: seq<byte>, t: nat)
    requires Wrappable(k, w) && t > 0
    ensures UnwrapStep(k, WrapStep(k, w, t), t) == w
  {
    hide Splice, Xor, ToBigEndian, Target;
    var p, c := 8 * Target(t, |w| / 8 - 1), ToBigEndian(t, 8);
    var a, r := w[..8], w[p..p + 8];
    var b := k.enc(a + r);
    XorCancels(b[..8], c);
    TwoParts(w, p, Xor(b[..8], c), b[8..]);
    WriteBack(w, p, Xor(b[..8], c), b[8..]);
    Rejoin(a, r, b);
    assert k.dec(b) == a + r;
  }

  lemma StepRedone(k: Cipher, w: seq<byte>, t: nat)
    requires Wrappable(k, w) && t > 0
    ensures WrapStep(k, UnwrapStep(k, w, t), t) == w
  {
    hide Splice, Xor, ToBigEndian, Target;
    var p, c := 8 * Target(t, |w| / 8 - 1), ToBigEndian(t, 8);
    var a, r := w[..8], w[p..p + 8];
    var b := k.dec(Xor(a, c) + r);
    XorCancels(a, c);
    TwoParts(w, p, b[..8], b[8..]);
    WriteBack(w, p, b[..8], b[8..]);
    Rejoin(Xor(a, c), r, b);
    assert k.enc(b) == Xor(a, c) + r;
  }

  lemma {:induction false} StepsUndone(k: Cipher, w: seq<byte>, s: nat)
    requires Wrappable(k, w)
    ensures UnwrapSteps(k, WrapSteps(k, w, s), s) == w
  {
    hide WrapStep, UnwrapStep;
    if s > 0 {
      StepUndone(k, WrapSteps(k, w, s - 1), s);
      StepsUndone(k, w, s - 1);
    }
  }

  lemma {:induction false} StepsRedone(k: Cipher, w: seq<byte>, s: nat)
    requires Wrappable(k, w)
    ensures WrapSteps(k, UnwrapSteps(k, w, s), s) == w
    decreases s
  {
    hide WrapStep, UnwrapStep;
    if s > 0 {
      StepsRedone(k, UnwrapStep(k, w, s), s - 1);
      StepRedone(k, w, s);
    }
  }

  /** Wrapping is a permutation and unwrapping its inverse, whatever the block cipher. */
  lemma UnwrapInvertsWrap(k: Cipher, w: seq<byte>)
    requires Wrappable(k, w)
    ensures Unwrap(k, Wrap(k, w)) == w && Wrap(k, Unwrap(k, w)) == w
  {
    hide WrapSteps, UnwrapSteps;
    StepsUndone(k, w, 6 * (|w| / 8 - 1));
    StepsRedone(k, w, 6 * (|w| / 8 - 1));
  }

  // ---- the two key wraps ----

  /** The default initial value, section 2.2.3.1 of RFC 3394. */
  function DefaultIv(): (v: seq<byte>)
    ensures |v| == 8
  {
    [0xa6, 0xa6, 0xa6, 0xa6, 0xa6, 0xa6, 0xa6, 0xa6]
  }

  /** The constant of the alternative initial value, section 3 of RFC 5649. */
  function Icv2(): (c: seq<byte>)
    ensures |c| == 4
  {
    [0xa6, 0x59, 0x59, 0xa6]
  }

  /** data with zeros up to a multiple of eight octets. */
  function Pad8(data: seq<byte>): (r: seq<byte>)
    ensures |r| % 8 == 0 && data <= r && |r| < |data| + 8
  {
    data + ZeroBytes((8 - |data| % 8) % 8)
  }

  function Aiv(len: nat): (a: seq<byte>)
    ensures |a| == 8
  {
    Icv2() + ToBigEndian(len, 4)
  }

  /** The alternative initial value and the padded data. */
  function KwpInput(data: seq<byte>): (w: seq<byte>)
    requires |data| > 0
    ensures |w| % 8 == 0 && |w| >= 16 && (|w| == 16 <==> |data| <= 8)
  {
    InputLength(|data|, |Pad8(data)|);
    Aiv(|data|) + Pad8(data)
  }

  lemma InputLength(n: nat, m: nat)
    requires 0 < n <= m < n + 8 && m % 8 == 0
    ensures (8 + m) % 8 == 0 && m >= 8 && (m == 8 <==> n <= 8)
  {
  }

  /** Section 4.1 of RFC 5649. */
  function KwpSeal(k: Cipher, data: seq<byte>): (c: seq<byte>)
    requires k.Valid() && k.bs == 16 && |data| > 0
    ensures |c| == |KwpInput(data)|
  {
    var w := KwpInput(data);
    if |w| == 16 then k.enc(w) else Wrap(k, w)
  }

  /** What follows the length is padding of fewer than eight zeros: section 3 of RFC 5649. */
  ghost predicate Padded(r: seq<byte>, plen: nat) {
    plen <= |r| <= plen + 7 && forall i :: plen <= i < |r| ==> r[i] == 0
  }
}
