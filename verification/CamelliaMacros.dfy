/** The steps of cipher/camellia.c on 64-bit halves, and the laws they obey. */
module CamelliaMacros {
  import opened Rfc3713
  import Bits = CamelliaBits

  /** The F-function without its key, as the tables compute it. */
  function SPLayer(s: SBoxes, x: Half): Half {
    Half(Bits.SPLayer(s, x.bits))
  }

  /** The step that moves a constant back through FL, or on through its inverse. */
  function Absorb(c: Half, k: Half): Half {
    Half(Bits.Absorb(c.bits, k.bits))
  }

  lemma SPLayerIsRfc(s: SBoxes, x: Half)
    ensures SPLayer(s, x) == SP(s, x)
  {
    Bits.SPLayerIsRfc(s, x.bits);
  }

  lemma XorCancel(a: Half, b: Half)
    ensures Xor(Xor(a, b), b) == a
  {
    hide XorBits;
    Bits.XorCancel(a.bits, b.bits);
  }

  lemma XorPair(a: Half, b: Half, c: Half)
    ensures Xor(Xor(a, c), Xor(b, c)) == Xor(a, b)
  {
    hide XorBits;
    Bits.XorPair(a.bits, b.bits, c.bits);
  }

  lemma XorSwap(a: Half, b: Half, c: Half)
    ensures Xor(Xor(a, b), c) == Xor(Xor(a, c), b)
  {
    hide XorBits;
    Bits.XorSwap(a.bits, b.bits, c.bits);
  }

  lemma XorCommutes(a: Half, b: Half)
    ensures Xor(a, b) == Xor(b, a)
  {
    hide XorBits;
    Bits.XorCommutes(a.bits, b.bits);
  }

  lemma XorThrough(a: Half, b: Half, c: Half)
    ensures Xor(Xor(a, b), Xor(b, c)) == Xor(a, c)
  {
    hide XorBits;
    Bits.XorThrough(a.bits, b.bits, c.bits);
  }

  lemma XorAssociates(a: Half, b: Half, c: Half)
    ensures Xor(a, Xor(b, c)) == Xor(Xor(a, b), c)
  {
    hide XorBits;
    Bits.XorAssociates(a.bits, b.bits, c.bits);
  }

  lemma FlInverse(x: Half, k: Half)
    ensures FLInv(FL(x, k), k) == x
    ensures FL(FLInv(x, k), k) == x
  {
    hide FLBits, FLInvBits;
    Bits.FlInverse(x.bits, k.bits);
  }

  /** FLInv is affine; Absorb is its linear part. */
  lemma FlInvAffine(y: Half, c: Half, k: Half)
    ensures FLInv(Xor(y, c), k) == Xor(FLInv(y, k), Absorb(c, k))
  {
    hide XorBits, FLInvBits, Bits.Absorb;
    Bits.FlInvAffine(y.bits, c.bits, k.bits);
  }

  lemma FlAffine(x: Half, c: Half, k: Half)
    ensures FL(Xor(x, Absorb(c, k)), k) == Xor(FL(x, k), c)
  {
    hide XorBits, FLBits, Bits.Absorb;
    Bits.FlAffine(x.bits, c.bits, k.bits);
  }

  lemma AbsorbLinear(a: Half, b: Half, k: Half)
    ensures Absorb(Xor(a, b), k) == Xor(Absorb(a, k), Absorb(b, k))
  {
    hide XorBits, Bits.Absorb;
    Bits.AbsorbLinear(a.bits, b.bits, k.bits);
  }
}
