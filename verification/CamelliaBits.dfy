/** The macros of cipher/camellia.c and the algebra of its FL layers, on raw bits.  A pair
    of 32-bit words (ll, lr) is one bv64; the four words of a key register are one bv128. */
module CamelliaBits {
  import opened Rfc3713

  function RolDq(x: bv128, bits: bv6): bv128
    requires 0 < bits < 32
  {
    var ll := (x >> 96) as bv32;
    var lr := ((x >> 64) & 0xffffffff) as bv32;
    var rl := ((x >> 32) & 0xffffffff) as bv32;
    var rr := (x & 0xffffffff) as bv32;
    var w0 := ll;
    var ll := (ll << bits) | (lr >> (32 - bits));
    var lr := (lr << bits) | (rl >> (32 - bits));
    var rl := (rl << bits) | (rr >> (32 - bits));
    var rr := (rr << bits) | (w0 >> (32 - bits));
    ((ll as bv128) << 96) | ((lr as bv128) << 64) | ((rl as bv128) << 32) | (rr as bv128)
  }

  function RolDqo32(x: bv128, bits: bv6): bv128
    requires 32 < bits
  {
    var ll := (x >> 96) as bv32;
    var lr := ((x >> 64) & 0xffffffff) as bv32;
    var rl := ((x >> 32) & 0xffffffff) as bv32;
    var rr := (x & 0xffffffff) as bv32;
    var w0, w1, n := ll, lr, bits - 32;
    var ll := (lr << n) | (rl >> (32 - n));
    var lr := (rl << n) | (rr >> (32 - n));
    var rl := (rr << n) | (w0 >> (32 - n));
    var rr := (w0 << n) | (w1 >> (32 - n));
    ((ll as bv128) << 96) | ((lr as bv128) << 64) | ((rl as bv128) << 32) | (rr as bv128)
  }

  /** Each rotation amount the key schedules use, as a rotation of all 128 bits. */
  lemma RolDqIsRot(x: bv128)
    ensures RolDq(x, 15) == Rot(x, 15)
    ensures RolDq(x, 17) == Rot(x, 17)
    ensures RolDq(x, 30) == Rot(x, 30)
  {
  }

  lemma RolDqo32IsRot(x: bv128)
    ensures RolDqo32(x, 34) == Rot(x, 34)
    ensures RolDqo32(x, 45) == Rot(x, 45)
    ensures RolDqo32(x, 49) == Rot(x, 49)
    ensures RolDqo32(x, 51) == Rot(x, 51)
  {
  }

  /** (lr, rl) and (rr, ll): the two halves 32 bits further on. */
  function MiddleWords(x: bv128): bv64 {
    ((x >> 32) & 0xffffffffffffffff) as bv64
  }

  function OuterWords(x: bv128): bv64 {
    (((x & 0xffffffff) as bv64) << 32) | ((x >> 96) as bv64)
  }

  lemma MiddleIsRot(x: bv128)
    ensures MiddleWords(x) == (((x << 32) | (x >> 96)) >> 64) as bv64
    ensures OuterWords(x) == (((x << 32) | (x >> 96)) & 0xffffffffffffffff) as bv64
  {
  }

  lemma Rot15By15(x: bv128)
    ensures Rot(Rot(x, 15), 15) == Rot(x, 30)
  {
  }

  lemma Rot15By30(x: bv128)
    ensures Rot(Rot(x, 15), 30) == Rot(x, 45)
  {
  }

  lemma Rot30By15(x: bv128)
    ensures Rot(Rot(x, 30), 15) == Rot(x, 45)
  {
  }

  lemma Rot30By30(x: bv128)
    ensures Rot(Rot(x, 30), 30) == Rot(x, 60)
  {
  }

  lemma Rot45By15(x: bv128)
    ensures Rot(Rot(x, 45), 15) == Rot(x, 60)
  {
  }

  lemma Rot45By32(x: bv128)
    ensures Rot(Rot(x, 45), 32) == Rot(x, 77)
  {
  }

  lemma Rot45By49(x: bv128)
    ensures Rot(Rot(x, 45), 49) == Rot(x, 94)
  {
  }

  lemma Rot60By17(x: bv128)
    ensures Rot(Rot(x, 60), 17) == Rot(x, 77)
  {
  }

  lemma Rot60By34(x: bv128)
    ensures Rot(Rot(x, 60), 34) == Rot(x, 94)
  {
  }

  lemma Rot60By51(x: bv128)
    ensures Rot(Rot(x, 60), 51) == Rot(x, 111)
  {
  }

  lemma Rot77By17(x: bv128)
    ensures Rot(Rot(x, 77), 17) == Rot(x, 94)
  {
  }

  lemma Rot77By34(x: bv128)
    ensures Rot(Rot(x, 77), 34) == Rot(x, 111)
  {
  }

  lemma Rot94By17(x: bv128)
    ensures Rot(Rot(x, 94), 17) == Rot(x, 111)
  {
  }

  lemma Rot94By34(x: bv128)
    ensures Rot(Rot(x, 94), 34) == x
  {
  }

  /** What CAMELLIA_ROUNDSM xors onto the other half, and CAMELLIA_F returns for xl ^ kl,
      xr ^ kr.  A table entry is an S-box value spread over the bytes that name the table. */
  function SPLayer(s: SBoxes, x: bv64): bv64 {
    var xl := (x >> 32) as bv32;
    var xr := (x & 0xffffffff) as bv32;
    var a1 := s.s1((xr & 0xff) as bv8) as bv32;
    var a2 := s.s2((xr >> 24) as bv8) as bv32;
    var a3 := s.s3(((xr >> 16) & 0xff) as bv8) as bv32;
    var a4 := s.s4(((xr >> 8) & 0xff) as bv8) as bv32;
    var ir := ((a1 << 24) | (a1 << 16) | (a1 << 8)) ^ ((a2 << 16) | (a2 << 8) | a2)
              ^ ((a3 << 24) | (a3 << 8) | a3) ^ ((a4 << 24) | (a4 << 16) | a4);
    var b1 := s.s1((xl >> 24) as bv8) as bv32;
    var b2 := s.s2(((xl >> 16) & 0xff) as bv8) as bv32;
    var b3 := s.s3(((xl >> 8) & 0xff) as bv8) as bv32;
    var b4 := s.s4((xl & 0xff) as bv8) as bv32;
    var il := ((b1 << 24) | (b1 << 16) | (b1 << 8)) ^ ((b2 << 16) | (b2 << 8) | b2)
              ^ ((b3 << 24) | (b3 << 8) | b3) ^ ((b4 << 24) | (b4 << 16) | b4);
    var yl := ir ^ il;
    var yr := ((il >> 8) | (il << 24)) ^ yl;
    ((yl as bv64) << 32) | (yr as bv64)
  }

  /** The table-driven layer is the RFC's S followed by P. */
  lemma SPLayerIsRfc(s: SBoxes, x: bv64)
    ensures SPLayer(s, x) == SPBits(s, x)
  {
  }

  /** The key-schedule step "cl ^= cr & ~kr; dw = cl & kl, cr ^= RL1(dw)": it moves a
      constant backwards through FL, or forwards through its inverse. */
  function Absorb(c: bv64, k: bv64): bv64 {
    var cl := (c >> 32) as bv32;
    var cr := (c & 0xffffffff) as bv32;
    var k1 := (k >> 32) as bv32;
    var k2 := (k & 0xffffffff) as bv32;
    var cl := cl ^ (cr & !k2);
    var cr := cr ^ (((cl & k1) << 1) | ((cl & k1) >> 31));
    ((cl as bv64) << 32) | (cr as bv64)
  }

  // ---- xor ----

  lemma XorCancel(a: bv64, b: bv64)
    ensures XorBits(XorBits(a, b), b) == a
  {
    assert XorBits(a ^ b, b) == a;
  }

  lemma XorMedial(a: bv64, b: bv64, c: bv64, d: bv64)
    ensures XorBits(XorBits(a, b), XorBits(c, d)) == XorBits(XorBits(a, c), XorBits(b, d))
  {
    assert XorBits(a ^ b, c ^ d) == XorBits(a ^ c, b ^ d);
  }

  lemma XorPair(a: bv64, b: bv64, c: bv64)
    ensures XorBits(XorBits(a, c), XorBits(b, c)) == XorBits(a, b)
  {
    assert XorBits(a ^ c, b ^ c) == XorBits(a, b);
  }

  lemma XorThrough(a: bv64, b: bv64, c: bv64)
    ensures XorBits(XorBits(a, b), XorBits(b, c)) == XorBits(a, c)
  {
    assert XorBits(a ^ b, b ^ c) == XorBits(a, c);
  }

  lemma XorAssociates(a: bv64, b: bv64, c: bv64)
    ensures XorBits(a, XorBits(b, c)) == XorBits(XorBits(a, b), c)
  {
    assert XorBits(a, b ^ c) == XorBits(a ^ b, c);
  }

  lemma XorCommutes(a: bv64, b: bv64)
    ensures XorBits(a, b) == XorBits(b, a)
  {
  }

  lemma XorSwap(a: bv64, b: bv64, c: bv64)
    ensures XorBits(XorBits(a, b), c) == XorBits(XorBits(a, c), b)
  {
    assert XorBits(a ^ b, c) == XorBits(a ^ c, b);
  }

  // ---- FL as two steps, each changing one word ----

  function RotPart(x: bv64, k: bv64): bv64 {
    ((((x >> 32) & (k >> 32)) << 1) | (((x >> 32) & (k >> 32)) >> 31)) & 0xffffffff
  }

  function OrPart(x: bv64, k: bv64): bv64 {
    (x | k) << 32
  }

  function AndPart(x: bv64, k: bv64): bv64 {
    (x & !k) << 32
  }

  /** Changes the right word only; linear. */
  function RotStep(x: bv64, k: bv64): bv64 {
    x ^ (((((x >> 32) & (k >> 32)) << 1) | (((x >> 32) & (k >> 32)) >> 31)) & 0xffffffff)
  }

  /** Changes the left word only; affine, with linear part AndStep. */
  function OrStep(x: bv64, k: bv64): bv64 {
    x ^ ((x | k) << 32)
  }

  function AndStep(x: bv64, k: bv64): bv64 {
    x ^ ((x & !k) << 32)
  }

  lemma RotStepOuter(x: bv64, k: bv64)
    ensures RotStep(x, k) == XorBits(x, ((((x >> 32) & (k >> 32)) << 1) | (((x >> 32) & (k >> 32)) >> 31)) & 0xffffffff)
  {
  }

  lemma RotStepParts(x: bv64, k: bv64)
    ensures RotStep(x, k) == XorBits(x, RotPart(x, k))
  {
    RotStepOuter(x, k);
  }

  lemma OrStepOuter(x: bv64, k: bv64)
    ensures OrStep(x, k) == XorBits(x, (x | k) << 32)
  {
  }

  lemma OrStepParts(x: bv64, k: bv64)
    ensures OrStep(x, k) == XorBits(x, OrPart(x, k))
  {
    OrStepOuter(x, k);
  }

  lemma AndStepOuter(x: bv64, k: bv64)
    ensures AndStep(x, k) == XorBits(x, (x & !k) << 32)
  {
  }

  lemma AndStepParts(x: bv64, k: bv64)
    ensures AndStep(x, k) == XorBits(x, AndPart(x, k))
  {
    AndStepOuter(x, k);
  }

  lemma FlBits(x: bv64, k: bv64)
    ensures
      var y := x ^ (((((x >> 32) & (k >> 32)) << 1) | (((x >> 32) & (k >> 32)) >> 31)) & 0xffffffff);
      FLBits(x, k) == y ^ ((y | k) << 32)
  {
  }

  lemma FlOuter(x: bv64, k: bv64)
    ensures FLBits(x, k) == OrStep(x ^ (((((x >> 32) & (k >> 32)) << 1) | (((x >> 32) & (k >> 32)) >> 31)) & 0xffffffff), k)
  {
    FlBits(x, k);
  }

  lemma FlSteps(x: bv64, k: bv64)
    ensures FLBits(x, k) == OrStep(RotStep(x, k), k)
  {
    FlOuter(x, k);
  }

  lemma FlInvBits(x: bv64, k: bv64)
    ensures
      var y := x ^ ((x | k) << 32);
      FLInvBits(x, k) == y ^ (((((y >> 32) & (k >> 32)) << 1) | (((y >> 32) & (k >> 32)) >> 31)) & 0xffffffff)
  {
  }

  lemma FlInvOuter(x: bv64, k: bv64)
    ensures FLInvBits(x, k) == RotStep(x ^ ((x | k) << 32), k)
  {
    FlInvBits(x, k);
  }

  lemma FlInvSteps(x: bv64, k: bv64)
    ensures FLInvBits(x, k) == RotStep(OrStep(x, k), k)
  {
    FlInvOuter(x, k);
  }

  lemma AbsorbBits(x: bv64, k: bv64)
    ensures
      var y := x ^ ((x & !k) << 32);
      Absorb(x, k) == y ^ (((((y >> 32) & (k >> 32)) << 1) | (((y >> 32) & (k >> 32)) >> 31)) & 0xffffffff)
  {
  }

  lemma AbsorbOuter(x: bv64, k: bv64)
    ensures Absorb(x, k) == RotStep(x ^ ((x & !k) << 32), k)
  {
    AbsorbBits(x, k);
  }

  lemma AbsorbSteps(x: bv64, k: bv64)
    ensures Absorb(x, k) == RotStep(AndStep(x, k), k)
  {
    AbsorbOuter(x, k);
  }

  // each part reads only the word its step leaves alone

  lemma RotPartSame(x: bv64, z: bv64, k: bv64)
    ensures RotPart(x ^ (z & 0xffffffff), k) == RotPart(x, k)
  {
  }

  lemma OrPartSame(x: bv64, z: bv64, k: bv64)
    ensures OrPart(x ^ (z << 32), k) == OrPart(x, k)
  {
  }

  lemma AndPartSame(x: bv64, z: bv64, k: bv64)
    ensures AndPart(x ^ (z << 32), k) == AndPart(x, k)
  {
  }

  lemma RotPartOfStep(x: bv64, k: bv64)
    ensures RotPart(RotStep(x, k), k) == RotPart(x, k)
  {
    RotPartSame(x, (((x >> 32) & (k >> 32)) << 1) | (((x >> 32) & (k >> 32)) >> 31), k);
  }

  lemma RotInvolution(x: bv64, k: bv64)
    ensures RotStep(RotStep(x, k), k) == x
  {
    RotPartOfStep(x, k);
    RotStepParts(x, k);
    RotStepParts(RotStep(x, k), k);
    XorCancel(x, RotPart(x, k));
  }

  lemma OrInvolution(x: bv64, k: bv64)
    ensures OrStep(OrStep(x, k), k) == x
  {
    OrPartSame(x, x | k, k);
    OrStepParts(x, k);
    OrStepParts(OrStep(x, k), k);
    XorCancel(x, OrPart(x, k));
  }

  lemma AndInvolution(x: bv64, k: bv64)
    ensures AndStep(AndStep(x, k), k) == x
  {
    AndPartSame(x, x & !k, k);
    AndStepParts(x, k);
    AndStepParts(AndStep(x, k), k);
    XorCancel(x, AndPart(x, k));
  }

  lemma RotPartLinear(x: bv64, c: bv64, k: bv64)
    ensures RotPart(x ^ c, k) == RotPart(x, k) ^ RotPart(c, k)
  {
  }

  lemma RotPartXor(x: bv64, c: bv64, k: bv64)
    ensures RotPart(XorBits(x, c), k) == XorBits(RotPart(x, k), RotPart(c, k))
  {
    RotPartLinear(x, c, k);
  }
  lemma OrPartAffine(x: bv64, c: bv64, k: bv64)
    ensures OrPart(x ^ c, k) == OrPart(x, k) ^ AndPart(c, k)
  {
  }

  lemma OrPartXor(x: bv64, c: bv64, k: bv64)
    ensures OrPart(XorBits(x, c), k) == XorBits(OrPart(x, k), AndPart(c, k))
  {
    OrPartAffine(x, c, k);
  }
  lemma AndPartLinear(x: bv64, c: bv64, k: bv64)
    ensures AndPart(x ^ c, k) == AndPart(x, k) ^ AndPart(c, k)
  {
  }

  lemma AndPartXor(x: bv64, c: bv64, k: bv64)
    ensures AndPart(XorBits(x, c), k) == XorBits(AndPart(x, k), AndPart(c, k))
  {
    AndPartLinear(x, c, k);
  }
  lemma RotLinear(x: bv64, c: bv64, k: bv64)
    ensures RotStep(XorBits(x, c), k) == XorBits(RotStep(x, k), RotStep(c, k))
  {
    RotPartXor(x, c, k);
    RotStepParts(x, k);
    RotStepParts(c, k);
    RotStepParts(XorBits(x, c), k);
    XorMedial(x, c, RotPart(x, k), RotPart(c, k));
  }

  lemma OrAffine(x: bv64, c: bv64, k: bv64)
    ensures OrStep(XorBits(x, c), k) == XorBits(OrStep(x, k), AndStep(c, k))
  {
    OrPartXor(x, c, k);
    OrStepParts(x, k);
    AndStepParts(c, k);
    OrStepParts(XorBits(x, c), k);
    XorMedial(x, c, OrPart(x, k), AndPart(c, k));
  }

  lemma AndLinear(x: bv64, c: bv64, k: bv64)
    ensures AndStep(XorBits(x, c), k) == XorBits(AndStep(x, k), AndStep(c, k))
  {
    AndPartXor(x, c, k);
    AndStepParts(x, k);
    AndStepParts(c, k);
    AndStepParts(XorBits(x, c), k);
    XorMedial(x, c, AndPart(x, k), AndPart(c, k));
  }

  // ---- the laws the key schedule and the ciphers rest on ----

  lemma FlInverse(x: bv64, k: bv64)
    ensures FLInvBits(FLBits(x, k), k) == x
    ensures FLBits(FLInvBits(x, k), k) == x
  {
    FlSteps(x, k);
    FlInvSteps(FLBits(x, k), k);
    OrInvolution(RotStep(x, k), k);
    RotInvolution(x, k);
    FlInvSteps(x, k);
    FlSteps(FLInvBits(x, k), k);
    RotInvolution(OrStep(x, k), k);
    OrInvolution(x, k);
  }

  lemma FlInvAffine(y: bv64, c: bv64, k: bv64)
    ensures FLInvBits(XorBits(y, c), k) == XorBits(FLInvBits(y, k), Absorb(c, k))
  {
    FlInvSteps(y, k);
    FlInvSteps(XorBits(y, c), k);
    AbsorbSteps(c, k);
    OrAffine(y, c, k);
    RotLinear(OrStep(y, k), AndStep(c, k), k);
  }

  lemma FlAffine(x: bv64, c: bv64, k: bv64)
    ensures FLBits(XorBits(x, Absorb(c, k)), k) == XorBits(FLBits(x, k), c)
  {
    FlSteps(x, k);
    FlSteps(XorBits(x, Absorb(c, k)), k);
    AbsorbSteps(c, k);
    RotLinear(x, RotStep(AndStep(c, k), k), k);
    RotInvolution(AndStep(c, k), k);
    OrAffine(RotStep(x, k), AndStep(c, k), k);
    AndInvolution(c, k);
  }

  lemma AbsorbLinear(a: bv64, b: bv64, k: bv64)
    ensures Absorb(XorBits(a, b), k) == XorBits(Absorb(a, k), Absorb(b, k))
  {
    AbsorbSteps(a, k);
    AbsorbSteps(b, k);
    AbsorbSteps(XorBits(a, b), k);
    AndLinear(a, b, k);
    RotLinear(AndStep(a, k), AndStep(b, k), k);
  }
}
