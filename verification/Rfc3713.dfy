/** Camellia as sections 2.2 to 2.4 of RFC 3713 describe it: explicit whitening keys
    kw1..kw4, round keys k1.. and layer keys ke1.., none of them folded together.
    The four substitution boxes are parameters. */
module Rfc3713 {
  /** A 64-bit half of a block or key. */
  datatype Half = Half(bits: bv64)

  function Xor(a: Half, b: Half): Half {
    Half(XorBits(a.bits, b.bits))
  }

  function XorBits(a: bv64, b: bv64): bv64 {
    a ^ b
  }

  function Hi(x: bv128): Half {
    Half((x >> 64) as bv64)
  }

  function Lo(x: bv128): Half {
    Half((x & 0xffffffffffffffff) as bv64)
  }

  function Join(a: Half, b: Half): bv128 {
    ((a.bits as bv128) << 64) | (b.bits as bv128)
  }

  /** The 128-bit rotation written <<< in the RFC. */
  function Rot(x: bv128, n: bv8): bv128
    requires n <= 128
  {
    (x << n) | (x >> (128 - n))
  }

  // ---- the F-function, on a word to which the subkey has been added (section 2.4.1) ----

  datatype SBoxes = SBoxes(s1: bv8 -> bv8, s2: bv8 -> bv8, s3: bv8 -> bv8, s4: bv8 -> bv8)

  function SP(s: SBoxes, x: Half): Half {
    Half(SPBits(s, x.bits))
  }

  function SPBits(s: SBoxes, x: bv64): bv64 {
    P(s.s1((x >> 56) as bv8), s.s2(((x >> 48) & 0xff) as bv8), s.s3(((x >> 40) & 0xff) as bv8), s.s4(((x >> 32) & 0xff) as bv8),
      s.s2(((x >> 24) & 0xff) as bv8), s.s3(((x >> 16) & 0xff) as bv8), s.s4(((x >> 8) & 0xff) as bv8), s.s1((x & 0xff) as bv8))
  }

  /** The P-function of section 2.4.1, on the eight octets that the S-boxes give. */
  function P(t1: bv8, t2: bv8, t3: bv8, t4: bv8, t5: bv8, t6: bv8, t7: bv8, t8: bv8): bv64 {
    var y1 := t1 ^ t3 ^ t4 ^ t6 ^ t7 ^ t8;
    var y2 := t1 ^ t2 ^ t4 ^ t5 ^ t7 ^ t8;
    var y3 := t1 ^ t2 ^ t3 ^ t5 ^ t6 ^ t8;
    var y4 := t2 ^ t3 ^ t4 ^ t5 ^ t6 ^ t7;
    var y5 := t1 ^ t2 ^ t6 ^ t7 ^ t8;
    var y6 := t2 ^ t3 ^ t5 ^ t7 ^ t8;
    var y7 := t3 ^ t4 ^ t5 ^ t6 ^ t8;
    var y8 := t1 ^ t4 ^ t5 ^ t6 ^ t7;
    ((y1 as bv64) << 56) | ((y2 as bv64) << 48) | ((y3 as bv64) << 40) | ((y4 as bv64) << 32)
    | ((y5 as bv64) << 24) | ((y6 as bv64) << 16) | ((y7 as bv64) << 8) | (y8 as bv64)
  }

  // ---- FL and its inverse (sections 2.4.2 and 2.4.3) ----

  function FL(x: Half, k: Half): Half {
    Half(FLBits(x.bits, k.bits))
  }

  function FLInv(y: Half, k: Half): Half {
    Half(FLInvBits(y.bits, k.bits))
  }

  function FLBits(x: bv64, k: bv64): bv64 {
    var x1 := (x >> 32) as bv32;
    var x2 := (x & 0xffffffff) as bv32;
    var k1 := (k >> 32) as bv32;
    var k2 := (k & 0xffffffff) as bv32;
    var y2 := x2 ^ (((x1 & k1) << 1) | ((x1 & k1) >> 31));
    var y1 := x1 ^ (y2 | k2);
    ((y1 as bv64) << 32) | (y2 as bv64)
  }

  function FLInvBits(y: bv64, k: bv64): bv64 {
    var y1 := (y >> 32) as bv32;
    var y2 := (y & 0xffffffff) as bv32;
    var k1 := (k >> 32) as bv32;
    var k2 := (k & 0xffffffff) as bv32;
    var x1 := y1 ^ (y2 | k2);
    var x2 := y2 ^ (((x1 & k1) << 1) | ((x1 & k1) >> 31));
    ((x1 as bv64) << 32) | (x2 as bv64)
  }

  // ---- encryption (sections 2.3.1 and 2.3.2); f stands for SP ----

  /** The running state of the cipher: D1 and D2. */
  datatype State = State(d1: Half, d2: Half)

  datatype Keys = Keys(kw1: Half, kw2: Half, kw3: Half, kw4: Half, k: seq<Half>, ke: seq<Half>)

  /** One Feistel round: y with F(x, k) added. */
  function Round(f: Half -> Half, x: Half, k: Half, y: Half): Half {
    Xor(y, f(Xor(x, k)))
  }

  function TwoRounds(f: Half -> Half, st: State, ka: Half, kb: Half): State {
    var d2 := Round(f, st.d1, ka, st.d2);
    State(Round(f, d2, kb, st.d1), d2)
  }

  function SixRounds(f: Half -> Half, st: State, k: seq<Half>, i: nat): State
    requires i + 6 <= |k|
  {
    TwoRounds(f, TwoRounds(f, TwoRounds(f, st, k[i], k[i + 1]), k[i + 2], k[i + 3]), k[i + 4], k[i + 5])
  }

  function FLLayer(st: State, ka: Half, kb: Half): State {
    State(FL(st.d1, ka), FLInv(st.d2, kb))
  }

  /** Three groups of six rounds for 128-bit keys, four for longer ones. */
  predicate Shape(ks: Keys, groups: nat) {
    1 <= groups && |ks.k| == 6 * groups && |ks.ke| == 2 * groups - 2
  }

  /** The first n groups, with an FL layer before each group but the first. */
  function Groups(f: Half -> Half, ks: Keys, groups: nat, n: nat, st: State): State
    requires Shape(ks, groups) && 1 <= n <= groups
  {
    if n == 1 then SixRounds(f, st, ks.k, 0)
    else
      var before := Groups(f, ks, groups, n - 1, st);
      SixRounds(f, FLLayer(before, ks.ke[2 * n - 4], ks.ke[2 * n - 3]), ks.k, 6 * n - 6)
  }

  function Encrypt(f: Half -> Half, ks: Keys, groups: nat, m: State): State
    requires Shape(ks, groups)
  {
    var d := Groups(f, ks, groups, groups, State(Xor(m.d1, ks.kw1), Xor(m.d2, ks.kw2)));
    State(Xor(d.d2, ks.kw3), Xor(d.d1, ks.kw4))
  }

  // ---- key scheduling (section 2.2) ----

  const SIGMA1: Half := Half(0xA09E667F3BCC908B)
  const SIGMA2: Half := Half(0xB67AE8584CAA73B2)
  const SIGMA3: Half := Half(0xC6EF372FE94F82BE)
  const SIGMA4: Half := Half(0x54FF53A5F1D36F1C)
  const SIGMA5: Half := Half(0x10E527FADE682D1D)
  const SIGMA6: Half := Half(0xB05688C2B3E6C1FD)

  function KA(f: Half -> Half, kl: bv128, kr: bv128): bv128 {
    var s0 := State(Xor(Hi(kl), Hi(kr)), Xor(Lo(kl), Lo(kr)));
    var s1 := TwoRounds(f, s0, SIGMA1, SIGMA2);
    var s2 := TwoRounds(f, State(Xor(s1.d1, Hi(kl)), Xor(s1.d2, Lo(kl))), SIGMA3, SIGMA4);
    Join(s2.d1, s2.d2)
  }

  function KB(f: Half -> Half, ka: bv128, kr: bv128): bv128 {
    var s1 := TwoRounds(f, State(Xor(Hi(ka), Hi(kr)), Xor(Lo(ka), Lo(kr))), SIGMA5, SIGMA6);
    Join(s1.d1, s1.d2)
  }

  function Keys128(kl: bv128, ka: bv128): Keys {
    Keys(Hi(kl), Lo(kl), Hi(Rot(ka, 111)), Lo(Rot(ka, 111)),
         [Hi(ka), Lo(ka), Hi(Rot(kl, 15)), Lo(Rot(kl, 15)), Hi(Rot(ka, 15)), Lo(Rot(ka, 15))]
         + [Hi(Rot(kl, 45)), Lo(Rot(kl, 45)), Hi(Rot(ka, 45)), Lo(Rot(kl, 60)), Hi(Rot(ka, 60)), Lo(Rot(ka, 60))]
         + [Hi(Rot(kl, 94)), Lo(Rot(kl, 94)), Hi(Rot(ka, 94)), Lo(Rot(ka, 94)), Hi(Rot(kl, 111)), Lo(Rot(kl, 111))],
         [Hi(Rot(ka, 30)), Lo(Rot(ka, 30))] + [Hi(Rot(kl, 77)), Lo(Rot(kl, 77))])
  }

  function Keys256(kl: bv128, kr: bv128, ka: bv128, kb: bv128): Keys {
    Keys(Hi(kl), Lo(kl), Hi(Rot(kb, 111)), Lo(Rot(kb, 111)),
         [Hi(kb), Lo(kb), Hi(Rot(kr, 15)), Lo(Rot(kr, 15)), Hi(Rot(ka, 15)), Lo(Rot(ka, 15))]
         + [Hi(Rot(kb, 30)), Lo(Rot(kb, 30)), Hi(Rot(kl, 45)), Lo(Rot(kl, 45)), Hi(Rot(ka, 45)), Lo(Rot(ka, 45))]
         + [Hi(Rot(kr, 60)), Lo(Rot(kr, 60)), Hi(Rot(kb, 60)), Lo(Rot(kb, 60)), Hi(Rot(kl, 77)), Lo(Rot(kl, 77))]
         + [Hi(Rot(kr, 94)), Lo(Rot(kr, 94)), Hi(Rot(ka, 94)), Lo(Rot(ka, 94)), Hi(Rot(kl, 111)), Lo(Rot(kl, 111))],
         [Hi(Rot(kr, 30)), Lo(Rot(kr, 30))] + [Hi(Rot(kl, 60)), Lo(Rot(kl, 60))] + [Hi(Rot(ka, 77)), Lo(Rot(ka, 77))])
  }

  /** All subkeys of a 128-bit key: KR is zero. */
  function Schedule128(f: Half -> Half, kl: bv128): Keys {
    Keys128(kl, KA(f, kl, 0))
  }

  /** All subkeys of a 256-bit key kl || kr. */
  function Schedule256(f: Half -> Half, kl: bv128, kr: bv128): Keys {
    var ka := KA(f, kl, kr);
    Keys256(kl, kr, ka, KB(f, ka, kr))
  }

  /** KR of a 192-bit key: its last 64 bits followed by their complement. */
  function Extend192(right: Half): bv128 {
    Join(right, Half(!right.bits))
  }
}
