/** Poly1305 on three 64-bit limbs with lazy reduction (chacha20-ppc.c and poly1305.c): the limb
    step, the buffered update and the final reduction, against section 2.5.1 of RFC 8439. */
module Poly1305 {
  import opened Bytes
  import B = Buffering

  function Mul(a: nat, b: nat): nat {
    a * b
  }

  // ---- section 2.5.1 of RFC 8439 ----

  /** Modulo P = 2^130 - 5. */
  function Residue(x: nat): nat {
    x % 0x3_ffff_ffff_ffff_ffff_ffff_ffff_ffff_fffb
  }

  function Mod128(x: nat): nat {
    x % 0x1_0000_0000_0000_0000_0000_0000_0000_0000
  }

  /** A block of at most sixteen octets with the bit beyond its last octet set. */
  function Num(b: seq<byte>): nat {
    LittleEndian(b) + Pow256(|b|)
  }

  function Acc(r: nat, msg: seq<byte>): nat {
    if msg == [] then 0
    else
      var k := B.LastStart(16, |msg|);
      Residue(Mul(Acc(r, msg[..k]) + Num(msg[k..]), r))
  }

  function Tag(r: nat, s: nat, msg: seq<byte>): seq<byte> {
    ToLittleEndian(Mod128(Acc(r, msg) + s), 16)
  }

  // ---- limb arithmetic ----

  // Every operation is on 64-bit words and wraps as the machine does.

  function Low(x: nat): nat {
    x % 0x1_0000_0000_0000_0000
  }

  function High(x: nat): nat {
    x / 0x1_0000_0000_0000_0000
  }

  function Umul(a: nat, b: nat): (nat, nat) {
    (Low(High(Mul(a, b))), Low(Mul(a, b)))
  }

  /** Double-word addition: (high, low). */
  function AddSsaaaa(ah: nat, al: nat, bh: nat, bl: nat): (nat, nat) {
    var lo := al + bl;
    (Low(ah + bh + High(lo)), Low(lo))
  }

  /** Three-word addition with carries: (A2, A1, A0). */
  function Add1305(a2: nat, a1: nat, a0: nat, b2: nat, b1: nat, b0: nat): (nat, nat, nat) {
    var s0 := a0 + b0;
    var s1 := a1 + b1 + High(s0);
    (Low(a2 + b2 + High(s1)), Low(s1), Low(s0))
  }

  /** The products started by MUL_MOD_1305_64_PART1. */
  datatype Products = Products(x0hi: nat, x0lo: nat, x1hi: nat, x1lo: nat, t0hi: nat, t0lo: nat)

  function MulPart1(h1: nat, h0: nat, r1: nat, r0: nat, r1mult5: nat): Products {
    var x0 := Umul(h0, r0);
    var x1 := Umul(h0, r1);
    var t0 := Umul(h1, r1mult5);
    Products(x0.0, x0.1, x1.0, x1.1, t0.0, t0.1)
  }

  function SumX0(p: Products): (nat, nat) {
    AddSsaaaa(p.x0hi, p.x0lo, p.t0hi, p.t0lo)
  }

  function SumX1(p: Products, h2: nat, h1: nat, r0: nat, r1mult5: nat): (nat, nat) {
    var t1 := Umul(h1, r0);
    var x1 := AddSsaaaa(p.x1hi, p.x1lo, t1.0, t1.1);
    var t2lo := Low(Mul(h2, r1mult5));
    var t2hi := Low(Mul(h2, r0));
    AddSsaaaa(x1.0, x1.1, t2hi, t2lo)
  }

  /** MUL_MOD_1305_64_PART2: the new (H2, H1, H0). */
  function MulPart2(p: Products, h2: nat, h1: nat, r0: nat, r1mult5: nat): (nat, nat, nat) {
    var x0 := SumX0(p);
    var y := SumX1(p, h2, h1, r0, r1mult5);
    PropagateCarry(y.0, y.1, x0.0, x0.1)
  }

  function PropagateCarry(y1: nat, y0: nat, x0hi: nat, x0lo: nat): (nat, nat, nat) {
    Add1305(y1 % 4, y0, Low(y1 / 4 * 5), 0, x0hi, x0lo)
  }

  function Limbs(h2: nat, h1: nat, h0: nat): nat {
    h0 + 0x1_0000_0000_0000_0000 * h1 + 0x1_0000_0000_0000_0000_0000_0000_0000_0000 * h2
  }

  /** The clamped key of section 2.5 of RFC 8439, in two words. */
  predicate Clamped(r1: nat, r0: nat) {
    r0 <= 0x0fff_fffc_0fff_ffff && r1 <= 0x0fff_fffc_0fff_fffc && r1 % 4 == 0
  }

  /** Between blocks the accumulator is three limbs, the top one at most 4. */
  predicate Accumulator(h2: nat, h1: nat, h0: nat) {
    h0 < 0x1_0000_0000_0000_0000 && h1 < 0x1_0000_0000_0000_0000 && h2 <= 4
  }

  // ---- multiplication, one fact at a time ----

  lemma Distribute(x: nat, y: nat, z: nat)
    ensures Mul(x, y + z) == Mul(x, y) + Mul(x, z) && Mul(y + z, x) == Mul(y, x) + Mul(z, x)
  {
  }

  lemma Regroup(c: nat, x: nat, y: nat)
    ensures Mul(c * x, y) == c * Mul(x, y) && Mul(x, c * y) == c * Mul(x, y) && Mul(x, y) == Mul(y, x)
  {
  }

  lemma ProductBound(a: nat, b: nat, x: nat, y: nat)
    requires a <= x && b <= y
    ensures Mul(a, b) <= Mul(x, y)
  {
    hide Mul;
    Distribute(a, b, y - b);
    Distribute(y, a, x - a);
  }

  lemma UmulMeans(a: nat, b: nat)
    requires a < 0x1_0000_0000_0000_0000 && b < 0x1_0000_0000_0000_0000
    ensures var (hi, lo) := Umul(a, b); hi < 0x1_0000_0000_0000_0000 && lo < 0x1_0000_0000_0000_0000 && Limbs(0, hi, lo) == Mul(a, b)
  {
    ProductBound(a, b, 0xffff_ffff_ffff_ffff, 0xffff_ffff_ffff_ffff);
  }

  lemma AddMeans(ah: nat, al: nat, bh: nat, bl: nat)
    requires ah < 0x1_0000_0000_0000_0000 && al < 0x1_0000_0000_0000_0000 && bh < 0x1_0000_0000_0000_0000 && bl < 0x1_0000_0000_0000_0000
    requires Limbs(0, ah, al) + Limbs(0, bh, bl) < 0x1_0000_0000_0000_0000_0000_0000_0000_0000
    ensures var (hi, lo) := AddSsaaaa(ah, al, bh, bl);
            hi < 0x1_0000_0000_0000_0000 && lo < 0x1_0000_0000_0000_0000 && Limbs(0, hi, lo) == Limbs(0, ah, al) + Limbs(0, bh, bl)
  {
  }

  lemma LimbsTimes(a2: nat, a1: nat, a0: nat, x: nat)
    ensures Mul(Limbs(a2, a1, a0), x) == Limbs(Mul(a2, x), Mul(a1, x), Mul(a0, x))
  {
    hide Mul;
    var b1, b2 := 0x1_0000_0000_0000_0000 * a1, 0x1_0000_0000_0000_0000_0000_0000_0000_0000 * a2;
    Distribute(x, a0 + b1, b2);
    Distribute(x, a0, b1);
    Regroup(0x1_0000_0000_0000_0000, a1, x);
    Regroup(0x1_0000_0000_0000_0000_0000_0000_0000_0000, a2, x);
  }

  /** With the key clamped and the top limb at most 6, as after adding a block, nothing overflows:
      not the two 128-bit sums, not the products with h2, not five times the top. */
  lemma NoOverflow(a2: nat, a1: nat, a0: nat, r1: nat, r0: nat)
    requires a0 < 0x1_0000_0000_0000_0000 && a1 < 0x1_0000_0000_0000_0000 && a2 <= 6 && Clamped(r1, r0)
    ensures var m5 := r1 / 4 + r1;
            && m5 < 0x1_0000_0000_0000_0000 && r0 < 0x1_0000_0000_0000_0000 && r1 < 0x1_0000_0000_0000_0000
            && Fits(Mul(a0, r0), Mul(a1, m5), Mul(a0, r1), Mul(a1, r0), Mul(a2, r0), Mul(a2, m5))
  {
    hide Mul;
    var m5 := r1 / 4 + r1;
    ProductBound(a0, r0, 0xffff_ffff_ffff_ffff, 0x0fff_fffc_0fff_ffff);
    ProductBound(a1, m5, 0xffff_ffff_ffff_ffff, 0x13ff_fffb_13ff_fffb);
    ProductBound(a0, r1, 0xffff_ffff_ffff_ffff, 0x0fff_fffc_0fff_fffc);
    ProductBound(a1, r0, 0xffff_ffff_ffff_ffff, 0x0fff_fffc_0fff_ffff);
    ProductBound(a2, m5, 6, 0x13ff_fffb_13ff_fffb);
    ProductBound(a2, r0, 6, 0x0fff_fffc_0fff_ffff);
    SumsFit(Mul(a0, r0), Mul(a1, m5), Mul(a0, r1), Mul(a1, r0), Mul(a2, r0), Mul(a2, m5));
  }

  /** No sum of the products h0 r0, h1 r1', h0 r1, h1 r0, h2 r0, h2 r1' is cut off. */
  predicate Fits(p00: nat, p15: nat, p01: nat, p10: nat, p20: nat, p25: nat) {
    && p00 + p15 < 0x1_0000_0000_0000_0000_0000_0000_0000_0000
    && p25 < 0x1_0000_0000_0000_0000 && p20 < 0x1_0000_0000_0000_0000
    && Limbs(0, p20, p25) + p01 + p10 < 0x1_0000_0000_0000_0000_0000_0000_0000_0000
    && (Limbs(0, p20, p25) + p01 + p10) / 0x4_0000_0000_0000_0000 * 5 < 0x1_0000_0000_0000_0000
  }

  lemma SumsFit(p00: nat, p15: nat, p01: nat, p10: nat, p20: nat, p25: nat)
    requires p00 <= Mul(0xffff_ffff_ffff_ffff, 0x0fff_fffc_0fff_ffff)
    requires p15 <= Mul(0xffff_ffff_ffff_ffff, 0x13ff_fffb_13ff_fffb)
    requires p01 <= Mul(0xffff_ffff_ffff_ffff, 0x0fff_fffc_0fff_fffc)
    requires p10 <= Mul(0xffff_ffff_ffff_ffff, 0x0fff_fffc_0fff_ffff)
    requires p20 <= Mul(6, 0x0fff_fffc_0fff_ffff) && p25 <= Mul(6, 0x13ff_fffb_13ff_fffb)
    ensures Fits(p00, p15, p01, p10, p20, p25)
  {
  }

  lemma Collect(p00: nat, p10: nat, p20: nat, q0: nat, q1: nat, q2: nat)
    ensures Limbs(p20, p10, p00) + 0x4_0000_0000_0000_0000 * Limbs(q2, q1, q0)
         == Limbs(0, Limbs(0, p20, 5 * q2) + 4 * q0 + p10, p00 + 5 * q1)
            + 0x3_ffff_ffff_ffff_ffff_ffff_ffff_ffff_fffb * Limbs(0, q2, q1)
  {
  }

  /** 2^130 is 5: folding the products of the high limbs changes the value by a multiple of P. */
  lemma FoldIdentity(a2: nat, a1: nat, a0: nat, q: nat, r0: nat)
    ensures Mul(Limbs(a2, a1, a0), Limbs(0, 4 * q, r0))
         == Limbs(0, Limbs(0, Mul(a2, r0), Mul(a2, 5 * q)) + Mul(a0, 4 * q) + Mul(a1, r0),
                     Mul(a0, r0) + Mul(a1, 5 * q))
            + 0x3_ffff_ffff_ffff_ffff_ffff_ffff_ffff_fffb * Limbs(0, Mul(a2, q), Mul(a1, q))
  {
    hide Mul;
    var l := Limbs(a2, a1, a0);
    var r1 := 0x4_0000_0000_0000_0000 * q;
    assert Limbs(0, 4 * q, r0) == r0 + r1;
    Distribute(l, r0, r1);
    Regroup(0x4_0000_0000_0000_0000, l, q);
    LimbsTimes(a2, a1, a0, r0);
    LimbsTimes(a2, a1, a0, q);
    Collect(Mul(a0, r0), Mul(a1, r0), Mul(a2, r0), Mul(a0, q), Mul(a1, q), Mul(a2, q));
    Regroup(4, a0, q);
    Regroup(5, a1, q);
    Regroup(5, a2, q);
    hide Limbs;
  }

  lemma Add1305Means(a2: nat, a1: nat, a0: nat, b2: nat, b1: nat, b0: nat)
    requires a0 < 0x1_0000_0000_0000_0000 && a1 < 0x1_0000_0000_0000_0000 && a2 <= 6
    requires b0 < 0x1_0000_0000_0000_0000 && b1 < 0x1_0000_0000_0000_0000 && b2 <= 1
    ensures var c := Add1305(a2, a1, a0, b2, b1, b0);
            && c.2 < 0x1_0000_0000_0000_0000 && c.1 < 0x1_0000_0000_0000_0000 && c.0 <= a2 + b2 + 1
            && Limbs(c.0, c.1, c.2) == Limbs(a2, a1, a0) + Limbs(b2, b1, b0)
  {
  }

  /** The carry step: everything from bit 130 up comes back five times. */
  lemma CarryMeans(y1: nat, y0: nat, x0hi: nat, x0lo: nat)
    requires y0 < 0x1_0000_0000_0000_0000 && x0hi < 0x1_0000_0000_0000_0000 && x0lo < 0x1_0000_0000_0000_0000
    requires y1 / 4 * 5 < 0x1_0000_0000_0000_0000
    ensures var h := PropagateCarry(y1, y0, x0hi, x0lo);
            && Accumulator(h.0, h.1, h.2)
            && Limbs(h.0, h.1, h.2) + 0x3_ffff_ffff_ffff_ffff_ffff_ffff_ffff_fffb * (y1 / 4)
               == Limbs(y1, y0, 0) + Limbs(0, x0hi, x0lo)
  {
    hide Add1305;
    var low, five := y1 % 4, Low(y1 / 4 * 5);
    assert five == y1 / 4 * 5;
    Add1305Means(low, y0, five, 0, x0hi, x0lo);
    assert y1 == low + 4 * (y1 / 4);
    var h := Add1305(low, y0, five, 0, x0hi, x0lo);
    assert PropagateCarry(y1, y0, x0hi, x0lo) == h;
    assert Limbs(h.0, h.1, h.2) == Limbs(low, y0, five) + Limbs(0, x0hi, x0lo);
  }

  lemma Quarter(y1: nat, y0: nat)
    requires y0 < 0x1_0000_0000_0000_0000
    ensures Limbs(0, y1, y0) / 0x4_0000_0000_0000_0000 == y1 / 4
  {
  }

  lemma LowOfWord(x: nat)
    requires x < 0x1_0000_0000_0000_0000
    ensures Low(x) == x
  {
  }

  lemma SumX0Means(h1: nat, h0: nat, r1: nat, r0: nat, m5: nat)
    requires h0 < 0x1_0000_0000_0000_0000 && h1 < 0x1_0000_0000_0000_0000
    requires m5 < 0x1_0000_0000_0000_0000 && r0 < 0x1_0000_0000_0000_0000
    requires Mul(h0, r0) + Mul(h1, m5) < 0x1_0000_0000_0000_0000_0000_0000_0000_0000
    ensures var x := SumX0(MulPart1(h1, h0, r1, r0, m5));
            && x.0 < 0x1_0000_0000_0000_0000 && x.1 < 0x1_0000_0000_0000_0000
            && Limbs(0, x.0, x.1) == Mul(h0, r0) + Mul(h1, m5)
  {
    hide Mul, Umul, AddSsaaaa;
    UmulMeans(h0, r0);
    UmulMeans(h1, m5);
    var a, b := Umul(h0, r0), Umul(h1, m5);
    AddMeans(a.0, a.1, b.0, b.1);
  }

  lemma SumX1Means(h2: nat, h1: nat, h0: nat, r1: nat, r0: nat, m5: nat)
    requires h0 < 0x1_0000_0000_0000_0000 && h1 < 0x1_0000_0000_0000_0000
    requires m5 < 0x1_0000_0000_0000_0000 && r0 < 0x1_0000_0000_0000_0000 && r1 < 0x1_0000_0000_0000_0000
    requires Fits(Mul(h0, r0), Mul(h1, m5), Mul(h0, r1), Mul(h1, r0), Mul(h2, r0), Mul(h2, m5))
    ensures var y := SumX1(MulPart1(h1, h0, r1, r0, m5), h2, h1, r0, m5);
            && y.0 / 4 * 5 < 0x1_0000_0000_0000_0000 && y.1 < 0x1_0000_0000_0000_0000
            && Limbs(0, y.0, y.1) == Limbs(0, Mul(h2, r0), Mul(h2, m5)) + Mul(h0, r1) + Mul(h1, r0)
  {
    hide Mul, Umul, AddSsaaaa;
    UmulMeans(h0, r1);
    UmulMeans(h1, r0);
    var a, b := Umul(h0, r1), Umul(h1, r0);
    AddMeans(a.0, a.1, b.0, b.1);
    var x1 := AddSsaaaa(a.0, a.1, b.0, b.1);
    var t2lo, t2hi := Low(Mul(h2, m5)), Low(Mul(h2, r0));
    LowOfWord(Mul(h2, m5));
    LowOfWord(Mul(h2, r0));
    hide Low;
    AddMeans(x1.0, x1.1, t2hi, t2lo);
    var y := AddSsaaaa(x1.0, x1.1, t2hi, t2lo);
    Quarter(y.0, y.1);
  }

  /** The two parts together multiply by r modulo P and leave an accumulator. */
  lemma MulMeans(h2: nat, h1: nat, h0: nat, r1: nat, r0: nat)
    requires h0 < 0x1_0000_0000_0000_0000 && h1 < 0x1_0000_0000_0000_0000 && h2 <= 6 && Clamped(r1, r0)
    ensures var m5 := r1 / 4 + r1;
            var n := MulPart2(MulPart1(h1, h0, r1, r0, m5), h2, h1, r0, m5);
            && Accumulator(n.0, n.1, n.2)
            && Residue(Limbs(n.0, n.1, n.2)) == Residue(Mul(Limbs(h2, h1, h0), Limbs(0, r1, r0)))
  {
    hide Mul, MulPart1, PropagateCarry, SumX0, SumX1;
    var q := r1 / 4;
    var m5 := q + r1;
    assert r1 == 4 * q && m5 == 5 * q;
    NoOverflow(h2, h1, h0, r1, r0);
    SumX0Means(h1, h0, r1, r0, m5);
    SumX1Means(h2, h1, h0, r1, r0, m5);
    hide Fits;
    var p := MulPart1(h1, h0, r1, r0, m5);
    var x0, y0 := SumX0(p), SumX1(p, h2, h1, r0, m5);
    CarryMeans(y0.0, y0.1, x0.0, x0.1);
    var n := PropagateCarry(y0.0, y0.1, x0.0, x0.1);
    FoldIdentity(h2, h1, h0, q, r0);
    var k, x, y := Limbs(0, Mul(h2, q), Mul(h1, q)), Limbs(0, x0.0, x0.1), Limbs(0, y0.0, y0.1);
    assert Mul(Limbs(h2, h1, h0), Limbs(0, r1, r0)) == Limbs(0, y, x) + 0x3_ffff_ffff_ffff_ffff_ffff_ffff_ffff_fffb * k;
    Congruent(Limbs(n.0, n.1, n.2), y0.0 / 4, k, Mul(Limbs(h2, h1, h0), Limbs(0, r1, r0)));
  }

  lemma Congruent(x: nat, j: nat, k: nat, y: nat)
    requires y == x + 0x3_ffff_ffff_ffff_ffff_ffff_ffff_ffff_fffb * j + 0x3_ffff_ffff_ffff_ffff_ffff_ffff_ffff_fffb * k
    ensures Residue(x) == Residue(y)
  {
  }

  // ---- one block ----

  function Le64(s: seq<byte>, i: nat): nat
    requires i + 8 <= |s|
  {
    LittleEndian(s[i..i + 8])
  }

  lemma TwoWords(b: seq<byte>)
    requires |b| == 16
    ensures Le64(b, 0) < 0x1_0000_0000_0000_0000 && Le64(b, 8) < 0x1_0000_0000_0000_0000
    ensures LittleEndian(b) == Limbs(0, Le64(b, 8), Le64(b, 0))
  {
    hide LittleEndian, Pow256;
    Pow256Values();
    LittleEndianBound(b[..8]);
    LittleEndianBound(b[8..]);
    LittleEndianConcat(b[..8], b[8..]);
    assert b[0..8] == b[..8] && b[8..16] == b[8..] && b == b[..8] + b[8..];
  }

  lemma ModProduct(x: nat, y: nat, r: nat)
    requires Residue(x) == Residue(y)
    ensures Residue(Mul(x, r)) == Residue(Mul(y, r))
  {
    hide Mul, Residue;
    ModOfProduct(x, r);
    ModOfProduct(y, r);
  }

  lemma ModOfProduct(x: nat, r: nat)
    ensures Residue(Mul(x, r)) == Residue(Mul(Residue(x), r))
  {
    hide Mul;
    var q, l := x / 0x3_ffff_ffff_ffff_ffff_ffff_ffff_ffff_fffb, Residue(x);
    Distribute(r, 0x3_ffff_ffff_ffff_ffff_ffff_ffff_ffff_fffb * q, l);
    Regroup(0x3_ffff_ffff_ffff_ffff_ffff_ffff_ffff_fffb, q, r);
    Congruent(Mul(l, r), Mul(q, r), 0, Mul(x, r));
  }

  /** Add the block, then multiply. */
  function BlockStep(h2: nat, h1: nat, h0: nat, m2: nat, m1: nat, m0: nat, r1: nat, r0: nat, r1mult5: nat): (nat, nat, nat) {
    var a := Add1305(h2, h1, h0, m2, m1, m0);
    MulPart2(MulPart1(a.1, a.2, r1, r0, r1mult5), a.0, a.1, r0, r1mult5)
  }

  /** Adding a block with its pad word and multiplying is one step of the accumulator. */
  lemma StepMeans(h2: nat, h1: nat, h0: nat, b: seq<byte>, pad: nat, r1: nat, r0: nat)
    requires Accumulator(h2, h1, h0) && Clamped(r1, r0) && |b| == 16 && pad <= 1
    ensures var n := BlockStep(h2, h1, h0, pad, Le64(b, 8), Le64(b, 0), r1, r0, r1 / 4 + r1);
            && Accumulator(n.0, n.1, n.2)
            && Residue(Limbs(n.0, n.1, n.2))
               == PadStep(Residue(Limbs(h2, h1, h0)), Limbs(0, r1, r0), b, pad)
  {
    hide Mul, MulPart1, MulPart2, Add1305, Le64, LittleEndian, Residue;
    TwoWords(b);
    var a := Add1305(h2, h1, h0, pad, Le64(b, 8), Le64(b, 0));
    Add1305Means(h2, h1, h0, pad, Le64(b, 8), Le64(b, 0));
    MulMeans(a.0, a.1, a.2, r1, r0);
    var x, m := Limbs(h2, h1, h0), Limbs(pad, Le64(b, 8), Le64(b, 0));
    SumMod(x, m);
    ModProduct(Limbs(a.0, a.1, a.2), Residue(x) + m, Limbs(0, r1, r0));
    assert Residue(x) + m == Residue(x) + LittleEndian(b) + 0x1_0000_0000_0000_0000_0000_0000_0000_0000 * pad;
  }

  lemma StepAt(h2: nat, h1: nat, h0: nat, buf: seq<byte>, pos: nat, pad: nat, r1: nat, r0: nat)
    requires Accumulator(h2, h1, h0) && Clamped(r1, r0) && pos + 16 <= |buf| && pad <= 1
    ensures var n := BlockStep(h2, h1, h0, pad, Le64(buf, pos + 8), Le64(buf, pos), r1, r0, r1 / 4 + r1);
            && Accumulator(n.0, n.1, n.2)
            && Residue(Limbs(n.0, n.1, n.2))
               == PadStep(Residue(Limbs(h2, h1, h0)), Limbs(0, r1, r0), buf[pos..pos + 16], pad)
  {
    hide BlockStep, PadStep, Residue, Limbs, LittleEndian;
    var b := buf[pos..pos + 16];
    assert b[0..8] == buf[pos..pos + 8] && b[8..16] == buf[pos + 8..pos + 16];
    StepMeans(h2, h1, h0, b, pad, r1, r0);
  }

  lemma SumMod(x: nat, y: nat)
    ensures Residue(x + y) == Residue(Residue(x) + y)
  {
  }

  function PadStep(a: nat, r: nat, b: seq<byte>, pad: nat): nat {
    Residue(Mul(a + LittleEndian(b) + 0x1_0000_0000_0000_0000_0000_0000_0000_0000 * pad, r))
  }

  /** Whole blocks, each with the same pad word. */
  function AccPad(a: nat, r: nat, buf: seq<byte>, pad: nat): nat {
    if |buf| < 16 then a
    else PadStep(AccPad(a, r, buf[..|buf| - 16], pad), r, buf[|buf| - 16..], pad)
  }

  lemma AccSnoc(r: nat, msg: seq<byte>, b: seq<byte>)
    requires |msg| % 16 == 0 && 0 < |b| <= 16
    ensures Acc(r, msg + b) == Residue(Mul(Acc(r, msg) + Num(b), r))
  {
    hide Mul, Num, Residue;
    assert (msg + b)[..|msg|] == msg && (msg + b)[|msg|..] == b;
  }

  lemma {:induction false} AccPadConcat(a: nat, r: nat, x: seq<byte>, y: seq<byte>, pad: nat)
    requires |x| % 16 == 0 && |y| % 16 == 0
    ensures AccPad(AccPad(a, r, x, pad), r, y, pad) == AccPad(a, r, x + y, pad)
  {
    hide PadStep;
    if y == [] {
      assert x + y == x;
    } else {
      var n := |y| - 16;
      AccPadConcat(a, r, x, y[..n], pad);
      assert (x + y)[..|x + y| - 16] == x + y[..n] && (x + y)[|x + y| - 16..] == y[n..];
    }
  }

  lemma {:induction false} AccWhole(r: nat, msg: seq<byte>, buf: seq<byte>)
    requires |msg| % 16 == 0 && |buf| % 16 == 0
    ensures AccPad(Acc(r, msg), r, buf, 1) == Acc(r, msg + buf)
  {
    hide Mul, LittleEndian, Acc, Residue, Pow256;
    if buf == [] {
      assert msg + buf == msg;
    } else {
      var n := |buf| - 16;
      AccWhole(r, msg, buf[..n]);
      assert msg + buf == msg + buf[..n] + buf[n..];
      AccSnoc(r, msg + buf[..n], buf[n..]);
      Pow256Values();
      var a := AccPad(Acc(r, msg), r, buf[..n], 1);
      assert a + LittleEndian(buf[n..]) + 0x1_0000_0000_0000_0000_0000_0000_0000_0000 * 1 == a + Num(buf[n..]);
    }
  }

  /** A short last block, padded as poly1305_final pads it. */
  lemma AccPartial(r: nat, msg: seq<byte>, left: seq<byte>, z: nat)
    requires |msg| % 16 == 0 && 0 < |left| < 16 && |left| + 1 + z == 16
    ensures PadStep(Acc(r, msg), r, left + [1] + seq(z, i => 0), 0) == Acc(r, msg + left)
  {
    hide Mul, Acc, Num, LittleEndian, Residue;
    AccSnoc(r, msg, left);
    PaddedNumber(left, z);
  }

  lemma PaddedNumber(left: seq<byte>, z: nat)
    ensures LittleEndian(left + [1] + seq(z, i => 0)) == Num(left)
  {
    var zeros := seq(z, i => 0 as byte);
    assert left + [1] + zeros == left + ([1] + zeros);
    LittleEndianConcat(left, [1] + zeros);
    LittleEndianZeros(z);
    assert ([1] + zeros)[1..] == zeros;
    NextOctet(0);
    assert Val(0) == 0;
  }

  // ---- the final reduction ----

  /** Adding 5 and looking at bit 130. */
  function AtLeastP(h2: nat, h1: nat, h0: nat): nat {
    var c := AddSsaaaa(0, h0, 0, 5);
    var d := AddSsaaaa(0, c.0, 0, h1);
    (d.0 + h2) / 4
  }

  lemma AtLeastPMeans(h2: nat, h1: nat, h0: nat)
    requires Accumulator(h2, h1, h0)
    ensures var u := AtLeastP(h2, h1, h0);
            u <= 1 && Limbs(h2, h1, h0) == Residue(Limbs(h2, h1, h0)) + 0x3_ffff_ffff_ffff_ffff_ffff_ffff_ffff_fffb * u
  {
    hide AddSsaaaa;
    var c := AddSsaaaa(0, h0, 0, 5);
    AddMeans(0, h0, 0, 5);
    var d := AddSsaaaa(0, c.0, 0, h1);
    AddMeans(0, c.0, 0, h1);
    var w := d.0 + h2;
    assert Limbs(w, d.1, c.1) == Limbs(h2, h1, h0) + 5;
    OneSubtraction(Limbs(h2, h1, h0), w, Limbs(0, d.1, c.1));
  }

  lemma OneSubtraction(h: nat, w: nat, low: nat)
    requires h + 5 == low + 0x1_0000_0000_0000_0000_0000_0000_0000_0000 * w
    requires low < 0x1_0000_0000_0000_0000_0000_0000_0000_0000 && w <= 5
    ensures w / 4 <= 1 && h == Residue(h) + 0x3_ffff_ffff_ffff_ffff_ffff_ffff_ffff_fffb * (w / 4)
  {
    var p := 0x3_ffff_ffff_ffff_ffff_ffff_ffff_ffff_fffb;
    if w < 4 {
      DivModUnique(h, p, 0, h);
    } else {
      DivModUnique(h, p, 1, h - p);
    }
  }

  lemma EmptyState(r: nat)
    ensures Stored([0, 0, 0, 0, 0]) && Residue(Value([0, 0, 0, 0, 0])) == Acc(r, [])
  {
    hide Mul, Num, B.LastStart;
    assert Value([0, 0, 0, 0, 0]) == 0;
  }

  /** Without overflow checks, addition is modulo 2^128. */
  lemma AddWraps(ah: nat, al: nat, bh: nat, bl: nat)
    requires ah < 0x1_0000_0000_0000_0000 && al < 0x1_0000_0000_0000_0000
    requires bh < 0x1_0000_0000_0000_0000 && bl < 0x1_0000_0000_0000_0000
    ensures var c := AddSsaaaa(ah, al, bh, bl);
            && c.0 < 0x1_0000_0000_0000_0000 && c.1 < 0x1_0000_0000_0000_0000
            && Limbs(0, c.0, c.1)
               == Mod128(Limbs(0, ah, al) + Limbs(0, bh, bl))
  {
  }

  /** The accumulator less P when it is at least P, modulo 2^128. */
  function MinusP(h2: nat, h1: nat, h0: nat): (nat, nat) {
    var minus := if AtLeastP(h2, h1, h0) == 0 then 0 else 5;  // (-u) & 5 for u = 0 or 1
    AddSsaaaa(h1, h0, 0, minus)
  }

  /** The last computation of poly1305_final: one conditional subtraction of P, then the key. */
  function FinalWords(h2: nat, h1: nat, h0: nat, k1: nat, k0: nat): (nat, nat) {
    var g := MinusP(h2, h1, h0);
    AddSsaaaa(g.0, g.1, k1, k0)
  }

  lemma MinusPMeans(h2: nat, h1: nat, h0: nat, k: nat)
    requires Accumulator(h2, h1, h0)
    ensures var g := MinusP(h2, h1, h0);
            && g.0 < 0x1_0000_0000_0000_0000 && g.1 < 0x1_0000_0000_0000_0000
            && Mod128(Limbs(0, g.0, g.1) + k) == Mod128(Residue(Limbs(h2, h1, h0)) + k)
  {
    hide AddSsaaaa, Residue, AtLeastP, Mod128, Limbs;
    AtLeastPMeans(h2, h1, h0);
    var u := AtLeastP(h2, h1, h0);
    var minus := if u == 0 then 0 else 5;
    AddWraps(h1, h0, 0, minus);
    LimbsOf(h2, h1, h0, u);
    var h, low, five := Limbs(h2, h1, h0), Limbs(0, h1, h0), Limbs(0, 0, minus);
    FinalSum(h, h2, low, u, Residue(h), k, five, Mod128(low + five));
  }

  lemma LimbsOf(h2: nat, h1: nat, h0: nat, u: nat)
    requires u <= 1
    ensures Limbs(h2, h1, h0) == Limbs(0, h1, h0) + 0x1_0000_0000_0000_0000_0000_0000_0000_0000 * h2
    ensures Limbs(0, 0, if u == 0 then 0 else 5) == 5 * u
  {
  }

  lemma FinalWordsMean(h2: nat, h1: nat, h0: nat, k1: nat, k0: nat)
    requires Accumulator(h2, h1, h0) && k0 < 0x1_0000_0000_0000_0000 && k1 < 0x1_0000_0000_0000_0000
    ensures var t := FinalWords(h2, h1, h0, k1, k0);
            && t.0 < 0x1_0000_0000_0000_0000 && t.1 < 0x1_0000_0000_0000_0000
            && Limbs(0, t.0, t.1) == Mod128(Residue(Limbs(h2, h1, h0)) + Limbs(0, k1, k0))
  {
    hide AddSsaaaa, Residue, MinusP, Mod128, Limbs;
    MinusPMeans(h2, h1, h0, Limbs(0, k1, k0));
    var g := MinusP(h2, h1, h0);
    AddWraps(g.0, g.1, k1, k0);
  }

  lemma FinalSum(h: nat, h2: nat, low: nat, u: nat, r: nat, k: nat, minus: nat, g: nat)
    requires h == low + 0x1_0000_0000_0000_0000_0000_0000_0000_0000 * h2 && u <= 1
    requires h == r + 0x3_ffff_ffff_ffff_ffff_ffff_ffff_ffff_fffb * u
    requires minus == 5 * u && g == Mod128(low + minus)
    ensures Mod128(g + k) == Mod128(r + k)
  {
    WrapOnce(h, h2, low, u, r, k);
  }

  lemma WrapOnce(h: nat, h2: nat, low: nat, u: nat, r: nat, k: nat)
    requires h == low + 0x1_0000_0000_0000_0000_0000_0000_0000_0000 * h2 && u <= 1
    requires h == r + 0x3_ffff_ffff_ffff_ffff_ffff_ffff_ffff_fffb * u
    ensures Mod128(Mod128(low + 5 * u) + k) == Mod128(r + k)
  {
  }

  lemma OctetsOf(n: nat, len: nat)
    requires n < Pow256(len)
    ensures LittleEndian(ToLittleEndian(n, len)) == n
  {
    LittleEndianRoundTrip(n, len);
    DivModUnique(n, Pow256(len), 0, n);
  }

  lemma MacOctets(hi: nat, lo: nat)
    requires hi < 0x1_0000_0000_0000_0000 && lo < 0x1_0000_0000_0000_0000
    ensures ToLittleEndian(lo, 8) + ToLittleEndian(hi, 8) == ToLittleEndian(Limbs(0, hi, lo), 16)
  {
    hide LittleEndian, ToLittleEndian, Pow256;
    var s := ToLittleEndian(lo, 8) + ToLittleEndian(hi, 8);
    Pow256Values();
    OctetsOf(lo, 8);
    OctetsOf(hi, 8);
    OctetsOf(Limbs(0, hi, lo), 16);
    LittleEndianConcat(ToLittleEndian(lo, 8), ToLittleEndian(hi, 8));
    LittleEndianInjective(s, ToLittleEndian(Limbs(0, hi, lo), 16));
  }

  lemma OneBlock(a: nat, r: nat, b: seq<byte>, pad: nat)
    requires |b| == 16
    ensures AccPad(a, r, b, pad) == PadStep(a, r, b, pad)
  {
    hide PadStep;
    assert b[..0] == [] && b[0..] == b;
  }

  /** The state poly1305.c keeps between calls: the five stored words, the clamped key, the second
      half of the key, and a partly filled block. */
  class Context {
    var h: seq<nat>
    const r0: nat
    const r1: nat
    const k0: nat
    const k1: nat
    const buffer: array<byte>
    var leftover: nat
    ghost var full: seq<byte>  // the whole blocks already multiplied in

    ghost function R(): nat {
      Limbs(0, r1, r0)
    }

    /** Everything given to Update so far. */
    ghost function Absorbed(): seq<byte>
      requires buffer.Length == 16 && leftover <= 16
      reads this, buffer
    {
      full + buffer[..leftover]
    }

    ghost predicate Valid()
      reads this, buffer
      ensures Valid() ==> buffer.Length == 16 && leftover < 16
    {
      && buffer.Length == 16 && leftover < 16 && Clamped(r1, r0)
      && k0 < 0x1_0000_0000_0000_0000 && k1 < 0x1_0000_0000_0000_0000
      && Stored(h)
      && |full| % 16 == 0 && Residue(Value(h)) == Acc(R(), full)
    }

    constructor (r1: nat, r0: nat, k1: nat, k0: nat)
      requires Clamped(r1, r0) && k0 < 0x1_0000_0000_0000_0000 && k1 < 0x1_0000_0000_0000_0000
      ensures Valid() && Absorbed() == [] && fresh(buffer)
      ensures this.r1 == r1 && this.r0 == r0 && this.k1 == k1 && this.k0 == k0
    {
      hide Mul, Acc, Num, Residue, Value, Stored, Limbs;
      this.r0, this.r1, this.k0, this.k1 := r0, r1, k0, k1;
      h := [0, 0, 0, 0, 0];
      buffer := new byte[16];
      leftover := 0;
      full := [];
      EmptyState(Limbs(0, r1, r0));
    }

    method Blocks(buf: seq<byte>, highPad: nat)
      requires Clamped(r1, r0) && Stored(h)
      requires |buf| >= 16 && |buf| % 16 == 0 && highPad <= 1
      modifies this`h
      ensures Stored(h)
      ensures Residue(Value(h)) == AccPad(Residue(old(Value(h))), R(), buf, highPad)
    {
      hide BlockStep, Le64, PadStep, Residue, Limbs, AccPad;
      var m2 := highPad;
      var h0 := h[0] + 0x1_0000_0000 * h[1];
      var h1 := h[2] + 0x1_0000_0000 * h[3];
      var h2 := h[4];
      var r1mult5 := r1 / 4 + r1;
      var m0 := Le64(buf, 0);
      var m1 := Le64(buf, 8);
      var pos, len := 16, |buf| - 16;
      ghost var done, blocks := 0, |buf| / 16;
      assert buf[..0] == [];
      assert AccPad(Residue(Value(h)), R(), [], highPad) == Residue(Limbs(h2, h1, h0)) by {
        NoBlocks(Residue(Value(h)), R(), highPad);
        ValueLimbs(h);
      }
      while len >= 16
        invariant pos == 16 * done + 16 && len == 16 * (blocks - done - 1) && 0 <= done < blocks
        invariant Accumulator(h2, h1, h0)
        invariant m0 == Le64(buf, pos - 16) && m1 == Le64(buf, pos - 8)
        invariant Residue(Limbs(h2, h1, h0)) == AccPad(Residue(old(Value(h))), R(), buf[..pos - 16], highPad)
      {
        StepAt(h2, h1, h0, buf, pos - 16, m2, r1, r0);
        NextBlock(Residue(old(Value(h))), R(), buf, pos - 16, highPad);
        var n := BlockStep(h2, h1, h0, m2, m1, m0, r1, r0, r1mult5);
        m0 := Le64(buf, pos);
        m1 := Le64(buf, pos + 8);
        h2, h1, h0 := n.0, n.1, n.2;
        pos := pos + 16;
        len := len - 16;
        done := done + 1;
      }
      StepAt(h2, h1, h0, buf, pos - 16, m2, r1, r0);
      NextBlock(Residue(old(Value(h))), R(), buf, pos - 16, highPad);
      assert buf[..pos] == buf;
      var n := BlockStep(h2, h1, h0, m2, m1, m0, r1, r0, r1mult5);
      h := StoreWords(n.0, n.1, n.2);
    }

    /** How many octets are buffered follows from how many were given. */
    lemma Absorbs()
      requires Valid()
      ensures leftover == |Absorbed()| % 16 && (leftover == 0 ==> Absorbed() == full)
    {
      hide Acc, Residue, Value, Stored, Clamped, R;
    }

    /** The stored words as limbs. */
    method LoadLimbs() returns (h2: nat, h1: nat, h0: nat)
      requires Valid() && leftover == 0
      ensures Accumulator(h2, h1, h0) && Clamped(r1, r0)
      ensures Residue(Limbs(h2, h1, h0)) == AccPad(Acc(R(), full), R(), [], 1)
    {
      hide Acc, AccPad, Residue, Value, Clamped, R, Limbs;
      ValueLimbs(h);
      NoBlocks(Acc(R(), full), R(), 1);
      h0 := h[0] + 0x1_0000_0000 * h[1];
      h1 := h[2] + 0x1_0000_0000 * h[3];
      h2 := h[4];
    }

    /** Stores limbs worked on elsewhere, after more whole blocks. */
    method SetLimbs(h2: nat, h1: nat, h0: nat, ghost more: seq<byte>)
      requires Valid() && leftover == 0 && |more| % 16 == 0 && Accumulator(h2, h1, h0)
      requires Residue(Limbs(h2, h1, h0)) == AccPad(Acc(R(), full), R(), more, 1)
      modifies this`h, this`full
      ensures Valid() && full == old(full) + more
    {
      hide Acc, AccPad, Residue, Value, Stored, R, Limbs;
      AccWhole(R(), full, more);
      h := StoreWords(h2, h1, h0);
      full := full + more;
    }

    method Update(m: seq<byte>)
      requires Valid()
      modifies this, buffer
      ensures Valid() && Absorbed() == old(Absorbed()) + m
    {
      hide Acc, AccPad, Residue, Value, Stored, Clamped, R;
      var bytes, pos := |m|, 0;
      ghost var was := Absorbed();
      if leftover > 0 {
        var want := 16 - leftover;
        if want > bytes {
          want := bytes;
        }
        CopyIn(m, pos, want);
        assert Absorbed() == was + m[..want];
        bytes := bytes - want;
        pos := pos + want;
        if leftover < 16 {
          assert m[..want] == m;
          return;
        }
        Blocks(buffer[..], 1);
        AccWhole(R(), full, buffer[..]);
        full := full + buffer[..];
        leftover := 0;
      }
      assert full == was + m[..pos];
      UpdateRest(m, pos, bytes, was);
    }

    /** The whole blocks of what remains of m, and what is left over. */
    method UpdateRest(m: seq<byte>, pos0: nat, bytes0: nat, ghost was: seq<byte>)
      requires Valid() && leftover == 0 && pos0 + bytes0 == |m|
      requires full == was + m[..pos0]
      modifies this, buffer
      ensures Valid() && Absorbed() == was + m
    {
      hide Acc, AccPad, Residue, Value, Stored, Clamped, R;
      var pos, bytes := pos0, bytes0;
      if bytes >= 16 {
        var nblks := bytes / 16;
        var len := nblks * 16;
        var part := m[pos..pos + len];
        Blocks(part, 1);
        AccWhole(R(), full, part);
        full := full + part;
        assert m[..pos + len] == m[..pos] + part;
        assert was + m[..pos] + part == was + m[..pos + len];
        pos := pos + len;
        bytes := bytes - len;
      }
      if bytes > 0 {
        CopyIn(m, pos, bytes);
      }
      assert buffer[..leftover] == m[pos..];
      assert was + m == was + m[..pos] + m[pos..];
    }

    /** Appends m[pos..pos + n] to the partly filled block. */
    method CopyIn(m: seq<byte>, pos: nat, n: nat)
      requires buffer.Length == 16 && leftover + n <= 16 && pos + n <= |m|
      modifies this`leftover, buffer
      ensures leftover == old(leftover) + n
      ensures buffer[..leftover] == old(buffer[..leftover]) + m[pos..pos + n]
    {
      forall i | 0 <= i < n {
        buffer[leftover + i] := m[pos + i];
      }
      leftover := leftover + n;
    }

    method Finish() returns (mac: seq<byte>)
      requires Valid()
      modifies this, buffer
      ensures mac == Tag(R(), Limbs(0, k1, k0), old(Absorbed()))
    {
      hide Acc, AccPad, PadStep, Residue, R, Value, Clamped, FinalWords, ToLittleEndian, Limbs, Mod128;
      ghost var msg := Absorbed();
      if leftover > 0 {
        ghost var left := buffer[..leftover];
        buffer[leftover] := 1;
        leftover := leftover + 1;
        if leftover < 16 {
          forall i | leftover <= i < 16 {
            buffer[i] := 0;
          }
          leftover := 16;
        }
        Blocks(buffer[..], 0);
        OneBlock(Acc(R(), full), R(), buffer[..], 0);
        AccPartial(R(), full, left, 15 - |left|);
        assert buffer[..] == left + [1] + seq(15 - |left|, i => 0);
        assert msg == full + left;
      } else {
        assert msg == full;
      }
      assert Residue(Value(h)) == Acc(R(), msg);
      var h0 := h[0] + 0x1_0000_0000 * h[1];
      var h1 := h[2] + 0x1_0000_0000 * h[3];
      var h2 := h[4];
      var t := FinalWords(h2, h1, h0, k1, k0);
      FinalWordsMean(h2, h1, h0, k1, k0);
      assert Residue(Limbs(h2, h1, h0)) == Acc(R(), msg) by { ValueLimbs(h); }
      mac := ToLittleEndian(t.1, 8) + ToLittleEndian(t.0, 8);
      MacOctets(t.0, t.1);
    }
  }

  lemma ValueLimbs(h: seq<nat>)
    requires |h| == 5
    ensures Value(h) == Limbs(h[4], h[2] + 0x1_0000_0000 * h[3], h[0] + 0x1_0000_0000 * h[1])
    ensures Stored(h) ==> Accumulator(h[4], h[2] + 0x1_0000_0000 * h[3], h[0] + 0x1_0000_0000 * h[1])
  {
  }

  lemma NoBlocks(a: nat, r: nat, pad: nat)
    ensures AccPad(a, r, [], pad) == a
  {
  }

  lemma NextBlock(a: nat, r: nat, buf: seq<byte>, pos: nat, pad: nat)
    requires pos + 16 <= |buf|
    ensures AccPad(a, r, buf[..pos + 16], pad) == PadStep(AccPad(a, r, buf[..pos], pad), r, buf[pos..pos + 16], pad)
  {
    assert buf[..pos + 16][..pos] == buf[..pos];
    assert buf[..pos + 16][pos..] == buf[pos..pos + 16];
  }

  predicate Stored(h: seq<nat>) {
    |h| == 5 && h[0] < 0x1_0000_0000 && h[1] < 0x1_0000_0000 && h[2] < 0x1_0000_0000 && h[3] < 0x1_0000_0000 && h[4] <= 4
  }

  function StoreWords(h2: nat, h1: nat, h0: nat): (h: seq<nat>)
    requires Accumulator(h2, h1, h0)
    ensures Stored(h) && Value(h) == Limbs(h2, h1, h0)
  {
    [h0 % 0x1_0000_0000, h0 / 0x1_0000_0000, h1 % 0x1_0000_0000, h1 / 0x1_0000_0000, h2]
  }

  function Value(h: seq<nat>): nat
    requires |h| == 5
  {
    Limbs(h[4], h[2] + 0x1_0000_0000 * h[3], h[0] + 0x1_0000_0000 * h[1])
  }
}
