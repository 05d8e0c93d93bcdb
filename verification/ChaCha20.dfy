/** ChaCha20 in three layouts: the scalar form of chacha20.c, the row vectors and the four-lane
    transposed form of chacha20-ppc.c. */
module ChaCha20 {
  import opened Bytes
  import opened CipherBlock

  type Word = bv32

  /** A vector of four words; also a row of the state. */
  datatype Row = Row(a: Word, b: Word, c: Word, d: Word)

  /** input[0..15], row by row. */
  datatype State = State(r0: Row, r1: Row, r2: Row, r3: Row)

  datatype Quad = Quad(a: Word, b: Word, c: Word, d: Word)

  function Plus(a: Word, b: Word): Word {
    a + b
  }

  function XorWord(a: Word, b: Word): Word {
    a ^ b
  }

  function Rol(a: Word, n: bv6): Word
    requires 0 < n < 32
  {
    (a << n) | (a >> (32 - n))
  }

  /** QUARTERROUND */
  function QuarterRound(a: Word, b: Word, c: Word, d: Word): Quad {
    var a1 := Plus(a, b);
    var d1 := Rol(XorWord(d, a1), 16);
    var c1 := Plus(c, d1);
    var b1 := Rol(XorWord(b, c1), 12);
    var a2 := Plus(a1, b1);
    var d2 := Rol(XorWord(d1, a2), 8);
    var c2 := Plus(c1, d2);
    var b2 := Rol(XorWord(b1, c2), 7);
    Quad(a2, b2, c2, d2)
  }

  // ---- scalar form ----

  /** The eight quarter rounds of one turn of the round loop. */
  function DoubleRound(s: State): State {
    var p := QuarterRound(s.r0.a, s.r1.a, s.r2.a, s.r3.a);
    var q := QuarterRound(s.r0.b, s.r1.b, s.r2.b, s.r3.b);
    var r := QuarterRound(s.r0.c, s.r1.c, s.r2.c, s.r3.c);
    var t := QuarterRound(s.r0.d, s.r1.d, s.r2.d, s.r3.d);
    var u := QuarterRound(p.a, q.b, r.c, t.d);
    var v := QuarterRound(q.a, r.b, t.c, p.d);
    var w := QuarterRound(r.a, t.b, p.c, q.d);
    var x := QuarterRound(t.a, p.b, q.c, r.d);
    State(Row(u.a, v.a, w.a, x.a), Row(x.b, u.b, v.b, w.b), Row(w.c, x.c, u.c, v.c), Row(v.d, w.d, x.d, u.d))
  }

  function Rounds(n: nat, s: State): State {
    if n == 0 then s else DoubleRound(Rounds(n - 1, s))
  }

  function RowPlus(x: Row, y: Row): Row {
    Row(Plus(x.a, y.a), Plus(x.b, y.b), Plus(x.c, y.c), Plus(x.d, y.d))
  }

  function StatePlus(s: State, t: State): State {
    State(RowPlus(s.r0, t.r0), RowPlus(s.r1, t.r1), RowPlus(s.r2, t.r2), RowPlus(s.r3, t.r3))
  }

  /** The block function: twenty rounds and the feed-forward, section 2.3 of RFC 8439. */
  function Block(s: State): State {
    StatePlus(Rounds(10, s), s)
  }

  /** The state with the 64-bit block counter in words 12 and 13 advanced by one. */
  function NextCounter(s: State): State {
    var lo := Plus(s.r3.a, 1);
    s.(r3 := Row(lo, Plus(s.r3.b, if lo == 0 then 1 else 0), s.r3.c, s.r3.d))
  }

  function Counter(n: nat, s: State): State {
    if n == 0 then s else NextCounter(Counter(n - 1, s))
  }

  // ---- row vectors ----

  function RowXor(x: Row, y: Row): Row {
    Row(XorWord(x.a, y.a), XorWord(x.b, y.b), XorWord(x.c, y.c), XorWord(x.d, y.d))
  }

  function RowRotate(x: Row, n: bv6): Row
    requires 0 < n < 32
  {
    Row(Rol(x.a, n), Rol(x.b, n), Rol(x.c, n), Rol(x.d, n))
  }

  /** vec_rol_elems */
  function WordRol(x: Row, n: nat): Row
    requires 0 < n < 4
  {
    if n == 1 then Row(x.b, x.c, x.d, x.a)
    else if n == 2 then Row(x.c, x.d, x.a, x.b)
    else Row(x.d, x.a, x.b, x.c)
  }

  datatype RowQuad = RowQuad(a: Row, b: Row, c: Row, d: Row)

  /** Four quarter rounds side by side: the common part of QUARTERROUND4, and one of the two halves
      that QUARTERROUND2 interleaves. */
  function VectorQuarterRound(a: Row, b: Row, c: Row, d: Row): RowQuad {
    var a1 := RowPlus(a, b);
    var d1 := RowRotate(RowXor(d, a1), 16);
    var c1 := RowPlus(c, d1);
    var b1 := RowRotate(RowXor(b, c1), 12);
    var a2 := RowPlus(a1, b1);
    var d2 := RowRotate(RowXor(d1, a2), 8);
    var c2 := RowPlus(c1, d2);
    var b2 := RowRotate(RowXor(b1, c2), 7);
    RowQuad(a2, b2, c2, d2)
  }

  lemma VectorQuarterRoundIs(a: Row, b: Row, c: Row, d: Row)
    ensures var p := QuarterRound(a.a, b.a, c.a, d.a);
            var q := QuarterRound(a.b, b.b, c.b, d.b);
            var r := QuarterRound(a.c, b.c, c.c, d.c);
            var t := QuarterRound(a.d, b.d, c.d, d.d);
              VectorQuarterRound(a, b, c, d)
              == RowQuad(Row(p.a, q.a, r.a, t.a), Row(p.b, q.b, r.b, t.b), Row(p.c, q.c, r.c, t.c), Row(p.d, q.d, r.d, t.d))
  {
    hide Plus, XorWord, Rol;
  }

  /** QUARTERROUND4: the rows are turned afterwards. */
  function QuarterRound4(s: State, rol1: nat, rol2: nat, rol3: nat): State
    requires 0 < rol1 < 4 && 0 < rol2 < 4 && 0 < rol3 < 4
  {
    var q := VectorQuarterRound(s.r0, s.r1, s.r2, s.r3);
    State(q.a, WordRol(q.b, rol1), WordRol(q.c, rol2), WordRol(q.d, rol3))
  }

  function RowDoubleRound(s: State): State {
    QuarterRound4(QuarterRound4(s, 1, 2, 3), 3, 2, 1)
  }

  /** Turning the rows makes the diagonals columns and back. */
  lemma RowsRefine(s: State)
    ensures RowDoubleRound(s) == DoubleRound(s)
  {
    hide QuarterRound, VectorQuarterRound;
    VectorQuarterRoundIs(s.r0, s.r1, s.r2, s.r3);
    var t := QuarterRound4(s, 1, 2, 3);
    VectorQuarterRoundIs(t.r0, t.r1, t.r2, t.r3);
  }

  // ---- four lanes ----

  /** v0 .. v15: word i of four blocks. */
  datatype Lanes = Lanes(v0: Row, v1: Row, v2: Row, v3: Row, v4: Row, v5: Row, v6: Row, v7: Row,
                         v8: Row, v9: Row, v10: Row, v11: Row, v12: Row, v13: Row, v14: Row, v15: Row)

  function Pick(x: Row, j: nat): Word
    requires j < 4
  {
    if j == 0 then x.a else if j == 1 then x.b else if j == 2 then x.c else x.d
  }

  /** The state of lane j. */
  function Lane(v: Lanes, j: nat): State
    requires j < 4
  {
    State(Row(Pick(v.v0, j), Pick(v.v1, j), Pick(v.v2, j), Pick(v.v3, j)),
          Row(Pick(v.v4, j), Pick(v.v5, j), Pick(v.v6, j), Pick(v.v7, j)),
          Row(Pick(v.v8, j), Pick(v.v9, j), Pick(v.v10, j), Pick(v.v11, j)),
          Row(Pick(v.v12, j), Pick(v.v13, j), Pick(v.v14, j), Pick(v.v15, j)))
  }

  function LaneDoubleRound(v: Lanes): Lanes {
    var p := VectorQuarterRound(v.v0, v.v4, v.v8, v.v12);
    var q := VectorQuarterRound(v.v1, v.v5, v.v9, v.v13);
    var r := VectorQuarterRound(v.v2, v.v6, v.v10, v.v14);
    var t := VectorQuarterRound(v.v3, v.v7, v.v11, v.v15);
    var u := VectorQuarterRound(p.a, q.b, r.c, t.d);
    var w := VectorQuarterRound(q.a, r.b, t.c, p.d);
    var x := VectorQuarterRound(r.a, t.b, p.c, q.d);
    var y := VectorQuarterRound(t.a, p.b, q.c, r.d);
    Lanes(u.a, w.a, x.a, y.a, y.b, u.b, w.b, x.b, x.c, y.c, u.c, w.c, w.d, x.d, y.d, u.d)
  }

  function PickQuad(q: RowQuad, j: nat): Quad
    requires j < 4
  {
    Quad(Pick(q.a, j), Pick(q.b, j), Pick(q.c, j), Pick(q.d, j))
  }

  lemma PickQuarterRound(a: Row, b: Row, c: Row, d: Row, j: nat)
    requires j < 4
    ensures PickQuad(VectorQuarterRound(a, b, c, d), j)
         == QuarterRound(Pick(a, j), Pick(b, j), Pick(c, j), Pick(d, j))
  {
    hide QuarterRound, VectorQuarterRound;
    VectorQuarterRoundIs(a, b, c, d);
    var q := VectorQuarterRound(a, b, c, d);
    if j == 0 {
      assert PickQuad(q, 0) == QuarterRound(a.a, b.a, c.a, d.a);
    } else if j == 1 {
      assert PickQuad(q, 1) == QuarterRound(a.b, b.b, c.b, d.b);
    } else if j == 2 {
      assert PickQuad(q, 2) == QuarterRound(a.c, b.c, c.c, d.c);
    } else {
      assert PickQuad(q, 3) == QuarterRound(a.d, b.d, c.d, d.d);
    }
  }

  /** Each lane of a four-lane double round is a double round. */
  lemma LanesRefine(v: Lanes, j: nat)
    requires j < 4
    ensures Lane(LaneDoubleRound(v), j) == DoubleRound(Lane(v, j))
  {
    hide VectorQuarterRound, QuarterRound, Pick;
    var p := VectorQuarterRound(v.v0, v.v4, v.v8, v.v12);
    var q := VectorQuarterRound(v.v1, v.v5, v.v9, v.v13);
    var r := VectorQuarterRound(v.v2, v.v6, v.v10, v.v14);
    var t := VectorQuarterRound(v.v3, v.v7, v.v11, v.v15);
    PickQuarterRound(v.v0, v.v4, v.v8, v.v12, j);
    PickQuarterRound(v.v1, v.v5, v.v9, v.v13, j);
    PickQuarterRound(v.v2, v.v6, v.v10, v.v14, j);
    PickQuarterRound(v.v3, v.v7, v.v11, v.v15, j);
    PickQuarterRound(p.a, q.b, r.c, t.d, j);
    PickQuarterRound(q.a, r.b, t.c, p.d, j);
    PickQuarterRound(r.a, t.b, p.c, q.d, j);
    PickQuarterRound(t.a, p.b, q.c, r.d, j);
  }

  // ---- counters ----

  /** vec_add_ctr_u64: the low two words are one 64-bit number, and n is added to it. */
  function AddU64(v: Row, n: bv64): Row {
    Row(Low32(v.a, v.b, n), High32(v.a, v.b, n), v.c, v.d)
  }

  function Low32(lo: Word, hi: Word, n: bv64): Word {
    (((((hi as bv64) << 32) | (lo as bv64)) + n) & 0xffff_ffff) as bv32
  }

  function High32(lo: Word, hi: Word, n: bv64): Word {
    (((((hi as bv64) << 32) | (lo as bv64)) + n) >> 32) as bv32
  }

  lemma LowSum(lo: Word, hi: Word)
    ensures Low32(lo, hi, 1) == Plus(lo, 1) && Low32(lo, hi, 4) == Plus(lo, 4)
  {
  }

  lemma HighOne(lo: Word, hi: Word)
    requires lo != 0xffff_ffff
    ensures High32(lo, hi, 1) == Plus(hi, 0)
  {
  }

  lemma HighOneWraps(lo: Word, hi: Word)
    requires lo == 0xffff_ffff
    ensures High32(lo, hi, 1) == Plus(hi, 1)
  {
  }

  lemma HighFour(lo: Word, hi: Word)
    requires lo < 0xffff_fffc
    ensures High32(lo, hi, 4) == Plus(hi, 0)
  {
  }

  lemma HighFourWraps(lo: Word, hi: Word)
    requires lo >= 0xffff_fffc
    ensures High32(lo, hi, 4) == Plus(hi, 1)
  {
  }

  lemma Wraps(lo: Word)
    ensures Plus(lo, 1) < 1 <==> lo == 0xffff_ffff
    ensures Plus(lo, 4) < 4 <==> lo >= 0xffff_fffc
  {
  }

  /** vec_cmplt subtracted: minus all ones is plus one. */
  function MinusLess(hi: Word, lo: Word, n: Word): Word {
    if lo < n then hi - 0xffff_ffff else hi
  }

  /** The low words after j steps of the counter, with the carry found by comparison. */
  function CounterRow(r: Row, j: Word): Row {
    Row(Plus(r.a, j), Plus(r.b, if Plus(r.a, j) < j then 1 else 0), r.c, r.d)
  }

  lemma SumStep(lo: Word, j: Word)
    ensures Plus(Plus(lo, j), 1) == Plus(lo, j + 1)
  {
  }

  lemma PlusNothing(x: Word)
    ensures Plus(x, 0) == x
  {
  }

  lemma WrapNow(lo: Word, j: Word)
    requires j < 4 && Plus(lo, j + 1) == 0
    ensures !(Plus(lo, j) < j) && Plus(lo, j + 1) < j + 1
  {
  }

  lemma NoWrapNow(lo: Word, j: Word)
    requires j < 4 && Plus(lo, j + 1) != 0
    ensures Plus(lo, j) < j <==> Plus(lo, j + 1) < j + 1
  {
  }

  lemma CarryStep(lo: Word, hi: Word, j: Word)
    requires j < 4
    ensures Plus(Plus(lo, j), 1) == Plus(lo, j + 1)
    ensures Plus(Plus(hi, if Plus(lo, j) < j then 1 else 0), if Plus(Plus(lo, j), 1) == 0 then 1 else 0)
         == Plus(hi, if Plus(lo, j + 1) < j + 1 then 1 else 0)
  {
    hide Plus;
    SumStep(lo, j);
    PlusNothing(hi);
    PlusNothing(Plus(hi, 1));
    if Plus(lo, j + 1) == 0 {
      WrapNow(lo, j);
    } else {
      NoWrapNow(lo, j);
    }
  }

  lemma CounterZero(r: Row)
    ensures CounterRow(r, 0) == r
  {
  }

  lemma NextCounterRow(s: State, j: Word)
    requires j < 4
    ensures NextCounter(s.(r3 := CounterRow(s.r3, j))) == s.(r3 := CounterRow(s.r3, j + 1))
  {
    hide Plus;
    CarryStep(s.r3.a, s.r3.b, j);
  }

  /** Stepping the counter one block at a time through a wrap of its low word is one 64-bit
      addition, and the comparison finds the carry. */
  lemma Counters(s: State)
    ensures Counter(0, s) == s
    ensures Counter(1, s) == s.(r3 := CounterRow(s.r3, 1))
    ensures Counter(2, s) == s.(r3 := CounterRow(s.r3, 2))
    ensures Counter(3, s) == s.(r3 := CounterRow(s.r3, 3))
    ensures Counter(4, s) == s.(r3 := CounterRow(s.r3, 4))
  {
    hide CounterRow, NextCounter;
    CounterZero(s.r3);
    NextCounterRow(s, 0);
    NextCounterRow(s, 1);
    NextCounterRow(s, 2);
    NextCounterRow(s, 3);
  }

  /** Both vector additions of the counter. */
  lemma AddU64Is(r: Row)
    ensures AddU64(r, 1) == CounterRow(r, 1) && AddU64(r, 4) == CounterRow(r, 4)
  {
    hide Low32, High32, Plus;
    LowSum(r.a, r.b);
    Wraps(r.a);
    if r.a == 0xffff_ffff {
      HighOneWraps(r.a, r.b);
    } else {
      HighOne(r.a, r.b);
    }
    if r.a >= 0xffff_fffc {
      HighFourWraps(r.a, r.b);
    } else {
      HighFour(r.a, r.b);
    }
  }

  lemma {:induction false} CounterPlus(m: nat, n: nat, s: State)
    ensures Counter(m, Counter(n, s)) == Counter(m + n, s)
  {
    hide NextCounter;
    if m > 0 {
      CounterPlus(m - 1, n, s);
    }
  }

  // ---- octets ----

  function ByteOf(w: Word, n: bv6): byte
    requires n <= 24
  {
    ((w >> n) & 0xff) as bv8
  }

  function WordBytes(w: Word): (s: seq<byte>)
    ensures |s| == 4
  {
    [ByteOf(w, 0), ByteOf(w, 8), ByteOf(w, 16), ByteOf(w, 24)]
  }

  function Join(a: byte, b: byte, c: byte, d: byte): Word {
    (a as bv32) | ((b as bv32) << 8) | ((c as bv32) << 16) | ((d as bv32) << 24)
  }

  /** buf_get_le32 */
  function LoadWord(s: seq<byte>): Word
    requires |s| == 4
  {
    Join(s[0], s[1], s[2], s[3])
  }

  lemma XorByteFirst(x: Word, a: byte, b: byte, c: byte, d: byte)
    ensures ByteOf(XorWord(x, Join(a, b, c, d)), 0) == XorByte(a, ByteOf(x, 0))
  {
  }

  lemma XorByteSecond(x: Word, a: byte, b: byte, c: byte, d: byte)
    ensures ByteOf(XorWord(x, Join(a, b, c, d)), 8) == XorByte(b, ByteOf(x, 8))
  {
  }

  lemma XorByteThird(x: Word, a: byte, b: byte, c: byte, d: byte)
    ensures ByteOf(XorWord(x, Join(a, b, c, d)), 16) == XorByte(c, ByteOf(x, 16))
  {
  }

  lemma XorByteFourth(x: Word, a: byte, b: byte, c: byte, d: byte)
    ensures ByteOf(XorWord(x, Join(a, b, c, d)), 24) == XorByte(d, ByteOf(x, 24))
  {
  }

  lemma XorWordBytes(x: Word, p: seq<byte>)
    requires |p| == 4
    ensures WordBytes(XorWord(x, LoadWord(p))) == Xor(p, WordBytes(x))
  {
    hide ByteOf, XorWord, Join, XorByte;
    XorByteFirst(x, p[0], p[1], p[2], p[3]);
    XorByteSecond(x, p[0], p[1], p[2], p[3]);
    XorByteThird(x, p[0], p[1], p[2], p[3]);
    XorByteFourth(x, p[0], p[1], p[2], p[3]);
  }

  function RowBytes(x: Row): (s: seq<byte>)
    ensures |s| == 16
  {
    WordBytes(x.a) + WordBytes(x.b) + WordBytes(x.c) + WordBytes(x.d)
  }

  function LoadRow(s: seq<byte>): Row
    requires |s| == 16
  {
    Row(LoadWord(s[..4]), LoadWord(s[4..8]), LoadWord(s[8..12]), LoadWord(s[12..]))
  }

  lemma XorRowBytes(x: Row, p: seq<byte>)
    requires |p| == 16
    ensures RowBytes(RowXor(x, LoadRow(p))) == Xor(p, RowBytes(x))
  {
    hide WordBytes, LoadWord, XorWord, Xor;
    XorWordBytes(x.a, p[..4]);
    XorWordBytes(x.b, p[4..8]);
    XorWordBytes(x.c, p[8..12]);
    XorWordBytes(x.d, p[12..]);
    assert p == p[..4] + p[4..8] + p[8..12] + p[12..];
    XorConcat(p[..4], p[4..8], WordBytes(x.a), WordBytes(x.b));
    XorConcat(p[..4] + p[4..8], p[8..12], WordBytes(x.a) + WordBytes(x.b), WordBytes(x.c));
    XorConcat(p[..4] + p[4..8] + p[8..12], p[12..], WordBytes(x.a) + WordBytes(x.b) + WordBytes(x.c), WordBytes(x.d));
  }

  function StateBytes(x: State): (s: seq<byte>)
    ensures |s| == 64
  {
    RowBytes(x.r0) + RowBytes(x.r1) + RowBytes(x.r2) + RowBytes(x.r3)
  }

  /** Sixty-four octets of input xored onto a block, four words at a time. */
  function XorState(x: State, p: seq<byte>): State
    requires |p| == 64
  {
    State(RowXor(x.r0, LoadRow(p[..16])), RowXor(x.r1, LoadRow(p[16..32])),
          RowXor(x.r2, LoadRow(p[32..48])), RowXor(x.r3, LoadRow(p[48..])))
  }

  lemma XorStateBytes(x: State, p: seq<byte>)
    requires |p| == 64
    ensures StateBytes(XorState(x, p)) == Xor(p, StateBytes(x))
  {
    hide RowBytes, LoadRow, RowXor, Xor;
    XorRowBytes(x.r0, p[..16]);
    XorRowBytes(x.r1, p[16..32]);
    XorRowBytes(x.r2, p[32..48]);
    XorRowBytes(x.r3, p[48..]);
    assert p == p[..16] + p[16..32] + p[32..48] + p[48..];
    XorConcat(p[..16], p[16..32], RowBytes(x.r0), RowBytes(x.r1));
    XorConcat(p[..16] + p[16..32], p[32..48], RowBytes(x.r0) + RowBytes(x.r1), RowBytes(x.r2));
    XorConcat(p[..16] + p[16..32] + p[32..48], p[48..], RowBytes(x.r0) + RowBytes(x.r1) + RowBytes(x.r2), RowBytes(x.r3));
  }

  /** n blocks of key stream. */
  function Stream(s: State, n: nat): (r: seq<byte>)
    ensures |r| == 64 * n
  {
    if n == 0 then [] else Stream(s, n - 1) + StateBytes(Block(Counter(n - 1, s)))
  }

  lemma {:induction false} StreamPlus(s: State, m: nat, n: nat)
    ensures Stream(s, m + n) == Stream(s, m) + Stream(Counter(m, s), n)
  {
    hide StateBytes, Block;
    if n == 0 {
    } else {
      StreamPlus(s, m, n - 1);
      CounterPlus(n - 1, m, s);
      ConcatAssociates(Stream(s, m), Stream(Counter(m, s), n - 1), StateBytes(Block(Counter(m + n - 1, s))));
    }
  }

  lemma OneBlock(s: State)
    ensures Stream(s, 1) == StateBytes(Block(s)) && Counter(1, s) == NextCounter(s)
  {
    hide StateBytes, Block;
    assert Stream(s, 0) == [];
  }

  // ---- the three implementations ----

  /** What every implementation does: nblks blocks of key stream xored from src to dst, and the
      counter advanced by nblks. */
  ghost predicate Done(input: State, next: State, nblks: nat, data: seq<byte>, out: seq<byte>) {
    next == Counter(nblks, input) && |data| == 64 * nblks && out == Xor(data, Stream(input, nblks))
  }

  /** Sixteen words of a finished block xored onto the next sixty-four octets. */
  method Emit(dst: array<byte>, ghost out0: seq<byte>, ghost op: nat, src: array<byte>, ghost in0: seq<byte>, ghost ip: nat,
              ghost data: seq<byte>, ghost st: seq<byte>, x: State, o: nat, i: nat)
    requires Xored(dst, out0, op, src, in0, ip, data, st) && |st| + 64 <= |data| && o == op + |st| && i == ip + |st|
    modifies dst
    ensures Xored(dst, out0, op, src, in0, ip, data, st + StateBytes(x))
  {
    hide StateBytes, XorState, Xor, Splice;
    XoredRead(dst, out0, op, src, in0, ip, data, st, 64);
    XorStateBytes(x, src[i..i + 64]);
    XoredPut(dst, out0, op, src, in0, ip, data, st, StateBytes(x), o, StateBytes(XorState(x, src[i..i + 64])));
  }

  /** do_chacha20_blocks: one block at a time. */
  method ScalarBlocks(input: State, dst: array<byte>, op: nat, src: array<byte>, ip: nat, nblks0: nat)
      returns (next: State, ghost out: seq<byte>)
    requires op + 64 * nblks0 <= dst.Length && ip + 64 * nblks0 <= src.Length && Separate(dst, op, src, ip)
    modifies dst
    ensures Done(input, next, nblks0, old(src[ip..ip + 64 * nblks0]), out)
    ensures |out| == 64 * nblks0 && dst[..] == Splice(old(dst[..]), op, out)
  {
    hide StateBytes, Block, XorState, NextCounter, Xor, Splice, Xored, DoubleRound, StatePlus;
    ghost var out0, in0, data := dst[..], src[..], src[ip..ip + 64 * nblks0];
    next := input;
    var nblks, o, i := nblks0, op, ip;
    ghost var j := 0;
    XoredNothing(dst, op, src, ip, 64 * nblks0);
    while nblks > 0
      invariant 0 <= nblks && 0 <= j && j + nblks == nblks0 && o == op + 64 * j && i == ip + 64 * j
      invariant next == Counter(j, input)
      invariant Xored(dst, out0, op, src, in0, ip, data, Stream(input, j))
    {
      var x := next;
      var r := 20;
      while r > 0
        invariant 0 <= r <= 20 && r % 2 == 0 && x == Rounds(10 - r / 2, next)
      {
        x := DoubleRound(x);
        r := r - 2;
      }
      x := StatePlus(x, next);
      BlockIs(next, x);
      next := NextCounter(next);
      Emit(dst, out0, op, src, in0, ip, data, Stream(input, j), x, o, i);
      i := i + 64;
      o := o + 64;
      nblks := nblks - 1;
      j := j + 1;
    }
    out := Xor(data, Stream(input, nblks0));
    XoredAll(dst, out0, op, src, in0, ip, data, Stream(input, nblks0));
  }

  lemma BlockIs(s: State, x: State)
    requires x == StatePlus(Rounds(10, s), s)
    ensures x == Block(s)
  {
  }

  /** The round loop over two blocks side by side. */
  method RowRounds(s: State, t: State) returns (v: State, w: State)
    ensures v == Rounds(10, s) && w == Rounds(10, t)
  {
    hide RowDoubleRound, DoubleRound;
    v, w := s, t;
    var r := 20;
    while r > 0
      invariant 0 <= r <= 20 && r % 2 == 0 && v == Rounds(10 - r / 2, s) && w == Rounds(10 - r / 2, t)
    {
      RowsRefine(v);
      RowsRefine(w);
      v := RowDoubleRound(v);
      w := RowDoubleRound(w);
      r := r - 2;
    }
  }

  /** chacha20_ppc_blocks1: row vectors, two blocks side by side and then the odd one. */
  method VectorBlocks1(state: State, dst: array<byte>, op: nat, src: array<byte>, ip: nat, nblks0: nat)
      returns (next: State, ghost out: seq<byte>)
    requires op + 64 * nblks0 <= dst.Length && ip + 64 * nblks0 <= src.Length && Separate(dst, op, src, ip)
    modifies dst
    ensures Done(state, next, nblks0, old(src[ip..ip + 64 * nblks0]), out)
    ensures |out| == 64 * nblks0 && dst[..] == Splice(old(dst[..]), op, out)
  {
    hide StateBytes, Block, XorState, NextCounter, Xor, Splice, Xored, StatePlus, AddU64, Rounds;
    ghost var out0, in0, data := dst[..], src[..], src[ip..ip + 64 * nblks0];
    next := state;
    var nblks, o, i := nblks0, op, ip;
    ghost var j := 0;
    XoredNothing(dst, op, src, ip, 64 * nblks0);
    while nblks >= 2
      invariant 0 <= nblks && 0 <= j && j + nblks == nblks0 && o == op + 64 * j && i == ip + 64 * j
      invariant next == Counter(j, state)
      invariant Xored(dst, out0, op, src, in0, ip, data, Stream(state, j))
    {
      VectorStep(next);
      var v, w := RowRounds(next, next.(r3 := AddU64(next.r3, 1)));
      v := StatePlus(v, next);
      BlockIs(next, v);
      next := next.(r3 := AddU64(next.r3, 1));
      w := StatePlus(w, next);
      BlockIs(next, w);
      VectorStep(next);
      next := next.(r3 := AddU64(next.r3, 1));

      Emit(dst, out0, op, src, in0, ip, data, Stream(state, j), v, o, i);
      i := i + 64;
      o := o + 64;
      Emit(dst, out0, op, src, in0, ip, data, Stream(state, j + 1), w, o, i);
      i := i + 64;
      o := o + 64;
      nblks := nblks - 2;
      j := j + 2;
    }

    while nblks > 0
      invariant 0 <= nblks && 0 <= j && j + nblks == nblks0 && o == op + 64 * j && i == ip + 64 * j
      invariant next == Counter(j, state)
      invariant Xored(dst, out0, op, src, in0, ip, data, Stream(state, j))
    {
      next := VectorLast(next, dst, out0, op, src, in0, ip, data, Stream(state, j), o, i);
      i := i + 64;
      o := o + 64;
      nblks := nblks - 1;
      j := j + 1;
    }
    out := Xor(data, Stream(state, nblks0));
    XoredAll(dst, out0, op, src, in0, ip, data, Stream(state, nblks0));
  }

  /** One block in row vectors. */
  method VectorLast(state: State, dst: array<byte>, ghost out0: seq<byte>, ghost op: nat, src: array<byte>, ghost in0: seq<byte>,
                    ghost ip: nat, ghost data: seq<byte>, ghost st: seq<byte>, o: nat, i: nat) returns (next: State)
    requires Xored(dst, out0, op, src, in0, ip, data, st) && |st| + 64 <= |data| && o == op + |st| && i == ip + |st|
    modifies dst
    ensures next == NextCounter(state) && Xored(dst, out0, op, src, in0, ip, data, st + StateBytes(Block(state)))
  {
    hide StateBytes, Block, NextCounter, Xored, StatePlus, AddU64, Rounds;
    var v, w := RowRounds(state, state);
    v := StatePlus(v, state);
    BlockIs(state, v);
    VectorStep(state);
    next := state.(r3 := AddU64(state.r3, 1));
    Emit(dst, out0, op, src, in0, ip, data, st, v, o, i);
  }

  lemma VectorStep(s: State)
    ensures s.(r3 := AddU64(s.r3, 1)) == NextCounter(s)
  {
    hide AddU64, CounterRow, NextCounter;
    AddU64Is(s.r3);
    NextCounterRow(s, 0);
    CounterZero(s.r3);
  }

  // ---- four blocks at a time, one per lane ----

  /** vec_splat */
  function Splat(w: Word): Row {
    Row(w, w, w, w)
  }

  function Counters0123(): Row {
    Row(0, 1, 2, 3)
  }

  /** v13 -= vec_cmplt(v12, counters_0123) */
  function SubLess(hi: Row, lo: Row): Row {
    Row(MinusLess(hi.a, lo.a, 0), MinusLess(hi.b, lo.b, 1), MinusLess(hi.c, lo.c, 2), MinusLess(hi.d, lo.d, 3))
  }

  /** The sixteen vectors before the rounds; the same vectors are added after them. */
  function SplatState(s: State): Lanes {
    var v12 := RowPlus(Splat(s.r3.a), Counters0123());
    Lanes(Splat(s.r0.a), Splat(s.r0.b), Splat(s.r0.c), Splat(s.r0.d),
          Splat(s.r1.a), Splat(s.r1.b), Splat(s.r1.c), Splat(s.r1.d),
          Splat(s.r2.a), Splat(s.r2.b), Splat(s.r2.c), Splat(s.r2.d),
          v12, SubLess(Splat(s.r3.b), v12), Splat(s.r3.c), Splat(s.r3.d))
  }

  lemma MinusLessIs(hi: Word, lo: Word, n: Word)
    ensures MinusLess(hi, lo, n) == Plus(hi, if lo < n then 1 else 0)
  {
    hide Plus;
    MinusOnes(hi);
  }

  lemma MinusOnes(x: Word)
    ensures x - 0xffff_ffff == Plus(x, 1) && x == Plus(x, 0)
  {
  }

  lemma LaneRows(s: State, j: nat)
    requires j < 4
    ensures Lane(SplatState(s), j) == s.(r3 := CounterRow(s.r3, if j == 0 then 0 else if j == 1 then 1 else if j == 2 then 2 else 3))
  {
    hide Plus, MinusLess;
    MinusLessIs(s.r3.b, Plus(s.r3.a, 0), 0);
    MinusLessIs(s.r3.b, Plus(s.r3.a, 1), 1);
    MinusLessIs(s.r3.b, Plus(s.r3.a, 2), 2);
    MinusLessIs(s.r3.b, Plus(s.r3.a, 3), 3);
  }

  /** Lane j starts from the state whose counter is j blocks on, whether or not the low word wraps. */
  lemma LanesStart(s: State, j: nat)
    requires j < 4
    ensures Lane(SplatState(s), j) == Counter(j, s)
  {
    hide Lane, SplatState, CounterRow, Counter;
    LaneRows(s, j);
    Counters(s);
    CounterZero(s.r3);
  }

  function LaneRounds(n: nat, v: Lanes): Lanes {
    if n == 0 then v else LaneDoubleRound(LaneRounds(n - 1, v))
  }

  lemma {:induction false} LaneRoundsRefine(n: nat, v: Lanes, j: nat)
    requires j < 4
    ensures Lane(LaneRounds(n, v), j) == Rounds(n, Lane(v, j))
  {
    hide Lane, LaneDoubleRound, DoubleRound;
    if n > 0 {
      LaneRoundsRefine(n - 1, v, j);
      LanesRefine(LaneRounds(n - 1, v), j);
    }
  }

  function LanesPlus(v: Lanes, w: Lanes): Lanes {
    Lanes(RowPlus(v.v0, w.v0), RowPlus(v.v1, w.v1), RowPlus(v.v2, w.v2), RowPlus(v.v3, w.v3),
          RowPlus(v.v4, w.v4), RowPlus(v.v5, w.v5), RowPlus(v.v6, w.v6), RowPlus(v.v7, w.v7),
          RowPlus(v.v8, w.v8), RowPlus(v.v9, w.v9), RowPlus(v.v10, w.v10), RowPlus(v.v11, w.v11),
          RowPlus(v.v12, w.v12), RowPlus(v.v13, w.v13), RowPlus(v.v14, w.v14), RowPlus(v.v15, w.v15))
  }

  lemma PickPlus(x: Row, y: Row, j: nat)
    requires j < 4
    ensures Pick(RowPlus(x, y), j) == Plus(Pick(x, j), Pick(y, j))
  {
    hide Plus;
  }

  lemma LanePlus(v: Lanes, w: Lanes, j: nat)
    requires j < 4
    ensures Lane(LanesPlus(v, w), j) == StatePlus(Lane(v, j), Lane(w, j))
  {
    hide Plus, Pick;
    PickPlus(v.v0, w.v0, j);
    PickPlus(v.v1, w.v1, j);
    PickPlus(v.v2, w.v2, j);
    PickPlus(v.v3, w.v3, j);
    PickPlus(v.v4, w.v4, j);
    PickPlus(v.v5, w.v5, j);
    PickPlus(v.v6, w.v6, j);
    PickPlus(v.v7, w.v7, j);
    PickPlus(v.v8, w.v8, j);
    PickPlus(v.v9, w.v9, j);
    PickPlus(v.v10, w.v10, j);
    PickPlus(v.v11, w.v11, j);
    PickPlus(v.v12, w.v12, j);
    PickPlus(v.v13, w.v13, j);
    PickPlus(v.v14, w.v14, j);
    PickPlus(v.v15, w.v15, j);
  }

  function MergeHigh(x: Row, y: Row): Row {
    Row(x.a, y.a, x.b, y.b)
  }

  function MergeLow(x: Row, y: Row): Row {
    Row(x.c, y.c, x.d, y.d)
  }

  /** transpose_4x4 */
  function Transpose(x0: Row, x1: Row, x2: Row, x3: Row): RowQuad {
    var t1 := MergeHigh(x0, x2);
    var t2 := MergeLow(x0, x2);
    var t3 := MergeHigh(x1, x3);
    var t4 := MergeLow(x1, x3);
    RowQuad(MergeHigh(t1, t3), MergeLow(t1, t3), MergeHigh(t2, t4), MergeLow(t2, t4))
  }

  datatype Four = Four(b0: State, b1: State, b2: State, b3: State)

  /** The four transposes turn sixteen vectors of four lanes into four blocks of four rows. */
  function TransposeLanes(v: Lanes): Four {
    var p := Transpose(v.v0, v.v1, v.v2, v.v3);
    var q := Transpose(v.v4, v.v5, v.v6, v.v7);
    var r := Transpose(v.v8, v.v9, v.v10, v.v11);
    var t := Transpose(v.v12, v.v13, v.v14, v.v15);
    Four(State(p.a, q.a, r.a, t.a), State(p.b, q.b, r.b, t.b), State(p.c, q.c, r.c, t.c), State(p.d, q.d, r.d, t.d))
  }

  lemma TransposeIs(v: Lanes)
    ensures TransposeLanes(v) == Four(Lane(v, 0), Lane(v, 1), Lane(v, 2), Lane(v, 3))
  {
  }

  /** Four consecutive blocks, from the finished lanes. */
  lemma FourBlocks(s: State, v: Lanes)
    requires v == LanesPlus(LaneRounds(10, SplatState(s)), SplatState(s))
    ensures TransposeLanes(v) == Four(Block(Counter(0, s)), Block(Counter(1, s)), Block(Counter(2, s)), Block(Counter(3, s)))
  {
    hide Lane, SplatState, LaneRounds, Rounds, LanesPlus, StatePlus, TransposeLanes, Counter;
    TransposeIs(v);
    var w := SplatState(s);
    LaneBlock(s, 0);
    LaneBlock(s, 1);
    LaneBlock(s, 2);
    LaneBlock(s, 3);
  }

  lemma LaneBlock(s: State, j: nat)
    requires j < 4
    ensures Lane(LanesPlus(LaneRounds(10, SplatState(s)), SplatState(s)), j) == Block(Counter(j, s))
  {
    hide Lane, SplatState, LaneRounds, Rounds, LanesPlus, StatePlus, Counter;
    var w := SplatState(s);
    LanesStart(s, j);
    LaneRoundsRefine(10, w, j);
    LanePlus(LaneRounds(10, w), w, j);
  }

  function FourBytes(f: Four): (s: seq<byte>)
    ensures |s| == 256
  {
    StateBytes(f.b0) + StateBytes(f.b1) + StateBytes(f.b2) + StateBytes(f.b3)
  }

  function XorFour(f: Four, p: seq<byte>): Four
    requires |p| == 256
  {
    Four(XorState(f.b0, p[..64]), XorState(f.b1, p[64..128]), XorState(f.b2, p[128..192]), XorState(f.b3, p[192..]))
  }

  lemma XorFourBytes(f: Four, p: seq<byte>)
    requires |p| == 256
    ensures FourBytes(XorFour(f, p)) == Xor(p, FourBytes(f))
  {
    hide StateBytes, XorState, Xor;
    XorStateBytes(f.b0, p[..64]);
    XorStateBytes(f.b1, p[64..128]);
    XorStateBytes(f.b2, p[128..192]);
    XorStateBytes(f.b3, p[192..]);
    assert p == p[..64] + p[64..128] + p[128..192] + p[192..];
    XorConcat(p[..64], p[64..128], StateBytes(f.b0), StateBytes(f.b1));
    XorConcat(p[..64] + p[64..128], p[128..192], StateBytes(f.b0) + StateBytes(f.b1), StateBytes(f.b2));
    XorConcat(p[..64] + p[64..128] + p[128..192], p[192..], StateBytes(f.b0) + StateBytes(f.b1) + StateBytes(f.b2), StateBytes(f.b3));
  }

  lemma StreamFour(s: State)
    ensures Stream(s, 4) == FourBytes(Four(Block(Counter(0, s)), Block(Counter(1, s)), Block(Counter(2, s)), Block(Counter(3, s))))
  {
    hide StateBytes, Block, Counter;
    assert Stream(s, 0) == [];
    assert Stream(s, 1) == Stream(s, 0) + StateBytes(Block(Counter(0, s)));
    assert Stream(s, 2) == Stream(s, 1) + StateBytes(Block(Counter(1, s)));
    assert Stream(s, 3) == Stream(s, 2) + StateBytes(Block(Counter(2, s)));
    assert Stream(s, 4) == Stream(s, 3) + StateBytes(Block(Counter(3, s)));
  }

  /** The round loop of the four-lane form. */
  method LaneRoundLoop(s: State) returns (v: Lanes)
    ensures v == LaneRounds(10, SplatState(s))
  {
    hide SplatState, LaneDoubleRound;
    v := SplatState(s);
    var r := 20;
    while r > 0
      invariant 0 <= r <= 20 && r % 2 == 0 && v == LaneRounds(10 - r / 2, SplatState(s))
    {
      v := LaneDoubleRound(v);
      r := r - 2;
    }
  }

  /** After the rounds: feed-forward, counter, transposition; four blocks are ready. */
  method LaneFinish(s: State, v: Lanes) returns (f: Four, next: State)
    requires v == LaneRounds(10, SplatState(s))
    ensures FourBytes(f) == Stream(s, 4) && next == Counter(4, s)
  {
    hide SplatState, LaneRounds, LanesPlus, TransposeLanes, Block, Counter, Stream, FourBytes, AddU64, CounterRow;
    var w := LanesPlus(v, SplatState(s));
    AddU64Is(s.r3);
    Counters(s);
    next := s.(r3 := AddU64(s.r3, 4));
    FourBlocks(s, w);
    StreamFour(s);
    f := TransposeLanes(w);
  }

  /** All the loads and xors, then all the stores, of four blocks. */
  method EmitFour(dst: array<byte>, ghost out0: seq<byte>, ghost op: nat, src: array<byte>, ghost in0: seq<byte>, ghost ip: nat,
                  ghost data: seq<byte>, ghost st: seq<byte>, f: Four, o: nat, i: nat)
    requires Xored(dst, out0, op, src, in0, ip, data, st) && |st| + 256 <= |data| && o == op + |st| && i == ip + |st|
    modifies dst
    ensures Xored(dst, out0, op, src, in0, ip, data, st + FourBytes(f)) && dst[..o] == old(dst[..o])
  {
    hide FourBytes, XorFour, Xor, Splice;
    XoredRead(dst, out0, op, src, in0, ip, data, st, 256);
    XorFourBytes(f, src[i..i + 256]);
    XoredPut(dst, out0, op, src, in0, ip, data, st, FourBytes(f), o, FourBytes(XorFour(f, src[i..i + 256])));
  }

  /** chacha20_ppc_blocks4: for a positive multiple of four blocks. */
  method VectorBlocks4(state: State, dst: array<byte>, op: nat, src: array<byte>, ip: nat, nblks0: nat)
      returns (next: State, ghost out: seq<byte>)
    requires nblks0 > 0 && nblks0 % 4 == 0
    requires op + 64 * nblks0 <= dst.Length && ip + 64 * nblks0 <= src.Length && Separate(dst, op, src, ip)
    modifies dst
    ensures Done(state, next, nblks0, old(src[ip..ip + 64 * nblks0]), out)
    ensures |out| == 64 * nblks0 && dst[..] == Splice(old(dst[..]), op, out)
  {
    hide Xor, Splice, Xored, SplatState, LaneRounds, FourBytes, Counter, Stream;
    ghost var out0, in0, data := dst[..], src[..], src[ip..ip + 64 * nblks0];
    next := state;
    var nblks, o, i := nblks0, op, ip;
    ghost var j := 0;
    XoredNothing(dst, op, src, ip, 64 * nblks0);
    StreamStart(state);
    while nblks > 0
      invariant 0 <= nblks && nblks % 4 == 0 && 0 <= j && j + nblks == nblks0 && o == op + 64 * j && i == ip + 64 * j
      invariant next == Counter(j, state)
      invariant Xored(dst, out0, op, src, in0, ip, data, Stream(state, j))
    {
      var v := LaneRoundLoop(next);
      var f;
      StreamPlus(state, j, 4);
      CounterPlus(4, j, state);
      f, next := LaneFinish(next, v);
      EmitFour(dst, out0, op, src, in0, ip, data, Stream(state, j), f, o, i);
      i := i + 256;
      o := o + 256;
      nblks := nblks - 4;
      j := j + 4;
    }
    out := Xor(data, Stream(state, nblks0));
    XoredAll(dst, out0, op, src, in0, ip, data, Stream(state, nblks0));
  }

  lemma StreamStart(s: State)
    ensures Stream(s, 0) == [] && Counter(0, s) == s
  {
  }

  // The four QUARTERROUND2 of a double round, for callers that do other work between them.

  function Step1(v: Lanes): Lanes {
    var p := VectorQuarterRound(v.v0, v.v4, v.v8, v.v12);
    var q := VectorQuarterRound(v.v1, v.v5, v.v9, v.v13);
    v.(v0 := p.a, v4 := p.b, v8 := p.c, v12 := p.d, v1 := q.a, v5 := q.b, v9 := q.c, v13 := q.d)
  }

  function Step2(v: Lanes): Lanes {
    var p := VectorQuarterRound(v.v2, v.v6, v.v10, v.v14);
    var q := VectorQuarterRound(v.v3, v.v7, v.v11, v.v15);
    v.(v2 := p.a, v6 := p.b, v10 := p.c, v14 := p.d, v3 := q.a, v7 := q.b, v11 := q.c, v15 := q.d)
  }

  function Step3(v: Lanes): Lanes {
    var p := VectorQuarterRound(v.v0, v.v5, v.v10, v.v15);
    var q := VectorQuarterRound(v.v1, v.v6, v.v11, v.v12);
    v.(v0 := p.a, v5 := p.b, v10 := p.c, v15 := p.d, v1 := q.a, v6 := q.b, v11 := q.c, v12 := q.d)
  }

  function Step4(v: Lanes): Lanes {
    var p := VectorQuarterRound(v.v2, v.v7, v.v8, v.v13);
    var q := VectorQuarterRound(v.v3, v.v4, v.v9, v.v14);
    v.(v2 := p.a, v7 := p.b, v8 := p.c, v13 := p.d, v3 := q.a, v4 := q.b, v9 := q.c, v14 := q.d)
  }

  lemma StepsAre(v: Lanes)
    ensures Step4(Step3(Step2(Step1(v)))) == LaneDoubleRound(v)
  {
    hide VectorQuarterRound;
  }

  // ---- the key stream by position ----

  function KeyByte(s: State, p: nat): byte {
    StateBytes(Block(Counter(p / 64, s)))[p % 64]
  }

  function KeyStream(s: State, from: nat, len: nat): (r: seq<byte>)
    ensures |r| == len
  {
    seq(len, i requires 0 <= i < len => KeyByte(s, from + i))
  }

  lemma KeyStreamConcat(s: State, from: nat, m: nat, n: nat)
    ensures KeyStream(s, from, m + n) == KeyStream(s, from, m) + KeyStream(s, from + m, n)
  {
    hide KeyByte;
  }

  lemma KeyStreamSlice(s: State, from: nat, len: nat, i: nat, j: nat)
    requires i <= j <= len
    ensures KeyStream(s, from, len)[i..j] == KeyStream(s, from + i, j - i)
  {
    hide KeyByte;
  }

  lemma KeyStreamBlock(s: State, q: nat)
    ensures KeyStream(s, 64 * q, 64) == StateBytes(Block(Counter(q, s)))
  {
    hide StateBytes, Block, Counter;
    forall i | 0 <= i < 64
      ensures KeyByte(s, 64 * q + i) == StateBytes(Block(Counter(q, s)))[i]
    {
      assert (64 * q + i) / 64 == q && (64 * q + i) % 64 == i;
    }
  }

  /** Blocks made from a later counter are the key stream from that position on. */
  lemma {:induction false} StreamIsKeyStream(s: State, q: nat, n: nat)
    ensures Stream(Counter(q, s), n) == KeyStream(s, 64 * q, 64 * n)
  {
    hide StateBytes, Block, KeyStream, Counter;
    if n == 0 {
    } else {
      StreamIsKeyStream(s, q, n - 1);
      CounterPlus(n - 1, q, s);
      KeyStreamBlock(s, q + n - 1);
      KeyStreamConcat(s, 64 * q, 64 * (n - 1), 64);
    }
  }

  /** ChaCha20 on data at a stream position. */
  function Crypt(s: State, pos: nat, data: seq<byte>): (r: seq<byte>)
    ensures |r| == |data|
  {
    Xor(data, KeyStream(s, pos, |data|))
  }

  lemma CryptConcat(s: State, pos: nat, a: seq<byte>, b: seq<byte>)
    ensures Crypt(s, pos, a + b) == Crypt(s, pos, a) + Crypt(s, pos + |a|, b)
  {
    hide Xor, KeyStream;
    KeyStreamConcat(s, pos, |a|, |b|);
    XorConcat(a, b, KeyStream(s, pos, |a|), KeyStream(s, pos + |a|, |b|));
  }

  lemma CryptTwice(s: State, pos: nat, data: seq<byte>)
    ensures Crypt(s, pos, Crypt(s, pos, data)) == data
  {
    hide Xor, KeyStream;
    XorCancels(data, KeyStream(s, pos, |data|));
  }

  lemma CryptNothing(s: State, pos: nat)
    ensures Crypt(s, pos, []) == []
  {
  }
}
