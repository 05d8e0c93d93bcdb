/** Counting trailing zeros (bithelp.h). */
module BitHelp {
  import opened Bytes

  /** The number of trailing zero bits. */
  function Ntz(n: nat): nat
    requires n > 0
  {
    if n % 2 == 1 then 0 else 1 + Ntz(n / 2)
  }

  function Pow2(k: nat): (p: nat)
    ensures p > 0
  {
    if k == 0 then 1 else 2 * Pow2(k - 1)
  }

  /** The lowest set bit of x, which WordIs ties to -x & x. */
  function LowestBit(x: nat): nat
    requires x > 0
  {
    if x % 2 == 1 then 1 else 2 * LowestBit(x / 2)
  }

  function Mod37(): (t: seq<nat>)
    ensures |t| == 37
  {
    [32,
     0, 1, 26, 2, 23, 27, 0, 3, 16, 24, 30, 28, 11, 0, 13,
     4, 7, 17, 0, 25, 22, 31, 15, 29, 10, 12, 6, 0, 21, 14, 9,
     5, 20, 8, 19, 18]
  }

  /** _gcry_ctz on a 32-bit word, by the remainder of its lowest bit modulo 37. */
  function Ctz(x: nat): nat
    requires x < 0x1_0000_0000
  {
    Mod37()[if x == 0 then 0 else LowestBit(x) % 37]
  }

  function Ctz64(x: nat): nat
    requires x < 0x1_0000_0000_0000_0000
  {
    if x % 0x1_0000_0000 != 0 then Ctz(x % 0x1_0000_0000) else 32 + Ctz(x / 0x1_0000_0000)
  }

  // ---- what the counts mean ----

  lemma {:induction false} LowestBitIs(x: nat)
    requires x > 0
    ensures LowestBit(x) == Pow2(Ntz(x)) <= x
  {
    if x % 2 == 0 {
      LowestBitIs(x / 2);
    }
  }

  // ---- the expression on a 32-bit word ----

  function NumberOf(x: bv32): (n: nat) {
    x as nat
  }

  /** -x & x */
  function LowestBitWord(x: bv32): bv32 {
    (0 - x) & x
  }

  function Halved(x: bv32): bv32 {
    x >> 1
  }

  function Doubled(x: bv32): bv32 {
    x << 1
  }

  function IsOdd(x: bv32): bool {
    x & 1 == 1
  }

  lemma Halves(x: bv32)
    ensures NumberOf(x) == 2 * NumberOf(Halved(x)) + if IsOdd(x) then 1 else 0
  {
    var y := x >> 1;
    assert x == if x & 1 == 1 then (y << 1) | 1 else y << 1;
    TwiceNumber(y);
    TwiceAndOne(y);
  }

  lemma TwiceNumber(y: bv32)
    requires y < 0x8000_0000
    ensures (y << 1) as nat == 2 * (y as nat)
  {
  }

  lemma TwiceAndOne(y: bv32)
    requires y < 0x8000_0000
    ensures ((y << 1) | 1) as nat == 2 * (y as nat) + 1
  {
  }

  lemma LowestBitHalves(x: bv32)
    ensures LowestBitWord(x) == if IsOdd(x) then 1 else Doubled(LowestBitWord(Halved(x)))
    ensures LowestBitWord(Halved(x)) < 0x8000_0000
  {
  }

  lemma TwiceIs(y: bv32)
    requires y < 0x8000_0000
    ensures NumberOf(Doubled(y)) == 2 * NumberOf(y)
  {
    TwiceNumber(y);
  }

  lemma NotZero(x: bv32)
    ensures NumberOf(x) > 0 <==> x != 0
    ensures NumberOf(1) == 1 && NumberOf(x) < 0x1_0000_0000
  {
  }

  /** The machine's expression is the lowest set bit. */
  lemma {:induction false} WordIs(x: bv32)
    requires x != 0
    ensures NumberOf(x) > 0 && NumberOf(LowestBitWord(x)) == LowestBit(NumberOf(x))
    decreases NumberOf(x)
  {
    hide LowestBitWord, NumberOf, Halved, Doubled, IsOdd;
    NotZero(x);
    Halves(x);
    LowestBitHalves(x);
    if !IsOdd(x) {
      NotZero(Halved(x));
      WordIs(Halved(x));
      TwiceIs(LowestBitWord(Halved(x)));
    }
  }

  /** _gcry_ctz as it is computed. */
  function CtzWord(x: bv32): nat {
    Mod37()[NumberOf(LowestBitWord(x)) % 37]
  }

  lemma CtzWordIs(x: bv32)
    ensures NumberOf(x) < 0x1_0000_0000 && CtzWord(x) == Ctz(NumberOf(x))
  {
    hide Mod37, LowestBitWord;
    NotZero(x);
    if x == 0 {
      NothingLow();
    } else {
      hide NumberOf;
      WordIs(x);
    }
  }

  lemma NothingLow()
    ensures NumberOf(LowestBitWord(0)) == 0
  {
  }

  lemma {:induction false} Pow2Monotone(j: nat, k: nat)
    requires j <= k
    ensures Pow2(j) <= Pow2(k)
  {
    if j < k {
      Pow2Monotone(j, k - 1);
    }
  }

  lemma Pow2Values()
    ensures Pow2(8) == 0x100 && Pow2(16) == 0x1_0000 && Pow2(24) == 0x100_0000 && Pow2(32) == 0x1_0000_0000
  {
    assert Pow2(4) == 16;
    assert Pow2(8) == 16 * Pow2(4);
    assert Pow2(12) == 16 * Pow2(8);
    assert Pow2(16) == 16 * Pow2(12);
    assert Pow2(20) == 16 * Pow2(16);
    assert Pow2(24) == 16 * Pow2(20);
    assert Pow2(28) == 16 * Pow2(24);
    assert Pow2(32) == 16 * Pow2(28);
  }

  /** 2^k modulo 37 */
  function Remainder(k: nat): (r: nat)
    ensures r < 37
  {
    if k == 0 then 1
    else
      var r := 2 * Remainder(k - 1);
      if r < 37 then r else r - 37
  }

  lemma {:induction false} RemainderIs(k: nat)
    ensures Pow2(k) % 37 == Remainder(k)
  {
    if k > 0 {
      RemainderIs(k - 1);
      DoubledRemainder(Pow2(k - 1), Remainder(k - 1));
    }
  }

  lemma DoubledRemainder(p: nat, r: nat)
    requires p % 37 == r
    ensures 2 * p % 37 == if 2 * r < 37 then 2 * r else 2 * r - 37
  {
  }

  lemma NextRemainder(k: nat)
    ensures Remainder(k + 1) == var r := 2 * Remainder(k); if r < 37 then r else r - 37
  {
  }

  lemma RemaindersFirst()
    ensures Remainder(1) == 2 && Remainder(2) == 4 && Remainder(3) == 8 && Remainder(4) == 16
    ensures Remainder(5) == 32 && Remainder(6) == 27 && Remainder(7) == 17 && Remainder(8) == 34
  {
    FirstRemainder();
    NextRemainder(0);
    NextRemainder(1);
    NextRemainder(2);
    NextRemainder(3);
    NextRemainder(4);
    NextRemainder(5);
    NextRemainder(6);
    NextRemainder(7);
  }

  lemma RemaindersSecond()
    ensures Remainder(9) == 31 && Remainder(10) == 25 && Remainder(11) == 13 && Remainder(12) == 26
    ensures Remainder(13) == 15 && Remainder(14) == 30 && Remainder(15) == 23 && Remainder(16) == 9
  {
    hide Remainder;
    RemaindersFirst();
    NextRemainder(8);
    NextRemainder(9);
    NextRemainder(10);
    NextRemainder(11);
    NextRemainder(12);
    NextRemainder(13);
    NextRemainder(14);
    NextRemainder(15);
  }

  lemma RemaindersThird()
    ensures Remainder(17) == 18 && Remainder(18) == 36 && Remainder(19) == 35 && Remainder(20) == 33
    ensures Remainder(21) == 29 && Remainder(22) == 21 && Remainder(23) == 5 && Remainder(24) == 10
  {
    hide Remainder;
    RemaindersSecond();
    NextRemainder(16);
    NextRemainder(17);
    NextRemainder(18);
    NextRemainder(19);
    NextRemainder(20);
    NextRemainder(21);
    NextRemainder(22);
    NextRemainder(23);
  }

  lemma RemaindersFourth()
    ensures Remainder(25) == 20 && Remainder(26) == 3 && Remainder(27) == 6 && Remainder(28) == 12
    ensures Remainder(29) == 24 && Remainder(30) == 11 && Remainder(31) == 22 && Remainder(32) == 7
  {
    hide Remainder;
    RemaindersThird();
    NextRemainder(24);
    NextRemainder(25);
    NextRemainder(26);
    NextRemainder(27);
    NextRemainder(28);
    NextRemainder(29);
    NextRemainder(30);
    NextRemainder(31);
  }

  lemma EntriesFirst()
    ensures Mod37()[1] == 0 && Mod37()[2] == 1 && Mod37()[4] == 2 && Mod37()[8] == 3
    ensures Mod37()[16] == 4 && Mod37()[32] == 5 && Mod37()[27] == 6 && Mod37()[17] == 7
  {
  }

  lemma EntriesSecond()
    ensures Mod37()[34] == 8 && Mod37()[31] == 9 && Mod37()[25] == 10 && Mod37()[13] == 11
    ensures Mod37()[26] == 12 && Mod37()[15] == 13 && Mod37()[30] == 14 && Mod37()[23] == 15
  {
  }

  lemma EntriesThird()
    ensures Mod37()[9] == 16 && Mod37()[18] == 17 && Mod37()[36] == 18 && Mod37()[35] == 19
    ensures Mod37()[33] == 20 && Mod37()[29] == 21 && Mod37()[21] == 22 && Mod37()[5] == 23
  {
  }

  lemma EntriesFourth()
    ensures Mod37()[10] == 24 && Mod37()[20] == 25 && Mod37()[3] == 26 && Mod37()[6] == 27
    ensures Mod37()[12] == 28 && Mod37()[24] == 29 && Mod37()[11] == 30 && Mod37()[22] == 31
  {
  }

  /** The thirty-two powers of two have thirty-two different remainders, and the table undoes them. */
  lemma TableOf(k: nat)
    requires k < 32
    ensures Mod37()[Pow2(k) % 37] == k
  {
    hide Mod37, Remainder, Pow2;
    RemainderIs(k);
    FirstRemainder();
    RemaindersFirst();
    EntriesFirst();
    RemaindersSecond();
    EntriesSecond();
    RemaindersThird();
    EntriesThird();
    RemaindersFourth();
    EntriesFourth();
  }

  lemma FirstRemainder()
    ensures Remainder(0) == 1
  {
  }

  lemma CtzIsNtz(x: nat)
    requires 0 < x < 0x1_0000_0000
    ensures Ctz(x) == Ntz(x) < 32
  {
    LowestBitIs(x);
    if Ntz(x) >= 32 {
      Pow2Monotone(32, Ntz(x));
      Pow2Values();
    }
    TableOf(Ntz(x));
  }

  /** The expression as the machine computes it counts the trailing zeros; of zero it makes 32. */
  lemma CtzWordIsNtz(x: bv32)
    ensures CtzWord(x) == if x == 0 then 32 else Ntz(NumberOf(x))
  {
    hide CtzWord, NumberOf;
    NotZero(x);
    CtzWordIs(x);
    if x != 0 {
      CtzIsNtz(NumberOf(x));
    }
  }

  /** Ntz(n) is below k exactly when n is not a multiple of 2^k. */
  lemma {:induction false} NtzBelow(n: nat, k: nat)
    requires n > 0
    ensures Ntz(n) < k <==> n % Pow2(k) != 0
  {
    if k > 0 {
      ModSplit(n, 2, Pow2(k - 1));
      if n % 2 == 0 {
        NtzBelow(n / 2, k - 1);
      }
    }
  }

  /** Cutting the high bits off does not change the count while a one remains. */
  lemma {:induction false} NtzTruncated(n: nat, k: nat)
    requires n % Pow2(k) != 0
    ensures n > 0 && Ntz(n % Pow2(k)) == Ntz(n)
  {
    if k > 0 {
      ModSplit(n, 2, Pow2(k - 1));
      if n % 2 == 0 {
        NtzTruncated(n / 2, k - 1);
      }
    }
  }

  lemma {:induction false} NtzShifted(n: nat, k: nat)
    requires n > 0 && n % Pow2(k) == 0
    ensures n / Pow2(k) > 0 && Ntz(n) == k + Ntz(n / Pow2(k))
  {
    if k > 0 {
      var p := Pow2(k - 1);
      ModSplit(n, 2, p);
      NtzShifted(n / 2, k - 1);
      DivMod(n / 2, p);
      var q := n / 2 / p;
      Twice(p, q);
      DivModUnique(n, Pow2(k), q, 0);
    }
  }

  lemma Twice(p: nat, q: nat)
    ensures 2 * p * q == 2 * (p * q)
  {
  }

  lemma Ctz64IsNtz(x: nat)
    requires 0 < x < 0x1_0000_0000_0000_0000
    ensures Ctz64(x) == Ntz(x)
  {
    Pow2Values();
    if x % 0x1_0000_0000 != 0 {
      NtzTruncated(x, 32);
      CtzIsNtz(x % 0x1_0000_0000);
    } else {
      NtzShifted(x, 32);
      CtzIsNtz(x / 0x1_0000_0000);
    }
  }
}
