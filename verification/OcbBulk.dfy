/** The L-pointer arrays of bulkhelp.h and the slot that camellia-glue.c patches for each batch.  A
    pointer to L[k] is the index k. */
module OcbBulk {
  import opened BitHelp
  import opened Bytes

  /** Slot i of the pattern, in an array rotated by n. */
  function Slot(size: nat, n: nat, i: nat): (j: nat)
    requires size > 0
    ensures j < size
  {
    (i + n) % size
  }

  lemma RemainderOf(size: nat, q: nat, r: nat)
    requires size > 0
    ensures r < size ==> (size * q + r) % size == r
    ensures size <= r < 2 * size ==> (size * q + r) % size == r - size
  {
    if r < size {
      DivModUnique(size * q + r, size, q, r);
    } else if r < 2 * size {
      Distribute(size, q, 1);
      DivModUnique(size * q + r, size, q + 1, r - size);
    }
  }

  lemma SlotIs(size: nat, n: nat, i: nat) returns (b: nat)
    requires i < size
    ensures b == n % size < size && Slot(size, n, i) == if b + i < size then b + i else b + i - size
  {
    b := n % size;
    DivMod(n, size);
    RemainderOf(size, n / size, b + i);
  }

  lemma SlotInjective(size: nat, n: nat, i: nat, k: nat)
    requires i < size && k < size && Slot(size, n, i) == Slot(size, n, k)
    ensures i == k
  {
    hide Slot;
    var b := SlotIs(size, n, i);
    var c := SlotIs(size, n, k);
  }

  /** The array read in pattern order. */
  ghost function View(ls: array<nat>, n: nat): (v: seq<nat>)
    requires ls.Length > 0
    reads ls
    ensures |v| == ls.Length
  {
    seq(ls.Length, i requires 0 <= i < ls.Length reads ls => ls[Slot(ls.Length, n, i)])
  }

  method Set(ls: array<nat>, n: nat, i: nat, v: nat)
    requires ls.Length in {8, 16, 32, 64} && i < ls.Length
    modifies ls
    ensures View(ls, n) == old(View(ls, n))[i := v]
  {
    hide Slot;
    ls[Slot(ls.Length, n, i)] := v;
    forall k | 0 <= k < ls.Length && k != i
      ensures Slot(ls.Length, n, k) != Slot(ls.Length, n, i)
    {
      if Slot(ls.Length, n, k) == Slot(ls.Length, n, i) {
        SlotInjective(ls.Length, n, i, k);
      }
    }
  }

  /** Slots below m hold their trailing-zero counts, except every eighth. */
  ghost predicate Sevens(v: seq<nat>, m: nat) {
    forall k :: 0 <= k < m && k < |v| && k % 8 != 7 ==> v[k] == Ntz(k + 1)
  }

  lemma NtzOfSeven(i: nat)
    requires i % 8 == 0
    ensures Ntz(i + 1) == 0 && Ntz(i + 2) == 1 && Ntz(i + 3) == 0 && Ntz(i + 4) == 2
    ensures Ntz(i + 5) == 0 && Ntz(i + 6) == 1 && Ntz(i + 7) == 0
  {
    var q := i / 8;
    NtzParity(4 * q);
    NtzParity(4 * q + 1);
    NtzParity(4 * q + 2);
    NtzParity(4 * q + 3);
    NtzParity(2 * q);
    NtzParity(2 * q + 1);
    NtzParity(q);
  }

  lemma NtzParity(x: nat)
    ensures Ntz(2 * x + 1) == 0 && (x > 0 ==> Ntz(2 * x) == 1 + Ntz(x))
  {
    assert (2 * x + 1) % 2 == 1;
  }

  /** The next eight slots, seven of them written. */
  lemma EightMore(v: seq<nat>, w: seq<nat>, i: nat)
    requires i % 8 == 0 && i + 8 <= |v| && Sevens(v, i)
    requires w == v[i := 0][i + 1 := 1][i + 2 := 0][i + 3 := 2][i + 4 := 0][i + 5 := 1][i + 6 := 0]
    ensures Sevens(w, i + 8)
  {
    hide Ntz;
    NtzOfSeven(i);
  }

  /** The loop over eights: seven writes each. */
  method FillSevens(ls: array<nat>, n: nat)
    requires ls.Length in {8, 16, 32, 64}
    modifies ls
    ensures Sevens(View(ls, n), ls.Length)
  {
    hide Slot, Ntz, Sevens, View;
    var i := 0;
    NoSevens(View(ls, n));
    while i < ls.Length
      invariant i <= ls.Length && i % 8 == 0 && Sevens(View(ls, n), i)
    {
      ghost var v := View(ls, n);
      Set(ls, n, i + 0, 0);
      Set(ls, n, i + 1, 1);
      Set(ls, n, i + 2, 0);
      Set(ls, n, i + 3, 2);
      Set(ls, n, i + 4, 0);
      Set(ls, n, i + 5, 1);
      Set(ls, n, i + 6, 0);
      EightMore(v, View(ls, n), i);
      i := i + 8;
    }
  }

  lemma NoSevens(v: seq<nat>)
    ensures Sevens(v, 0)
  {
  }

  /** Every slot but the last of the pattern holds the count of its block number. */
  ghost predicate Pattern(v: seq<nat>) {
    forall k :: 0 <= k < |v| - 1 ==> v[k] == Ntz(k + 1)
  }

  lemma NtzOfEights()
    ensures Ntz(8) == 3 && Ntz(16) == 4 && Ntz(24) == 3 && Ntz(32) == 5 && Ntz(40) == 3 && Ntz(48) == 4 && Ntz(56) == 3
  {
    assert Ntz(3) == Ntz(5) == Ntz(7) == 0;
    assert Ntz(2) == 1;
    assert Ntz(4) == 2;
    assert Ntz(6) == 1;
    assert Ntz(12) == 2;
    assert Ntz(20) == 2;
    assert Ntz(28) == 2;
    assert Ntz(10) == 1;
    assert Ntz(14) == 1;
  }

  method Prepare64(ls: array<nat>, blkn: nat) returns (l: nat)
    requires ls.Length == 64
    modifies ls
    ensures Pattern(View(ls, 64 - blkn % 64)) && l == Slot(64, 64 - blkn % 64, 63)
  {
    hide Slot, Ntz, View;
    var n := 64 - blkn % 64;
    FillSevens(ls, n);
    NtzOfEights();
    Set(ls, n, 7, 3);
    Set(ls, n, 15, 4);
    Set(ls, n, 23, 3);
    Set(ls, n, 31, 5);
    Set(ls, n, 39, 3);
    Set(ls, n, 47, 4);
    Set(ls, n, 55, 3);
    l := Slot(64, n, 63);
  }

  method Prepare32(ls: array<nat>, blkn: nat) returns (l: nat)
    requires ls.Length == 32
    modifies ls
    ensures Pattern(View(ls, 32 - blkn % 32)) && l == Slot(32, 32 - blkn % 32, 31)
  {
    hide Slot, Ntz, View;
    var n := 32 - blkn % 32;
    FillSevens(ls, n);
    NtzOfEights();
    Set(ls, n, 7, 3);
    Set(ls, n, 15, 4);
    Set(ls, n, 23, 3);
    l := Slot(32, n, 31);
  }

  method Prepare16(ls: array<nat>, blkn: nat) returns (l: nat)
    requires ls.Length == 16
    modifies ls
    ensures Pattern(View(ls, 16 - blkn % 16)) && l == Slot(16, 16 - blkn % 16, 15)
  {
    hide Slot, Ntz, View;
    var n := 16 - blkn % 16;
    FillSevens(ls, n);
    NtzOfEights();
    Set(ls, n, 7, 3);
    l := Slot(16, n, 15);
  }

  method Prepare8(ls: array<nat>, blkn: nat) returns (l: nat)
    requires ls.Length == 8
    modifies ls
    ensures Pattern(View(ls, 8 - blkn % 8)) && l == Slot(8, 8 - blkn % 8, 7)
    ensures ls[l] == 3
  {
    hide Slot, Ntz;
    var n := 8 - blkn % 8;
    FillSevens(ls, n);
    Set(ls, n, 7, 3);
    l := Slot(8, n, 7);
    assert View(ls, n)[7] == 3;
  }

  // ---- what the rotated pattern means ----

  /** log2 of the array size */
  function Bits(size: nat): nat
    requires size in {8, 16, 32, 64}
  {
    if size == 8 then 3 else if size == 16 then 4 else if size == 32 then 5 else 6
  }

  lemma SizeIsPow2(size: nat)
    requires size in {8, 16, 32, 64}
    ensures Pow2(Bits(size)) == size
  {
    assert Pow2(3) == 8;
    assert Pow2(6) == 8 * Pow2(3);
    assert Pow2(5) == 4 * Pow2(3);
  }

  /** The slot that belongs to block blkn + 1 + j, and the remainder it stands for. */
  lemma SlotOf(size: nat, blkn: nat, j: nat) returns (i: nat)
    requires j < size
    ensures i < size && Slot(size, size - blkn % size, i) == j
    ensures i == size - 1 <==> (blkn + 1 + j) % size == 0
    ensures i < size - 1 ==> (blkn + 1 + j) % size == i + 1
  {
    var q, b := blkn / size, blkn % size;
    DivMod(blkn, size);
    i := if j + b < size then j + b else j + b - size;
    RemainderOf(size, 0, i + (size - b));
    if j + b + 1 < 2 * size {
      RemainderOf(size, q, b + 1 + j);
    }
  }

  /** Slot j of the array names L_{ntz} of block blkn + 1 + j, unless that number is a multiple of
      the array size; there is one such slot, the one that is patched. */
  lemma PatternMeans(ls: array<nat>, blkn: nat, j: nat)
    requires ls.Length in {8, 16, 32, 64} && j < ls.Length
    requires Pattern(View(ls, ls.Length - blkn % ls.Length))
    ensures (blkn + 1 + j) % ls.Length == 0 <==> j == Slot(ls.Length, ls.Length - blkn % ls.Length, ls.Length - 1)
    ensures (blkn + 1 + j) % ls.Length != 0 ==> ls[j] == Ntz(blkn + 1 + j)
  {
    hide Ntz, Slot;
    var size := ls.Length;
    var n := size - blkn % size;
    var i := SlotOf(size, blkn, j);
    assert View(ls, n)[i] == ls[j];
    if i < size - 1 {
      SizeIsPow2(size);
      NtzTruncated(blkn + 1 + j, Bits(size));
    } else {
      assert j == Slot(size, n, size - 1);
    }
    if j == Slot(size, n, size - 1) {
      SlotInjective(size, n, i, size - 1);
    }
  }

  /** All slots name the L of their blocks. */
  ghost predicate Ready(ls: array<nat>, blkn: nat)
    reads ls
  {
    forall j :: 0 <= j < ls.Length ==> ls[j] == Ntz(blkn + 1 + j)
  }

  /** The multiple of size among the next size numbers. */
  lemma UniqueMultiple(size: nat, was: nat, m: nat)
    requires size > 0 && was < m <= was + size && m % size == 0
    ensures m == was + size - (was + size) % size
  {
    DivMod(m, size);
    var r := was + size - m;
    assert was + size == size * (m / size) + r;
    RemainderOf(size, m / size, r);
  }

  /** Patching the slot of the multiple of the batch size completes the array for this batch and
      leaves the pattern as it was. */
  method Patch(ls: array<nat>, slot: nat, was: nat)
    requires ls.Length in {8, 16, 32, 64} && Pattern(View(ls, ls.Length - was % ls.Length))
    requires slot == Slot(ls.Length, ls.Length - was % ls.Length, ls.Length - 1)
    requires was % 0x1_0000 + ls.Length < 0x1_0000
    modifies ls
    ensures Pattern(View(ls, ls.Length - was % ls.Length))
    ensures Ready(ls, was) && forall j :: 0 <= j < ls.Length ==> ls[j] < 16
  {
    hide Ntz, Slot;
    var size := ls.Length;
    var blkn := was + size;
    var n := blkn - blkn % size;
    PatternMeans(ls, was, slot);
    UniqueMultiple(size, was, was + 1 + slot);
    NoMultiple(was, slot, size);
    var k := CtzOf(n);
    Set(ls, size - was % size, size - 1, k);
    assert View(ls, size - was % size)[size - 1] == ls[slot];
    forall j | 0 <= j < size
      ensures ls[j] == Ntz(was + 1 + j) < 16
    {
      PatternMeans(ls, was, j);
      NoMultiple(was, j, size);
      NtzBelow(was + 1 + j, 16);
      Pow2Values();
    }
  }

  lemma NoMultiple(was: nat, j: nat, size: nat)
    requires j < size && was % 0x1_0000 + size < 0x1_0000
    ensures (was + 1 + j) % 0x1_0000 != 0
  {
  }

  lemma Rest(blkn0: nat, nblocks0: nat, blkn: nat, nblocks: nat)
    requires blkn0 % 0x1_0000 + nblocks0 < 0x1_0000 && blkn + nblocks == blkn0 + nblocks0 && blkn >= blkn0
    ensures blkn % 0x1_0000 + nblocks < 0x1_0000
  {
    var q, r := blkn0 / 0x1_0000, blkn0 % 0x1_0000;
    assert blkn == 0x1_0000 * q + (r + (blkn - blkn0));
  }

  lemma SameRemainder(blkn0: nat, nblocks0: nat, blkn: nat, nblocks: nat, size: nat)
    requires blkn0 % 0x1_0000 + nblocks0 < 0x1_0000 && blkn + nblocks == blkn0 + nblocks0 && blkn >= blkn0
    requires 0 < size <= nblocks
    ensures blkn % 0x1_0000 + size < 0x1_0000 && (blkn + size) % size == blkn % size
  {
    NextMultiple(blkn, size);
    var q, r := blkn0 / 0x1_0000, blkn0 % 0x1_0000;
    assert blkn == 0x1_0000 * q + (r + (blkn - blkn0));
  }

  lemma NextMultiple(n: nat, size: nat)
    requires size > 0
    ensures (n + size) % size == n % size
  {
    DivMod(n, size);
    Distribute(size, n / size, 1);
    RemainderOf(size, n / size + 1, n % size);
  }

  /** ocb_get_l's index, for block numbers that are not multiples of 65536. */
  method CtzOf(n: nat) returns (k: nat)
    requires n % 0x1_0000 != 0
    ensures k == Ntz(n) < 16
  {
    Pow2Values();
    NtzBelow(n, 16);
    assert n % 0x1_0000_0000 % 0x1_0000 != 0;
    NtzTruncated(n, 32);
    CtzIsNtz(n % 0x1_0000_0000);
    k := Ctz(n % 0x1_0000_0000);
  }
}
