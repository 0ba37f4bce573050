/** Arithmetic of space-filling-curve keys.

A key is a natural number below 8^L, L being the maximum tree level (10 or 21 in the program),
and 8^L itself is the end-of-curve key. An octree cell of height h starts at a multiple of 8^h
and covers 8^h keys; its level is L - h. Every definition below recurses on division by the
constant 8, so that the proofs about them stay within linear arithmetic. */
module Keys {

  /** The number of keys in a cell of height h, `nodeRange(L - h)`. */
  function Pow8(h: nat): (p: nat)
    ensures p >= 1
  {
    if h == 0 then 1 else 8 * Pow8(h - 1)
  }

  /** Key k is a multiple of 8^h, i.e. a cell of height h may start at k. */
  predicate Aligned(k: nat, h: nat) {
    h == 0 || (k % 8 == 0 && Aligned(k / 8, h - 1))
  }

  /** Key k with its h last octal digits removed. */
  function Shift(k: nat, h: nat): (q: nat) {
    if h == 0 then k else Shift(k / 8, h - 1)
  }

  /** Start of the cell of height h that contains k, `enclosingBoxCode`. */
  function Floor(k: nat, h: nat): (s: nat) {
    if h == 0 then k else 8 * Floor(k / 8, h - 1)
  }

  /** Key a + n * 8^h: the start of the n-th cell of height h after a. Repeated addition, because the
      proofs need no other property of the product. */
  function NthCell(a: nat, h: nat, n: nat): (k: nat)
    ensures k >= a
  {
    if n == 0 then a else NthCell(a, h, n - 1) + Pow8(h)
  }

  /** Boundary number j of the 8 children of the cell that starts at s and has height h. */
  function ChildStart(s: nat, h: nat, j: nat): (k: nat)
    requires h >= 1
  {
    NthCell(s, h - 1, j)
  }

  /** Octal digit of k just above its h last digits; `octalDigit(k, L - h)`. */
  function Digit(k: nat, h: nat): (d: nat)
    ensures d < 8
  {
    Shift(k, h) % 8
  }

  /** Floor of the base-8 logarithm; on a power of 8, `treeLevel(n) == L - Log8(n)`. */
  function Log8(n: nat): (h: nat) {
    if n < 8 then 0 else 1 + Log8(n / 8)
  }

  lemma {:induction false} Log8OfPow8(h: nat)
    ensures Log8(Pow8(h)) == h
  {
    if h > 0 { Log8OfPow8(h - 1); }
  }

  lemma {:induction false} Pow8Monotone(g: nat, h: nat)
    requires g <= h
    ensures Pow8(g) <= Pow8(h)
    ensures g < h ==> 8 * Pow8(g) <= Pow8(h)
  {
    if g < h { Pow8Monotone(g, h - 1); }
  }

  lemma {:induction false} Pow8Reflects(g: nat, h: nat)
    requires Pow8(g) <= Pow8(h)
    ensures g <= h
  {
    if g > 0 && h > 0 { Pow8Reflects(g - 1, h - 1); }
  }

  lemma {:induction false} AlignedWeaken(k: nat, g: nat, h: nat)
    requires g <= h && Aligned(k, h)
    ensures Aligned(k, g)
  {
    if g > 0 { AlignedWeaken(k / 8, g - 1, h - 1); }
  }

  lemma {:induction false} AlignedZero(h: nat)
    ensures Aligned(0, h)
  {
    if h > 0 { AlignedZero(h - 1); }
  }

  lemma {:induction false} AlignedPow8(g: nat, h: nat)
    requires g <= h
    ensures Aligned(Pow8(h), g)
  {
    if g > 0 { AlignedPow8(g - 1, h - 1); }
  }

  lemma {:induction false} AlignedAdd(a: nat, b: nat, h: nat)
    requires Aligned(a, h)
    ensures Aligned(b, h) <==> Aligned(a + b, h)
  {
    if h > 0 && (b % 8 == 0 || (a + b) % 8 == 0) {
      assert (a + b) / 8 == a / 8 + b / 8;
      AlignedAdd(a / 8, b / 8, h - 1);
    }
  }

  /** Two different multiples of 8^h are at least 8^h apart. */
  lemma {:induction false} AlignedGap(a: nat, b: nat, h: nat)
    requires Aligned(a, h) && Aligned(b, h) && a < b
    ensures a + Pow8(h) <= b
  {
    if h > 0 { AlignedGap(a / 8, b / 8, h - 1); }
  }

  lemma {:induction false} FloorBounds(k: nat, h: nat)
    ensures Aligned(Floor(k, h), h)
    ensures Floor(k, h) <= k < Floor(k, h) + Pow8(h)
    ensures Floor(k, h) == k <==> Aligned(k, h)
  {
    if h > 0 { FloorBounds(k / 8, h - 1); }
  }

  /** The cell of height h around k is the only one. */
  lemma FloorUnique(k: nat, s: nat, h: nat)
    requires Aligned(s, h) && s <= k < s + Pow8(h)
    ensures Floor(k, h) == s
  {
    FloorBounds(k, h);
    if s < Floor(k, h) { AlignedGap(s, Floor(k, h), h); }
    if Floor(k, h) < s { AlignedGap(Floor(k, h), s, h); }
  }

  /** Coarser cells around the same key start earlier. */
  lemma FloorNested(k: nat, g: nat, h: nat)
    requires g <= h
    ensures Floor(k, h) <= Floor(k, g)
    ensures Floor(k, g) + Pow8(g) <= Floor(k, h) + Pow8(h)
    ensures Floor(Floor(k, g), h) == Floor(k, h)
  {
    FloorBounds(k, g);
    FloorBounds(k, h);
    AlignedWeaken(Floor(k, h), g, h);
    if Floor(k, g) < Floor(k, h) { AlignedGap(Floor(k, g), Floor(k, h), g); }
    AlignedPow8(g, h);
    AlignedAdd(Floor(k, h), Pow8(h), g);
    AlignedGap(Floor(k, g), Floor(k, h) + Pow8(h), g);
    FloorUnique(Floor(k, g), Floor(k, h), h);
  }

  lemma {:induction false} NthCellIs(a: nat, h: nat, n: nat)
    ensures NthCell(a, h, n) == a + n * Pow8(h)
  {
    if n > 0 {
      NthCellIs(a, h, n - 1);
      assert n * Pow8(h) == (n - 1) * Pow8(h) + Pow8(h);
    }
  }

  /** The same key, computed as the program computes it. */
  function CellKey(a: nat, h: nat, n: nat): (k: nat)
    ensures k == NthCell(a, h, n)
  {
    NthCellIs(a, h, n);
    a + n * Pow8(h)
  }

  lemma {:induction false} NthAligned(a: nat, h: nat, n: nat)
    requires Aligned(a, h)
    ensures Aligned(NthCell(a, h, n), h)
  {
    if n > 0 {
      NthAligned(a, h, n - 1);
      AlignedPow8(h, h);
      AlignedAdd(NthCell(a, h, n - 1), Pow8(h), h);
    }
  }

  lemma {:induction false} NthMonotone(a: nat, h: nat, i: nat, j: nat)
    requires i <= j
    ensures NthCell(a, h, i) <= NthCell(a, h, j)
    ensures i < j ==> NthCell(a, h, i) + Pow8(h) <= NthCell(a, h, j)
    decreases j
  {
    if i < j { NthMonotone(a, h, i, j - 1); }
  }

  lemma {:induction false} NthAdd(a: nat, h: nat, i: nat, j: nat)
    ensures NthCell(NthCell(a, h, i), h, j) == NthCell(a, h, i + j)
    decreases j
  {
    if j > 0 { NthAdd(a, h, i, j - 1); }
  }

  /** Eight cells make a cell of the next height. */
  lemma {:induction false} NthEight(a: nat, h: nat, n: nat)
    ensures NthCell(a, h, 8 * n) == NthCell(a, h + 1, n)
  {
    if n > 0 {
      NthEight(a, h, n - 1);
      NthAdd(a, h, 8 * (n - 1), 8);
      EightCells(NthCell(a, h, 8 * (n - 1)), h);
    }
  }

  lemma EightCells(a: nat, h: nat)
    ensures NthCell(a, h, 8) == a + Pow8(h + 1)
    ensures NthCell(a, h, 1) == a + Pow8(h)
  {
    assert NthCell(a, h, 1) == NthCell(a, h, 0) + Pow8(h);
    assert NthCell(a, h, 2) == a + 2 * Pow8(h);
    assert NthCell(a, h, 4) == a + 4 * Pow8(h);
    assert NthCell(a, h, 6) == a + 6 * Pow8(h);
  }

  /** The 9 child boundaries of a cell are ascending multiples of the child size. */
  lemma ChildStarts(s: nat, h: nat)
    requires h >= 1 && Aligned(s, h)
    ensures forall j: nat :: Aligned(ChildStart(s, h, j), h - 1)
    ensures forall i: nat, j: nat :: i < j ==> ChildStart(s, h, i) + Pow8(h - 1) <= ChildStart(s, h, j)
    ensures ChildStart(s, h, 0) == s && ChildStart(s, h, 8) == s + Pow8(h)
  {
    AlignedWeaken(s, h - 1, h);
    EightCells(s, h - 1);
    forall j: nat ensures Aligned(ChildStart(s, h, j), h - 1) {
      NthAligned(s, h - 1, j);
    }
    forall i: nat, j: nat | i < j ensures ChildStart(s, h, i) + Pow8(h - 1) <= ChildStart(s, h, j) {
      NthMonotone(s, h - 1, i, j);
    }
  }

  lemma {:induction false} NthTimes8(a: nat, h: nat, n: nat)
    ensures NthCell(8 * a, h + 1, n) == 8 * NthCell(a, h, n)
  {
    if n > 0 { NthTimes8(a, h, n - 1); }
  }

  lemma {:induction false} NthUnit(a: nat, n: nat)
    ensures NthCell(a, 0, n) == a + n
  {
    if n > 0 { NthUnit(a, n - 1); }
  }

  lemma {:induction false} DigitOfFloor(k: nat, h: nat)
    ensures Floor(k, h) == NthCell(Floor(k, h + 1), h, Digit(k, h))
  {
    if h == 0 {
      NthUnit(Floor(k, 1), Digit(k, 0));
      assert Floor(k, 1) == 8 * Floor(k / 8, 0);
    } else {
      DigitOfFloor(k / 8, h - 1);
      NthTimes8(Floor(k / 8, h), h - 1, Digit(k, h));
    }
  }

  /** Inside a cell, k lies in the child that its octal digit names. */
  lemma ChildOf(k: nat, h: nat)
    requires h >= 1
    ensures var c := ChildStart(Floor(k, h), h, Digit(k, h - 1));
            c == Floor(k, h - 1) && c <= k < c + Pow8(h - 1)
  {
    DigitOfFloor(k, h - 1);
    FloorBounds(k, h - 1);
  }

  /** A boundary of a child of a cell is inside that cell, and aligned to the child size only. */
  lemma InnerChildStart(s: nat, h: nat, j: nat)
    requires h >= 1 && Aligned(s, h) && 0 < j < 8
    ensures s < ChildStart(s, h, j) < s + Pow8(h)
    ensures Floor(ChildStart(s, h, j), h) == s
    ensures !Aligned(ChildStart(s, h, j), h)
  {
    ChildStarts(s, h);
    assert ChildStart(s, h, 0) < ChildStart(s, h, j) < ChildStart(s, h, 8);
    FloorUnique(ChildStart(s, h, j), s, h);
    FloorBounds(ChildStart(s, h, j), h);
  }

  // ------------------------------------------------------------ bits of a key

  /** Number of low bits up to and including the highest bit in which a and b differ. */
  function DiffBits(a: nat, b: nat): (n: nat)
    ensures n == 0 <==> a == b
    decreases a + b
  {
    if a == b then 0 else 1 + DiffBits(a / 2, b / 2)
  }

  /** `countTrailingZeros` of a non-zero key. */
  function TrailBits(x: nat): (n: nat)
    requires x > 0
  {
    if x % 2 == 1 then 0 else 1 + TrailBits(x / 2)
  }

  /** `commonPrefix`: number of leading bits shared by two keys of 3L bits; it is -1 when exactly
      one of the keys is the end-of-curve key, whose top bit is in the first unused place. */
  function CommonPrefix(a: nat, b: nat, L: nat): (n: int)
    ensures n <= 3 * L
  {
    3 * L - DiffBits(a, b)
  }

  /** `lastNzPlace`: place of the last non-zero octal digit, counted from the left. */
  function LastNzPlace(x: nat, L: nat): (pos: int) {
    if x != 0 then L - TrailBits(x) / 3 else L
  }

  /** Dropping an octal digit drops three bits of difference, unless only that digit differs. */
  lemma DiffBitsStep(a: nat, b: nat)
    ensures a / 8 != b / 8 ==> DiffBits(a, b) == 3 + DiffBits(a / 8, b / 8)
    ensures a / 8 == b / 8 && a != b ==> 1 <= DiffBits(a, b) <= 3
  {
    var a2, b2, a4, b4 := a / 2, b / 2, a / 4, b / 4;
    assert a2 / 2 == a4 && b2 / 2 == b4 && a4 / 2 == a / 8 && b4 / 2 == b / 8;
    assert a != b ==> DiffBits(a, b) == 1 + DiffBits(a2, b2);
    assert a2 != b2 ==> DiffBits(a2, b2) == 1 + DiffBits(a4, b4);
    assert a4 != b4 ==> DiffBits(a4, b4) == 1 + DiffBits(a / 8, b / 8);
  }

  /** The highest differing bit names the highest differing octal digit. */
  lemma {:induction false} DiffDigit(a: nat, b: nat)
    requires a != b
    ensures var h := (DiffBits(a, b) + 2) / 3 - 1;
            h >= 0 && Shift(a, h + 1) == Shift(b, h + 1) && Shift(a, h) != Shift(b, h)
    decreases a + b
  {
    DiffBitsStep(a, b);
    if a / 8 != b / 8 {
      DiffDigit(a / 8, b / 8);
    } else {
      assert Shift(a, 1) == Shift(a / 8, 0) && Shift(b, 1) == Shift(b / 8, 0);
    }
  }

  lemma TrailBitsStep(x: nat)
    requires x > 0
    ensures if x % 8 == 0 then x / 8 > 0 && TrailBits(x) == 3 + TrailBits(x / 8) else TrailBits(x) <= 2
  {
    var y, z := x / 2, x / 4;
    assert y / 2 == z && z / 2 == x / 8;
    if x % 2 == 0 && y % 2 == 0 {
      assert TrailBits(x) == 1 + TrailBits(y) && TrailBits(y) == 1 + TrailBits(z);
      assert z % 2 == 0 <==> x % 8 == 0;
    }
  }

  /** The trailing zero bits of a key give the height of the largest cell that can start there. */
  lemma {:induction false} TrailHeight(x: nat)
    requires x > 0
    ensures Aligned(x, TrailBits(x) / 3) && !Aligned(x, TrailBits(x) / 3 + 1)
  {
    TrailBitsStep(x);
    if x % 8 == 0 {
      TrailHeight(x / 8);
    }
  }

  lemma {:induction false} ShiftSmall(x: nat, h: nat)
    ensures x < Pow8(h) <==> Shift(x, h) == 0
  {
    if h > 0 { ShiftSmall(x / 8, h - 1); }
  }

  lemma {:induction false} FloorMonotone(a: nat, b: nat, h: nat)
    requires a <= b
    ensures Floor(a, h) <= Floor(b, h) && Shift(a, h) <= Shift(b, h)
    ensures Floor(a, h) == Floor(b, h) <==> Shift(a, h) == Shift(b, h)
  {
    if h > 0 { FloorMonotone(a / 8, b / 8, h - 1); }
  }
}
