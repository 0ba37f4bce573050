/** The closed-form index of the internal nodes of an octree.

Neighbouring leaf keys whose common prefix is a whole number of octal digits stand for one internal
octree node each. The index of that node is computed from the leaf index and the key alone. It is
shown to be the number of such pairs before it. Octrees shows that this is the number under which the
recursive traversal that visits a node between its children 3 and 4 visits the node. */
module InOrder {
  import opened Keys
  import opened CornerstoneArray
  import opened ComputeOctree

  // ------------------------------------------------------------- weights of digits

  /** `digitWeight`. */
  function DigitWeight(digit: nat): (w: int)
    requires digit < 8
  {
    if digit >= 4 then 7 - digit as int else -(digit as int)
  }

  /** Sum of the weights of the first n octal digits of the key, counted from the left. */
  ghost function LeadingWeight(key: nat, n: nat, L: nat): (w: int)
    requires n <= L
  {
    if n == 0 then 0 else LeadingWeight(key, n - 1, L) + DigitWeight(Digit(key, L - n))
  }

  /** `binaryKeyWeight`: sum over the first level + 1 digits. */
  method BinaryKeyWeight(key: nat, level: nat, L: nat) returns (ret: int)
    requires level < L
    ensures ret == LeadingWeight(key, level + 1, L)
  {
    ret := 0;
    var l := 1;
    while l <= level + 1
      invariant 1 <= l <= level + 2
      invariant ret == LeadingWeight(key, l - 1, L)
    {
      var digit := Digit(key, L - l);
      ret := ret + DigitWeight(digit);
      l := l + 1;
    }
  }

  /** Sum of the weights of all octal digits. */
  ghost function Weight(key: nat): (w: int) {
    if key == 0 then 0 else DigitWeight(key % 8) + Weight(key / 8)
  }

  lemma {:induction false} ShiftMore(k: nat, h: nat)
    ensures Shift(k, h + 1) == Shift(k, h) / 8
  {
    if h > 0 { ShiftMore(k / 8, h - 1); }
  }

  lemma {:induction false} ShiftShift(k: nat, g: nat, h: nat)
    ensures Shift(Shift(k, g), h) == Shift(k, g + h)
  {
    if g > 0 { ShiftShift(k / 8, g - 1, h); }
  }

  lemma {:induction false} LeadingWeightIs(key: nat, n: nat, L: nat)
    requires n <= L && key < Pow8(L)
    ensures LeadingWeight(key, n, L) == Weight(Shift(key, L - n))
  {
    if n == 0 {
      ShiftSmall(key, L);
    } else {
      LeadingWeightIs(key, n - 1, L);
      ShiftMore(key, L - n);
    }
  }

  lemma {:induction false} WeightOfAligned(k: nat, h: nat)
    requires Aligned(k, h)
    ensures Weight(k) == Weight(Shift(k, h))
  {
    if h > 0 { WeightOfAligned(k / 8, h - 1); }
  }

  // ---------------------------------------------------------- incrementing a number

  /** Number of digits 7 at the end of m: how far a carry runs when m is incremented. */
  ghost function Sevens(m: nat): (t: nat) {
    if m % 8 == 7 then 1 + Sevens(m / 8) else 0
  }

  /** The digit that stops the carry. */
  ghost function CarryDigit(m: nat): (d: nat)
    ensures d < 7
  {
    if m % 8 == 7 then CarryDigit(m / 8) else m % 8
  }

  /** Incrementing lowers the weight by 1, or raises it by 6 if the carry stops at a digit 3. */
  lemma {:induction false} WeightOfNext(m: nat)
    ensures Weight(m + 1) == Weight(m) + (if CarryDigit(m) == 3 then 6 else -1)
  {
    if m % 8 == 7 {
      WeightOfNext(m / 8);
      assert (m + 1) / 8 == m / 8 + 1 && (m + 1) % 8 == 0;
    } else {
      assert (m + 1) / 8 == m / 8 && (m + 1) % 8 == m % 8 + 1;
      assert Weight(m) == DigitWeight(m % 8) + Weight(m / 8);
    }
  }

  /** The digits 7 that the carry runs over weigh nothing. */
  lemma {:induction false} SevensWeighNothing(m: nat)
    ensures Weight(m) == Weight(Shift(m, Sevens(m)))
    ensures Shift(m, Sevens(m)) % 8 == CarryDigit(m)
  {
    if m % 8 == 7 { SevensWeighNothing(m / 8); }
  }

  lemma DiffBitsOfSuccessor(n: nat)
    ensures n % 2 == 0 ==> DiffBits(n, n + 1) == 1
    ensures n % 2 == 1 ==> DiffBits(n, n + 1) == 1 + DiffBits(n / 2, n / 2 + 1)
  {
    if n % 2 == 0 {
      assert (n + 1) / 2 == n / 2;
    } else {
      assert (n + 1) / 2 == n / 2 + 1;
    }
  }

  lemma DiffBitsOfDigits(m: nat)
    requires m % 8 != 7
    ensures if m % 8 == 3 then DiffBits(m, m + 1) == 3 else 1 <= DiffBits(m, m + 1) <= 2
  {
    DiffBitsOfSuccessor(m);
    DiffBitsOfSuccessor(m / 2);
    DiffBitsOfSuccessor(m / 2 / 2);
  }

  lemma {:induction false} DiffBitsOfNext(m: nat)
    ensures CarryDigit(m) == 3 ==> DiffBits(m, m + 1) == 3 * Sevens(m) + 3
    ensures CarryDigit(m) != 3 ==> DiffBits(m, m + 1) % 3 != 0
  {
    if m % 8 == 7 {
      assert (m + 1) / 8 == m / 8 + 1;
      DiffBitsOfNext(m / 8);
      DiffBitsStep(m, m + 1);
    } else {
      DiffBitsOfDigits(m);
    }
  }

  lemma {:induction false} DiffBitsScaled(k: nat, g: nat)
    requires Aligned(k, g)
    ensures DiffBits(k, k + Pow8(g)) == 3 * g + DiffBits(Shift(k, g), Shift(k, g) + 1)
    ensures Shift(k + Pow8(g), g) == Shift(k, g) + 1
  {
    if g > 0 {
      DiffBitsScaled(k / 8, g - 1);
      assert (k + Pow8(g)) / 8 == k / 8 + Pow8(g - 1);
      DiffBitsStep(k, k + Pow8(g));
    }
  }

  // ------------------------------------------------------------ flagged leaves

  /** The common prefix with the next leaf is a whole number of octal digits, as tested by the
      program: the length is converted to an unsigned number, in which the -1 of the last leaf
      becomes a multiple of 3 and has to be excluded separately. */
  predicate IsFlagged(leaves: seq<nat>, j: nat, L: nat)
    requires j + 1 < |leaves|
  {
    PrefixLength(leaves, j, L) % 3 == 0 && j + 2 < |leaves|
  }

  function PrefixLength(leaves: seq<nat>, j: nat, L: nat): (n: nat)
    requires j + 1 < |leaves|
  {
    CommonPrefix(leaves[j], leaves[j + 1], L) % 0x1_0000_0000
  }

  /** Key of leaf j in units of its size, and its height. */
  ghost function LeafNumber(leaves: seq<nat>, j: nat): (m: nat)
    requires Ascending(leaves) && j + 1 < |leaves|
  {
    Shift(leaves[j], Log8(leaves[j + 1] - leaves[j]))
  }

  lemma NextLeafWeight(leaves: seq<nat>, j: nat)
    requires Ascending(leaves) && j + 1 < |leaves| && CellAt(leaves, j)
    ensures var m := LeafNumber(leaves, j);
            Weight(leaves[j]) == Weight(m) && Weight(leaves[j + 1]) == Weight(m + 1)
  {
    var a, b := leaves[j], leaves[j + 1];
    var g := Log8(b - a);
    WeightOfAligned(a, g);
    AlignedPow8(g, g);
    AlignedAdd(a, Pow8(g), g);
    WeightOfAligned(b, g);
    DiffBitsScaled(a, g);
  }

  /** What the flag says about leaf j of height g: with m its key in units of its size, the carry of
      m + 1 stops at a digit 3, at height g + Sevens(m). */
  lemma FlaggedLeaf(leaves: seq<nat>, j: nat, L: nat)
    requires Cornerstone(leaves, L) && j + 1 < |leaves| && 3 * L < 0x1_0000_0000
    ensures var g := Log8(leaves[j + 1] - leaves[j]); var m := LeafNumber(leaves, j);
            && (IsFlagged(leaves, j, L) <==> CarryDigit(m) == 3)
            && (CarryDigit(m) == 3 ==>
                  g + Sevens(m) < L && PrefixLength(leaves, j, L) == 3 * (L - g - Sevens(m) - 1))
  {
    var a, b := leaves[j], leaves[j + 1];
    assert CellAt(leaves, j);
    var g := Log8(b - a);
    var m := Shift(a, g);
    DiffBitsScaled(a, g);
    DiffBitsOfNext(m);
    assert b <= leaves[|leaves| - 1];
    if j + 2 < |leaves| {
      assert b < leaves[|leaves| - 1];
      DiffBitsAtMost(a, b, L);
      FlagArithmetic(g, Sevens(m), DiffBits(m, m + 1), L, CarryDigit(m) == 3);
    } else {
      DiffBitsOfEnd(a, L);
    }
  }

  lemma FlagArithmetic(g: nat, t: nat, n: nat, L: nat, flag: bool)
    requires 3 * g + n <= 3 * L && 3 * L < 0x1_0000_0000
    requires if flag then n == 3 * t + 3 else n % 3 != 0
    ensures (3 * L - (3 * g + n)) % 0x1_0000_0000 == 3 * L - (3 * g + n)
    ensures (3 * L - (3 * g + n)) % 3 == 0 <==> flag
  {
  }

  lemma {:induction false} DiffBitsAtMost(a: nat, b: nat, L: nat)
    requires a < b < Pow8(L)
    ensures DiffBits(a, b) <= 3 * L
    decreases L
  {
    if L > 0 {
      DiffBitsStep(a, b);
      if a / 8 != b / 8 { DiffBitsAtMost(a / 8, b / 8, L - 1); }
    }
  }

  /** A key and the end-of-curve key differ in the bit above all key bits. */
  lemma {:induction false} DiffBitsOfEnd(a: nat, L: nat)
    requires a < Pow8(L)
    ensures DiffBits(a, Pow8(L)) == 3 * L + 1
  {
    if L == 0 {
      assert DiffBits(0, 1) == 1 + DiffBits(0, 0);
    } else {
      DiffBitsStep(a, Pow8(L));
      assert Pow8(L) / 8 == Pow8(L - 1);
      DiffBitsOfEnd(a / 8, L - 1);
    }
  }

  /** Number of flagged leaves before leaf j. */
  ghost function FlagCount(leaves: seq<nat>, j: nat, L: nat): (n: nat)
    requires j < |leaves|
  {
    if j == 0 then 0
    else FlagCount(leaves, j - 1, L) + (if IsFlagged(leaves, j - 1, L) then 1 else 0)
  }

  /** Leaf index plus digit weight is 7 times the number of flagged leaves before. */
  lemma {:induction false} IndexPlusWeight(leaves: seq<nat>, j: nat, L: nat)
    requires Cornerstone(leaves, L) && j < |leaves| && 3 * L < 0x1_0000_0000
    ensures j + Weight(leaves[j]) == 7 * FlagCount(leaves, j, L)
  {
    if j > 0 {
      IndexPlusWeight(leaves, j - 1, L);
      WeightStep(leaves, j - 1, L);
    }
  }

  lemma WeightStep(leaves: seq<nat>, j: nat, L: nat)
    requires Cornerstone(leaves, L) && j + 1 < |leaves| && 3 * L < 0x1_0000_0000
    ensures 1 + Weight(leaves[j + 1]) == Weight(leaves[j]) + if IsFlagged(leaves, j, L) then 7 else 0
  {
    FlaggedLeaf(leaves, j, L);
    assert CellAt(leaves, j);
    NextLeafWeight(leaves, j);
    WeightOfNext(LeafNumber(leaves, j));
  }

  /** In-order index theorem: for a flagged leaf the program's quotient is exact, and it is the number
      of flagged leaves before it. The number of all flagged leaves is (numLeaves - 1) / 7, exactly. */
  lemma InOrderIndex(leaves: seq<nat>, j: nat, L: nat)
    requires Cornerstone(leaves, L) && j + 1 < |leaves| && IsFlagged(leaves, j, L) && 3 * L < 0x1_0000_0000
    ensures PrefixLength(leaves, j, L) / 3 < L
    ensures j + LeadingWeight(leaves[j], PrefixLength(leaves, j, L) / 3 + 1, L) == 7 * FlagCount(leaves, j, L)
  {
    var g := Log8(leaves[j + 1] - leaves[j]);
    var m := Shift(leaves[j], g);
    FlaggedLeaf(leaves, j, L);
    IndexPlusWeight(leaves, j, L);
    var t := Sevens(m);
    assert leaves[j] < leaves[|leaves| - 1];
    LeadingWeightIs(leaves[j], L - g - t, L);
    ShiftShift(leaves[j], g, t);
    SevensWeighNothing(m);
    assert CellAt(leaves, j);
    WeightOfAligned(leaves[j], g);
  }

  lemma NumInternalNodes(leaves: seq<nat>, L: nat)
    requires Cornerstone(leaves, L) && 3 * L < 0x1_0000_0000
    ensures 7 * FlagCount(leaves, |leaves| - 1, L) == |leaves| - 2
  {
    IndexPlusWeight(leaves, |leaves| - 1, L);
    WeightOfPow8(L);
  }

  lemma {:induction false} WeightOfPow8(L: nat)
    ensures Weight(Pow8(L)) == -1
  {
    if L > 0 {
      WeightOfPow8(L - 1);
      assert Pow8(L) / 8 == Pow8(L - 1);
    } else {
      assert Weight(1) == DigitWeight(1) + Weight(0);
    }
  }

  // -------------------------------------------------- flagged leaves and nodes

  lemma {:induction false} SevensReachEnd(m: nat, t: nat)
    requires t == Sevens(m)
    ensures Floor(m, t) + Pow8(t) == m + 1
  {
    if m % 8 == 7 { SevensReachEnd(m / 8, t - 1); }
  }

  lemma {:induction false} EndMeansSevens(m: nat, t: nat)
    requires Floor(m, t) + Pow8(t) == m + 1 && Shift(m, t) % 8 == 3
    ensures Sevens(m) == t && CarryDigit(m) == 3
  {
    if t > 0 {
      assert m % 8 == 7;
      EndMeansSevens(m / 8, t - 1);
    }
  }

  /** The end of leaf k of height g is the end of its cell of height g + t, in units of the leaf. */
  lemma {:induction false} EndScaled(k: nat, g: nat, t: nat)
    requires Aligned(k, g)
    ensures Floor(k, g + t) + Pow8(g + t) == k + Pow8(g) <==>
            Floor(Shift(k, g), t) + Pow8(t) == Shift(k, g) + 1
  {
    if g > 0 { EndScaled(k / 8, g - 1, t); }
  }

  /** Height of the node that a flagged leaf stands for. */
  function NodeHeight(leaves: seq<nat>, j: nat, L: nat): (h: nat)
    requires j + 1 < |leaves|
  {
    if PrefixLength(leaves, j, L) / 3 <= L then L - PrefixLength(leaves, j, L) / 3 else 0
  }

  /** The node of a flagged leaf is an internal node, and the next leaf starts its child 4. */
  lemma FlaggedIsMiddle(leaves: seq<nat>, j: nat, L: nat)
    requires Cornerstone(leaves, L) && j + 1 < |leaves| && IsFlagged(leaves, j, L) && 3 * L < 0x1_0000_0000
    ensures var h := NodeHeight(leaves, j, L);
            && 1 <= h <= L && PrefixLength(leaves, j, L) == 3 * (L - h)
            && leaves[j + 1] == ChildStart(Floor(leaves[j], h), h, 4)
            && IsCut(leaves, Floor(leaves[j], h), h)
  {
    var g, m := Log8(leaves[j + 1] - leaves[j]), LeafNumber(leaves, j);
    assert CellAt(leaves, j);
    FlaggedLeaf(leaves, j, L);
    CarryEnd(leaves[j], g);
    EndOfChild(leaves[j], g + Sevens(m) + 1);
    assert leaves[j + 1] in leaves;
  }

  lemma EndOfChild(k: nat, h: nat)
    requires h >= 1 && Digit(k, h - 1) == 3
    ensures var s := Floor(k, h);
            ChildStart(s, h, 4) == Floor(k, h - 1) + Pow8(h - 1) && s < ChildStart(s, h, 4) < s + Pow8(h)
  {
    DigitOfFloor(k, h - 1);
    FloorBounds(k, h);
    InnerChildStart(Floor(k, h), h, 4);
  }

  /** A leaf ends where its carry stops. */
  lemma CarryEnd(k: nat, g: nat)
    requires Aligned(k, g)
    ensures var m := Shift(k, g); var h := g + Sevens(m);
            Floor(k, h) + Pow8(h) == k + Pow8(g) && Digit(k, h) == CarryDigit(m)
  {
    var m := Shift(k, g);
    SevensReachEnd(m, Sevens(m));
    EndScaled(k, g, Sevens(m));
    SevensWeighNothing(m);
    ShiftShift(k, g, Sevens(m));
  }

  /** Every internal node is the node of the flagged leaf before its child 4. */
  lemma MiddleIsFlagged(leaves: seq<nat>, s: nat, h: nat, L: nat) returns (j: nat)
    requires Cornerstone(leaves, L) && 1 <= h <= L && Aligned(s, h) && IsCut(leaves, s, h)
    requires 3 * L < 0x1_0000_0000
    ensures j + 1 < |leaves| && IsFlagged(leaves, j, L)
    ensures NodeHeight(leaves, j, L) == h && Floor(leaves[j], h) == s
  {
    var x, y := ChildStart(s, h, 3), ChildStart(s, h, 4);
    var i := CutHasMiddle(leaves, L, s, h);
    assert i > 0;
    j := i - 1;
    var k := leaves[j];
    ChildInTree(leaves, L, s, h, 3);
    assert x <= k < y by {
      var q: nat :| q < |leaves| && leaves[q] == x;
      UniqueOrder(leaves, q, i);
      UniqueOrder(leaves, q, j);
    }
    ChildStarts(s, h);
    FloorUnique(k, x, h - 1);
    FloorUnique(k, s, h) by { assert ChildStart(s, h, 0) <= x && y <= ChildStart(s, h, 8); }
    assert CellAt(leaves, j);
    var g := Log8(y - k);
    LeafInChild(k, g, x, h - 1);
    var t := h - 1 - g;
    EndScaled(k, g, t);
    DigitOfFloor(k, h - 1);
    DigitIs(k, s, h, 3);
    ShiftShift(k, g, t);
    EndMeansSevens(Shift(k, g), t);
    FlaggedLeaf(leaves, j, L);
  }

  lemma UniqueOrder(a: seq<nat>, i: nat, j: nat)
    requires Ascending(a) && i < |a| && j < |a|
    ensures a[i] < a[j] <==> i < j
  {
  }

  lemma ChildInTree(tree: seq<nat>, L: nat, s: nat, h: nat, j: nat)
    requires Cornerstone(tree, L) && 1 <= h <= L && Aligned(s, h) && IsCut(tree, s, h) && j <= 8
    ensures ChildStart(s, h, j) in tree
  {
    var k: nat :| k in tree && s < k < s + Pow8(h);
    ArrayToSet(tree, L);
    CutCellIsNode(KeySet(tree), L, s, h, k);
    assert ChildStart(s, h, j) in KeySet(tree);
  }

  /** A leaf of height g that ends with a cell of height h is not higher than it. */
  lemma LeafInChild(k: nat, g: nat, x: nat, h: nat)
    requires Aligned(k, g) && Aligned(x, h) && x <= k && k + Pow8(g) == x + Pow8(h)
    ensures g <= h
  {
    Pow8Reflects(g, h);
  }

  lemma DigitIs(k: nat, s: nat, h: nat, d: nat)
    requires h >= 1 && d < 8 && Floor(k, h) == s && Floor(k, h - 1) == ChildStart(s, h, d)
    ensures Digit(k, h - 1) == d
  {
    DigitOfFloor(k, h - 1);
    var e := Digit(k, h - 1);
    if e < d { NthMonotone(s, h - 1, e, d); }
    if d < e { NthMonotone(s, h - 1, d, e); }
  }
}
