/** Rebalancing an octree by particle counts until it fits the particles. */
module LeafUpdate {
  import opened Keys
  import opened CornerstoneArray
  import opened Counts
  import opened Rebalance

  // --------------------------------------------------------- siblingAndLevel

  /** Sibling index of a leaf, or -1 if not all of its siblings are leaves; and its level. */
  function SiblingAndLevel(tree: seq<nat>, nodeIdx: nat, L: nat): (r: (int, nat))
    requires Cornerstone(tree, L) && nodeIdx < |tree| - 1
  {
    var thisNode := tree[nodeIdx];
    assert CellAt(tree, nodeIdx);
    var h := Log8(tree[nodeIdx + 1] - thisNode);
    LevelInRange(tree, nodeIdx, L);
    var level := L - h;
    if level == 0 then (-1, level)
    else
      var siblingIdx := Digit(thisNode, h);
      SiblingsInBounds(tree, nodeIdx, L);
      if tree[nodeIdx - siblingIdx + 8] == tree[nodeIdx - siblingIdx] + Pow8(h + 1)
      then (siblingIdx, level) else (-1, level)
  }

  lemma LevelInRange(tree: seq<nat>, i: nat, L: nat)
    requires Cornerstone(tree, L) && i < |tree| - 1
    ensures Log8(tree[i + 1] - tree[i]) <= L
  {
    var h := Log8(tree[i + 1] - tree[i]);
    assert CellAt(tree, i);
    assert tree[i + 1] <= tree[|tree| - 1];
    if h > L { Pow8Monotone(L + 1, h); }
  }

  /** Position of a key in the array. */
  ghost function IndexOf(tree: seq<nat>, k: nat): (i: nat)
    requires k in tree
    ensures i < |tree| && tree[i] == k
  {
    var i: nat :| i < |tree| && tree[i] == k; i
  }

  /** The 8 leaves from position f on are the 8 children of the cell (g, h). */
  ghost predicate IsGroup(tree: seq<nat>, f: int, g: nat, h: nat)
    requires h >= 1
  {
    && 0 <= f && f + 8 < |tree|
    && forall j: nat {:trigger ChildStart(g, h, j)} :: j <= 8 ==> tree[f + j] == ChildStart(g, h, j)
  }

  /** The 9 child boundaries of the cell (p, h) are in the array. */
  ghost predicate HasChildren(tree: seq<nat>, p: nat, h: nat)
    requires h >= 1
  {
    forall j: nat {:trigger ChildStart(p, h, j)} :: j <= 8 ==> ChildStart(p, h, j) in tree
  }

  ghost function ChildIndex(tree: seq<nat>, p: nat, h: nat, j: nat): (i: nat)
    requires h >= 1 && HasChildren(tree, p, h) && j <= 8
    ensures i < |tree| && tree[i] == ChildStart(p, h, j)
  {
    IndexOf(tree, ChildStart(p, h, j))
  }

  lemma {:induction false} ChildIndicesSpread(tree: seq<nat>, p: nat, h: nat, i: nat, j: nat)
    requires Ascending(tree) && h >= 1 && Aligned(p, h) && HasChildren(tree, p, h) && i <= j <= 8
    ensures ChildIndex(tree, p, h, i) + (j - i) <= ChildIndex(tree, p, h, j)
    decreases j - i
  {
    if i < j {
      ChildIndicesSpread(tree, p, h, i, j - 1);
      ChildStarts(p, h);
      assert ChildStart(p, h, j - 1) < ChildStart(p, h, j);
    }
  }

  lemma IndexIs(tree: seq<nat>, i: nat)
    requires Ascending(tree) && i < |tree|
    ensures IndexOf(tree, tree[i]) == i
  {
  }

  /** The child boundaries of the parent of a leaf are in the array. */
  lemma ParentBoundaries(tree: seq<nat>, i: nat, h: nat, L: nat)
    requires Cornerstone(tree, L) && i < |tree| - 1 && Log8(tree[i + 1] - tree[i]) == h < L
    ensures var p := Floor(tree[i], h + 1);
            && Aligned(p, h + 1) && HasChildren(tree, p, h + 1)
            && ChildIndex(tree, p, h + 1, Digit(tree[i], h)) == i
  {
    var p := Floor(tree[i], h + 1);
    var S := KeySet(tree);
    ArrayToSet(tree, L);
    assert CellAt(tree, i);
    assert tree[i] in S && tree[i + 1] in S;
    ParentIsNode(S, L, tree[i], h);
    FloorBounds(tree[i], h + 1);
    forall j: nat {:trigger ChildStart(p, h + 1, j)} | j <= 8 ensures ChildStart(p, h + 1, j) in tree {
      assert ChildStart(p, h + 1, j) in S;
    }
    assert HasChildren(tree, p, h + 1);
    IndexIs(tree, i);
  }

  lemma SiblingsInBounds(tree: seq<nat>, i: nat, L: nat)
    requires Cornerstone(tree, L) && i < |tree| - 1 && Log8(tree[i + 1] - tree[i]) < L
    ensures var d := Digit(tree[i], Log8(tree[i + 1] - tree[i])); 0 <= i - d && i - d + 8 < |tree|
  {
    var h := Log8(tree[i + 1] - tree[i]);
    var p, d := Floor(tree[i], h + 1), Digit(tree[i], h);
    ParentBoundaries(tree, i, h, L);
    ChildIndicesSpread(tree, p, h + 1, 0, d);
    ChildIndicesSpread(tree, p, h + 1, d, 8);
  }

  /** Two keys 8 positions apart that delimit the parent cell have its child boundaries between them. */
  lemma GroupTest(tree: seq<nat>, p: nat, h: nat, d: nat, a: nat)
    requires Ascending(tree) && h >= 1 && Aligned(p, h) && HasChildren(tree, p, h)
    requires d < 8 && a + 8 < |tree| && ChildIndex(tree, p, h, d) == a + d
    ensures tree[a + 8] == tree[a] + Pow8(h) <==> IsGroup(tree, a, p, h)
  {
    ChildStarts(p, h);
    ChildIndicesSpread(tree, p, h, 0, d);
    ChildIndicesSpread(tree, p, h, d, 8);
    var first, last := ChildIndex(tree, p, h, 0), ChildIndex(tree, p, h, 8);
    if tree[a + 8] == tree[a] + Pow8(h) {
      assert first <= a && a + 8 <= last;
      assert tree[first] <= tree[a] && tree[a + 8] <= tree[last];
      assert first == a && last == a + 8;
      forall j: nat {:trigger ChildStart(p, h, j)} | j <= 8 ensures tree[a + j] == ChildStart(p, h, j) {
        ChildIndicesSpread(tree, p, h, 0, j);
        ChildIndicesSpread(tree, p, h, j, 8);
      }
    }
    if IsGroup(tree, a, p, h) {
      assert tree[a + 0] == ChildStart(p, h, 0) && tree[a + 8] == ChildStart(p, h, 8);
    }
  }

  /** The test on two keys that are 8 positions apart is exact: it succeeds if and only if all
      8 siblings are leaves, and then the sibling index is the position in the group. */
  lemma SiblingAndLevelExact(tree: seq<nat>, i: nat, L: nat)
    requires Cornerstone(tree, L) && i < |tree| - 1
    ensures var (sib, level) := SiblingAndLevel(tree, i, L); var h := Log8(tree[i + 1] - tree[i]);
            && level + h == L
            && (sib >= 0 <==> level > 0 && IsGroup(tree, i - Digit(tree[i], h), Floor(tree[i], h + 1), h + 1))
            && (sib >= 0 ==> sib == Digit(tree[i], h))
  {
    LevelInRange(tree, i, L);
    var h := Log8(tree[i + 1] - tree[i]);
    if h < L {
      SiblingsInBounds(tree, i, L);
      ParentBoundaries(tree, i, h, L);
      GroupTest(tree, Floor(tree[i], h + 1), h + 1, Digit(tree[i], h), i - Digit(tree[i], h));
    }
  }

  // --------------------------------------------------------- calculateNodeOp

  /** Multiplication of 32-bit unsigned numbers. */
  function UnsignedMul(a: nat, b: nat): (c: nat)
    ensures c < UNSIGNED_LIMIT
    ensures a * b < UNSIGNED_LIMIT ==> c == a * b
  {
    (a * b) % UNSIGNED_LIMIT
  }

  function GroupCount(counts: seq<nat>, g: nat): (sum: nat)
    requires g + 8 <= |counts|
  {
    counts[g] + counts[g + 1] + counts[g + 2] + counts[g + 3] +
    counts[g + 4] + counts[g + 5] + counts[g + 6] + counts[g + 7]
  }

  /** Operation for one leaf: 0 to merge, 1 to keep, a power of 8 to split. The first of 8 siblings
      is kept as the start of the merged cell. */
  function CalculateNodeOp(tree: seq<nat>, nodeIdx: nat, counts: seq<nat>, bucketSize: nat, L: nat): (op: nat)
    requires Cornerstone(tree, L) && nodeIdx < |counts| == |tree| - 1
    ensures IsOp(op)
  {
    var (siblingIdx, level) := SiblingAndLevel(tree, nodeIdx, L);
    SiblingAndLevelExact(tree, nodeIdx, L);
    if siblingIdx > 0 && GroupCount(counts, nodeIdx - siblingIdx) <= bucketSize then 0
    else if counts[nodeIdx] > UnsignedMul(bucketSize, 512) && level + 3 < L then 4096
    else if counts[nodeIdx] > UnsignedMul(bucketSize, 64) && level + 2 < L then 512
    else if counts[nodeIdx] > UnsignedMul(bucketSize, 8) && level + 1 < L then 64
    else if counts[nodeIdx] > bucketSize && level < L then 8
    else 1
  }

  ghost function CountOps(tree: seq<nat>, counts: seq<nat>, bucketSize: nat, L: nat): (ops: seq<nat>)
    requires Cornerstone(tree, L) && |counts| == |tree| - 1
    ensures |ops| == |counts|
  {
    seq(|counts|, i requires 0 <= i < |counts| => CalculateNodeOp(tree, i, counts, bucketSize, L))
  }

  /** Decide for every leaf; the result says whether nothing is to be done. */
  method RebalanceDecision(tree: seq<nat>, counts: seq<nat>, bucketSize: nat, nodeOps: array<nat>, L: nat)
    returns (converged: bool)
    requires Cornerstone(tree, L) && |counts| == |tree| - 1 && nodeOps.Length >= |counts|
    modifies nodeOps
    ensures nodeOps[..|counts|] == CountOps(tree, counts, bucketSize, L)
    ensures converged <==> forall i: nat :: i < |counts| ==> CountOps(tree, counts, bucketSize, L)[i] == 1
  {
    ghost var ops := CountOps(tree, counts, bucketSize, L);
    converged := true;
    var i := 0;
    while i < |counts|
      invariant i <= |counts|
      invariant forall k: nat :: k < i ==> nodeOps[k] == ops[k]
      invariant converged <==> forall k: nat :: k < i ==> ops[k] == 1
    {
      var decision := CalculateNodeOp(tree, i, counts, bucketSize, L);
      if decision != 1 { converged := false; }
      nodeOps[i] := decision;
      i := i + 1;
    }
  }

  lemma CountOpsFit(tree: seq<nat>, counts: seq<nat>, bucketSize: nat, L: nat)
    requires Cornerstone(tree, L) && |counts| == |tree| - 1
    ensures OpsFit(tree, CountOps(tree, counts, bucketSize, L))
  {
    var ops := CountOps(tree, counts, bucketSize, L);
    forall i: nat | i < |ops| ensures FitsAt(tree, ops, i) {
      SiblingAndLevelExact(tree, i, L);
    }
  }

  /** Leaf i is dropped in favour of the cell (g, h): i is in the group of children of (g, h), but
      not the first one, and the group holds no more than bucketSize particles. */
  ghost predicate MergedInto(tree: seq<nat>, counts: seq<nat>, bucketSize: nat, i: nat, f: nat, g: nat, h: nat)
    requires h >= 1
  {
    && IsGroup(tree, f, g, h) && Aligned(g, h) && f < i < f + 8 && f + 8 <= |counts|
    && GroupCount(counts, f) <= bucketSize
  }

  /** A dropped leaf is in a group; every other leaf of that group but the first is dropped too. */
  lemma DroppedLeaf(tree: seq<nat>, counts: seq<nat>, bucketSize: nat, i: nat, L: nat)
    returns (f: nat, g: nat, h: nat)
    requires Cornerstone(tree, L) && i < |counts| == |tree| - 1
    requires CountOps(tree, counts, bucketSize, L)[i] == 0
    ensures 1 <= h <= L && MergedInto(tree, counts, bucketSize, i, f, g, h)
  {
    SiblingAndLevelExact(tree, i, L);
    var s := Log8(tree[i + 1] - tree[i]);
    g, h := Floor(tree[i], s + 1), s + 1;
    f := i - Digit(tree[i], s);
    FloorBounds(tree[i], s + 1);
  }

  lemma GroupIsDropped(tree: seq<nat>, counts: seq<nat>, bucketSize: nat, i: nat, f: nat, g: nat, h: nat, L: nat)
    requires Cornerstone(tree, L) && |counts| == |tree| - 1 && 1 <= h <= L
    requires MergedInto(tree, counts, bucketSize, i, f, g, h)
    ensures CountOps(tree, counts, bucketSize, L)[i] == 0
  {
    var j := i - f;
    ChildStarts(g, h);
    assert tree[f + j] == ChildStart(g, h, j) && tree[f + (j + 1)] == ChildStart(g, h, j + 1);
    CellHeight(tree[i], h - 1) by { assert Aligned(ChildStart(g, h, j), h - 1); }
    assert tree[i + 1] == tree[i] + Pow8(h - 1);
    assert Log8(tree[i + 1] - tree[i]) == h - 1;
    GroupDigit(g, h, j);
    SiblingAndLevelExact(tree, i, L);
  }

  /** Child j of a cell has octal digit j. */
  lemma GroupDigit(g: nat, h: nat, j: nat)
    requires h >= 1 && Aligned(g, h) && j < 8
    ensures Floor(ChildStart(g, h, j), h) == g && Digit(ChildStart(g, h, j), h - 1) == j
  {
    var c := ChildStart(g, h, j);
    NthMonotone(g, h - 1, j, 8);
    EightCells(g, h - 1);
    FloorUnique(c, g, h);
    AlignedWeaken(g, h - 1, h);
    NthAligned(g, h - 1, j);
    DigitOfAligned(c, g, h - 1, j);
  }

  lemma DigitOfAligned(c: nat, g: nat, h: nat, j: nat)
    requires Aligned(c, h) && c == NthCell(g, h, j) && g == Floor(c, h + 1)
    ensures Digit(c, h) == j
  {
    OwnFloor(c, h);
    DigitOfFloor(c, h);
    NthInjective(g, h, Digit(c, h), j);
  }

  lemma OwnFloor(c: nat, h: nat)
    requires Aligned(c, h)
    ensures Floor(c, h) == c
  {
    FloorUnique(c, c, h);
  }

  lemma NthInjective(a: nat, h: nat, i: nat, j: nat)
    ensures NthCell(a, h, i) == NthCell(a, h, j) ==> i == j
  {
    if i < j { NthMonotone(a, h, i, j); }
    if j < i { NthMonotone(a, h, j, i); }
  }

  // ---------------------------------------------------- one step keeps an octree

  lemma UniqueIndex(tree: seq<nat>, i: nat, j: nat)
    requires Ascending(tree) && i < |tree| && j < |tree|
    ensures tree[i] == tree[j] <==> i == j
    ensures tree[i] < tree[j] <==> i < j
  {
  }

  /** A child boundary strictly inside a cell that is dropped: the cell itself is the merged one. */
  lemma DroppedInside(tree: seq<nat>, counts: seq<nat>, bucketSize: nat, L: nat, s: nat, h: nat, j: nat, m: nat)
    returns (f: nat)
    requires Cornerstone(tree, L) && m < |counts| == |tree| - 1
    requires h >= 1 && Aligned(s, h) && 0 < j < 8 && tree[m] == ChildStart(s, h, j)
    requires CountOps(tree, counts, bucketSize, L)[m] == 0
    ensures h <= L && MergedInto(tree, counts, bucketSize, m, f, s, h)
  {
    var f', g, H := DroppedLeaf(tree, counts, bucketSize, m, L);
    f := f';
    var x := tree[m];
    assert x == tree[f + (m - f)] == ChildStart(g, H, m - f);
    InnerChildStart(s, h, j);
    InnerChildStart(g, H, m - f);
    ChildStarts(s, h);
    ChildStarts(g, H);
    assert Aligned(x, h - 1) && Aligned(x, H - 1);
    if H < h { AlignedWeaken(x, H, h - 1); }
    if h < H { AlignedWeaken(x, h, H - 1); }
  }

  /** Neighbours of a dropped leaf: one cell size before and after, in the same group. */
  lemma DroppedNeighbours(tree: seq<nat>, counts: seq<nat>, bucketSize: nat, L: nat, m: nat) returns (h: nat)
    requires Cornerstone(tree, L) && m < |counts| == |tree| - 1
    requires CountOps(tree, counts, bucketSize, L)[m] == 0
    ensures m > 0 && tree[m - 1] + Pow8(h) == tree[m] && tree[m + 1] == tree[m] + Pow8(h)
    ensures !Aligned(tree[m], h + 1)
  {
    var f, g, H := DroppedLeaf(tree, counts, bucketSize, m, L);
    var j := m - f;
    h := H - 1;
    assert tree[f + j] == ChildStart(g, H, j);
    assert tree[f + (j + 1)] == ChildStart(g, H, j + 1) && tree[f + (j - 1)] == ChildStart(g, H, j - 1);
    InnerChildStart(g, H, j);
  }

  lemma NoKeyBefore(tree: seq<nat>, q: nat, m: nat)
    requires Ascending(tree) && q < |tree| && m < |tree|
    ensures m > 0 ==> tree[q] <= tree[m - 1] || tree[m] <= tree[q]
  {
    if m > 0 { NoKeyInside(tree, q, m - 1); }
  }

  /** The start or end of a cell that has a key strictly inside is not dropped. */
  lemma DroppedAtEnd(tree: seq<nat>, counts: seq<nat>, bucketSize: nat, L: nat, s: nat, h: nat, q: nat, m: nat)
    requires Cornerstone(tree, L) && m < |counts| == |tree| - 1 && q < |tree|
    requires h >= 1 && Aligned(s, h) && s < tree[q] < s + Pow8(h)
    requires tree[m] == s || tree[m] == s + Pow8(h)
    ensures CountOps(tree, counts, bucketSize, L)[m] != 0
  {
    if CountOps(tree, counts, bucketSize, L)[m] == 0 {
      var g := DroppedNeighbours(tree, counts, bucketSize, L, m);
      AlignedPow8(h, h);
      AlignedAdd(s, Pow8(h), h);
      if h > g { AlignedWeaken(tree[m], g + 1, h); } else { Pow8Monotone(h, g); }
      NoKeyInside(tree, q, m);
      NoKeyBefore(tree, q, m);
    }
  }

  /** All child boundaries of a cell with a kept key strictly inside are kept. */
  lemma BoundaryIsKept(tree: seq<nat>, counts: seq<nat>, bucketSize: nat, L: nat, s: nat, h: nat, q: nat, m: nat,
                       j: nat)
    requires Cornerstone(tree, L) && m < |counts| == |tree| - 1 && q < |tree| && 1 <= h <= L && Aligned(s, h)
    requires s < tree[q] < s + Pow8(h) && (q < |counts| ==> CountOps(tree, counts, bucketSize, L)[q] != 0)
    requires j <= 8 && tree[m] == ChildStart(s, h, j)
    ensures CountOps(tree, counts, bucketSize, L)[m] != 0
  {
    EightCells(s, h - 1);
    if j == 0 || j == 8 {
      DroppedAtEnd(tree, counts, bucketSize, L, s, h, q, m);
    } else if CountOps(tree, counts, bucketSize, L)[m] == 0 {
      var f := DroppedInside(tree, counts, bucketSize, L, s, h, j, m);
      InGroup(tree, f, s, h, q);
      GroupIsDropped(tree, counts, bucketSize, q, f, s, h, L);
    }
  }

  lemma InGroup(tree: seq<nat>, f: nat, s: nat, h: nat, q: nat)
    requires Ascending(tree) && h >= 1 && IsGroup(tree, f, s, h) && q < |tree| && s < tree[q] < s + Pow8(h)
    ensures f < q < f + 8
  {
    EightCells(s, h - 1);
    assert tree[f + 0] == ChildStart(s, h, 0) && tree[f + 8] == ChildStart(s, h, 8);
    UniqueIndex(tree, f, q);
    UniqueIndex(tree, q, f + 8);
  }

  lemma KeptIsCornerstoneSet(tree: seq<nat>, counts: seq<nat>, bucketSize: nat, L: nat)
    requires Cornerstone(tree, L) && |counts| == |tree| - 1
    ensures CornerstoneSet(KeptKeys(tree, CountOps(tree, counts, bucketSize, L)), L)
  {
    var ops := CountOps(tree, counts, bucketSize, L);
    var S, K := KeySet(tree), KeptKeys(tree, ops);
    ArrayToSet(tree, L);
    if ops[0] == 0 {
      var f, g, h := DroppedLeaf(tree, counts, bucketSize, 0, L);
    }
    assert tree[0] in K && tree[|ops|] in K;
    forall k: nat | k in K ensures k in S {
      var q: nat :| q <= |ops| && tree[q] == k;
    }
    forall k: nat, h: nat | k in K && 1 <= h <= L && Floor(k, h) != k
      ensures ChildrenIn(K, Floor(k, h), h)
    {
      var q: nat :| q <= |ops| && tree[q] == k && (q == |ops| || ops[q] != 0);
      FloorBounds(k, h);
      assert ChildrenIn(S, Floor(k, h), h);
      ChildrenAreKept(tree, counts, bucketSize, L, Floor(k, h), h, q);
    }
  }

  lemma ChildrenAreKept(tree: seq<nat>, counts: seq<nat>, bucketSize: nat, L: nat, s: nat, h: nat, q: nat)
    requires Cornerstone(tree, L) && |counts| == |tree| - 1 && q < |tree| && 1 <= h <= L && Aligned(s, h)
    requires s < tree[q] < s + Pow8(h) && (q < |counts| ==> CountOps(tree, counts, bucketSize, L)[q] != 0)
    requires ChildrenIn(KeySet(tree), s, h)
    ensures ChildrenIn(KeptKeys(tree, CountOps(tree, counts, bucketSize, L)), s, h)
  {
    var ops := CountOps(tree, counts, bucketSize, L);
    forall j: nat {:trigger ChildStart(s, h, j)} | j <= 8 ensures ChildStart(s, h, j) in KeptKeys(tree, ops) {
      assert ChildStart(s, h, j) in KeySet(tree);
      var m := IndexOf(tree, ChildStart(s, h, j));
      if m < |ops| { BoundaryIsKept(tree, counts, bucketSize, L, s, h, q, m, j); }
      UndroppedIsKept(tree, ops, m);
    }
  }

  lemma UndroppedIsKept(tree: seq<nat>, ops: seq<nat>, m: nat)
    requires |ops| + 1 == |tree| && m <= |ops| && (m < |ops| ==> ops[m] != 0)
    ensures tree[m] in KeptKeys(tree, ops)
  {
  }

  /** Thresholds of the over-splitting operations do not overflow. */
  predicate SmallBucket(bucketSize: nat) {
    bucketSize * 512 < UNSIGNED_LIMIT
  }

  lemma SplitMeansOverfull(tree: seq<nat>, counts: seq<nat>, bucketSize: nat, L: nat, i: nat)
    requires Cornerstone(tree, L) && i < |counts| == |tree| - 1 && SmallBucket(bucketSize)
    requires CountOps(tree, counts, bucketSize, L)[i] > 1
    ensures counts[i] > bucketSize && Log8(tree[i + 1] - tree[i]) >= 1
  {
    SiblingAndLevelExact(tree, i, L);
    assert bucketSize * 8 < UNSIGNED_LIMIT && bucketSize * 64 < UNSIGNED_LIMIT;
  }

  lemma SplitIsNotMergedOver(tree: seq<nat>, counts: seq<nat>, bucketSize: nat, L: nat, i: nat)
    requires Cornerstone(tree, L) && i + 1 < |counts| == |tree| - 1 && SmallBucket(bucketSize)
    requires CountOps(tree, counts, bucketSize, L)[i] > 1
    ensures CountOps(tree, counts, bucketSize, L)[i + 1] != 0
  {
    if CountOps(tree, counts, bucketSize, L)[i + 1] == 0 {
      var f, g, h := DroppedLeaf(tree, counts, bucketSize, i + 1, L);
      SplitMeansOverfull(tree, counts, bucketSize, L, i);
      if f < i { GroupIsDropped(tree, counts, bucketSize, i, f, g, h, L); }
      assert false;
    }
  }

  /** One rebalance step turns any octree with any counts into an octree. */
  lemma StepKeepsCornerstone(tree: seq<nat>, counts: seq<nat>, bucketSize: nat, L: nat)
    requires Cornerstone(tree, L) && |counts| == |tree| - 1 && SmallBucket(bucketSize)
    ensures OpsFit(tree, CountOps(tree, counts, bucketSize, L))
    ensures Cornerstone(Rebalanced(tree, CountOps(tree, counts, bucketSize, L)), L)
  {
    var ops := CountOps(tree, counts, bucketSize, L);
    CountOpsFit(tree, counts, bucketSize, L);
    KeptIsCornerstoneSet(tree, counts, bucketSize, L);
    forall i: nat | i < |ops| - 1 && ops[i] > 1 ensures ops[i + 1] != 0 {
      SplitIsNotMergedOver(tree, counts, bucketSize, L, i);
    }
    KeptOctreeMergesWhole(tree, ops, L);
    RebalancedIsCornerstone(tree, ops, L);
  }

  // ------------------------------------------------------------ how far a leaf is split

  /** Of the at most 4 levels that a cell of height h can be split by, k is the largest one whose threshold the count
      exceeds; 0 if it exceeds none. */
  ghost predicate IsLargestSplit(k: nat, h: nat, count: nat, threshold: nat -> nat) {
    && k <= 4 && k <= h && (k > 0 ==> count > threshold(k))
    && forall j: nat :: k < j <= 4 && j <= h ==> count <= threshold(j)
  }

  /** Thresholds of the global octree: a leaf is split by k levels if it has more than 8^(k - 1) buckets. */
  function LeafThreshold(bucketSize: nat): (threshold: nat -> nat) {
    (k: nat) => if k <= 1 then bucketSize else UnsignedMul(bucketSize, Pow8(k - 1))
  }

  /** A leaf that is not merged is split by as many levels as its count asks for. */
  lemma SplitIsLargest(tree: seq<nat>, counts: seq<nat>, bucketSize: nat, L: nat, i: nat)
    requires Cornerstone(tree, L) && i < |counts| == |tree| - 1
    ensures var op := CountOps(tree, counts, bucketSize, L)[i];
            op != 0 ==> op == Pow8(OpLevels(op)) &&
                        IsLargestSplit(OpLevels(op), LeafHeight(tree, i), counts[i], LeafThreshold(bucketSize))
  {
    var op := CountOps(tree, counts, bucketSize, L)[i];
    SiblingAndLevelExact(tree, i, L);
    LevelInRange(tree, i, L);
    if op != 0 {
      OpIsPower(op);
      FirstIsLargest(op, LeafHeight(tree, i), counts[i], bucketSize);
    }
  }

  lemma FirstIsLargest(op: nat, h: nat, count: nat, bucketSize: nat)
    requires op == if count > UnsignedMul(bucketSize, 512) && h > 3 then 4096
                   else if count > UnsignedMul(bucketSize, 64) && h > 2 then 512
                   else if count > UnsignedMul(bucketSize, 8) && h > 1 then 64
                   else if count > bucketSize && h > 0 then 8 else 1
    ensures IsLargestSplit(OpLevels(op), h, count, LeafThreshold(bucketSize))
  {
    assert Pow8(0) == 1 && Pow8(1) == 8 && Pow8(2) == 64 && Pow8(3) == 512;
    var threshold := LeafThreshold(bucketSize);
    assert threshold(1) == bucketSize && threshold(2) == UnsignedMul(bucketSize, 8);
    assert threshold(3) == UnsignedMul(bucketSize, 64) && threshold(4) == UnsignedMul(bucketSize, 512);
  }

  /** Key number j of n cells of height g from a on, for some j. */
  ghost predicate IsCellStart(a: nat, g: nat, n: nat, key: nat) {
    exists j: nat :: j < n && NthCell(a, g, j) == key
  }

  /** The leaf is replaced by exactly the 8^k cells that are k levels smaller. */
  lemma SplitCellsAre(tree: seq<nat>, ops: seq<nat>, i: nat, key: nat, L: nat)
    requires Cornerstone(tree, L) && OpsFit(tree, ops) && i < |ops| && tree[i] <= key < tree[i + 1]
    ensures OpLevels(ops[i]) <= LeafHeight(tree, i)
    ensures key in Rebalanced(tree, ops) <==>
            IsCellStart(tree[i], LeafHeight(tree, i) - OpLevels(ops[i]), ops[i], key)
  {
    assert FitsAt(tree, ops, i);
    OnlyOwnPiece(tree, ops, i, key, L);
    CellsListed(tree[i], LeafHeight(tree, i) - OpLevels(ops[i]), ops[i], key);
  }

  lemma CellsListed(a: nat, g: nat, n: nat, key: nat)
    ensures key in Cells(a, g, n) <==> IsCellStart(a, g, n, key)
  {
    CellsAt(a, g, n);
    if j: nat :| j < n && NthCell(a, g, j) == key { assert Cells(a, g, n)[j] == key; }
  }

  lemma OnlyOwnPiece(tree: seq<nat>, ops: seq<nat>, i: nat, key: nat, L: nat)
    requires Cornerstone(tree, L) && OpsFit(tree, ops) && i < |ops| && tree[i] <= key < tree[i + 1]
    ensures key in Rebalanced(tree, ops) <==> key in Piece(tree, ops, i)
  {
    KeysOfPieces(tree, ops, |ops|, key);
    assert tree[i + 1] <= tree[|ops|];
    if m: nat :| m < |ops| && key in Piece(tree, ops, m) {
      assert CellAt(tree, m);
      PieceInside(tree, ops, m, key);
      OneLeafAround(tree, m, i, key);
    }
  }

  lemma OneLeafAround(tree: seq<nat>, m: nat, i: nat, key: nat)
    requires Ascending(tree) && m + 1 < |tree| && i + 1 < |tree|
    requires tree[m] <= key < tree[m + 1] && tree[i] <= key < tree[i + 1]
    ensures m == i
  {
    NoKeyInside(tree, i, m);
    NoKeyInside(tree, m, i);
  }

  /** A leaf that is not merged becomes the cells that are as many levels smaller as its count asks for. */
  lemma LeafBecomes(tree: seq<nat>, counts: seq<nat>, bucketSize: nat, L: nat, i: nat, key: nat) returns (k: nat)
    requires Cornerstone(tree, L) && i < |counts| == |tree| - 1 && tree[i] <= key < tree[i + 1]
    requires CountOps(tree, counts, bucketSize, L)[i] != 0
    ensures IsLargestSplit(k, LeafHeight(tree, i), counts[i], LeafThreshold(bucketSize))
    ensures key in Rebalanced(tree, CountOps(tree, counts, bucketSize, L)) <==>
            IsCellStart(tree[i], LeafHeight(tree, i) - k, Pow8(k), key)
  {
    var ops := CountOps(tree, counts, bucketSize, L);
    CountOpsFit(tree, counts, bucketSize, L);
    SplitIsLargest(tree, counts, bucketSize, L, i);
    SplitCellsAre(tree, ops, i, key, L);
    k := OpLevels(ops[i]);
  }
}
