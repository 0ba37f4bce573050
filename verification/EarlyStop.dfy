/** The loop of `assign` looks at the largest count only. When this is enough, and an input for which it is not. */
module EarlyStop {
  import opened Keys
  import opened CornerstoneArray
  import opened Counts
  import opened Rebalance
  import opened LeafUpdate
  import opened ComputeOctree
  import opened Upsweep

  /** No cell is subdivided without need, and one more level is enough for every leaf. */
  ghost predicate NeedsNoMerge(tree: seq<nat>, keys: seq<nat>, bucketSize: nat, L: nat) {
    && Cornerstone(tree, L) && OnlyOverfullIsCut(tree, keys, bucketSize, L)
    && forall i: nat :: i + 1 < |tree| ==> LeafHasAtMost(tree, keys, i, 8 * bucketSize)
  }

  ghost predicate OnlyOverfullIsCut(tree: seq<nat>, keys: seq<nat>, bucketSize: nat, L: nat) {
    forall s: nat, h: nat {:trigger IsCut(tree, s, h)} ::
      1 <= h <= L && Aligned(s, h) && s < Pow8(L) && IsCut(tree, s, h) ==> IsOverfull(keys, bucketSize, s, h)
  }

  ghost predicate LeafHasAtMost(tree: seq<nat>, keys: seq<nat>, i: nat, n: nat)
    requires i + 1 < |tree|
  {
    CountIn(keys, tree[i], tree[i + 1]) <= n
  }

  /** Every leaf is kept, or too full and split by one level. */
  ghost predicate SplitsOneLevel(tree: seq<nat>, ops: seq<nat>, keys: seq<nat>, bucketSize: nat) {
    OpsFit(tree, ops) && forall i: nat :: i < |ops| ==> IsKeptOrSplit(tree, ops, keys, bucketSize, i)
  }

  ghost predicate IsKeptOrSplit(tree: seq<nat>, ops: seq<nat>, keys: seq<nat>, bucketSize: nat, i: nat)
    requires i < |ops| && |ops| + 1 == |tree|
  {
    ops[i] == 1 || (ops[i] == 8 && CountIn(keys, tree[i], tree[i + 1]) > bucketSize)
  }

  lemma StepSplitsOneLevel(tree: seq<nat>, counts: seq<nat>, keys: seq<nat>, bucketSize: nat, L: nat)
    requires NeedsNoMerge(tree, keys, bucketSize, L) && AreCounts(tree, counts, keys, UNSIGNED_MAX)
    requires SmallBucket(bucketSize)
    ensures SplitsOneLevel(tree, CountOps(tree, counts, bucketSize, L), keys, bucketSize)
  {
    var ops := CountOps(tree, counts, bucketSize, L);
    CountOpsFit(tree, counts, bucketSize, L);
    forall i: nat | i < |ops| ensures IsKeptOrSplit(tree, ops, keys, bucketSize, i) {
      assert LeafHasAtMost(tree, keys, i, 8 * bucketSize);
      if ops[i] == 0 {
        var s, h := MergedGroupIsCut(tree, counts, keys, bucketSize, UNSIGNED_MAX, L, i);
      }
      if ops[i] > 1 { SplitMeansOverfull(tree, counts, bucketSize, L, i); }
      assert bucketSize * 8 < UNSIGNED_LIMIT && bucketSize * 64 < UNSIGNED_LIMIT;
    }
  }

  /** A step from such a state leads to such a state. */
  lemma StepNeedsNoMerge(tree: seq<nat>, counts: seq<nat>, keys: seq<nat>, bucketSize: nat, L: nat)
    requires NeedsNoMerge(tree, keys, bucketSize, L) && AreCounts(tree, counts, keys, UNSIGNED_MAX)
    requires SmallBucket(bucketSize)
    ensures NeedsNoMerge(Rebalanced(tree, CountOps(tree, counts, bucketSize, L)), keys, bucketSize, L)
  {
    var ops := CountOps(tree, counts, bucketSize, L);
    var next := Rebalanced(tree, ops);
    StepKeepsCornerstone(tree, counts, bucketSize, L);
    StepSplitsOneLevel(tree, counts, keys, bucketSize, L);
    forall s: nat, h: nat {:trigger IsCut(next, s, h)}
      | 1 <= h <= L && Aligned(s, h) && s < Pow8(L) && IsCut(next, s, h)
      ensures IsOverfull(keys, bucketSize, s, h)
    {
      if !IsCut(tree, s, h) { NewlyCutIsOverfull(tree, ops, keys, bucketSize, L, s, h); }
    }
    forall k: nat | k + 1 < |next| ensures LeafHasAtMost(next, keys, k, 8 * bucketSize) {
      var i := OldLeafAround(tree, ops, keys, bucketSize, L, next, k);
      assert LeafHasAtMost(tree, keys, i, 8 * bucketSize);
      CountMonotone(keys, next[k], next[k + 1], tree[i], tree[i + 1]);
    }
  }

  /** A new leaf lies in an old one. */
  lemma OldLeafAround(tree: seq<nat>, ops: seq<nat>, keys: seq<nat>, bucketSize: nat, L: nat, next: seq<nat>, k: nat)
    returns (i: nat)
    requires Cornerstone(tree, L) && SplitsOneLevel(tree, ops, keys, bucketSize) && next == Rebalanced(tree, ops)
    requires Cornerstone(next, L) && k + 1 < |next|
    ensures i + 1 < |tree| && tree[i] <= next[k] < next[k + 1] <= tree[i + 1]
  {
    assert next[k] < next[k + 1] <= next[|next| - 1];
    i := FindCell(tree, next[k]);
    if i + 1 < |ops| { assert IsKeptOrSplit(tree, ops, keys, bucketSize, i + 1); }
    KeptKeyRemains(tree, ops, i + 1);
    NextIsNotBehind(next, k, tree[i + 1]);
  }

  lemma NextIsNotBehind(next: seq<nat>, k: nat, key: nat)
    requires Ascending(next) && k + 1 < |next| && key in next && next[k] < key
    ensures next[k + 1] <= key
  {
    var e: nat :| e < |next| && next[e] == key;
  }

  /** A cell that a split cuts is the leaf that is split. */
  lemma NewlyCutIsOverfull(tree: seq<nat>, ops: seq<nat>, keys: seq<nat>, bucketSize: nat, L: nat, s: nat, h: nat)
    requires Cornerstone(tree, L) && SplitsOneLevel(tree, ops, keys, bucketSize)
    requires 1 <= h <= L && Aligned(s, h) && !IsCut(tree, s, h) && IsCut(Rebalanced(tree, ops), s, h)
    ensures IsOverfull(keys, bucketSize, s, h)
  {
    var key: nat :| key in Rebalanced(tree, ops) && s < key < s + Pow8(h);
    var i := NewKeyIsInside(tree, ops, key, L);
    assert IsKeptOrSplit(tree, ops, keys, bucketSize, i) && CellAt(tree, i);
    SplitLeafIsTheCell(tree, ops, i, s, h, key);
  }

  lemma SplitLeafIsTheCell(tree: seq<nat>, ops: seq<nat>, i: nat, s: nat, h: nat, key: nat)
    requires OpsFit(tree, ops) && i < |ops| && ops[i] == 8 && CellAt(tree, i) && key in Piece(tree, ops, i)
    requires Aligned(s, h) && tree[i] < key < tree[i + 1] && s < key < s + Pow8(h) && !IsCut(tree, s, h)
    ensures s == tree[i] && s + Pow8(h) == tree[i + 1]
  {
    OneLevelKey(tree, ops, i, key);
    if h < LeafHeight(tree, i) {
      AlignedWeaken(key, h, LeafHeight(tree, i) - 1);
      AlignedGap(s, key, h);
    } else {
      SameOrCut(tree, i, s, h, key);
    }
  }

  /** The keys that a split by one level adds are multiples of the smaller cells. */
  lemma OneLevelKey(tree: seq<nat>, ops: seq<nat>, i: nat, key: nat)
    requires OpsFit(tree, ops) && i < |ops| && ops[i] == 8 && CellAt(tree, i) && key in Piece(tree, ops, i)
    ensures LeafHeight(tree, i) >= 1 && Aligned(key, LeafHeight(tree, i) - 1)
  {
    assert FitsAt(tree, ops, i);
    var h := LeafHeight(tree, i);
    var j: nat :| j < |Piece(tree, ops, i)| && Piece(tree, ops, i)[j] == key;
    CellsAt(tree[i], h - 1, ops[i]);
    AlignedWeaken(tree[i], h - 1, h);
    NthAligned(tree[i], h - 1, j);
  }

  /** A cell that is not smaller than a leaf that it overlaps is the leaf, or has one of its ends inside. */
  lemma SameOrCut(tree: seq<nat>, i: nat, s: nat, h: nat, key: nat)
    requires i + 1 < |tree| && CellAt(tree, i) && Aligned(s, h) && LeafHeight(tree, i) <= h
    requires tree[i] < key < tree[i + 1] && s < key < s + Pow8(h) && !IsCut(tree, s, h)
    ensures s == tree[i] && s + Pow8(h) == tree[i + 1]
  {
    var g := LeafHeight(tree, i);
    assert tree[i] in tree && tree[i + 1] in tree;
    AlignedWeaken(s, g, h);
    AlignedPow8(g, h);
    AlignedAdd(s, Pow8(h), g);
    if tree[i] < s { AlignedGap(tree[i], s, g); }
    if s + Pow8(h) < tree[i + 1] { AlignedGap(tree[i], s + Pow8(h), g); }
  }

  /** If no leaf is too full either, this is the octree of the particles. */
  lemma FineIsOctree(tree: seq<nat>, keys: seq<nat>, bucketSize: nat, L: nat)
    requires Cornerstone(tree, L) && OnlyOverfullIsCut(tree, keys, bucketSize, L)
    requires forall i: nat :: i + 1 < |tree| ==> LeafHasAtMost(tree, keys, i, bucketSize)
    ensures IsOctreeOf(tree, keys, bucketSize, L)
  {
    forall s: nat, h: nat {:trigger IsCut(tree, s, h)} | 1 <= h <= L && Aligned(s, h) && s < Pow8(L)
      ensures IsCut(tree, s, h) <==> IsOverfull(keys, bucketSize, s, h)
    {
      if IsOverfull(keys, bucketSize, s, h) && !IsCut(tree, s, h) {
        var i := FindCell(tree, s);
        UncutIsInLeaf(tree, i, s, h);
        assert LeafHasAtMost(tree, keys, i, bucketSize);
        CountMonotone(keys, s, s + Pow8(h), tree[i], tree[i + 1]);
      }
    }
  }

  // ------------------------------------------------------------- an input for which the loop stops early

  lemma {:induction false} AllCounted(codes: seq<nat>, lo: nat, hi: nat)
    requires forall i: nat :: i < |codes| ==> lo <= codes[i] < hi
    ensures CountIn(codes, lo, hi) == |codes|
  {
    if codes != [] { AllCounted(codes[1..], lo, hi); }
  }

  lemma {:induction false} AtMostOne(codes: seq<nat>, lo: nat, hi: nat)
    requires forall i: nat, j: nat :: i < j < |codes| && lo <= codes[i] < hi ==> hi <= codes[j]
    ensures CountIn(codes, lo, hi) <= 1
  {
    if codes != [] {
      if lo <= codes[0] < hi { NoParticles(codes[1..], lo, hi); } else { AtMostOne(codes[1..], lo, hi); }
    }
  }

  /** Nine particles, one in each of the first nine of the 64 grandchildren of the root. */
  ghost predicate AreSpread(keys: seq<nat>, L: nat)
    requires L >= 2
  {
    |keys| == 9 && forall i: nat :: i < 9 ==> keys[i] == NthCell(0, L - 2, i)
  }

  /** For every number of levels from 2 on, a bucket for one particle and nine particles. The octree of a single rank
      starts as the root with an older count, which keeps it. The loop then splits the root by two levels, finds no leaf
      too full and stops, with cells that are subdivided although they are empty. */
  lemma StopsEarly(keys: seq<nat>, L: nat)
    requires L >= 2 && AreSpread(keys, L)
    ensures var tree: seq<nat>, stale: seq<nat>, counts: seq<nat> := [0, Pow8(L)], [0], [9];
            && Cornerstone(tree, L) && Rebalanced(tree, CountOps(tree, stale, 1, L)) == tree
            && AreCounts(tree, counts, keys, UNSIGNED_MAX)
            && var next := Rebalanced(tree, CountOps(tree, counts, 1, L));
               && Cornerstone(next, L) && next != tree
               && (forall i: nat :: i + 1 < |next| ==> LeafHasAtMost(next, keys, i, 1))
               && !IsOctreeOf(next, keys, 1, L)
  {
    var tree: seq<nat>, stale: seq<nat>, counts: seq<nat> := [0, Pow8(L)], [0], [9];
    RootIsLeaf(L);
    SpreadCounts(keys, L);
    assert CountOps(tree, stale, 1, L) == [1];
    CountOpsFit(tree, stale, 1, L);
    UnchangedTree(tree, CountOps(tree, stale, 1, L));
    StepKeepsCornerstone(tree, counts, 1, L);
    var next := Rebalanced(tree, CountOps(tree, counts, 1, L));
    assert CountOps(tree, counts, 1, L) == [64];
    RootInGrandchildren(tree, L, CountOps(tree, counts, 1, L)[0], next);
    forall i: nat | i + 1 < |next| ensures LeafHasAtMost(next, keys, i, 1) { OneInEach(keys, L, next, i); }
    EmptyCellIsCut(next, keys, L);
  }

  lemma RootIsLeaf(L: nat)
    ensures var tree: seq<nat> := [0, Pow8(L)]; Cornerstone(tree, L) && SiblingAndLevel(tree, 0, L) == (-1, 0)
    ensures LeafHeight([0, Pow8(L)], 0) == L
  {
    var tree: seq<nat> := [0, Pow8(L)];
    AlignedZero(L);
    CellHeight(0, L);
    assert CellAt(tree, 0);
  }

  /** The second child of the root starts at grandchild 8, and the third at 16. */
  lemma Grandchildren(L: nat)
    requires L >= 2
    ensures NthCell(0, L - 2, 8) == Pow8(L - 1) && NthCell(0, L - 2, 16) == 2 * Pow8(L - 1)
    ensures NthCell(0, L - 2, 17) == 2 * Pow8(L - 1) + Pow8(L - 2)
  {
    var g := L - 2;
    EightCells(0, g);
    EightCells(Pow8(g + 1), g);
    NthAdd(0, g, 8, 8);
    NthAdd(0, g, 16, 1);
  }

  lemma SpreadCounts(keys: seq<nat>, L: nat)
    requires L >= 2 && AreSpread(keys, L)
    ensures CountIn(keys, 0, Pow8(L)) == 9 && CountIn(keys, 2 * Pow8(L - 1), 3 * Pow8(L - 1)) == 0
  {
    Grandchildren(L);
    forall i: nat | i < 9 ensures keys[i] <= Pow8(L - 1) {
      if i < 8 { NthMonotone(0, L - 2, i, 8); }
    }
    AllCounted(keys, 0, Pow8(L));
    NoParticles(keys, 2 * Pow8(L - 1), 3 * Pow8(L - 1));
  }

  lemma RootInGrandchildren(tree: seq<nat>, L: nat, n: nat, next: seq<nat>)
    requires L >= 2 && n == 64 && tree == [0, Pow8(L)] && next == Rebalanced(tree, [n])
    ensures |next| == n + 1 && forall j: nat :: j <= n ==> next[j] == NthCell(0, L - 2, j)
  {
    var ops: seq<nat> := [n];
    RootIsLeaf(L);
    OpIsPower(n);
    NthPower(0, L - 2, OpLevels(n));
    CellsAt(0, L - OpLevels(n), n);
    assert Pieces(tree, ops, 1) == Pieces(tree, ops, 0) + Piece(tree, ops, 0);
  }

  lemma OneInEach(keys: seq<nat>, L: nat, next: seq<nat>, k: nat)
    requires L >= 2 && AreSpread(keys, L) && k + 1 < |next| == 65
    requires forall j: nat :: j < 65 ==> next[j] == NthCell(0, L - 2, j)
    ensures LeafHasAtMost(next, keys, k, 1)
  {
    forall i: nat, j: nat | i < j < |keys| && next[k] <= keys[i] < next[k + 1] ensures next[k + 1] <= keys[j] {
      if k < i && k + 1 < i { NthMonotone(0, L - 2, k + 1, i); }
      if k + 1 < j { NthMonotone(0, L - 2, k + 1, j); }
      if j <= k { NthMonotone(0, L - 2, i, k); }
    }
    AtMostOne(keys, next[k], next[k + 1]);
  }

  lemma EmptyCellIsCut(next: seq<nat>, keys: seq<nat>, L: nat)
    requires L >= 2 && AreSpread(keys, L) && |next| == 65
    requires forall j: nat :: j < 65 ==> next[j] == NthCell(0, L - 2, j)
    ensures !IsOctreeOf(next, keys, 1, L)
  {
    var s, h := 2 * Pow8(L - 1), L - 1;
    SpreadCounts(keys, L);
    Grandchildren(L);
    AlignedPow8(h, h);
    AlignedAdd(Pow8(h), Pow8(h), h);
    assert next[17] in next;
    assert IsCut(next, s, h) && !IsOverfull(keys, 1, s, h);
  }
}
