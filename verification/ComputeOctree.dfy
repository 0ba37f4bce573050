/** Building the octree of a set of particles. */
module ComputeOctree {
  import opened Keys
  import opened CornerstoneArray
  import opened Counts
  import opened Rebalance
  import opened LeafUpdate
  import Scan

  // --------------------------------------------------------------- specification

  /** The cell (s, h) is an internal node of the octree: some leaf boundary lies strictly inside. */
  ghost predicate IsCut(tree: seq<nat>, s: nat, h: nat) {
    exists k: nat :: k in tree && s < k < s + Pow8(h)
  }

  /** The cell (s, h) holds more particles than a leaf may. */
  ghost predicate IsOverfull(keys: seq<nat>, bucketSize: nat, s: nat, h: nat) {
    CountIn(keys, s, s + Pow8(h)) > bucketSize
  }

  /** The octree whose internal nodes are exactly the overfull cells above the maximum level; its
      leaves hold at most bucketSize particles or are at the maximum level. */
  ghost predicate IsOctreeOf(tree: seq<nat>, keys: seq<nat>, bucketSize: nat, L: nat) {
    && Cornerstone(tree, L)
    && forall s: nat, h: nat {:trigger IsCut(tree, s, h)} {:trigger IsOverfull(keys, bucketSize, s, h)} ::
         1 <= h <= L && Aligned(s, h) && s < Pow8(L) ==>
         (IsCut(tree, s, h) <==> IsOverfull(keys, bucketSize, s, h))
  }

  /** There is only one such octree. */
  lemma OctreeIsUnique(a: seq<nat>, b: seq<nat>, keys: seq<nat>, bucketSize: nat, L: nat)
    requires IsOctreeOf(a, keys, bucketSize, L) && IsOctreeOf(b, keys, bucketSize, L)
    ensures a == b
  {
    SameKeys(a, b, keys, bucketSize, L);
    SameKeys(b, a, keys, bucketSize, L);
    AscendingUnique(a, b);
  }

  lemma SameKeys(a: seq<nat>, b: seq<nat>, keys: seq<nat>, bucketSize: nat, L: nat)
    requires IsOctreeOf(a, keys, bucketSize, L) && IsOctreeOf(b, keys, bucketSize, L)
    ensures KeySet(a) <= KeySet(b)
  {
    forall k | k in KeySet(a) ensures k in KeySet(b) {
      if 0 < k < Pow8(L) {
        var s, h := CutAround(a, L, k);
        assert IsOverfull(keys, bucketSize, s, h);
        assert IsCut(b, s, h);
        CutAroundHas(b, L, k, s, h);
      } else {
        EndsAreIn(a, L, k);
        EndsAreIn(b, L, k);
      }
    }
  }

  /** A key of an octree cuts the smallest cell that has it strictly inside. */
  lemma CutAround(a: seq<nat>, L: nat, key: nat) returns (s: nat, h: nat)
    requires Cornerstone(a, L) && key in a && 0 < key < Pow8(L)
    ensures 1 <= h <= L && Aligned(s, h) && s < key < s + Pow8(h) && s < Pow8(L) && IsCut(a, s, h)
    ensures s == Floor(key, h) && h == TrailBits(key) / 3 + 1
  {
    var t := TrailBits(key) / 3;
    TrailHeight(key);
    if t >= L { AlignedZero(L); AlignedWeaken(key, L, t); AlignedGap(0, key, L); }
    s, h := Floor(key, t + 1), t + 1;
    FloorBounds(key, t + 1);
    FloorBounds(key, t);
    assert IsCut(a, s, h);
  }

  /** An octree in which that cell is cut has the key. */
  lemma CutAroundHas(b: seq<nat>, L: nat, key: nat, s: nat, h: nat)
    requires Cornerstone(b, L) && 0 < key < Pow8(L) && 1 <= h <= L && IsCut(b, s, h)
    requires s == Floor(key, h) && h == TrailBits(key) / 3 + 1
    ensures key in b
  {
    TrailHeight(key);
    FloorBounds(key, h);
    FloorBounds(key, h - 1);
    ChildOf(key, h);
    ChildOfCut(b, L, s, h, Digit(key, h - 1));
  }

  lemma ChildOfCut(b: seq<nat>, L: nat, s: nat, h: nat, d: nat)
    requires Cornerstone(b, L) && 1 <= h <= L && Aligned(s, h) && IsCut(b, s, h) && d <= 8
    ensures ChildStart(s, h, d) in b
  {
    ArrayToSet(b, L);
    var c: nat :| c in b && s < c < s + Pow8(h);
    CutCellIsNode(KeySet(b), L, s, h, c);
    assert ChildStart(s, h, d) in KeySet(b);
  }

  lemma EndsAreIn(a: seq<nat>, L: nat, key: nat)
    requires Cornerstone(a, L)
    ensures key == 0 || key == Pow8(L) ==> key in a
    ensures key > Pow8(L) ==> key !in a
  {
    assert a[0] in a && a[|a| - 1] in a;
    if key in a {
      var i: nat :| i < |a| && a[i] == key;
      assert a[i] <= a[|a| - 1];
    }
  }

  lemma CountMonotone(keys: seq<nat>, lo: nat, hi: nat, lo': nat, hi': nat)
    requires lo' <= lo <= hi <= hi'
    ensures CountIn(keys, lo, hi) <= CountIn(keys, lo', hi')
  {
    CountSplits(keys, lo', lo, hi');
    CountSplits(keys, lo, hi, hi');
  }

  // ------------------------------------------------------------ converged octrees

  lemma {:induction false} LeavesSum(tree: seq<nat>, counts: seq<nat>, keys: seq<nat>, maxCount: nat, f: nat, n: nat)
    requires Ascending(tree) && AreCounts(tree, counts, keys, maxCount) && f + n < |tree|
    ensures SumOf(counts, f, n) <= CountIn(keys, tree[f], tree[f + n])
    ensures SumOf(counts, f, n) < maxCount ==> SumOf(counts, f, n) == CountIn(keys, tree[f], tree[f + n])
    decreases n
  {
    if n == 0 {
      NoParticles(keys, tree[f], tree[f]);
    } else {
      LeavesSum(tree, counts, keys, maxCount, f, n - 1);
      CountSplits(keys, tree[f], tree[f + n - 1], tree[f + n]);
    }
  }

  ghost function SumOf(counts: seq<nat>, f: nat, n: nat): (sum: nat)
    requires f + n <= |counts|
  {
    if n == 0 then 0 else SumOf(counts, f, n - 1) + counts[f + n - 1]
  }

  lemma SumOfEight(counts: seq<nat>, f: nat)
    requires f + 8 <= |counts|
    ensures SumOf(counts, f, 8) == GroupCount(counts, f)
  {
    assert SumOf(counts, f, 1) == SumOf(counts, f, 0) + counts[f];
    assert SumOf(counts, f, 2) == SumOf(counts, f, 1) + counts[f + 1];
    assert SumOf(counts, f, 4) == SumOf(counts, f, 2) + counts[f + 2] + counts[f + 3];
    assert SumOf(counts, f, 6) == SumOf(counts, f, 4) + counts[f + 4] + counts[f + 5];
  }

  /** What the merge test adds up is the particle count of the parent cell, unless it is too large. */
  lemma GroupCountIs(tree: seq<nat>, counts: seq<nat>, keys: seq<nat>, maxCount: nat, f: nat, g: nat, h: nat)
    requires Ascending(tree) && AreCounts(tree, counts, keys, maxCount)
    requires h >= 1 && Aligned(g, h) && IsGroup(tree, f, g, h)
    ensures GroupCount(counts, f) <= CountIn(keys, g, g + Pow8(h))
    ensures GroupCount(counts, f) < maxCount ==> GroupCount(counts, f) == CountIn(keys, g, g + Pow8(h))
  {
    LeavesSum(tree, counts, keys, maxCount, f, 8);
    ChildStarts(g, h);
    assert tree[f + 0] == ChildStart(g, h, 0) && tree[f + 8] == ChildStart(g, h, 8);
    SumOfEight(counts, f);
  }

  /** A leaf of height at least 1 that holds too many particles is split. */
  lemma OverfullLeafIsSplit(tree: seq<nat>, counts: seq<nat>, keys: seq<nat>, bucketSize: nat, maxCount: nat, L: nat,
                            m: nat)
    requires Cornerstone(tree, L) && AreCounts(tree, counts, keys, maxCount) && maxCount > bucketSize
    requires m < |counts| && Log8(tree[m + 1] - tree[m]) >= 1
    requires CountIn(keys, tree[m], tree[m + 1]) > bucketSize
    ensures CountOps(tree, counts, bucketSize, L)[m] != 1
  {
    SiblingAndLevelExact(tree, m, L);
  }

  /** A cell that is not subdivided lies in a leaf. */
  lemma UncutIsInLeaf(tree: seq<nat>, i: nat, s: nat, h: nat)
    requires i + 1 < |tree| && CellAt(tree, i) && Aligned(s, h) && tree[i] <= s < tree[i + 1] && !IsCut(tree, s, h)
    ensures s + Pow8(h) <= tree[i + 1]
  {
    assert tree[i + 1] in tree;
  }

  /** Nothing to do means: overfull cells are subdivided. */
  lemma ConvergedCutsOverfull(tree: seq<nat>, counts: seq<nat>, keys: seq<nat>, bucketSize: nat, maxCount: nat, L: nat,
                              s: nat, h: nat)
    requires Cornerstone(tree, L) && AreCounts(tree, counts, keys, maxCount) && maxCount > bucketSize
    requires forall i: nat :: i < |counts| ==> CountOps(tree, counts, bucketSize, L)[i] == 1
    requires 1 <= h <= L && Aligned(s, h) && s < Pow8(L) && IsOverfull(keys, bucketSize, s, h)
    ensures IsCut(tree, s, h)
  {
    var m := FindCell(tree, s);
    if !IsCut(tree, s, h) {
      UncutIsInLeaf(tree, m, s, h);
      CountMonotone(keys, s, s + Pow8(h), tree[m], tree[m + 1]);
      OverfullLeafIsSplit(tree, counts, keys, bucketSize, maxCount, L, m);
    }
  }

  /** A cell that is not subdivided and has both its ends in the array is a leaf. */
  lemma UncutEndsAtNext(tree: seq<nat>, i: nat, h: nat)
    requires Ascending(tree) && i < |tree| && tree[i] + Pow8(h) in tree && !IsCut(tree, tree[i], h)
    ensures i + 1 < |tree| && tree[i + 1] == tree[i] + Pow8(h)
  {
    var e: nat :| e < |tree| && tree[e] == tree[i] + Pow8(h);
    assert i < e;
    assert tree[i + 1] in tree;
    assert tree[i] < tree[i + 1];
  }

  /** If no child of a cut cell is cut, its children are 8 neighbouring leaves. */
  lemma UncutChildrenAreGroup(tree: seq<nat>, L: nat, s: nat, h: nat) returns (f: nat)
    requires Cornerstone(tree, L) && 1 <= h <= L && Aligned(s, h) && IsCut(tree, s, h)
    requires forall j: nat {:trigger ChildStart(s, h, j)} :: j < 8 ==> !IsCut(tree, ChildStart(s, h, j), h - 1)
    ensures IsGroup(tree, f, s, h)
  {
    var S := KeySet(tree);
    ArrayToSet(tree, L);
    var k: nat :| k in tree && s < k < s + Pow8(h);
    CutCellIsNode(S, L, s, h, k);
    ChildStarts(s, h);
    assert ChildStart(s, h, 0) in S;
    f := IndexOf(tree, s);
    var j := 0;
    while j < 8
      invariant j <= 8 && f + j < |tree|
      invariant forall i: nat {:trigger ChildStart(s, h, i)} :: i <= j ==> tree[f + i] == ChildStart(s, h, i)
    {
      assert ChildStart(s, h, j + 1) in S;
      NextChild(tree, s, h, f, j);
      j := j + 1;
    }
  }

  lemma NextChild(tree: seq<nat>, s: nat, h: nat, f: nat, j: nat)
    requires Ascending(tree) && h >= 1 && f + j < |tree| && tree[f + j] == ChildStart(s, h, j)
    requires ChildStart(s, h, j + 1) in tree && !IsCut(tree, ChildStart(s, h, j), h - 1)
    ensures f + j + 1 < |tree| && tree[f + (j + 1)] == ChildStart(s, h, j + 1)
  {
    assert tree[f + j] + Pow8(h - 1) == ChildStart(s, h, j + 1);
    UncutEndsAtNext(tree, f + j, h - 1);
  }

  /** Nothing to do means: subdivided cells are overfull. Otherwise the lowest subdivided cell below
      one that is not overfull would be merged. */
  lemma {:induction false} ConvergedMergesTheRest(tree: seq<nat>, counts: seq<nat>, keys: seq<nat>, bucketSize: nat,
                                                  maxCount: nat, L: nat, s: nat, h: nat)
    requires Cornerstone(tree, L) && AreCounts(tree, counts, keys, maxCount)
    requires forall i: nat :: i < |counts| ==> CountOps(tree, counts, bucketSize, L)[i] == 1
    requires 1 <= h <= L && Aligned(s, h) && IsCut(tree, s, h)
    ensures IsOverfull(keys, bucketSize, s, h)
    decreases h
  {
    ChildStarts(s, h);
    if j: nat :| j < 8 && IsCut(tree, ChildStart(s, h, j), h - 1) {
      var c := ChildStart(s, h, j);
      assert ChildStart(s, h, 0) <= c && c + Pow8(h - 1) <= ChildStart(s, h, 8);
      ConvergedMergesTheRest(tree, counts, keys, bucketSize, maxCount, L, c, h - 1);
      CountMonotone(keys, c, c + Pow8(h - 1), s, s + Pow8(h));
    } else {
      var f := UncutChildrenAreGroup(tree, L, s, h);
      GroupCountIs(tree, counts, keys, maxCount, f, s, h);
      if GroupCount(counts, f) <= bucketSize {
        GroupIsDropped(tree, counts, bucketSize, f + 1, f, s, h, L);
      }
    }
  }

  /** A step that changes nothing has reached the octree of the particles. */
  lemma ConvergedIsOctree(tree: seq<nat>, counts: seq<nat>, keys: seq<nat>, bucketSize: nat, maxCount: nat, L: nat)
    requires Cornerstone(tree, L) && AreCounts(tree, counts, keys, maxCount) && maxCount > bucketSize
    requires forall i: nat :: i < |counts| ==> CountOps(tree, counts, bucketSize, L)[i] == 1
    ensures IsOctreeOf(tree, keys, bucketSize, L)
  {
    forall s: nat, h: nat {:trigger IsCut(tree, s, h)} | 1 <= h <= L && Aligned(s, h) && s < Pow8(L)
      ensures IsCut(tree, s, h) <==> IsOverfull(keys, bucketSize, s, h)
    {
      if IsCut(tree, s, h) {
        ConvergedMergesTheRest(tree, counts, keys, bucketSize, maxCount, L, s, h);
      }
      if IsOverfull(keys, bucketSize, s, h) {
        ConvergedCutsOverfull(tree, counts, keys, bucketSize, maxCount, L, s, h);
      }
    }
  }

  /** With exact counts, a step changes nothing exactly if the octree is that of the particles. */
  lemma SettledIffOctree(tree: seq<nat>, counts: seq<nat>, keys: seq<nat>, bucketSize: nat, maxCount: nat, L: nat)
    requires Cornerstone(tree, L) && AreCounts(tree, counts, keys, maxCount)
    requires maxCount > bucketSize && SmallBucket(bucketSize)
    ensures (forall i: nat :: i < |counts| ==> CountOps(tree, counts, bucketSize, L)[i] == 1) <==>
            IsOctreeOf(tree, keys, bucketSize, L)
  {
    if forall i: nat :: i < |counts| ==> CountOps(tree, counts, bucketSize, L)[i] == 1 {
      ConvergedIsOctree(tree, counts, keys, bucketSize, maxCount, L);
    }
    if i: nat :| i < |counts| && CountOps(tree, counts, bucketSize, L)[i] != 1 {
      var op := CountOps(tree, counts, bucketSize, L)[i];
      if op > 1 {
        SplitLeafIsMissing(tree, counts, keys, bucketSize, maxCount, L, i);
      } else {
        var s, h := MergedGroupIsCut(tree, counts, keys, bucketSize, maxCount, L, i);
      }
    }
  }

  lemma MergedGroupIsCut(tree: seq<nat>, counts: seq<nat>, keys: seq<nat>, bucketSize: nat, maxCount: nat, L: nat,
                         i: nat)
    returns (s: nat, h: nat)
    requires Cornerstone(tree, L) && AreCounts(tree, counts, keys, maxCount) && maxCount > bucketSize
    requires i < |counts| && CountOps(tree, counts, bucketSize, L)[i] == 0
    ensures 1 <= h <= L && Aligned(s, h) && s < Pow8(L) && IsCut(tree, s, h) && !IsOverfull(keys, bucketSize, s, h)
  {
    var f;
    f, s, h := DroppedLeaf(tree, counts, bucketSize, i, L);
    GroupCountIs(tree, counts, keys, maxCount, f, s, h);
    GroupIsCut(tree, f, s, h, L);
  }

  lemma GroupIsCut(tree: seq<nat>, f: nat, g: nat, h: nat, L: nat)
    requires Cornerstone(tree, L) && h >= 1 && Aligned(g, h) && IsGroup(tree, f, g, h)
    ensures IsCut(tree, g, h) && g < Pow8(L)
  {
    assert tree[f + 0] == ChildStart(g, h, 0) && tree[f + 1] == ChildStart(g, h, 1);
    InnerChildStart(g, h, 1);
    assert tree[f + 1] in tree;
    assert tree[f] < tree[|tree| - 1];
  }

  // ------------------------------------------------------------------ termination

  /** Overfull cells that are not subdivided yet. */
  ghost function Missing(tree: seq<nat>, keys: seq<nat>, bucketSize: nat, L: nat): (m: set<(nat, nat)>) {
    set s: nat, h: nat | s < Pow8(L) && 1 <= h <= L && Aligned(s, h) && IsOverfull(keys, bucketSize, s, h)
                         && !IsCut(tree, s, h) :: (s, h)
  }

  lemma CutHasMiddle(tree: seq<nat>, L: nat, s: nat, h: nat) returns (m: nat)
    requires Cornerstone(tree, L) && 1 <= h <= L && Aligned(s, h) && IsCut(tree, s, h)
    ensures m < |tree| && tree[m] == ChildStart(s, h, 4) && s < tree[m] < s + Pow8(h)
  {
    var k: nat :| k in tree && s < k < s + Pow8(h);
    ArrayToSet(tree, L);
    CutCellIsNode(KeySet(tree), L, s, h, k);
    InnerChildStart(s, h, 4);
    assert ChildStart(s, h, 4) in KeySet(tree);
    m := IndexOf(tree, ChildStart(s, h, 4));
  }

  /** A step never undoes the subdivision of an overfull cell. */
  lemma OverfullStaysCut(tree: seq<nat>, counts: seq<nat>, keys: seq<nat>, bucketSize: nat, maxCount: nat, L: nat,
                         ops: seq<nat>, s: nat, h: nat)
    requires Cornerstone(tree, L) && AreCounts(tree, counts, keys, maxCount) && maxCount > bucketSize
    requires ops == CountOps(tree, counts, bucketSize, L) && OpsFit(tree, ops)
    requires 1 <= h <= L && Aligned(s, h) && IsOverfull(keys, bucketSize, s, h) && IsCut(tree, s, h)
    ensures IsCut(Rebalanced(tree, ops), s, h)
  {
    var m := CutHasMiddle(tree, L, s, h);
    if m < |ops| && ops[m] == 0 {
      var f := DroppedInside(tree, counts, bucketSize, L, s, h, 4, m);
      GroupCountIs(tree, counts, keys, maxCount, f, s, h);
      assert false;
    }
    KeptKeyRemains(tree, ops, m);
  }

  /** A split leaf is an overfull cell that was not subdivided. */
  lemma SplitLeafIsMissing(tree: seq<nat>, counts: seq<nat>, keys: seq<nat>, bucketSize: nat, maxCount: nat, L: nat,
                           i: nat)
    requires Cornerstone(tree, L) && AreCounts(tree, counts, keys, maxCount) && SmallBucket(bucketSize)
    requires i < |counts| && CountOps(tree, counts, bucketSize, L)[i] > 1
    ensures (tree[i], Log8(tree[i + 1] - tree[i])) in Missing(tree, keys, bucketSize, L)
  {
    SplitMeansOverfull(tree, counts, bucketSize, L, i);
    LevelInRange(tree, i, L);
    assert CellAt(tree, i);
    assert tree[i + 1] <= tree[|tree| - 1];
    LeafIsUncut(tree, i, Log8(tree[i + 1] - tree[i]));
  }

  lemma SplitCuts(tree: seq<nat>, ops: seq<nat>, i: nat)
    requires OpsFit(tree, ops) && i < |ops| && ops[i] > 1
    ensures IsCut(Rebalanced(tree, ops), tree[i], LeafHeight(tree, i))
  {
    SplitAdds(tree, ops, i, 1);
    var h := LeafHeight(tree, i);
    EightCells(tree[i], h - OpLevels(ops[i]));
    Pow8Monotone(h - OpLevels(ops[i]), h);
  }

  lemma LeafIsUncut(tree: seq<nat>, i: nat, h: nat)
    requires Ascending(tree) && i + 1 < |tree| && tree[i + 1] == tree[i] + Pow8(h)
    ensures !IsCut(tree, tree[i], h)
  {
    if k: nat :| k in tree && tree[i] < k < tree[i] + Pow8(h) {
      var q: nat :| q < |tree| && tree[q] == k;
      NoKeyInside(tree, q, i);
      assert false;
    }
  }

  lemma {:induction false} MergesShorten(ops: seq<nat>, n: nat)
    requires n <= |ops| && forall i: nat :: i < n ==> ops[i] <= 1
    ensures Scan.PrefixSum(ops, n) <= n
    ensures (exists i: nat :: i < n && ops[i] == 0) ==> Scan.PrefixSum(ops, n) < n
  {
    if n > 0 { MergesShorten(ops, n - 1); }
  }

  lemma NothingLost(tree: seq<nat>, counts: seq<nat>, keys: seq<nat>, bucketSize: nat, maxCount: nat, L: nat,
                    ops: seq<nat>)
    requires Cornerstone(tree, L) && AreCounts(tree, counts, keys, maxCount) && maxCount > bucketSize
    requires ops == CountOps(tree, counts, bucketSize, L) && OpsFit(tree, ops)
    ensures Missing(Rebalanced(tree, ops), keys, bucketSize, L) <= Missing(tree, keys, bucketSize, L)
  {
    forall c | c in Missing(Rebalanced(tree, ops), keys, bucketSize, L)
      ensures c in Missing(tree, keys, bucketSize, L)
    {
      if IsCut(tree, c.0, c.1) {
        OverfullStaysCut(tree, counts, keys, bucketSize, maxCount, L, ops, c.0, c.1);
      }
    }
  }

  /** Every step that changes the tree subdivides more overfull cells, or subdivides as many of them
      and has fewer leaves. */
  lemma StepProgress(tree: seq<nat>, counts: seq<nat>, keys: seq<nat>, bucketSize: nat, maxCount: nat, L: nat,
                     ops: seq<nat>)
    requires Cornerstone(tree, L) && AreCounts(tree, counts, keys, maxCount)
    requires maxCount > bucketSize && SmallBucket(bucketSize)
    requires ops == CountOps(tree, counts, bucketSize, L) && OpsFit(tree, ops)
    requires exists i: nat :: i < |ops| && ops[i] != 1
    ensures var before, after := Missing(tree, keys, bucketSize, L),
                                 Missing(Rebalanced(tree, ops), keys, bucketSize, L);
            after < before || (after == before && |Rebalanced(tree, ops)| < |tree|)
  {
    NothingLost(tree, counts, keys, bucketSize, maxCount, L, ops);
    if i: nat :| i < |ops| && ops[i] > 1 {
      SplitLeafIsMissing(tree, counts, keys, bucketSize, maxCount, L, i);
      SplitCuts(tree, ops, i);
      assert (tree[i], LeafHeight(tree, i)) !in Missing(Rebalanced(tree, ops), keys, bucketSize, L);
    } else {
      MergesShorten(ops, |ops|);
      PiecesLength(tree, ops, |ops|);
    }
  }

  // ----------------------------------------------------- updateOctree, computeOctree

  function Identity(n: nat): (order: seq<nat>)
    ensures IsOrderOf(order, n)
  {
    var order := seq(n, i requires 0 <= i < n => i);
    IdentityIsOrder(order, n);
    order
  }

  lemma IdentityIsOrder(order: seq<nat>, n: nat)
    requires |order| == n && forall i: nat :: i < n ==> order[i] == i
    ensures IsOrderOf(order, n)
  {
    forall i: nat | i < n ensures i in order {
      assert order[i] == i;
    }
  }

  /** One rebalance step and one counting step, with the old counts as guesses for the new ones. */
  method UpdateOctree(keys: seq<nat>, bucketSize: nat, tree: seq<nat>, counts: seq<nat>, maxCount: nat, L: nat)
    returns (converged: bool, newTree: seq<nat>, newCounts: seq<nat>)
    requires Cornerstone(tree, L) && |counts| == |tree| - 1 && SmallBucket(bucketSize)
    requires Sorted(keys) && |keys| < UNSIGNED_LIMIT
    ensures OpsFit(tree, CountOps(tree, counts, bucketSize, L))
    ensures newTree == Rebalanced(tree, CountOps(tree, counts, bucketSize, L))
    ensures Cornerstone(newTree, L) && AreCounts(newTree, newCounts, keys, maxCount)
    ensures converged <==> forall i: nat :: i < |counts| ==> CountOps(tree, counts, bucketSize, L)[i] == 1
    ensures converged ==> newTree == tree
  {
    var nodeOps := new nat[|tree|](_ => 0);
    converged := RebalanceDecision(tree, counts, bucketSize, nodeOps, L);
    StepKeepsCornerstone(tree, counts, bucketSize, L);
    var next := RebalanceTree(tree, nodeOps, L);
    newTree := next[..];
    if converged { UnchangedTree(tree, CountOps(tree, counts, bucketSize, L)); }
    var guesses := new nat[|newTree| - 1](i requires i >= 0 => if i < |counts| then counts[i] else 0);
    ComputeNodeCounts(newTree, guesses, keys, maxCount, true, L, Identity(|newTree| - 1));
    newCounts := guesses[..];
  }

  /** Start from the root and update until nothing changes. The particle keys may include the
      end-of-curve key, which flags removed particles and counts in no cell. */
  method ComputeOctree(keys: seq<nat>, bucketSize: nat, maxCount: nat, L: nat)
    returns (tree: seq<nat>, counts: seq<nat>)
    requires SmallBucket(bucketSize) && maxCount > bucketSize
    requires Sorted(keys) && |keys| < UNSIGNED_LIMIT
    ensures IsOctreeOf(tree, keys, bucketSize, L)
    ensures AreCounts(tree, counts, keys, maxCount)
  {
    tree, counts := [0, Pow8(L)], [|keys|];
    AlignedZero(L);
    CellHeight(0, L);
    assert CellAt(tree, 0);
    ghost var counted := false;
    var converged := false;
    while !converged
      invariant Cornerstone(tree, L) && |counts| == |tree| - 1
      invariant if counted then AreCounts(tree, counts, keys, maxCount)
                else !converged && tree == [0, Pow8(L)] && counts == [|keys|]
      invariant converged ==> IsOctreeOf(tree, keys, bucketSize, L)
      decreases !converged, !counted, Missing(tree, keys, bucketSize, L), |tree|
    {
      ghost var oldTree, oldCounts := tree, counts;
      converged, tree, counts := UpdateOctree(keys, bucketSize, tree, counts, maxCount, L);
      if counted {
        if converged {
          ConvergedIsOctree(oldTree, oldCounts, keys, bucketSize, maxCount, L);
        } else {
          StepProgress(oldTree, oldCounts, keys, bucketSize, maxCount, L,
                       CountOps(oldTree, oldCounts, bucketSize, L));
        }
      } else if converged {
        FirstStep(counts, keys, bucketSize, maxCount, L);
      }
      counted := true;
    }
  }

  /** The first step starts from the total particle number, which may exceed the count of the root. */
  lemma FirstStep(counts: seq<nat>, keys: seq<nat>, bucketSize: nat, maxCount: nat, L: nat)
    requires Cornerstone([0, Pow8(L)], L) && SmallBucket(bucketSize) && maxCount > bucketSize
    requires AreCounts([0, Pow8(L)], counts, keys, maxCount)
    requires CountOps([0, Pow8(L)], [|keys|], bucketSize, L)[0] == 1
    ensures IsOctreeOf([0, Pow8(L)], keys, bucketSize, L)
  {
    var tree := [0, Pow8(L)];
    Log8OfPow8(L);
    assert Log8(tree[1] - tree[0]) == L;
    assert SiblingAndLevel(tree, 0, L) == (-1, 0);
    assert |keys| <= bucketSize || L == 0;
    assert counts[0] <= |keys|;
    assert CountOps(tree, counts, bucketSize, L)[0] == CalculateNodeOp(tree, 0, counts, bucketSize, L) == 1;
    ConvergedIsOctree(tree, counts, keys, bucketSize, maxCount, L);
  }
}
