/** Building the global octree on many ranks. Every rank has its own particles and a copy of the octree;
all copies follow the run of a single rank that has the particles of all. */
module UpdateGlobal {
  import opened CornerstoneArray
  import opened Counts
  import opened Rebalance
  import opened LeafUpdate
  import opened ComputeOctree
  import opened Upsweep
  import opened ExactCounts
  import opened EarlyStop

  // ------------------------------------------------------------- the sum over all ranks

  /** Particles of the first n ranks between two keys. */
  ghost function RankSum(keys: seq<seq<nat>>, n: nat, lo: nat, hi: nat): (sum: nat)
    requires n <= |keys|
  {
    if n == 0 then 0 else RankSum(keys, n - 1, lo, hi) + CountIn(keys[n - 1], lo, hi)
  }

  lemma {:induction false} RankSumIsCount(keys: seq<seq<nat>>, n: nat, lo: nat, hi: nat)
    requires n <= |keys|
    ensures RankSum(keys, n, lo, hi) == CountIn(AllKeys(keys[..n]), lo, hi)
  {
    if n > 0 {
      RankSumIsCount(keys, n - 1, lo, hi);
      assert keys[..n][..n - 1] == keys[..n - 1];
      CountInBoth(AllKeys(keys[..n - 1]), keys[n - 1], lo, hi);
    }
  }

  lemma {:induction false} OwnIsLess(keys: seq<seq<nat>>, n: nat, r: nat, lo: nat, hi: nat)
    requires r < n <= |keys|
    ensures CountIn(keys[r], lo, hi) <= RankSum(keys, n, lo, hi)
  {
    if r < n - 1 { OwnIsLess(keys, n - 1, r, lo, hi); }
  }

  /** Every rank holds sorted keys; all together are fewer than a 32-bit number can count. */
  ghost predicate AreRankKeys(keys: seq<seq<nat>>) {
    |keys| > 0 && |AllKeys(keys)| <= UNSIGNED_MAX && forall r: nat :: r < |keys| ==> Sorted(keys[r])
  }

  lemma {:induction false} OwnKeysAreFewer(keys: seq<seq<nat>>, r: nat)
    requires r < |keys|
    ensures |keys[r]| <= |AllKeys(keys)|
    decreases |keys|
  {
    if r < |keys| - 1 { OwnKeysAreFewer(keys[..|keys| - 1], r); }
  }

  /** Unsigned sum of entry i of the first n ranks. */
  function SumAt(local: seq<seq<nat>>, n: nat, i: nat): (sum: nat)
    requires n <= |local| && forall r: nat :: r < n ==> i < |local[r]|
  {
    if n == 0 then 0 else (SumAt(local, n - 1, i) + local[n - 1][i]) % UNSIGNED_LIMIT
  }

  /** `mpiAllreduce` with the operation `MPI_SUM`: every rank gets the entry-wise sums. */
  method AllReduce(local: seq<seq<nat>>) returns (reduced: seq<nat>)
    requires |local| > 0 && forall r: nat :: r < |local| ==> |local[r]| == |local[0]|
    ensures |reduced| == |local[0]| && forall i: nat :: i < |reduced| ==> reduced[i] == SumAt(local, |local|, i)
  {
    reduced := [];
    for i := 0 to |local[0]|
      invariant |reduced| == i && forall k: nat :: k < i ==> reduced[k] == SumAt(local, |local|, k)
    {
      reduced := reduced + [SumAt(local, |local|, i)];
    }
  }

  /** All ranks have counted their own particles. */
  ghost predicate AreLocalCounts(tree: seq<nat>, local: seq<seq<nat>>, keys: seq<seq<nat>>) {
    |local| == |keys| && forall r: nat :: r < |keys| ==> AreCounts(tree, local[r], keys[r], UNSIGNED_MAX)
  }

  lemma {:induction false} SumIsTotal(tree: seq<nat>, local: seq<seq<nat>>, keys: seq<seq<nat>>, n: nat, i: nat)
    requires AreRankKeys(keys) && AreLocalCounts(tree, local, keys) && n <= |keys| && i + 1 < |tree|
    requires RankSum(keys, |keys|, tree[i], tree[i + 1]) <= UNSIGNED_MAX
    ensures SumAt(local, n, i) == RankSum(keys, n, tree[i], tree[i + 1])
  {
    if n > 0 {
      SumIsTotal(tree, local, keys, n - 1, i);
      OwnIsLess(keys, |keys|, n - 1, tree[i], tree[i + 1]);
      SumsGrow(keys, n, |keys|, tree[i], tree[i + 1]);
      OwnCountIs(tree, local[n - 1], keys[n - 1], i);
      NoWrap(SumAt(local, n - 1, i), local[n - 1][i]);
    }
  }

  lemma OwnCountIs(tree: seq<nat>, counts: seq<nat>, keys: seq<nat>, i: nat)
    requires AreCounts(tree, counts, keys, UNSIGNED_MAX) && i + 1 < |tree|
    requires CountIn(keys, tree[i], tree[i + 1]) <= UNSIGNED_MAX
    ensures i < |counts| && counts[i] == CountIn(keys, tree[i], tree[i + 1])
  {
  }

  lemma NoWrap(a: nat, b: nat)
    requires a + b <= UNSIGNED_MAX
    ensures (a + b) % UNSIGNED_LIMIT == a + b
  {
  }

  lemma {:induction false} SumsGrow(keys: seq<seq<nat>>, m: nat, n: nat, lo: nat, hi: nat)
    requires m <= n <= |keys|
    ensures RankSum(keys, m, lo, hi) <= RankSum(keys, n, lo, hi)
    decreases n
  {
    if m < n { SumsGrow(keys, m, n - 1, lo, hi); }
  }

  /** The larger one of the own and the summed count is the count of all particles. */
  lemma LargerIsTotal(tree: seq<nat>, local: seq<seq<nat>>, keys: seq<seq<nat>>, r: nat, i: nat)
    requires AreRankKeys(keys) && AreLocalCounts(tree, local, keys) && r < |keys| && i + 1 < |tree|
    ensures i < |local[r]| && (forall q: nat :: q < |local| ==> i < |local[q]|)
    ensures Max(local[r][i], SumAt(local, |local|, i)) == Min(CountIn(AllKeys(keys), tree[i], tree[i + 1]),
                                                              UNSIGNED_MAX)
  {
    assert AreCounts(tree, local[r], keys[r], UNSIGNED_MAX);
    forall q: nat | q < |local| ensures i < |local[q]| { assert AreCounts(tree, local[q], keys[q], UNSIGNED_MAX); }
    RankSumIsCount(keys, |keys|, tree[i], tree[i + 1]);
    assert keys[..|keys|] == keys;
    SumIsTotal(tree, local, keys, |keys|, i);
    OwnIsLess(keys, |keys|, r, tree[i], tree[i + 1]);
  }

  function Max(a: nat, b: nat): (m: nat) {
    if a >= b then a else b
  }

  // ------------------------------------------------------------- one update on all ranks

  /** All ranks have the same copy. */
  ghost predicate IsReplicated<T(!new)>(copies: seq<T>, n: nat, value: T) {
    |copies| == n && forall r: nat :: r < n ==> copies[r] == value
  }

  /** The tree after a step with these counts. */
  ghost function Updated(tree: seq<nat>, counts: seq<nat>, bucketSize: nat, L: nat): (newTree: seq<nat>)
    requires Cornerstone(tree, L) && |counts| == |tree| - 1
  {
    Rebalanced(tree, CountOps(tree, counts, bucketSize, L))
  }

  /** The step changes nothing. */
  ghost predicate IsSettled(tree: seq<nat>, counts: seq<nat>, bucketSize: nat, L: nat)
    requires Cornerstone(tree, L) && |counts| == |tree| - 1
  {
    forall i: nat :: i < |counts| ==> CountOps(tree, counts, bucketSize, L)[i] == 1
  }

  /** The part of `updateOctreeGlobal` after the reduction, on one rank. */
  method CombineCounts(local: seq<nat>, reduced: seq<nat>) returns (counts: seq<nat>, maxCount: nat)
    requires |local| == |reduced|
    ensures |counts| == |local| && forall i: nat :: i < |local| ==> counts[i] == Max(local[i], reduced[i])
    ensures IsMaximum(maxCount, counts)
  {
    counts, maxCount := [], 0;
    for i := 0 to |local|
      invariant |counts| == i && forall k: nat :: k < i ==> counts[k] == Max(local[k], reduced[k])
      invariant IsMaximum(maxCount, counts)
    {
      ghost var before := counts;
      counts := counts + [Max(local[i], reduced[i])];
      maxCount := Max(counts[i], maxCount);
      assert counts[..i] == before;
    }
  }

  ghost predicate IsMaximum(m: nat, counts: seq<nat>) {
    (forall i: nat :: i < |counts| ==> counts[i] <= m) && (m == 0 || m in counts)
  }

  method UpdateOne(keys: seq<nat>, bucketSize: nat, tree: seq<nat>, counts: seq<nat>, L: nat)
    returns (converged: bool, newTree: seq<nat>, newCounts: seq<nat>)
    requires Cornerstone(tree, L) && |counts| == |tree| - 1 && SmallBucket(bucketSize)
    requires Sorted(keys) && |keys| <= UNSIGNED_MAX
    ensures converged == IsSettled(tree, counts, bucketSize, L) && newTree == Updated(tree, counts, bucketSize, L)
    ensures AreCounts(newTree, newCounts, keys, UNSIGNED_MAX)
  {
    converged, newTree, newCounts := UpdateOctree(keys, bucketSize, tree, counts, UNSIGNED_MAX, L);
  }

  /** All ranks rebalance their copies and count their own particles. */
  method UpdateLocally(keys: seq<seq<nat>>, bucketSize: nat, trees: seq<seq<nat>>, counts: seq<seq<nat>>, L: nat,
                       ghost tree: seq<nat>, ghost count: seq<nat>)
    returns (flags: seq<bool>, newTrees: seq<seq<nat>>, local: seq<seq<nat>>)
    requires AreRankKeys(keys) && Cornerstone(tree, L) && |count| == |tree| - 1 && SmallBucket(bucketSize)
    requires IsReplicated(trees, |keys|, tree) && IsReplicated(counts, |keys|, count)
    ensures Cornerstone(Updated(tree, count, bucketSize, L), L)
    ensures IsReplicated(flags, |keys|, IsSettled(tree, count, bucketSize, L))
    ensures IsReplicated(newTrees, |keys|, Updated(tree, count, bucketSize, L))
    ensures AreLocalCounts(Updated(tree, count, bucketSize, L), local, keys)
  {
    flags, newTrees, local := [], [], [];
    StepKeepsCornerstone(tree, count, bucketSize, L);
    for r := 0 to |keys|
      invariant IsReplicated(flags, r, IsSettled(tree, count, bucketSize, L))
      invariant IsReplicated(newTrees, r, Updated(tree, count, bucketSize, L))
      invariant |local| == r
      invariant forall q: nat :: q < r ==>
        AreCounts(Updated(tree, count, bucketSize, L), local[q], keys[q], UNSIGNED_MAX)
    {
      OwnKeysAreFewer(keys, r);
      var converged, newTree, newCounts := UpdateOne(keys[r], bucketSize, trees[r], counts[r], L);
      flags, newTrees, local := flags + [converged], newTrees + [newTree], local + [newCounts];
    }
  }

  /** `updateOctreeGlobal`: a step on all ranks is a step of one rank with all particles, on every rank. */
  method UpdateOctreeGlobal(keys: seq<seq<nat>>, bucketSize: nat, trees: seq<seq<nat>>, counts: seq<seq<nat>>, L: nat,
                            ghost tree: seq<nat>, ghost count: seq<nat>)
    returns (flags: seq<bool>, newTrees: seq<seq<nat>>, newCounts: seq<seq<nat>>, maxCounts: seq<nat>,
             ghost newCount: seq<nat>)
    requires AreRankKeys(keys) && Cornerstone(tree, L) && |count| == |tree| - 1 && SmallBucket(bucketSize)
    requires IsReplicated(trees, |keys|, tree) && IsReplicated(counts, |keys|, count)
    ensures Cornerstone(Updated(tree, count, bucketSize, L), L)
    ensures IsReplicated(flags, |keys|, IsSettled(tree, count, bucketSize, L))
    ensures IsReplicated(newTrees, |keys|, Updated(tree, count, bucketSize, L))
    ensures IsReplicated(newCounts, |keys|, newCount)
    ensures AreCounts(Updated(tree, count, bucketSize, L), newCount, AllKeys(keys), UNSIGNED_MAX)
    ensures |maxCounts| == |keys| && forall r: nat :: r < |keys| ==> IsMaximum(maxCounts[r], newCount)
  {
    var local;
    flags, newTrees, local := UpdateLocally(keys, bucketSize, trees, counts, L, tree, count);
    ghost var t := Updated(tree, count, bucketSize, L);
    forall r: nat | r < |local| ensures |local[r]| == |t| - 1 { assert AreCounts(t, local[r], keys[r], UNSIGNED_MAX); }
    var reduced := AllReduce(local);
    newCount := Totals(t, AllKeys(keys), |t| - 1);
    newCounts, maxCounts := CombineAll(keys, local, reduced, t, newCount);
  }

  /** All ranks take the larger one of their own and the summed counts. */
  method CombineAll(keys: seq<seq<nat>>, local: seq<seq<nat>>, reduced: seq<nat>, ghost tree: seq<nat>,
                    ghost newCount: seq<nat>)
    returns (newCounts: seq<seq<nat>>, maxCounts: seq<nat>)
    requires AreRankKeys(keys) && AreLocalCounts(tree, local, keys) && |reduced| == |newCount| == |tree| - 1
    requires forall r: nat :: r < |local| ==> |local[r]| == |reduced|
    requires forall i: nat :: i < |reduced| ==> reduced[i] == SumAt(local, |local|, i)
    requires AreCounts(tree, newCount, AllKeys(keys), UNSIGNED_MAX)
    ensures IsReplicated(newCounts, |keys|, newCount)
    ensures |maxCounts| == |keys| && forall r: nat :: r < |keys| ==> IsMaximum(maxCounts[r], newCount)
  {
    newCounts, maxCounts := [], [];
    for r := 0 to |keys|
      invariant IsReplicated(newCounts, r, newCount)
      invariant |maxCounts| == r && forall q: nat :: q < r ==> IsMaximum(maxCounts[q], newCount)
    {
      var combined, maxCount := CombineCounts(local[r], reduced);
      forall i: nat | i < |combined| ensures combined[i] == newCount[i] { LargerIsTotal(tree, local, keys, r, i); }
      assert combined == newCount;
      newCounts, maxCounts := newCounts + [combined], maxCounts + [maxCount];
    }
  }

  ghost function Totals(tree: seq<nat>, keys: seq<nat>, n: nat): (counts: seq<nat>)
    requires n < |tree|
    ensures |counts| == n
    ensures forall i: nat :: i < n ==> counts[i] == Min(CountIn(keys, tree[i], tree[i + 1]), UNSIGNED_MAX)
  {
    seq(n, (i: nat) requires i + 1 < |tree| => Min(CountIn(keys, tree[i], tree[i + 1]), UNSIGNED_MAX))
  }

  // ------------------------------------------------------------- runs

  /** A step that settles on exact counts has reached the octree of all particles; any other step makes progress. */
  lemma GlobalStep(keys: seq<seq<nat>>, bucketSize: nat, tree: seq<nat>, counts: seq<nat>, L: nat)
    requires Cornerstone(tree, L) && AreCounts(tree, counts, AllKeys(keys), UNSIGNED_MAX) && SmallBucket(bucketSize)
    ensures var all, next := AllKeys(keys), Updated(tree, counts, bucketSize, L);
            if IsSettled(tree, counts, bucketSize, L) then next == tree && IsOctreeOf(tree, all, bucketSize, L)
            else
              var before, after := Missing(tree, all, bucketSize, L), Missing(next, all, bucketSize, L);
              after < before || (after == before && |next| < |tree|)
  {
    var ops := CountOps(tree, counts, bucketSize, L);
    StepKeepsCornerstone(tree, counts, bucketSize, L);
    if IsSettled(tree, counts, bucketSize, L) {
      UnchangedTree(tree, ops);
      ConvergedIsOctree(tree, counts, AllKeys(keys), bucketSize, UNSIGNED_MAX, L);
    } else {
      StepProgress(tree, counts, AllKeys(keys), bucketSize, UNSIGNED_MAX, L, ops);
    }
  }

  /** All ranks update until their flags say that nothing changed: they end with the same octree, that of the
      particles of all ranks. The start is any octree that all ranks have, with any counts. */
  method ComputeOctreeGlobal(keys: seq<seq<nat>>, bucketSize: nat, trees: seq<seq<nat>>, counts: seq<seq<nat>>, L: nat,
                             ghost tree: seq<nat>, ghost count: seq<nat>)
    returns (newTrees: seq<seq<nat>>, newCounts: seq<seq<nat>>, ghost newTree: seq<nat>, ghost newCount: seq<nat>)
    requires AreRankKeys(keys) && Cornerstone(tree, L) && |count| == |tree| - 1 && SmallBucket(bucketSize)
    requires IsReplicated(trees, |keys|, tree) && IsReplicated(counts, |keys|, count)
    ensures IsReplicated(newTrees, |keys|, newTree) && IsReplicated(newCounts, |keys|, newCount)
    ensures IsOctreeOf(newTree, AllKeys(keys), bucketSize, L)
    ensures AreCounts(newTree, newCount, AllKeys(keys), UNSIGNED_MAX)
    ensures |newTrees| == |newCounts| == |keys| && forall r: nat :: r < |keys| ==>
      IsOctreeOf(newTrees[r], AllKeys(keys), bucketSize, L) &&
      AreCounts(newTrees[r], newCounts[r], AllKeys(keys), UNSIGNED_MAX)
  {
    var flags, maxCounts;
    flags, newTrees, newCounts, maxCounts, newCount := UpdateOctreeGlobal(keys, bucketSize, trees, counts, L, tree,
                                                                          count);
    newTree := Updated(tree, count, bucketSize, L);
    var converged := false;
    while !converged
      invariant Cornerstone(newTree, L) && AreCounts(newTree, newCount, AllKeys(keys), UNSIGNED_MAX)
      invariant IsReplicated(newTrees, |keys|, newTree) && IsReplicated(newCounts, |keys|, newCount)
      invariant converged ==> IsOctreeOf(newTree, AllKeys(keys), bucketSize, L)
      decreases !converged, Missing(newTree, AllKeys(keys), bucketSize, L), |newTree|
    {
      ghost var t, c := newTree, newCount;
      GlobalStep(keys, bucketSize, t, c, L);
      flags, newTrees, newCounts, maxCounts, newCount := UpdateOctreeGlobal(keys, bucketSize, newTrees, newCounts, L, t,
                                                                            c);
      newTree := Updated(t, c, bucketSize, L);
      converged := flags[0];
    }
  }

  /** The largest count is what `assign` looks at, so it may stop early: all leaves are small enough, but this is
      the octree of the particles only if one more step would change nothing. */
  lemma StopsAtOctreeIff(keys: seq<seq<nat>>, bucketSize: nat, tree: seq<nat>, counts: seq<nat>, L: nat)
    requires Cornerstone(tree, L) && AreCounts(tree, counts, AllKeys(keys), UNSIGNED_MAX) && SmallBucket(bucketSize)
    ensures IsOctreeOf(tree, AllKeys(keys), bucketSize, L) <==> IsSettled(tree, counts, bucketSize, L)
  {
    SettledIffOctree(tree, counts, AllKeys(keys), bucketSize, UNSIGNED_MAX, L);
  }

  /** It does not stop early if no cell has ever been subdivided without need. */
  lemma StopsInTime(keys: seq<seq<nat>>, bucketSize: nat, tree: seq<nat>, counts: seq<nat>, L: nat)
    requires AreCounts(tree, counts, AllKeys(keys), UNSIGNED_MAX) && SmallBucket(bucketSize)
    requires Cornerstone(tree, L) && OnlyOverfullIsCut(tree, AllKeys(keys), bucketSize, L)
    requires forall i: nat :: i < |counts| ==> counts[i] <= bucketSize
    ensures IsOctreeOf(tree, AllKeys(keys), bucketSize, L)
  {
    forall i: nat | i + 1 < |tree| ensures LeafHasAtMost(tree, AllKeys(keys), i, bucketSize) {
      assert counts[i] <= bucketSize;
    }
    FineIsOctree(tree, AllKeys(keys), bucketSize, L);
  }

  /** What the second form of `updateOctreeGlobal` returns: 0 if nothing changed, otherwise the largest count. */
  function LargestCount(converged: bool, maxCount: nat): (r: nat) {
    if converged then 0 else maxCount
  }

  /** Some leaf has at least n particles. */
  ghost predicate HasLeafWith(tree: seq<nat>, all: seq<nat>, n: nat) {
    exists i: nat :: i + 1 < |tree| && CountIn(all, tree[i], tree[i + 1]) >= n
  }

  lemma LargestIs(m: nat, tree: seq<nat>, counts: seq<nat>, all: seq<nat>, n: nat)
    requires IsMaximum(m, counts) && AreCounts(tree, counts, all, UNSIGNED_MAX) && |all| <= UNSIGNED_MAX && n > 0
    ensures m >= n <==> HasLeafWith(tree, all, n)
  {
    if m >= n {
      var i: nat :| i < |counts| && counts[i] == m;
      assert CountIn(all, tree[i], tree[i + 1]) >= n;
    }
    if i: nat :| i + 1 < |tree| && CountIn(all, tree[i], tree[i + 1]) >= n { assert counts[i] <= m; }
  }

  /** A step with exact counts leads from one octree to the next one. */
  ghost predicate IsExactStep(tree: seq<nat>, next: seq<nat>, all: seq<nat>, bucketSize: nat, L: nat) {
    Cornerstone(tree, L) && next == Updated(tree, Totals(tree, all, |tree| - 1), bucketSize, L)
  }

  /** After this step the loop stops: nothing has changed, or no leaf is too full. */
  ghost predicate IsLastStep(tree: seq<nat>, next: seq<nat>, all: seq<nat>, bucketSize: nat) {
    next == tree || !HasLeafWith(next, all, bucketSize + 1)
  }

  type Relation = (seq<nat>, seq<nat>) -> bool

  ghost function ExactStep(all: seq<nat>, bucketSize: nat, L: nat): (step: Relation) {
    (tree, next) => IsExactStep(tree, next, all, bucketSize, L)
  }

  ghost function LastStep(all: seq<nat>, bucketSize: nat): (isLast: Relation) {
    (tree, next) => IsLastStep(tree, next, all, bucketSize)
  }

  ghost predicate IsStepAt(trail: seq<seq<nat>>, step: Relation, isLast: Relation, going: bool, k: nat)
    requires k + 1 < |trail|
  {
    step(trail[k], trail[k + 1]) && (isLast(trail[k], trail[k + 1]) <==> k + 2 == |trail| && !going)
  }

  /** The octrees of a loop that stops as soon as it may. */
  ghost predicate IsTrail(trail: seq<seq<nat>>, step: Relation, isLast: Relation, going: bool) {
    |trail| > 0 && forall k: nat :: k + 1 < |trail| ==> IsStepAt(trail, step, isLast, going, k)
  }

  lemma TrailGoesOn(trail: seq<seq<nat>>, step: Relation, isLast: Relation, next: seq<nat>, going: bool)
    requires IsTrail(trail, step, isLast, true) && step(trail[|trail| - 1], next)
    requires !going <==> isLast(trail[|trail| - 1], next)
    ensures IsTrail(trail + [next], step, isLast, going)
  {
    var longer := trail + [next];
    forall k: nat | k + 1 < |longer| ensures IsStepAt(longer, step, isLast, going, k) {
      if k + 1 < |trail| {
        assert IsStepAt(trail, step, isLast, true, k);
        assert longer[k] == trail[k] && longer[k + 1] == trail[k + 1];
      }
    }
  }

  /** The flag of a step says whether it changes the octree. */
  lemma SettledIffUnchanged(tree: seq<nat>, counts: seq<nat>, bucketSize: nat, L: nat)
    requires Cornerstone(tree, L) && |counts| == |tree| - 1 && SmallBucket(bucketSize)
    ensures IsSettled(tree, counts, bucketSize, L) <==> Updated(tree, counts, bucketSize, L) == tree
  {
    CountOpsFit(tree, counts, bucketSize, L);
    UnchangedIffAllOne(tree, CountOps(tree, counts, bucketSize, L), L);
  }

  lemma ExactCountsAre(tree: seq<nat>, counts: seq<nat>, all: seq<nat>)
    requires |tree| > 0 && AreCounts(tree, counts, all, UNSIGNED_MAX)
    ensures counts == Totals(tree, all, |tree| - 1)
  {
  }

  /** What a step with exact counts is in a run. */
  lemma ExactStepIs(keys: seq<seq<nat>>, bucketSize: nat, tree: seq<nat>, count: seq<nat>, L: nat, next: seq<nat>)
    requires Cornerstone(tree, L) && SmallBucket(bucketSize)
    requires AreCounts(tree, count, AllKeys(keys), UNSIGNED_MAX) && next == Updated(tree, count, bucketSize, L)
    ensures ExactStep(AllKeys(keys), bucketSize, L)(tree, next)
    ensures IsSettled(tree, count, bucketSize, L) <==> next == tree
    ensures next == tree ==> IsOctreeOf(next, AllKeys(keys), bucketSize, L)
    ensures next != tree ==> IsNearer(next, tree, AllKeys(keys), bucketSize, L)
    ensures NeedsNoMerge(tree, AllKeys(keys), bucketSize, L) ==> NeedsNoMerge(next, AllKeys(keys), bucketSize, L)
  {
    GlobalStep(keys, bucketSize, tree, count, L);
    ExactCountsAre(tree, count, AllKeys(keys));
    SettledIffUnchanged(tree, count, bucketSize, L);
    if NeedsNoMerge(tree, AllKeys(keys), bucketSize, L) {
      StepNeedsNoMerge(tree, count, AllKeys(keys), bucketSize, L);
    }
  }

  ghost predicate IsNearer(next: seq<nat>, tree: seq<nat>, all: seq<nat>, bucketSize: nat, L: nat) {
    var before, after := Missing(tree, all, bucketSize, L), Missing(next, all, bucketSize, L);
    after < before || (after == before && |next| < |tree|)
  }

  /** One step in the loop, from exact counts. */
  method StepOfLoop(keys: seq<seq<nat>>, bucketSize: nat, trees: seq<seq<nat>>, counts: seq<seq<nat>>, L: nat,
                    ghost tree: seq<nat>, ghost count: seq<nat>)
    returns (going: bool, newTrees: seq<seq<nat>>, newCounts: seq<seq<nat>>, ghost next: seq<nat>,
             ghost newCount: seq<nat>)
    requires AreRankKeys(keys) && Cornerstone(tree, L) && SmallBucket(bucketSize)
    requires AreCounts(tree, count, AllKeys(keys), UNSIGNED_MAX)
    requires IsReplicated(trees, |keys|, tree) && IsReplicated(counts, |keys|, count)
    ensures IsReplicated(newTrees, |keys|, next) && IsReplicated(newCounts, |keys|, newCount)
    ensures Cornerstone(next, L) && AreCounts(next, newCount, AllKeys(keys), UNSIGNED_MAX)
    ensures ExactStep(AllKeys(keys), bucketSize, L)(tree, next)
    ensures !going <==> LastStep(AllKeys(keys), bucketSize)(tree, next)
    ensures going ==> IsNearer(next, tree, AllKeys(keys), bucketSize, L)
    ensures NeedsNoMerge(tree, AllKeys(keys), bucketSize, L) ==> NeedsNoMerge(next, AllKeys(keys), bucketSize, L)
    ensures !going ==> IsOctreeOf(next, AllKeys(keys), bucketSize, L) ||
                       forall i: nat :: i < |newCount| ==> newCount[i] <= bucketSize
  {
    var flags, maxCounts;
    flags, newTrees, newCounts, maxCounts, newCount := UpdateOctreeGlobal(keys, bucketSize, trees, counts, L, tree,
                                                                          count);
    next := Updated(tree, count, bucketSize, L);
    LargestIs(maxCounts[0], next, newCount, AllKeys(keys), bucketSize + 1);
    going := LargestCount(flags[0], maxCounts[0]) > bucketSize;
    ExactStepIs(keys, bucketSize, tree, count, L, next);
  }

  /** The loop of `assign`. */
  method StepUntilFine(keys: seq<seq<nat>>, bucketSize: nat, trees: seq<seq<nat>>, counts: seq<seq<nat>>, L: nat,
                       ghost tree: seq<nat>, ghost count: seq<nat>)
    returns (newTrees: seq<seq<nat>>, newCounts: seq<seq<nat>>, ghost newTree: seq<nat>, ghost newCount: seq<nat>,
             ghost trail: seq<seq<nat>>)
    requires AreRankKeys(keys) && Cornerstone(tree, L) && SmallBucket(bucketSize)
    requires AreCounts(tree, count, AllKeys(keys), UNSIGNED_MAX)
    requires IsReplicated(trees, |keys|, tree) && IsReplicated(counts, |keys|, count)
    ensures IsReplicated(newTrees, |keys|, newTree) && IsReplicated(newCounts, |keys|, newCount)
    ensures Cornerstone(newTree, L) && AreCounts(newTree, newCount, AllKeys(keys), UNSIGNED_MAX)
    ensures IsTrail(trail, ExactStep(AllKeys(keys), bucketSize, L), LastStep(AllKeys(keys), bucketSize), false)
    ensures |trail| > 1
    ensures trail[0] == tree && trail[|trail| - 1] == newTree
    ensures IsOctreeOf(newTree, AllKeys(keys), bucketSize, L) ||
            forall i: nat :: i < |newCount| ==> newCount[i] <= bucketSize
    ensures NeedsNoMerge(tree, AllKeys(keys), bucketSize, L) ==> IsOctreeOf(newTree, AllKeys(keys), bucketSize, L)
    ensures IsOctreeOf(newTree, AllKeys(keys), bucketSize, L) <==> IsSettled(newTree, newCount, bucketSize, L)
    ensures IsOctreeOf(newTree, AllKeys(keys), bucketSize, L) || bucketSize == 0 ||
            !HasLeafWith(newTree, AllKeys(keys), 8 * bucketSize)
  {
    newTrees, newCounts, newTree, newCount, trail := trees, counts, tree, count, [tree];
    ghost var all, fits := AllKeys(keys), NeedsNoMerge(tree, AllKeys(keys), bucketSize, L);
    ghost var step, isLast := ExactStep(all, bucketSize, L), LastStep(all, bucketSize);
    var going := true;
    while going
      invariant Cornerstone(newTree, L) && AreCounts(newTree, newCount, AllKeys(keys), UNSIGNED_MAX)
      invariant IsReplicated(newTrees, |keys|, newTree) && IsReplicated(newCounts, |keys|, newCount)
      invariant !going ==> IsOctreeOf(newTree, AllKeys(keys), bucketSize, L) ||
                           forall i: nat :: i < |newCount| ==> newCount[i] <= bucketSize
      invariant fits ==> NeedsNoMerge(newTree, all, bucketSize, L)
      invariant IsTrail(trail, step, isLast, going) && (|trail| == 1 ==> going)
      invariant trail[0] == tree && trail[|trail| - 1] == newTree
      decreases going, Missing(newTree, AllKeys(keys), bucketSize, L), |newTree|
    {
      going, newTrees, newCounts, newTree, newCount := StepOfLoop(keys, bucketSize, newTrees, newCounts, L, newTree,
                                                                  newCount);
      TrailGoesOn(trail, step, isLast, newTree, going);
      trail := trail + [newTree];
    }
    if fits && !IsOctreeOf(newTree, all, bucketSize, L) { StopsInTime(keys, bucketSize, newTree, newCount, L); }
    StopsAtOctreeIff(keys, bucketSize, newTree, newCount, L);
    if bucketSize > 0 { FineIsNotVeryFull(newTree, newCount, all, bucketSize); }
  }

  /** The first step, and whether it has to be repeated. */
  method StepAndDecide(keys: seq<seq<nat>>, bucketSize: nat, firstCall: bool, trees: seq<seq<nat>>,
                       counts: seq<seq<nat>>, L: nat, ghost tree: seq<nat>, ghost count: seq<nat>)
    returns (newTrees: seq<seq<nat>>, newCounts: seq<seq<nat>>, repeated: bool, ghost newCount: seq<nat>)
    requires AreRankKeys(keys) && Cornerstone(tree, L) && |count| == |tree| - 1 && SmallBucket(bucketSize)
    requires IsReplicated(trees, |keys|, tree) && IsReplicated(counts, |keys|, count)
    ensures Cornerstone(Updated(tree, count, bucketSize, L), L)
    ensures IsReplicated(newTrees, |keys|, Updated(tree, count, bucketSize, L))
    ensures IsReplicated(newCounts, |keys|, newCount)
    ensures AreCounts(Updated(tree, count, bucketSize, L), newCount, AllKeys(keys), UNSIGNED_MAX)
    ensures repeated <==> firstCall || bucketSize == 0 ||
                          (Updated(tree, count, bucketSize, L) != tree &&
                           HasLeafWith(Updated(tree, count, bucketSize, L), AllKeys(keys), 8 * bucketSize))
    ensures AreCounts(tree, count, AllKeys(keys), UNSIGNED_MAX) && NeedsNoMerge(tree, AllKeys(keys), bucketSize, L) ==>
              NeedsNoMerge(Updated(tree, count, bucketSize, L), AllKeys(keys), bucketSize, L)
  {
    var flags, maxCounts;
    flags, newTrees, newCounts, maxCounts, newCount := UpdateOctreeGlobal(keys, bucketSize, trees, counts, L, tree,
                                                                          count);
    repeated := firstCall || LargestCount(flags[0], maxCounts[0]) >= 8 * bucketSize;
    SettledIffUnchanged(tree, count, bucketSize, L);
    ghost var next := Updated(tree, count, bucketSize, L);
    if bucketSize > 0 { LargestIs(maxCounts[0], next, newCount, AllKeys(keys), 8 * bucketSize); }
    if AreCounts(tree, count, AllKeys(keys), UNSIGNED_MAX) { ExactStepIs(keys, bucketSize, tree, count, L, next); }
  }

  /** The tree build of `assign`: one step, and on the first call or if a leaf has become very full, steps until
      no leaf is too full or nothing changes. Leaves that could be merged may remain, as in `EarlyStop.StopsEarly`,
      but not if the octree was nowhere finer than the particles require, and no leaf more than 8 times too full,
      before the call or after its first step. */
  method UpdateGlobalTree(keys: seq<seq<nat>>, bucketSize: nat, firstCall: bool, trees: seq<seq<nat>>,
                          counts: seq<seq<nat>>, L: nat, ghost tree: seq<nat>, ghost count: seq<nat>)
    returns (newTrees: seq<seq<nat>>, newCounts: seq<seq<nat>>, repeated: bool, ghost newTree: seq<nat>,
             ghost newCount: seq<nat>, ghost trail: seq<seq<nat>>)
    requires AreRankKeys(keys) && Cornerstone(tree, L) && |count| == |tree| - 1 && SmallBucket(bucketSize)
    requires IsReplicated(trees, |keys|, tree) && IsReplicated(counts, |keys|, count)
    ensures IsReplicated(newTrees, |keys|, newTree) && IsReplicated(newCounts, |keys|, newCount)
    ensures Cornerstone(newTree, L)
    ensures AreCounts(newTree, newCount, AllKeys(keys), UNSIGNED_MAX)
    ensures repeated <==> firstCall || bucketSize == 0 ||
                          (Updated(tree, count, bucketSize, L) != tree &&
                           HasLeafWith(Updated(tree, count, bucketSize, L), AllKeys(keys), 8 * bucketSize))
    ensures IsTrail(trail, ExactStep(AllKeys(keys), bucketSize, L), LastStep(AllKeys(keys), bucketSize), false)
    ensures (repeated <==> |trail| > 1)
    ensures trail[0] == Updated(tree, count, bucketSize, L) && trail[|trail| - 1] == newTree
    ensures || Updated(tree, count, bucketSize, L) == tree || IsOctreeOf(newTree, AllKeys(keys), bucketSize, L)
            || bucketSize == 0 || !HasLeafWith(newTree, AllKeys(keys), 8 * bucketSize)
    ensures repeated ==> IsOctreeOf(newTree, AllKeys(keys), bucketSize, L) ||
                         forall i: nat :: i < |newCount| ==> newCount[i] <= bucketSize
    ensures repeated ==> (IsOctreeOf(newTree, AllKeys(keys), bucketSize, L) <==>
                          IsSettled(newTree, newCount, bucketSize, L))
    ensures repeated && NeedsNoMerge(Updated(tree, count, bucketSize, L), AllKeys(keys), bucketSize, L) ==>
              IsOctreeOf(newTree, AllKeys(keys), bucketSize, L)
    ensures repeated && AreCounts(tree, count, AllKeys(keys), UNSIGNED_MAX) &&
            NeedsNoMerge(tree, AllKeys(keys), bucketSize, L) ==>
              IsOctreeOf(newTree, AllKeys(keys), bucketSize, L)
  {
    newTrees, newCounts, repeated, newCount := StepAndDecide(keys, bucketSize, firstCall, trees, counts, L, tree,
                                                             count);
    newTree := Updated(tree, count, bucketSize, L);
    trail := [newTree];
    if repeated {
      newTrees, newCounts, newTree, newCount, trail := StepUntilFine(keys, bucketSize, newTrees, newCounts, L, newTree,
                                                                     newCount);
    }
  }

  lemma FineIsNotVeryFull(tree: seq<nat>, counts: seq<nat>, all: seq<nat>, bucketSize: nat)
    requires AreCounts(tree, counts, all, UNSIGNED_MAX) && |all| <= UNSIGNED_MAX && bucketSize > 0
    ensures (forall i: nat :: i < |counts| ==> counts[i] <= bucketSize) ==> !HasLeafWith(tree, all, 8 * bucketSize)
  {
    if i: nat :| i + 1 < |tree| && CountIn(all, tree[i], tree[i + 1]) >= 8 * bucketSize {
      assert counts[i] > bucketSize;
    }
  }
}
