/** Assignment of leaves of the global octree to ranks, such that all ranks get similar numbers of particles. */
module SfcAssignment {
  import opened Keys
  import opened CornerstoneArray
  import opened Counts
  import opened Upsweep
  import opened ExactCounts
  import opened ParticleExchange

  /** Sums of the first counts. */
  ghost predicate IsScanOf(scan: seq<nat>, counts: seq<nat>, n: nat) {
    |scan| == n + 1 && n <= |counts| && forall i: nat :: i <= n ==> IsPrefixSum(scan, counts, i)
  }

  ghost predicate IsPrefixSum(scan: seq<nat>, counts: seq<nat>, i: nat) {
    i < |scan| && i <= |counts| && scan[i] == SumBetween(counts, 0, i)
  }

  lemma {:induction false} SumsJoin(counts: seq<nat>, i: nat, j: nat, k: nat)
    requires i <= j <= k <= |counts|
    ensures SumBetween(counts, i, k) == SumBetween(counts, i, j) + SumBetween(counts, j, k)
    decreases k
  {
    if j < k { SumsJoin(counts, i, j, k - 1); }
  }

  method InclusiveScan(counts: seq<nat>) returns (countScan: seq<nat>)
    ensures IsScanOf(countScan, counts, |counts|)
  {
    countScan := [0];
    assert IsPrefixSum(countScan, counts, 0);
    for i := 0 to |counts|
      invariant IsScanOf(countScan, counts, i)
    {
      ghost var before := countScan;
      assert IsPrefixSum(before, counts, i);
      countScan := countScan + [countScan[i] + counts[i]];
      forall k: nat | k <= i + 1 ensures IsPrefixSum(countScan, counts, k) {
        assert k <= i ==> IsPrefixSum(before, counts, k);
      }
    }
  }

  /** The leaves of the ranks: contiguous, and together all leaves. */
  ghost predicate AreBins(bins: seq<nat>, n: nat) {
    && |bins| > 1 && bins[0] == 0 && bins[|bins| - 1] == n
    && forall i: nat, j: nat :: i <= j < |bins| ==> bins[i] <= bins[j]
  }

  /** Every rank but the last stops where the sum of counts reaches its target. */
  predicate AreTargets(targets: seq<nat>, total: nat) {
    && |targets| > 0 && (forall i: nat :: i < |targets| ==> targets[i] <= total)
    && forall i: nat, j: nat :: i <= j < |targets| ==> targets[i] <= targets[j]
  }

  /** The targets of the program: entry i is i times the mean count, rounded down. */
  predicate AreMeanTargets(targets: seq<nat>, total: nat) {
    forall i: nat :: i < |targets| ==> targets[i] == i * total / |targets|
  }

  /** No leaf has more than `largest` particles. */
  ghost predicate NoneExceeds(counts: seq<nat>, largest: nat) {
    forall i: nat :: i < |counts| ==> counts[i] <= largest
  }

  /** The count differs from the mean, which is total / n, by less than `largest` + 1. */
  ghost predicate IsNearMean(count: nat, total: nat, n: nat, largest: nat) {
    n * count < total + n * (largest + 1) && total < n * (count + largest + 1)
  }

  ghost predicate AreNearMean(binCounts: seq<nat>, total: nat, largest: nat) {
    forall q: nat :: q < |binCounts| ==> IsNearMean(binCounts[q], total, |binCounts|, largest)
  }

  lemma MeanTargetsAre(targets: seq<nat>, total: nat)
    requires targets != [] && AreMeanTargets(targets, total)
    ensures AreTargets(targets, total)
  {
    forall i: nat, j: nat | i <= j < |targets| ensures targets[i] <= targets[j] {
      TargetsAscend(i, j, total, |targets|);
    }
    forall i: nat | i < |targets| ensures targets[i] <= total {
      TargetsAscend(i, |targets|, total, |targets|);
      LastTarget(total, |targets|);
    }
  }

  lemma TargetsAscend(i: nat, j: nat, total: nat, n: nat)
    requires i <= j && n > 0
    ensures i * total / n <= j * total / n
  {
    MoreTimes(total, i, j);
    DivMonotone(i * total, j * total, n);
  }

  lemma LastTarget(total: nat, n: nat)
    requires n > 0
    ensures n * total / n == total
  {
    var a := n * total / n;
    MoreTimes(n, a + 1, total);
    MoreTimes(n, total + 1, a);
  }

  lemma MoreTimes(n: nat, i: int, j: int)
    ensures i <= j ==> n * i <= n * j && i * n <= j * n
  {
    if i <= j { assert 0 <= n * (j - i); }
  }

  lemma DivMonotone(a: nat, b: nat, n: nat)
    requires a <= b && n > 0
    ensures a / n <= b / n
  {
    MoreTimes(n, b / n + 1, a / n);
  }

  /** A rank that starts and stops as soon as the sums reach their targets misses the mean by less than a leaf. */
  lemma BinIsNearMean(total: nat, n: nat, q: nat, from: nat, to: nat, largest: nat)
    requires q < n
    requires q * total / n <= from <= q * total / n + largest
    requires (q + 1) * total / n <= to <= (q + 1) * total / n + largest && from <= to
    ensures IsNearMean(to - from, total, n, largest)
  {
    var a, b := q * total / n, (q + 1) * total / n;
    Distance(q * total, total, n, a, b) by {
      assert (q + 1) * total == q * total + total;
    }
    NearMean(to - from, b - a, total, n, largest);
  }

  lemma Distance(x: nat, total: nat, n: nat, a: nat, b: nat)
    requires n > 0 && a == x / n && b == (x + total) / n
    ensures n * (b - a) < total + n && total < n * (b - a) + n
  {
    assert n * a <= x < n * a + n && n * b <= x + total < n * b + n;
    assert n * (b - a) == n * b - n * a;
  }

  lemma NearMean(count: nat, d: int, total: nat, n: nat, largest: nat)
    requires n > 0 && n * d < total + n && total < n * d + n && d - largest <= count <= d + largest
    ensures IsNearMean(count, total, n, largest)
  {
    calc {
      n * count;
    <= n * (d + largest);
    == n * d + n * largest;
    < total + n + n * largest;
    == total + n * (largest + 1);
    }
    calc {
      total;
    < n * d + n;
    <= n * (count + largest) + n;
    == n * (count + largest + 1);
    }
  }

  /** With the targets of the program, all ranks get similar numbers of particles. */
  lemma BinsAreNearMean(counts: seq<nat>, targets: seq<nat>, bins: seq<nat>, binCounts: seq<nat>, largest: nat)
    requires targets != [] && AreMeanTargets(targets, SumBetween(counts, 0, |counts|))
    requires |bins| == |targets| + 1 && AreBins(bins, |counts|) && |binCounts| == |targets|
    requires forall i: nat :: 0 < i < |targets| ==> IsFirstReaching(counts, bins[i], targets[i])
    requires forall q: nat :: q < |targets| ==> binCounts[q] == SumBetween(counts, bins[q], bins[q + 1])
    requires NoneExceeds(counts, largest)
    ensures AreNearMean(binCounts, SumBetween(counts, 0, |counts|), largest)
  {
    var total, n := SumBetween(counts, 0, |counts|), |targets|;
    forall q: nat | q < n ensures IsNearMean(binCounts[q], total, n, largest) {
      assert bins[q] <= bins[q + 1] <= |counts| by { assert bins[q + 1] <= bins[n]; }
      BinStart(counts, targets, bins, largest, q);
      BinStart(counts, targets, bins, largest, q + 1);
      SumsJoin(counts, 0, bins[q], bins[q + 1]);
      BinIsNearMean(total, n, q, SumBetween(counts, 0, bins[q]), SumBetween(counts, 0, bins[q + 1]), largest);
    }
  }

  lemma BinStart(counts: seq<nat>, targets: seq<nat>, bins: seq<nat>, largest: nat, i: nat)
    requires targets != [] && AreMeanTargets(targets, SumBetween(counts, 0, |counts|))
    requires |bins| == |targets| + 1 && AreBins(bins, |counts|) && i <= |targets|
    requires forall i: nat :: 0 < i < |targets| ==> IsFirstReaching(counts, bins[i], targets[i])
    requires NoneExceeds(counts, largest)
    ensures bins[i] <= |counts|
    ensures var target := i * SumBetween(counts, 0, |counts|) / |targets|;
            target <= SumBetween(counts, 0, bins[i]) <= target + largest
  {
    var total, n := SumBetween(counts, 0, |counts|), |targets|;
    if i == n {
      LastTarget(total, n);
    } else if i > 0 {
      assert targets[i] == i * total / n;
      StopsSoon(counts, bins[i], targets[i], largest);
    } else {
      FirstTarget(i, total, n);
    }
  }

  lemma FirstTarget(i: nat, total: nat, n: nat)
    requires i == 0 < n
    ensures i * total / n == 0
  {
  }

  /** The sum passes its target by less than one leaf. */
  lemma StopsSoon(counts: seq<nat>, p: nat, target: nat, largest: nat)
    requires IsFirstReaching(counts, p, target) && NoneExceeds(counts, largest)
    ensures target <= SumBetween(counts, 0, p) <= target + largest
  {
  }

  method FindBins(counts: seq<nat>, countScan: seq<nat>, targets: seq<nat>) returns (bins: seq<nat>)
    requires IsScanOf(countScan, counts, |counts|) && AreTargets(targets, SumBetween(counts, 0, |counts|))
    ensures |bins| == |targets| + 1 && AreBins(bins, |counts|)
    ensures forall i: nat :: 0 < i < |targets| ==> IsFirstReaching(counts, bins[i], targets[i])
  {
    var numBins := |targets|;
    bins := [0];
    for i := 1 to numBins
      invariant |bins| == i && bins[0] == 0
      invariant forall k: nat :: 0 < k < i ==> bins[k] == LowerBound(countScan, targets[k])
    {
      bins := bins + [LowerBound(countScan, targets[i])];
    }
    bins := bins + [|counts|];
    forall i: nat | 0 < i < numBins ensures IsFirstReaching(counts, bins[i], targets[i]) {
      BinReaches(counts, countScan, targets[i]);
    }
    forall i: nat, j: nat | i <= j < |bins| ensures bins[i] <= bins[j] <= |counts| {
      if 0 < i && j < numBins { BinsAscend(countScan, targets[i], targets[j]); }
      if 0 < j < numBins { assert IsFirstReaching(counts, bins[j], targets[j]); }
      if 0 < i < numBins { assert IsFirstReaching(counts, bins[i], targets[i]); }
    }
  }

  /** `uniformBins`; the program takes `AreMeanTargets`. */
  method UniformBins(counts: seq<nat>, targets: seq<nat>) returns (bins: seq<nat>, binCounts: seq<nat>)
    requires AreTargets(targets, SumBetween(counts, 0, |counts|))
    ensures |bins| == |targets| + 1 && AreBins(bins, |counts|) && |binCounts| == |targets|
    ensures forall i: nat :: 0 < i < |targets| ==> IsFirstReaching(counts, bins[i], targets[i])
    ensures forall q: nat :: q < |targets| ==> binCounts[q] == SumBetween(counts, bins[q], bins[q + 1])
    ensures forall largest: nat {:trigger NoneExceeds(counts, largest)} ::
      AreMeanTargets(targets, SumBetween(counts, 0, |counts|)) && NoneExceeds(counts, largest) ==>
        AreNearMean(binCounts, SumBetween(counts, 0, |counts|), largest)
  {
    var countScan := InclusiveScan(counts);
    bins := FindBins(counts, countScan, targets);
    binCounts := [];
    for i := 0 to |targets|
      invariant |binCounts| == i
      invariant forall q: nat :: q < i ==> binCounts[q] == SumBetween(counts, bins[q], bins[q + 1])
    {
      assert bins[i] <= bins[i + 1] <= bins[|targets|];
      CountOfBin(counts, countScan, bins[i], bins[i + 1]);
      binCounts := binCounts + [countScan[bins[i + 1]] - countScan[bins[i]]];
    }
    forall largest: nat {:trigger NoneExceeds(counts, largest)}
      | AreMeanTargets(targets, SumBetween(counts, 0, |counts|)) && NoneExceeds(counts, largest)
      ensures AreNearMean(binCounts, SumBetween(counts, 0, |counts|), largest)
    {
      BinsAreNearMean(counts, targets, bins, binCounts, largest);
    }
  }

  ghost predicate IsFirstReaching(counts: seq<nat>, p: nat, target: nat) {
    p <= |counts| && SumBetween(counts, 0, p) >= target && (p > 0 ==> SumBetween(counts, 0, p - 1) < target)
  }

  lemma BinReaches(counts: seq<nat>, countScan: seq<nat>, target: nat)
    requires IsScanOf(countScan, counts, |counts|) && target <= SumBetween(counts, 0, |counts|)
    ensures IsFirstReaching(counts, LowerBound(countScan, target), target)
  {
    var p := LowerBound(countScan, target);
    assert IsPrefixSum(countScan, counts, |counts|);
    assert p <= |counts|;
    assert IsPrefixSum(countScan, counts, p);
    if p > 0 { assert IsPrefixSum(countScan, counts, p - 1); }
  }

  lemma CountOfBin(counts: seq<nat>, countScan: seq<nat>, i: nat, j: nat)
    requires IsScanOf(countScan, counts, |counts|) && i <= j <= |counts|
    ensures countScan[j] == countScan[i] + SumBetween(counts, i, j)
  {
    assert IsPrefixSum(countScan, counts, i) && IsPrefixSum(countScan, counts, j);
    SumsJoin(counts, 0, i, j);
  }

  lemma BinsAscend(countScan: seq<nat>, a: nat, b: nat)
    requires a <= b
    ensures LowerBound(countScan, a) <= LowerBound(countScan, b)
  {
  }

  /** `makeSfcAssignment`: boundaries are leaf keys, and if all counts are exact, the counts are the numbers
      of particles in the ranges. */
  method MakeSfcAssignment(tree: seq<nat>, counts: seq<nat>, targets: seq<nat>, L: nat, ghost all: seq<nat>)
    returns (bounds: seq<nat>, binCounts: seq<nat>, treeOffsets: seq<nat>, numNodesPerRank: seq<nat>)
    requires Cornerstone(tree, L) && AreCounts(tree, counts, all, UNSIGNED_MAX) && |all| <= UNSIGNED_MAX
    requires AreTargets(targets, SumBetween(counts, 0, |counts|))
    ensures |bounds| == |targets| + 1 == |treeOffsets| && AreBounds(bounds) && bounds[0] == 0
    ensures bounds[|targets|] == Pow8(L)
    ensures AreBins(treeOffsets, |tree| - 1) && forall q: nat :: q < |bounds| ==> bounds[q] == tree[treeOffsets[q]]
    ensures |binCounts| == |numNodesPerRank| == |targets|
    ensures forall q: nat :: q < |targets| ==> binCounts[q] == CountIn(all, bounds[q], bounds[q + 1])
    ensures forall q: nat :: q < |targets| ==> numNodesPerRank[q] == treeOffsets[q + 1] - treeOffsets[q]
    ensures forall largest: nat {:trigger NoneExceeds(counts, largest)} ::
      AreMeanTargets(targets, SumBetween(counts, 0, |counts|)) && NoneExceeds(counts, largest) ==>
        AreNearMean(binCounts, SumBetween(counts, 0, |counts|), largest)
  {
    treeOffsets, binCounts := UniformBins(counts, targets);
    bounds, numNodesPerRank := [], [];
    for rank := 0 to |treeOffsets|
      invariant |bounds| == rank
      invariant forall q: nat :: q < rank ==> bounds[q] == tree[treeOffsets[q]]
    {
      assert treeOffsets[rank] <= treeOffsets[|treeOffsets| - 1];
      bounds := bounds + [tree[treeOffsets[rank]]];
    }
    for i := 0 to |targets|
      invariant |numNodesPerRank| == i
      invariant forall q: nat :: q < i ==> numNodesPerRank[q] == treeOffsets[q + 1] - treeOffsets[q]
    {
      assert treeOffsets[i] <= treeOffsets[i + 1];
      numNodesPerRank := numNodesPerRank + [treeOffsets[i + 1] - treeOffsets[i]];
    }
    forall i: nat, j: nat | i <= j < |bounds| ensures bounds[i] <= bounds[j] {
      assert treeOffsets[i] <= treeOffsets[j];
    }
    forall q: nat | q < |targets| ensures binCounts[q] == CountIn(all, bounds[q], bounds[q + 1]) {
      assert treeOffsets[q] <= treeOffsets[q + 1] <= treeOffsets[|targets|];
      UncutSums(tree, counts, all, treeOffsets[q], treeOffsets[q + 1]);
    }
  }
}
