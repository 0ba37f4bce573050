/** Particle counts of octree leaves, with and without guesses of where the leaves start. */
module Counts {
  import opened Keys
  import opened CornerstoneArray

  const UNSIGNED_LIMIT: nat := 0x1_0000_0000

  predicate Sorted(codes: seq<nat>) {
    forall i, j :: 0 <= i < j < |codes| ==> codes[i] <= codes[j]
  }

  /** `std::lower_bound`: position of the first code that is not below the key. */
  function LowerBound(codes: seq<nat>, key: nat): (p: nat)
    ensures p <= |codes|
    ensures forall i: nat :: i < p ==> codes[i] < key
    ensures p < |codes| ==> codes[p] >= key
  {
    LowerBoundFrom(codes, key, 0)
  }

  function LowerBoundFrom(codes: seq<nat>, key: nat, start: nat): (p: nat)
    requires start <= |codes|
    ensures start <= p <= |codes|
    ensures forall i: nat :: start <= i < p ==> codes[i] < key
    ensures p < |codes| ==> codes[p] >= key
    decreases |codes| - start
  {
    if start == |codes| || codes[start] >= key then start else LowerBoundFrom(codes, key, start + 1)
  }

  /** `std::upper_bound`: position of the first code above the key. */
  function UpperBound(codes: seq<nat>, key: nat): (p: nat)
    ensures p <= |codes|
  {
    LowerBound(codes, key + 1)
  }

  /** `findNodeBelow`: last of the first n nodes that starts at or below the key. */
  function FindNodeBelow(tree: seq<nat>, n: nat, key: nat): (i: int)
    requires n <= |tree|
  {
    UpperBound(tree[..n], key) - 1
  }

  /** `findNodeAbove`: first of the first n nodes that starts at or above the key. */
  function FindNodeAbove(tree: seq<nat>, n: nat, key: nat): (i: nat)
    requires n <= |tree|
    ensures i <= n
  {
    LowerBound(tree[..n], key)
  }

  /** The number of particles with key in [lo, hi). */
  ghost function CountIn(codes: seq<nat>, lo: nat, hi: nat): (n: nat)
    ensures n <= |codes|
  {
    if codes == [] then 0 else (if lo <= codes[0] < hi then 1 else 0) + CountIn(codes[1..], lo, hi)
  }

  function Min(a: nat, b: nat): (m: nat) {
    if a <= b then a else b
  }

  lemma LowerBoundIs(codes: seq<nat>, key: nat, p: nat)
    requires Sorted(codes) && p <= |codes|
    requires forall i: nat :: i < p ==> codes[i] < key
    requires p < |codes| ==> codes[p] >= key
    ensures LowerBound(codes, key) == p
  {
  }

  lemma LowerBoundOfTail(codes: seq<nat>, key: nat)
    requires Sorted(codes) && codes != []
    ensures LowerBound(codes, key) == if codes[0] >= key then 0 else 1 + LowerBound(codes[1..], key)
  {
    var q := LowerBound(codes[1..], key);
    assert forall i: nat :: i < |codes[1..]| ==> codes[1..][i] == codes[i + 1];
    if codes[0] < key {
      forall i: nat | i < q + 1 ensures codes[i] < key {
        if i > 0 { assert codes[i] == codes[1..][i - 1]; }
      }
      LowerBoundIs(codes, key, q + 1);
    }
  }

  /** Between two keys there are as many particles as between their lower bounds. */
  lemma {:induction false} CountIsDistance(codes: seq<nat>, lo: nat, hi: nat)
    requires Sorted(codes) && lo <= hi
    ensures LowerBound(codes, lo) <= LowerBound(codes, hi)
    ensures CountIn(codes, lo, hi) == LowerBound(codes, hi) - LowerBound(codes, lo)
  {
    if codes != [] {
      CountIsDistance(codes[1..], lo, hi);
      LowerBoundOfTail(codes, lo);
      LowerBoundOfTail(codes, hi);
      if codes[0] >= lo {
        LowerBoundIs(codes[1..], lo, 0);
      }
      if codes[0] >= hi {
        LowerBoundIs(codes[1..], hi, 0);
      }
    }
  }

  lemma {:induction false} CountSplits(codes: seq<nat>, lo: nat, mid: nat, hi: nat)
    requires lo <= mid <= hi
    ensures CountIn(codes, lo, hi) == CountIn(codes, lo, mid) + CountIn(codes, mid, hi)
  {
    if codes != [] { CountSplits(codes[1..], lo, mid, hi); }
  }

  /** A sub-range that brackets the lower bound yields the same lower bound. */
  lemma LowerBoundInRange(codes: seq<nat>, key: nat, lo: nat, hi: nat)
    requires Sorted(codes) && lo <= LowerBound(codes, key) <= hi <= |codes|
    ensures lo + LowerBound(codes[lo..hi], key) == LowerBound(codes, key)
  {
    var p := LowerBound(codes, key);
    var sub := codes[lo..hi];
    assert forall i: nat :: i < p - lo ==> sub[i] == codes[lo + i];
    assert p - lo < |sub| ==> sub[p - lo] == codes[p];
    LowerBoundIs(sub, key, p - lo);
  }

  /** Exponential search from any guess: the returned range brackets the lower bound of the target. */
  method FindSearchBounds(guess: int, targetCode: nat, codes: seq<nat>, L: nat) returns (lo: nat, hi: nat)
    requires Sorted(codes)
    ensures lo <= hi <= |codes|
    ensures lo + LowerBound(codes[lo..hi], targetCode) == LowerBound(codes, targetCode)
  {
    ghost var p := LowerBound(codes, targetCode);
    var nCodes := |codes|;
    if nCodes == 0 {
      return 0, 0;
    }
    var firstIdx := if guess > 0 then guess else 0;
    firstIdx := if nCodes - 1 < firstIdx then nCodes - 1 else firstIdx;
    if targetCode >= Pow8(L) {
      LowerBoundInRange(codes, targetCode, p, nCodes);
      return LowerBound(codes, targetCode), nCodes;
    }
    var d := if codes[firstIdx] < targetCode then 1 else -1;
    var targetCodeTimesD := targetCode * d;
    var searchRange := 1;
    var secondIndex := firstIdx + d;
    while 0 <= secondIndex < nCodes && d * codes[secondIndex] <= targetCodeTimesD
      invariant searchRange >= 1 && secondIndex == firstIdx + searchRange * d
      decreases nCodes - searchRange
    {
      searchRange := searchRange * 2;
      secondIndex := firstIdx + searchRange * d;
    }
    if 0 <= secondIndex < nCodes {
      assert if d == 1 then codes[secondIndex] > targetCode else codes[secondIndex] < targetCode;
    }
    secondIndex := if 0 < secondIndex then secondIndex else 0;
    secondIndex := if nCodes < secondIndex then nCodes else secondIndex;
    lo := if firstIdx < secondIndex then firstIdx else secondIndex;
    hi := if firstIdx < secondIndex then secondIndex else firstIdx;
    LowerBoundInRange(codes, targetCode, lo, hi);
  }

  /** Count by binary search over all codes, `calculateNodeCount`. */
  function CalculateNodeCount(nodeStart: nat, nodeEnd: nat, codes: seq<nat>, maxCount: nat): (c: nat)
    requires Sorted(codes) && nodeStart <= nodeEnd
    ensures c == Min(CountIn(codes, nodeStart, nodeEnd), maxCount)
  {
    CountIsDistance(codes, nodeStart, nodeEnd);
    Min(LowerBound(codes, nodeEnd) - LowerBound(codes, nodeStart), maxCount)
  }

  /** Count by searches that start from guesses. The count is converted to a 32-bit number. */
  method UpdateNodeCount(nodeStart: nat, nodeEnd: nat, firstGuess: int, secondGuess: int, codes: seq<nat>,
                         maxCount: nat, L: nat)
    returns (c: nat)
    requires Sorted(codes) && nodeStart <= nodeEnd && |codes| < UNSIGNED_LIMIT
    ensures c == Min(CountIn(codes, nodeStart, nodeEnd), maxCount)
  {
    var lo, hi := FindSearchBounds(firstGuess, nodeStart, codes, L);
    var rangeStart := lo + LowerBound(codes[lo..hi], nodeStart);
    lo, hi := FindSearchBounds(secondGuess, nodeEnd, codes, L);
    var rangeEnd := lo + LowerBound(codes[lo..hi], nodeEnd);
    CountIsDistance(codes, nodeStart, nodeEnd);
    var count := (rangeEnd - rangeStart) % UNSIGNED_LIMIT;
    c := Min(count, maxCount);
  }

  /** Every index below n occurs, and none occurs twice: some order of the iterations of a loop. */
  ghost predicate IsOrderOf(order: seq<nat>, n: nat) {
    && (forall k: nat :: k < |order| ==> order[k] < n)
    && (forall j: nat, k: nat :: j < k < |order| ==> order[j] != order[k])
    && (forall i: nat :: i < n ==> i in order)
  }

  lemma {:induction false} NoParticles(codes: seq<nat>, lo: nat, hi: nat)
    requires forall k: nat :: k < |codes| ==> codes[k] < lo || hi <= codes[k]
    ensures CountIn(codes, lo, hi) == 0
  {
    if codes != [] {
      assert forall k: nat :: k < |codes[1..]| ==> codes[1..][k] == codes[k + 1];
      NoParticles(codes[1..], lo, hi);
    }
  }

  /** The particle counts of a leaf array, capped at maxCount. */
  ghost predicate AreCounts(tree: seq<nat>, counts: seq<nat>, keys: seq<nat>, maxCount: nat) {
    && |counts| == |tree| - 1
    && forall i: nat :: i < |counts| ==> counts[i] == Min(CountIn(keys, tree[i], tree[i + 1]), maxCount)
  }

  method SetZero(counts: array<nat>, from: nat, to: nat)
    requires to <= counts.Length
    modifies counts
    ensures forall k: nat :: from <= k < to ==> counts[k] == 0
    ensures forall k: nat :: k < counts.Length && !(from <= k < to) ==> counts[k] == old(counts[k])
  {
    var i := from;
    while i < to
      invariant from <= i && (i <= to || i == from)
      invariant forall k: nat :: from <= k < i ==> counts[k] == 0
      invariant forall k: nat :: k < counts.Length && !(from <= k < i) ==> counts[k] == old(counts[k])
    {
      counts[i] := 0;
      i := i + 1;
    }
  }

  /** Scan the old counts in place, to serve as guesses. Their values are of no consequence. */
  method ScanGuesses(counts: array<nat>, from: nat, to: nat)
    requires from <= to <= counts.Length
    modifies counts
    ensures forall k: nat :: k < counts.Length && !(from <= k < to) ==> counts[k] == old(counts[k])
  {
    var sum: nat := 0;
    var i := from;
    while i < to
      invariant from <= i <= to
      invariant forall k: nat :: k < counts.Length && !(from <= k < to) ==> counts[k] == old(counts[k])
    {
      var x := counts[i];
      counts[i] := sum;
      sum := (sum + x) % UNSIGNED_LIMIT;
      i := i + 1;
    }
  }

  /** Count the particles of every leaf in place. With `useCountsAsGuess`, the previous content of
      `counts` is scanned and then read as guesses while it is being overwritten. The iterations of
      the counting loop run in any order. */
  method ComputeNodeCounts(tree: seq<nat>, counts: array<nat>, keys: seq<nat>, maxCount: nat,
                           useCountsAsGuess: bool, L: nat, order: seq<nat>)
    requires Cornerstone(tree, L) && counts.Length == |tree| - 1
    requires Sorted(keys) && |keys| < UNSIGNED_LIMIT
    requires IsOrderOf(order, |tree| - 1)
    modifies counts
    ensures AreCounts(tree, counts[..], keys, maxCount)
  {
    var nNodes := |tree| - 1;
    var firstNode, lastNode := nNodes, nNodes;
    if keys != [] {
      assert tree[..nNodes][0] == 0;
      firstNode := UpperBound(tree[..nNodes], keys[0]) - 1;
      lastNode := UpperBound(tree[..nNodes], keys[|keys| - 1]);
      UpperBoundMonotone(tree[..nNodes], keys[0], keys[|keys| - 1]);
    }
    EmptyNodes(tree, keys, L);
    SetZero(counts, 0, firstNode);
    SetZero(counts, lastNode, nNodes);
    if useCountsAsGuess {
      ScanGuesses(counts, firstNode, lastNode);
    }
    CountNodes(tree, counts, keys, maxCount, useCountsAsGuess, L, order, firstNode, lastNode);
  }

  /** The counting loop, over the nodes from firstNode to lastNode. */
  method CountNodes(tree: seq<nat>, counts: array<nat>, keys: seq<nat>, maxCount: nat,
                    useCountsAsGuess: bool, L: nat, order: seq<nat>, firstNode: nat, lastNode: nat)
    requires Ascending(tree) && counts.Length == |tree| - 1 && firstNode <= lastNode <= counts.Length
    requires Sorted(keys) && |keys| < UNSIGNED_LIMIT
    requires IsOrderOf(order, |tree| - 1)
    modifies counts
    ensures forall k: nat :: firstNode <= k < lastNode ==>
              counts[k] == Min(CountIn(keys, tree[k], tree[k + 1]), maxCount)
    ensures forall k: nat :: k < counts.Length && !(firstNode <= k < lastNode) ==> counts[k] == old(counts[k])
  {
    var nNodes := |tree| - 1;
    var step := 0;
    while step < |order|
      invariant step <= |order|
      invariant forall k: nat :: k < counts.Length && !(firstNode <= k < lastNode) ==>
                  counts[k] == old(counts[k])
      invariant forall j: nat :: j < step && firstNode <= order[j] < lastNode ==>
                  counts[order[j]] == Min(CountIn(keys, tree[order[j]], tree[order[j] + 1]), maxCount)
    {
      var i := order[step];
      if firstNode <= i < lastNode {
        if useCountsAsGuess {
          var firstGuess, secondGuess := counts[i], counts[if i + 1 < nNodes - 1 then i + 1 else nNodes - 1];
          counts[i] := UpdateNodeCount(tree[i], tree[i + 1], firstGuess, secondGuess, keys, maxCount, L);
        } else {
          counts[i] := CalculateNodeCount(tree[i], tree[i + 1], keys, maxCount);
        }
      }
      step := step + 1;
    }
    forall k: nat | firstNode <= k < lastNode
      ensures counts[k] == Min(CountIn(keys, tree[k], tree[k + 1]), maxCount)
    {
      assert k in order;
      var j: nat :| j < |order| && order[j] == k;
    }
  }

  lemma UpperBoundMonotone(codes: seq<nat>, a: nat, b: nat)
    requires Sorted(codes) && a <= b
    ensures UpperBound(codes, a) <= UpperBound(codes, b)
  {
    CountIsDistance(codes, a + 1, b + 1);
  }

  /** Outside the nodes that contain the first and the last particle there are no particles. */
  lemma EmptyNodes(tree: seq<nat>, keys: seq<nat>, L: nat)
    requires Cornerstone(tree, L) && Sorted(keys)
    ensures var n := |tree| - 1;
            var first := if keys == [] then n else UpperBound(tree[..n], keys[0]) - 1;
            var last := if keys == [] then n else UpperBound(tree[..n], keys[|keys| - 1]);
            forall k: nat :: k < n && (k < first || last <= k) ==> CountIn(keys, tree[k], tree[k + 1]) == 0
  {
    var n := |tree| - 1;
    if keys == [] { return; }
    var first := UpperBound(tree[..n], keys[0]) - 1;
    var last := UpperBound(tree[..n], keys[|keys| - 1]);
    forall k: nat | k < n && (k < first || last <= k)
      ensures CountIn(keys, tree[k], tree[k + 1]) == 0
    {
      if k < first {
        assert tree[..n][first] <= keys[0];
        assert tree[k + 1] <= tree[first];
      } else {
        assert tree[..n][last] == tree[last] <= tree[k];
        assert tree[..n][last] > keys[|keys| - 1];
      }
      NoParticles(keys, tree[k], tree[k + 1]);
    }
  }
}
