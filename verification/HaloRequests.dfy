/** Requests for halo cells: which particles of an owner a rank needs, and where they go. */
module HaloRequests {
  import opened Scan

  // ------------------------------------------------------------- layout

  /** `computeNodeLayout`: offsets of the particles of all leaves; leaves that are neither own nor halo have none. */
  method ComputeNodeLayout(leafCounts: seq<nat>, flags: seq<bool>, leafToInternal: seq<nat>, first: nat, last: nat)
    returns (layout: array<nat>)
    requires |leafToInternal| >= |leafCounts| && forall i: nat :: i < |leafCounts| ==> leafToInternal[i] < |flags|
    ensures fresh(layout) && layout.Length == |leafCounts| + 1 && layout[0] == 0
    ensures forall i: nat :: i < |leafCounts| ==>
      layout[i + 1] == layout[i] + if first <= i < last || flags[leafToInternal[i]] then leafCounts[i] else 0
  {
    layout := new nat[|leafCounts| + 1](_ => 0);
    for i := 0 to |leafCounts|
      invariant forall k: nat :: k < i ==>
        layout[k] == if first <= k < last || flags[leafToInternal[k]] then leafCounts[k] else 0
    {
      var haveParticles := first <= i < last || flags[leafToInternal[i]];
      layout[i] := if haveParticles then leafCounts[i] else 0;
    }
    ExclusiveScan(layout, layout.Length);
  }

  predicate IsLayout(layout: seq<nat>) {
    forall i: nat, j: nat :: i <= j < |layout| ==> layout[i] <= layout[j]
  }

  // ------------------------------------------------------------- runs of halo cells

  predicate IsMarkedAt(flags: seq<nat>, i: nat)
    requires i + 1 < |flags|
  {
    flags[i + 1] > flags[i]
  }

  ghost predicate AllMarked(flags: seq<nat>, from: nat, to: nat) {
    to < |flags| && forall i: nat :: from <= i < to ==> IsMarkedAt(flags, i)
  }

  ghost predicate NoneMarked(flags: seq<nat>, from: nat, to: nat) {
    to < |flags| && forall i: nat :: from <= i < to ==> !IsMarkedAt(flags, i)
  }

  /** The first n pairs of cuts delimit the runs of marked indices between first and i. */
  ghost predicate AreRuns(cuts: seq<(nat, nat)>, n: nat, flags: seq<nat>, first: nat, i: nat)
    requires n <= |cuts|
  {
    if n == 0 then first <= i && NoneMarked(flags, first, i)
    else
      var (a, b) := cuts[n - 1];
      && first <= a < b <= i && AllMarked(flags, a, b) && NoneMarked(flags, b, i)
      && AreRuns(cuts, n - 1, flags, first, a)
  }

  lemma {:induction false} RunsOfPrefix(cuts: seq<(nat, nat)>, cuts': seq<(nat, nat)>, n: nat, flags: seq<nat>,
                                        first: nat, i: nat)
    requires n <= |cuts| && n <= |cuts'| && forall k: nat :: k < n ==> cuts[k] == cuts'[k]
    requires AreRuns(cuts, n, flags, first, i)
    ensures AreRuns(cuts', n, flags, first, i)
  {
    if n > 0 { RunsOfPrefix(cuts, cuts', n - 1, flags, first, cuts[n - 1].0); }
  }

  /** Keys at both ends of every run. */
  ghost predicate AreKeysAt(keys: seq<nat>, source: seq<nat>, cuts: seq<(nat, nat)>) {
    |keys| == 2 * |cuts| && forall k: nat :: k < |cuts| ==> IsKeyPairAt(keys, source, cuts, k)
  }

  ghost predicate IsKeyPairAt(keys: seq<nat>, source: seq<nat>, cuts: seq<(nat, nat)>, k: nat) {
    && k < |cuts| && 2 * k + 1 < |keys| && cuts[k].0 < |source| && cuts[k].1 < |source|
    && keys[2 * k] == source[cuts[k].0] && keys[2 * k + 1] == source[cuts[k].1]
  }

  /** Keys that delimit runs which together contain exactly the marked indices between first and last. */
  ghost predicate AreKeysOfRuns(keys: seq<nat>, source: seq<nat>, flags: seq<nat>, first: nat, last: nat) {
    exists cuts: seq<(nat, nat)> :: AreRuns(cuts, |cuts|, flags, first, last) && AreKeysAt(keys, source, cuts)
  }

  /** `extractMarkedElements`: keys that delimit the runs of marked elements. */
  method ExtractMarkedElements(source: seq<nat>, flags: seq<nat>, firstReqIdx: nat, secondReqIdx: nat)
    returns (requestKeys: seq<nat>)
    requires firstReqIdx <= secondReqIdx < |flags| == |source| && IsLayout(flags)
    ensures AreKeysOfRuns(requestKeys, source, flags, firstReqIdx, secondReqIdx)
  {
    requestKeys := [];
    ghost var cuts: seq<(nat, nat)> := [];
    var idx := firstReqIdx;
    while idx != secondReqIdx
      invariant firstReqIdx <= idx <= secondReqIdx
      invariant AreRuns(cuts, |cuts|, flags, firstReqIdx, idx) && AreKeysAt(requestKeys, source, cuts)
      decreases secondReqIdx - idx
    {
      ghost var start := idx;
      while idx < secondReqIdx && flags[idx + 1] == flags[idx]
        invariant start <= idx <= secondReqIdx && NoneMarked(flags, start, idx)
      {
        idx := idx + 1;
      }
      if idx != secondReqIdx {
        assert flags[idx] <= flags[idx + 1];
        ghost var a, before := idx, requestKeys;
        requestKeys := requestKeys + [source[idx]];
        while idx < secondReqIdx && flags[idx + 1] > flags[idx]
          invariant a <= idx <= secondReqIdx && AllMarked(flags, a, idx)
        {
          idx := idx + 1;
        }
        requestKeys := requestKeys + [source[idx]];
        OneMoreRun(cuts, flags, firstReqIdx, start, a, idx);
        assert requestKeys[..|requestKeys| - 2] == before;
        OneMorePair(requestKeys, source, cuts, a, idx);
        cuts := cuts + [(a, idx)];
      }
    }
  }

  lemma OneMoreRun(cuts: seq<(nat, nat)>, flags: seq<nat>, first: nat, start: nat, a: nat, b: nat)
    requires AreRuns(cuts, |cuts|, flags, first, start) && start <= a < b
    requires NoneMarked(flags, start, a) && AllMarked(flags, a, b)
    ensures AreRuns(cuts + [(a, b)], |cuts| + 1, flags, first, b)
  {
    RunsOfPrefix(cuts, cuts + [(a, b)], |cuts|, flags, first, start);
  }

  lemma OneMorePair(keys: seq<nat>, source: seq<nat>, cuts: seq<(nat, nat)>, a: nat, b: nat)
    requires |keys| >= 2 && AreKeysAt(keys[..|keys| - 2], source, cuts) && a < |source| && b < |source|
    requires keys[|keys| - 2] == source[a] && keys[|keys| - 1] == source[b]
    ensures AreKeysAt(keys, source, cuts + [(a, b)])
  {
    forall k: nat | k < |cuts| + 1 ensures IsKeyPairAt(keys, source, cuts + [(a, b)], k) {
      if k < |cuts| { assert IsKeyPairAt(keys[..|keys| - 2], source, cuts, k); }
    }
  }

  // ------------------------------------------------------------- index ranges

  function Interval(lo: nat, hi: nat): (s: seq<nat>)
    ensures |s| == if lo <= hi then hi - lo else 0
    ensures forall k: nat :: k < |s| ==> s[k] == lo + k
  {
    if lo <= hi then seq(hi - lo, (k: nat) => lo + k) else []
  }

  /** Indices of the first n ranges. */
  ghost function IndicesOf(offsets: seq<nat>, scan: seq<nat>, n: nat): (indices: seq<nat>)
    requires n <= |offsets| && |scan| == |offsets| + 1
  {
    if n == 0 then [] else
      IndicesOf(offsets, scan, n - 1) +
      Interval(offsets[n - 1], if scan[n] >= scan[n - 1] then offsets[n - 1] + (scan[n] - scan[n - 1]) else 0)
  }

  lemma {:induction false} IndicesOfPrefix(offsets: seq<nat>, scan: seq<nat>, offsets': seq<nat>, scan': seq<nat>,
                                           n: nat)
    requires n <= |offsets| && |scan| == |offsets| + 1 && n <= |offsets'| && |scan'| == |offsets'| + 1
    requires (forall k: nat :: k < n ==> offsets[k] == offsets'[k]) && forall k: nat :: k <= n ==> scan[k] == scan'[k]
    ensures IndicesOf(offsets, scan, n) == IndicesOf(offsets', scan', n)
  {
    if n > 0 { IndicesOfPrefix(offsets, scan, offsets', scan', n - 1); }
  }

  class IndexRanges {
    var totalCount: nat
    var offsets: seq<nat>
    var scan: seq<nat>

    ghost predicate Valid()
      reads this
    {
      && |scan| == |offsets| + 1 && scan[|offsets|] == totalCount == |Indices()| && scan[0] == 0
      && (forall k: nat :: k < |offsets| ==> scan[k] < scan[k + 1])
    }

    /** All indices of all ranges, one after the other. */
    ghost function Indices(): (indices: seq<nat>)
      requires |scan| == |offsets| + 1
      reads this
    {
      IndicesOf(offsets, scan, |offsets|)
    }

    constructor ()
      ensures Valid() && Indices() == []
    {
      totalCount, offsets, scan := 0, [], [0];
    }

    method AddRange(lower: nat, upper: nat)
      requires Valid() && lower <= upper
      modifies this
      ensures Valid() && Indices() == old(Indices()) + Interval(lower, upper)
    {
      if lower == upper { return; }
      ghost var o, s := offsets, scan;
      totalCount := totalCount + (upper - lower);
      offsets := offsets + [lower];
      scan := scan + [totalCount];
      IndicesOfPrefix(o, s, offsets, scan, |o|);
    }

    function RangeStart(i: nat): (start: nat)
      requires i < |offsets|
      reads this
    {
      offsets[i]
    }

    function Count(i: nat): (count: nat)
      requires Valid() && i < |offsets|
      reads this
    {
      scan[i + 1] - scan[i]
    }
  }
}
