/** Particle counts over all ranks: local counts, the global tree, and the counts of peers. */
module ExactCounts {
  import opened Keys
  import opened CornerstoneArray
  import opened Counts
  import opened Upsweep
  import opened Ranges
  import opened Treelets
  import opened TreeletAgreement
  import LeafUpdate

  // ------------------------------------------------------------- particles of all ranks

  /** The particle keys of all ranks together. */
  ghost function AllKeys(keys: seq<seq<nat>>): (all: seq<nat>) {
    if keys == [] then [] else AllKeys(keys[..|keys| - 1]) + keys[|keys| - 1]
  }

  ghost predicate AreInRange(keys: seq<nat>, lo: nat, hi: nat) {
    forall i: nat :: i < |keys| ==> lo <= keys[i] < hi
  }

  /** Every rank holds the particles with keys in its range, and no others. */
  ghost predicate AreAssigned(keys: seq<seq<nat>>, bounds: seq<nat>) {
    && |bounds| == |keys| + 1
    && (forall i: nat, j: nat :: i <= j < |bounds| ==> bounds[i] <= bounds[j])
    && forall q: nat :: q < |keys| ==> AreInRange(keys[q], bounds[q], bounds[q + 1])
  }

  lemma {:induction false} CountInBoth(a: seq<nat>, b: seq<nat>, lo: nat, hi: nat)
    ensures CountIn(a + b, lo, hi) == CountIn(a, lo, hi) + CountIn(b, lo, hi)
  {
    if a == [] {
      assert a + b == b;
    } else {
      assert (a + b)[1..] == a[1..] + b;
      CountInBoth(a[1..], b, lo, hi);
    }
  }

  /** In the range of a rank there are no particles of other ranks. */
  lemma {:induction false} OwnCount(keys: seq<seq<nat>>, bounds: seq<nat>, n: nat, o: nat, lo: nat, hi: nat)
    requires AreAssigned(keys, bounds) && n <= |keys| && o < |keys|
    requires bounds[o] <= lo <= hi <= bounds[o + 1]
    ensures CountIn(AllKeys(keys[..n]), lo, hi) == if o < n then CountIn(keys[o], lo, hi) else 0
  {
    if n > 0 {
      OwnCount(keys, bounds, n - 1, o, lo, hi);
      assert keys[..n][..n - 1] == keys[..n - 1];
      CountInBoth(AllKeys(keys[..n - 1]), keys[n - 1], lo, hi);
      if n - 1 != o { OtherRankIsElsewhere(keys, bounds, n - 1, o, lo, hi); }
    }
  }

  lemma OtherRankIsElsewhere(keys: seq<seq<nat>>, bounds: seq<nat>, q: nat, o: nat, lo: nat, hi: nat)
    requires AreAssigned(keys, bounds) && q < |keys| && o < |keys| && q != o
    requires bounds[o] <= lo <= hi <= bounds[o + 1]
    ensures CountIn(keys[q], lo, hi) == 0
  {
    assert AreInRange(keys[q], bounds[q], bounds[q + 1]);
    if q < o { assert bounds[q + 1] <= bounds[o]; } else { assert bounds[o + 1] <= bounds[q]; }
    NoParticles(keys[q], lo, hi);
  }

  lemma LocalCountIsTotal(keys: seq<seq<nat>>, bounds: seq<nat>, o: nat, lo: nat, hi: nat)
    requires AreAssigned(keys, bounds) && o < |keys| && bounds[o] <= lo <= hi <= bounds[o + 1]
    ensures CountIn(AllKeys(keys), lo, hi) == CountIn(keys[o], lo, hi)
  {
    OwnCount(keys, bounds, |keys|, o, lo, hi);
    assert keys[..|keys|] == keys;
  }

  // ------------------------------------------------------------- which ranks are peers

  /** `std::includes` for ascending keys. */
  predicate Includes(glob: seq<nat>, foc: seq<nat>) {
    forall key: nat :: key in foc ==> key in glob
  }

  /** A rank is a peer if the focus tree resolves its range beyond the global tree. */
  predicate IsFocusPeer(glob: seq<nat>, foc: seq<nat>) {
    |foc| > |glob| || !Includes(glob, foc)
  }

  function Slice(a: seq<nat>, r: Range): (s: seq<nat>) {
    if r.start <= r.end <= |a| then a[r.start..r.end] else []
  }

  predicate FitsIn(a: seq<nat>, r: Range) {
    r.start <= r.end <= |a|
  }

  /** Some key of the focus tree is not a key of the global tree. */
  ghost predicate HasOtherKey(glob: seq<nat>, foc: seq<nat>) {
    exists key: nat :: key in foc && key !in glob
  }

  /** Comparing lengths first makes no difference: peers are the ranks in whose range there is a key to exchange. */
  lemma PeerIffOtherKey(glob: seq<nat>, foc: seq<nat>)
    requires Ascending(glob) && Ascending(foc)
    ensures IsFocusPeer(glob, foc) <==> HasOtherKey(glob, foc)
  {
    if !HasOtherKey(glob, foc) {
      SubsequenceIsShorter(foc, glob);
      assert forall i: nat :: i < |foc| ==> foc[i] in foc;
    }
  }

  /** Rank q is to be flagged. */
  predicate IsPeerAt(globalRanges: seq<Range>, focusRanges: seq<Range>, myRank: nat, globalTree: seq<nat>,
                     focusTree: seq<nat>, q: nat)
    requires q < |globalRanges| == |focusRanges|
  {
    q != myRank && IsFocusPeer(Slice(globalTree, globalRanges[q]), Slice(focusTree, focusRanges[q]))
  }

  method FlagPeers(n: nat, isPeer: nat -> bool) returns (flags: seq<bool>)
    ensures |flags| == n && forall q: nat :: q < n ==> flags[q] == isPeer(q)
  {
    flags := [];
    for q := 0 to n
      invariant |flags| == q && forall p: nat :: p < q ==> flags[p] == isPeer(p)
    {
      flags := flags + [isPeer(q)];
    }
  }

  lemma PeerAtIff(globalRanges: seq<Range>, focusRanges: seq<Range>, myRank: nat, globalTree: seq<nat>,
                  focusTree: seq<nat>, q: nat)
    requires q < |globalRanges| == |focusRanges| && Ascending(globalTree) && Ascending(focusTree)
    ensures IsPeerAt(globalRanges, focusRanges, myRank, globalTree, focusTree, q) <==>
            q != myRank && HasOtherKey(Slice(globalTree, globalRanges[q]), Slice(focusTree, focusRanges[q]))
  {
    PeerIffOtherKey(Slice(globalTree, globalRanges[q]), Slice(focusTree, focusRanges[q]));
  }

  /** Flag the peers. The ranges of the global tree need not be those of the current assignment. */
  method FocusPeers(globalRanges: seq<Range>, focusRanges: seq<Range>, myRank: nat, globalTree: seq<nat>,
                    focusTree: seq<nat>)
    returns (flags: seq<bool>)
    requires |globalRanges| == |focusRanges|
    requires forall q: nat :: q < |globalRanges| ==> FitsIn(globalTree, globalRanges[q])
    requires forall q: nat :: q < |focusRanges| ==> FitsIn(focusTree, focusRanges[q])
    ensures |flags| == |focusRanges|
    ensures forall q: nat :: q < |flags| ==>
              (flags[q] <==> IsPeerAt(globalRanges, focusRanges, myRank, globalTree, focusTree, q))
    ensures Ascending(globalTree) && Ascending(focusTree) ==>
              forall q: nat :: q < |flags| ==>
                (flags[q] <==> q != myRank && HasOtherKey(Slice(globalTree, globalRanges[q]),
                                                         Slice(focusTree, focusRanges[q])))
  {
    var isPeer := (q: nat) =>
      q < |focusRanges| && IsPeerAt(globalRanges, focusRanges, myRank, globalTree, focusTree, q);
    flags := FlagPeers(|focusRanges|, isPeer);
    if Ascending(globalTree) && Ascending(focusTree) {
      forall q: nat | q < |flags|
        ensures flags[q] <==> q != myRank && HasOtherKey(Slice(globalTree, globalRanges[q]),
                                                         Slice(focusTree, focusRanges[q]))
      {
        PeerAtIff(globalRanges, focusRanges, myRank, globalTree, focusTree, q);
      }
    }
  }

  /** The assignment of a key range to leaves, as a range. */
  function RangeOf(leaves: seq<nat>, lo: nat, hi: nat): (r: Range)
    ensures r.start <= r.end
  {
    var (start, end) := LeafRange(leaves, lo, hi);
    Range(start, end)
  }

  /** A rank that is not a peer has all keys of the focus tree in its range from the global tree, even
      the last one, which is not compared. */
  lemma NonPeerKeysAreGlobal(leaves: seq<nat>, globalTree: seq<nat>, globalRange: Range, lo: nat, hi: nat, k: nat,
                             L: nat)
    requires Cornerstone(leaves, L) && Cornerstone(globalTree, L) && lo <= hi <= Pow8(L) && hi in globalTree
    requires k in leaves && InRange(k, lo, hi)
    requires !IsFocusPeer(Slice(globalTree, globalRange), Slice(leaves, RangeOf(leaves, lo, hi)))
    ensures k in globalTree
  {
    KeyMeets(leaves, k, lo, hi);
    TreeletIs(leaves, lo, hi, L);
    var t := Treelet(leaves, lo, hi);
    LastKeyInRange(t, leaves, globalTree, lo, hi, L);
    FrontOfTreelet(leaves, lo, hi);
    FrontAndLast(t, globalTree, Slice(globalTree, globalRange), k);
  }

  lemma FrontOfTreelet(leaves: seq<nat>, lo: nat, hi: nat)
    ensures Treelet(leaves, lo, hi) != [] ==>
              Slice(leaves, RangeOf(leaves, lo, hi)) == Treelet(leaves, lo, hi)[..|Treelet(leaves, lo, hi)| - 1]
  {
  }

  lemma FrontAndLast(t: seq<nat>, globalTree: seq<nat>, part: seq<nat>, k: nat)
    requires k in t && t[|t| - 1] in globalTree && Includes(part, t[..|t| - 1])
    requires forall x: nat :: x in part ==> x in globalTree
    ensures k in globalTree
  {
    var j: nat :| j < |t| && t[j] == k;
    if j < |t| - 1 { assert t[..|t| - 1][j] == k; }
  }

  /** The range of the global tree is the one of these bounds. */
  ghost predicate IsRangeOf(globalTree: seq<nat>, range: Range, lo: nat, hi: nat) {
    forall key: nat :: key in Slice(globalTree, range) <==> key in globalTree && lo <= key < hi
  }

  /** With the ranges of the present bounds, a rank is a peer exactly if the focus tree is finer in its range. */
  lemma PeerIffFiner(leaves: seq<nat>, globalTree: seq<nat>, globalRange: Range, lo: nat, hi: nat, L: nat)
    requires Cornerstone(leaves, L) && Cornerstone(globalTree, L) && lo <= hi <= Pow8(L) && hi in globalTree
    requires IsRangeOf(globalTree, globalRange, lo, hi)
    ensures IsFocusPeer(Slice(globalTree, globalRange), Slice(leaves, RangeOf(leaves, lo, hi))) <==>
            exists key: nat :: key in leaves && InRange(key, lo, hi) && key !in globalTree
  {
    var glob, foc := Slice(globalTree, globalRange), Slice(leaves, RangeOf(leaves, lo, hi));
    PeerIffOtherKey(glob, foc);
    if key: nat :| key in foc && key !in glob {
      var i: nat :| i < |foc| && foc[i] == key;
      SliceIsInRange(leaves, lo, hi, i);
      assert key in leaves && InRange(key, lo, hi) && key !in globalTree;
    }
    if key: nat :| key in leaves && InRange(key, lo, hi) && key !in globalTree {
      if !IsFocusPeer(glob, foc) { NonPeerKeysAreGlobal(leaves, globalTree, globalRange, lo, hi, key, L); }
    }
  }

  lemma SliceIsInRange(leaves: seq<nat>, lo: nat, hi: nat, i: nat)
    requires Ascending(leaves) && i < |Slice(leaves, RangeOf(leaves, lo, hi))|
    ensures var key := Slice(leaves, RangeOf(leaves, lo, hi))[i]; key in leaves && lo <= key < hi
  {
    assert leaves[..|leaves|] == leaves;
    var (start, end) := LeafRange(leaves, lo, hi);
    assert leaves[start + i] in leaves && leaves[start + i] < leaves[end] <= hi;
  }

  /** A peer has at least one leaf in its range. */
  lemma PeerHasLeaf(glob: seq<nat>, foc: seq<nat>)
    requires IsFocusPeer(glob, foc)
    ensures foc != []
  {
  }

  // ------------------------------------------------------------- counts from the global tree

  ghost function SumBetween(counts: seq<nat>, i: nat, j: nat): (sum: nat)
    requires i <= j <= |counts|
    decreases j
  {
    if i == j then 0 else SumBetween(counts, i, j - 1) + counts[j - 1]
  }

  /** Sums of exact counts are exact. */
  lemma {:induction false} SumsOfGlobalCounts(tree: seq<nat>, counts: seq<nat>, all: seq<nat>, i: nat, j: nat)
    requires AreCounts(tree, counts, all, UNSIGNED_MAX) && Ascending(tree) && i <= j <= |counts|
    ensures Min(UNSIGNED_MAX, SumBetween(counts, i, j)) == Min(UNSIGNED_MAX, CountIn(all, tree[i], tree[j]))
    decreases j
  {
    if i == j {
      CountSplits(all, tree[i], tree[i], tree[i]);
    } else {
      SumsOfGlobalCounts(tree, counts, all, i, j - 1);
      assert tree[i] <= tree[j - 1] <= tree[j];
      CountSplits(all, tree[i], tree[j - 1], tree[j]);
      assert counts[j - 1] == Min(CountIn(all, tree[j - 1], tree[j]), UNSIGNED_MAX);
    }
  }

  /** Without a cut-off, sums of exact counts are the numbers of particles. */
  lemma {:induction false} UncutSums(tree: seq<nat>, counts: seq<nat>, all: seq<nat>, i: nat, j: nat)
    requires AreCounts(tree, counts, all, UNSIGNED_MAX) && |all| <= UNSIGNED_MAX && Ascending(tree)
    requires i <= j <= |counts|
    ensures SumBetween(counts, i, j) == CountIn(all, tree[i], tree[j])
    decreases j
  {
    if i == j {
      CountSplits(all, tree[i], tree[i], tree[i]);
    } else {
      UncutSums(tree, counts, all, i, j - 1);
      assert tree[i] <= tree[j - 1] <= tree[j];
      CountSplits(all, tree[i], tree[j - 1], tree[j]);
      assert counts[j - 1] == Min(CountIn(all, tree[j - 1], tree[j]), UNSIGNED_MAX);
    }
  }

  method Accumulate(counts: seq<nat>, i: nat, j: nat) returns (sum: nat)
    requires i <= j <= |counts|
    ensures sum == SumBetween(counts, i, j)
  {
    sum := 0;
    for k := i to j
      invariant sum == SumBetween(counts, i, k)
    {
      sum := sum + counts[k];
    }
  }

  /** Count the particles between two keys of the global tree. */
  method CountBetween(leaves: seq<nat>, counts: seq<nat>, startKey: nat, endKey: nat, ghost all: seq<nat>)
    returns (count: nat)
    requires Ascending(leaves) && AreCounts(leaves, counts, all, UNSIGNED_MAX)
    requires startKey < endKey && startKey in leaves && endKey in leaves
    ensures count == Min(UNSIGNED_MAX, CountIn(all, startKey, endKey))
  {
    ExactBounds(leaves, startKey);
    ExactBounds(leaves, endKey);
    var startIdx, endIdx := FindNodeBelow(leaves, |leaves|, startKey), FindNodeAbove(leaves, |leaves|, endKey);
    LeafUpdate.UniqueIndex(leaves, startIdx, endIdx);
    var globCount := Accumulate(counts, startIdx, endIdx);
    SumsOfGlobalCounts(leaves, counts, all, startIdx, endIdx);
    count := Min(UNSIGNED_MAX, globCount);
  }

  /** The leaf can be counted from the global tree. */
  ghost predicate IsGlobalLeaf(leaves: seq<nat>, leavesFocus: seq<nat>, k: nat) {
    k + 1 < |leavesFocus| && leavesFocus[k] in leaves && leavesFocus[k + 1] in leaves
  }

  /** The number of particles in leaf k, cut off at the largest 32-bit number. */
  ghost function LeafTotal(leaves: seq<nat>, all: seq<nat>, k: nat): (c: nat) {
    if k + 1 < |leaves| then Min(UNSIGNED_MAX, CountIn(all, leaves[k], leaves[k + 1])) else 0
  }

  /** Count the particles in the listed leaves of the focus tree by summing over the global tree. */
  method RangeCount(leaves: seq<nat>, counts: seq<nat>, leavesFocus: seq<nat>, leavesFocusIdx: seq<nat>,
                    countsFocus: array<nat>, ghost all: seq<nat>)
    requires Ascending(leaves) && AreCounts(leaves, counts, all, UNSIGNED_MAX)
    requires Ascending(leavesFocus) && countsFocus.Length == |leavesFocus| - 1
    requires forall i: nat :: i < |leavesFocusIdx| ==> IsGlobalLeaf(leaves, leavesFocus, leavesFocusIdx[i])
    modifies countsFocus
    ensures forall k: nat :: k < countsFocus.Length ==>
              countsFocus[k] == if k in leavesFocusIdx then LeafTotal(leavesFocus, all, k) else old(countsFocus[k])
  {
    var i: nat := 0;
    while i < |leavesFocusIdx|
      invariant i <= |leavesFocusIdx|
      invariant forall k: nat :: k < countsFocus.Length ==>
                  countsFocus[k] ==
                  if k in leavesFocusIdx[..i] then LeafTotal(leavesFocus, all, k) else old(countsFocus[k])
    {
      var leafIdx: nat := leavesFocusIdx[i];
      assert IsGlobalLeaf(leaves, leavesFocus, leavesFocusIdx[i]);
      assert leavesFocusIdx[..i + 1] == leavesFocusIdx[..i] + [leafIdx];
      var count := CountBetween(leaves, counts, leavesFocus[leafIdx], leavesFocus[leafIdx + 1], all);
      countsFocus[leafIdx] := count;
      i := i + 1;
    }
    assert leavesFocusIdx[..|leavesFocusIdx|] == leavesFocusIdx;
  }

  /** For a key of the tree, both searches find it. */
  lemma ExactBounds(leaves: seq<nat>, key: nat)
    requires Ascending(leaves) && key in leaves
    ensures 0 <= FindNodeBelow(leaves, |leaves|, key) < |leaves| && leaves[FindNodeBelow(leaves, |leaves|, key)] == key
    ensures FindNodeAbove(leaves, |leaves|, key) < |leaves| && leaves[FindNodeAbove(leaves, |leaves|, key)] == key
  {
    var i: nat :| i < |leaves| && leaves[i] == key;
    assert leaves[..|leaves|] == leaves;
    LowerBoundIs(leaves, key + 1, i + 1);
  }
}
