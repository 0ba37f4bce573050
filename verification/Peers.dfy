/** Search for the ranks that own cells too close to the cells of a rank. */
module Peers {
  import opened Keys
  import opened CornerstoneArray
  import opened Counts
  import opened BuildOctree
  import opened LinkedOctree
  import opened OctreeLinks
  import opened Traversal
  import opened DualTraversal
  import opened OctreeView
  import opened Separation
  import opened Span
  import opened TreeletAgreement
  import FocusRebalance

  /** Everything that the search depends on: the linked octree of the global leaves, the key ranges of
      the ranks, the integer box of every node, and the grid. */
  datatype Domain = Domain(t: View, bounds: seq<nat>, box: nat -> Box, grid: Grid)

  /** Boxes of nodes lie in those of their parents. */
  ghost predicate BoxNests(d: Domain, i: nat) {
    IsBox(d.box(i), d.grid.n) && Contains(d.box(Parent(d.t.parents, i)), d.box(i))
  }

  ghost predicate IsDomain(d: Domain, leaves: seq<nat>) {
    && IsView(d.t, leaves) && IsGrid(d.grid)
    && |d.bounds| > 1 && d.bounds[0] == 0 && d.bounds[|d.bounds| - 1] == Pow8(d.t.L)
    && (forall i: nat, j: nat :: i <= j < |d.bounds| ==> d.bounds[i] <= d.bounds[j])
    && (forall q: nat :: q < |d.bounds| ==> d.bounds[q] in leaves)
    && forall i: nat :: i < |d.t.prefixes| ==> BoxNests(d, i)
  }

  predicate IsInside(t: View, i: nat, lo: nat, hi: nat) {
    lo <= StartOf(t, i) && EndOf(t, i) <= hi
  }

  /** The continuation criterion of the dual traversal for one rank's key range. */
  function CrossFocusPairs(d: Domain, lo: nat, hi: nat): (near: NodePair -> bool) {
    (p: NodePair) =>
      && FocusRebalance.OverlapTwoRanges(lo, hi, StartOf(d.t, p.0), EndOf(d.t, p.0))
      && !IsInside(d.t, p.1, lo, hi)
      && !MinMacMutualInt(d.box(p.0), d.box(p.1), d.grid)
  }

  /** The criterion holds for parents if it holds for their children. */
  lemma CriterionPropagates(d: Domain, leaves: seq<nat>, lo: nat, hi: nat)
    requires IsDomain(d, leaves)
    ensures Propagates(d.t.parents, |d.t.prefixes|, CrossFocusPairs(d, lo, hi))
  {
    var near, n := CrossFocusPairs(d, lo, hi), |d.t.prefixes|;
    forall x: nat, y: nat | x < n && y < n && near((x, y))
      ensures near((Parent(d.t.parents, x), y)) && near((x, Parent(d.t.parents, y)))
    {
      NearParents(d, leaves, lo, hi, x, y);
    }
  }

  lemma NearParents(d: Domain, leaves: seq<nat>, lo: nat, hi: nat, x: nat, y: nat)
    requires IsDomain(d, leaves) && x < |d.t.prefixes| && y < |d.t.prefixes| && CrossFocusPairs(d, lo, hi)((x, y))
    ensures CrossFocusPairs(d, lo, hi)((Parent(d.t.parents, x), y))
    ensures CrossFocusPairs(d, lo, hi)((x, Parent(d.t.parents, y)))
  {
    ParentAround(d.t, leaves, x);
    ParentAround(d.t, leaves, y);
    var p, q := Parent(d.t.parents, x), Parent(d.t.parents, y);
    assert BoxNests(d, x) && BoxNests(d, y) && BoxNests(d, p) && BoxNests(d, q);
    MacFailureSpreads(d.box(x), d.box(y), d.box(p), d.box(y), d.grid);
    MacFailureSpreads(d.box(x), d.box(y), d.box(x), d.box(q), d.grid);
  }

  lemma ParentAround(t: View, leaves: seq<nat>, i: nat)
    requires IsView(t, leaves) && i < |t.prefixes|
    ensures Parent(t.parents, i) < |t.prefixes|
    ensures StartOf(t, Parent(t.parents, i)) <= StartOf(t, i) && EndOf(t, i) <= EndOf(t, Parent(t.parents, i))
  {
    if i > 0 { ParentCell(t, leaves, i); }
  }

  // ------------------------------------------------------------- leaves and ranks

  ghost predicate IsLeafNode(t: View, i: nat) {
    i < |t.prefixes| && i < |t.childOffsets| && t.childOffsets[i] == 0
  }

  /** Leaf i belongs to rank q. */
  ghost predicate IsOwnedBy(d: Domain, i: nat, q: nat) {
    IsLeafNode(d.t, i) && q + 1 < |d.bounds| && IsInside(d.t, i, d.bounds[q], d.bounds[q + 1])
  }

  /** Some leaf of rank q is too close to a leaf of rank r. */
  ghost predicate IsPeer(d: Domain, r: nat, q: nat) {
    q != r && exists a: nat, b: nat :: IsClosePair(d, r, q, a, b)
  }

  ghost predicate IsClosePair(d: Domain, r: nat, q: nat, a: nat, b: nat) {
    IsOwnedBy(d, a, r) && IsOwnedBy(d, b, q) && !MinMacMutualInt(d.box(a), d.box(b), d.grid)
  }

  /** Being peers is mutual. */
  lemma PeersAreMutual(d: Domain, leaves: seq<nat>, r: nat, q: nat)
    requires IsDomain(d, leaves)
    ensures IsPeer(d, r, q) <==> IsPeer(d, q, r)
  {
    if IsPeer(d, r, q) { MutualPeer(d, leaves, r, q); }
    if IsPeer(d, q, r) { MutualPeer(d, leaves, q, r); }
  }

  lemma MutualPeer(d: Domain, leaves: seq<nat>, r: nat, q: nat)
    requires IsDomain(d, leaves) && IsPeer(d, r, q)
    ensures IsPeer(d, q, r)
  {
    var a: nat, b: nat :| IsClosePair(d, r, q, a, b);
    assert BoxNests(d, a) && BoxNests(d, b);
    MacFailureSpreads(d.box(a), d.box(b), d.box(a), d.box(b), d.grid);
    assert IsClosePair(d, q, r, b, a);
  }

  /** `findRank`: the last rank whose range starts at or before the key. */
  function FindRank(bounds: seq<nat>, key: nat): (q: int) {
    UpperBound(bounds, key) - 1
  }

  /** No key of the octree lies strictly inside a leaf. */
  lemma LeafIsWhole(t: View, leaves: seq<nat>, i: nat, key: nat)
    requires IsView(t, leaves) && IsLeafNode(t, i) && key in leaves
    ensures key <= StartOf(t, i) || EndOf(t, i) <= key
    ensures StartOf(t, i) < EndOf(t, i)
  {
    assert NodeFits(t, leaves, i);
  }

  /** A leaf belongs to exactly the rank that its key is found in. */
  lemma OwnerIs(d: Domain, leaves: seq<nat>, i: nat, q: nat)
    requires IsDomain(d, leaves) && IsLeafNode(d.t, i)
    ensures 0 <= FindRank(d.bounds, StartOf(d.t, i)) < |d.bounds| - 1
    ensures IsOwnedBy(d, i, q) <==> q == FindRank(d.bounds, StartOf(d.t, i))
  {
    var key, f := StartOf(d.t, i), FindRank(d.bounds, StartOf(d.t, i));
    assert NodeFits(d.t, leaves, i);
    if q + 1 < |d.bounds| {
      LeafIsWhole(d.t, leaves, i, d.bounds[q]);
      LeafIsWhole(d.t, leaves, i, d.bounds[q + 1]);
    }
    assert f >= 0;
    LeafIsWhole(d.t, leaves, i, d.bounds[f]);
  }

  /** A leaf that starts in a cell of the octree is below it. */
  lemma LeafBelowCell(t: View, leaves: seq<nat>, v: nat, i: nat)
    requires IsView(t, leaves) && v < |t.prefixes| && IsLeafNode(t, i)
    ensures IsAncestor(t.parents, v, i) <==> StartOf(t, v) <= StartOf(t, i) < EndOf(t, v)
    ensures IsAncestor(t.parents, v, i) ==> EndOf(t, i) <= EndOf(t, v)
  {
    assert NodeFits(t, leaves, v) && NodeFits(t, leaves, i);
    if IsAncestor(t.parents, v, i) { BelowIsInside(t, leaves, v, i); }
    if StartOf(t, v) <= StartOf(t, i) < EndOf(t, v) {
      if HeightOf(t, i) > HeightOf(t, v) {
        Pow8Monotone(HeightOf(t, v), HeightOf(t, i));
        LeafIsWhole(t, leaves, i, EndOf(t, v));
      }
      InsideIsBelow(t, leaves, v, i);
    }
  }

  // ------------------------------------------------------------- heights

  /** No subtree is higher than the cell of its root. */
  lemma {:induction false} HeightFitsCell(t: View, leaves: seq<nat>, i: nat)
    requires IsView(t, leaves) && i < |t.prefixes|
    ensures Height(t.childOffsets, |t.prefixes|, i) <= HeightOf(t, i)
    decreases |t.prefixes| - i, 9
  {
    if t.childOffsets[i] != 0 {
      ChildFacts(t.childOffsets, t.parents, |t.prefixes|, i, 0);
      assert ChildFits(t, t.childOffsets[i]);
      ChildrenFitCell(t, leaves, i, 0);
    }
  }

  lemma {:induction false} ChildrenFitCell(t: View, leaves: seq<nat>, i: nat, e: nat)
    requires IsView(t, leaves) && i < |t.prefixes| && t.childOffsets[i] != 0 && e <= 8
    requires i < t.childOffsets[i] && t.childOffsets[i] + 8 <= |t.prefixes| && HeightOf(t, i) >= 1
    ensures HighestChild(t.childOffsets, |t.prefixes|, i, e) <= HeightOf(t, i) - 1
    decreases |t.prefixes| - i, 8 - e
  {
    if e < 8 {
      var c := t.childOffsets[i] + e;
      ChildFacts(t.childOffsets, t.parents, |t.prefixes|, i, e);
      assert ChildFits(t, c);
      HeightFitsCell(t, leaves, c);
      ChildrenFitCell(t, leaves, i, e + 1);
    }
  }

  /** The root is higher than all other nodes. */
  lemma {:induction false} RootIsHighest(t: View, leaves: seq<nat>, i: nat)
    requires IsView(t, leaves) && 0 < i < |t.prefixes|
    ensures Height(t.childOffsets, |t.prefixes|, i) < Height(t.childOffsets, |t.prefixes|, 0)
    decreases i
  {
    ParentFacts(t.childOffsets, t.parents, |t.prefixes|, i);
    var p := Parent(t.parents, i);
    ChildIsLower(t.childOffsets, t.parents, |t.prefixes|, p, (i - 1) % 8);
    if p > 0 { RootIsHighest(t, leaves, p); }
  }

  // ------------------------------------------------------------- the search

  /** What the look-up of nodes needs. */
  ghost predicate IsSearchable(d: Domain, leaves: seq<nat>, levelRange: seq<nat>) {
    && IsDomain(d, leaves) && Ascending(d.t.prefixes) && NodesListed(leaves, d.t.prefixes, d.t.L)
    && LevelsDelimited(d.t.prefixes, levelRange, d.t.L) && IsLevelRange(d.t.prefixes, levelRange, d.t.L)
  }

  /** The leaves that rank r owns and that start between the keys. */
  ghost predicate IsPeerIn(d: Domain, r: nat, q: nat, from: nat, to: nat) {
    q != r && exists a: nat, b: nat :: IsClosePair(d, r, q, a, b) && from <= StartOf(d.t, a) < to
  }

  /** A pair of leaves that the traversal of one spanning cell finds. */
  ghost predicate IsFound(d: Domain, r: nat, v: nat, p: NodePair)
    requires r + 1 < |d.bounds|
  {
    && IsLeafNode(d.t, p.0) && IsLeafNode(d.t, p.1)
    && StartOf(d.t, v) <= StartOf(d.t, p.0) < EndOf(d.t, v)
    && CrossFocusPairs(d, d.bounds[r], d.bounds[r + 1])(p)
  }

  lemma PairsFound(d: Domain, leaves: seq<nat>, r: nat, v: nat, m2l: seq<NodePair>, p2p: seq<NodePair>, la: nat,
                   lb: nat)
    requires IsDomain(d, leaves) && r + 1 < |d.bounds| && v < |d.t.prefixes|
    requires IsResult(d.t.childOffsets, d.t.parents, |d.t.prefixes|, CrossFocusPairs(d, d.bounds[r], d.bounds[r + 1]),
                      (v, 0), m2l, p2p)
    ensures (la, lb) in p2p <==> IsFound(d, r, v, (la, lb))
  {
    var near := CrossFocusPairs(d, d.bounds[r], d.bounds[r + 1]);
    CriterionPropagates(d, leaves, d.bounds[r], d.bounds[r + 1]);
    NearPairsFound(d.t.childOffsets, d.t.parents, |d.t.prefixes|, near, (v, 0), m2l, p2p, la, lb);
    if IsLeafNode(d.t, la) { LeafBelowCell(d.t, leaves, v, la); }
    if IsLeafNode(d.t, lb) {
      LeafBelowCell(d.t, leaves, 0, lb);
      assert NodeFits(d.t, leaves, lb);
    }
  }

  /** In a spanning cell of the rank's range, the traversal finds the leaves of the rank that are too
      close to leaves of other ranks. */
  lemma FoundIsClose(d: Domain, leaves: seq<nat>, r: nat, v: nat, p: NodePair, q: nat)
    requires IsDomain(d, leaves) && r + 1 < |d.bounds| && v < |d.t.prefixes|
    requires d.bounds[r] <= StartOf(d.t, v) && EndOf(d.t, v) <= d.bounds[r + 1]
    ensures IsFound(d, r, v, p) && q == FindRank(d.bounds, StartOf(d.t, p.1)) <==>
            q != r && IsClosePair(d, r, q, p.0, p.1) && StartOf(d.t, v) <= StartOf(d.t, p.0) < EndOf(d.t, v)
  {
    if IsLeafNode(d.t, p.0) && IsLeafNode(d.t, p.1) {
      LeafBelowCell(d.t, leaves, v, p.0);
      LeafIsWhole(d.t, leaves, p.0, d.bounds[r]);
      OwnerIs(d, leaves, p.1, q);
      OwnerIs(d, leaves, p.1, r);
    }
  }

  /** The callback: flag the rank of the source leaf of every pair. */
  method FlagRanks(d: Domain, p2p: seq<NodePair>, peerRanks: array<bool>)
    requires forall k: nat :: k < |p2p| ==> 0 <= FindRank(d.bounds, StartOf(d.t, p2p[k].1)) < peerRanks.Length
    modifies peerRanks
    ensures forall q: nat :: q < peerRanks.Length ==>
      (peerRanks[q] <==> old(peerRanks[q]) || exists k: nat :: k < |p2p| && IsRankOf(d, p2p[k], q))
  {
    for i := 0 to |p2p|
      invariant forall q: nat :: q < peerRanks.Length ==>
        (peerRanks[q] <==> old(peerRanks[q]) || exists k: nat :: k < i && IsRankOf(d, p2p[k], q))
    {
      var peerRank := FindRank(d.bounds, StartOf(d.t, p2p[i].1));
      ghost var before := peerRanks[..];
      if !peerRanks[peerRank] { peerRanks[peerRank] := true; }
      assert IsRankOf(d, p2p[i], peerRank);
      assert forall q: nat :: q < peerRanks.Length ==> (peerRanks[q] <==> before[q] || IsRankOf(d, p2p[i], q));
    }
  }

  predicate IsRankOf(d: Domain, p: NodePair, q: nat) {
    q == FindRank(d.bounds, StartOf(d.t, p.1))
  }

  /** The traversal from node v needs more entries than its stack has. */
  ghost predicate NeedsTooMuch(d: Domain, r: nat, v: nat) {
    && TreeShape(d.t.childOffsets, d.t.parents, |d.t.prefixes|) && r + 1 < |d.bounds| && v < |d.t.prefixes|
    && Need(d.t.childOffsets, d.t.parents, |d.t.prefixes|, CrossFocusPairs(d, d.bounds[r], d.bounds[r + 1]),
            (v, 0)) > STACK_SIZE
  }

  /** The search from one spanning cell: flag the ranks close to the leaves below it. */
  method SearchCell(d: Domain, r: nat, v: nat, peerRanks: array<bool>, ghost leaves: seq<nat>) returns (overflow: bool)
    requires IsDomain(d, leaves) && r + 1 < |d.bounds| && v < |d.t.prefixes| && peerRanks.Length == |d.bounds| - 1
    requires d.bounds[r] <= StartOf(d.t, v) && EndOf(d.t, v) <= d.bounds[r + 1]
    modifies peerRanks
    ensures overflow <==> NeedsTooMuch(d, r, v)
    ensures !overflow ==> forall q: nat :: q < peerRanks.Length ==>
      (peerRanks[q] <==> old(peerRanks[q]) || IsPeerIn(d, r, q, StartOf(d.t, v), EndOf(d.t, v)))
  {
    var near := CrossFocusPairs(d, d.bounds[r], d.bounds[r + 1]);
    var m2l, p2p;
    overflow, m2l, p2p := DualTraversal.DualTraversal(d.t.childOffsets, v, 0, near, d.t.parents, |d.t.prefixes|);
    if overflow { return; }
    forall k: nat | k < |p2p| ensures 0 <= FindRank(d.bounds, StartOf(d.t, p2p[k].1)) < peerRanks.Length {
      assert (p2p[k].0, p2p[k].1) in p2p;
      PairsFound(d, leaves, r, v, m2l, p2p, p2p[k].0, p2p[k].1);
      OwnerIs(d, leaves, p2p[k].1, r);
    }
    FlagRanks(d, p2p, peerRanks);
    forall q: nat | q < peerRanks.Length
      ensures (exists k: nat :: k < |p2p| && IsRankOf(d, p2p[k], q)) <==>
        IsPeerIn(d, r, q, StartOf(d.t, v), EndOf(d.t, v))
    {
      FlagsAreExact(d, leaves, r, v, m2l, p2p, q);
    }
  }

  lemma FlagsAreExact(d: Domain, leaves: seq<nat>, r: nat, v: nat, m2l: seq<NodePair>, p2p: seq<NodePair>, q: nat)
    requires IsDomain(d, leaves) && r + 1 < |d.bounds| && v < |d.t.prefixes|
    requires d.bounds[r] <= StartOf(d.t, v) && EndOf(d.t, v) <= d.bounds[r + 1]
    requires IsResult(d.t.childOffsets, d.t.parents, |d.t.prefixes|, CrossFocusPairs(d, d.bounds[r], d.bounds[r + 1]),
                      (v, 0), m2l, p2p)
    ensures (exists k: nat :: k < |p2p| && IsRankOf(d, p2p[k], q)) <==>
      IsPeerIn(d, r, q, StartOf(d.t, v), EndOf(d.t, v))
  {
    if k: nat :| k < |p2p| && IsRankOf(d, p2p[k], q) {
      assert (p2p[k].0, p2p[k].1) in p2p;
      PairsFound(d, leaves, r, v, m2l, p2p, p2p[k].0, p2p[k].1);
      FoundIsClose(d, leaves, r, v, p2p[k], q);
    }
    if IsPeerIn(d, r, q, StartOf(d.t, v), EndOf(d.t, v)) {
      var a: nat, b: nat :| IsClosePair(d, r, q, a, b) && StartOf(d.t, v) <= StartOf(d.t, a) < EndOf(d.t, v);
      FoundIsClose(d, leaves, r, v, (a, b), q);
      PairsFound(d, leaves, r, v, m2l, p2p, a, b);
      var k: nat :| k < |p2p| && p2p[k] == (a, b);
      assert IsRankOf(d, p2p[k], q);
    }
  }

  /** The spanning keys of a rank's range and its end, by two calls: the first one only counts. */
  method SpanningNodeKeys(lo: nat, hi: nat, L: nat) returns (keys: array<nat>)
    requires lo <= hi <= Pow8(L)
    ensures fresh(keys) && keys[..] == SpanChain(lo, hi) + [hi]
  {
    var n := SpanSfcRange(lo, hi, L, null, 0);
    keys := new nat[n + 1](_ => 0);
    n := SpanSfcRange(lo, hi, L, keys, 0);
    keys[n] := hi;
  }

  /** The spanning cells of a range of the octree are nodes of the octree. */
  lemma SpanningCellIsNode(leaves: seq<nat>, lo: nat, hi: nat, c: seq<nat>, i: nat, L: nat)
    requires Cornerstone(leaves, L) && lo in leaves && hi in leaves && lo <= hi && i + 1 < |c|
    requires c == SpanChain(lo, hi) + [hi]
    ensures c[0] == lo && lo <= c[i] < c[i + 1] <= hi && IsNodeCell(leaves, c, i, L)
  {
    ChainOfCells(lo, hi);
    SpanningKeyIsBoundary(leaves, lo, hi, c[i], L);
    SpanningKeyIsBoundary(leaves, lo, hi, c[i + 1], L);
    ChainBounds(c, i);
    CellOfTwoKeys(leaves, c, i, L);
  }

  lemma ChainBounds(c: seq<nat>, i: nat)
    requires Ascending(c) && i + 1 < |c|
    ensures c[0] <= c[i] < c[i + 1] <= c[|c| - 1]
  {
  }

  lemma SpanningKeyIsBoundary(leaves: seq<nat>, lo: nat, hi: nat, k: nat, L: nat)
    requires Cornerstone(leaves, L) && lo in leaves && hi in leaves && lo <= hi && k in SpanChain(lo, hi) + [hi]
    ensures k in leaves
  {
    ArrayToSet(leaves, L);
    if k != hi { ChainIsRequired(lo, hi, L, KeySet(leaves)); }
  }

  lemma CellOfTwoKeys(leaves: seq<nat>, c: seq<nat>, i: nat, L: nat)
    requires Cornerstone(leaves, L) && i + 1 < |c| && CellAt(c, i) && c[i] in leaves && c[i + 1] in leaves
    ensures IsNodeCell(leaves, c, i, L)
  {
    if Log8(c[i + 1] - c[i]) > L { Pow8Monotone(L + 1, Log8(c[i + 1] - c[i])); }
  }

  /** Node v is the cell from one key to another. */
  ghost predicate IsCellNode(t: View, v: nat, from: nat, to: nat) {
    v < |t.prefixes| && StartOf(t, v) == from && EndOf(t, v) == to
  }

  lemma CellHasOneNode(t: View, leaves: seq<nat>, from: nat, to: nat, u: nat, v: nat)
    requires IsView(t, leaves) && Ascending(t.prefixes) && IsCellNode(t, u, from, to) && IsCellNode(t, v, from, to)
    ensures u == v
  {
    assert NodeFits(t, leaves, u) && NodeFits(t, leaves, v);
    Log8OfPow8(HeightOf(t, u));
    Log8OfPow8(HeightOf(t, v));
    assert t.prefixes[u] == t.prefixes[v];
  }

  /** The traversal from the spanning cell overflows its stack. */
  ghost predicate CellOverflows(d: Domain, r: nat, from: nat, to: nat) {
    exists v: nat :: IsCellNode(d.t, v, from, to) && NeedsTooMuch(d, r, v)
  }

  /** The traversal from some spanning cell of the rank overflows its stack. */
  ghost predicate SearchOverflows(d: Domain, r: nat)
    requires r + 1 < |d.bounds| && d.bounds[r] <= d.bounds[r + 1]
  {
    SomeCellOverflows(d, r, SpanChain(d.bounds[r], d.bounds[r + 1]) + [d.bounds[r + 1]])
  }

  ghost predicate SomeCellOverflows(d: Domain, r: nat, c: seq<nat>) {
    exists i: nat :: IsOverflowAt(d, r, c, i)
  }

  ghost predicate IsOverflowAt(d: Domain, r: nat, c: seq<nat>, i: nat) {
    i + 1 < |c| && CellOverflows(d, r, c[i], c[i + 1])
  }

  /** Locate a spanning cell and search from it. */
  method SearchFrom(d: Domain, r: nat, startKey: nat, endKey: nat, peerRanks: array<bool>, levelRange: seq<nat>,
                    ghost leaves: seq<nat>)
    returns (overflow: bool)
    requires IsSearchable(d, leaves, levelRange) && r + 1 < |d.bounds|
    requires IsNodeCell(leaves, [startKey, endKey], 0, d.t.L)
    requires d.bounds[r] <= startKey < endKey <= d.bounds[r + 1] && peerRanks.Length == |d.bounds| - 1
    modifies peerRanks
    ensures overflow <==> CellOverflows(d, r, startKey, endKey)
    ensures !overflow ==> forall q: nat :: q < peerRanks.Length ==>
      (peerRanks[q] <==> old(peerRanks[q]) || IsPeerIn(d, r, q, startKey, endKey))
  {
    var nodeIdx := LocateNode(startKey, endKey, d.t.prefixes, levelRange, d.t.L);
    CellBehindIndex(d.t, leaves, startKey, Log8(endKey - startKey), nodeIdx);
    overflow := SearchCell(d, r, nodeIdx, peerRanks, leaves);
    assert IsCellNode(d.t, nodeIdx, startKey, endKey);
    if v: nat :| IsCellNode(d.t, v, startKey, endKey) && NeedsTooMuch(d, r, v) {
      CellHasOneNode(d.t, leaves, startKey, endKey, nodeIdx, v);
    }
  }

  /** The flags of all ranks are those of the cells from `from` to `to`. */
  ghost predicate AreFlagsOf(d: Domain, r: nat, flags: seq<bool>, from: nat, to: nat) {
    forall q: nat :: q < |flags| ==> (flags[q] <==> IsPeerIn(d, r, q, from, to))
  }

  /** Search from spanning cell i, after those before. */
  method SearchNext(d: Domain, r: nat, startKey: nat, endKey: nat, peerRanks: array<bool>, levelRange: seq<nat>,
                    ghost leaves: seq<nat>, ghost lo: nat, ghost hi: nat, ghost c: seq<nat>, ghost i: nat)
    returns (overflow: bool)
    requires IsSearchable(d, leaves, levelRange) && r + 1 < |d.bounds| && lo == d.bounds[r] <= d.bounds[r + 1] == hi
    requires c == SpanChain(lo, hi) + [hi] && i + 1 < |c| && startKey == c[i] && endKey == c[i + 1]
    requires peerRanks.Length == |d.bounds| - 1 && AreFlagsOf(d, r, peerRanks[..], lo, c[i])
    modifies peerRanks
    ensures overflow <==> IsOverflowAt(d, r, c, i)
    ensures !overflow ==> AreFlagsOf(d, r, peerRanks[..], lo, c[i + 1])
  {
    ghost var before := peerRanks[..];
    SpanningCellIsNode(leaves, lo, hi, c, i, d.t.L);
    overflow := SearchFrom(d, r, startKey, endKey, peerRanks, levelRange, leaves);
    if !overflow {
      forall q: nat | q < peerRanks.Length ensures peerRanks[..][q] <==> IsPeerIn(d, r, q, lo, c[i + 1]) {
        PeersOfNeighbours(d, r, q, lo, c[i], c[i + 1]);
        assert peerRanks[q] <==> before[q] || IsPeerIn(d, r, q, c[i], c[i + 1]);
      }
    }
  }

  /** Search from all spanning cells of the rank's range. */
  method SearchRange(d: Domain, r: nat, keys: seq<nat>, peerRanks: array<bool>, levelRange: seq<nat>,
                     ghost leaves: seq<nat>)
    returns (overflow: bool)
    requires IsSearchable(d, leaves, levelRange) && r + 1 < |d.bounds|
    requires d.bounds[r] <= d.bounds[r + 1] && keys == SpanChain(d.bounds[r], d.bounds[r + 1]) + [d.bounds[r + 1]]
    requires peerRanks.Length == |d.bounds| - 1 && forall q: nat :: q < peerRanks.Length ==> !peerRanks[q]
    modifies peerRanks
    ensures overflow <==> SearchOverflows(d, r)
    ensures !overflow ==> AreFlagsOf(d, r, peerRanks[..], d.bounds[r], d.bounds[r + 1])
  {
    ghost var lo, hi := d.bounds[r], d.bounds[r + 1];
    ChainEnds(lo, hi, keys);
    NoFlagsYet(d, r, peerRanks[..], lo);
    overflow := false;
    var i := 0;
    while i < |keys| - 1 && !overflow
      invariant 0 <= i < |keys|
      invariant overflow ==> exists k: nat :: IsOverflowAt(d, r, keys, k)
      invariant !overflow ==> forall k: nat :: k < i ==> !IsOverflowAt(d, r, keys, k)
      invariant !overflow ==> AreFlagsOf(d, r, peerRanks[..], lo, keys[i])
      decreases |keys| - i, !overflow
    {
      overflow := SearchNext(d, r, keys[i], keys[i + 1], peerRanks, levelRange, leaves, lo, hi, keys, i);
      i := i + 1;
    }
  }

  lemma ChainEnds(lo: nat, hi: nat, c: seq<nat>)
    requires lo <= hi && c == SpanChain(lo, hi) + [hi]
    ensures c[0] == lo && c[|c| - 1] == hi
  {
    ChainOfCells(lo, hi);
  }

  lemma NoFlagsYet(d: Domain, r: nat, flags: seq<bool>, lo: nat)
    requires forall q: nat :: q < |flags| ==> !flags[q]
    ensures AreFlagsOf(d, r, flags, lo, lo)
  {
  }

  lemma PeersOfNeighbours(d: Domain, r: nat, q: nat, from: nat, mid: nat, to: nat)
    requires from <= mid <= to
    ensures IsPeerIn(d, r, q, from, to) <==> IsPeerIn(d, r, q, from, mid) || IsPeerIn(d, r, q, mid, to)
  {
    if IsPeerIn(d, r, q, from, to) {
      var a: nat, b: nat :| IsClosePair(d, r, q, a, b) && from <= StartOf(d.t, a) < to;
    }
  }

  /** The positions of the flags. */
  method ListRanks(peerRanks: array<bool>) returns (ret: seq<nat>)
    ensures Ascending(ret)
    ensures forall q: nat :: q in ret <==> q < peerRanks.Length && peerRanks[q]
  {
    ret := [];
    for i := 0 to peerRanks.Length
      invariant Ascending(ret) && forall j: nat :: j < |ret| ==> ret[j] < i
      invariant forall q: nat :: q in ret <==> q < i && peerRanks[q]
    {
      if peerRanks[i] { ret := ret + [i]; }
    }
  }

  /** `findPeersMac`: the ranks that own a leaf too close to a leaf of this rank, in ascending order, unless a
      traversal overflows its stack. */
  method FindPeersMac(d: Domain, myRank: nat, levelRange: seq<nat>, ghost leaves: seq<nat>)
    returns (overflow: bool, ret: seq<nat>)
    requires IsSearchable(d, leaves, levelRange) && myRank + 1 < |d.bounds|
    ensures d.bounds[myRank] <= d.bounds[myRank + 1] && (overflow <==> SearchOverflows(d, myRank))
    ensures !overflow ==> Ascending(ret) && forall q: nat :: q in ret <==> IsPeer(d, myRank, q)
  {
    var keys := SpanningNodeKeys(d.bounds[myRank], d.bounds[myRank + 1], d.t.L);
    var peerRanks := new bool[|d.bounds| - 1](_ => false);
    overflow := SearchRange(d, myRank, keys[..], peerRanks, levelRange, leaves);
    ret := [];
    if !overflow {
      ret := ListRanks(peerRanks);
      forall q: nat { AllLeavesSearched(d, leaves, myRank, q); }
    }
  }

  // ------------------------------------------------------------- when the stack suffices

  /** A spanning cell is harmless if its height and that of the root sum to at most 19, or if all nodes are in the
      range of the rank. */
  lemma CellFitsStack(d: Domain, leaves: seq<nat>, r: nat, v: nat)
    requires IsDomain(d, leaves) && r + 1 < |d.bounds| && v < |d.t.prefixes|
    requires 7 * PairHeight(d.t.childOffsets, |d.t.prefixes|, (v, 0)) <= STACK_SIZE + 6 ||
             (d.bounds[r] == 0 && d.bounds[r + 1] == Pow8(d.t.L))
    ensures !NeedsTooMuch(d, r, v)
  {
    var near, n := CrossFocusPairs(d, d.bounds[r], d.bounds[r + 1]), |d.t.prefixes|;
    if !IsLeafPair(d.t.childOffsets, (v, 0)) {
      NeedIsBounded(d.t.childOffsets, d.t.parents, n, near, (v, 0));
      if d.bounds[r] == 0 && d.bounds[r + 1] == Pow8(d.t.L) {
        forall j: nat | j < OCTANTS ensures !near(Part(d.t.childOffsets, (v, 0), j)) {
          PartIsLower(d.t.childOffsets, d.t.parents, n, (v, 0), j);
          assert NodeFits(d.t, leaves, Part(d.t.childOffsets, (v, 0), j).1);
          EndInTree(d.t, leaves, Part(d.t.childOffsets, (v, 0), j).1);
        }
        NothingPushed(d.t.childOffsets, d.t.parents, n, near, (v, 0), OCTANTS);
      }
    }
  }

  lemma EndInTree(t: View, leaves: seq<nat>, i: nat)
    requires IsView(t, leaves) && i < |t.prefixes|
    ensures EndOf(t, i) <= Pow8(t.L)
  {
    assert NodeFits(t, leaves, i);
    NodeEnds(leaves, StartOf(t, i), HeightOf(t, i), t.L);
  }

  /** With 32-bit keys, which have 10 levels, the search never overflows. */
  lemma TenLevelsFit(d: Domain, leaves: seq<nat>, r: nat)
    requires IsDomain(d, leaves) && r + 1 < |d.bounds| && d.t.L <= 10
    ensures d.bounds[r] <= d.bounds[r + 1] && !SearchOverflows(d, r)
  {
    var lo, hi := d.bounds[r], d.bounds[r + 1];
    assert lo <= hi;
    var c := SpanChain(lo, hi) + [hi];
    ChainOfCells(lo, hi);
    forall i: nat ensures !IsOverflowAt(d, r, c, i) {
      if i + 1 < |c| {
        ChainBounds(c, i);
        forall v: nat | IsCellNode(d.t, v, c[i], c[i + 1])
          ensures !NeedsTooMuch(d, r, v) { TenLevelsFitAt(d, leaves, r, v); }
      }
    }
  }

  lemma TenLevelsFitAt(d: Domain, leaves: seq<nat>, r: nat, v: nat)
    requires IsDomain(d, leaves) && r + 1 < |d.bounds| && d.t.L <= 10 && v < |d.t.prefixes|
    requires d.bounds[r] <= StartOf(d.t, v) && EndOf(d.t, v) <= d.bounds[r + 1]
    ensures !NeedsTooMuch(d, r, v)
  {
    HeightFitsCell(d.t, leaves, 0);
    if v > 0 {
      RootIsHighest(d.t, leaves, v);
    } else {
      assert d.bounds[r + 1] <= d.bounds[|d.bounds| - 1];
    }
    CellFitsStack(d, leaves, r, v);
  }

  lemma CellBehindIndex(t: View, leaves: seq<nat>, s: nat, h: nat, i: nat)
    requires IsView(t, leaves) && NodeIn(leaves, s, h, t.L) && NodesListed(leaves, t.prefixes, t.L)
    requires Code(s, h, t.L) in t.prefixes ==> i < |t.prefixes| && t.prefixes[i] == Code(s, h, t.L)
    ensures i < |t.prefixes| && StartOf(t, i) == s && HeightOf(t, i) == h
  {
    DecodeEncode(s, h, t.L);
  }

  lemma AllLeavesSearched(d: Domain, leaves: seq<nat>, r: nat, q: nat)
    requires IsDomain(d, leaves) && r + 1 < |d.bounds|
    ensures IsPeer(d, r, q) <==> IsPeerIn(d, r, q, d.bounds[r], d.bounds[r + 1])
    ensures IsPeer(d, r, q) ==> q + 1 < |d.bounds|
  {
    if IsPeer(d, r, q) {
      var a: nat, b: nat :| IsClosePair(d, r, q, a, b);
      LeafIsWhole(d.t, leaves, a, d.bounds[r]);
    }
  }
}
