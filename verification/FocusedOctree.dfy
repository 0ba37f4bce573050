/** A focused octree on a single rank, driven through any number of updates. */
module FocusedOctree {
  import opened Keys
  import opened CornerstoneArray
  import opened Counts
  import opened ComputeOctree
  import opened BuildOctree
  import opened Traversal
  import opened OctreeView
  import opened FocusRebalance
  import opened FocusUpdate
  import opened Macs
  import opened Upsweep
  import opened FocusOctrees

  class FocusedOctreeSingleNode {
    const bucketSize: nat
    const L: nat
    const tree: OctreeData
    var leaves: seq<nat>
    var leafCounts: seq<nat>
    var counts: seq<nat>
    var macs: seq<nat>

    /** The tree is the octree of the leaves; counts and marks grow towards the root. */
    ghost predicate Valid()
      reads this, tree
    {
      && 3 * L < UNSIGNED_LIMIT
      && tree.IsOctree(leaves, L)
      && AncestorMonotone(View(tree.prefixes, tree.childOffsets, tree.parents, L), counts, macs)
    }

    /** Only the root, with one particle too many and a mark, so that the first update splits it. */
    predicate IsNew()
      reads this
    {
      leaves == [0, Pow8(L)] && counts == [(bucketSize + 1) % UNSIGNED_LIMIT] && macs == [1]
    }

    constructor (bucketSize: nat, L: nat)
      requires 3 * L < UNSIGNED_LIMIT
      ensures Valid() && fresh(tree) && this.L == L && this.bucketSize == bucketSize
      ensures IsNew()
    {
      this.bucketSize := bucketSize;
      this.L := L;
      tree := new OctreeData();
      leaves := [0, Pow8(L)];
      leafCounts := [];
      counts := [(bucketSize + 1) % UNSIGNED_LIMIT];
      macs := [1];
      new;
      RootIsCornerstone(L);
      tree.UpdateInternalTree(leaves, L);
    }

    /** One update: restructure the tree by the counts and marks of the previous state, then mark and
        count for the new tree. `near` and `inside` are the geometric tests, for the ends of cells. */
    method Update(particleKeys: seq<nat>, focusStart: nat, focusEnd: nat, mandatoryKeys: seq<nat>,
                  near: (nat, nat, nat, nat) -> bool, inside: (nat, nat) -> bool)
      returns (converged: bool)
      requires Valid() && focusStart <= focusEnd <= Pow8(L)
      requires forall k: nat :: k < |mandatoryKeys| ==> mandatoryKeys[k] <= Pow8(L)
      requires Sorted(particleKeys) && |particleKeys| < UNSIGNED_LIMIT
      modifies this, tree
      ensures Valid()
      ensures IsFocusStep(old(View(tree.prefixes, tree.childOffsets, tree.parents, L)), old(leaves),
                          old(tree.leafToInternal),
                          old(Decisions(View(tree.prefixes, tree.childOffsets, tree.parents, L), counts, macs,
                                        focusStart, focusEnd, bucketSize)),
                          [focusStart, focusEnd] + mandatoryKeys, leaves)
      ensures IsUpdated(old(leaves), leaves, [focusStart, focusEnd] + mandatoryKeys, converged, L)
      ensures var t := View(tree.prefixes, tree.childOffsets, tree.parents, L);
              && |leaves| > 0
              && AreMarks(t, CellMarking(t, FocusLeaves(leaves, focusStart, focusEnd), near, inside), macs)
              && AreAllCounts(t, leaves, leafCounts, counts, particleKeys)
    {
      var newLeaves, newMacs, newLeafCounts, newCounts;
      newLeaves, newMacs, newLeafCounts, newCounts, converged :=
        UpdateAndMeasure(tree, leaves, bucketSize, particleKeys, focusStart, focusEnd, mandatoryKeys, leafCounts,
                         counts, macs, near, inside, L);
      Store(newLeaves, newMacs, newLeafCounts, newCounts);
    }

    method Store(leaves: seq<nat>, macs: seq<nat>, leafCounts: seq<nat>, counts: seq<nat>)
      requires 3 * L < UNSIGNED_LIMIT && tree.IsOctree(leaves, L)
      requires AncestorMonotone(View(tree.prefixes, tree.childOffsets, tree.parents, L), counts, macs)
      modifies this
      ensures Valid()
      ensures this.leaves == leaves && this.macs == macs && this.leafCounts == leafCounts && this.counts == counts
    {
      this.leaves, this.macs, this.leafCounts, this.counts := leaves, macs, leafCounts, counts;
    }
  }

  method UpdateAndMeasure(tree: OctreeData, leaves: seq<nat>, bucketSize: nat, particleKeys: seq<nat>, focusStart: nat,
                          focusEnd: nat, mandatoryKeys: seq<nat>, guesses: seq<nat>, counts: seq<nat>, macs: seq<nat>,
                          near: (nat, nat, nat, nat) -> bool, inside: (nat, nat) -> bool, L: nat)
    returns (newLeaves: seq<nat>, newMacs: seq<nat>, newLeafCounts: seq<nat>, newCounts: seq<nat>, converged: bool)
    requires tree.IsOctree(leaves, L) && 3 * L < UNSIGNED_LIMIT
    requires AncestorMonotone(View(tree.prefixes, tree.childOffsets, tree.parents, L), counts, macs)
    requires focusStart <= focusEnd <= Pow8(L)
    requires forall k: nat :: k < |mandatoryKeys| ==> mandatoryKeys[k] <= Pow8(L)
    requires Sorted(particleKeys) && |particleKeys| < UNSIGNED_LIMIT
    modifies tree
    ensures tree.IsOctree(newLeaves, L)
    ensures IsFocusStep(old(View(tree.prefixes, tree.childOffsets, tree.parents, L)), leaves, old(tree.leafToInternal),
                        Decisions(old(View(tree.prefixes, tree.childOffsets, tree.parents, L)), counts, macs,
                                  focusStart, focusEnd, bucketSize),
                        [focusStart, focusEnd] + mandatoryKeys, newLeaves)
    ensures IsUpdated(leaves, newLeaves, [focusStart, focusEnd] + mandatoryKeys, converged, L)
    ensures var t := View(tree.prefixes, tree.childOffsets, tree.parents, L);
            && |newLeaves| > 0 && AncestorMonotone(t, newCounts, newMacs)
            && AreMarks(t, CellMarking(t, FocusLeaves(newLeaves, focusStart, focusEnd), near, inside), newMacs)
            && AreAllCounts(t, newLeaves, newLeafCounts, newCounts, particleKeys)
  {
    newLeaves, converged := UpdateFocus(tree, leaves, bucketSize, focusStart, focusEnd, mandatoryKeys, counts, macs,
                                        Identity(|tree.prefixes|), L);
    FocusKeysPresent(leaves, newLeaves, focusStart, focusEnd, mandatoryKeys, converged, L);
    newMacs, newLeafCounts, newCounts :=
      MeasureTree(tree, newLeaves, particleKeys, focusStart, focusEnd, guesses, near, inside, L);
  }

  lemma FocusKeysPresent(leaves: seq<nat>, newLeaves: seq<nat>, focusStart: nat, focusEnd: nat, mandatoryKeys: seq<nat>,
                         converged: bool, L: nat)
    requires IsUpdated(leaves, newLeaves, [focusStart, focusEnd] + mandatoryKeys, converged, L)
    ensures focusStart in newLeaves && focusEnd in newLeaves
  {
    var keys := [focusStart, focusEnd] + mandatoryKeys;
    assert keys[0] == focusStart && keys[1] == focusEnd;
  }

  /** The counts are those of the particles in each leaf and in each node. */
  ghost predicate AreAllCounts(t: View, leaves: seq<nat>, leafCounts: seq<nat>, counts: seq<nat>, keys: seq<nat>) {
    && AreCounts(leaves, leafCounts, keys, UNSIGNED_MAX)
    && |counts| == |t.prefixes|
    && forall i: nat :: i < |counts| ==> CountsParticles(t, counts, keys, i)
  }

  /** Marks and counts of a tree that has just been rebuilt. */
  method MeasureTree(tree: OctreeData, leaves: seq<nat>, particleKeys: seq<nat>, focusStart: nat, focusEnd: nat,
                     guesses: seq<nat>, near: (nat, nat, nat, nat) -> bool, inside: (nat, nat) -> bool, L: nat)
    returns (macs: seq<nat>, leafCounts: seq<nat>, counts: seq<nat>)
    requires tree.IsOctree(leaves, L)
    requires focusStart <= focusEnd && focusStart in leaves && focusEnd in leaves
    requires Sorted(particleKeys) && |particleKeys| < UNSIGNED_LIMIT
    ensures AncestorMonotone(View(tree.prefixes, tree.childOffsets, tree.parents, L), counts, macs)
    ensures var t := View(tree.prefixes, tree.childOffsets, tree.parents, L);
            AreMarks(t, CellMarking(t, FocusLeaves(leaves, focusStart, focusEnd), near, inside), macs)
    ensures AreAllCounts(View(tree.prefixes, tree.childOffsets, tree.parents, L), leaves, leafCounts, counts,
                         particleKeys)
  {
    LeafNodesOf(tree, leaves, L);
    var t := View(tree.prefixes, tree.childOffsets, tree.parents, L);
    macs := MarkFocus(t, leaves, focusStart, focusEnd, near, inside);
    leafCounts, counts := CountNodesAndLeaves(t, leaves, tree.leafToInternal[tree.numInternalNodes..], tree.levelRange,
                                              particleKeys, guesses);
    forall i: nat | 0 < i < |counts| ensures GrowsUpward(t, counts, macs, i) {
      assert macs[i] != 0 ==> IsMarked(macs, Parent(t.parents, i));
    }
  }

  lemma RootIsCornerstone(L: nat)
    ensures Cornerstone([0, Pow8(L)], L)
  {
    AlignedZero(L);
    CellHeight(0, L);
    var a: seq<nat> := [0, Pow8(L)];
    assert CellAt(a, 0);
  }

  /** The marking of the nodes for the leaves in the focus. */
  function FocusMarking(t: View, leaves: seq<nat>, focusStart: nat, focusEnd: nat, close: (nat, nat) -> bool,
                        inside: nat -> bool): (m: Marking)
    requires |leaves| > 0
  {
    Marking(t.prefixes, FocusLeaves(leaves, focusStart, focusEnd), false, t.L, close, inside)
  }

  /** The same with tests for cells, for the leaves f. */
  function CellMarking(t: View, f: seq<nat>, near: (nat, nat, nat, nat) -> bool, inside: (nat, nat) -> bool)
    : (m: Marking)
  {
    Marking(t.prefixes, f, false, t.L,
            (k: nat, i: nat) => k + 1 < |f| && near(f[k], f[k + 1], StartOf(t, i), EndOf(t, i)),
            (k: nat) => k + 1 < |f| && inside(f[k], f[k + 1]))
  }

  /** Exactly the nodes that some target in the focus opens are marked. */
  ghost predicate AreMarks(t: View, m: Marking, macs: seq<nat>) {
    && |macs| == |t.prefixes|
    && forall i: nat :: i < |macs| ==>
         (IsMarked(macs, i) <==> IsOpenedForAny(m, t.parents, i))
  }

  /** Marks of all nodes for the leaves in the focus. */
  method MarkFocus(t: View, leaves: seq<nat>, focusStart: nat, focusEnd: nat, near: (nat, nat, nat, nat) -> bool,
                   inside: (nat, nat) -> bool) returns (macs: seq<nat>)
    requires IsView(t, leaves) && focusStart <= focusEnd && focusStart in leaves && focusEnd in leaves
    ensures AreMarks(t, CellMarking(t, FocusLeaves(leaves, focusStart, focusEnd), near, inside), macs)
    ensures IsAncestorClosed(t.parents, macs)
  {
    var m := CellMarking(t, FocusLeaves(leaves, focusStart, focusEnd), near, inside);
    assert m.focusNodes != [] by {
      FocusLeavesAre(leaves, focusStart, focusEnd);
    }
    var markings := new nat[|t.prefixes|](_ => 0);
    var order := Identity(|m.focusNodes| - 1);
    ghost var before := markings[..];
    MarkMacs(m, t.childOffsets, t.parents, order, markings);
    macs := markings[..];
    MarksAreAncestorClosed(m, t.parents, before, macs);
  }

  /** Counts of the leaves, with the previous counts as guesses, and of all nodes. */
  method CountNodesAndLeaves(t: View, leaves: seq<nat>, nodes: seq<nat>, levelRange: seq<nat>, keys: seq<nat>,
                             guesses: seq<nat>)
    returns (leafCounts: seq<nat>, counts: seq<nat>)
    requires IsView(t, leaves) && LeavesAre(t, leaves, nodes) && LevelsDelimited(t.prefixes, levelRange, t.L)
    requires Sorted(keys) && |keys| < UNSIGNED_LIMIT
    ensures AreCounts(leaves, leafCounts, keys, UNSIGNED_MAX)
    ensures |counts| == |t.prefixes|
    ensures forall i: nat :: i < |counts| ==> CountsParticles(t, counts, keys, i)
    ensures forall i: nat :: 0 < i < |counts| ==> Parent(t.parents, i) < i && counts[i] <= counts[Parent(t.parents, i)]
  {
    var leafArray := new nat[|leaves| - 1](k => if 0 <= k < |guesses| then guesses[k] else 0);
    IdentityIsOrder(Identity(|leaves| - 1), |leaves| - 1);
    ComputeNodeCounts(leaves, leafArray, keys, UNSIGNED_MAX, true, t.L, Identity(|leaves| - 1));
    leafCounts := leafArray[..];
    var nodeArray := new nat[|t.prefixes|](_ => 0);
    LeafNodesDistinct(t, leaves, nodes);
    ScatterCounts(nodes, leafCounts, nodeArray);
    ghost var scattered := nodeArray[..];
    ScatteredAreCounts(t, leaves, nodes, leafCounts, scattered, keys);
    UpsweepCounts(t, levelRange, nodeArray, leaves);
    counts := nodeArray[..];
    forall i: nat | i < |counts| ensures CountsParticles(t, counts, keys, i) {
      WholeCurve(t, leaves, i);
      SweptCountsParticles(t, leaves, scattered, counts, keys, 0, Pow8(t.L), i);
    }
    forall i: nat | 0 < i < |counts|
      ensures Parent(t.parents, i) < i && counts[i] <= counts[Parent(t.parents, i)]
    {
      SweptCountsGrow(t, leaves, scattered, counts, i);
    }
  }

  lemma WholeCurve(t: View, leaves: seq<nat>, i: nat)
    requires IsView(t, leaves) && i < |t.prefixes|
    ensures IsWithin(t, i, 0, Pow8(t.L))
  {
    assert NodeFits(t, leaves, i);
    NodeEnds(leaves, StartOf(t, i), HeightOf(t, i), t.L);
  }

  lemma LeafNodesDistinct(t: View, leaves: seq<nat>, nodes: seq<nat>)
    requires IsView(t, leaves) && LeavesAre(t, leaves, nodes)
    ensures forall k: nat :: k < |nodes| ==> nodes[k] < |t.prefixes|
    ensures forall j: nat, k: nat :: j < k < |nodes| ==> nodes[j] != nodes[k]
  {
    forall k: nat | k < |nodes| ensures nodes[k] < |t.prefixes| {
      assert LeafIs(t, leaves, nodes, k);
    }
    forall j: nat, k: nat | j < k < |nodes| ensures nodes[j] != nodes[k] {
      assert LeafIs(t, leaves, nodes, j) && LeafIs(t, leaves, nodes, k);
    }
  }

  lemma ScatteredAreCounts(t: View, leaves: seq<nat>, nodes: seq<nat>, leafCounts: seq<nat>, counts: seq<nat>,
                           keys: seq<nat>)
    requires IsView(t, leaves) && LeavesAre(t, leaves, nodes) && |counts| == |t.prefixes|
    requires AreCounts(leaves, leafCounts, keys, UNSIGNED_MAX)
    requires forall k: nat :: k < |nodes| ==> nodes[k] < |counts| && counts[nodes[k]] == leafCounts[k]
    requires forall i: nat :: i < |counts| && i !in nodes ==> counts[i] == 0
    ensures forall i: nat :: i < |counts| && t.childOffsets[i] == 0 ==> CountsParticles(t, counts, keys, i)
    ensures forall i: nat :: i < |counts| ==> counts[i] <= UNSIGNED_MAX
  {
    forall i: nat | i < |counts| && t.childOffsets[i] == 0 ensures CountsParticles(t, counts, keys, i) {
      var k := LeafNumber(t, leaves, nodes, i);
      assert LeafIs(t, leaves, nodes, k);
    }
    forall i: nat | i < |counts| ensures counts[i] <= UNSIGNED_MAX {
      if i in nodes {
        var k: nat :| k < |nodes| && nodes[k] == i;
        assert leafCounts[k] == Min(CountIn(keys, leaves[k], leaves[k + 1]), UNSIGNED_MAX);
      }
    }
  }
}
