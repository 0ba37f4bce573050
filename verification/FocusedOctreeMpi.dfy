/** The focused octree of one rank among many, as a class with its calls in any order: a tree update is possible only
    after counts and marks have been renewed, and then it has what it relies on. */
module FocusedOctreeMpi {
  import opened Keys
  import opened CornerstoneArray
  import opened Counts
  import opened ComputeOctree
  import opened BuildOctree
  import opened Traversal
  import opened OctreeView
  import opened FocusRebalance
  import opened FocusUpdate
  import opened Macs
  import opened Upsweep
  import opened Treelets
  import opened TreeletAgreement
  import opened ExactCounts
  import opened UpdateCounts
  import opened CountAgreement
  import opened FocusOctrees
  import opened FocusConvergence
  import opened FocusSteps
  import SingleNode = FocusedOctree

  /** Which criteria have been renewed since the last update of the tree: the bits of `rebalanceStatus_`. */
  datatype Status = Status(counts: bool, macs: bool)

  const INVALID := Status(false, false)
  const VALID := Status(true, true)

  /** The error is thrown when a criterion is out of date. */
  datatype Outcome = Updated(converged: bool) | CriteriaRequired

  datatype Marked = Done | WrongSize

  ghost predicate CountsGrow(t: View, counts: seq<nat>) {
    |counts| == |t.prefixes| && forall i: nat :: 0 < i < |counts| ==> IsBelowParent(t, counts, i)
  }

  ghost predicate IsBelowParent(t: View, counts: seq<nat>, i: nat)
    requires i < |counts|
  {
    Parent(t.parents, i) < i && counts[i] <= counts[Parent(t.parents, i)]
  }

  ghost predicate MarksGrow(t: View, macs: seq<nat>) {
    |macs| == |t.prefixes| && IsAncestorClosed(t.parents, macs)
  }

  lemma BothGrow(t: View, counts: seq<nat>, macs: seq<nat>)
    requires CountsGrow(t, counts) && MarksGrow(t, macs)
    ensures AncestorMonotone(t, counts, macs)
  {
    forall i: nat | 0 < i < |counts| ensures GrowsUpward(t, counts, macs, i) {
      assert IsBelowParent(t, counts, i);
      assert macs[i] != 0 ==> IsMarked(macs, Parent(t.parents, i));
    }
  }

  /** Exact counts grow towards the root. */
  lemma ExactCountsGrow(t: View, leaves: seq<nat>, counts: seq<nat>, all: seq<nat>)
    requires IsView(t, leaves) && |counts| == |t.prefixes|
    requires forall i: nat :: i < |counts| ==> CountsParticles(t, counts, all, i)
    ensures CountsGrow(t, counts)
  {
    forall i: nat | 0 < i < |counts| ensures IsBelowParent(t, counts, i) {
      ParentCell(t, leaves, i);
      var p := Parent(t.parents, i);
      CountMonotone(all, StartOf(t, i), EndOf(t, i), StartOf(t, p), EndOf(t, p));
      assert CountsParticles(t, counts, all, i) && CountsParticles(t, counts, all, p);
    }
  }

  class FocusedOctree {
    const myRank: nat
    const bucketSize: nat
    const L: nat
    const tree: OctreeData
    var leaves: seq<nat>
    var leafCounts: seq<nat>
    var counts: seq<nat>
    var macs: seq<nat>
    var rebalanceStatus: Status

    function TreeView(): (t: View)
      reads tree
    {
      View(tree.prefixes, tree.childOffsets, tree.parents, L)
    }

    /** The linked octree is that of the leaves; what the status calls renewed is there for every node, and counts
        grow towards the root. */
    ghost predicate Valid()
      reads this, tree
    {
      && 3 * L < UNSIGNED_LIMIT && tree.IsOctree(leaves, L)
      && (rebalanceStatus.counts ==> CountsGrow(TreeView(), counts))
      && (rebalanceStatus.macs ==> |macs| == |TreeView().prefixes|)
    }

    constructor (myRank: nat, bucketSize: nat, L: nat)
      requires 3 * L < UNSIGNED_LIMIT
      ensures Valid() && fresh(tree) && this.myRank == myRank && this.bucketSize == bucketSize && this.L == L
      ensures leaves == [0, Pow8(L)] && counts == [(bucketSize + 1) % UNSIGNED_LIMIT] && macs == [1]
      ensures rebalanceStatus == VALID && MarksGrow(TreeView(), macs)
    {
      this.myRank, this.bucketSize, this.L := myRank, bucketSize, L;
      tree := new OctreeData();
      leaves := [0, Pow8(L)];
      leafCounts := [(bucketSize + 1) % UNSIGNED_LIMIT];
      counts := [(bucketSize + 1) % UNSIGNED_LIMIT];
      macs := [1];
      rebalanceStatus := VALID;
      new;
      SingleNode.RootIsCornerstone(L);
      tree.UpdateInternalTree(leaves, L);
    }

    /** A setting for updates with this focus and these keys. */
    ghost predicate IsSetting(x: Setting, focusStart: nat, focusEnd: nat, enforcedKeys: seq<nat>) {
      x.start == focusStart && x.end == focusEnd && x.mandatory == enforcedKeys && x.bucketSize == bucketSize &&
      x.L == L
    }

    /** `updateTree` up to the exchange of treelets. It relies on marks that grow towards the root, which the program
        does not check. If counts are those of the particles of a setting, exactly the nodes that are full or have a
        key inside are subdivided afterwards; if marks are too, the update settles exactly in its octree. The first
        update of a new octree splits the root. */
    method UpdateTree(focusStart: nat, focusEnd: nat, enforcedKeys: seq<nat>, ghost x: Setting) returns (r: Outcome)
      requires Valid() && focusStart <= focusEnd <= Pow8(L)
      requires forall k: nat :: k < |enforcedKeys| ==> enforcedKeys[k] <= Pow8(L)
      requires rebalanceStatus == VALID ==> MarksGrow(TreeView(), macs)
      requires IsSetting(x, focusStart, focusEnd, enforcedKeys)
      modifies this, tree
      ensures Valid()
      ensures old(rebalanceStatus) != VALID ==> r == CriteriaRequired && unchanged(this) && unchanged(tree)
      ensures old(rebalanceStatus) == VALID ==>
        r.Updated? && rebalanceStatus == INVALID &&
        IsUpdated(old(leaves), leaves, [focusStart, focusEnd] + enforcedKeys, r.converged, L)
      ensures old(rebalanceStatus) == VALID ==>
        IsStepOf(old(TreeView()), old(leaves), old(tree.leafToInternal), old(counts), old(macs), x, leaves)
      ensures old(rebalanceStatus) == VALID ==>
        (HasExactCounts(old(TreeView()), old(leaves), old(counts), old(macs), x) ==>
          IsNext(old(TreeView()), old(leaves), old(macs), x, leaves))
      ensures old(rebalanceStatus) == VALID && ThresholdsHold(bucketSize) ==>
        (IsAccurate(old(TreeView()), old(leaves), old(counts), old(macs), x) ==>
          (r.converged <==> IsFocusOctreeOf(old(leaves), x)))
      ensures old(rebalanceStatus) == VALID && ThresholdsHold(bucketSize) && L > 0 ==>
        (IsNewState(old(leaves), old(counts), old(macs), x) ==> !r.converged && IsCut(leaves, 0, L))
    {
      if rebalanceStatus != VALID { return CriteriaRequired; }
      var newLeaves, converged := UpdateFor(tree, leaves, bucketSize, focusStart, focusEnd, enforcedKeys, counts, macs,
                                            L, x);
      leaves, rebalanceStatus := newLeaves, INVALID;
      r := Updated(converged);
    }

    /** `updateTree` from the exchange of treelets on: remove what the peers reject. */
    method SyncTree(messages: seq<seq<nat>>, ghost w: World, ghost order: seq<nat>)
      requires Valid() && rebalanceStatus == INVALID && WorldIsReady(w) && myRank < |w.leaves|
      requires w.leaves[myRank] == leaves && w.L == L && IsDelivery(w, myRank, order, messages)
      modifies this`leaves, tree
      ensures Valid() && KeySet(leaves) == Survivors(w, myRank)
    {
      leaves := SyncLeaves(leaves, messages, L, w, myRank, order);
      tree.UpdateInternalTree(leaves, L);
    }

    /** `updateCounts`: the two sweeps and the counts of the peers. */
    method UpdateCounts(bounds: seq<nat>, peers: seq<nat>, localKeys: seq<nat>, globalTree: seq<nat>,
                        globalCounts: seq<nat>, messages: seq<Message>, ghost order: seq<nat>, ghost all: seq<nat>)
      requires Valid() && AreBounds(bounds, L) && AreDistinct(peers + [myRank]) && myRank + 1 < |bounds|
      requires Counts.Sorted(localKeys) && |localKeys| < UNSIGNED_LIMIT
      requires IsLocal(all, localKeys, bounds[myRank], bounds[myRank + 1])
      requires Ascending(globalTree) && AreCounts(globalTree, globalCounts, all, UNSIGNED_MAX)
      requires forall k: nat :: k + 1 < |leaves| && !IsExchanged(leaves, bounds, peers + [myRank], k) ==>
                 IsGlobalLeaf(globalTree, leaves, k)
      requires AreDelivered(leaves, bounds, peers, order, messages, all)
      modifies this`leafCounts, this`counts, this`rebalanceStatus
      ensures Valid() && rebalanceStatus == old(rebalanceStatus).(counts := true)
      ensures AreCounts(leaves, leafCounts, all, UNSIGNED_MAX) && |counts| == |TreeView().prefixes|
      ensures forall i: nat :: i < |counts| ==> CountsParticles(TreeView(), counts, all, i)
    {
      LeafNodesOf(tree, leaves, L);
      var t := RankTree(TreeView(), tree.leafToInternal[tree.numInternalNodes..], tree.levelRange);
      OctreeIsTreeOf(tree, leaves, L);
      var swept := CountAgreement.SweepOne(t, leaves, bounds, peers, myRank, localKeys, globalTree, globalCounts,
                                           leafCounts, L, all);
      var nodeCounts, ofLeaves := FinishOne(t, leaves, bounds, peers, myRank, messages, swept, order, L, all);
      ExactCountsGrow(TreeView(), leaves, nodeCounts, all);
      leafCounts, counts, rebalanceStatus := ofLeaves, nodeCounts, rebalanceStatus.(counts := true);
    }

    /** `updateMacs`: mark the nodes that are close to the focus. New marks grow towards the root; accumulated marks
        do so exactly if every earlier mark gets a marked parent. */
    method UpdateMacs(focusStart: nat, focusEnd: nat, close: (nat, nat) -> bool, inside: nat -> bool, accumulate: bool)
      returns (r: Marked)
      requires Valid() && focusStart <= focusEnd && focusStart in leaves && focusEnd in leaves
      modifies this`macs, this`rebalanceStatus
      ensures Valid()
      ensures r == WrongSize <==> accumulate && old(|macs|) != |tree.prefixes|
      ensures r == WrongSize ==> unchanged(this)
      ensures r == Done ==> rebalanceStatus == old(rebalanceStatus).(macs := true) && |macs| == |tree.prefixes|
      ensures r == Done ==> AreMarked(TreeView(), leaves, focusStart, focusEnd, close, inside,
                                      if accumulate then old(macs) else seq(|macs|, _ => 0), macs)
      ensures r == Done && !accumulate ==> MarksGrow(TreeView(), macs)
      ensures r == Done && accumulate ==>
        |leaves| > 0 &&
        var m := SingleNode.FocusMarking(TreeView(), leaves, focusStart, focusEnd, close, inside);
        MarksGrow(TreeView(), macs) <==>
          forall i: nat :: i < |old(macs)| && old(macs)[i] != 0 ==> HasMarkedParent(m, tree.parents, old(macs), i)
    {
      if accumulate && |macs| != |tree.prefixes| { return WrongSize; }
      LeafNodesOf(tree, leaves, L);
      var before := if accumulate then macs else seq(|tree.prefixes|, _ => 0);
      var marks := AddMarks(TreeView(), leaves, focusStart, focusEnd, close, inside, before);
      MarksAreClosedIff(SingleNode.FocusMarking(TreeView(), leaves, focusStart, focusEnd, close, inside), tree.parents,
                        before, marks);
      macs, rebalanceStatus := marks, rebalanceStatus.(macs := true);
      r := Done;
    }
  }

  /** Exactly the nodes that some leaf in the focus opens are marked in addition. */
  ghost predicate AreMarked(t: View, leaves: seq<nat>, focusStart: nat, focusEnd: nat, close: (nat, nat) -> bool,
                            inside: nat -> bool, before: seq<nat>, macs: seq<nat>)
  {
    && |leaves| > 0
    && AddsMarks(SingleNode.FocusMarking(t, leaves, focusStart, focusEnd, close, inside), t.parents, before, macs)
  }

  /** Marks in addition to those that are there. */
  method AddMarks(t: View, leaves: seq<nat>, focusStart: nat, focusEnd: nat, close: (nat, nat) -> bool,
                  inside: nat -> bool, before: seq<nat>)
    returns (macs: seq<nat>)
    requires IsView(t, leaves) && focusStart <= focusEnd && focusStart in leaves && focusEnd in leaves
    requires |before| == |t.prefixes|
    ensures |macs| == |t.prefixes| && AreMarked(t, leaves, focusStart, focusEnd, close, inside, before, macs)
  {
    var m := SingleNode.FocusMarking(t, leaves, focusStart, focusEnd, close, inside);
    assert m.focusNodes != [] by {
      FocusLeavesAre(leaves, focusStart, focusEnd);
    }
    var markings := new nat[|before|](i requires 0 <= i < |before| => before[i]);
    assert markings[..] == before;
    MarkMacs(m, t.childOffsets, t.parents, Identity(|m.focusNodes| - 1), markings);
    macs := markings[..];
  }

  /** The update and what it means for a setting. */
  method UpdateFor(tree: OctreeData, leaves: seq<nat>, bucketSize: nat, focusStart: nat, focusEnd: nat,
                   enforcedKeys: seq<nat>, counts: seq<nat>, macs: seq<nat>, L: nat, ghost x: Setting)
    returns (newLeaves: seq<nat>, converged: bool)
    requires tree.IsOctree(leaves, L) && 3 * L < UNSIGNED_LIMIT && focusStart <= focusEnd <= Pow8(L)
    requires var t := View(tree.prefixes, tree.childOffsets, tree.parents, L);
             CountsGrow(t, counts) && MarksGrow(t, macs)
    requires forall k: nat :: k < |enforcedKeys| ==> enforcedKeys[k] <= Pow8(L)
    requires x.start == focusStart && x.end == focusEnd && x.mandatory == enforcedKeys && x.bucketSize == bucketSize
    requires x.L == L
    modifies tree
    ensures tree.IsOctree(newLeaves, L)
    ensures IsUpdated(leaves, newLeaves, [focusStart, focusEnd] + enforcedKeys, converged, L)
    ensures var t := old(View(tree.prefixes, tree.childOffsets, tree.parents, L));
            && IsStepOf(t, leaves, old(tree.leafToInternal), counts, macs, x, newLeaves)
            && IsUpdateFor(t, leaves, counts, macs, x, newLeaves)
  {
    ghost var t := View(tree.prefixes, tree.childOffsets, tree.parents, L);
    BothGrow(t, counts, macs);
    LeafNodesOf(tree, leaves, L);
    ghost var leafToInternal := tree.leafToInternal;
    ghost var nodes := leafToInternal[tree.numInternalNodes..];
    assert IsStart(t, leaves, leafToInternal, nodes, counts, macs, x);
    newLeaves, converged := UpdateFocus(tree, leaves, bucketSize, focusStart, focusEnd, enforcedKeys, counts, macs,
                                        Identity(|tree.prefixes|), L);
    UpdateMeansFor(t, leaves, leafToInternal, nodes, counts, macs, x, newLeaves);
  }

  /** What `UpdateCounts` and `UpdateMacs` leave behind is accurate, if the tests for marks are those of the setting and
      no earlier marks are kept. */
  lemma MeasuredIsAccurate(t: View, leaves: seq<nat>, counts: seq<nat>, macs: seq<nat>, x: Setting)
    requires IsView(t, leaves) && t.L == x.L && x.start <= x.end && KeysInCurve(x) && |x.particles| < UNSIGNED_LIMIT
    requires CountsGrow(t, counts) && MarksGrow(t, macs)
    requires forall i: nat :: i < |counts| ==> CountsParticles(t, counts, x.particles, i)
    requires var m := MarkingOf(t, x, FocusLeaves(leaves, x.start, x.end));
             AreMarked(t, leaves, x.start, x.end, m.close, m.inside, seq(|macs|, _ => 0), macs)
    ensures IsAccurate(t, leaves, counts, macs, x)
  {
    var f := FocusLeaves(leaves, x.start, x.end);
    var m := MarkingOf(t, x, f);
    BothGrow(t, counts, macs);
    assert m == SingleNode.FocusMarking(t, leaves, x.start, x.end, m.close, m.inside);
    forall i: nat | i < |macs| ensures IsMarked(macs, i) <==> IsOpenedForAny(m, t.parents, i) {
    }
    MarksAreCells(t, leaves, x, f, macs);
  }
}
