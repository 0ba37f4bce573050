/** Marks of another octree. A tree update goes wrong if a marked node has a parent that is neither marked nor near the
    focus: the leaves that remain are no octree. */
module StaleMarks {
  import opened Keys
  import opened CornerstoneArray
  import opened Rebalance
  import opened Traversal
  import opened OctreeView
  import opened FocusRebalance
  import opened FocusUpdate
  import opened Macs

  // ------------------------------------------------------------- two octrees with as many nodes

  /** An octree with 25 nodes: node `a` below the root, and node 9, which is the first below `a`, are subdivided. */
  function LinksOf(a: nat): (childOffsets: seq<nat>) {
    seq(25, i => if i == 0 then 1 else if i == a then 9 else if i == 9 then 17 else 0)
  }

  /** Node 0, node 1 and node 9 are marked. */
  function MarksOfFirst(): (macs: seq<nat>) {
    seq(25, i => if i == 0 || i == 1 || i == 9 then 1 else 0)
  }

  lemma LinksAreTree(a: nat)
    requires 1 <= a <= 8
    ensures TreeShape(LinksOf(a), [0, a, 9], 25)
  {
    var childOffsets, parents := LinksOf(a), [0, a, 9];
    forall i: nat | i < 25 ensures ChildrenKnowParent(childOffsets, parents, 25, i) {
    }
    forall i: nat | 0 < i < 25 ensures ParentKnowsChildren(childOffsets, parents, 25, i) {
    }
  }

  /** Marks that are closed under parents in one octree are not in another one with as many nodes. */
  lemma MarksOfAnotherOctree()
    ensures TreeShape(LinksOf(1), [0, 1, 9], 25) && IsAncestorClosed([0, 1, 9], MarksOfFirst())
    ensures TreeShape(LinksOf(8), [0, 8, 9], 25) && !IsAncestorClosed([0, 8, 9], MarksOfFirst())
  {
    LinksAreTree(1);
    LinksAreTree(8);
    var macs := MarksOfFirst();
    assert macs[9] != 0 && !IsMarked(macs, Parent([0, 8, 9], 9));
  }

  // ------------------------------------------------------------- what they do to an update

  ghost predicate AllPossible(t: View, ops: seq<nat>) {
    |ops| == |t.prefixes| <= |t.childOffsets| && |ops| > 0 && ops[0] != 0 &&
    forall i: nat :: i < |ops| ==> OpPossible(t, ops, i)
  }

  lemma {:induction false} ClosestIsBelow(parents: seq<nat>, ops: seq<nat>, a: nat, i: nat)
    requires i < |ops| && IsAncestor(parents, a, i) && ops[a] != 0
    ensures IsAncestor(parents, a, ClosestKept(parents, ops, i)) && ops[ClosestKept(parents, ops, i)] != 0
    decreases i
  {
    if i > 0 && ops[i] == 0 { ClosestIsBelow(parents, ops, a, Parent(parents, i)); }
  }

  /** The start of a node with an operation other than 0 is kept, whatever becomes of its ancestors. */
  lemma {:induction false} StartStays(t: View, leaves: seq<nat>, nodes: seq<nat>, ops: seq<nat>, a: nat, i: nat)
    requires IsView(t, leaves) && LeavesAre(t, leaves, nodes) && AllPossible(t, ops)
    requires forall k: nat :: k < |nodes| ==> nodes[k] < |ops|
    requires i < |ops| && IsAncestor(t.parents, a, i) && ops[a] != 0 && StartOf(t, a) == StartOf(t, i)
    ensures StartOf(t, a) in KeptKeys(leaves, LeafOps(t, ops, nodes))
    decreases |ops| - i
  {
    if t.childOffsets[i] == 0 {
      var k := LeafNumber(t, leaves, nodes, i);
      assert LeafIs(t, leaves, nodes, k);
      ClosestIsBelow(t.parents, ops, a, i);
      ClosestIsAncestor(t.parents, ops, i);
      BelowIsInside(t, leaves, a, ClosestKept(t.parents, ops, i));
      BelowIsInside(t, leaves, ClosestKept(t.parents, ops, i), i);
      assert LeafOps(t, ops, nodes)[k] != 0;
    } else {
      FirstChild(t, leaves, i);
      StartStays(t, leaves, nodes, ops, a, t.childOffsets[i]);
    }
  }

  /** A leaf with operation 0 that is not the first of its siblings is dropped. */
  lemma LaterLeafIsDropped(t: View, leaves: seq<nat>, nodes: seq<nat>, ops: seq<nat>, j: nat) returns (k: nat)
    requires IsView(t, leaves) && LeavesAre(t, leaves, nodes) && AllPossible(t, ops)
    requires forall k: nat :: k < |nodes| ==> nodes[k] < |ops|
    requires 0 < j < |ops| && (j - 1) % 8 != 0 && t.childOffsets[j] == 0 && ops[j] == 0
    ensures k < |nodes| && leaves[k] == StartOf(t, j) && LeafOps(t, ops, nodes)[k] == 0
  {
    k := LeafNumber(t, leaves, nodes, j);
    assert LeafIs(t, leaves, nodes, k) && ChildFits(t, j);
    var p := Parent(t.parents, j);
    ClosestIsAncestor(t.parents, ops, p);
    BelowIsInside(t, leaves, ClosestKept(t.parents, ops, p), p);
    assert NodeFits(t, leaves, p);
    ChildStarts(StartOf(t, p), HeightOf(t, p));
    assert ChildStart(StartOf(t, p), HeightOf(t, p), 0) < ChildStart(StartOf(t, p), HeightOf(t, p), (j - 1) % 8);
  }

  lemma LeafOpsFit(t: View, leaves: seq<nat>, nodes: seq<nat>, ops: seq<nat>)
    requires IsView(t, leaves) && LeavesAre(t, leaves, nodes) && AllPossible(t, ops)
    requires forall k: nat :: k < |nodes| ==> nodes[k] < |ops|
    ensures OpsFit(leaves, LeafOps(t, ops, nodes))
  {
    forall k: nat | k < |nodes| ensures FitsAt(leaves, LeafOps(t, ops, nodes), k) {
      LeafOpFits(t, leaves, nodes, ops, k);
    }
  }

  /** Below a node whose siblings are merged, a kept child leaves a gap: the new leaves are no octree. */
  lemma KeptBelowMergedBreaks(t: View, leaves: seq<nat>, nodes: seq<nat>, ops: seq<nat>, i: nat, j: nat)
    requires IsView(t, leaves) && LeavesAre(t, leaves, nodes) && AllPossible(t, ops)
    requires forall k: nat :: k < |nodes| ==> nodes[k] < |ops|
    requires 0 < i < |ops| && t.childOffsets[i] != 0 && t.childOffsets[i] + 1 < |ops| && ops[t.childOffsets[i] + 1] != 0
    requires 0 < j < |ops| && (j - 1) % 8 != 0 && t.childOffsets[j] == 0 && ops[j] == 0
    requires Parent(t.parents, j) == Parent(t.parents, i)
    ensures !Cornerstone(Rebalanced(leaves, LeafOps(t, ops, nodes)), t.L)
  {
    var leafOps, c, q := LeafOps(t, ops, nodes), t.childOffsets[i] + 1, Parent(t.parents, i);
    var next := Rebalanced(leaves, leafOps);
    LeafOpsFit(t, leaves, nodes, ops);
    StartStays(t, leaves, nodes, ops, c, c);
    KeptKeysRemain(leaves, leafOps, StartOf(t, c));
    var k := LaterLeafIsDropped(t, leaves, nodes, ops, j);
    DroppedKeyIsGone(leaves, leafOps, k, t.L);
    if Cornerstone(next, t.L) { CousinsComeTogether(t, leaves, next, i, j); }
  }

  /** An octree in which a node is subdivided has all its siblings. */
  lemma CousinsComeTogether(t: View, leaves: seq<nat>, next: seq<nat>, i: nat, j: nat)
    requires IsView(t, leaves) && 0 < i < |t.prefixes| && t.childOffsets[i] != 0 && 0 < j < |t.prefixes|
    requires Parent(t.parents, j) == Parent(t.parents, i)
    requires Cornerstone(next, t.L) && StartOf(t, t.childOffsets[i] + 1) in next
    ensures StartOf(t, j) in next
  {
    var c, q := t.childOffsets[i] + 1, Parent(t.parents, i);
    InsideGrandparent(t, leaves, i);
    ArrayToSet(next, t.L);
    assert StartOf(t, c) in KeySet(next);
    assert ChildrenIn(KeySet(next), StartOf(t, q), HeightOf(t, q));
    assert ChildFits(t, j);
    assert ChildStart(StartOf(t, q), HeightOf(t, q), (j - 1) % 8) in KeySet(next);
  }

  /** The second child of a node starts strictly inside the parent of the node. */
  lemma InsideGrandparent(t: View, leaves: seq<nat>, i: nat)
    requires IsView(t, leaves) && 0 < i < |t.prefixes| && t.childOffsets[i] != 0
    ensures t.childOffsets[i] + 8 <= |t.prefixes|
    ensures var q, key := Parent(t.parents, i), StartOf(t, t.childOffsets[i] + 1);
            1 <= HeightOf(t, q) <= t.L && Floor(key, HeightOf(t, q)) == StartOf(t, q) != key
  {
    var c, q := t.childOffsets[i] + 1, Parent(t.parents, i);
    ChildFacts(t.childOffsets, t.parents, |t.prefixes|, i, 1);
    ParentCell(t, leaves, i);
    ParentCell(t, leaves, c);
    assert ChildFits(t, c) && NodeFits(t, leaves, i) && NodeFits(t, leaves, q);
    ChildStarts(StartOf(t, i), HeightOf(t, i));
    assert ChildStart(StartOf(t, i), HeightOf(t, i), 0) < ChildStart(StartOf(t, i), HeightOf(t, i), 1);
    FloorUnique(StartOf(t, c), StartOf(t, q), HeightOf(t, q));
  }

  /** A node with children to keep, because it is marked and has enough particles, next to a leaf that is merged,
      because their parent is not marked: after the update the leaves are no octree. */
  lemma UnmarkedParentBreaks(t: View, leaves: seq<nat>, nodes: seq<nat>, counts: seq<nat>, macs: seq<nat>,
                             focusStart: nat, focusEnd: nat, bucketSize: nat, ops: seq<nat>, i: nat, j: nat)
    requires IsView(t, leaves) && LeavesAre(t, leaves, nodes) && |t.prefixes| == |counts| == |macs|
    requires AllPossible(t, ops) && IsRaised(Decisions(t, counts, macs, focusStart, focusEnd, bucketSize), ops)
    requires forall k: nat :: k < |nodes| ==> nodes[k] < |ops|
    requires 0 < i < |ops| && t.childOffsets[i] != 0 && counts[i] > bucketSize && macs[i] != 0
    requires 0 < j < |ops| && (j - 1) % 8 != 0 && t.childOffsets[j] == 0 && ops[j] == 0
    requires Parent(t.parents, j) == Parent(t.parents, i)
    ensures !Cornerstone(Rebalanced(leaves, LeafOps(t, ops, nodes)), t.L)
  {
    var before, c := Decisions(t, counts, macs, focusStart, focusEnd, bucketSize), t.childOffsets[i] + 1;
    ChildFacts(t.childOffsets, t.parents, |t.prefixes|, i, 1);
    assert IsDense(t, counts, macs, focusStart, focusEnd, bucketSize, i);
    KeptIffParentDense(t, leaves, counts, macs, focusStart, focusEnd, bucketSize, c);
    assert before[c] <= ops[c];
    KeptBelowMergedBreaks(t, leaves, nodes, ops, i, j);
  }

  /** So it is in the second of the two octrees, with the marks of the first one and a focus in front of node 8. */
  lemma AccumulatedMarksBreakOctree(t: View, leaves: seq<nat>, nodes: seq<nat>, counts: seq<nat>, focusStart: nat,
                                    focusEnd: nat, bucketSize: nat)
    requires IsView(t, leaves) && LeavesAre(t, leaves, nodes) && |t.prefixes| == |counts| == 25
    requires t.childOffsets[..25] == LinksOf(8) && t.parents == [0, 8, 9]
    requires counts[9] > bucketSize && focusEnd <= StartOf(t, 8)
    ensures forall k: nat :: k < |nodes| ==> nodes[k] < 25
    ensures var ops := Decisions(t, counts, MarksOfFirst(), focusStart, focusEnd, bucketSize);
            !Cornerstone(Rebalanced(leaves, LeafOps(t, ops, nodes)), t.L)
  {
    var macs := MarksOfFirst();
    var ops := Decisions(t, counts, macs, focusStart, focusEnd, bucketSize);
    assert AllPossible(t, ops);
    forall k: nat | k < |nodes| ensures nodes[k] < 25 { assert LeafIs(t, leaves, nodes, k); }
    assert t.childOffsets[9] == t.childOffsets[..25][9] == 17 && t.childOffsets[10] == t.childOffsets[..25][10] == 0;
    KeptIffParentDense(t, leaves, counts, macs, focusStart, focusEnd, bucketSize, 10);
    UnmarkedParentBreaks(t, leaves, nodes, counts, macs, focusStart, focusEnd, bucketSize, ops, 9, 10);
  }
}
