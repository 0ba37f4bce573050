/** One update of a focused octree: decide, enforce mandatory keys, protect, rebalance, inject. */
module FocusUpdate {
  import opened Keys
  import opened CornerstoneArray
  import opened Counts
  import opened ComputeOctree
  import opened Rebalance
  import opened OctreeLinks
  import opened LinkedOctree
  import opened BuildOctree
  import opened Traversal
  import opened OctreeView
  import opened FocusRebalance
  import opened ProtectAncestors
  import opened Span
  import LeafUpdate

  // ------------------------------------------------------------- leaves among the nodes

  /** Node number `nodes[k]` is leaf k. */
  ghost predicate LeafIs(t: View, leaves: seq<nat>, nodes: seq<nat>, k: nat)
    requires |nodes| + 1 == |leaves| && k < |nodes|
  {
    var i := nodes[k];
    && i < |t.prefixes| && i < |t.childOffsets| && t.childOffsets[i] == 0
    && StartOf(t, i) == leaves[k] && EndOf(t, i) == leaves[k + 1] && HeightOf(t, i) == LeafHeight(leaves, k)
  }

  ghost predicate LeavesAre(t: View, leaves: seq<nat>, nodes: seq<nat>) {
    |nodes| + 1 == |leaves| && forall k: nat :: k < |nodes| ==> LeafIs(t, leaves, nodes, k)
  }

  lemma UncutIsLeaf(leaves: seq<nat>, s: nat, h: nat, L: nat) returns (k: nat)
    requires Cornerstone(leaves, L) && NodeIn(leaves, s, h, L) && !IsCut(leaves, s, h)
    ensures k + 1 < |leaves| && leaves[k] == s && leaves[k + 1] == s + Pow8(h) && LeafHeight(leaves, k) == h
  {
    k :| k < |leaves| && leaves[k] == s;
    UncutEndsAtNext(leaves, k, h);
    Log8OfPow8(h);
  }

  /** Every node without children is the leaf that starts at its key. */
  lemma LeafNumber(t: View, leaves: seq<nat>, nodes: seq<nat>, i: nat) returns (k: nat)
    requires IsView(t, leaves) && LeavesAre(t, leaves, nodes) && i < |t.prefixes| && t.childOffsets[i] == 0
    ensures k < |nodes| && nodes[k] == i
  {
    assert NodeFits(t, leaves, i);
    k := UncutIsLeaf(leaves, StartOf(t, i), HeightOf(t, i), t.L);
    assert LeafIs(t, leaves, nodes, k);
    SameCell(t, leaves, i, nodes[k]);
  }

  /** The operations of the leaves. */
  ghost function LeafOps(t: View, ops: seq<nat>, nodes: seq<nat>): (r: seq<nat>)
    requires forall k: nat :: k < |nodes| ==> nodes[k] < |ops|
    ensures |r| == |nodes|
  {
    seq(|nodes|, k requires 0 <= k < |nodes| => ProtectedOp(t, ops, nodes[k]))
  }

  /** Everything that is known when the operations are final. */
  ghost predicate IsDecided(t: View, leaves: seq<nat>, nodes: seq<nat>, ops: seq<nat>) {
    IsView(t, leaves) && LeavesAre(t, leaves, nodes) && OpsInvariant(t, ops)
    && forall k: nat :: k < |nodes| ==> nodes[k] < |ops|
  }

  // ------------------------------------------------------------- which keys are kept

  lemma {:induction false} KeptAncestors(t: View, ops: seq<nat>, a: nat, i: nat)
    requires OpsInvariant(t, ops) && i < |ops| && ops[i] != 0 && IsAncestor(t.parents, a, i)
    ensures a < |ops| && ops[a] != 0
    decreases i
  {
    if i != a {
      assert KeptWithGroup(t, ops, i);
      KeptAncestors(t, ops, a, Parent(t.parents, i));
    }
  }

  lemma FirstChild(t: View, leaves: seq<nat>, i: nat)
    requires IsView(t, leaves) && i < |t.prefixes| && t.childOffsets[i] != 0
    ensures i < t.childOffsets[i] < |t.prefixes| && Parent(t.parents, t.childOffsets[i]) == i
    ensures StartOf(t, t.childOffsets[i]) == StartOf(t, i)
  {
    ChildFacts(t.childOffsets, t.parents, |t.prefixes|, i, 0);
    assert ChildFits(t, t.childOffsets[i]);
  }

  /** The first leaf of a node takes over its operation, whether it is kept or not. */
  lemma {:induction false} FirstLeaf(t: View, leaves: seq<nat>, nodes: seq<nat>, ops: seq<nat>, i: nat) returns (k: nat)
    requires IsDecided(t, leaves, nodes, ops) && i < |ops|
    ensures k < |nodes| && leaves[k] == StartOf(t, i)
    ensures ProtectedOp(t, ops, i) != 0 <==> LeafOps(t, ops, nodes)[k] != 0
    decreases |ops| - i
  {
    if t.childOffsets[i] == 0 {
      k := LeafNumber(t, leaves, nodes, i);
      assert LeafIs(t, leaves, nodes, k);
    } else {
      FirstChild(t, leaves, i);
      var c := t.childOffsets[i];
      k := FirstLeaf(t, leaves, nodes, ops, c);
      FirstChildOp(t, ops, i, c);
    }
  }

  lemma FirstChildOp(t: View, ops: seq<nat>, i: nat, c: nat)
    requires OpsInvariant(t, ops) && i < c < |ops| && Parent(t.parents, c) == i && StartOf(t, c) == StartOf(t, i)
    ensures ProtectedOp(t, ops, i) != 0 <==> ProtectedOp(t, ops, c) != 0
  {
    assert KeptWithGroup(t, ops, c);
    KeptOpIsNotZero(t.parents, ops, i);
    KeptOpIsNotZero(t.parents, ops, c);
  }

  /** The start of a kept node is kept. */
  lemma StartIsKept(t: View, leaves: seq<nat>, nodes: seq<nat>, ops: seq<nat>, i: nat)
    requires IsDecided(t, leaves, nodes, ops) && i < |ops| && ops[i] != 0
    ensures StartOf(t, i) in KeptKeys(leaves, LeafOps(t, ops, nodes))
  {
    var k := FirstLeaf(t, leaves, nodes, ops, i);
    assert ProtectedOp(t, ops, i) == ops[i];
  }

  /** The end of a kept node is kept. */
  lemma {:induction false} EndIsKept(t: View, leaves: seq<nat>, nodes: seq<nat>, ops: seq<nat>, i: nat)
    requires IsDecided(t, leaves, nodes, ops) && i < |ops| && ops[i] != 0
    ensures EndOf(t, i) in KeptKeys(leaves, LeafOps(t, ops, nodes))
    decreases i
  {
    if i > 0 {
      assert KeptWithGroup(t, ops, i);
      ChildEnds(t, leaves, i);
      ParentFacts(t.childOffsets, t.parents, |ops|, i);
      if (i - 1) % 8 < 7 {
        NextIsSibling(t, leaves, i);
        assert ops[i + 1] != 0;
        StartIsKept(t, leaves, nodes, ops, i + 1);
      } else {
        EndIsKept(t, leaves, nodes, ops, Parent(t.parents, i));
      }
    }
  }

  lemma NextIsSibling(t: View, leaves: seq<nat>, i: nat)
    requires IsView(t, leaves) && 0 < i < |t.prefixes| && (i - 1) % 8 < 7
    ensures i + 1 < t.childOffsets[Parent(t.parents, i)] + 8 <= |t.prefixes|
    ensures StartOf(t, i + 1) == EndOf(t, i)
  {
    var p, d := Parent(t.parents, i), (i - 1) % 8;
    ParentFacts(t.childOffsets, t.parents, |t.prefixes|, i);
    ChildFacts(t.childOffsets, t.parents, |t.prefixes|, p, d + 1);
    assert t.childOffsets[p] + (d + 1) == i + 1;
    ChildEnds(t, leaves, i);
    assert ChildFits(t, i + 1);
  }

  /** Kept leaves start where a kept node starts. */
  lemma KeptKeyIsStart(t: View, leaves: seq<nat>, nodes: seq<nat>, ops: seq<nat>, key: nat) returns (i: nat)
    requires IsDecided(t, leaves, nodes, ops) && key in KeptKeys(leaves, LeafOps(t, ops, nodes))
    ensures key != Pow8(t.L) ==> i < |ops| && ops[i] != 0 && StartOf(t, i) == key
    ensures key in leaves && key <= Pow8(t.L)
  {
    var leafOps := LeafOps(t, ops, nodes);
    var k: nat :| k <= |leafOps| && leaves[k] == key && (k == |leafOps| || leafOps[k] != 0);
    i := 0;
    assert leaves[k] <= leaves[|leaves| - 1];
    if k < |leafOps| {
      assert LeafIs(t, leaves, nodes, k);
      i := ClosestKept(t.parents, ops, nodes[k]);
      KeptOpIsNotZero(t.parents, ops, nodes[k]);
    }
  }

  /** A cell with a kept key strictly inside is a node that has kept children. */
  lemma KeptInside(t: View, leaves: seq<nat>, nodes: seq<nat>, ops: seq<nat>, key: nat, h: nat) returns (v: nat, d: nat)
    requires IsDecided(t, leaves, nodes, ops) && key in KeptKeys(leaves, LeafOps(t, ops, nodes))
    requires 1 <= h <= t.L && Floor(key, h) != key
    ensures v < |t.prefixes| && t.childOffsets[v] != 0 && StartOf(t, v) == Floor(key, h) && HeightOf(t, v) == h
    ensures d < 8 && t.childOffsets[v] + d < |ops| && ops[t.childOffsets[v] + d] != 0
  {
    var i := KeptKeyIsStart(t, leaves, nodes, ops, key);
    if key == Pow8(t.L) {
      AlignedPow8(h, t.L);
      FloorBounds(key, h);
    }
    v := CutCellIsInternal(t, leaves, key, h);
    StrictlyInsideIsBelow(t, leaves, v, i);
    d := ThroughOneChild(t.childOffsets, t.parents, |t.prefixes|, v, i);
    KeptAncestors(t, ops, t.childOffsets[v] + d, i);
  }

  /** The keys that are kept form an octree. */
  lemma KeptKeysAreOctree(t: View, leaves: seq<nat>, nodes: seq<nat>, ops: seq<nat>)
    requires IsDecided(t, leaves, nodes, ops)
    ensures CornerstoneSet(KeptKeys(leaves, LeafOps(t, ops, nodes)), t.L)
  {
    var K := KeptKeys(leaves, LeafOps(t, ops, nodes));
    StartIsKept(t, leaves, nodes, ops, 0);
    EndIsKept(t, leaves, nodes, ops, 0);
    forall key: nat | key in K ensures key <= Pow8(t.L) {
      var i := KeptKeyIsStart(t, leaves, nodes, ops, key);
    }
    forall key: nat, h: nat | key in K && 1 <= h <= t.L && Floor(key, h) != key
      ensures ChildrenIn(K, Floor(key, h), h)
    {
      var v, d := KeptInside(t, leaves, nodes, ops, key, h);
      KeptChildren(t, leaves, nodes, ops, v, d);
    }
  }

  /** If one child of a node is kept, all its child boundaries are. */
  lemma KeptChildren(t: View, leaves: seq<nat>, nodes: seq<nat>, ops: seq<nat>, v: nat, d: nat)
    requires IsDecided(t, leaves, nodes, ops) && v < |ops| && t.childOffsets[v] != 0 && d < 8
    requires t.childOffsets[v] + d < |ops| && ops[t.childOffsets[v] + d] != 0
    ensures HeightOf(t, v) >= 1
    ensures ChildrenIn(KeptKeys(leaves, LeafOps(t, ops, nodes)), StartOf(t, v), HeightOf(t, v))
  {
    var K, s, h, c := KeptKeys(leaves, LeafOps(t, ops, nodes)), StartOf(t, v), HeightOf(t, v), t.childOffsets[v];
    ChildFacts(t.childOffsets, t.parents, |ops|, v, d);
    assert GroupKept(t, ops, c + d) by { assert KeptWithGroup(t, ops, c + d); }
    ChildBoundary(t, leaves, v, 0);
    forall j: nat | j <= 8 ensures ChildStart(s, h, j) in K {
      ChildBoundary(t, leaves, v, j);
      if j < 8 {
        StartIsKept(t, leaves, nodes, ops, c + j);
      } else {
        EndIsKept(t, leaves, nodes, ops, v);
      }
    }
  }

  /** The operation that a leaf takes over is possible for it. */
  lemma LeafOpFits(t: View, leaves: seq<nat>, nodes: seq<nat>, ops: seq<nat>, k: nat)
    requires IsView(t, leaves) && LeavesAre(t, leaves, nodes) && |ops| == |t.prefixes| && k < |nodes|
    requires forall k: nat :: k < |nodes| ==> nodes[k] < |ops|
    requires forall i: nat :: i < |ops| ==> OpPossible(t, ops, i)
    ensures var op := LeafOps(t, ops, nodes)[k];
            IsOp(op) && OpLevels(op) <= LeafHeight(leaves, k) && (op > 1 ==> op == ops[nodes[k]])
  {
    var i := nodes[k];
    assert LeafIs(t, leaves, nodes, k);
    var a := ClosestKept(t.parents, ops, i);
    assert OpPossible(t, ops, a) && OpPossible(t, ops, i);
    ClosestIsAncestor(t.parents, ops, i);
    if t.childOffsets[a] == 0 { LeafBelowLeaf(t.childOffsets, t.parents, |ops|, a, i); }
  }

  /** Only a leaf that is itself kept is split; its end is kept. */
  lemma SplitLeaf(t: View, leaves: seq<nat>, nodes: seq<nat>, ops: seq<nat>, k: nat)
    requires IsDecided(t, leaves, nodes, ops) && k < |nodes|
    ensures var op := LeafOps(t, ops, nodes)[k];
            && (op > 1 ==> op == ops[nodes[k]] && (k + 1 < |nodes| ==> LeafOps(t, ops, nodes)[k + 1] != 0))
            && IsOp(op) && OpLevels(op) <= LeafHeight(leaves, k)
  {
    LeafOpFits(t, leaves, nodes, ops, k);
    if LeafOps(t, ops, nodes)[k] > 1 {
      assert LeafIs(t, leaves, nodes, k);
      EndIsKept(t, leaves, nodes, ops, nodes[k]);
      if k + 1 < |nodes| { KeptLeaf(leaves, LeafOps(t, ops, nodes), k + 1); }
    }
  }

  lemma KeptLeaf(leaves: seq<nat>, leafOps: seq<nat>, k: nat)
    requires Ascending(leaves) && |leafOps| + 1 == |leaves| && k < |leafOps| && leaves[k] in KeptKeys(leaves, leafOps)
    ensures leafOps[k] != 0
  {
    var j: nat :| j <= |leafOps| && leaves[j] == leaves[k] && (j == |leafOps| || leafOps[j] != 0);
    LeafUpdate.UniqueIndex(leaves, j, k);
  }

  lemma {:induction false} ClosestIsAncestor(parents: seq<nat>, ops: seq<nat>, i: nat)
    requires i < |ops|
    ensures IsAncestor(parents, ClosestKept(parents, ops, i), i)
    decreases i
  {
    if i > 0 && ops[i] == 0 { ClosestIsAncestor(parents, ops, Parent(parents, i)); }
  }

  /** The operations of the leaves turn the octree into an octree. */
  lemma LeafOpsMergeWhole(t: View, leaves: seq<nat>, nodes: seq<nat>, ops: seq<nat>)
    requires IsDecided(t, leaves, nodes, ops)
    ensures var leafOps := LeafOps(t, ops, nodes);
            && OpsFit(leaves, leafOps) && MergesWhole(leaves, leafOps)
            && Cornerstone(Rebalanced(leaves, leafOps), t.L)
  {
    var leafOps := LeafOps(t, ops, nodes);
    forall k: nat | k < |leafOps| ensures FitsAt(leaves, leafOps, k) {
      SplitLeaf(t, leaves, nodes, ops, k);
    }
    forall k: nat | k < |leafOps| - 1 && leafOps[k] > 1 ensures leafOps[k + 1] != 0 {
      SplitLeaf(t, leaves, nodes, ops, k);
    }
    KeptKeysAreOctree(t, leaves, nodes, ops);
    KeptOctreeMergesWhole(leaves, leafOps, t.L);
    RebalancedIsCornerstone(leaves, leafOps, t.L);
  }

  // ------------------------------------------------------------- which keys are in the result

  /** A multiple of 8^g inside a row of 8^k cells of that size starts one of them. */
  lemma {:induction false} CellIndex(a: nat, x: nat, g: nat, k: nat) returns (j: nat)
    requires Aligned(a, g) && Aligned(x, g) && a <= x < a + Pow8(g + k)
    ensures j < Pow8(k) && NthCell(a, g, j) == x
  {
    if g == 0 {
      j := x - a;
      NthUnit(a, j);
    } else {
      j := CellIndex(a / 8, x / 8, g - 1, k);
      NthTimes8(a / 8, g - 1, j);
    }
  }

  /** A secured key is in the octree after the rebalance step. */
  lemma SecuredKeyRemains(t: View, leaves: seq<nat>, nodes: seq<nat>, ops: seq<nat>, key: nat)
    requires IsDecided(t, leaves, nodes, ops) && IsSecured(t, ops, key)
    ensures key in Rebalanced(leaves, LeafOps(t, ops, nodes))
  {
    var leafOps := LeafOps(t, ops, nodes);
    LeafOpsMergeWhole(t, leaves, nodes, ops);
    var r := Rebalanced(leaves, leafOps);
    assert r[0] in r && r[|r| - 1] in r;
    if !IsCurveEnd(key, t.L) {
      var i: nat :| i < |ops| && SecuredAt(t, ops, key, i);
      if StartOf(t, i) == key {
        StartIsKept(t, leaves, nodes, ops, i);
        KeptKeysRemain(leaves, leafOps, key);
      } else {
        var k := LeafNumber(t, leaves, nodes, i);
        assert LeafIs(t, leaves, nodes, k) && ProtectedOp(t, ops, i) == ops[i];
        SplitKeyAppears(leaves, leafOps, k, key);
      }
    }
  }

  lemma KeptKeysRemain(leaves: seq<nat>, leafOps: seq<nat>, key: nat)
    requires OpsFit(leaves, leafOps) && key in KeptKeys(leaves, leafOps)
    ensures key in Rebalanced(leaves, leafOps)
  {
    var k: nat :| k <= |leafOps| && leaves[k] == key && (k == |leafOps| || leafOps[k] != 0);
    KeptKeyRemains(leaves, leafOps, k);
  }

  /** Splitting a leaf adds its child boundaries, however far it is split. */
  lemma SplitKeyAppears(leaves: seq<nat>, leafOps: seq<nat>, k: nat, key: nat)
    requires OpsFit(leaves, leafOps) && k < |leafOps| && leafOps[k] >= 8 && CellAt(leaves, k)
    requires leaves[k] < key < leaves[k + 1] && LeafHeight(leaves, k) >= 1 && Aligned(key, LeafHeight(leaves, k) - 1)
    ensures key in Rebalanced(leaves, leafOps)
  {
    assert FitsAt(leaves, leafOps, k);
    var h, levels := LeafHeight(leaves, k), OpLevels(leafOps[k]);
    OpIsPower(leafOps[k]);
    AlignedWeaken(leaves[k], h - levels, h);
    AlignedWeaken(key, h - levels, h - 1);
    var j := CellIndex(leaves[k], key, h - levels, levels);
    SplitAdds(leaves, leafOps, k, j);
  }

  /** If every leaf is kept as it is, so is every node. */
  lemma AllLeavesMeansAllNodes(t: View, leaves: seq<nat>, nodes: seq<nat>, ops: seq<nat>)
    requires IsDecided(t, leaves, nodes, ops)
    ensures (forall i: nat :: i < |ops| ==> ProtectedOps(t, ops)[i] == 1) <==>
            (forall k: nat :: k < |nodes| ==> LeafOps(t, ops, nodes)[k] == 1)
  {
    if forall k: nat :: k < |nodes| ==> LeafOps(t, ops, nodes)[k] == 1 {
      forall i: nat | i < |ops| ensures ProtectedOps(t, ops)[i] == 1 {
        if t.childOffsets[i] == 0 {
          var k := LeafNumber(t, leaves, nodes, i);
          assert LeafOps(t, ops, nodes)[k] == 1;
        } else {
          var k := FirstLeaf(t, leaves, nodes, ops, i);
          assert LeafOps(t, ops, nodes)[k] == 1;
          InternalOp(t, leaves, ops, i);
        }
      }
    }
    if forall i: nat :: i < |ops| ==> ProtectedOps(t, ops)[i] == 1 {
      forall k: nat | k < |nodes| ensures LeafOps(t, ops, nodes)[k] == 1 {
        assert ProtectedOps(t, ops)[nodes[k]] == 1;
      }
    }
  }

  lemma InternalOp(t: View, leaves: seq<nat>, ops: seq<nat>, i: nat)
    requires IsView(t, leaves) && OpsInvariant(t, ops) && i < |ops| && t.childOffsets[i] != 0
    ensures ProtectedOp(t, ops, i) <= 1
  {
    var a := ClosestKept(t.parents, ops, i);
    ClosestIsAncestor(t.parents, ops, i);
    assert OpPossible(t, ops, a);
    if t.childOffsets[a] == 0 { LeafBelowLeaf(t.childOffsets, t.parents, |ops|, a, i); }
  }

  // ------------------------------------------------------------- the update

  /** The leaf part of `leafToInternal` numbers the leaves. */
  lemma LeafNodesOf(tree: OctreeData, leaves: seq<nat>, L: nat)
    requires tree.IsOctree(leaves, L)
    ensures |tree.leafToInternal| >= tree.numInternalNodes
    ensures var t := View(tree.prefixes, tree.childOffsets, tree.parents, L);
            var nodes := tree.leafToInternal[tree.numInternalNodes..];
            IsView(t, leaves) && LeavesAre(t, leaves, nodes)
  {
    var t := View(tree.prefixes, tree.childOffsets, tree.parents, L);
    var nodes := tree.leafToInternal[tree.numInternalNodes..];
    RepresentsIsView(leaves, tree.prefixes, tree.childOffsets, tree.parents, tree.levelRange, tree.internalToLeaf,
                     tree.leafToInternal, L);
    forall k: nat | k < |nodes| ensures LeafIs(t, leaves, nodes, k) {
      assert LeafMapped(leaves, tree.prefixes, tree.childOffsets, tree.internalToLeaf, tree.leafToInternal, k, L);
      assert NodeFits(t, leaves, nodes[k]);
      LeafIsNode(leaves, k, L);
      CodeInjective(StartOf(t, nodes[k]), HeightOf(t, nodes[k]), leaves[k], LeafHeight(leaves, k), L);
    }
  }

  /** What one update guarantees. */
  ghost predicate IsUpdated(leaves: seq<nat>, newLeaves: seq<nat>, keys: seq<nat>, converged: bool, L: nat) {
    && Cornerstone(newLeaves, L)
    && (forall k: nat :: k < |keys| ==> keys[k] in newLeaves)
    && (converged <==> newLeaves == leaves)
  }

  /** The rebalance step after the operations have been decided, enforced and protected. */
  lemma StepIsUpdate(t: View, leaves: seq<nat>, nodes: seq<nat>, before: seq<nat>, ops: seq<nat>, keys: seq<nat>,
                     status: ResolutionStatus)
    requires IsDecided(t, leaves, nodes, ops) && AreEnforced(t, leaves, before, ops, keys, |keys|, status)
    requires status != Failed
    ensures var allOne := forall k: nat :: k < |nodes| ==> LeafOps(t, ops, nodes)[k] == 1;
            IsUpdated(leaves, Rebalanced(leaves, LeafOps(t, ops, nodes)), keys, allOne && status != Rebalance, t.L)
  {
    LeafOpsMergeWhole(t, leaves, nodes, ops);
    UnchangedIffAllOne(leaves, LeafOps(t, ops, nodes), t.L);
    forall k: nat | k < |keys| ensures keys[k] in Rebalanced(leaves, LeafOps(t, ops, nodes)) {
      SecuredKeyRemains(t, leaves, nodes, ops, keys[k]);
    }
    if status == Rebalance {
      var k: nat :| k < |keys| && keys[k] !in leaves;
    }
  }

  /** Gather the operations of the leaves, with one more element for the scan. */
  method GatherOps(nodes: seq<nat>, nodeOpsAll: array<nat>) returns (nodeOps: array<nat>)
    requires forall k: nat :: k < |nodes| ==> nodes[k] < nodeOpsAll.Length
    ensures fresh(nodeOps) && nodeOps.Length == |nodes| + 1
    ensures forall k: nat :: k < |nodes| ==> nodeOps[k] == nodeOpsAll[nodes[k]]
  {
    nodeOps := new nat[|nodes| + 1](_ => 0);
    for k := 0 to |nodes|
      invariant forall j: nat :: j < k ==> nodeOps[j] == nodeOpsAll[nodes[j]]
    {
      nodeOps[k] := nodeOpsAll[nodes[k]];
    }
  }

  method AllOnes(nodeOps: array<nat>) returns (all: bool)
    requires nodeOps.Length > 0
    ensures all <==> forall k: nat :: k < nodeOps.Length - 1 ==> nodeOps[k] == 1
  {
    all := true;
    for k := 0 to nodeOps.Length - 1
      invariant all <==> forall j: nat :: j < k ==> nodeOps[j] == 1
    {
      if nodeOps[k] != 1 { all := false; }
    }
  }

  /** Decide the operations of all nodes and enforce the mandatory keys. */
  method DecideAndEnforce(t: View, bucketSize: nat, focusStart: nat, focusEnd: nat, keys: seq<nat>, counts: seq<nat>,
                          macs: seq<nat>, ghost leaves: seq<nat>)
    returns (nodeOpsAll: array<nat>, status: ResolutionStatus)
    requires IsView(t, leaves) && AncestorMonotone(t, counts, macs)
    requires forall k: nat :: k < |keys| ==> keys[k] <= Pow8(t.L)
    ensures fresh(nodeOpsAll) && nodeOpsAll.Length == |t.prefixes|
    ensures var before := Decisions(t, counts, macs, focusStart, focusEnd, bucketSize);
            && AreEnforced(t, leaves, before, nodeOpsAll[..], keys, |keys|, status)
            && (nodeOpsAll[..], status) == AfterEnforcing(t, before, keys, |keys|)
  {
    nodeOpsAll := new nat[|t.prefixes|](_ => 0);
    RebalanceDecisionEssential(t, counts, macs, focusStart, focusEnd, bucketSize, nodeOpsAll);
    DecisionsInvariant(t, leaves, counts, macs, focusStart, focusEnd, bucketSize);
    status := EnforceKeys(keys, t, nodeOpsAll, leaves);
  }

  /** Decide the operations of all nodes, enforce the mandatory keys, protect the ancestors of kept
      nodes, and extract the operations of the leaves. */
  method DecideLeafOps(t: View, nodes: seq<nat>, bucketSize: nat, focusStart: nat, focusEnd: nat, keys: seq<nat>,
                       counts: seq<nat>, macs: seq<nat>, order: seq<nat>, ghost leaves: seq<nat>)
    returns (nodeOps: array<nat>, status: ResolutionStatus, converged: bool, ghost before: seq<nat>,
             ghost ops: seq<nat>)
    requires IsView(t, leaves) && LeavesAre(t, leaves, nodes) && AncestorMonotone(t, counts, macs)
    requires forall k: nat :: k < |keys| ==> keys[k] <= Pow8(t.L)
    requires IsOrderOf(order, |t.prefixes|)
    ensures fresh(nodeOps) && nodeOps.Length == |leaves|
    ensures IsDecided(t, leaves, nodes, ops) && AreEnforced(t, leaves, before, ops, keys, |keys|, status)
    ensures nodeOps[..|leaves| - 1] == LeafOps(t, ops, nodes)
    ensures converged <==> status != Rebalance && forall k: nat :: k < |nodes| ==> LeafOps(t, ops, nodes)[k] == 1
    ensures before == Decisions(t, counts, macs, focusStart, focusEnd, bucketSize)
    ensures (ops, status) == AfterEnforcing(t, before, keys, |keys|)
  {
    var nodeOpsAll;
    nodeOpsAll, status := DecideAndEnforce(t, bucketSize, focusStart, focusEnd, keys, counts, macs, leaves);
    before := Decisions(t, counts, macs, focusStart, focusEnd, bucketSize);
    ops := nodeOpsAll[..];
    converged := ProtectAllAncestors(t, nodeOpsAll, order);
    ghost var final := nodeOpsAll[..];
    forall k: nat | k < |nodes| ensures nodes[k] < |ops| {
      assert LeafIs(t, leaves, nodes, k);
    }
    AllLeavesMeansAllNodes(t, leaves, nodes, ops);
    assert converged <==> forall i: nat :: i < |ops| ==> final[i] == 1;
    nodeOps := GatherOps(nodes, nodeOpsAll);
    ghost var leafOps := nodeOps[..|leaves| - 1];
    assert leafOps == LeafOps(t, ops, nodes);
    if status == CancelMerge {
      converged := AllOnes(nodeOps);
      assert forall k: nat :: k < |nodes| ==> leafOps[k] == nodeOps[k];
    } else if status == Rebalance {
      converged := false;
    }
  }

  /** Apply the operations of the leaves, and inject the keys that one more level does not resolve. */
  method RebalanceAndInject(t: View, leaves: seq<nat>, nodeOps: array<nat>, keys: seq<nat>, status: ResolutionStatus,
                            allOne: bool, ghost nodes: seq<nat>, ghost before: seq<nat>, ghost ops: seq<nat>)
    returns (newLeaves: seq<nat>, converged: bool)
    requires IsDecided(t, leaves, nodes, ops) && AreEnforced(t, leaves, before, ops, keys, |keys|, status)
    requires forall k: nat :: k < |keys| ==> keys[k] <= Pow8(t.L)
    requires nodeOps.Length == |leaves| && nodeOps[..|leaves| - 1] == LeafOps(t, ops, nodes)
    requires allOne <==> status != Rebalance && forall k: nat :: k < |nodes| ==> LeafOps(t, ops, nodes)[k] == 1
    modifies nodeOps
    ensures IsUpdated(leaves, newLeaves, keys, converged, t.L)
    ensures IsRebalanced(leaves, LeafOps(t, ops, nodes), keys, status, newLeaves, t.L)
  {
    LeafOpsMergeWhole(t, leaves, nodes, ops);
    converged := allOne;
    var rebalanced := RebalanceTree(leaves, nodeOps, t.L);
    newLeaves := rebalanced[..];
    if status == Failed {
      converged := false;
      newLeaves := InjectKeys(newLeaves, keys, t.L);
      InjectionIsUpdate(leaves, rebalanced[..], newLeaves, keys, t.L);
    } else {
      StepIsUpdate(t, leaves, nodes, before, ops, keys, status);
    }
  }

  /** The new leaves are those that the operations lead to, with the keys injected if enforcing them failed. */
  ghost predicate IsRebalanced(leaves: seq<nat>, leafOps: seq<nat>, keys: seq<nat>, status: ResolutionStatus,
                               newLeaves: seq<nat>, L: nat)
    requires |leafOps| + 1 == |leaves|
  {
    if status == Failed then LeastWith(newLeaves, KeySet(Rebalanced(leaves, leafOps)) + KeySet(keys), L)
    else newLeaves == Rebalanced(leaves, leafOps)
  }

  /** The new leaves follow from the decisions for all nodes. */
  ghost predicate IsFocusStep(t: View, leaves: seq<nat>, leafToInternal: seq<nat>, decisions: seq<nat>, keys: seq<nat>,
                              newLeaves: seq<nat>) {
    && 0 < |leaves| <= |leafToInternal| + 1
    && var nodes := leafToInternal[|leafToInternal| - (|leaves| - 1)..];
       var (ops, status) := AfterEnforcing(t, decisions, keys, |keys|);
       && (forall k: nat :: k < |nodes| ==> nodes[k] < |ops|)
       && IsRebalanced(leaves, LeafOps(t, ops, nodes), keys, status, newLeaves, t.L)
  }

  /** Combined update of a focused tree by particle counts inside the focus and by marks outside. The
      octree stays an octree, contains all mandatory keys, and the result says whether it is unchanged. */
  method UpdateFocus(tree: OctreeData, leaves: seq<nat>, bucketSize: nat, focusStart: nat, focusEnd: nat,
                     mandatoryKeys: seq<nat>, counts: seq<nat>, macs: seq<nat>, order: seq<nat>, L: nat)
    returns (newLeaves: seq<nat>, converged: bool)
    requires tree.IsOctree(leaves, L) && 3 * L < UNSIGNED_LIMIT
    requires AncestorMonotone(View(tree.prefixes, tree.childOffsets, tree.parents, L), counts, macs)
    requires focusStart <= focusEnd <= Pow8(L)
    requires forall k: nat :: k < |mandatoryKeys| ==> mandatoryKeys[k] <= Pow8(L)
    requires IsOrderOf(order, |tree.prefixes|)
    modifies tree
    ensures IsUpdated(leaves, newLeaves, [focusStart, focusEnd] + mandatoryKeys, converged, L)
    ensures tree.IsOctree(newLeaves, L)
    ensures var t := old(View(tree.prefixes, tree.childOffsets, tree.parents, L));
            IsFocusStep(t, leaves, old(tree.leafToInternal),
                        Decisions(t, counts, macs, focusStart, focusEnd, bucketSize),
                        [focusStart, focusEnd] + mandatoryKeys, newLeaves)
  {
    LeafNodesOf(tree, leaves, L);
    var t := View(tree.prefixes, tree.childOffsets, tree.parents, L);
    var nodes := tree.leafToInternal[tree.numInternalNodes..];
    var allMandatoryKeys := [focusStart, focusEnd] + mandatoryKeys;
    var nodeOps, status, allOne, before, ops :=
      DecideLeafOps(t, nodes, bucketSize, focusStart, focusEnd, allMandatoryKeys, counts, macs, order, leaves);
    newLeaves, converged := RebalanceAndInject(t, leaves, nodeOps, allMandatoryKeys, status, allOne, nodes, before,
                                               ops);
    assert IsFocusStep(t, leaves, tree.leafToInternal, before, allMandatoryKeys, newLeaves);
    tree.UpdateInternalTree(newLeaves, L);
  }

  lemma InjectionIsUpdate(leaves: seq<nat>, rebalanced: seq<nat>, newLeaves: seq<nat>, keys: seq<nat>, L: nat)
    requires LeastWith(newLeaves, KeySet(rebalanced) + KeySet(keys), L)
    requires !(forall k: nat :: k < |keys| ==> keys[k] in leaves)
    ensures IsUpdated(leaves, newLeaves, keys, false, L)
  {
    forall k: nat | k < |keys| ensures keys[k] in newLeaves {
      assert keys[k] in KeySet(keys);
      assert keys[k] in KeySet(newLeaves);
    }
  }
}
