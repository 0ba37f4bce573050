/** Repeated updates of a focused octree with the same particles, focus, keys and tests. */
module FocusConvergence {
  import opened Keys
  import opened CornerstoneArray
  import opened Counts
  import opened ComputeOctree
  import opened Rebalance
  import opened OctreeLinks
  import opened LeafUpdate
  import opened Traversal
  import opened OctreeView
  import opened FocusRebalance
  import opened FocusUpdate
  import opened Macs
  import opened Upsweep
  import opened FocusOctrees
  import opened FocusedOctree

  // ------------------------------------------------------------- marks of nodes are marks of cells

  lemma {:induction false} OpenedIsCell(t: View, leaves: seq<nat>, x: Setting, f: seq<nat>, k: nat, pass: nat -> bool,
                                        i: nat)
    requires IsView(t, leaves) && t.L == x.L && i < |t.prefixes|
    requires forall j: nat :: j < |t.prefixes| ==> (pass(j) <==> FailsFor(x, f, k, StartOf(t, j), HeightOf(t, j)))
    ensures IsOpened(t.parents, pass, i) <==> OpensFor(x, f, k, StartOf(t, i), HeightOf(t, i))
    decreases i
  {
    if i > 0 {
      ParentCell(t, leaves, i);
      OpenedIsCell(t, leaves, x, f, k, pass, Parent(t.parents, i));
    }
  }

  function MarkingOf(t: View, x: Setting, f: seq<nat>): (m: Marking) {
    CellMarking(t, f, x.near, x.inside)
  }

  lemma CriterionIsCell(t: View, x: Setting, f: seq<nat>, k: nat, i: nat)
    requires t.L == x.L && k + 1 < |f| && i < |t.prefixes| && Log8(t.prefixes[i]) <= t.L
    ensures Criterion(MarkingOf(t, x, f), k)(i) <==> FailsFor(x, f, k, StartOf(t, i), HeightOf(t, i))
  {
    var m := MarkingOf(t, x, f);
    assert MaxSourceLevel(m, k) == m.L;
    assert m.close(k, i) <==> x.near(f[k], f[k + 1], StartOf(t, i), EndOf(t, i));
  }

  lemma LevelOfNode(t: View, leaves: seq<nat>, i: nat)
    requires IsView(t, leaves) && i < |t.prefixes|
    ensures Log8(t.prefixes[i]) <= t.L
  {
    assert NodeFits(t, leaves, i);
    NodeEnds(leaves, StartOf(t, i), HeightOf(t, i), t.L);
    CodeLevel(StartOf(t, i), HeightOf(t, i), t.L);
  }

  lemma OpenedForIsCell(t: View, leaves: seq<nat>, x: Setting, f: seq<nat>, k: nat, i: nat)
    requires IsView(t, leaves) && t.L == x.L && k + 1 < |f| && i < |t.prefixes|
    ensures IsOpenedFor(MarkingOf(t, x, f), t.parents, k, i) <==>
            !x.inside(f[k], f[k + 1]) && OpensFor(x, f, k, StartOf(t, i), HeightOf(t, i))
  {
    var m := MarkingOf(t, x, f);
    forall j: nat | j < |t.prefixes|
      ensures Criterion(m, k)(j) <==> FailsFor(x, f, k, StartOf(t, j), HeightOf(t, j)) {
      LevelOfNode(t, leaves, j);
      CriterionIsCell(t, x, f, k, j);
    }
    OpenedIsCell(t, leaves, x, f, k, Criterion(m, k), i);
    assert m.inside(k) <==> x.inside(f[k], f[k + 1]);
  }

  lemma MarksAreCells(t: View, leaves: seq<nat>, x: Setting, f: seq<nat>, macs: seq<nat>)
    requires IsView(t, leaves) && t.L == x.L && AreMarks(t, MarkingOf(t, x, f), macs)
    ensures forall i: nat :: i < |macs| ==> IsMarkOf(t, macs, x, f, i)
  {
    var m := MarkingOf(t, x, f);
    forall i: nat | i < |macs| ensures IsMarkOf(t, macs, x, f, i) {
      assert IsMarked(macs, i) <==> IsOpenedForAny(m, t.parents, i);
      if k: nat :| k < |m.focusNodes| - 1 && IsOpenedFor(m, t.parents, k, i) {
        OpenedForIsCell(t, leaves, x, f, k, i);
      }
      if k: nat :| k + 1 < |f| && !x.inside(f[k], f[k + 1]) && OpensFor(x, f, k, StartOf(t, i), HeightOf(t, i)) {
        OpenedForIsCell(t, leaves, x, f, k, i);
        assert IsOpenedFor(m, t.parents, k, i);
      }
    }
  }

  ghost predicate IsMarkOf(t: View, macs: seq<nat>, x: Setting, f: seq<nat>, i: nat)
    requires i < |macs|
  {
    macs[i] != 0 <==> IsMarkedCell(x, f, StartOf(t, i), HeightOf(t, i))
  }

  // ------------------------------------------------------------- one update

  /** Node i has the count and the mark of its cell; f are the focus leaves. */
  ghost predicate NodeIsMeasured(t: View, counts: seq<nat>, macs: seq<nat>, x: Setting, f: seq<nat>, i: nat)
    requires i < |counts| == |macs|
  {
    CountsParticles(t, counts, x.particles, i) && IsMarkOf(t, macs, x, f, i)
  }

  /** The state after an update: mandatory keys are there, counts and marks are those of the octree. */
  ghost predicate IsMeasured(t: View, leaves: seq<nat>, counts: seq<nat>, macs: seq<nat>, x: Setting) {
    && IsView(t, leaves) && t.L == x.L && x.start <= x.end && |x.particles| < UNSIGNED_LIMIT && HasKeys(leaves, x)
    && AncestorMonotone(t, counts, macs)
    && forall i: nat :: i < |counts| ==>
         NodeIsMeasured(t, counts, macs, x, FocusLeaves(leaves, x.start, x.end), i)
  }

  ghost function DecisionsFor(t: View, counts: seq<nat>, macs: seq<nat>, x: Setting): (ops: seq<nat>)
    requires |t.prefixes| == |counts| == |macs| && |t.prefixes| <= |t.childOffsets|
  {
    Decisions(t, counts, macs, x.start, x.end, x.bucketSize)
  }

  /** The operations that an update from a measured state ends up with. */
  ghost predicate AreOpsOf(t: View, leaves: seq<nat>, nodes: seq<nat>, counts: seq<nat>, macs: seq<nat>, x: Setting,
                           ops: seq<nat>)
  {
    && IsMeasured(t, leaves, counts, macs, x) && LeavesAre(t, leaves, nodes)
    && ops == AfterEnforcing(t, DecisionsFor(t, counts, macs, x), AllMandatory(x), |AllMandatory(x)|).0
  }

  /** The leaves after an update from a measured state. */
  ghost predicate AreNextLeaves(t: View, leaves: seq<nat>, nodes: seq<nat>, counts: seq<nat>, macs: seq<nat>,
                                x: Setting, ops: seq<nat>, next: seq<nat>)
  {
    && AreOpsOf(t, leaves, nodes, counts, macs, x, ops) && (forall k: nat :: k < |nodes| ==> nodes[k] < |ops|)
    && next == Rebalanced(leaves, LeafOps(t, ops, nodes))
  }

  /** Multiples of the bucket size that over-splitting compares with do not wrap around to less than one bucket. */
  predicate ThresholdsHold(bucketSize: nat) {
    && UnsignedMul(64, bucketSize) >= bucketSize && UnsignedMul(512, bucketSize) >= bucketSize
    && UnsignedMul(4096, bucketSize) >= bucketSize
  }

  lemma DenseIsCell(t: View, leaves: seq<nat>, counts: seq<nat>, macs: seq<nat>, x: Setting, i: nat)
    requires IsMeasured(t, leaves, counts, macs, x) && i < |counts|
    ensures IsDense(t, counts, macs, x.start, x.end, x.bucketSize, i) <==>
            IsDenseCell(x, FocusLeaves(leaves, x.start, x.end), StartOf(t, i), HeightOf(t, i))
  {
    assert NodeIsMeasured(t, counts, macs, x, FocusLeaves(leaves, x.start, x.end), i);
  }

  lemma KeysAreInCurve(leaves: seq<nat>, x: Setting)
    requires Cornerstone(leaves, x.L) && HasKeys(leaves, x)
    ensures forall k: nat :: k < |AllMandatory(x)| ==> AllMandatory(x)[k] <= Pow8(x.L)
  {
    forall k: nat | k < |AllMandatory(x)| ensures AllMandatory(x)[k] <= Pow8(x.L) {
      EndsAreIn(leaves, x.L, AllMandatory(x)[k]);
    }
  }

  /** All keys are there, so that no key has to be injected. */
  lemma StepFacts(t: View, leaves: seq<nat>, nodes: seq<nat>, counts: seq<nat>, macs: seq<nat>, x: Setting,
                  ops: seq<nat>)
    requires AreOpsOf(t, leaves, nodes, counts, macs, x, ops)
    ensures IsDecided(t, leaves, nodes, ops)
    ensures var status := AfterEnforcing(t, DecisionsFor(t, counts, macs, x), AllMandatory(x), |AllMandatory(x)|).1;
            && InTreeStatus(status)
            && AreEnforced(t, leaves, DecisionsFor(t, counts, macs, x), ops, AllMandatory(x), |AllMandatory(x)|, status)
  {
    var before := DecisionsFor(t, counts, macs, x);
    DecisionsInvariant(t, leaves, counts, macs, x.start, x.end, x.bucketSize);
    KeysAreInCurve(leaves, x);
    var r := EnforcedAfter(t, leaves, before, AllMandatory(x), |AllMandatory(x)|);
    forall k: nat | k < |nodes| ensures nodes[k] < |ops| { assert LeafIs(t, leaves, nodes, k); }
  }

  /** The next leaves are an octree with all keys. */
  lemma NextIsOctree(t: View, leaves: seq<nat>, nodes: seq<nat>, counts: seq<nat>, macs: seq<nat>, x: Setting,
                     ops: seq<nat>, next: seq<nat>)
    requires AreNextLeaves(t, leaves, nodes, counts, macs, x, ops, next)
    ensures IsDecided(t, leaves, nodes, ops) && OpsFit(leaves, LeafOps(t, ops, nodes))
    ensures Cornerstone(next, x.L) && HasKeys(next, x)
  {
    StepFacts(t, leaves, nodes, counts, macs, x, ops);
    var before := DecisionsFor(t, counts, macs, x);
    var status := AfterEnforcing(t, before, AllMandatory(x), |AllMandatory(x)|).1;
    LeafOpsMergeWhole(t, leaves, nodes, ops);
    StepIsUpdate(t, leaves, nodes, before, ops, AllMandatory(x), status);
  }

  /** Children of a dense cell are kept. */
  lemma ChildrenOfDenseStay(t: View, leaves: seq<nat>, nodes: seq<nat>, counts: seq<nat>, macs: seq<nat>, x: Setting,
                            ops: seq<nat>, c: nat)
    requires AreOpsOf(t, leaves, nodes, counts, macs, x, ops) && 0 < c < |ops|
    requires var p := Parent(t.parents, c);
             IsDenseCell(x, FocusLeaves(leaves, x.start, x.end), StartOf(t, p), HeightOf(t, p))
    ensures ops[c] != 0
  {
    StepFacts(t, leaves, nodes, counts, macs, x, ops);
    var before := DecisionsFor(t, counts, macs, x);
    KeptIffParentDense(t, leaves, counts, macs, x.start, x.end, x.bucketSize, c);
    DenseIsCell(t, leaves, counts, macs, x, Parent(t.parents, c));
    assert before[c] <= ops[c];
  }

  /** A dense cell that is subdivided stays so. */
  lemma DenseStaysCut(t: View, leaves: seq<nat>, nodes: seq<nat>, counts: seq<nat>, macs: seq<nat>, x: Setting,
                      ops: seq<nat>, next: seq<nat>, s: nat, h: nat)
    requires AreNextLeaves(t, leaves, nodes, counts, macs, x, ops, next)
    requires 1 <= h <= x.L && Aligned(s, h) && IsCut(leaves, s, h)
    requires IsDenseCell(x, FocusLeaves(leaves, x.start, x.end), s, h)
    ensures IsCut(next, s, h)
  {
    var v := NodeOfCut(t, leaves, s, h);
    InternalDenseStays(t, leaves, nodes, counts, macs, x, ops, next, v);
    SecondChildInside(t, leaves, v);
  }

  lemma InternalDenseStays(t: View, leaves: seq<nat>, nodes: seq<nat>, counts: seq<nat>, macs: seq<nat>, x: Setting,
                           ops: seq<nat>, next: seq<nat>, v: nat)
    requires AreNextLeaves(t, leaves, nodes, counts, macs, x, ops, next)
    requires v < |t.prefixes| && t.childOffsets[v] != 0
    requires IsDenseCell(x, FocusLeaves(leaves, x.start, x.end), StartOf(t, v), HeightOf(t, v))
    ensures StartOf(t, t.childOffsets[v] + 1) in next
  {
    NextIsOctree(t, leaves, nodes, counts, macs, x, ops, next);
    ChildFacts(t.childOffsets, t.parents, |t.prefixes|, v, 1);
    ChildrenOfDenseStay(t, leaves, nodes, counts, macs, x, ops, t.childOffsets[v] + 1);
    KeptNodeStarts(t, leaves, nodes, ops, t.childOffsets[v] + 1);
  }

  lemma KeptNodeStarts(t: View, leaves: seq<nat>, nodes: seq<nat>, ops: seq<nat>, c: nat)
    requires IsDecided(t, leaves, nodes, ops) && OpsFit(leaves, LeafOps(t, ops, nodes)) && c < |ops| && ops[c] != 0
    ensures StartOf(t, c) in Rebalanced(leaves, LeafOps(t, ops, nodes))
  {
    StartIsKept(t, leaves, nodes, ops, c);
    KeptKeysRemain(leaves, LeafOps(t, ops, nodes), StartOf(t, c));
  }

  lemma SecondChildInside(t: View, leaves: seq<nat>, v: nat)
    requires IsView(t, leaves) && v < |t.prefixes| && t.childOffsets[v] != 0
    ensures StartOf(t, v) < StartOf(t, t.childOffsets[v] + 1) < EndOf(t, v)
  {
    ChildFacts(t.childOffsets, t.parents, |t.prefixes|, v, 1);
    assert ChildFits(t, t.childOffsets[v] + 1) && NodeFits(t, leaves, v);
    InnerChildStart(StartOf(t, v), HeightOf(t, v), 1);
  }

  lemma NodeOfCut(t: View, leaves: seq<nat>, s: nat, h: nat) returns (v: nat)
    requires IsView(t, leaves) && 1 <= h <= t.L && Aligned(s, h) && IsCut(leaves, s, h)
    ensures v < |t.prefixes| && t.childOffsets[v] != 0 && StartOf(t, v) == s && HeightOf(t, v) == h
  {
    var key: nat :| key in leaves && s < key < s + Pow8(h);
    FloorUnique(key, s, h);
    v := CutCellIsInternal(t, leaves, key, h);
  }

  /** Only dense leaves are split, if the thresholds hold. */
  lemma SplitDecision(t: View, counts: seq<nat>, macs: seq<nat>, x: Setting, i: nat)
    requires i < |t.prefixes| == |counts| == |macs| && |t.prefixes| <= |t.childOffsets|
    requires ThresholdsHold(x.bucketSize)
    requires MergeCountAndMacOp(t, counts, macs, x.start, x.end, x.bucketSize, i) > 1
    ensures IsDense(t, counts, macs, x.start, x.end, x.bucketSize, i) && HeightOf(t, i) >= 1
    ensures t.childOffsets[i] == 0
  {
  }

  /** A leaf that is split is dense. */
  lemma SplitIsDense(t: View, leaves: seq<nat>, nodes: seq<nat>, counts: seq<nat>, macs: seq<nat>, x: Setting,
                     ops: seq<nat>, k: nat)
    requires AreOpsOf(t, leaves, nodes, counts, macs, x, ops) && ThresholdsHold(x.bucketSize) && k < |nodes|
    requires IsDecided(t, leaves, nodes, ops) && LeafOps(t, ops, nodes)[k] > 1
    ensures LeafHeight(leaves, k) >= 1
    ensures IsDenseCell(x, FocusLeaves(leaves, x.start, x.end), leaves[k], LeafHeight(leaves, k))
  {
    assert LeafIs(t, leaves, nodes, k);
    LeafOpFits(t, leaves, nodes, ops, k);
    OpIsDecision(t, leaves, nodes, counts, macs, x, ops, nodes[k]);
    SplitDecision(t, counts, macs, x, nodes[k]);
    DenseIsCell(t, leaves, counts, macs, x, nodes[k]);
  }

  lemma OpIsDecision(t: View, leaves: seq<nat>, nodes: seq<nat>, counts: seq<nat>, macs: seq<nat>, x: Setting,
                     ops: seq<nat>, i: nat)
    requires AreOpsOf(t, leaves, nodes, counts, macs, x, ops) && i < |ops|
    ensures var op := MergeCountAndMacOp(t, counts, macs, x.start, x.end, x.bucketSize, i);
            ops[i] == op || (op == 0 && ops[i] == 1 && IsCancelled(t, AllMandatory(x), |AllMandatory(x)|, i))
  {
    KeysAreInCurve(leaves, x);
    OnlyCancels(t, leaves, DecisionsFor(t, counts, macs, x), AllMandatory(x), |AllMandatory(x)|, i);
  }

  /** Dense cells that are not subdivided; f are the focus leaves that marks are for. */
  ghost function Undivided(leaves: seq<nat>, x: Setting, f: seq<nat>): (m: set<(nat, nat)>) {
    set s: nat, h: nat | s < Pow8(x.L) && 1 <= h <= x.L && Aligned(s, h) && IsDenseCell(x, f, s, h)
                         && !IsCut(leaves, s, h) :: (s, h)
  }

  /** Those of them that are near the focus do not depend on marks. */
  ghost function UndividedNear(leaves: seq<nat>, x: Setting): (m: set<(nat, nat)>) {
    set s: nat, h: nat | s < Pow8(x.L) && 1 <= h <= x.L && Aligned(s, h)
                         && IsOverfull(x.particles, x.bucketSize, s, h) && IsNearFocus(x, s, h)
                         && !IsCut(leaves, s, h) :: (s, h)
  }

  // ------------------------------------------------------------- progress

  /** Dense cells stay subdivided, so that no cell becomes undivided. */
  lemma NothingLost(t: View, leaves: seq<nat>, nodes: seq<nat>, counts: seq<nat>, macs: seq<nat>, x: Setting,
                    ops: seq<nat>, next: seq<nat>)
    requires AreNextLeaves(t, leaves, nodes, counts, macs, x, ops, next)
    ensures var f := FocusLeaves(leaves, x.start, x.end); Undivided(next, x, f) <= Undivided(leaves, x, f)
    ensures UndividedNear(next, x) <= UndividedNear(leaves, x)
  {
    var f := FocusLeaves(leaves, x.start, x.end);
    forall c | c in Undivided(next, x, f) ensures c in Undivided(leaves, x, f) {
      if IsCut(leaves, c.0, c.1) { DenseStaysCut(t, leaves, nodes, counts, macs, x, ops, next, c.0, c.1); }
    }
    forall c | c in UndividedNear(next, x) ensures c in UndividedNear(leaves, x) {
      if IsCut(leaves, c.0, c.1) { DenseStaysCut(t, leaves, nodes, counts, macs, x, ops, next, c.0, c.1); }
    }
  }

  /** A split subdivides a dense cell. */
  lemma SplitGains(t: View, leaves: seq<nat>, nodes: seq<nat>, counts: seq<nat>, macs: seq<nat>, x: Setting,
                   ops: seq<nat>, next: seq<nat>, k: nat)
    requires AreNextLeaves(t, leaves, nodes, counts, macs, x, ops, next) && ThresholdsHold(x.bucketSize)
    requires k < |nodes| && LeafOps(t, ops, nodes)[k] > 1
    ensures var f, c := FocusLeaves(leaves, x.start, x.end), (leaves[k], LeafHeight(leaves, k));
            && c in Undivided(leaves, x, f) && c !in Undivided(next, x, f)
            && (IsNearFocus(x, c.0, c.1) ==> c in UndividedNear(leaves, x) && c !in UndividedNear(next, x))
  {
    NextIsOctree(t, leaves, nodes, counts, macs, x, ops, next);
    SplitIsDense(t, leaves, nodes, counts, macs, x, ops, k);
    SplitCuts(leaves, LeafOps(t, ops, nodes), k);
    LeafCellFacts(leaves, k, x.L);
  }

  lemma LeafCellFacts(leaves: seq<nat>, k: nat, L: nat)
    requires Cornerstone(leaves, L) && k + 1 < |leaves|
    ensures var h := LeafHeight(leaves, k);
            && leaves[k + 1] == leaves[k] + Pow8(h) && Aligned(leaves[k], h) && h <= L
            && leaves[k] < Pow8(L) && !IsCut(leaves, leaves[k], h)
  {
    assert CellAt(leaves, k);
    LevelInRange(leaves, k, L);
    LeafIsUncut(leaves, k, LeafHeight(leaves, k));
    assert leaves[k] < leaves[|leaves| - 1];
  }

  /** With the same marks, a change subdivides further dense cells, or only removes leaves. */
  lemma ChangeProgresses(t: View, leaves: seq<nat>, nodes: seq<nat>, counts: seq<nat>, macs: seq<nat>, x: Setting,
                         ops: seq<nat>, next: seq<nat>)
    requires AreNextLeaves(t, leaves, nodes, counts, macs, x, ops, next) && ThresholdsHold(x.bucketSize)
    requires next != leaves
    ensures var f := FocusLeaves(leaves, x.start, x.end);
            var before, after := Undivided(leaves, x, f), Undivided(next, x, f);
            after < before || (after == before && |next| < |leaves|)
  {
    var leafOps := LeafOps(t, ops, nodes);
    NextIsOctree(t, leaves, nodes, counts, macs, x, ops, next);
    NothingLost(t, leaves, nodes, counts, macs, x, ops, next);
    if k: nat :| k < |leafOps| && leafOps[k] > 1 {
      SplitGains(t, leaves, nodes, counts, macs, x, ops, next, k);
    } else {
      UnchangedIffAllOne(leaves, leafOps, x.L);
      MergesShorten(leafOps, |leafOps|);
      PiecesLength(leaves, leafOps, |leafOps|);
    }
  }

  /** In the focus, a change subdivides further cells near the focus, or only removes leaves. */
  lemma FocusProgresses(t: View, leaves: seq<nat>, nodes: seq<nat>, counts: seq<nat>, macs: seq<nat>, x: Setting,
                        ops: seq<nat>, next: seq<nat>)
    requires AreNextLeaves(t, leaves, nodes, counts, macs, x, ops, next) && ThresholdsHold(x.bucketSize)
    ensures |next| > 0
    ensures var f, g := FocusLeaves(leaves, x.start, x.end), FocusLeaves(next, x.start, x.end);
            var before, after := UndividedNear(leaves, x), UndividedNear(next, x);
            after < before || (after == before && (|g| < |f| || g == f))
  {
    NextIsOctree(t, leaves, nodes, counts, macs, x, ops, next);
    NothingLost(t, leaves, nodes, counts, macs, x, ops, next);
    assert AllMandatory(x)[0] == x.start && AllMandatory(x)[1] == x.end;
    if key: nat :| key in next && key !in leaves && x.start <= key <= x.end {
      NewFocusKey(t, leaves, nodes, counts, macs, x, ops, next, key);
    } else {
      FocusIsShorter(leaves, next, x.start, x.end);
    }
  }

  lemma FocusIsShorter(leaves: seq<nat>, next: seq<nat>, start: nat, end: nat)
    requires Ascending(leaves) && |leaves| > 0 && start in leaves && end in leaves && start <= end
    requires Ascending(next) && |next| > 0 && start in next && end in next
    requires forall key: nat :: key in next && start <= key <= end ==> key in leaves
    ensures var f, g := FocusLeaves(leaves, start, end), FocusLeaves(next, start, end); |g| < |f| || g == f
  {
    FocusLeavesAre(leaves, start, end);
    FocusLeavesAre(next, start, end);
    SubsequenceIsShorter(FocusLeaves(next, start, end), FocusLeaves(leaves, start, end));
  }

  /** A new key in the focus comes from a split near the focus. */
  lemma NewFocusKey(t: View, leaves: seq<nat>, nodes: seq<nat>, counts: seq<nat>, macs: seq<nat>, x: Setting,
                    ops: seq<nat>, next: seq<nat>, key: nat)
    requires AreNextLeaves(t, leaves, nodes, counts, macs, x, ops, next) && ThresholdsHold(x.bucketSize)
    requires key in next && key !in leaves && x.start <= key <= x.end
    ensures UndividedNear(next, x) != UndividedNear(leaves, x)
  {
    NextIsOctree(t, leaves, nodes, counts, macs, x, ops, next);
    var k := NewKeyIsInside(leaves, LeafOps(t, ops, nodes), key, x.L);
    LeafCellFacts(leaves, k, x.L);
    SplitGains(t, leaves, nodes, counts, macs, x, ops, next, k);
  }

  /** What every update that changes the leaves makes smaller, in lexicographic order. */
  ghost predicate IsCloser(leaves: seq<nat>, next: seq<nat>, x: Setting)
    requires |leaves| > 0 && |next| > 0
  {
    var f, g := FocusLeaves(leaves, x.start, x.end), FocusLeaves(next, x.start, x.end);
    || UndividedNear(next, x) < UndividedNear(leaves, x)
    || (UndividedNear(next, x) == UndividedNear(leaves, x) &&
        (|| |g| < |f|
         || (g == f && (|| Undivided(next, x, f) < Undivided(leaves, x, f)
                        || (Undivided(next, x, f) == Undivided(leaves, x, f) && |next| < |leaves|)))))
  }

  /** Every update that changes the leaves brings them closer to their end. First the focus settles, whose leaves
      decide which cells are marked, and then everything else. */
  lemma UpdateIsCloser(t: View, leaves: seq<nat>, nodes: seq<nat>, counts: seq<nat>, macs: seq<nat>, x: Setting,
                       ops: seq<nat>, next: seq<nat>)
    requires AreNextLeaves(t, leaves, nodes, counts, macs, x, ops, next) && ThresholdsHold(x.bucketSize)
    requires next != leaves
    ensures |leaves| > 0 && |next| > 0 && IsCloser(leaves, next, x)
  {
    FocusProgresses(t, leaves, nodes, counts, macs, x, ops, next);
    ChangeProgresses(t, leaves, nodes, counts, macs, x, ops, next);
  }

  // ------------------------------------------------------------- where updates settle

  /** If every leaf is kept as it is, so are the children of every internal node. */
  lemma ChildIsKept(t: View, leaves: seq<nat>, nodes: seq<nat>, ops: seq<nat>, v: nat)
    requires IsDecided(t, leaves, nodes, ops)
    requires forall k: nat :: k < |nodes| ==> LeafOps(t, ops, nodes)[k] == 1
    requires v < |t.prefixes| && t.childOffsets[v] != 0
    ensures t.childOffsets[v] + 1 < |ops| && ops[t.childOffsets[v] + 1] != 0
  {
    var c := t.childOffsets[v] + 1;
    ChildFacts(t.childOffsets, t.parents, |t.prefixes|, v, 1);
    SecondChildInside(t, leaves, v);
    var k := FirstLeaf(t, leaves, nodes, ops, c);
    ClosestIsAncestor(t.parents, ops, v);
    BelowIsInside(t, leaves, ClosestKept(t.parents, ops, v), v);
  }

  /** A node above the node of a key has the key strictly inside. */
  lemma AboveHoldsKey(t: View, leaves: seq<nat>, x: Setting, v: nat, j: nat)
    requires IsView(t, leaves) && t.L == x.L && j < |AllMandatory(x)|
    requires var key := AllMandatory(x)[j]; 0 < key < Pow8(t.L) && IsAbove(t.parents, v, ContainerOf(t, key))
    ensures HoldsKey(x, StartOf(t, v), HeightOf(t, v))
  {
    var key := AllMandatory(x)[j];
    var w := ContainerOf(t, key);
    ContainerIs(t, leaves, key);
    KeyInTree(t, leaves, key, w);
    BelowIsInside(t, leaves, v, w);
    NodeStartIsBefore(t, leaves, v, key);
    assert StartOf(t, v) < AllMandatory(x)[j] < EndOf(t, v);
  }

  lemma NodeStartIsBefore(t: View, leaves: seq<nat>, v: nat, key: nat)
    requires IsView(t, leaves) && v < |t.prefixes| && 0 < key < Pow8(t.L) && KeyHeight(key, t.L) < HeightOf(t, v)
    ensures StartOf(t, v) != key
  {
    KeyHeightIs(key, t.L);
    assert NodeFits(t, leaves, v);
    if StartOf(t, v) == key { AlignedWeaken(key, KeyHeight(key, t.L) + 1, HeightOf(t, v)); }
  }

  /** A node is kept because its parent is dense, or because a merge was cancelled. */
  lemma KeptMeans(t: View, leaves: seq<nat>, nodes: seq<nat>, counts: seq<nat>, macs: seq<nat>, x: Setting,
                  ops: seq<nat>, c: nat)
    requires AreOpsOf(t, leaves, nodes, counts, macs, x, ops) && 0 < c < |ops| && ops[c] != 0
    ensures var p := Parent(t.parents, c);
            || IsDenseCell(x, FocusLeaves(leaves, x.start, x.end), StartOf(t, p), HeightOf(t, p))
            || IsCancelled(t, AllMandatory(x), |AllMandatory(x)|, c)
  {
    OpIsDecision(t, leaves, nodes, counts, macs, x, ops, c);
    KeptIffParentDense(t, leaves, counts, macs, x.start, x.end, x.bucketSize, c);
    DenseIsCell(t, leaves, counts, macs, x, Parent(t.parents, c));
  }

  lemma CancelledHoldsKey(t: View, leaves: seq<nat>, x: Setting, c: nat)
    requires IsView(t, leaves) && t.L == x.L && IsCancelled(t, AllMandatory(x), |AllMandatory(x)|, c)
    ensures var p := Parent(t.parents, c); HoldsKey(x, StartOf(t, p), HeightOf(t, p))
  {
    var j: nat :| j < |AllMandatory(x)| && 0 < AllMandatory(x)[j] < Pow8(t.L) && c > 0 &&
                  IsAbove(t.parents, Parent(t.parents, c), ContainerOf(t, AllMandatory(x)[j]));
    AboveHoldsKey(t, leaves, x, Parent(t.parents, c), j);
  }

  /** In a settled octree, subdivided cells are dense or hold a key. */
  lemma SettledCut(t: View, leaves: seq<nat>, nodes: seq<nat>, counts: seq<nat>, macs: seq<nat>, x: Setting,
                   ops: seq<nat>, v: nat)
    requires AreOpsOf(t, leaves, nodes, counts, macs, x, ops) && IsDecided(t, leaves, nodes, ops)
    requires forall k: nat :: k < |nodes| ==> LeafOps(t, ops, nodes)[k] == 1
    requires v < |t.prefixes| && t.childOffsets[v] != 0
    ensures IsDenseCell(x, FocusLeaves(leaves, x.start, x.end), StartOf(t, v), HeightOf(t, v)) ||
            HoldsKey(x, StartOf(t, v), HeightOf(t, v))
  {
    var c := t.childOffsets[v] + 1;
    ChildIsKept(t, leaves, nodes, ops, v);
    ChildFacts(t.childOffsets, t.parents, |t.prefixes|, v, 1);
    KeptMeans(t, leaves, nodes, counts, macs, x, ops, c);
    if IsCancelled(t, AllMandatory(x), |AllMandatory(x)|, c) { CancelledHoldsKey(t, leaves, x, c); }
  }

  lemma {:induction false} OpensUp(x: Setting, f: seq<nat>, k: nat, s: nat, h: nat, h': nat)
    requires OpensFor(x, f, k, s, h) && h <= h' <= x.L && Aligned(s, h)
    ensures OpensFor(x, f, k, Floor(s, h'), h')
    decreases h' - h
  {
    if h < h' {
      FloorNested(s, h + 1, h');
      FloorBounds(s, h + 1);
      OpensUp(x, f, k, Floor(s, h + 1), h + 1, h');
    } else {
      FloorUnique(s, s, h);
    }
  }

  lemma MarkedUp(x: Setting, f: seq<nat>, s: nat, h: nat, s': nat, h': nat)
    requires IsMarkedCell(x, f, s, h) && h <= h' <= x.L && Aligned(s, h) && s' == Floor(s, h')
    ensures IsMarkedCell(x, f, s', h')
  {
    var k: nat :| k + 1 < |f| && !x.inside(f[k], f[k + 1]) && OpensFor(x, f, k, s, h);
    OpensUp(x, f, k, s, h, h');
  }

  lemma OverfullUp(keys: seq<nat>, bucketSize: nat, s: nat, h: nat, s': nat, h': nat)
    requires IsOverfull(keys, bucketSize, s, h) && s' <= s && s + Pow8(h) <= s' + Pow8(h')
    ensures IsOverfull(keys, bucketSize, s', h')
  {
    CountMonotone(keys, s, s + Pow8(h), s', s' + Pow8(h'));
  }

  lemma NearUp(x: Setting, s: nat, h: nat, s': nat, h': nat)
    requires IsNearFocus(x, s, h) && s' <= s && s + Pow8(h) <= s' + Pow8(h')
    ensures IsNearFocus(x, s', h')
  {
  }

  /** Cells around a dense one are dense. */
  lemma DenseUp(x: Setting, f: seq<nat>, s: nat, h: nat, s': nat, h': nat)
    requires IsDenseCell(x, f, s, h) && h <= h' <= x.L && Aligned(s, h) && s' == Floor(s, h')
    requires s' <= s && s + Pow8(h) <= s' + Pow8(h')
    ensures IsDenseCell(x, f, s', h')
  {
    OverfullUp(x.particles, x.bucketSize, s, h, s', h');
    if IsMarkedCell(x, f, s, h) { MarkedUp(x, f, s, h, s', h'); } else { NearUp(x, s, h, s', h'); }
  }

  /** A dense leaf that can be split is. */
  lemma DenseLeafIsSplit(t: View, leaves: seq<nat>, nodes: seq<nat>, counts: seq<nat>, macs: seq<nat>, x: Setting,
                         ops: seq<nat>, k: nat)
    requires AreOpsOf(t, leaves, nodes, counts, macs, x, ops) && IsDecided(t, leaves, nodes, ops) && k < |nodes|
    requires LeafHeight(leaves, k) >= 1
    requires IsDenseCell(x, FocusLeaves(leaves, x.start, x.end), leaves[k], LeafHeight(leaves, k))
    ensures LeafOps(t, ops, nodes)[k] > 1
  {
    assert LeafIs(t, leaves, nodes, k);
    DenseIsCell(t, leaves, counts, macs, x, nodes[k]);
    DenseLeafDecision(t, leaves, counts, macs, x, k, nodes[k]);
    OpIsDecision(t, leaves, nodes, counts, macs, x, ops, nodes[k]);
  }

  lemma DenseLeafDecision(t: View, leaves: seq<nat>, counts: seq<nat>, macs: seq<nat>, x: Setting, k: nat, i: nat)
    requires IsMeasured(t, leaves, counts, macs, x) && k + 1 < |leaves|
    requires i < |t.prefixes| && t.childOffsets[i] == 0 && HeightOf(t, i) >= 1
    requires StartOf(t, i) == leaves[k] && EndOf(t, i) == leaves[k + 1]
    requires IsDense(t, counts, macs, x.start, x.end, x.bucketSize, i)
    ensures MergeCountAndMacOp(t, counts, macs, x.start, x.end, x.bucketSize, i) > 1
  {
    if i > 0 {
      DenseParent(t, leaves, counts, macs, x.start, x.end, x.bucketSize, i);
      KeptIffParentDense(t, leaves, counts, macs, x.start, x.end, x.bucketSize, i);
    }
    StartsInFocus(leaves, x, k);
    DenseDecision(t, counts, macs, x, i);
  }

  lemma StartsInFocus(leaves: seq<nat>, x: Setting, k: nat)
    requires Ascending(leaves) && HasKeys(leaves, x) && k + 1 < |leaves|
    ensures OverlapTwoRanges(leaves[k], leaves[k + 1], x.start, x.end) ==> x.start <= leaves[k] < x.end
  {
    assert AllMandatory(x)[0] == x.start;
    var q: nat :| q < |leaves| && leaves[q] == x.start;
  }

  lemma DenseDecision(t: View, counts: seq<nat>, macs: seq<nat>, x: Setting, i: nat)
    requires i < |t.prefixes| == |counts| == |macs| && |t.prefixes| <= |t.childOffsets| && t.childOffsets[i] == 0
    requires IsDense(t, counts, macs, x.start, x.end, x.bucketSize, i) && HeightOf(t, i) >= 1
    requires macs[i] != 0 || x.start <= StartOf(t, i) < x.end
    requires MergeCountAndMacOp(t, counts, macs, x.start, x.end, x.bucketSize, i) != 0 || i == 0
    ensures MergeCountAndMacOp(t, counts, macs, x.start, x.end, x.bucketSize, i) > 1
  {
  }

  /** In a settled octree, dense cells are subdivided. */
  lemma SettledDense(t: View, leaves: seq<nat>, nodes: seq<nat>, counts: seq<nat>, macs: seq<nat>, x: Setting,
                     ops: seq<nat>, s: nat, h: nat)
    requires AreOpsOf(t, leaves, nodes, counts, macs, x, ops) && IsDecided(t, leaves, nodes, ops)
    requires forall k: nat :: k < |nodes| ==> LeafOps(t, ops, nodes)[k] == 1
    requires 1 <= h <= x.L && Aligned(s, h) && s < Pow8(x.L)
    requires IsDenseCell(x, FocusLeaves(leaves, x.start, x.end), s, h)
    ensures IsCut(leaves, s, h)
  {
    if !IsCut(leaves, s, h) {
      var k := LeafAround(leaves, x.L, s, h);
      DenseUp(x, FocusLeaves(leaves, x.start, x.end), s, h, leaves[k], LeafHeight(leaves, k));
      DenseLeafIsSplit(t, leaves, nodes, counts, macs, x, ops, k);
    }
  }

  /** A cell that is not subdivided lies in a leaf. */
  lemma LeafAround(leaves: seq<nat>, L: nat, s: nat, h: nat) returns (k: nat)
    requires Cornerstone(leaves, L) && Aligned(s, h) && s < Pow8(L) && !IsCut(leaves, s, h)
    ensures k + 1 < |leaves| && leaves[k] <= s && s + Pow8(h) <= leaves[k] + Pow8(LeafHeight(leaves, k))
    ensures h <= LeafHeight(leaves, k) <= L && leaves[k] == Floor(s, LeafHeight(leaves, k))
  {
    k := FindCell(leaves, s);
    LeafCellFacts(leaves, k, L);
    var g := LeafHeight(leaves, k);
    assert leaves[k + 1] in leaves;
    FloorUnique(s, leaves[k], g);
    if g < h { Pow8Monotone(g + 1, h); }
  }

  /** In the octree of the setting, no node is merged. */
  lemma NoNodeIsMerged(t: View, leaves: seq<nat>, nodes: seq<nat>, counts: seq<nat>, macs: seq<nat>, x: Setting,
                       ops: seq<nat>, i: nat)
    requires AreOpsOf(t, leaves, nodes, counts, macs, x, ops) && IsFocusOctreeOf(leaves, x) && 0 < i < |t.prefixes|
    ensures i < |ops| && ops[i] != 0
  {
    var p := Parent(t.parents, i);
    ParentIsAsItShould(t, leaves, x, i);
    if IsDenseCell(x, FocusLeaves(leaves, x.start, x.end), StartOf(t, p), HeightOf(t, p)) {
      ChildrenOfDenseStay(t, leaves, nodes, counts, macs, x, ops, i);
    } else {
      ChildrenAroundKeyStay(t, leaves, nodes, counts, macs, x, ops, i);
    }
  }

  lemma ParentIsAsItShould(t: View, leaves: seq<nat>, x: Setting, i: nat)
    requires IsView(t, leaves) && t.L == x.L && IsFocusOctreeOf(leaves, x) && 0 < i < |t.prefixes|
    ensures var p := Parent(t.parents, i);
            || IsDenseCell(x, FocusLeaves(leaves, x.start, x.end), StartOf(t, p), HeightOf(t, p))
            || HoldsKey(x, StartOf(t, p), HeightOf(t, p))
  {
    var p := Parent(t.parents, i);
    ParentFacts(t.childOffsets, t.parents, |t.prefixes|, i);
    ParentCell(t, leaves, i);
    assert NodeFits(t, leaves, p);
    NodeEnds(leaves, StartOf(t, p), HeightOf(t, p), t.L);
    assert IsAsItShould(leaves, x, StartOf(t, p), HeightOf(t, p));
  }

  /** So no leaf is. */
  lemma NoLeafIsMerged(t: View, leaves: seq<nat>, nodes: seq<nat>, counts: seq<nat>, macs: seq<nat>, x: Setting,
                       ops: seq<nat>, k: nat)
    requires AreOpsOf(t, leaves, nodes, counts, macs, x, ops) && IsFocusOctreeOf(leaves, x) && k < |nodes|
    requires IsDecided(t, leaves, nodes, ops)
    ensures LeafOps(t, ops, nodes)[k] != 0
  {
    if nodes[k] > 0 { NoNodeIsMerged(t, leaves, nodes, counts, macs, x, ops, nodes[k]); }
  }

  /** Children of a node that holds a key are kept. */
  lemma ChildrenAroundKeyStay(t: View, leaves: seq<nat>, nodes: seq<nat>, counts: seq<nat>, macs: seq<nat>, x: Setting,
                              ops: seq<nat>, i: nat)
    requires AreOpsOf(t, leaves, nodes, counts, macs, x, ops) && 0 < i < |t.prefixes|
    requires var p := Parent(t.parents, i); HoldsKey(x, StartOf(t, p), HeightOf(t, p))
    ensures i < |ops| && ops[i] != 0
  {
    StepFacts(t, leaves, nodes, counts, macs, x, ops);
    var p := Parent(t.parents, i);
    var j: nat :| j < |AllMandatory(x)| &&
                  StartOf(t, p) < AllMandatory(x)[j] < StartOf(t, p) + Pow8(HeightOf(t, p));
    var a := NodeOfKey(t, leaves, nodes, counts, macs, x, ops, j, p);
    BelowKeepsChildren(t, leaves, ops, i, a);
  }

  /** An enforced key inside a node starts a kept node. */
  lemma NodeOfKey(t: View, leaves: seq<nat>, nodes: seq<nat>, counts: seq<nat>, macs: seq<nat>, x: Setting,
                  ops: seq<nat>, j: nat, p: nat)
    returns (a: nat)
    requires AreOpsOf(t, leaves, nodes, counts, macs, x, ops) && j < |AllMandatory(x)| && p < |t.prefixes|
    requires StartOf(t, p) < AllMandatory(x)[j] < EndOf(t, p)
    ensures a < |ops| && ops[a] != 0 && StartOf(t, a) == AllMandatory(x)[j]
  {
    StepFacts(t, leaves, nodes, counts, macs, x, ops);
    var key := AllMandatory(x)[j];
    assert NodeFits(t, leaves, p);
    NodeEnds(leaves, StartOf(t, p), HeightOf(t, p), t.L);
    assert IsSecured(t, ops, key);
    a :| a < |ops| && SecuredAt(t, ops, key, a);
    assert NodeFits(t, leaves, a) && key in leaves;
    assert StartOf(t, a) < key < EndOf(t, a) ==> IsCut(leaves, StartOf(t, a), HeightOf(t, a));
  }

  lemma BelowKeepsChildren(t: View, leaves: seq<nat>, ops: seq<nat>, i: nat, a: nat)
    requires IsView(t, leaves) && OpsInvariant(t, ops) && 0 < i < |ops| && a < |ops| && ops[a] != 0
    requires var p := Parent(t.parents, i); StartOf(t, p) < StartOf(t, a) < EndOf(t, p)
    ensures ops[i] != 0
  {
    var p := Parent(t.parents, i);
    ParentFacts(t.childOffsets, t.parents, |ops|, i);
    assert NodeFits(t, leaves, p);
    FloorUnique(StartOf(t, a), StartOf(t, p), HeightOf(t, p));
    StrictlyInsideIsBelow(t, leaves, p, a);
    var d := ThroughOneChild(t.childOffsets, t.parents, |ops|, p, a);
    ChildFacts(t.childOffsets, t.parents, |ops|, p, d);
    KeptAncestors(t, ops, t.childOffsets[p] + d, a);
    assert KeptWithGroup(t, ops, t.childOffsets[p] + d);
  }

  /** An update changes nothing exactly if the leaves are the octree of the setting. */
  lemma SettledIffFocusOctree(t: View, leaves: seq<nat>, nodes: seq<nat>, counts: seq<nat>, macs: seq<nat>, x: Setting,
                              ops: seq<nat>, next: seq<nat>)
    requires AreNextLeaves(t, leaves, nodes, counts, macs, x, ops, next) && ThresholdsHold(x.bucketSize)
    ensures next == leaves <==> IsFocusOctreeOf(leaves, x)
  {
    var leafOps := LeafOps(t, ops, nodes);
    NextIsOctree(t, leaves, nodes, counts, macs, x, ops, next);
    UnchangedIffAllOne(leaves, leafOps, x.L);
    if next == leaves { UnchangedIsFocusOctree(t, leaves, nodes, counts, macs, x, ops); }
    if IsFocusOctreeOf(leaves, x) {
      forall k: nat | k < |nodes| ensures leafOps[k] == 1 {
        NoLeafIsMerged(t, leaves, nodes, counts, macs, x, ops, k);
        if leafOps[k] > 1 { FocusLeafIsNotSplit(t, leaves, nodes, counts, macs, x, ops, k); }
      }
    }
  }

  lemma FocusLeafIsNotSplit(t: View, leaves: seq<nat>, nodes: seq<nat>, counts: seq<nat>, macs: seq<nat>, x: Setting,
                            ops: seq<nat>, k: nat)
    requires AreOpsOf(t, leaves, nodes, counts, macs, x, ops) && ThresholdsHold(x.bucketSize)
    requires IsFocusOctreeOf(leaves, x) && k < |nodes| && IsDecided(t, leaves, nodes, ops)
    ensures LeafOps(t, ops, nodes)[k] <= 1
  {
    LeafCellFacts(leaves, k, x.L);
    if LeafHeight(leaves, k) >= 1 { UncutIsNotDense(leaves, x, leaves[k], LeafHeight(leaves, k)); }
    if LeafOps(t, ops, nodes)[k] > 1 { SplitIsDense(t, leaves, nodes, counts, macs, x, ops, k); }
  }

  lemma UncutIsNotDense(leaves: seq<nat>, x: Setting, s: nat, h: nat)
    requires IsFocusOctreeOf(leaves, x) && 1 <= h <= x.L && Aligned(s, h) && s < Pow8(x.L) && !IsCut(leaves, s, h)
    ensures !IsDenseCell(x, FocusLeaves(leaves, x.start, x.end), s, h)
  {
    assert IsAsItShould(leaves, x, s, h);
  }

  lemma UnchangedIsFocusOctree(t: View, leaves: seq<nat>, nodes: seq<nat>, counts: seq<nat>, macs: seq<nat>,
                               x: Setting, ops: seq<nat>)
    requires AreOpsOf(t, leaves, nodes, counts, macs, x, ops) && IsDecided(t, leaves, nodes, ops)
    requires forall k: nat :: k < |nodes| ==> LeafOps(t, ops, nodes)[k] == 1
    ensures IsFocusOctreeOf(leaves, x)
  {
    forall s: nat, h: nat | 1 <= h <= x.L && Aligned(s, h) && s < Pow8(x.L)
      ensures IsAsItShould(leaves, x, s, h)
    {
      SettledCell(t, leaves, nodes, counts, macs, x, ops, s, h);
    }
  }

  lemma SettledCell(t: View, leaves: seq<nat>, nodes: seq<nat>, counts: seq<nat>, macs: seq<nat>, x: Setting,
                    ops: seq<nat>, s: nat, h: nat)
    requires AreOpsOf(t, leaves, nodes, counts, macs, x, ops) && IsDecided(t, leaves, nodes, ops)
    requires forall k: nat :: k < |nodes| ==> LeafOps(t, ops, nodes)[k] == 1
    requires 1 <= h <= x.L && Aligned(s, h) && s < Pow8(x.L)
    ensures IsAsItShould(leaves, x, s, h)
  {
    if IsCut(leaves, s, h) {
      var v := NodeOfCut(t, leaves, s, h);
      SettledCut(t, leaves, nodes, counts, macs, x, ops, v);
    }
    if IsDenseCell(x, FocusLeaves(leaves, x.start, x.end), s, h) {
      SettledDense(t, leaves, nodes, counts, macs, x, ops, s, h);
    }
    if j: nat :| j < |AllMandatory(x)| && s < AllMandatory(x)[j] < s + Pow8(h) {
      assert AllMandatory(x)[j] in leaves;
    }
  }

  // ------------------------------------------------------------- thresholds that wrap around

  /** A setting with exactly as many particles as fit into one leaf, and a bucket size with a threshold that wraps
      around to less. The focus is the whole curve. */
  ghost predicate NeverFits(x: Setting) {
    && !ThresholdsHold(x.bucketSize) && x.L > 3 && x.start == 0 && x.end == Pow8(x.L) && x.mandatory == []
    && CountIn(x.particles, 0, Pow8(x.L)) == x.bucketSize
  }

  /** The root is split again and again, and whatever it is split into is merged. */
  lemma NeverSettles(t: View, leaves: seq<nat>, nodes: seq<nat>, counts: seq<nat>, macs: seq<nat>, x: Setting,
                     ops: seq<nat>, next: seq<nat>)
    requires AreNextLeaves(t, leaves, nodes, counts, macs, x, ops, next) && NeverFits(x)
    ensures next != leaves
  {
    NextIsOctree(t, leaves, nodes, counts, macs, x, ops, next);
    UnchangedIffAllOne(leaves, LeafOps(t, ops, nodes), x.L);
    if t.childOffsets[0] == 0 {
      RootIsSplit(t, leaves, nodes, counts, macs, x, ops);
      var k := LeafNumber(t, leaves, nodes, 0);
      assert LeafOps(t, ops, nodes)[k] != 1;
    } else if next == leaves {
      ChildIsKept(t, leaves, nodes, ops, 0);
      NodeIsMerged(t, leaves, nodes, counts, macs, x, ops, t.childOffsets[0] + 1);
    }
  }

  /** No merge is cancelled. */
  lemma NothingEnforced(t: View, x: Setting, i: nat)
    requires t.L == x.L && NeverFits(x)
    ensures !IsCancelled(t, AllMandatory(x), |AllMandatory(x)|, i)
  {
  }

  lemma RootIsSplit(t: View, leaves: seq<nat>, nodes: seq<nat>, counts: seq<nat>, macs: seq<nat>, x: Setting,
                    ops: seq<nat>)
    requires AreOpsOf(t, leaves, nodes, counts, macs, x, ops) && NeverFits(x) && t.childOffsets[0] == 0
    ensures |ops| > 0 && ops[0] > 1
  {
    OpIsDecision(t, leaves, nodes, counts, macs, x, ops, 0);
    NothingEnforced(t, x, 0);
    assert NodeIsMeasured(t, counts, macs, x, FocusLeaves(leaves, x.start, x.end), 0);
    RootDecision(t, counts, macs, x);
  }

  lemma RootDecision(t: View, counts: seq<nat>, macs: seq<nat>, x: Setting)
    requires 0 < |t.prefixes| == |counts| == |macs| && |t.prefixes| <= |t.childOffsets| && t.childOffsets[0] == 0
    requires NeverFits(x) && StartOf(t, 0) == 0 && HeightOf(t, 0) == x.L && counts[0] == x.bucketSize
    ensures MergeCountAndMacOp(t, counts, macs, x.start, x.end, x.bucketSize, 0) > 1
  {
  }

  lemma NodeIsMerged(t: View, leaves: seq<nat>, nodes: seq<nat>, counts: seq<nat>, macs: seq<nat>, x: Setting,
                     ops: seq<nat>, i: nat)
    requires AreOpsOf(t, leaves, nodes, counts, macs, x, ops) && NeverFits(x) && 0 < i < |t.prefixes|
    ensures i < |ops| && ops[i] == 0
  {
    var p := Parent(t.parents, i);
    ParentCell(t, leaves, i);
    OpIsDecision(t, leaves, nodes, counts, macs, x, ops, i);
    NothingEnforced(t, x, i);
    assert NodeIsMeasured(t, counts, macs, x, FocusLeaves(leaves, x.start, x.end), p);
    assert NodeFits(t, leaves, p);
    NodeEnds(leaves, StartOf(t, p), HeightOf(t, p), t.L);
    CountMonotone(x.particles, StartOf(t, p), EndOf(t, p), 0, Pow8(x.L));
  }

  // ------------------------------------------------------------- what the class does

  /** An update from a measured state does not have to inject keys. */
  lemma FocusStepIsNext(t: View, leaves: seq<nat>, leafToInternal: seq<nat>, nodes: seq<nat>, counts: seq<nat>,
                        macs: seq<nat>, x: Setting, next: seq<nat>)
    returns (ops: seq<nat>)
    requires IsMeasured(t, leaves, counts, macs, x) && 0 < |leaves| <= |leafToInternal| + 1
    requires nodes == leafToInternal[|leafToInternal| - (|leaves| - 1)..] && LeavesAre(t, leaves, nodes)
    requires IsFocusStep(t, leaves, leafToInternal, DecisionsFor(t, counts, macs, x), AllMandatory(x), next)
    ensures AreNextLeaves(t, leaves, nodes, counts, macs, x, ops, next)
  {
    ops := AfterEnforcing(t, DecisionsFor(t, counts, macs, x), AllMandatory(x), |AllMandatory(x)|).0;
    StepFacts(t, leaves, nodes, counts, macs, x, ops);
  }

  /** What one update from a measured state means for the run. */
  lemma StepOfRun(t: View, leaves: seq<nat>, leafToInternal: seq<nat>, nodes: seq<nat>, counts: seq<nat>,
                  macs: seq<nat>, x: Setting, next: seq<nat>)
    requires IsMeasured(t, leaves, counts, macs, x) && 0 < |leaves| <= |leafToInternal| + 1
    requires nodes == leafToInternal[|leafToInternal| - (|leaves| - 1)..] && LeavesAre(t, leaves, nodes)
    requires IsFocusStep(t, leaves, leafToInternal, DecisionsFor(t, counts, macs, x), AllMandatory(x), next)
    ensures ThresholdsHold(x.bucketSize) ==>
              && (next == leaves <==> IsFocusOctreeOf(leaves, x))
              && (next != leaves ==> |next| > 0 && IsCloser(leaves, next, x))
    ensures NeverFits(x) ==> next != leaves
  {
    var ops := FocusStepIsNext(t, leaves, leafToInternal, nodes, counts, macs, x, next);
    if ThresholdsHold(x.bucketSize) {
      SettledIffFocusOctree(t, leaves, nodes, counts, macs, x, ops, next);
      if next != leaves { UpdateIsCloser(t, leaves, nodes, counts, macs, x, ops, next); }
    }
    if NeverFits(x) { NeverSettles(t, leaves, nodes, counts, macs, x, ops, next); }
  }
}
