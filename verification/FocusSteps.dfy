/** Which octree one update leads to, from any state with exact counts: which nodes are subdivided afterwards, and how
    far. Mandatory keys need not be there yet. */
module FocusSteps {
  import opened Keys
  import opened CornerstoneArray
  import opened Counts
  import opened ComputeOctree
  import opened Rebalance
  import opened LeafUpdate
  import opened Traversal
  import opened OctreeView
  import opened FocusRebalance
  import opened FocusUpdate
  import opened Upsweep
  import opened FocusOctrees
  import opened FocusConvergence
  import opened Span

  // ------------------------------------------------------------- what an update leads to

  /** All nodes have their exact counts; counts and marks grow towards the root. */
  ghost predicate HasExactCounts(t: View, leaves: seq<nat>, counts: seq<nat>, macs: seq<nat>, x: Setting) {
    && IsView(t, leaves) && t.L == x.L && x.start <= x.end && |x.particles| < UNSIGNED_LIMIT
    && AncestorMonotone(t, counts, macs) && KeysInCurve(x)
    && forall i: nat :: i < |counts| ==> CountsParticles(t, counts, x.particles, i)
  }

  /** The octree before an update; `nodes` are the node numbers of its leaves. */
  ghost predicate IsStart(t: View, leaves: seq<nat>, leafToInternal: seq<nat>, nodes: seq<nat>, counts: seq<nat>,
                          macs: seq<nat>, x: Setting)
  {
    && IsView(t, leaves) && AncestorMonotone(t, counts, macs) && t.L == x.L && KeysInCurve(x)
    && 0 < |leaves| <= |leafToInternal| + 1 && LeavesAre(t, leaves, nodes)
    && nodes == leafToInternal[|leafToInternal| - (|leaves| - 1)..]
  }

  /** The update by the decisions for the counts and marks of this octree. */
  ghost predicate IsStepOf(t: View, leaves: seq<nat>, leafToInternal: seq<nat>, counts: seq<nat>, macs: seq<nat>,
                           x: Setting, next: seq<nat>)
  {
    && |t.prefixes| == |counts| == |macs| && |t.prefixes| <= |t.childOffsets|
    && IsFocusStep(t, leaves, leafToInternal, DecisionsFor(t, counts, macs, x), AllMandatory(x), next)
  }

  ghost predicate KeysInCurve(x: Setting) {
    forall k: nat :: k < |AllMandatory(x)| ==> AllMandatory(x)[k] <= Pow8(x.L)
  }

  /** The node has more particles than a leaf may have. An internal node is also marked or near the focus, and a leaf
      is marked or starts in the focus. */
  ghost predicate IsFull(t: View, macs: seq<nat>, x: Setting, i: nat)
    requires i < |macs| && i < |t.prefixes| && i < |t.childOffsets|
  {
    && IsOverfull(x.particles, x.bucketSize, StartOf(t, i), HeightOf(t, i))
    && (if t.childOffsets[i] == 0 then IsSplittable(t, macs, x.start, x.end, i)
        else macs[i] != 0 || IsNearFocus(x, StartOf(t, i), HeightOf(t, i)))
  }

  /** The leaf is subdivided into cells that are as many levels smaller as its particles ask for, and if all keys have
      been there before, into nothing else. */
  ghost predicate IsSplitInto(t: View, leaves: seq<nat>, x: Setting, next: seq<nat>, i: nat, levels: nat)
    requires i < |t.prefixes| && levels <= HeightOf(t, i)
  {
    forall key: nat :: StartOf(t, i) <= key < EndOf(t, i) ==>
      var isStart := IsCellStart(StartOf(t, i), HeightOf(t, i) - levels, Pow8(levels), key);
      (isStart ==> key in next) && (HasKeys(leaves, x) && key in next ==> isStart)
  }

  /** The particles of the leaf ask for a split by this many levels. */
  ghost predicate IsSplitBy(t: View, x: Setting, i: nat, levels: nat) {
    && levels >= 1 && IsLargestSplit(levels, HeightOf(t, i), CountIn(x.particles, StartOf(t, i), EndOf(t, i)),
                                     FocusThreshold(x.bucketSize))
  }

  ghost predicate IsSplitFully(t: View, leaves: seq<nat>, x: Setting, next: seq<nat>, i: nat)
    requires i < |t.prefixes|
  {
    exists levels: nat ::
      levels <= HeightOf(t, i) && IsSplitBy(t, x, i, levels) && IsSplitInto(t, leaves, x, next, i, levels)
  }

  /** Afterwards, a node is subdivided exactly if it is full or has a mandatory key inside; a full leaf as far as its
      count asks for. Leaves that are not full may be split if the thresholds for that wrap around. */
  ghost predicate IsNextAt(t: View, leaves: seq<nat>, macs: seq<nat>, x: Setting, next: seq<nat>, i: nat)
    requires i < |macs| && i < |t.prefixes| && i < |t.childOffsets|
  {
    var isCut := IsCut(next, StartOf(t, i), HeightOf(t, i));
    var shouldBe := IsFull(t, macs, x, i) || HoldsKey(x, StartOf(t, i), HeightOf(t, i));
    && (shouldBe ==> isCut)
    && (t.childOffsets[i] != 0 || ThresholdsHold(x.bucketSize) ==> (isCut ==> shouldBe))
    && (t.childOffsets[i] == 0 && IsFull(t, macs, x, i) ==> IsSplitFully(t, leaves, x, next, i))
  }

  ghost predicate IsNext(t: View, leaves: seq<nat>, macs: seq<nat>, x: Setting, next: seq<nat>) {
    && |macs| == |t.prefixes| <= |t.childOffsets| && Cornerstone(next, x.L) && HasKeys(next, x)
    && forall i: nat :: i < |macs| && HeightOf(t, i) >= 1 ==> IsNextAt(t, leaves, macs, x, next, i)
  }

  // ------------------------------------------------------------- operations

  /** The operation is the decision, or a key below has changed it. */
  ghost predicate IsFinalOp(t: View, counts: seq<nat>, macs: seq<nat>, x: Setting, ops: seq<nat>, i: nat)
    requires i < |ops| == |t.prefixes| == |counts| == |macs| && |t.prefixes| <= |t.childOffsets|
  {
    var decision := MergeCountAndMacOp(t, counts, macs, x.start, x.end, x.bucketSize, i);
    || ops[i] == decision
    || (decision == 0 && ops[i] == 1 && IsCancelled(t, AllMandatory(x), |AllMandatory(x)|, i))
    || (decision < 8 && ops[i] == 8 && IsForced(t, AllMandatory(x), |AllMandatory(x)|, i))
  }

  /** What is known of the operations that an update ends up with. */
  ghost predicate AreFinalOps(t: View, leaves: seq<nat>, nodes: seq<nat>, counts: seq<nat>, macs: seq<nat>, x: Setting,
                              ops: seq<nat>)
  {
    && HasExactCounts(t, leaves, counts, macs, x) && IsDecided(t, leaves, nodes, ops) && |ops| == |counts|
    && OpsFit(leaves, LeafOps(t, ops, nodes)) && Cornerstone(Rebalanced(leaves, LeafOps(t, ops, nodes)), x.L)
    && forall i: nat :: i < |ops| ==> IsFinalOp(t, counts, macs, x, ops, i)
  }

  /** The rebalance step, and keys that are injected afterwards. */
  ghost predicate IsStep(t: View, leaves: seq<nat>, nodes: seq<nat>, counts: seq<nat>, macs: seq<nat>, x: Setting,
                         ops: seq<nat>, status: ResolutionStatus, next: seq<nat>)
  {
    && AreFinalOps(t, leaves, nodes, counts, macs, x, ops) && Cornerstone(next, x.L) && HasKeys(next, x)
    && (HasKeys(leaves, x) ==> status != Failed)
    && IsRebalanced(leaves, LeafOps(t, ops, nodes), AllMandatory(x), status, next, t.L)
  }

  /** An update is such a step. */
  lemma UpdateIsStep(t: View, leaves: seq<nat>, leafToInternal: seq<nat>, nodes: seq<nat>, counts: seq<nat>,
                     macs: seq<nat>, x: Setting, next: seq<nat>)
    returns (ops: seq<nat>, status: ResolutionStatus)
    requires HasExactCounts(t, leaves, counts, macs, x)
    requires IsStart(t, leaves, leafToInternal, nodes, counts, macs, x)
    requires IsStepOf(t, leaves, leafToInternal, counts, macs, x, next)
    requires Cornerstone(next, x.L) && HasKeys(next, x)
    ensures IsStep(t, leaves, nodes, counts, macs, x, ops, status, next)
  {
    var before, keys := DecisionsFor(t, counts, macs, x), AllMandatory(x);
    DecisionsInvariant(t, leaves, counts, macs, x.start, x.end, x.bucketSize);
    var r := EnforcedAfter(t, leaves, before, keys, |keys|);
    ops, status := r.0, r.1;
    LeafOpsMergeWhole(t, leaves, nodes, ops);
    forall i: nat | i < |ops| ensures IsFinalOp(t, counts, macs, x, ops, i) {
      RaisedMeans(t, leaves, before, keys, |keys|, i);
    }
  }

  // ------------------------------------------------------------- internal nodes

  /** What the rebalance step adds stays when keys are injected. */
  lemma RebalancedStays(t: View, leaves: seq<nat>, nodes: seq<nat>, counts: seq<nat>, macs: seq<nat>, x: Setting,
                        ops: seq<nat>, status: ResolutionStatus, next: seq<nat>, key: nat)
    requires IsStep(t, leaves, nodes, counts, macs, x, ops, status, next)
    requires key in Rebalanced(leaves, LeafOps(t, ops, nodes))
    ensures key in next
  {
    if status == Failed {
      assert key in KeySet(Rebalanced(leaves, LeafOps(t, ops, nodes)));
      assert key in KeySet(next);
    }
  }

  /** A cell is subdivided by the rebalance step or by a key. */
  lemma CutBefore(t: View, leaves: seq<nat>, nodes: seq<nat>, counts: seq<nat>, macs: seq<nat>, x: Setting,
                  ops: seq<nat>, status: ResolutionStatus, next: seq<nat>, s: nat, h: nat)
    requires IsStep(t, leaves, nodes, counts, macs, x, ops, status, next)
    requires Aligned(s, h) && s + Pow8(h) <= Pow8(x.L) && IsCut(next, s, h)
    ensures IsCut(Rebalanced(leaves, LeafOps(t, ops, nodes)), s, h) || HoldsKey(x, s, h)
  {
    var r := Rebalanced(leaves, LeafOps(t, ops, nodes));
    var k: nat :| k in next && s < k < s + Pow8(h);
    if status == Failed {
      var key := LeastIsCutByKeys(next, KeySet(r) + KeySet(AllMandatory(x)), x.L, s, h, k);
      if key !in r {
        var j: nat :| j < |AllMandatory(x)| && AllMandatory(x)[j] == key;
      }
    }
  }

  /** Keys inside a cell subdivide it. */
  lemma KeyCuts(next: seq<nat>, x: Setting, s: nat, h: nat)
    requires HasKeys(next, x) && HoldsKey(x, s, h)
    ensures IsCut(next, s, h)
  {
  }

  /** The second child of an internal node is kept if the node is still subdivided. */
  lemma ChildOfCutIsKept(t: View, leaves: seq<nat>, nodes: seq<nat>, counts: seq<nat>, macs: seq<nat>, x: Setting,
                         ops: seq<nat>, v: nat)
    requires AreFinalOps(t, leaves, nodes, counts, macs, x, ops) && v < |t.prefixes| && t.childOffsets[v] != 0
    requires IsCut(Rebalanced(leaves, LeafOps(t, ops, nodes)), StartOf(t, v), HeightOf(t, v))
    ensures t.childOffsets[v] + 1 < |ops| && ops[t.childOffsets[v] + 1] != 0
  {
    var leafOps, c := LeafOps(t, ops, nodes), t.childOffsets[v] + 1;
    ChildBoundary(t, leaves, v, 1);
    assert NodeFits(t, leaves, v) && NodeFits(t, leaves, c);
    ChildOfCut(Rebalanced(leaves, leafOps), x.L, StartOf(t, v), HeightOf(t, v), 1);
    SecondChildInside(t, leaves, v);
    var k: nat :| k < |leaves| && leaves[k] == StartOf(t, c);
    RemainingIsKept(leaves, leafOps, k, x.L);
    assert leaves[k] < Pow8(t.L) by { NodeEnds(leaves, StartOf(t, v), HeightOf(t, v), t.L); }
    var a := KeptKeyIsStart(t, leaves, nodes, ops, leaves[k]);
    ChildFacts(t.childOffsets, t.parents, |t.prefixes|, v, 1);
    BelowKeepsChildren(t, leaves, ops, c, a);
  }

  lemma RemainingIsKept(leaves: seq<nat>, leafOps: seq<nat>, k: nat, L: nat)
    requires Cornerstone(leaves, L) && OpsFit(leaves, leafOps) && k < |leaves|
    requires leaves[k] in Rebalanced(leaves, leafOps)
    ensures leaves[k] in KeptKeys(leaves, leafOps)
  {
    if k < |leafOps| && leafOps[k] == 0 { DroppedKeyIsGone(leaves, leafOps, k, L); }
    UndroppedIsKept(leaves, leafOps, k);
  }

  /** A leaf around a key has it strictly inside. */
  lemma ForcedHoldsKey(t: View, leaves: seq<nat>, x: Setting, c: nat)
    requires IsView(t, leaves) && t.L == x.L && IsForced(t, AllMandatory(x), |AllMandatory(x)|, c)
    ensures c < |t.prefixes| && HoldsKey(x, StartOf(t, c), HeightOf(t, c))
  {
    var j: nat :| j < |AllMandatory(x)| && 0 < AllMandatory(x)[j] < Pow8(t.L) &&
                  ContainerOf(t, AllMandatory(x)[j]) == c && IsMissing(t, AllMandatory(x)[j], c);
    ContainerIs(t, leaves, AllMandatory(x)[j]);
    KeyInTree(t, leaves, AllMandatory(x)[j], c);
    assert StartOf(t, c) < AllMandatory(x)[j] < EndOf(t, c);
  }

  /** A node is kept because its parent is dense, or because of a key. */
  lemma KeptOpMeans(t: View, leaves: seq<nat>, counts: seq<nat>, macs: seq<nat>, x: Setting, ops: seq<nat>, c: nat)
    requires IsView(t, leaves) && 0 < c < |ops| == |t.prefixes| == |counts| == |macs|
    requires IsFinalOp(t, counts, macs, x, ops, c) && ops[c] != 0
    ensures || IsDense(t, counts, macs, x.start, x.end, x.bucketSize, Parent(t.parents, c))
            || IsCancelled(t, AllMandatory(x), |AllMandatory(x)|, c)
            || IsForced(t, AllMandatory(x), |AllMandatory(x)|, c)
  {
    KeptIffParentDense(t, leaves, counts, macs, x.start, x.end, x.bucketSize, c);
  }

  lemma ExactCount(t: View, leaves: seq<nat>, counts: seq<nat>, macs: seq<nat>, x: Setting, i: nat)
    requires HasExactCounts(t, leaves, counts, macs, x) && i < |counts|
    ensures counts[i] == CountIn(x.particles, StartOf(t, i), EndOf(t, i))
    ensures counts[i] > x.bucketSize <==> IsOverfull(x.particles, x.bucketSize, StartOf(t, i), HeightOf(t, i))
  {
    assert CountsParticles(t, counts, x.particles, i);
  }

  lemma FullIfDense(t: View, leaves: seq<nat>, counts: seq<nat>, macs: seq<nat>, x: Setting, v: nat)
    requires HasExactCounts(t, leaves, counts, macs, x) && v < |counts| && t.childOffsets[v] != 0
    ensures IsFull(t, macs, x, v) <==> IsDense(t, counts, macs, x.start, x.end, x.bucketSize, v)
  {
    ExactCount(t, leaves, counts, macs, x, v);
  }

  /** Children are kept because their parent is full, or because of a key inside it. */
  lemma KeptChildMeans(t: View, leaves: seq<nat>, nodes: seq<nat>, counts: seq<nat>, macs: seq<nat>, x: Setting,
                       ops: seq<nat>, v: nat)
    requires AreFinalOps(t, leaves, nodes, counts, macs, x, ops) && v < |t.prefixes| && t.childOffsets[v] != 0
    requires t.childOffsets[v] + 1 < |ops| && ops[t.childOffsets[v] + 1] != 0
    ensures IsFull(t, macs, x, v) || HoldsKey(x, StartOf(t, v), HeightOf(t, v))
  {
    var c := t.childOffsets[v] + 1;
    ChildFacts(t.childOffsets, t.parents, |t.prefixes|, v, 1);
    KeptOpMeans(t, leaves, counts, macs, x, ops, c);
    FullIfDense(t, leaves, counts, macs, x, v);
    if IsCancelled(t, AllMandatory(x), |AllMandatory(x)|, c) {
      CancelledHoldsKey(t, leaves, x, c);
    } else if IsForced(t, AllMandatory(x), |AllMandatory(x)|, c) {
      ForcedHoldsKey(t, leaves, x, c);
      ParentCell(t, leaves, c);
      HoldsKeyUp(x, StartOf(t, c), HeightOf(t, c), StartOf(t, v), HeightOf(t, v));
    }
  }

  lemma HoldsKeyUp(x: Setting, s: nat, h: nat, s': nat, h': nat)
    requires HoldsKey(x, s, h) && s' <= s && s + Pow8(h) <= s' + Pow8(h')
    ensures HoldsKey(x, s', h')
  {
    var j: nat :| j < |AllMandatory(x)| && s < AllMandatory(x)[j] < s + Pow8(h);
  }

  /** Children of a full node are kept. */
  lemma FullStaysCut(t: View, leaves: seq<nat>, nodes: seq<nat>, counts: seq<nat>, macs: seq<nat>, x: Setting,
                     ops: seq<nat>, status: ResolutionStatus, next: seq<nat>, v: nat)
    requires IsStep(t, leaves, nodes, counts, macs, x, ops, status, next)
    requires v < |t.prefixes| && t.childOffsets[v] != 0 && IsFull(t, macs, x, v)
    ensures IsCut(next, StartOf(t, v), HeightOf(t, v))
  {
    var c := t.childOffsets[v] + 1;
    ChildFacts(t.childOffsets, t.parents, |t.prefixes|, v, 1);
    FullIfDense(t, leaves, counts, macs, x, v);
    KeptIffParentDense(t, leaves, counts, macs, x.start, x.end, x.bucketSize, c);
    assert IsFinalOp(t, counts, macs, x, ops, c);
    KeptNodeStarts(t, leaves, nodes, ops, c);
    RebalancedStays(t, leaves, nodes, counts, macs, x, ops, status, next, StartOf(t, c));
    SecondChildInside(t, leaves, v);
  }

  lemma InternalIsNext(t: View, leaves: seq<nat>, nodes: seq<nat>, counts: seq<nat>, macs: seq<nat>, x: Setting,
                       ops: seq<nat>, status: ResolutionStatus, next: seq<nat>, v: nat)
    requires IsStep(t, leaves, nodes, counts, macs, x, ops, status, next)
    requires v < |t.prefixes| && t.childOffsets[v] != 0
    ensures IsNextAt(t, leaves, macs, x, next, v)
  {
    var s, h := StartOf(t, v), HeightOf(t, v);
    if IsFull(t, macs, x, v) { FullStaysCut(t, leaves, nodes, counts, macs, x, ops, status, next, v); }
    if HoldsKey(x, s, h) { KeyCuts(next, x, s, h); }
    if IsCut(next, s, h) {
      assert NodeFits(t, leaves, v);
      NodeEnds(leaves, s, h, t.L);
      CutBefore(t, leaves, nodes, counts, macs, x, ops, status, next, s, h);
      if !HoldsKey(x, s, h) {
        ChildOfCutIsKept(t, leaves, nodes, counts, macs, x, ops, v);
        KeptChildMeans(t, leaves, nodes, counts, macs, x, ops, v);
      }
    }
  }

  // ------------------------------------------------------------- leaves

  lemma FullParentIsDense(t: View, leaves: seq<nat>, counts: seq<nat>, macs: seq<nat>, x: Setting, i: nat)
    requires IsView(t, leaves) && AncestorMonotone(t, counts, macs) && 0 < i < |counts| && t.childOffsets[i] == 0
    requires counts[i] > x.bucketSize && IsSplittable(t, macs, x.start, x.end, i)
    ensures Parent(t.parents, i) < i && IsDense(t, counts, macs, x.start, x.end, x.bucketSize, Parent(t.parents, i))
  {
    ParentCell(t, leaves, i);
    assert NodeFits(t, leaves, i) && GrowsUpward(t, counts, macs, i);
  }

  /** The children of a node above a full leaf are kept. */
  lemma FullLeafIsKept(t: View, leaves: seq<nat>, counts: seq<nat>, macs: seq<nat>, x: Setting, i: nat)
    requires HasExactCounts(t, leaves, counts, macs, x) && i < |counts| && t.childOffsets[i] == 0
    requires IsFull(t, macs, x, i)
    ensures MergeCountAndMacOp(t, counts, macs, x.start, x.end, x.bucketSize, i) != 0
  {
    if i > 0 {
      ExactCount(t, leaves, counts, macs, x, i);
      FullParentIsDense(t, leaves, counts, macs, x, i);
      KeptIffParentDense(t, leaves, counts, macs, x.start, x.end, x.bucketSize, i);
    }
  }

  lemma LargestOfMany(op: nat, h: nat, count: nat, bucketSize: nat)
    requires op == Pow8(OpLevels(op)) && IsLargestSplit(OpLevels(op), h, count, FocusThreshold(bucketSize))
    requires h >= 1 && count > bucketSize
    ensures OpLevels(op) >= 1 && op >= 8
  {
    assert FocusThreshold(bucketSize)(1) == bucketSize;
    Pow8Monotone(1, OpLevels(op));
  }

  /** A full leaf is split by as many levels as its particles ask for. */
  lemma FullLeafDecision(t: View, leaves: seq<nat>, counts: seq<nat>, macs: seq<nat>, x: Setting, i: nat)
    returns (op: nat)
    requires HasExactCounts(t, leaves, counts, macs, x) && i < |counts| && t.childOffsets[i] == 0
    requires IsFull(t, macs, x, i)
    requires HeightOf(t, i) >= 1
    ensures op == MergeCountAndMacOp(t, counts, macs, x.start, x.end, x.bucketSize, i)
    ensures op == Pow8(OpLevels(op)) && op >= 8 && IsSplitBy(t, x, i, OpLevels(op))
  {
    FullLeafIsKept(t, leaves, counts, macs, x, i);
    FocusSplitIsLargest(t, counts, macs, x.start, x.end, x.bucketSize, i);
    op := MergeCountAndMacOp(t, counts, macs, x.start, x.end, x.bucketSize, i);
    ExactCount(t, leaves, counts, macs, x, i);
    LargestOfMany(op, HeightOf(t, i), counts[i], x.bucketSize);
  }

  lemma FullLeafOp(t: View, leaves: seq<nat>, nodes: seq<nat>, counts: seq<nat>, macs: seq<nat>, x: Setting,
                   ops: seq<nat>, k: nat)
    requires AreFinalOps(t, leaves, nodes, counts, macs, x, ops) && k < |nodes| && IsFull(t, macs, x, nodes[k])
    requires HeightOf(t, nodes[k]) >= 1
    ensures var op := LeafOps(t, ops, nodes)[k];
            op == Pow8(OpLevels(op)) && op >= 8 && IsSplitBy(t, x, nodes[k], OpLevels(op))
  {
    assert LeafIs(t, leaves, nodes, k);
    var op := FullLeafDecision(t, leaves, counts, macs, x, nodes[k]);
    assert IsFinalOp(t, counts, macs, x, ops, nodes[k]);
  }

  /** Splitting by some levels makes exactly the cells that are smaller by so many. */
  lemma LeafIsSplitInto(t: View, leaves: seq<nat>, nodes: seq<nat>, counts: seq<nat>, macs: seq<nat>, x: Setting,
                        ops: seq<nat>, status: ResolutionStatus, next: seq<nat>, k: nat, levels: nat)
    requires IsStep(t, leaves, nodes, counts, macs, x, ops, status, next) && k < |nodes|
    requires var op := LeafOps(t, ops, nodes)[k]; op == Pow8(levels) && OpLevels(op) == levels
    ensures levels <= HeightOf(t, nodes[k]) && IsSplitInto(t, leaves, x, next, nodes[k], levels)
  {
    var leafOps, i := LeafOps(t, ops, nodes), nodes[k];
    assert LeafIs(t, leaves, nodes, k);
    SplitCellsAre(leaves, leafOps, k, leaves[k], x.L);
    forall key: nat | StartOf(t, i) <= key < EndOf(t, i)
      ensures var isStart := IsCellStart(StartOf(t, i), HeightOf(t, i) - levels, Pow8(levels), key);
              (isStart ==> key in next) && (HasKeys(leaves, x) && key in next ==> isStart) {
      SplitCellsAre(leaves, leafOps, k, key, x.L);
      if key in Rebalanced(leaves, leafOps) {
        RebalancedStays(t, leaves, nodes, counts, macs, x, ops, status, next, key);
      }
    }
  }

  lemma SplitLeafIsCut(t: View, leaves: seq<nat>, nodes: seq<nat>, counts: seq<nat>, macs: seq<nat>, x: Setting,
                       ops: seq<nat>, status: ResolutionStatus, next: seq<nat>, k: nat)
    requires IsStep(t, leaves, nodes, counts, macs, x, ops, status, next) && k < |nodes|
    requires LeafOps(t, ops, nodes)[k] > 1
    ensures IsCut(next, leaves[k], LeafHeight(leaves, k))
  {
    var leafOps := LeafOps(t, ops, nodes);
    SplitCuts(leaves, leafOps, k);
    var key: nat :| key in Rebalanced(leaves, leafOps) && leaves[k] < key < leaves[k] + Pow8(LeafHeight(leaves, k));
    RebalancedStays(t, leaves, nodes, counts, macs, x, ops, status, next, key);
  }

  lemma FullLeafIsSplit(t: View, leaves: seq<nat>, nodes: seq<nat>, counts: seq<nat>, macs: seq<nat>, x: Setting,
                        ops: seq<nat>, status: ResolutionStatus, next: seq<nat>, k: nat)
    requires IsStep(t, leaves, nodes, counts, macs, x, ops, status, next) && k < |nodes|
    requires IsFull(t, macs, x, nodes[k]) && HeightOf(t, nodes[k]) >= 1
    ensures IsCut(next, StartOf(t, nodes[k]), HeightOf(t, nodes[k]))
    ensures IsSplitFully(t, leaves, x, next, nodes[k])
  {
    FullLeafOp(t, leaves, nodes, counts, macs, x, ops, k);
    var levels := OpLevels(LeafOps(t, ops, nodes)[k]);
    LeafIsSplitInto(t, leaves, nodes, counts, macs, x, ops, status, next, k, levels);
    SplitLeafIsCut(t, leaves, nodes, counts, macs, x, ops, status, next, k);
    assert LeafIs(t, leaves, nodes, k);
  }

  /** Decisions to split are for full leaves. */
  lemma SplitDecisionIsFull(t: View, leaves: seq<nat>, counts: seq<nat>, macs: seq<nat>, x: Setting, i: nat)
    requires HasExactCounts(t, leaves, counts, macs, x) && i < |counts| && ThresholdsHold(x.bucketSize)
    requires MergeCountAndMacOp(t, counts, macs, x.start, x.end, x.bucketSize, i) > 1
    ensures IsFull(t, macs, x, i)
  {
    SplitDecision(t, counts, macs, x, i);
    FocusSplitIsLargest(t, counts, macs, x.start, x.end, x.bucketSize, i);
    ExactCount(t, leaves, counts, macs, x, i);
  }

  /** A leaf that is split is full, or has a key inside. */
  lemma SplitLeafMeans(t: View, leaves: seq<nat>, nodes: seq<nat>, counts: seq<nat>, macs: seq<nat>, x: Setting,
                       ops: seq<nat>, k: nat)
    requires AreFinalOps(t, leaves, nodes, counts, macs, x, ops) && k < |nodes| && ThresholdsHold(x.bucketSize)
    requires LeafOps(t, ops, nodes)[k] > 1
    ensures IsFull(t, macs, x, nodes[k]) || HoldsKey(x, StartOf(t, nodes[k]), HeightOf(t, nodes[k]))
  {
    var i := nodes[k];
    assert LeafIs(t, leaves, nodes, k);
    LeafOpFits(t, leaves, nodes, ops, k);
    assert IsFinalOp(t, counts, macs, x, ops, i);
    if ops[i] == MergeCountAndMacOp(t, counts, macs, x.start, x.end, x.bucketSize, i) {
      SplitDecisionIsFull(t, leaves, counts, macs, x, i);
    } else {
      ForcedHoldsKey(t, leaves, x, i);
    }
  }

  /** A leaf that is subdivided afterwards has been split. */
  lemma CutLeafIsSplit(leaves: seq<nat>, leafOps: seq<nat>, k: nat, L: nat)
    requires Cornerstone(leaves, L) && OpsFit(leaves, leafOps) && k < |leafOps|
    requires IsCut(Rebalanced(leaves, leafOps), leaves[k], LeafHeight(leaves, k))
    ensures leafOps[k] > 1
  {
    var key: nat :| key in Rebalanced(leaves, leafOps) && leaves[k] < key < leaves[k] + Pow8(LeafHeight(leaves, k));
    LeafCellFacts(leaves, k, L);
    var i := NewKeyIsInside(leaves, leafOps, key, L);
    OneLeafAround(leaves, i, k, key);
  }

  lemma LeafIsNext(t: View, leaves: seq<nat>, nodes: seq<nat>, counts: seq<nat>, macs: seq<nat>, x: Setting,
                   ops: seq<nat>, status: ResolutionStatus, next: seq<nat>, k: nat)
    requires IsStep(t, leaves, nodes, counts, macs, x, ops, status, next) && k < |nodes|
    requires HeightOf(t, nodes[k]) >= 1
    ensures IsNextAt(t, leaves, macs, x, next, nodes[k])
  {
    var i := nodes[k];
    var s, h := StartOf(t, i), HeightOf(t, i);
    assert LeafIs(t, leaves, nodes, k);
    if IsFull(t, macs, x, i) { FullLeafIsSplit(t, leaves, nodes, counts, macs, x, ops, status, next, k); }
    if HoldsKey(x, s, h) { KeyCuts(next, x, s, h); }
    if IsCut(next, s, h) && ThresholdsHold(x.bucketSize) {
      assert NodeFits(t, leaves, i);
      NodeEnds(leaves, s, h, t.L);
      CutBefore(t, leaves, nodes, counts, macs, x, ops, status, next, s, h);
      if !HoldsKey(x, s, h) {
        CutLeafIsSplit(leaves, LeafOps(t, ops, nodes), k, x.L);
        SplitLeafMeans(t, leaves, nodes, counts, macs, x, ops, k);
      }
    }
  }

  // ------------------------------------------------------------- all nodes

  /** After an update from exact counts, nodes are subdivided exactly if they are full or have a key inside. */
  lemma UpdateIsNext(t: View, leaves: seq<nat>, leafToInternal: seq<nat>, nodes: seq<nat>, counts: seq<nat>,
                     macs: seq<nat>, x: Setting, next: seq<nat>)
    requires HasExactCounts(t, leaves, counts, macs, x)
    requires IsStart(t, leaves, leafToInternal, nodes, counts, macs, x)
    requires IsStepOf(t, leaves, leafToInternal, counts, macs, x, next)
    requires Cornerstone(next, x.L) && HasKeys(next, x)
    ensures IsNext(t, leaves, macs, x, next)
  {
    var ops, status := UpdateIsStep(t, leaves, leafToInternal, nodes, counts, macs, x, next);
    forall i: nat | i < |macs| && HeightOf(t, i) >= 1 ensures IsNextAt(t, leaves, macs, x, next, i) {
      if t.childOffsets[i] == 0 {
        var k := LeafNumber(t, leaves, nodes, i);
        LeafIsNext(t, leaves, nodes, counts, macs, x, ops, status, next, k);
      } else {
        InternalIsNext(t, leaves, nodes, counts, macs, x, ops, status, next, i);
      }
    }
  }

  // ------------------------------------------------------------- where updates settle, and how they start

  /** Besides counts, the marks are those of the octree. */
  ghost predicate IsAccurate(t: View, leaves: seq<nat>, counts: seq<nat>, macs: seq<nat>, x: Setting) {
    && HasExactCounts(t, leaves, counts, macs, x)
    && forall i: nat :: i < |macs| ==> IsMarkOf(t, macs, x, FocusLeaves(leaves, x.start, x.end), i)
  }

  /** From such a state, an update changes nothing exactly if the leaves are the octree of the setting. */
  lemma UnchangedMeans(t: View, leaves: seq<nat>, leafToInternal: seq<nat>, nodes: seq<nat>, counts: seq<nat>,
                       macs: seq<nat>, x: Setting, next: seq<nat>)
    requires IsAccurate(t, leaves, counts, macs, x)
    requires IsStart(t, leaves, leafToInternal, nodes, counts, macs, x)
    requires IsStepOf(t, leaves, leafToInternal, counts, macs, x, next)
    requires HasKeys(next, x) && ThresholdsHold(x.bucketSize)
    ensures next == leaves <==> IsFocusOctreeOf(leaves, x)
  {
    if HasKeys(leaves, x) {
      var f := FocusLeaves(leaves, x.start, x.end);
      forall i: nat | i < |counts| ensures NodeIsMeasured(t, counts, macs, x, f, i) {
        assert CountsParticles(t, counts, x.particles, i) && IsMarkOf(t, macs, x, f, i);
      }
      assert IsMeasured(t, leaves, counts, macs, x);
      StepOfRun(t, leaves, leafToInternal, nodes, counts, macs, x, next);
    }
  }

  /** What a new octree starts with. */
  ghost predicate IsNewState(leaves: seq<nat>, counts: seq<nat>, macs: seq<nat>, x: Setting) {
    leaves == [0, Pow8(x.L)] && counts == [(x.bucketSize + 1) % UNSIGNED_LIMIT] && macs == [1]
  }

  /** The first update of a new octree splits the root. */
  lemma FirstUpdateSplits(t: View, leaves: seq<nat>, leafToInternal: seq<nat>, nodes: seq<nat>, counts: seq<nat>,
                          macs: seq<nat>, x: Setting, next: seq<nat>)
    requires IsStart(t, leaves, leafToInternal, nodes, counts, macs, x) && x.L > 0
    requires IsNewState(leaves, counts, macs, x) && ThresholdsHold(x.bucketSize)
    requires IsStepOf(t, leaves, leafToInternal, counts, macs, x, next)
    ensures next != leaves && IsCut(next, 0, x.L)
  {
    var before, keys := DecisionsFor(t, counts, macs, x), AllMandatory(x);
    var (ops, status) := AfterEnforcing(t, before, keys, |keys|);
    DecisionsInvariant(t, leaves, counts, macs, x.start, x.end, x.bucketSize);
    var r := EnforcedAfter(t, leaves, before, keys, |keys|);
    assert LeafIs(t, leaves, nodes, 0);
    NewRootDecision(t, counts, macs, x);
    assert before[0] <= ops[0];
    var leafOps := LeafOps(t, ops, nodes);
    LeafOpsMergeWhole(t, leaves, nodes, ops);
    SplitCuts(leaves, leafOps, 0);
    LeafCellFacts(leaves, 0, x.L);
    var key: nat :| key in Rebalanced(leaves, leafOps) && leaves[0] < key < leaves[0] + Pow8(LeafHeight(leaves, 0));
    assert key in KeySet(Rebalanced(leaves, leafOps)) && key !in leaves;
    if status == Failed { assert key in KeySet(next); }
  }

  lemma NewRootDecision(t: View, counts: seq<nat>, macs: seq<nat>, x: Setting)
    requires |t.prefixes| == 1 <= |t.childOffsets| && t.childOffsets[0] == 0 && HeightOf(t, 0) == x.L > 0
    requires counts == [(x.bucketSize + 1) % UNSIGNED_LIMIT] && macs == [1] && ThresholdsHold(x.bucketSize)
    ensures MergeCountAndMacOp(t, counts, macs, x.start, x.end, x.bucketSize, 0) > 1
  {
    assert x.bucketSize < UNSIGNED_LIMIT - 1;
  }

  /** Everything that an update means for a setting. */
  ghost predicate IsUpdateFor(t: View, leaves: seq<nat>, counts: seq<nat>, macs: seq<nat>, x: Setting, next: seq<nat>)
  {
    && (HasExactCounts(t, leaves, counts, macs, x) ==> IsNext(t, leaves, macs, x, next))
    && (IsAccurate(t, leaves, counts, macs, x) && ThresholdsHold(x.bucketSize) ==>
          (next == leaves <==> IsFocusOctreeOf(leaves, x)))
    && (IsNewState(leaves, counts, macs, x) && ThresholdsHold(x.bucketSize) && x.L > 0 ==>
          next != leaves && IsCut(next, 0, x.L))
  }

  lemma UpdateMeansFor(t: View, leaves: seq<nat>, leafToInternal: seq<nat>, nodes: seq<nat>, counts: seq<nat>,
                       macs: seq<nat>, x: Setting, next: seq<nat>)
    requires IsStart(t, leaves, leafToInternal, nodes, counts, macs, x)
    requires IsStepOf(t, leaves, leafToInternal, counts, macs, x, next)
    requires Cornerstone(next, x.L) && HasKeys(next, x)
    ensures IsUpdateFor(t, leaves, counts, macs, x, next)
  {
    if HasExactCounts(t, leaves, counts, macs, x) {
      UpdateIsNext(t, leaves, leafToInternal, nodes, counts, macs, x, next);
    }
    if IsAccurate(t, leaves, counts, macs, x) && ThresholdsHold(x.bucketSize) {
      UnchangedMeans(t, leaves, leafToInternal, nodes, counts, macs, x, next);
    }
    if IsNewState(leaves, counts, macs, x) && ThresholdsHold(x.bucketSize) && x.L > 0 {
      FirstUpdateSplits(t, leaves, leafToInternal, nodes, counts, macs, x, next);
    }
  }
}
