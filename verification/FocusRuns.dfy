/** Updating a focused octree until nothing changes. */
module FocusRuns {
  import opened Keys
  import opened CornerstoneArray
  import opened Counts
  import opened OctreeView
  import opened FocusRebalance
  import opened FocusUpdate
  import opened FocusOctrees
  import opened FocusedOctree
  import opened FocusConvergence
  import opened FocusSteps

  /** The setting is one for this octree. */
  ghost predicate Fits(tree: FocusedOctreeSingleNode, x: Setting) {
    && x.L == tree.L && x.bucketSize == tree.bucketSize && x.start <= x.end <= Pow8(x.L)
    && (forall k: nat :: k < |x.mandatory| ==> x.mandatory[k] <= Pow8(x.L))
    && Sorted(x.particles) && |x.particles| < UNSIGNED_LIMIT
  }

  function ViewOf(tree: FocusedOctreeSingleNode): (t: View)
    reads tree.tree
  {
    View(tree.tree.prefixes, tree.tree.childOffsets, tree.tree.parents, tree.L)
  }

  /** Keys, counts and marks are those that an update in this setting leaves behind. */
  ghost predicate IsReady(tree: FocusedOctreeSingleNode, x: Setting)
    reads tree, tree.tree
  {
    IsMeasured(ViewOf(tree), tree.leaves, tree.counts, tree.macs, x)
  }

  /** An update leaves a measured state. */
  lemma UpdatedIsReady(t: View, leaves: seq<nat>, leafCounts: seq<nat>, counts: seq<nat>, macs: seq<nat>, x: Setting)
    requires IsView(t, leaves) && AncestorMonotone(t, counts, macs) && t.L == x.L && x.start <= x.end
    requires |x.particles| < UNSIGNED_LIMIT && HasKeys(leaves, x)
    requires AreMarks(t, MarkingOf(t, x, FocusLeaves(leaves, x.start, x.end)), macs)
    requires AreAllCounts(t, leaves, leafCounts, counts, x.particles)
    ensures IsMeasured(t, leaves, counts, macs, x)
  {
    MarksAreCells(t, leaves, x, FocusLeaves(leaves, x.start, x.end), macs);
  }

  /** An update from a ready state: it settles exactly in the octree of the setting, and otherwise the leaves come
      closer to it, unless no leaf can ever fit. */
  ghost predicate IsRunStep(leaves: seq<nat>, next: seq<nat>, x: Setting) {
    && (ThresholdsHold(x.bucketSize) ==>
          && (next == leaves <==> IsFocusOctreeOf(leaves, x))
          && (next != leaves ==> |leaves| > 0 && |next| > 0 && IsCloser(leaves, next, x)))
    && (NeverFits(x) ==> next != leaves)
  }

  lemma UpdateMeans(t: View, leaves: seq<nat>, leafToInternal: seq<nat>, nodes: seq<nat>, counts: seq<nat>,
                    macs: seq<nat>, x: Setting, next: seq<nat>)
    requires IsStart(t, leaves, leafToInternal, nodes, counts, macs, x)
    requires IsStepOf(t, leaves, leafToInternal, counts, macs, x, next)
    ensures IsMeasured(t, leaves, counts, macs, x) ==> IsRunStep(leaves, next, x)
    ensures IsNewState(leaves, counts, macs, x) && ThresholdsHold(x.bucketSize) && x.L > 0 ==> next != leaves
  {
    if IsMeasured(t, leaves, counts, macs, x) {
      StepOfRun(t, leaves, leafToInternal, nodes, counts, macs, x, next);
    }
    if IsNewState(leaves, counts, macs, x) && ThresholdsHold(x.bucketSize) && x.L > 0 {
      FirstUpdateSplits(t, leaves, leafToInternal, nodes, counts, macs, x, next);
    }
  }

  lemma NodesOf(tree: FocusedOctreeSingleNode, x: Setting) returns (nodes: seq<nat>)
    requires tree.Valid() && Fits(tree, x)
    ensures IsStart(ViewOf(tree), tree.leaves, tree.tree.leafToInternal, nodes, tree.counts, tree.macs, x)
  {
    LeafNodesOf(tree.tree, tree.leaves, tree.L);
    nodes := tree.tree.leafToInternal[tree.tree.numInternalNodes..];
  }

  /** One update, with the state before it. */
  method UpdateFrom(tree: FocusedOctreeSingleNode, x: Setting, ghost t: View, ghost leaves: seq<nat>,
                    ghost leafToInternal: seq<nat>, ghost counts: seq<nat>, ghost macs: seq<nat>)
    returns (converged: bool)
    requires tree.Valid() && Fits(tree, x)
    requires t == ViewOf(tree) && leaves == tree.leaves && leafToInternal == tree.tree.leafToInternal
    requires counts == tree.counts && macs == tree.macs
    modifies tree, tree.tree
    ensures tree.Valid() && IsReady(tree, x)
    ensures converged <==> tree.leaves == leaves
    ensures |t.prefixes| == |counts| == |macs| && |t.prefixes| <= |t.childOffsets|
    ensures IsFocusStep(t, leaves, leafToInternal, DecisionsFor(t, counts, macs, x), AllMandatory(x), tree.leaves)
  {
    converged := tree.Update(x.particles, x.start, x.end, x.mandatory, x.near, x.inside);
    LeafNodesOf(tree.tree, tree.leaves, tree.L);
    UpdatedIsReady(ViewOf(tree), tree.leaves, tree.leafCounts, tree.counts, tree.macs, x);
  }

  /** The same with what it means. */
  method UpdateAndCompare(tree: FocusedOctreeSingleNode, x: Setting, ghost t: View, ghost leaves: seq<nat>,
                          ghost leafToInternal: seq<nat>, ghost nodes: seq<nat>, ghost counts: seq<nat>,
                          ghost macs: seq<nat>)
    returns (converged: bool)
    requires tree.Valid() && Fits(tree, x) && IsStart(t, leaves, leafToInternal, nodes, counts, macs, x)
    requires t == ViewOf(tree) && leaves == tree.leaves && leafToInternal == tree.tree.leafToInternal
    requires counts == tree.counts && macs == tree.macs
    modifies tree, tree.tree
    ensures tree.Valid() && IsReady(tree, x)
    ensures converged <==> tree.leaves == leaves
    ensures IsMeasured(t, leaves, counts, macs, x) ==> IsRunStep(leaves, tree.leaves, x)
    ensures IsNewState(leaves, counts, macs, x) && ThresholdsHold(x.bucketSize) && x.L > 0 ==> !converged
  {
    converged := UpdateFrom(tree, x, t, leaves, leafToInternal, counts, macs);
    UpdateMeans(t, leaves, leafToInternal, nodes, counts, macs, x, tree.leaves);
  }

  /** One update in a run. */
  method UpdateOnce(tree: FocusedOctreeSingleNode, x: Setting) returns (converged: bool)
    requires tree.Valid() && Fits(tree, x)
    modifies tree, tree.tree
    ensures tree.Valid() && IsReady(tree, x)
    ensures converged <==> tree.leaves == old(tree.leaves)
    ensures old(IsReady(tree, x)) ==> IsRunStep(old(tree.leaves), tree.leaves, x)
    ensures old(tree.IsNew()) && ThresholdsHold(x.bucketSize) && x.L > 0 ==> !converged
  {
    ghost var nodes := NodesOf(tree, x);
    converged := UpdateAndCompare(tree, x, ViewOf(tree), tree.leaves, tree.tree.leafToInternal, nodes, tree.counts,
                                  tree.macs);
  }

  lemma LevelZero(leaves: seq<nat>, x: Setting)
    requires Cornerstone(leaves, x.L) && HasKeys(leaves, x) && x.L == 0
    ensures IsFocusOctreeOf(leaves, x)
  {
  }

  /** Update until nothing changes. This ends; from a new octree or a ready state, in the octree of the setting. */
  method Converge(tree: FocusedOctreeSingleNode, x: Setting) returns (updates: nat)
    requires tree.Valid() && Fits(tree, x) && ThresholdsHold(x.bucketSize)
    modifies tree, tree.tree
    ensures tree.Valid() && IsReady(tree, x)
    ensures old(tree.IsNew() || IsReady(tree, x)) || updates > 1 ==> IsFocusOctreeOf(tree.leaves, x)
  {
    ghost var isNew := tree.IsNew();
    var converged := UpdateOnce(tree, x);
    updates := 1;
    if converged && isNew && x.L == 0 { LevelZero(tree.leaves, x); }
    while !converged
      invariant tree.Valid() && IsReady(tree, x) && updates > 0
      invariant converged && (old(IsReady(tree, x)) || isNew || updates > 1) ==> IsFocusOctreeOf(tree.leaves, x)
      decreases !converged, UndividedNear(tree.leaves, x), |FocusLeaves(tree.leaves, x.start, x.end)|,
                Undivided(tree.leaves, x, FocusLeaves(tree.leaves, x.start, x.end)), |tree.leaves|
    {
      converged := UpdateOnce(tree, x);
      updates := updates + 1;
    }
  }
}
