/** Trees in which the fixed stack of the dual traversal is too small. */
module StackBound {
  import opened Traversal
  import opened DualTraversal

  // ------------------------------------------------------------------ full subtrees

  /** All leaves below a node have the same depth; height counts the levels. */
  ghost predicate IsUniform(childOffsets: seq<nat>, n: nat, height: nat -> nat) {
    n <= |childOffsets| && forall i: nat :: i < n ==> IsUniformAt(childOffsets, height, i)
  }

  ghost predicate IsUniformAt(childOffsets: seq<nat>, height: nat -> nat, i: nat)
    requires i < |childOffsets|
  {
    && (childOffsets[i] == 0 <==> height(i) == 0)
    && forall d: nat :: d < 8 && childOffsets[i] != 0 ==> IsOneLower(height, childOffsets[i], d, i)
  }

  ghost predicate IsOneLower(height: nat -> nat, first: nat, d: nat, i: nat) {
    height(first + d) + 1 == height(i)
  }

  /** A set of pairs of nodes that are all near, closed under subdivision. */
  ghost predicate IsDense(childOffsets: seq<nat>, n: nat, near: NodePair -> bool, dense: NodePair -> bool) {
    && n <= |childOffsets|
    && (forall p: NodePair :: dense(p) ==> p.0 < n && p.1 < n && near(p))
    && forall p: NodePair, k: nat :: dense(p) && k < 8 && !IsLeafPair(childOffsets, p) ==>
         IsDensePart(childOffsets, dense, p, k)
  }

  ghost predicate IsDensePart(childOffsets: seq<nat>, dense: NodePair -> bool, p: NodePair, k: nat) {
    p.0 < |childOffsets| && p.1 < |childOffsets| && dense(Part(childOffsets, p, k))
  }

  lemma PartOfUniform(childOffsets: seq<nat>, n: nat, height: nat -> nat, near: NodePair -> bool,
                      dense: NodePair -> bool, p: NodePair, k: nat)
    requires IsUniform(childOffsets, n, height) && IsDense(childOffsets, n, near, dense) && dense(p)
    requires !IsLeafPair(childOffsets, p) && k < 8
    ensures p.0 < n && p.1 < n
    ensures var q := Part(childOffsets, p, k);
            && dense(q) && q.0 < n && q.1 < n && near(q) && height(p.0) + height(p.1) >= 1
            && height(q.0) + height(q.1) + 1 == height(p.0) + height(p.1)
            && (IsLeafPair(childOffsets, q) <==> height(q.0) + height(q.1) == 0)
  {
    assert IsDensePart(childOffsets, dense, p, k);
    var v := if SubdividesTarget(childOffsets, p) then p.0 else p.1;
    assert IsUniformAt(childOffsets, height, p.0) && IsUniformAt(childOffsets, height, p.1);
    assert IsOneLower(height, childOffsets[v], k, v);
    var q := Part(childOffsets, p, k);
    assert IsUniformAt(childOffsets, height, q.0) && IsUniformAt(childOffsets, height, q.1);
  }

  /** The bound of 7 entries for every level is attained when everything is near. */
  lemma {:induction false} NeedOfFull(childOffsets: seq<nat>, parents: seq<nat>, n: nat, height: nat -> nat,
                                      near: NodePair -> bool, dense: NodePair -> bool, p: NodePair, h: nat)
    requires TreeShape(childOffsets, parents, n) && IsUniform(childOffsets, n, height)
    requires IsDense(childOffsets, n, near, dense)
    requires dense(p) && !IsLeafPair(childOffsets, p) && h == height(p.0) + height(p.1)
    ensures p.0 < n && p.1 < n && Need(childOffsets, parents, n, near, p) + 6 == 7 * h
    decreases h, 9
  {
    PartOfUniform(childOffsets, n, height, near, dense, p, 0);
    PartsNeedOfFull(childOffsets, parents, n, height, near, dense, p, h, OCTANTS);
  }

  lemma {:induction false} PartsNeedOfFull(childOffsets: seq<nat>, parents: seq<nat>, n: nat, height: nat -> nat,
                                           near: NodePair -> bool, dense: NodePair -> bool, p: NodePair, h: nat, k: nat)
    requires TreeShape(childOffsets, parents, n) && IsUniform(childOffsets, n, height)
    requires IsDense(childOffsets, n, near, dense)
    requires dense(p) && p.0 < n && p.1 < n && !IsLeafPair(childOffsets, p) && h == height(p.0) + height(p.1) && k <= 8
    ensures PushCount(childOffsets, near, p, k) == if h == 1 then 0 else k
    ensures PartsNeed(childOffsets, parents, n, near, p, k) + 14 == if h == 1 || k == 0 then 14 else 7 * h + k
    decreases h, k
  {
    if k > 0 {
      PartsNeedOfFull(childOffsets, parents, n, height, near, dense, p, h, k - 1);
      PartOfUniform(childOffsets, n, height, near, dense, p, k - 1);
      OneMorePart(childOffsets, parents, n, near, p, k - 1);
      var q := Part(childOffsets, p, k - 1);
      if h > 1 { NeedOfFull(childOffsets, parents, n, height, near, dense, q, h - 1); }
    }
  }

  lemma OneMorePart(childOffsets: seq<nat>, parents: seq<nat>, n: nat, near: NodePair -> bool, p: NodePair, k: nat)
    requires TreeShape(childOffsets, parents, n) && p.0 < n && p.1 < n && !IsLeafPair(childOffsets, p) && k < 8
    ensures var q := Part(childOffsets, p, k);
            && q.0 < n && q.1 < n
            && PushCount(childOffsets, near, p, k + 1) ==
               PushCount(childOffsets, near, p, k) + (if IsPushed(childOffsets, near, q) then 1 else 0)
            && PartsNeed(childOffsets, parents, n, near, p, k + 1) ==
               Larger(PartsNeed(childOffsets, parents, n, near, p, k),
                      if IsPushed(childOffsets, near, q)
                      then PushCount(childOffsets, near, p, k) + Need(childOffsets, parents, n, near, q) else 0)
  {
    PartIsLower(childOffsets, parents, n, p, k);
  }

  // ------------------------------------------------------------------ a uniform octree of any height

  /** Nodes of the uniform octree of height h. */
  function Nodes(h: nat): (n: nat)
    ensures n >= 1
  {
    if h == 0 then 1 else 8 * Nodes(h - 1) + 1
  }

  /** In breadth-first order, the children of node i start at 8 i + 1. */
  function UniformOffsets(h: nat): (childOffsets: seq<nat>)
    ensures |childOffsets| == Nodes(h)
  {
    seq(Nodes(h), (i: nat) => if h > 0 && i < Nodes(h - 1) then 8 * i + 1 else 0)
  }

  function UniformParents(h: nat): (parents: seq<nat>) {
    if h == 0 then [] else seq(Nodes(h - 1), (i: nat) => i)
  }

  lemma UniformIsTree(h: nat)
    ensures TreeShape(UniformOffsets(h), UniformParents(h), Nodes(h))
  {
    var c, parents, n := UniformOffsets(h), UniformParents(h), Nodes(h);
    forall i: nat | i < n ensures ChildrenKnowParent(c, parents, n, i) {}
    forall i: nat | 0 < i < n ensures ParentKnowsChildren(c, parents, n, i) {
      assert h > 0;
      assert (i - 1) / 8 < Nodes(h - 1);
    }
  }

  /** Level of node i, whose parent is node (i - 1) / 8. */
  ghost function Depth(i: nat): (depth: nat) {
    if i == 0 then 0 else 1 + Depth((i - 1) / 8)
  }

  ghost function UniformHeight(h: nat): (height: nat -> nat) {
    (i: nat) => if Depth(i) <= h then h - Depth(i) else 0
  }

  /** The nodes down to level l come first. */
  lemma {:induction false} DepthOfNode(i: nat, l: nat)
    ensures i < Nodes(l) <==> Depth(i) <= l
  {
    if i > 0 && l > 0 { DepthOfNode((i - 1) / 8, l - 1); }
  }

  lemma UniformIsUniform(h: nat)
    ensures IsUniform(UniformOffsets(h), Nodes(h), UniformHeight(h))
  {
    var c, height := UniformOffsets(h), UniformHeight(h);
    forall i: nat | i < Nodes(h) ensures IsUniformAt(c, height, i) { UniformNode(h, i); }
  }

  lemma UniformNode(h: nat, i: nat)
    requires i < Nodes(h)
    ensures IsUniformAt(UniformOffsets(h), UniformHeight(h), i)
  {
    LeafLevel(h, i);
    ChildrenAreLower(h, i, 8 * i + 1);
  }

  lemma LeafLevel(h: nat, i: nat)
    requires i < Nodes(h)
    ensures Depth(i) <= h && (UniformOffsets(h)[i] != 0 <==> Depth(i) < h)
    ensures UniformOffsets(h)[i] != 0 ==> UniformOffsets(h)[i] == 8 * i + 1
  {
    DepthOfNode(i, h);
    if h > 0 { DepthOfNode(i, h - 1); }
  }

  lemma ChildrenAreLower(h: nat, i: nat, first: nat)
    requires first == 8 * i + 1
    ensures Depth(i) < h ==> forall d: nat :: d < 8 ==> IsOneLower(UniformHeight(h), first, d, i)
  {
    if Depth(i) < h {
      forall d: nat | d < 8 ensures IsOneLower(UniformHeight(h), first, d, i) { DepthOfChild(i, d); }
    }
  }

  lemma DepthOfChild(i: nat, d: nat)
    requires d < 8
    ensures Depth(8 * i + 1 + d) == Depth(i) + 1
  {
    var c := 8 * i + 1 + d;
    assert (c - 1) / 8 == i;
  }

  /** Two uniform octrees of height 10 in which everything is near: 134 entries. */
  lemma HeightTenOverflows(near: NodePair -> bool)
    requires forall p: NodePair :: near(p)
    ensures TreeShape(UniformOffsets(10), UniformParents(10), Nodes(10))
    ensures Need(UniformOffsets(10), UniformParents(10), Nodes(10), near, (0, 0)) == 134 > STACK_SIZE
  {
    var h: nat := 10;
    FullNeedIs(h, near);
  }

  lemma FullNeedIs(h: nat, near: NodePair -> bool)
    requires h > 0 && forall p: NodePair :: near(p)
    ensures TreeShape(UniformOffsets(h), UniformParents(h), Nodes(h))
    ensures Need(UniformOffsets(h), UniformParents(h), Nodes(h), near, (0, 0)) + 6 == 14 * h
  {
    var c, parents, n := UniformOffsets(h), UniformParents(h), Nodes(h);
    UniformIsTree(h);
    UniformIsUniform(h);
    var dense := (p: NodePair) => p.0 < n && p.1 < n;
    forall p: NodePair, k: nat | dense(p) && k < 8 && !IsLeafPair(c, p) ensures IsDensePart(c, dense, p, k) {
      PartIsLower(c, parents, n, p, k);
    }
    NeedOfFull(c, parents, n, UniformHeight(h), near, dense, (0, 0), 2 * h);
  }
}
