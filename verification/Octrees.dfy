/** Octrees as recursive trees. A cornerstone array is the list of the leaves of exactly one such tree, and the
    closed-form index of an internal node is its number in the recursive in-order traversal of the tree. */
module Octrees {
  import opened Keys
  import opened CornerstoneArray
  import opened ComputeOctree
  import opened InOrder

  /** A cell is a leaf, or is divided into eight octants. */
  datatype Octree = Leaf | Node(children: seq<Octree>)

  const OCTANTS := 8
  const MIDDLE := 4

  /** The tree divides a cell of height h. */
  predicate Fits(t: Octree, h: nat)
    decreases h, 1
  {
    t.Leaf? || (h >= 1 && AreOctants(t.children, h))
  }

  /** Eight trees for the children of a cell of height h. */
  predicate AreOctants(children: seq<Octree>, h: nat)
    requires h >= 1
    decreases h, 0
  {
    |children| == OCTANTS && forall d: nat :: d < OCTANTS ==> Fits(children[d], h - 1)
  }

  /** Where child n - 1 starts and ends. */
  lemma ChildCell(s: nat, h: nat, n: nat)
    requires h >= 1 && 0 < n && Aligned(s, h)
    ensures Aligned(ChildStart(s, h, n - 1), h - 1) && ChildStart(s, h, n - 1) + Pow8(h - 1) == ChildStart(s, h, n)
  {
    AlignedWeaken(s, h - 1, h);
    NthAligned(s, h - 1, n - 1);
  }

  // ------------------------------------------------------------- leaves from left to right

  /** Start keys of the leaves of the cell (s, h). */
  function LeafKeys(t: Octree, s: nat, h: nat): (keys: seq<nat>)
    requires Fits(t, h)
    ensures |keys| > 0
    decreases h, OCTANTS + 1
  {
    if t.Leaf? then [s] else KeysOfChildren(t.children, s, h, |t.children|)
  }

  /** Start keys of the leaves of the first n children of the cell. */
  function KeysOfChildren(children: seq<Octree>, s: nat, h: nat, n: nat): (keys: seq<nat>)
    requires h >= 1 && n <= |children| && AreOctants(children, h)
    ensures |keys| >= n
    decreases h, n
  {
    if n == 0 then [] else
      KeysOfChildren(children, s, h, n - 1) + LeafKeys(children[n - 1], ChildStart(s, h, n - 1), h - 1)
  }

  /** The flattening of a tree: its leaves, and the end of the curve. */
  function Flattened(t: Octree, L: nat): (a: seq<nat>)
    requires Fits(t, L)
  {
    LeafKeys(t, 0, L) + [Pow8(L)]
  }

  // ------------------------------------------------------------- the recursive traversal

  /** The internal nodes of the cell (s, h), each as start key and height, in the order of a traversal that visits
      four children, then the node, then the other four. */
  function Visits(t: Octree, s: nat, h: nat): (nodes: seq<(nat, nat)>)
    requires Fits(t, h)
    decreases h, OCTANTS + 1
  {
    if t.Leaf? then [] else VisitsUpTo(t.children, s, h, |t.children|)
  }

  /** The visits up to and including those of the first n children. */
  function VisitsUpTo(children: seq<Octree>, s: nat, h: nat, n: nat): (nodes: seq<(nat, nat)>)
    requires h >= 1 && n <= |children| && AreOctants(children, h)
    decreases h, n
  {
    if n == 0 then [] else
      VisitsUpTo(children, s, h, n - 1) + Between(s, h, n - 1) + Visits(children[n - 1], ChildStart(s, h, n - 1), h - 1)
  }

  /** What is visited before child d: in the middle, the node itself. */
  function Between(s: nat, h: nat, d: nat): (nodes: seq<(nat, nat)>) {
    if d == MIDDLE then [(s, h)] else []
  }

  // ------------------------------------------------------------- flattening gives a cornerstone array

  /** Keys that divide [s, e) into cells. */
  predicate AreCells(keys: seq<nat>, s: nat, e: nat) {
    && keys != [] && keys[0] == s && Ascending(keys + [e])
    && forall i: nat :: i < |keys| ==> CellAt(keys + [e], i)
  }

  lemma CellsJoin(a: seq<nat>, b: seq<nat>, s: nat, m: nat, e: nat)
    requires AreCells(a, s, m) && AreCells(b, m, e)
    ensures AreCells(a + b, s, e)
  {
    var c := a + b + [e];
    forall i: nat, j: nat | i < j < |c| ensures c[i] < c[j] { KeysAscend(a, b, s, m, e, i, j); }
    forall i: nat | i < |a + b| ensures CellAt(c, i) {
      if i < |a| { assert CellAt(a + [m], i); } else { assert CellAt(b + [e], i - |a|); }
    }
  }

  lemma KeysAscend(a: seq<nat>, b: seq<nat>, s: nat, m: nat, e: nat, i: nat, j: nat)
    requires AreCells(a, s, m) && AreCells(b, m, e) && i < j < |a + b + [e]|
    ensures (a + b + [e])[i] < (a + b + [e])[j]
  {
    if j < |a| {
      assert (a + [m])[i] < (a + [m])[j];
    } else if i < |a| {
      assert (a + [m])[i] < (a + [m])[|a|];
      if j > |a| { assert (b + [e])[0] < (b + [e])[j - |a|]; }
    } else {
      assert (b + [e])[i - |a|] < (b + [e])[j - |a|];
    }
  }

  lemma {:induction false} LeavesAreCells(t: Octree, s: nat, h: nat)
    requires Fits(t, h) && Aligned(s, h)
    ensures AreCells(LeafKeys(t, s, h), s, s + Pow8(h))
    decreases h, OCTANTS + 1
  {
    if t.Leaf? {
      CellHeight(s, h);
    } else {
      ChildrenAreCells(t.children, s, h, |t.children|);
      EightCells(s, h - 1);
    }
  }

  lemma {:induction false} ChildrenAreCells(children: seq<Octree>, s: nat, h: nat, n: nat)
    requires h >= 1 && 0 < n <= |children| && AreOctants(children, h)
    requires Aligned(s, h)
    ensures AreCells(KeysOfChildren(children, s, h, n), s, ChildStart(s, h, n))
    decreases h, n
  {
    ChildCell(s, h, n);
    LeavesAreCells(children[n - 1], ChildStart(s, h, n - 1), h - 1);
    if n == 1 {
      assert KeysOfChildren(children, s, h, 0) == [];
      assert KeysOfChildren(children, s, h, 1) == LeafKeys(children[0], ChildStart(s, h, 0), h - 1);
    } else {
      ChildrenAreCells(children, s, h, n - 1);
      CellsJoin(KeysOfChildren(children, s, h, n - 1), LeafKeys(children[n - 1], ChildStart(s, h, n - 1), h - 1), s,
                ChildStart(s, h, n - 1), ChildStart(s, h, n));
    }
  }

  // ------------------------------------------------------------- every array is the flattening of one tree

  /** From position p, the array has the leaves of the tree, up to the end of the cell. */
  ghost predicate HasLeaves(a: seq<nat>, p: nat, keys: seq<nat>, e: nat) {
    p + |keys| < |a| && a[p..p + |keys|] == keys && a[p + |keys|] == e
  }

  lemma {:induction false} TreeAt(a: seq<nat>, p: nat, s: nat, h: nat, L: nat) returns (t: Octree)
    requires Cornerstone(a, L) && h <= L && Aligned(s, h) && p < |a| && a[p] == s && s + Pow8(h) in a
    ensures Fits(t, h) && HasLeaves(a, p, LeafKeys(t, s, h), s + Pow8(h))
    decreases h, OCTANTS + 1
  {
    var q: nat :| q < |a| && a[q] == s + Pow8(h);
    UniqueOrder(a, p, q);
    if q == p + 1 {
      t := Leaf;
    } else {
      IsCutAt(a, p, q, s, h);
      var children := ChildrenAt(a, p, s, h, L, OCTANTS);
      EightCells(s, h - 1);
      t := Node(children);
    }
  }

  lemma IsCutAt(a: seq<nat>, p: nat, q: nat, s: nat, h: nat)
    requires Ascending(a) && p + 1 < q < |a| && a[p] == s && a[q] == s + Pow8(h)
    ensures IsCut(a, s, h) && h >= 1
  {
    assert a[p + 1] in a && s < a[p + 1] < s + Pow8(h);
  }

  /** Subtrees of the first n children. The other entries are leaves until they are filled in. */
  lemma {:induction false} ChildrenAt(a: seq<nat>, p: nat, s: nat, h: nat, L: nat, n: nat)
    returns (children: seq<Octree>)
    requires Cornerstone(a, L) && 1 <= h <= L && Aligned(s, h) && p < |a| && a[p] == s && IsCut(a, s, h) && n <= OCTANTS
    ensures AreOctants(children, h)
    ensures HasLeaves(a, p, KeysOfChildren(children, s, h, n), ChildStart(s, h, n))
    decreases h, n
  {
    if n == 0 {
      children := seq(OCTANTS, _ => Leaf);
    } else {
      var front := ChildrenAt(a, p, s, h, L, n - 1);
      var first := KeysOfChildren(front, s, h, n - 1);
      ChildInTree(a, L, s, h, n);
      ChildCell(s, h, n);
      var child := TreeAt(a, p + |first|, ChildStart(s, h, n - 1), h - 1, L);
      children := front[n - 1 := child];
      ChildFilledIn(front, child, s, h, n);
      LeavesFollow(a, p, first, ChildStart(s, h, n - 1), LeafKeys(child, ChildStart(s, h, n - 1), h - 1),
                   ChildStart(s, h, n));
    }
  }

  lemma LeavesFollow(a: seq<nat>, p: nat, keys: seq<nat>, m: nat, more: seq<nat>, e: nat)
    requires HasLeaves(a, p, keys, m) && HasLeaves(a, p + |keys|, more, e)
    ensures HasLeaves(a, p, keys + more, e)
  {
    assert a[p..p + |keys + more|] == a[p..p + |keys|] + a[p + |keys|..p + |keys| + |more|];
  }

  lemma ChildFilledIn(front: seq<Octree>, child: Octree, s: nat, h: nat, n: nat)
    requires h >= 1 && 0 < n <= |front| && AreOctants(front, h) && Fits(child, h - 1)
    ensures var children := front[n - 1 := child];
            && AreOctants(children, h)
            && KeysOfChildren(children, s, h, n) ==
               KeysOfChildren(front, s, h, n - 1) + LeafKeys(child, ChildStart(s, h, n - 1), h - 1)
  {
    SameFirstChildren(front, front[n - 1 := child], s, h, n - 1);
  }

  lemma {:induction false} SameFirstChildren(children: seq<Octree>, others: seq<Octree>, s: nat, h: nat, n: nat)
    requires h >= 1 && n <= |children| && AreOctants(children, h) && AreOctants(others, h)
    requires forall d: nat :: d < n ==> children[d] == others[d]
    ensures KeysOfChildren(children, s, h, n) == KeysOfChildren(others, s, h, n)
  {
    if n > 0 { SameFirstChildren(children, others, s, h, n - 1); }
  }

  /** Equal keys are at the same place. */
  ghost predicate AreDistinct(a: seq<nat>) {
    forall i: nat, j: nat :: IsSamePlace(a, i, j)
  }

  ghost predicate IsSamePlace(a: seq<nat>, i: nat, j: nat) {
    i < |a| && j < |a| && a[i] == a[j] ==> i == j
  }

  lemma AscendingIsDistinct(a: seq<nat>)
    requires Ascending(a)
    ensures AreDistinct(a)
  {
    forall i: nat, j: nat ensures IsSamePlace(a, i, j) {
      if i < |a| && j < |a| && a[i] == a[j] {
        UniqueOrder(a, i, j);
        UniqueOrder(a, j, i);
      }
    }
  }

  lemma {:induction false} OneTreeAt(a: seq<nat>, p: nat, t: Octree, u: Octree, s: nat, h: nat, keys: seq<nat>,
                                     others: seq<nat>)
    requires AreDistinct(a) && Aligned(s, h) && Fits(t, h) && Fits(u, h) && keys == LeafKeys(t, s, h)
    requires others == LeafKeys(u, s, h)
    requires HasLeaves(a, p, keys, s + Pow8(h)) && HasLeaves(a, p, others, s + Pow8(h))
    ensures t == u
    decreases h, OCTANTS + 1
  {
    SamePlace(a, p, keys, others, s + Pow8(h));
    if t.Node? && u.Node? {
      EightCells(s, h - 1);
      SameChildren(a, p, t.children, u.children, s, h, |t.children|, keys, others);
      assert t.children == u.children;
    }
  }

  lemma {:induction false} SameChildren(a: seq<nat>, p: nat, children: seq<Octree>, others: seq<Octree>, s: nat, h: nat,
                                        n: nat, keys: seq<nat>, otherKeys: seq<nat>)
    requires AreDistinct(a) && h >= 1 && Aligned(s, h) && n <= |children| && AreOctants(children, h)
    requires AreOctants(others, h)
    requires keys == KeysOfChildren(children, s, h, n) && otherKeys == KeysOfChildren(others, s, h, n)
    requires HasLeaves(a, p, keys, ChildStart(s, h, n)) && HasLeaves(a, p, otherKeys, ChildStart(s, h, n))
    ensures forall d: nat :: d < n ==> children[d] == others[d]
    decreases h, n
  {
    if n > 0 {
      var first, last := LastChildHasLeaves(a, p, children, s, h, n, keys);
      var first', last' := LastChildHasLeaves(a, p, others, s, h, n, otherKeys);
      SameChildren(a, p, children, others, s, h, n - 1, first, first');
      SamePlace(a, p, first, first', ChildStart(s, h, n - 1));
      OneTreeAt(a, p + |first|, children[n - 1], others[n - 1], ChildStart(s, h, n - 1), h - 1, last, last');
    }
  }

  lemma LastChildHasLeaves(a: seq<nat>, p: nat, children: seq<Octree>, s: nat, h: nat, n: nat, keys: seq<nat>)
    returns (first: seq<nat>, last: seq<nat>)
    requires h >= 1 && 0 < n <= |children| && AreOctants(children, h) && Aligned(s, h)
    requires keys == KeysOfChildren(children, s, h, n) && HasLeaves(a, p, keys, ChildStart(s, h, n))
    ensures first == KeysOfChildren(children, s, h, n - 1) && HasLeaves(a, p, first, ChildStart(s, h, n - 1))
    ensures Aligned(ChildStart(s, h, n - 1), h - 1) && Fits(children[n - 1], h - 1)
    ensures last == LeafKeys(children[n - 1], ChildStart(s, h, n - 1), h - 1)
    ensures HasLeaves(a, p + |first|, last, ChildStart(s, h, n - 1) + Pow8(h - 1))
  {
    first, last := FirstHaveLeaves(a, p, children, s, h, n, keys);
    ChildCell(s, h, n);
  }

  lemma SamePlace(a: seq<nat>, p: nat, keys: seq<nat>, others: seq<nat>, e: nat)
    requires AreDistinct(a) && HasLeaves(a, p, keys, e) && HasLeaves(a, p, others, e)
    ensures keys == others
  {
    assert IsSamePlace(a, p + |keys|, p + |others|);
  }

  /** The leaves of a child follow those of the children before. */
  lemma FirstHaveLeaves(a: seq<nat>, p: nat, children: seq<Octree>, s: nat, h: nat, n: nat, keys: seq<nat>)
    returns (first: seq<nat>, last: seq<nat>)
    requires h >= 1 && 0 < n <= |children| && AreOctants(children, h) && Aligned(s, h)
    requires keys == KeysOfChildren(children, s, h, n) && HasLeaves(a, p, keys, ChildStart(s, h, n))
    ensures first == KeysOfChildren(children, s, h, n - 1)
    ensures last == LeafKeys(children[n - 1], ChildStart(s, h, n - 1), h - 1)
    ensures HasLeaves(a, p, first, ChildStart(s, h, n - 1)) && HasLeaves(a, p + |first|, last, ChildStart(s, h, n))
  {
    first, last := KeysOfChildren(children, s, h, n - 1), LeafKeys(children[n - 1], ChildStart(s, h, n - 1), h - 1);
    ChildCell(s, h, n);
    LeavesAreCells(children[n - 1], ChildStart(s, h, n - 1), h - 1);
    LeavesDivide(a, p, first, last, ChildStart(s, h, n));
  }

  lemma LeavesDivide(a: seq<nat>, p: nat, first: seq<nat>, last: seq<nat>, e: nat)
    requires HasLeaves(a, p, first + last, e) && last != []
    ensures HasLeaves(a, p, first, last[0]) && HasLeaves(a, p + |first|, last, e)
  {
    var keys := first + last;
    assert a[p..p + |keys|] == keys;
    assert a[p..p + |first|] == keys[..|first|] == first;
    assert a[p + |first|..p + |keys|] == keys[|first|..] == last;
    assert a[p..p + |keys|][|first|] == last[0];
  }

  /** Cornerstone arrays are the flattenings of octrees with at most L levels below the root, one array for one tree. */
  lemma ArraysAreOctrees(a: seq<nat>, L: nat)
    ensures Cornerstone(a, L) <==> exists t: Octree :: Fits(t, L) && Flattened(t, L) == a
    ensures forall t: Octree, u: Octree :: Fits(t, L) && Fits(u, L) && Flattened(t, L) == a == Flattened(u, L) ==>
      t == u
  {
    AlignedZero(L);
    if Cornerstone(a, L) {
      var t := TreeAt(a, 0, 0, L, L);
      UniqueOrder(a, |LeafKeys(t, 0, L)|, |a| - 1);
      UniqueOrder(a, |a| - 1, |LeafKeys(t, 0, L)|);
      assert Flattened(t, L) == a;
    }
    forall t: Octree | Fits(t, L) && Flattened(t, L) == a ensures Cornerstone(a, L) {
      FlattenedIsCornerstone(t, L);
    }
    forall t: Octree, u: Octree | Fits(t, L) && Fits(u, L) && Flattened(t, L) == a == Flattened(u, L) ensures t == u {
      FlattenedIsCornerstone(t, L);
      AscendingIsDistinct(a);
      OneTreeAt(a, 0, t, u, 0, L, LeafKeys(t, 0, L), LeafKeys(u, 0, L));
    }
  }

  // ------------------------------------------------------------- indices are visits

  /** Before leaf index hi, the node is that of a flagged leaf with index n. */
  ghost predicate IsVisitedAs(a: seq<nat>, node: (nat, nat), n: nat, hi: nat, L: nat) {
    exists j: nat :: j < hi && IsNodeOfLeaf(a, node, n, j, L)
  }

  ghost predicate IsNodeOfLeaf(a: seq<nat>, node: (nat, nat), n: nat, j: nat, L: nat) {
    && j + 1 < |a| && IsFlagged(a, j, L) && FlagCount(a, j, L) == n
    && NodeHeight(a, j, L) == node.1 && Floor(a[j], node.1) == node.0
  }

  /** The visits, in order, are those of flagged leaves before leaf hi, numbered from `from` on. */
  ghost predicate AreNumbered(a: seq<nat>, nodes: seq<(nat, nat)>, from: nat, hi: nat, L: nat) {
    forall i: nat :: i < |nodes| ==> IsVisitedAs(a, nodes[i], from + i, hi, L)
  }

  lemma NumberedJoin(a: seq<nat>, nodes: seq<(nat, nat)>, more: seq<(nat, nat)>, from: nat, mid: nat, hi: nat, L: nat)
    requires AreNumbered(a, nodes, from, mid, L) && AreNumbered(a, more, from + |nodes|, hi, L) && mid <= hi
    ensures AreNumbered(a, nodes + more, from, hi, L)
  {
    var all := nodes + more;
    forall i: nat | i < |all| ensures IsVisitedAs(a, all[i], from + i, hi, L) {
      if i < |nodes| {
        assert IsVisitedAs(a, nodes[i], from + i, mid, L);
      } else {
        assert IsVisitedAs(a, more[i - |nodes|], from + |nodes| + (i - |nodes|), hi, L);
      }
    }
  }

  /** Between two children of a cell, the leaf is flagged exactly in the middle, and then its node is the cell. */
  ghost predicate FlagsMiddle(a: seq<nat>, j: nat, s: nat, h: nat, d: nat, L: nat) {
    j + 1 < |a| && 1 <= h <= L && Aligned(s, h) && 0 < d < OCTANTS && a[j + 1] == ChildStart(s, h, d) ==>
      (IsFlagged(a, j, L) <==> d == MIDDLE) && (d == MIDDLE ==> NodeHeight(a, j, L) == h && Floor(a[j], h) == s)
  }

  ghost predicate FlagsAreMiddles(a: seq<nat>, L: nat) {
    forall j: nat, s: nat, h: nat, d: nat :: FlagsMiddle(a, j, s, h, d, L)
  }

  lemma CornerstoneFlagsMiddles(a: seq<nat>, L: nat)
    requires Cornerstone(a, L) && 3 * L < 0x1_0000_0000
    ensures FlagsAreMiddles(a, L)
  {
    forall j: nat, s: nat, h: nat, d: nat ensures FlagsMiddle(a, j, s, h, d, L) {
      if j + 1 < |a| && 1 <= h <= L && Aligned(s, h) && 0 < d < OCTANTS && a[j + 1] == ChildStart(s, h, d) {
        FlagBetweenChildren(a, j, s, h, d, L);
      }
    }
  }

  lemma FlagBetweenChildren(a: seq<nat>, j: nat, s: nat, h: nat, d: nat, L: nat)
    requires Cornerstone(a, L) && 3 * L < 0x1_0000_0000 && j + 1 < |a| && 1 <= h <= L && Aligned(s, h)
    requires 0 < d < OCTANTS && a[j + 1] == ChildStart(s, h, d)
    ensures IsFlagged(a, j, L) <==> d == MIDDLE
    ensures d == MIDDLE ==> NodeHeight(a, j, L) == h && Floor(a[j], h) == s
  {
    InnerChildStart(s, h, d);
    ChildStarts(s, h);
    if IsFlagged(a, j, L) {
      FlaggedIsMiddle(a, j, L);
      FloorBounds(a[j], NodeHeight(a, j, L));
      OneParentCell(a[j + 1], Floor(a[j], NodeHeight(a, j, L)), NodeHeight(a, j, L), MIDDLE, s, h, d);
    }
    if d == MIDDLE {
      assert a[j + 1] in a;
      var k := MiddleIsFlagged(a, s, h, L);
      FlaggedIsMiddle(a, k, L);
      UniqueOrder(a, k + 1, j + 1);
      UniqueOrder(a, j + 1, k + 1);
    }
  }

  /** A key between two children of a cell is not between two children of another. */
  lemma OneParentCell(x: nat, s: nat, h: nat, e: nat, s': nat, h': nat, d: nat)
    requires h >= 1 && h' >= 1 && Aligned(s, h) && Aligned(s', h') && 0 < e < 8 && 0 < d < 8
    requires x == ChildStart(s, h, e) && x == ChildStart(s', h', d)
    ensures d == e && s == s' && h == h'
  {
    BetweenChildren(x, s, h, e);
    BetweenChildren(x, s', h', d);
    if h < h' { AlignedWeaken(x, h, h' - 1); }
    if h' < h { AlignedWeaken(x, h', h - 1); }
    if d < e { NthMonotone(s, h - 1, d, e); }
    if e < d { NthMonotone(s, h - 1, e, d); }
  }

  lemma BetweenChildren(x: nat, s: nat, h: nat, e: nat)
    requires h >= 1 && Aligned(s, h) && 0 < e < 8 && x == ChildStart(s, h, e)
    ensures Floor(x, h) == s && Aligned(x, h - 1) && !Aligned(x, h)
  {
    InnerChildStart(s, h, e);
    AlignedWeaken(s, h - 1, h);
    NthAligned(s, h - 1, e);
  }

  /** The leaves from p on, up to the last one of a cell, are flagged for these nodes, in this order. */
  ghost predicate IsNumberedPart(a: seq<nat>, p: nat, size: nat, nodes: seq<(nat, nat)>, L: nat) {
    && 0 < size && p + size < |a| && FlagCount(a, p + size - 1, L) == FlagCount(a, p, L) + |nodes|
    && AreNumbered(a, nodes, FlagCount(a, p, L), p + size - 1, L)
  }

  lemma PartsJoin(a: seq<nat>, p: nat, size: nat, nodes: seq<(nat, nat)>, s: nat, h: nat, d: nat, size': nat,
                  nodes': seq<(nat, nat)>, L: nat)
    requires IsNumberedPart(a, p, size, nodes, L) && IsNumberedPart(a, p + size, size', nodes', L)
    requires FlagsMiddle(a, p + size - 1, s, h, d, L)
    requires 1 <= h <= L && Aligned(s, h) && 0 < d < OCTANTS && a[p + size] == ChildStart(s, h, d)
    ensures IsNumberedPart(a, p, size + size', nodes + Between(s, h, d) + nodes', L)
  {
    var from, middle, q := FlagCount(a, p, L), Between(s, h, d), p + size;
    assert AreNumbered(a, middle, from + |nodes|, q, L) by {
      if d == MIDDLE { assert IsNodeOfLeaf(a, (s, h), from + |nodes|, q - 1, L); }
    }
    NumberedJoin(a, nodes, middle, from, q - 1, q, L);
    NumberedJoin(a, nodes + middle, nodes', from, q, q + size' - 1, L);
  }

  // ------------------------------------------------------------- induction over a traversal

  /** A property of a range of leaves and the nodes visited there. */
  type Part = (nat, nat, seq<(nat, nat)>) -> bool

  /** It holds for two neighbouring ranges, with what is visited between them, if the second starts with child d of a
      cell. */
  ghost predicate JoinsAt(a: seq<nat>, part: Part, p: nat, size: nat, nodes: seq<(nat, nat)>, s: nat, h: nat, d: nat,
                          size': nat, nodes': seq<(nat, nat)>, L: nat)
  {
    part(p, size, nodes) && part(p + size, size', nodes') && p + size < |a| &&
    1 <= h <= L && Aligned(s, h) && 0 < d < OCTANTS && a[p + size] == ChildStart(s, h, d) ==>
      part(p, size + size', nodes + Between(s, h, d) + nodes')
  }

  ghost predicate HoldsOfLeaf(a: seq<nat>, part: Part, p: nat) {
    p + 1 < |a| ==> part(p, 1, [])
  }

  ghost predicate IsInductive(a: seq<nat>, part: Part, L: nat) {
    && (forall p: nat :: HoldsOfLeaf(a, part, p))
    && forall p: nat, size: nat, nodes: seq<(nat, nat)>, s: nat, h: nat, d: nat, size': nat, nodes': seq<(nat, nat)> ::
         JoinsAt(a, part, p, size, nodes, s, h, d, size', nodes', L)
  }

  /** Such a property holds for every cell and the traversal of its tree. */
  lemma {:induction false} HoldsOfTree(a: seq<nat>, part: Part, p: nat, t: Octree, s: nat, h: nat, L: nat,
                                       keys: seq<nat>)
    returns (nodes: seq<(nat, nat)>)
    requires IsInductive(a, part, L) && Fits(t, h) && h <= L && Aligned(s, h)
    requires keys == LeafKeys(t, s, h) && HasLeaves(a, p, keys, s + Pow8(h))
    ensures nodes == Visits(t, s, h) && part(p, |keys|, nodes)
    decreases h, OCTANTS + 1
  {
    if t.Leaf? {
      nodes := [];
      assert HoldsOfLeaf(a, part, p);
    } else {
      EightCells(s, h - 1);
      nodes := HoldsOfChildren(a, part, p, t.children, s, h, |t.children|, L, keys);
    }
  }

  lemma {:induction false} HoldsOfChildren(a: seq<nat>, part: Part, p: nat, children: seq<Octree>, s: nat, h: nat,
                                           n: nat, L: nat, keys: seq<nat>)
    returns (nodes: seq<(nat, nat)>)
    requires IsInductive(a, part, L) && 1 <= h <= L && Aligned(s, h) && 0 < n <= |children| && AreOctants(children, h)
    requires keys == KeysOfChildren(children, s, h, n) && HasLeaves(a, p, keys, ChildStart(s, h, n))
    ensures nodes == VisitsUpTo(children, s, h, n) && part(p, |keys|, nodes)
    decreases h, n
  {
    var first, last := FirstHaveLeaves(a, p, children, s, h, n, keys);
    ChildCell(s, h, n);
    var more := HoldsOfTree(a, part, p + |first|, children[n - 1], ChildStart(s, h, n - 1), h - 1, L, last);
    if n == 1 {
      FirstChildOnly(children, s, h);
      nodes := more;
    } else {
      var front := HoldsOfChildren(a, part, p, children, s, h, n - 1, L, first);
      assert JoinsAt(a, part, p, |first|, front, s, h, n - 1, |last|, more, L);
      nodes := front + Between(s, h, n - 1) + more;
    }
  }

  lemma FirstChildOnly(children: seq<Octree>, s: nat, h: nat)
    requires h >= 1 && AreOctants(children, h)
    ensures KeysOfChildren(children, s, h, 0) == []
    ensures KeysOfChildren(children, s, h, 1) == LeafKeys(children[0], ChildStart(s, h, 0), h - 1)
    ensures VisitsUpTo(children, s, h, 1) == Visits(children[0], ChildStart(s, h, 0), h - 1)
  {
    assert VisitsUpTo(children, s, h, 0) == [];
  }

  lemma FlattenedIsCornerstone(t: Octree, L: nat)
    requires Fits(t, L)
    ensures Cornerstone(Flattened(t, L), L) && HasLeaves(Flattened(t, L), 0, LeafKeys(t, 0, L), Pow8(L))
  {
    AlignedZero(L);
    LeavesAreCells(t, 0, L);
  }

  /** For every octree: the node that the recursive traversal visits as number i is the one that the program finds
      at the flagged leaf whose closed-form index is i, and there are no other flagged leaves. */
  lemma IndexIsVisit(t: Octree, L: nat)
    requires Fits(t, L) && 3 * L < 0x1_0000_0000
    ensures Cornerstone(Flattened(t, L), L) && 7 * |Visits(t, 0, L)| == |Flattened(t, L)| - 2
    ensures AreVisits(Flattened(t, L), Visits(t, 0, L), L)
  {
    FlattenedIsCornerstone(t, L);
    AlignedZero(L);
    var a := Flattened(t, L);
    CornerstoneFlagsMiddles(a, L);
    NumberingIsInductive(a, L);
    var nodes := HoldsOfTree(a, Numbering(a, L), 0, t, 0, L, L, LeafKeys(t, 0, L));
    FlagsAreVisits(a, nodes, L);
  }

  ghost function Numbering(a: seq<nat>, L: nat): (part: Part) {
    (p: nat, size: nat, nodes: seq<(nat, nat)>) => IsNumberedPart(a, p, size, nodes, L)
  }

  lemma NumberingIsInductive(a: seq<nat>, L: nat)
    requires FlagsAreMiddles(a, L)
    ensures IsInductive(a, Numbering(a, L), L)
  {
    forall p: nat, size: nat, nodes: seq<(nat, nat)>, s: nat, h: nat, d: nat, size': nat, nodes': seq<(nat, nat)>
      ensures JoinsAt(a, Numbering(a, L), p, size, nodes, s, h, d, size', nodes', L)
    {
      if IsNumberedPart(a, p, size, nodes, L) && IsNumberedPart(a, p + size, size', nodes', L) &&
         1 <= h <= L && Aligned(s, h) && 0 < d < OCTANTS && p + size < |a| && a[p + size] == ChildStart(s, h, d) {
        assert FlagsMiddle(a, p + size - 1, s, h, d, L);
        PartsJoin(a, p, size, nodes, s, h, d, size', nodes', L);
      }
    }
  }

  ghost predicate AreVisits(a: seq<nat>, nodes: seq<(nat, nat)>, L: nat) {
    forall j: nat :: j + 1 < |a| && IsFlagged(a, j, L) ==> IsVisit(a, nodes, j, L)
  }

  /** The program's index for leaf j is exact: seven times the number under which the traversal visits the leaf's
      node. */
  ghost predicate IsVisit(a: seq<nat>, nodes: seq<(nat, nat)>, j: nat, L: nat)
    requires j + 1 < |a|
  {
    && PrefixLength(a, j, L) / 3 < L
    && exists index: nat :: index < |nodes| && IsNodeOfLeaf(a, nodes[index], index, j, L) &&
         7 * index == j + LeadingWeight(a[j], PrefixLength(a, j, L) / 3 + 1, L)
  }

  lemma FlagsAreVisits(a: seq<nat>, nodes: seq<(nat, nat)>, L: nat)
    requires Cornerstone(a, L) && 3 * L < 0x1_0000_0000 && IsNumberedPart(a, 0, |a| - 1, nodes, L)
    ensures 7 * |nodes| == |a| - 2 && AreVisits(a, nodes, L)
  {
    NumInternalNodes(a, L);
    LastIsNotFlagged(a, L);
    forall j: nat | j + 1 < |a| && IsFlagged(a, j, L) ensures IsVisit(a, nodes, j, L) {
      FlagIsVisit(a, nodes, j, L);
      InOrderIndex(a, j, L);
    }
  }

  lemma LastIsNotFlagged(a: seq<nat>, L: nat)
    requires |a| > 1
    ensures FlagCount(a, |a| - 1, L) == FlagCount(a, |a| - 2, L)
  {
  }

  lemma FlagIsVisit(a: seq<nat>, nodes: seq<(nat, nat)>, j: nat, L: nat)
    requires j + 2 < |a| && IsFlagged(a, j, L) && IsNumberedPart(a, 0, |a| - 1, nodes, L)
    ensures FlagCount(a, j, L) < |nodes|
    ensures IsNodeOfLeaf(a, nodes[FlagCount(a, j, L)], FlagCount(a, j, L), j, L)
  {
    FlagsGrow(a, j, |a| - 2, L);
    NumberOfFlag(a, nodes, j, FlagCount(a, j, L), |a| - 2, L);
  }

  lemma NumberOfFlag(a: seq<nat>, nodes: seq<(nat, nat)>, j: nat, n: nat, hi: nat, L: nat)
    requires j + 1 < |a| && IsFlagged(a, j, L) && n == FlagCount(a, j, L) && n < |nodes|
    requires AreNumbered(a, nodes, 0, hi, L)
    ensures IsNodeOfLeaf(a, nodes[n], n, j, L)
  {
    assert IsVisitedAs(a, nodes[n], 0 + n, hi, L);
    var k: nat :| k < hi && IsNodeOfLeaf(a, nodes[n], n, k, L);
    OneFlagPerIndex(a, j, k, L);
  }

  lemma OneFlagPerIndex(a: seq<nat>, j: nat, k: nat, L: nat)
    requires j + 1 < |a| && k + 1 < |a| && IsFlagged(a, j, L) && IsFlagged(a, k, L)
    requires FlagCount(a, j, L) == FlagCount(a, k, L)
    ensures j == k
  {
    if j < k { FlagsGrow(a, j, k, L); }
    if k < j { FlagsGrow(a, k, j, L); }
  }

  lemma {:induction false} FlagsGrow(a: seq<nat>, j: nat, k: nat, L: nat)
    requires j <= k < |a|
    ensures FlagCount(a, j, L) <= FlagCount(a, k, L)
    ensures j < k && IsFlagged(a, j, L) ==> FlagCount(a, j, L) < FlagCount(a, k, L)
    decreases k
  {
    if j < k { FlagsGrow(a, j, k - 1, L); }
  }
}
