/** Binary radix trees over n ordered items, from nothing but how much neighbouring items differ.

The difference d(i, j) of two items is the number of low bits in which they may differ. Every item
has at most one place where the difference to one side equals the difference to the other, which is
what makes the tree binary. */
module RadixTree {

  ghost function MaxOf(x: nat, y: nat): (m: nat) {
    if x >= y then x else y
  }

  /** An item between two others agrees with one of them in all bits in which they agree, and in
      their highest differing bit. */
  ghost predicate Between(d: (nat, nat) -> nat, i: nat, j: nat, k: nat) {
    d(i, k) == MaxOf(d(i, j), d(j, k)) && d(i, j) != d(j, k)
  }

  ghost predicate IsDifference(d: (nat, nat) -> nat, n: nat) {
    && (forall i: nat, j: nat :: i <= j < n ==> (d(i, j) == 0 <==> i == j))
    && forall i: nat, j: nat, k: nat :: i < j < k < n ==> Between(d, i, j, k)
  }

  /** The items from f to l are all those that agree with f in the bits in which f and l agree. */
  ghost predicate IsGroup(d: (nat, nat) -> nat, n: nat, f: nat, l: nat) {
    && f <= l < n
    && (f > 0 ==> d(f - 1, f) > d(f, l))
    && (l + 1 < n ==> d(l, l + 1) > d(f, l))
  }

  /** Item i is at one end of the group, and the group is limited by the difference on the other side of i. */
  ghost predicate IsNodeRange(d: (nat, nat) -> nat, n: nat, i: nat, f: nat, l: nat) {
    f < l < n && (IsFirstOf(d, n, i, f, l) || IsLastOf(d, n, i, f, l))
  }

  ghost predicate IsFirstOf(d: (nat, nat) -> nat, n: nat, i: nat, f: nat, l: nat) {
    && i == f < l < n
    && if f == 0 then l + 1 == n else d(f, l) < d(f - 1, f) && (l + 1 < n ==> d(l, l + 1) > d(f - 1, f))
  }

  ghost predicate IsLastOf(d: (nat, nat) -> nat, n: nat, i: nat, f: nat, l: nat) {
    && f < l == i && l + 1 < n
    && d(f, l) < d(l, l + 1) && (f > 0 ==> d(f - 1, f) > d(l, l + 1))
  }

  /** Items up to g share one more bit with f, items after g do not. */
  ghost predicate IsSplit(d: (nat, nat) -> nat, f: nat, l: nat, g: nat) {
    f <= g < l && d(g, g + 1) == d(f, l)
  }

  // ------------------------------------------------------------- differences

  lemma WiderDiffersMore(d: (nat, nat) -> nat, n: nat, i: nat, j: nat, k: nat, l: nat)
    requires IsDifference(d, n) && i <= j <= k <= l < n
    ensures d(j, k) <= d(i, l)
  {
    if i < j < l { assert Between(d, i, j, l); }
    if j < k < l { assert Between(d, j, k, l); }
  }

  lemma NeighboursDiffer(d: (nat, nat) -> nat, n: nat, i: nat, j: nat)
    requires IsDifference(d, n) && i <= j < n
    ensures i > 0 && j + 1 < n ==> d(i - 1, i) != d(j, j + 1) || d(i, j) > d(j, j + 1)
  {
    if i > 0 && j + 1 < n {
      if i < j {
        assert Between(d, i - 1, i, j);
        assert Between(d, i - 1, j, j + 1);
      } else {
        assert Between(d, i - 1, i, i + 1);
      }
    }
  }

  /** What lies on the two sides of a split. */
  lemma SplitSides(d: (nat, nat) -> nat, n: nat, f: nat, l: nat, g: nat)
    requires IsDifference(d, n) && l < n && IsSplit(d, f, l, g)
    ensures d(f, g) < d(f, l) && d(g + 1, l) < d(f, l)
    ensures forall k: nat :: f <= k <= l ==> (k <= g <==> d(f, k) < d(f, l))
  {
    WiderDiffersMore(d, n, f, f, g, l);
    WiderDiffersMore(d, n, f, g + 1, l, l);
    if f < g { assert Between(d, f, g, g + 1); }
    if g + 1 < l { assert Between(d, g, g + 1, l); WiderDiffersMore(d, n, f, g, l, l); }
    forall k: nat | f <= k <= l ensures k <= g <==> d(f, k) < d(f, l) {
      if k <= g {
        WiderDiffersMore(d, n, f, f, k, g);
      } else {
        WiderDiffersMore(d, n, f, g, g + 1, k);
      }
    }
  }

  lemma SplitIsUnique(d: (nat, nat) -> nat, n: nat, f: nat, l: nat, g: nat, h: nat)
    requires IsDifference(d, n) && l < n && IsSplit(d, f, l, g) && IsSplit(d, f, l, h)
    ensures g == h
  {
    SplitSides(d, n, f, l, g);
    SplitSides(d, n, f, l, h);
  }

  lemma {:induction false} SplitExists(d: (nat, nat) -> nat, n: nat, f: nat, l: nat) returns (g: nat)
    requires IsDifference(d, n) && f < l < n
    ensures IsSplit(d, f, l, g)
    decreases l
  {
    g := l - 1;
    if f < g {
      assert Between(d, f, g, l);
      if d(g, l) != d(f, l) { g := SplitExists(d, n, f, g); }
    }
  }

  // ------------------------------------------------------------- nodes

  /** The range of a node is a group. */
  lemma NodeIsGroup(d: (nat, nat) -> nat, n: nat, i: nat, f: nat, l: nat)
    requires IsDifference(d, n) && IsNodeRange(d, n, i, f, l)
    ensures IsGroup(d, n, f, l)
  {
  }

  /** Of all groups with item i at an end, that of node i is the largest: an independent definition. */
  lemma NodeIsLargestGroup(d: (nat, nat) -> nat, n: nat, i: nat, f: nat, l: nat)
    requires IsDifference(d, n) && i + 1 < n && f < l
    ensures IsNodeRange(d, n, i, f, l) <==>
            IsGroup(d, n, f, l) && (i == f || i == l) &&
            forall x: nat, y: nat :: IsGroup(d, n, x, y) && (i == x || i == y) ==> f <= x && y <= l
  {
    if IsNodeRange(d, n, i, f, l) {
      forall x: nat, y: nat | IsGroup(d, n, x, y) && (i == x || i == y) ensures f <= x && y <= l {
        GroupFitsNode(d, n, i, f, l, x, y);
      }
    }
    if IsGroup(d, n, f, l) && (i == f || i == l) &&
       forall x: nat, y: nat :: IsGroup(d, n, x, y) && (i == x || i == y) ==> f <= x && y <= l {
      var x, y := RangeExists(d, n, i);
      NodeIsGroup(d, n, i, x, y);
      GroupFitsNode(d, n, i, x, y, f, l);
    }
  }

  lemma GroupFitsNode(d: (nat, nat) -> nat, n: nat, i: nat, f: nat, l: nat, x: nat, y: nat)
    requires IsDifference(d, n) && IsNodeRange(d, n, i, f, l) && IsGroup(d, n, x, y) && (i == x || i == y)
    ensures f <= x && y <= l
  {
    if IsFirstOf(d, n, i, f, l) {
      if y > l && i == x { WiderDiffersMore(d, n, x, l, l + 1, y); }
      if x < f { WiderDiffersMore(d, n, x, f - 1, f, y); WiderDiffersMore(d, n, f, f, f + 1, l); }
    } else {
      if x < f && i == y { WiderDiffersMore(d, n, x, f - 1, f, y); }
      if y > l { WiderDiffersMore(d, n, x, l, l + 1, y); WiderDiffersMore(d, n, f, l - 1, l, l); }
    }
  }

  /** The members of a group are the items that agree with any one member in the bits of the group. */
  lemma GroupMembers(d: (nat, nat) -> nat, n: nat, f: nat, l: nat, i: nat, k: nat)
    requires IsDifference(d, n) && IsGroup(d, n, f, l) && f <= i <= l && k < n
    ensures f <= k <= l <==> (if k <= i then d(k, i) else d(i, k)) <= d(f, l)
  {
    if k < f { WiderDiffersMore(d, n, k, f - 1, f, i); }
    if f <= k <= i { WiderDiffersMore(d, n, f, k, i, l); }
    if i < k <= l { WiderDiffersMore(d, n, f, i, k, l); }
    if l < k { WiderDiffersMore(d, n, i, l, l + 1, k); }
  }

  lemma NodeRangeIsUnique(d: (nat, nat) -> nat, n: nat, i: nat, f: nat, l: nat, x: nat, y: nat)
    requires IsDifference(d, n) && IsNodeRange(d, n, i, f, l) && IsNodeRange(d, n, i, x, y)
    ensures f == x && l == y
  {
    GroupFitsNode(d, n, i, f, l, x, y);
    GroupFitsNode(d, n, i, x, y, f, l);
  }

  /** The last item from i on whose difference to i is below the limit. */
  lemma {:induction false} LastBelow(d: (nat, nat) -> nat, n: nat, i: nat, from: nat, limit: nat) returns (l: nat)
    requires i <= from < n && d(i, from) < limit
    ensures from <= l < n && d(i, l) < limit && (l + 1 < n ==> d(i, l + 1) >= limit)
    decreases n - from
  {
    l := from;
    if from + 1 < n && d(i, from + 1) < limit { l := LastBelow(d, n, i, from + 1, limit); }
  }

  lemma {:induction false} FirstBelow(d: (nat, nat) -> nat, i: nat, from: nat, limit: nat) returns (f: nat)
    requires from <= i && d(from, i) < limit
    ensures f <= from && d(f, i) < limit && (f > 0 ==> d(f - 1, i) >= limit)
    decreases from
  {
    f := from;
    if from > 0 && d(from - 1, i) < limit { f := FirstBelow(d, i, from - 1, limit); }
  }

  /** Every item but the last has a node. */
  lemma RangeExists(d: (nat, nat) -> nat, n: nat, i: nat) returns (f: nat, l: nat)
    requires IsDifference(d, n) && i + 1 < n
    ensures IsNodeRange(d, n, i, f, l)
  {
    if i == 0 {
      f, l := 0, n - 1;
    } else if d(i, i + 1) < d(i - 1, i) {
      f := i;
      l := LastBelow(d, n, i, i + 1, d(i - 1, i));
      if l + 1 < n { UpperLimit(d, n, f, l); }
    } else {
      assert Between(d, i - 1, i, i + 1);
      l := i;
      f := FirstBelow(d, i, i - 1, d(i, i + 1));
      if f > 0 { LowerLimit(d, n, f, l); }
    }
  }

  lemma UpperLimit(d: (nat, nat) -> nat, n: nat, f: nat, l: nat)
    requires IsDifference(d, n) && 0 < f < l && l + 1 < n && d(f, l) < d(f - 1, f) <= d(f, l + 1)
    ensures d(l, l + 1) > d(f - 1, f)
  {
    assert Between(d, f, l, l + 1);
    assert Between(d, f - 1, f, l + 1);
  }

  lemma LowerLimit(d: (nat, nat) -> nat, n: nat, f: nat, l: nat)
    requires IsDifference(d, n) && 0 < f < l && l + 1 < n && d(f, l) < d(l, l + 1) <= d(f - 1, l)
    ensures d(f - 1, f) > d(l, l + 1)
  {
    assert Between(d, f - 1, f, l);
    assert Between(d, f - 1, l, l + 1);
  }

  lemma RangeUp(d: (nat, nat) -> nat, n: nat, i: nat, l: nat)
    requires IsDifference(d, n) && 0 < i <= l < n && i + 1 < n && d(i, i + 1) < d(i - 1, i)
    requires d(i, l) < d(i - 1, i) && (l + 1 < n ==> d(i, l + 1) >= d(i - 1, i))
    ensures IsFirstOf(d, n, i, i, l)
  {
    if i < l && l + 1 < n { UpperLimit(d, n, i, l); }
  }

  lemma RangeDown(d: (nat, nat) -> nat, n: nat, f: nat, i: nat)
    requires IsDifference(d, n) && f <= i && 0 < i && i + 1 < n && d(i, i + 1) >= d(i - 1, i)
    requires d(f, i) < d(i, i + 1) && (f > 0 ==> d(f - 1, i) >= d(i, i + 1))
    ensures IsLastOf(d, n, i, f, i)
  {
    assert Between(d, i - 1, i, i + 1);
    if 0 < f < i { LowerLimit(d, n, f, i); }
  }

  // ------------------------------------------------------------- children

  /** Items at the two sides of a split are the ends of the nodes that cover the two sides. */
  lemma ChildRanges(d: (nat, nat) -> nat, n: nat, f: nat, l: nat, g: nat)
    requires IsDifference(d, n) && IsGroup(d, n, f, l) && IsSplit(d, f, l, g)
    ensures f < g ==> IsNodeRange(d, n, g, f, g)
    ensures g + 1 < l ==> IsNodeRange(d, n, g + 1, g + 1, l)
  {
    SplitSides(d, n, f, l, g);
  }

  /** The group that is split between items k and k + 1. */
  lemma GroupOfSplit(d: (nat, nat) -> nat, n: nat, k: nat) returns (f: nat, l: nat)
    requires IsDifference(d, n) && k + 1 < n
    ensures IsGroup(d, n, f, l) && IsSplit(d, f, l, k)
  {
    var limit := d(k, k + 1) + 1;
    l := LastBelow(d, n, k, k + 1, limit);
    f := FirstBelow(d, k, k, limit);
    WiderDiffersMore(d, n, k, k, k + 1, l);
    WiderDiffersMore(d, n, f, k, l, l);
    if f < k { assert Between(d, f, k, l); }
    if l + 1 < n { assert Between(d, k, l, l + 1); }
    if f > 0 && f < k { assert Between(d, f - 1, f, k); }
  }

  lemma GroupIsUnique(d: (nat, nat) -> nat, n: nat, f: nat, l: nat, x: nat, y: nat, k: nat)
    requires IsDifference(d, n) && IsGroup(d, n, f, l) && IsGroup(d, n, x, y)
    requires IsSplit(d, f, l, k) && IsSplit(d, x, y, k)
    ensures f == x && l == y
  {
    if x < f { WiderDiffersMore(d, n, x, f - 1, f, y); }
    if f < x { WiderDiffersMore(d, n, f, x - 1, x, l); }
    if y < l { WiderDiffersMore(d, n, f, y, y + 1, l); }
    if l < y { WiderDiffersMore(d, n, x, l, l + 1, y); }
  }

  /** Every group of more than one item is the range of exactly one node. */
  lemma NodeOfGroup(d: (nat, nat) -> nat, n: nat, f: nat, l: nat) returns (i: nat)
    requires IsDifference(d, n) && IsGroup(d, n, f, l) && f < l
    ensures i + 1 < n && IsNodeRange(d, n, i, f, l)
    ensures forall j: nat :: j + 1 < n && IsNodeRange(d, n, j, f, l) ==> j == i
  {
    NeighboursDiffer(d, n, f, l);
    i := if l + 1 < n && (f == 0 || d(l, l + 1) < d(f - 1, f)) then l else f;
  }

  // ------------------------------------------------------------- parents

  datatype Child = Leaf(index: nat) | Internal(index: nat)

  function ChildFor(f: nat, l: nat, g: nat, onLeft: bool): (c: Child) {
    if onLeft then (if g == f then Leaf(g) else Internal(g)) else if g + 1 == l then Leaf(g + 1) else Internal(g + 1)
  }

  /** Node p covers items f to l, which are split after g. */
  ghost predicate IsRadixNode(d: (nat, nat) -> nat, n: nat, p: nat, f: nat, l: nat, g: nat) {
    p + 1 < n && IsNodeRange(d, n, p, f, l) && IsSplit(d, f, l, g)
  }

  ghost predicate HasChild(d: (nat, nat) -> nat, n: nat, p: nat, onLeft: bool, c: Child) {
    exists f: nat, l: nat, g: nat :: IsRadixNode(d, n, p, f, l, g) && c == ChildFor(f, l, g, onLeft)
  }

  /** The nodes and leaves below the root. */
  predicate IsBelowRoot(n: nat, c: Child) {
    if c.Leaf? then c.index < n else 0 < c.index && c.index + 1 < n
  }

  /** Every leaf and every node but the root is the child of some node. */
  lemma ParentExists(d: (nat, nat) -> nat, n: nat, c: Child) returns (p: nat, onLeft: bool)
    requires IsDifference(d, n) && n >= 2 && IsBelowRoot(n, c)
    ensures HasChild(d, n, p, onLeft, c)
  {
    var j := c.index;
    if c.Leaf? {
      onLeft := j + 1 < n && (j == 0 || d(j, j + 1) < d(j - 1, j));
    } else {
      onLeft := !(d(j, j + 1) < d(j - 1, j));
    }
    var g := if onLeft then j else j - 1;
    var f, l := GroupOfSplit(d, n, g);
    p := NodeOfGroup(d, n, f, l);
    if 0 < j && j + 1 < n { assert Between(d, j - 1, j, j + 1); }
    SplitSides(d, n, f, l, g);
    if onLeft && f < j { WiderDiffersMore(d, n, f, j - 1, j, j); }
    if !onLeft && j < l { WiderDiffersMore(d, n, j, j, j + 1, l); }
    assert IsRadixNode(d, n, p, f, l, g) && c == ChildFor(f, l, g, onLeft);
  }

  /** No leaf and no node has two parents, and the root has none. */
  lemma ParentIsUnique(d: (nat, nat) -> nat, n: nat, c: Child, p: nat, onLeft: bool, q: nat, onLeft': bool)
    requires IsDifference(d, n) && HasChild(d, n, p, onLeft, c) && HasChild(d, n, q, onLeft', c)
    ensures p == q && onLeft == onLeft' && IsBelowRoot(n, c)
  {
    var f: nat, l: nat, g: nat :| IsRadixNode(d, n, p, f, l, g) && c == ChildFor(f, l, g, onLeft);
    var x: nat, y: nat, h: nat :| IsRadixNode(d, n, q, x, y, h) && c == ChildFor(x, y, h, onLeft');
    if onLeft == onLeft' {
      SplitNames(d, n, p, f, l, q, x, y, g);
    } else if onLeft {
      OneSide(d, n, p, f, l, g, q, x, y, h);
    } else {
      OneSide(d, n, q, x, y, h, p, f, l, g);
    }
  }

  /** Nodes that are split at the same place are the same node. */
  lemma SplitNames(d: (nat, nat) -> nat, n: nat, p: nat, f: nat, l: nat, q: nat, x: nat, y: nat, g: nat)
    requires IsDifference(d, n) && IsRadixNode(d, n, p, f, l, g) && IsRadixNode(d, n, q, x, y, g)
    ensures p == q
  {
    NodeIsGroup(d, n, p, f, l);
    NodeIsGroup(d, n, q, x, y);
    GroupIsUnique(d, n, f, l, x, y, g);
    var i := NodeOfGroup(d, n, f, l);
    assert p == i && q == i;
  }

  /** An item is not a left and a right child of the same kind. */
  lemma OneSide(d: (nat, nat) -> nat, n: nat, p: nat, f: nat, l: nat, g: nat, q: nat, x: nat, y: nat, h: nat)
    requires IsDifference(d, n) && IsRadixNode(d, n, p, f, l, g) && IsRadixNode(d, n, q, x, y, h)
    ensures ChildFor(f, l, g, true) != ChildFor(x, y, h, false)
  {
    NodeIsGroup(d, n, p, f, l);
    NodeIsGroup(d, n, q, x, y);
    if ChildFor(f, l, g, true) == ChildFor(x, y, h, false) {
      ChildRanges(d, n, f, l, g);
      ChildRanges(d, n, x, y, h);
      if f < g { NodeRangeIsUnique(d, n, g, f, g, g, y); }
    }
  }

  // ------------------------------------------------------------- the whole tree

  ghost predicate PointsToSides(d: (nat, nat) -> nat, n: nat, child: (nat, bool) -> Child, p: nat) {
    exists f: nat, l: nat, g: nat {:trigger IsRadixNode(d, n, p, f, l, g)} :: IsRadixNode(d, n, p, f, l, g) &&
      child(p, true) == ChildFor(f, l, g, true) && child(p, false) == ChildFor(f, l, g, false)
  }

  /** Every node points to the two sides of its range. */
  ghost predicate IsTreeOf(d: (nat, nat) -> nat, n: nat, child: (nat, bool) -> Child) {
    forall p: nat :: p + 1 < n ==> PointsToSides(d, n, child, p)
  }

  ghost predicate IsParent(n: nat, child: (nat, bool) -> Child, p: nat, onLeft: bool, c: Child) {
    p + 1 < n && child(p, onLeft) == c
  }

  ghost predicate HasOneParent(n: nat, child: (nat, bool) -> Child, c: Child) {
    exists p: nat, onLeft: bool :: IsParent(n, child, p, onLeft, c) &&
      forall q: nat, onLeft': bool :: IsParent(n, child, q, onLeft', c) ==> q == p && onLeft' == onLeft
  }

  lemma PointersAreChildren(d: (nat, nat) -> nat, n: nat, child: (nat, bool) -> Child, p: nat, onLeft: bool, c: Child)
    requires IsDifference(d, n) && IsTreeOf(d, n, child)
    ensures IsParent(n, child, p, onLeft, c) <==> HasChild(d, n, p, onLeft, c)
  {
    if p + 1 < n {
      assert PointsToSides(d, n, child, p);
      var f: nat, l: nat, g: nat :| IsRadixNode(d, n, p, f, l, g) &&
        child(p, true) == ChildFor(f, l, g, true) && child(p, false) == ChildFor(f, l, g, false);
      if HasChild(d, n, p, onLeft, c) {
        var x: nat, y: nat, h: nat :| IsRadixNode(d, n, p, x, y, h) && c == ChildFor(x, y, h, onLeft);
        NodeRangeIsUnique(d, n, p, f, l, x, y);
        SplitIsUnique(d, n, f, l, g, h);
      }
    }
  }

  /** Exactly the leaves and the nodes other than the root have a parent, and they have one. */
  lemma OneParent(d: (nat, nat) -> nat, n: nat, child: (nat, bool) -> Child, c: Child)
    requires IsDifference(d, n) && IsTreeOf(d, n, child) && n >= 2
    ensures HasOneParent(n, child, c) <==> IsBelowRoot(n, c)
    ensures (exists p: nat, onLeft: bool :: IsParent(n, child, p, onLeft, c)) <==> IsBelowRoot(n, c)
  {
    forall p: nat, onLeft: bool, q: nat, onLeft': bool |
      IsParent(n, child, p, onLeft, c) && IsParent(n, child, q, onLeft', c)
      ensures p == q && onLeft == onLeft' && IsBelowRoot(n, c)
    {
      PointersAreChildren(d, n, child, p, onLeft, c);
      PointersAreChildren(d, n, child, q, onLeft', c);
      ParentIsUnique(d, n, c, p, onLeft, q, onLeft');
    }
    if IsBelowRoot(n, c) {
      var p, onLeft := ParentExists(d, n, c);
      PointersAreChildren(d, n, child, p, onLeft, c);
    }
  }

  /** The leaves that are found by following pointers. */
  ghost function LeavesBelow(child: (nat, bool) -> Child, c: Child, depth: nat): (leaves: seq<nat>)
    decreases depth
  {
    if c.Leaf? then [c.index]
    else if depth == 0 then []
    else LeavesBelow(child, child(c.index, true), depth - 1) + LeavesBelow(child, child(c.index, false), depth - 1)
  }

  ghost function Upto(from: nat, to: nat): (s: seq<nat>)
    decreases to - from
  {
    if from >= to then [] else [from] + Upto(from + 1, to)
  }

  lemma {:induction false} UptoJoins(from: nat, mid: nat, to: nat)
    requires from <= mid <= to
    ensures Upto(from, mid) + Upto(mid, to) == Upto(from, to)
    decreases mid - from
  {
    if from < mid { UptoJoins(from + 1, mid, to); }
  }

  /** The child covers the items from f to l. */
  ghost predicate IsSide(d: (nat, nat) -> nat, n: nat, c: Child, f: nat, l: nat) {
    if f == l then c == Leaf(f) && l < n
    else c.Internal? && c.index + 1 < n && IsNodeRange(d, n, c.index, f, l)
  }

  lemma NodeParts(d: (nat, nat) -> nat, n: nat, child: (nat, bool) -> Child, c: Child, f: nat, l: nat) returns (g: nat)
    requires IsDifference(d, n) && IsTreeOf(d, n, child) && f < l && IsSide(d, n, c, f, l)
    ensures f <= g < l && IsSide(d, n, child(c.index, true), f, g) && IsSide(d, n, child(c.index, false), g + 1, l)
  {
    var p := c.index;
    assert PointsToSides(d, n, child, p);
    var x: nat, y: nat, h: nat :| IsRadixNode(d, n, p, x, y, h) &&
      child(p, true) == ChildFor(x, y, h, true) && child(p, false) == ChildFor(x, y, h, false);
    NodeRangeIsUnique(d, n, p, f, l, x, y);
    NodeIsGroup(d, n, p, f, l);
    ChildRanges(d, n, f, l, h);
    g := h;
  }

  /** Following the pointers from a node visits the items of its range in order, each one once. */
  lemma {:induction false} LeavesInOrder(d: (nat, nat) -> nat, n: nat, child: (nat, bool) -> Child, c: Child, f: nat,
                                         l: nat, depth: nat)
    requires IsDifference(d, n) && IsTreeOf(d, n, child) && IsSide(d, n, c, f, l) && f <= l && depth >= l - f
    ensures LeavesBelow(child, c, depth) == Upto(f, l + 1)
    decreases depth
  {
    if f < l {
      var g := NodeParts(d, n, child, c, f, l);
      LeavesInOrder(d, n, child, child(c.index, true), f, g, depth - 1);
      LeavesInOrder(d, n, child, child(c.index, false), g + 1, l, depth - 1);
      UptoJoins(f, g + 1, l + 1);
    }
  }

  /** From the root, all items are found, each one once and in order. */
  lemma RootCoversAll(d: (nat, nat) -> nat, n: nat, child: (nat, bool) -> Child)
    requires IsDifference(d, n) && IsTreeOf(d, n, child) && n >= 2
    ensures LeavesBelow(child, Internal(0), n) == Upto(0, n)
  {
    LeavesInOrder(d, n, child, Internal(0), 0, n - 1, n);
  }
}
