/** Traversal of a linked octree without recursion.

The callbacks of the program become call traces: the methods return the sequence of the nodes, or
pairs of nodes, that each callback was called with. */
module Traversal {
  import opened LinkedOctree

  /** The links of an octree with n nodes, without the node codes. */
  ghost predicate TreeShape(childOffsets: seq<nat>, parents: seq<nat>, n: nat) {
    && 0 < n <= |childOffsets|
    && (forall i: nat :: i < n ==> ChildrenKnowParent(childOffsets, parents, n, i))
    && (forall i: nat :: 0 < i < n ==> ParentKnowsChildren(childOffsets, parents, n, i))
  }

  ghost predicate ChildrenKnowParent(childOffsets: seq<nat>, parents: seq<nat>, n: nat, i: nat)
    requires i < n <= |childOffsets|
  {
    var c := childOffsets[i];
    c != 0 ==> i < c && c % 8 == 1 && c + 8 <= n && (c - 1) / 8 < |parents| && parents[(c - 1) / 8] == i
  }

  ghost predicate ParentKnowsChildren(childOffsets: seq<nat>, parents: seq<nat>, n: nat, i: nat)
    requires 0 < i < n <= |childOffsets|
  {
    && (i - 1) / 8 < |parents| && parents[(i - 1) / 8] < i
    && childOffsets[parents[(i - 1) / 8]] == i - (i - 1) % 8
  }

  lemma LinkedIsTreeShape(prefixes: seq<nat>, childOffsets: seq<nat>, parents: seq<nat>)
    requires Linked(prefixes, childOffsets, parents)
    ensures TreeShape(childOffsets, parents, |prefixes|)
  {
    forall i: nat | i < |prefixes| ensures ChildrenKnowParent(childOffsets, parents, |prefixes|, i) {
      assert ChildrenLinked(prefixes, childOffsets, parents, i);
    }
    forall i: nat | 0 < i < |prefixes| ensures ParentKnowsChildren(childOffsets, parents, |prefixes|, i) {
      assert ParentLinked(prefixes, childOffsets, parents, i);
    }
  }

  /** Parent of a node; the root is its own parent. */
  function Parent(parents: seq<nat>, i: nat): (p: nat) {
    if i > 0 && (i - 1) / 8 < |parents| && parents[(i - 1) / 8] < i then parents[(i - 1) / 8] else 0
  }

  /** Node v is node i or an ancestor of it. */
  ghost predicate IsAncestor(parents: seq<nat>, v: nat, i: nat) {
    i == v || (i > v && IsAncestor(parents, v, Parent(parents, i)))
  }

  /** What is known about child d of an internal node. */
  lemma ChildFacts(childOffsets: seq<nat>, parents: seq<nat>, n: nat, i: nat, d: nat)
    requires TreeShape(childOffsets, parents, n) && i < n && childOffsets[i] != 0 && d < 8
    ensures i < childOffsets[i] && childOffsets[i] + 8 <= n
    ensures Parent(parents, childOffsets[i] + d) == i && (childOffsets[i] + d - 1) % 8 == d
  {
    assert ChildrenKnowParent(childOffsets, parents, n, i);
    BlockArithmetic(childOffsets[i], d);
  }

  lemma BlockArithmetic(c: nat, d: nat)
    requires c % 8 == 1 && d < 8
    ensures (c + d - 1) / 8 == (c - 1) / 8 && (c + d - 1) % 8 == d
  {
    var b := (c - 1) / 8;
    assert c + d - 1 == 8 * b + d;
  }

  lemma ParentFacts(childOffsets: seq<nat>, parents: seq<nat>, n: nat, i: nat)
    requires TreeShape(childOffsets, parents, n) && 0 < i < n
    ensures (i - 1) / 8 < |parents| && Parent(parents, i) == parents[(i - 1) / 8] < i
    ensures childOffsets[Parent(parents, i)] + (i - 1) % 8 == i
  {
    assert ParentKnowsChildren(childOffsets, parents, n, i);
  }

  // ------------------------------------------------------------- single traversal

  /** Preorder search below a node: every node is tested, and the children of internal nodes that
      pass are searched. The sequence of tested nodes. */
  ghost function Search(childOffsets: seq<nat>, parents: seq<nat>, n: nat, pass: nat -> bool, i: nat): (t: seq<nat>)
    requires TreeShape(childOffsets, parents, n) && i < n
    decreases n - i, 9
  {
    if pass(i) && childOffsets[i] != 0 then
      ChildFacts(childOffsets, parents, n, i, 0);
      [i] + SearchSiblings(childOffsets, parents, n, pass, i, 0)
    else [i]
  }

  /** Search of the children of node i, from child d on. */
  ghost function SearchSiblings(childOffsets: seq<nat>, parents: seq<nat>, n: nat, pass: nat -> bool, i: nat, d: nat)
    : (t: seq<nat>)
    requires TreeShape(childOffsets, parents, n) && i < n && childOffsets[i] != 0 && d <= 8
    decreases n - i, 8 - d
  {
    if d == 8 then [] else
      ChildFacts(childOffsets, parents, n, i, d);
      Search(childOffsets, parents, n, pass, childOffsets[i] + d) +
      SearchSiblings(childOffsets, parents, n, pass, i, d + 1)
  }

  /** What is left to do when node i and everything below it is done. */
  ghost function SearchAfter(childOffsets: seq<nat>, parents: seq<nat>, n: nat, pass: nat -> bool, i: nat)
    : (t: seq<nat>)
    requires TreeShape(childOffsets, parents, n) && i < n
    decreases i
  {
    if i == 0 then [] else
      ParentFacts(childOffsets, parents, n, i);
      SearchSiblings(childOffsets, parents, n, pass, Parent(parents, i), (i - 1) % 8 + 1) +
      SearchAfter(childOffsets, parents, n, pass, Parent(parents, i))
  }

  /** What is left to do in a state of the loop. */
  ghost function Remaining(childOffsets: seq<nat>, parents: seq<nat>, n: nat, pass: nat -> bool, i: nat,
                           backtrack: bool): (t: seq<nat>)
    requires TreeShape(childOffsets, parents, n) && i < n
  {
    (if backtrack then [] else Search(childOffsets, parents, n, pass, i)) +
    SearchAfter(childOffsets, parents, n, pass, i)
  }

  /** Going to the next sibling, or back to the parent after the last one, continues the search. */
  lemma MoveOn(childOffsets: seq<nat>, parents: seq<nat>, n: nat, pass: nat -> bool, i: nat)
    requires TreeShape(childOffsets, parents, n) && 0 < i < n
    ensures (i - 1) % 8 < 7 ==>
              i + 1 < n &&
              Remaining(childOffsets, parents, n, pass, i + 1, false) ==
              SearchAfter(childOffsets, parents, n, pass, i)
    ensures (i - 1) % 8 == 7 ==>
              Remaining(childOffsets, parents, n, pass, Parent(parents, i), true) ==
              SearchAfter(childOffsets, parents, n, pass, i)
  {
    ParentFacts(childOffsets, parents, n, i);
    var p, d := Parent(parents, i), (i - 1) % 8;
    if d < 7 {
      ChildFacts(childOffsets, parents, n, p, d + 1);
      assert i + 1 == childOffsets[p] + (d + 1);
      var s := Search(childOffsets, parents, n, pass, i + 1);
      var r := SearchSiblings(childOffsets, parents, n, pass, p, d + 2);
      var a := SearchAfter(childOffsets, parents, n, pass, p);
      assert SearchAfter(childOffsets, parents, n, pass, i + 1) == r + a;
      assert SearchAfter(childOffsets, parents, n, pass, i) == (s + r) + a;
      Regroup([], s, r, a);
    }
  }

  /** Descending to the first child continues the search. */
  lemma Descend(childOffsets: seq<nat>, parents: seq<nat>, n: nat, pass: nat -> bool, i: nat)
    requires TreeShape(childOffsets, parents, n) && i < n && childOffsets[i] != 0 && pass(i)
    ensures childOffsets[i] < n
    ensures Remaining(childOffsets, parents, n, pass, i, false) ==
            [i] + Remaining(childOffsets, parents, n, pass, childOffsets[i], false)
  {
    ChildFacts(childOffsets, parents, n, i, 0);
    var c := childOffsets[i];
    assert c + 0 == c;
    var s := Search(childOffsets, parents, n, pass, c);
    var r := SearchSiblings(childOffsets, parents, n, pass, i, 1);
    var a := SearchAfter(childOffsets, parents, n, pass, i);
    assert SearchAfter(childOffsets, parents, n, pass, c) == r + a;
    assert Search(childOffsets, parents, n, pass, i) == [i] + (s + r) by {
      assert SearchSiblings(childOffsets, parents, n, pass, i, 0) == s + r;
    }
    Regroup([i], s, r, a);
  }

  lemma Regroup(p: seq<nat>, s: seq<nat>, r: seq<nat>, a: seq<nat>)
    ensures p + (s + r) + a == p + (s + (r + a))
    ensures (s + r) + a == s + (r + a)
  {
  }

  /** One pass of the loop: the next node, and whether it is reached by backtracking. */
  ghost function NextState(childOffsets: seq<nat>, parents: seq<nat>, pass: nat -> bool, i: nat, backtrack: bool)
    : (r: (nat, bool))
    requires 0 < i < |childOffsets|
  {
    if childOffsets[i] != 0 && !backtrack && pass(i) then (childOffsets[i], false)
    else if (i - 1) % 8 < 7 then (i + 1, false)
    else (Parent(parents, i), true)
  }

  lemma TraversalStep(childOffsets: seq<nat>, parents: seq<nat>, n: nat, pass: nat -> bool, i: nat, backtrack: bool)
    requires TreeShape(childOffsets, parents, n) && 0 < i < n
    ensures var (next, back) := NextState(childOffsets, parents, pass, i, backtrack);
            && next < n && (next == 0 ==> back) && (back ==> next < i)
            && (i - 1) / 8 < |parents| && Parent(parents, i) == parents[(i - 1) / 8]
            && Remaining(childOffsets, parents, n, pass, i, backtrack) ==
               (if backtrack then [] else [i]) + Remaining(childOffsets, parents, n, pass, next, back)
  {
    ParentFacts(childOffsets, parents, n, i);
    if childOffsets[i] != 0 && !backtrack && pass(i) {
      ChildFacts(childOffsets, parents, n, i, 0);
      Descend(childOffsets, parents, n, pass, i);
    } else {
      MoveOn(childOffsets, parents, n, pass, i);
    }
  }

  /** The nodes tested so far and the nodes left to test make up the whole search. */
  ghost predicate OnTrack(childOffsets: seq<nat>, parents: seq<nat>, n: nat, pass: nat -> bool,
                          tested: seq<nat>, i: nat, backtrack: bool) {
    && TreeShape(childOffsets, parents, n) && i < n && (i == 0 ==> backtrack)
    && tested + Remaining(childOffsets, parents, n, pass, i, backtrack) == Search(childOffsets, parents, n, pass, 0)
  }

  lemma StaysOnTrack(childOffsets: seq<nat>, parents: seq<nat>, n: nat, pass: nat -> bool, tested: seq<nat>, i: nat,
                     backtrack: bool)
    requires OnTrack(childOffsets, parents, n, pass, tested, i, backtrack) && i != 0
    ensures |tested| + (if backtrack then 0 else 1) <= |Search(childOffsets, parents, n, pass, 0)|
    ensures (i - 1) / 8 < |parents| && Parent(parents, i) == parents[(i - 1) / 8] < i
    ensures var (next, back) := NextState(childOffsets, parents, pass, i, backtrack);
            OnTrack(childOffsets, parents, n, pass, if backtrack then tested else tested + [i], next, back)
  {
    TraversalStep(childOffsets, parents, n, pass, i, backtrack);
    ParentFacts(childOffsets, parents, n, i);
    var (next, back) := NextState(childOffsets, parents, pass, i, backtrack);
    var rest := Remaining(childOffsets, parents, n, pass, next, back);
    AppendRest(tested, i, rest);
  }

  /** The passing leaves among the nodes. */
  ghost function PassingLeaves(childOffsets: seq<nat>, pass: nat -> bool, nodes: seq<nat>): (ends: seq<nat>)
  {
    if nodes == [] then [] else
      var k := |nodes| - 1;
      PassingLeaves(childOffsets, pass, nodes[..k]) + IfPassingLeaf(childOffsets, pass, nodes[k])
  }

  ghost function IfPassingLeaf(childOffsets: seq<nat>, pass: nat -> bool, i: nat): (ends: seq<nat>) {
    if pass(i) && i < |childOffsets| && childOffsets[i] == 0 then [i] else []
  }

  lemma PassingLeavesAppend(childOffsets: seq<nat>, pass: nat -> bool, nodes: seq<nat>, i: nat)
    ensures PassingLeaves(childOffsets, pass, nodes + [i]) ==
            PassingLeaves(childOffsets, pass, nodes) + IfPassingLeaf(childOffsets, pass, i)
  {
    assert (nodes + [i])[..|nodes|] == nodes;
  }

  /** Depth-first traversal with child and parent links and a backtrack flag only. */
  method SingleTraversal(childOffsets: seq<nat>, parents: seq<nat>, pass: nat -> bool, ghost n: nat)
    returns (tested: seq<nat>, ends: seq<nat>)
    requires TreeShape(childOffsets, parents, n)
    ensures tested == Search(childOffsets, parents, n, pass, 0)
    ensures ends == PassingLeaves(childOffsets, pass, tested)
  {
    tested, ends := [0], [];
    PassingLeavesAppend(childOffsets, pass, [], 0);
    assert [] + [0] == tested;
    if !pass(0) {
      return;
    }
    if childOffsets[0] == 0 {
      ends := [0];
      return;
    }
    Descend(childOffsets, parents, n, pass, 0);
    var node: nat := childOffsets[0];
    var backtrack := false;
    while node != 0
      invariant OnTrack(childOffsets, parents, n, pass, tested, node, backtrack)
      invariant ends == PassingLeaves(childOffsets, pass, tested)
      decreases |Search(childOffsets, parents, n, pass, 0)| - |tested|, backtrack, node
    {
      ghost var (next, back) := NextState(childOffsets, parents, pass, node, backtrack);
      ghost var testedNext := if backtrack then tested else tested + [node];
      StaysOnTrack(childOffsets, parents, n, pass, tested, node, backtrack);
      PassingLeavesAppend(childOffsets, pass, tested, node);
      var isLeaf := childOffsets[node] == 0;
      var descend := !backtrack && pass(node);
      if !backtrack { tested := tested + [node]; }
      if isLeaf && descend { ends := ends + [node]; }
      var siblingIdx := (node - 1) % 8;
      if !isLeaf && descend {
        node := childOffsets[node];
        backtrack := false;
      } else if siblingIdx < 7 {
        node := node + 1;
        backtrack := false;
      } else {
        node := parents[(node - 1) / 8];
        backtrack := true;
      }
      assert tested == testedNext && node == next && backtrack == back;
    }
  }

  lemma AppendRest(t: seq<nat>, i: nat, rest: seq<nat>)
    ensures t + ([i] + rest) == (t + [i]) + rest
    ensures t + ([] + rest) == t + rest
  {
  }

  // --------------------------------------------- which nodes are tested, and how often

  /** All proper ancestors of i, from v on, pass. */
  ghost predicate IsReached(parents: seq<nat>, pass: nat -> bool, v: nat, i: nat) {
    i == v || (i > v && pass(Parent(parents, i)) && IsReached(parents, pass, v, Parent(parents, i)))
  }

  lemma {:induction false} ReachedIsBelow(parents: seq<nat>, pass: nat -> bool, v: nat, i: nat)
    requires IsReached(parents, pass, v, i)
    ensures IsAncestor(parents, v, i) && v <= i
    decreases i
  {
    if i > v { ReachedIsBelow(parents, pass, v, Parent(parents, i)); }
  }

  /** A proper descendant of v is below exactly one child of v. */
  lemma {:induction false} ThroughOneChild(childOffsets: seq<nat>, parents: seq<nat>, n: nat, v: nat, i: nat)
    returns (d: nat)
    requires TreeShape(childOffsets, parents, n) && v < i < n && IsAncestor(parents, v, i)
    ensures childOffsets[v] != 0 && d < 8 && IsAncestor(parents, childOffsets[v] + d, i)
    decreases i
  {
    ParentFacts(childOffsets, parents, n, i);
    var p := Parent(parents, i);
    if p == v {
      d := (i - 1) % 8;
    } else {
      d := ThroughOneChild(childOffsets, parents, n, v, p);
    }
  }

  lemma {:induction false} OnlyOneChild(childOffsets: seq<nat>, parents: seq<nat>, n: nat, v: nat, d: nat, e: nat,
                                        i: nat)
    requires TreeShape(childOffsets, parents, n) && v < n && childOffsets[v] != 0 && d < 8 && e < 8 && i < n
    requires IsAncestor(parents, childOffsets[v] + d, i) && IsAncestor(parents, childOffsets[v] + e, i)
    ensures d == e
    decreases i
  {
    ChildFacts(childOffsets, parents, n, v, d);
    ChildFacts(childOffsets, parents, n, v, e);
    var c := childOffsets[v];
    AncestorIsSmaller(parents, c + e, v);
    AncestorIsSmaller(parents, c + d, v);
    if i != c + d && i != c + e {
      ParentFacts(childOffsets, parents, n, i);
      OnlyOneChild(childOffsets, parents, n, v, d, e, Parent(parents, i));
    }
  }

  lemma {:induction false} AncestorIsSmaller(parents: seq<nat>, v: nat, i: nat)
    ensures IsAncestor(parents, v, i) ==> v <= i
  {
  }

  /** Nothing else is below a leaf. */
  lemma LeafBelowLeaf(childOffsets: seq<nat>, parents: seq<nat>, n: nat, v: nat, leaf: nat)
    requires TreeShape(childOffsets, parents, n) && v < n && childOffsets[v] == 0 && leaf < n
    requires IsAncestor(parents, v, leaf)
    ensures leaf == v
  {
    AncestorIsSmaller(parents, v, leaf);
    if v < leaf {
      var d := ThroughOneChild(childOffsets, parents, n, v, leaf);
      assert false;
    }
  }

  /** Reaching a proper descendant means passing v, and reaching it from the child it is below. */
  lemma {:induction false} ReachedThroughChild(childOffsets: seq<nat>, parents: seq<nat>, n: nat, pass: nat -> bool,
                                               v: nat, d: nat, i: nat)
    requires TreeShape(childOffsets, parents, n) && v < n && childOffsets[v] != 0 && d < 8 && i < n
    requires IsAncestor(parents, childOffsets[v] + d, i)
    ensures v < i
    ensures IsReached(parents, pass, v, i) <==> pass(v) && IsReached(parents, pass, childOffsets[v] + d, i)
    decreases i
  {
    ChildFacts(childOffsets, parents, n, v, d);
    if i != childOffsets[v] + d {
      ReachedThroughChild(childOffsets, parents, n, pass, v, d, Parent(parents, i));
    }
  }

  /** How often x occurs. */
  ghost function Times(t: seq<nat>, x: nat): (k: nat) {
    if t == [] then 0 else (if t[0] == x then 1 else 0) + Times(t[1..], x)
  }

  lemma {:induction false} TimesOfBoth(t: seq<nat>, u: seq<nat>, x: nat)
    ensures Times(t + u, x) == Times(t, x) + Times(u, x)
  {
    if t == [] {
      assert t + u == u;
    } else {
      assert (t + u)[1..] == t[1..] + u;
      TimesOfBoth(t[1..], u, x);
    }
  }

  /** Node x is reached from child e of the sibling group that starts at c. */
  ghost predicate ReachedVia(parents: seq<nat>, pass: nat -> bool, c: nat, e: nat, x: nat) {
    IsReached(parents, pass, c + e, x)
  }

  /** How many of the children of v, from child d on, lead to x. */
  ghost function Ways(childOffsets: seq<nat>, parents: seq<nat>, pass: nat -> bool, v: nat, d: nat, x: nat): (k: nat)
    requires v < |childOffsets| && d <= 8
    decreases 8 - d
  {
    if d == 8 then 0 else
      (if ReachedVia(parents, pass, childOffsets[v], d, x) then 1 else 0) +
      Ways(childOffsets, parents, pass, v, d + 1, x)
  }

  lemma {:induction false} NoWay(childOffsets: seq<nat>, parents: seq<nat>, pass: nat -> bool, v: nat, d: nat, x: nat)
    requires v < |childOffsets| && d <= 8
    requires forall e: nat :: d <= e < 8 ==> !ReachedVia(parents, pass, childOffsets[v], e, x)
    ensures Ways(childOffsets, parents, pass, v, d, x) == 0
    decreases 8 - d
  {
    if d < 8 { NoWay(childOffsets, parents, pass, v, d + 1, x); }
  }

  lemma {:induction false} OneWay(childOffsets: seq<nat>, parents: seq<nat>, pass: nat -> bool, v: nat, d: nat,
                                  way: nat, x: nat)
    requires v < |childOffsets| && d <= way < 8
    requires forall e: nat :: e < 8 && e != way ==> !ReachedVia(parents, pass, childOffsets[v], e, x)
    ensures Ways(childOffsets, parents, pass, v, d, x) ==
            if ReachedVia(parents, pass, childOffsets[v], way, x) then 1 else 0
    decreases 8 - d
  {
    if d < way {
      OneWay(childOffsets, parents, pass, v, d + 1, way, x);
    } else {
      NoWay(childOffsets, parents, pass, v, d + 1, x);
    }
  }

  /** A proper descendant of v is reached through the one child above it, or not at all. */
  lemma WaysBelow(childOffsets: seq<nat>, parents: seq<nat>, n: nat, pass: nat -> bool, v: nat, x: nat)
    requires TreeShape(childOffsets, parents, n) && v < n && x < n && childOffsets[v] != 0 && pass(v)
    ensures Ways(childOffsets, parents, pass, v, 0, x) == if x != v && IsReached(parents, pass, v, x) then 1 else 0
  {
    ChildFacts(childOffsets, parents, n, v, 0);
    var c := childOffsets[v];
    if v < x && IsAncestor(parents, v, x) {
      var way := ThroughOneChild(childOffsets, parents, n, v, x);
      forall e: nat | e < 8 && e != way ensures !ReachedVia(parents, pass, c, e, x) {
        if IsReached(parents, pass, c + e, x) {
          ReachedIsBelow(parents, pass, c + e, x);
          OnlyOneChild(childOffsets, parents, n, v, way, e, x);
        }
      }
      OneWay(childOffsets, parents, pass, v, 0, way, x);
      ReachedThroughChild(childOffsets, parents, n, pass, v, way, x);
    } else {
      NotBelow(childOffsets, parents, n, pass, v, x);
    }
  }

  lemma NotBelow(childOffsets: seq<nat>, parents: seq<nat>, n: nat, pass: nat -> bool, v: nat, x: nat)
    requires TreeShape(childOffsets, parents, n) && v < n && x < n && childOffsets[v] != 0
    requires x <= v || !IsAncestor(parents, v, x)
    ensures Ways(childOffsets, parents, pass, v, 0, x) == 0
    ensures x != v ==> !IsReached(parents, pass, v, x)
  {
    var c := childOffsets[v];
    forall e: nat | e < 8 ensures !ReachedVia(parents, pass, c, e, x) {
      ChildFacts(childOffsets, parents, n, v, e);
      if IsReached(parents, pass, c + e, x) {
        ReachedIsBelow(parents, pass, c + e, x);
        BelowParent(parents, v, c + e, x);
      }
    }
    NoWay(childOffsets, parents, pass, v, 0, x);
    if IsReached(parents, pass, v, x) { ReachedIsBelow(parents, pass, v, x); }
  }

  lemma {:induction false} BelowParent(parents: seq<nat>, v: nat, c: nat, x: nat)
    requires IsAncestor(parents, c, x) && v < c && Parent(parents, c) == v
    ensures IsAncestor(parents, v, x) && v < x
    decreases x
  {
    if x != c { BelowParent(parents, v, c, Parent(parents, x)); }
  }

  /** The search tests exactly the nodes whose proper ancestors all pass, and each of them once. */
  lemma {:induction false} SearchedOnce(childOffsets: seq<nat>, parents: seq<nat>, n: nat, pass: nat -> bool,
                                        v: nat, x: nat)
    requires TreeShape(childOffsets, parents, n) && v < n
    ensures Times(Search(childOffsets, parents, n, pass, v), x) ==
            if x < n && IsReached(parents, pass, v, x) then 1 else 0
    decreases n - v, 9
  {
    if pass(v) && childOffsets[v] != 0 {
      ChildFacts(childOffsets, parents, n, v, 0);
      TimesOfBoth([v], SearchSiblings(childOffsets, parents, n, pass, v, 0), x);
      SiblingsSearchedOnce(childOffsets, parents, n, pass, v, 0, x);
      if x < n { WaysBelow(childOffsets, parents, n, pass, v, x); }
    } else if v < x < n && IsReached(parents, pass, v, x) {
      ReachedMeansPassed(childOffsets, parents, n, pass, v, x);
    }
  }

  lemma {:induction false} ReachedMeansPassed(childOffsets: seq<nat>, parents: seq<nat>, n: nat, pass: nat -> bool,
                                              v: nat, x: nat)
    requires TreeShape(childOffsets, parents, n) && v < x < n && IsReached(parents, pass, v, x)
    ensures pass(v) && childOffsets[v] != 0
    decreases x
  {
    ParentFacts(childOffsets, parents, n, x);
    if Parent(parents, x) != v { ReachedMeansPassed(childOffsets, parents, n, pass, v, Parent(parents, x)); }
  }

  lemma TimesInSiblings(childOffsets: seq<nat>, parents: seq<nat>, n: nat, pass: nat -> bool, v: nat, d: nat, x: nat)
    requires TreeShape(childOffsets, parents, n) && v < n && childOffsets[v] != 0 && d < 8
    ensures childOffsets[v] + d < n
    ensures Times(SearchSiblings(childOffsets, parents, n, pass, v, d), x) ==
            Times(Search(childOffsets, parents, n, pass, childOffsets[v] + d), x) +
            Times(SearchSiblings(childOffsets, parents, n, pass, v, d + 1), x)
  {
    ChildFacts(childOffsets, parents, n, v, d);
    TimesOfBoth(Search(childOffsets, parents, n, pass, childOffsets[v] + d),
                SearchSiblings(childOffsets, parents, n, pass, v, d + 1), x);
  }

  lemma {:induction false} SiblingsSearchedOnce(childOffsets: seq<nat>, parents: seq<nat>, n: nat, pass: nat -> bool,
                                                v: nat, d: nat, x: nat)
    requires TreeShape(childOffsets, parents, n) && v < n && childOffsets[v] != 0 && d <= 8
    ensures Times(SearchSiblings(childOffsets, parents, n, pass, v, d), x) ==
            if x < n then Ways(childOffsets, parents, pass, v, d, x) else 0
    decreases n - v, 8 - d
  {
    if d < 8 {
      ChildFacts(childOffsets, parents, n, v, d);
      var c := childOffsets[v] + d;
      var rest := SearchSiblings(childOffsets, parents, n, pass, v, d + 1);
      assert Times(SearchSiblings(childOffsets, parents, n, pass, v, d), x) ==
             Times(Search(childOffsets, parents, n, pass, c), x) + Times(rest, x) by {
        TimesInSiblings(childOffsets, parents, n, pass, v, d, x);
      }
      assert Times(Search(childOffsets, parents, n, pass, c), x) ==
             if x < n && ReachedVia(parents, pass, childOffsets[v], d, x) then 1 else 0 by {
        SearchedOnce(childOffsets, parents, n, pass, c, x);
      }
      SiblingsSearchedOnce(childOffsets, parents, n, pass, v, d + 1, x);
    }
  }
}
