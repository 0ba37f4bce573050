/** Marking the octree nodes that fail a multipole acceptance criterion.

The geometric evaluation of the criterion is a parameter: `close(target, node)` says that a node is
within the acceptance radius of a target. */
module Macs {
  import opened Keys
  import opened OctreeLinks
  import opened Traversal
  import opened Counts

  /** What the marking of a whole focus range depends on. */
  datatype Marking = Marking(prefixes: seq<nat>, focusNodes: seq<nat>, limitSource: bool, L: nat,
                             close: (nat, nat) -> bool, inside: nat -> bool)

  /** The node passes the continuation criterion of the traversal for one target. */
  predicate ViolatesMac(m: Marking, target: nat, maxSourceLevel: nat, idx: nat) {
    && idx < |m.prefixes| && Log8(m.prefixes[idx]) <= m.L && m.focusNodes != []
    && var sourceLevel := Log8(m.prefixes[idx]);
       var nodeStart := DecodePlaceholderBit(m.prefixes[idx], m.L);
       var nodeEnd := nodeStart + Pow8(m.L - sourceLevel);
       && !(m.focusNodes[0] <= nodeStart && nodeEnd <= m.focusNodes[|m.focusNodes| - 1])
       && m.close(target, idx) && sourceLevel <= maxSourceLevel
  }

  /** Deepest level at which sources are marked for a target. */
  function MaxSourceLevel(m: Marking, target: nat): (level: nat) {
    if !m.limitSource || target + 1 >= |m.focusNodes| || m.focusNodes[target] >= m.focusNodes[target + 1] then m.L
    else
      var height := Log8(m.focusNodes[target + 1] - m.focusNodes[target]);
      if height < m.L then m.L - height - 1 else 0
  }

  function Criterion(m: Marking, target: nat): (pass: nat -> bool) {
    (idx: nat) => ViolatesMac(m, target, MaxSourceLevel(m, target), idx)
  }

  /** The traversal gets to the node and the node passes. */
  ghost predicate IsOpened(parents: seq<nat>, pass: nat -> bool, i: nat) {
    IsReached(parents, pass, 0, i) && pass(i)
  }

  lemma {:induction false} TimesIsMembership(t: seq<nat>, x: nat)
    ensures Times(t, x) > 0 <==> x in t
  {
    if t != [] { TimesIsMembership(t[1..], x); }
  }

  lemma SearchFindsReached(childOffsets: seq<nat>, parents: seq<nat>, n: nat, pass: nat -> bool, x: nat)
    requires TreeShape(childOffsets, parents, n)
    ensures x in Search(childOffsets, parents, n, pass, 0) <==> x < n && IsReached(parents, pass, 0, x)
  {
    SearchedOnce(childOffsets, parents, n, pass, 0, x);
    TimesIsMembership(Search(childOffsets, parents, n, pass, 0), x);
  }

  /** Mark every node that the traversal of one target opens. */
  method MarkMacPerBox(childOffsets: seq<nat>, parents: seq<nat>, pass: nat -> bool, markings: array<nat>)
    requires TreeShape(childOffsets, parents, markings.Length)
    modifies markings
    ensures forall i: nat :: i < markings.Length ==>
              markings[i] == if IsOpened(parents, pass, i) && old(markings[i]) == 0 then 1 else old(markings[i])
  {
    ghost var n := markings.Length;
    var tested, _ := SingleTraversal(childOffsets, parents, pass, n);
    forall x: nat ensures x in tested <==> x < n && IsReached(parents, pass, 0, x) {
      SearchFindsReached(childOffsets, parents, n, pass, x);
    }
    var k: nat := 0;
    while k < |tested|
      invariant k <= |tested|
      invariant forall i: nat :: i < n ==>
                  markings[i] == if i in tested[..k] && pass(i) && old(markings[i]) == 0 then 1 else old(markings[i])
    {
      var idx := tested[k];
      assert idx in tested;
      var violatesMac := pass(idx);
      if violatesMac && markings[idx] == 0 { markings[idx] := 1; }
      assert tested[..k + 1] == tested[..k] + [idx];
      k := k + 1;
    }
    assert tested[..k] == tested;
  }

  /** Every marked node has a marked parent. */
  ghost predicate IsAncestorClosed(parents: seq<nat>, markings: seq<nat>) {
    forall i: nat {:trigger markings[i]} :: i < |markings| && markings[i] != 0 ==>
      IsMarked(markings, Parent(parents, i))
  }

  ghost predicate IsMarked(markings: seq<nat>, i: nat) {
    i < |markings| && markings[i] != 0
  }

  /** The node is opened for some target that is not skipped, among the first k of an order. */
  ghost predicate IsOpenedIn(m: Marking, parents: seq<nat>, order: seq<nat>, k: nat, i: nat)
    requires k <= |order|
  {
    exists j: nat :: j < k && IsOpenedFor(m, parents, order[j], i)
  }

  ghost predicate IsOpenedFor(m: Marking, parents: seq<nat>, target: nat, i: nat) {
    !m.inside(target) && IsOpened(parents, Criterion(m, target), i)
  }

  ghost predicate IsOpenedForAny(m: Marking, parents: seq<nat>, i: nat) {
    exists t: nat :: t < |m.focusNodes| - 1 && IsOpenedFor(m, parents, t, i)
  }

  /** What marking adds to the marks that are there. */
  ghost predicate AddsMarks(m: Marking, parents: seq<nat>, before: seq<nat>, after: seq<nat>) {
    && |before| == |after|
    && forall i: nat :: i < |after| ==> (IsMarked(after, i) <==> before[i] != 0 || IsOpenedForAny(m, parents, i))
  }

  /** Mark the nodes that any target of the focus opens. The targets may be processed in any order. */
  method MarkMacs(m: Marking, childOffsets: seq<nat>, parents: seq<nat>, order: seq<nat>, markings: array<nat>)
    requires TreeShape(childOffsets, parents, markings.Length)
    requires |m.focusNodes| > 0 && IsOrderOf(order, |m.focusNodes| - 1)
    modifies markings
    ensures AddsMarks(m, parents, old(markings[..]), markings[..])
  {
    var k: nat := 0;
    while k < |order|
      invariant k <= |order|
      invariant forall i: nat :: i < markings.Length ==>
                  (markings[i] != 0 <==> old(markings[i]) != 0 || IsOpenedIn(m, parents, order, k, i))
    {
      var target := order[k];
      label Before:
      if !m.inside(target) {
        MarkMacPerBox(childOffsets, parents, Criterion(m, target), markings);
      }
      forall i: nat | i < markings.Length
        ensures markings[i] != 0 <==> old(markings[i]) != 0 || IsOpenedIn(m, parents, order, k + 1, i)
      {
        assert IsOpenedIn(m, parents, order, k + 1, i) <==>
               IsOpenedIn(m, parents, order, k, i) || IsOpenedFor(m, parents, target, i) by {
          if IsOpenedFor(m, parents, order[k], i) { assert IsOpenedIn(m, parents, order, k + 1, i); }
        }
      }
      k := k + 1;
    }
    forall i: nat | i < markings.Length
      ensures IsOpenedIn(m, parents, order, |order|, i) <==> IsOpenedForAny(m, parents, i)
    {
      AnyOrder(m, parents, order, i);
    }
  }

  lemma AnyOrder(m: Marking, parents: seq<nat>, order: seq<nat>, i: nat)
    requires |m.focusNodes| > 0 && IsOrderOf(order, |m.focusNodes| - 1)
    ensures IsOpenedIn(m, parents, order, |order|, i) <==> IsOpenedForAny(m, parents, i)
  {
    if t: nat :| t < |m.focusNodes| - 1 && IsOpenedFor(m, parents, t, i) {
      assert t in order;
      var j: nat :| j < |order| && order[j] == t;
      assert IsOpenedFor(m, parents, order[j], i);
    }
  }

  /** The parent of a node that was marked before was marked too, or is opened for some target. */
  ghost predicate HasMarkedParent(m: Marking, parents: seq<nat>, before: seq<nat>, i: nat) {
    var p := Parent(parents, i);
    p < |before| && (before[p] != 0 || IsOpenedForAny(m, parents, p))
  }

  /** After marking, marks are closed under parents if and only if every earlier mark gets a marked parent. */
  lemma MarksAreClosedIff(m: Marking, parents: seq<nat>, before: seq<nat>, after: seq<nat>)
    requires AddsMarks(m, parents, before, after)
    ensures IsAncestorClosed(parents, after) <==>
            forall i: nat {:trigger before[i]} :: i < |before| && before[i] != 0 ==>
              HasMarkedParent(m, parents, before, i)
  {
    forall i: nat | i < |before| ensures after[i] == 0 <==> before[i] == 0 && !IsOpenedForAny(m, parents, i) {
      assert IsMarked(after, i) <==> before[i] != 0 || IsOpenedForAny(m, parents, i);
    }
    forall i: nat | i < |before| && IsOpenedForAny(m, parents, i)
      ensures Parent(parents, i) <= i && IsOpenedForAny(m, parents, Parent(parents, i)) {
      var t: nat :| t < |m.focusNodes| - 1 && IsOpenedFor(m, parents, t, i);
      OpenedParent(parents, Criterion(m, t), i);
      assert IsOpenedFor(m, parents, t, Parent(parents, i));
    }
  }

  /** Whatever the criterion and the targets are, marking keeps a set of marks closed under parents. */
  lemma MarksAreAncestorClosed(m: Marking, parents: seq<nat>, before: seq<nat>, after: seq<nat>)
    requires AddsMarks(m, parents, before, after) && IsAncestorClosed(parents, before)
    ensures IsAncestorClosed(parents, after)
  {
    MarksAreClosedIff(m, parents, before, after);
    forall i: nat | i < |before| && before[i] != 0 ensures HasMarkedParent(m, parents, before, i) {
      assert IsMarked(before, Parent(parents, i));
    }
  }

  lemma OpenedParent(parents: seq<nat>, pass: nat -> bool, i: nat)
    requires IsOpened(parents, pass, i)
    ensures Parent(parents, i) <= i && IsOpened(parents, pass, Parent(parents, i))
  {
  }

  // ------------------------------------------------------------- limiting the sources

  /** The node is higher in the octree than the target, or the root. */
  predicate IsAboveTarget(m: Marking, target: nat, i: nat)
    requires target + 1 < |m.focusNodes| && m.focusNodes[target] < m.focusNodes[target + 1] && i < |m.prefixes|
  {
    Log8(m.prefixes[i]) == 0 || Log8(m.prefixes[i]) + Log8(m.focusNodes[target + 1] - m.focusNodes[target]) < m.L
  }

  predicate LevelsGrow(prefixes: seq<nat>, parents: seq<nat>) {
    forall i: nat {:trigger prefixes[i]} :: 0 < i < |prefixes| ==>
      Parent(parents, i) < i && Log8(prefixes[Parent(parents, i)]) <= Log8(prefixes[i])
  }

  /** Of what a target opens, limiting the sources leaves exactly the nodes that are higher than the target. */
  lemma LimitedIsHigher(m: Marking, parents: seq<nat>, target: nat, i: nat)
    requires m.limitSource && LevelsGrow(m.prefixes, parents) && i < |m.prefixes|
    requires target + 1 < |m.focusNodes| && m.focusNodes[target] < m.focusNodes[target + 1]
    ensures IsOpenedFor(m, parents, target, i) <==>
            IsOpenedFor(m.(limitSource := false), parents, target, i) && IsAboveTarget(m, target, i)
  {
    LimitedOpens(m, parents, target, Criterion(m, target), Criterion(m.(limitSource := false), target), i);
  }

  lemma {:induction false} LimitedOpens(m: Marking, parents: seq<nat>, target: nat, limited: nat -> bool,
                                        all: nat -> bool, i: nat)
    requires m.limitSource && LevelsGrow(m.prefixes, parents) && i < |m.prefixes|
    requires target + 1 < |m.focusNodes| && m.focusNodes[target] < m.focusNodes[target + 1]
    requires limited == Criterion(m, target) && all == Criterion(m.(limitSource := false), target)
    ensures IsOpened(parents, limited, i) <==> IsOpened(parents, all, i) && IsAboveTarget(m, target, i)
    decreases i
  {
    assert limited(i) <==> all(i) && IsAboveTarget(m, target, i);
    if i > 0 { LimitedOpens(m, parents, target, limited, all, Parent(parents, i)); }
  }
}
