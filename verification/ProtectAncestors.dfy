/** Protecting the ancestors of kept nodes, in place, by iterations that run in any order or race. */
module ProtectAncestors {
  import opened Counts
  import opened Traversal
  import opened OctreeView
  import opened FocusRebalance

  /** Operation of a node from the operations that are in the array now. */
  method NzAncestorOp(nodeIdx: nat, t: View, nodeOps: array<nat>) returns (op: nat)
    requires TreeShape(t.childOffsets, t.parents, nodeOps.Length) && nodeIdx < nodeOps.Length
    requires nodeOps[0] != 0
    ensures op == ProtectedOp(t, nodeOps[..], nodeIdx)
  {
    if nodeIdx == 0 { return nodeOps[0]; }
    var closestNonZeroAncestor: nat := nodeIdx;
    while nodeOps[closestNonZeroAncestor] == 0
      invariant closestNonZeroAncestor < nodeOps.Length
      invariant ClosestKept(t.parents, nodeOps[..], closestNonZeroAncestor) ==
                ClosestKept(t.parents, nodeOps[..], nodeIdx)
      decreases closestNonZeroAncestor
    {
      ParentFacts(t.childOffsets, t.parents, nodeOps.Length, closestNonZeroAncestor);
      closestNonZeroAncestor := t.parents[(closestNonZeroAncestor - 1) / 8];
    }
    if StartOf(t, nodeIdx) == StartOf(t, closestNonZeroAncestor) {
      op := nodeOps[closestNonZeroAncestor];
    } else {
      op := 0;
    }
  }

  /** All nodes, in any order; later ones read what earlier ones have written. */
  method ProtectAllAncestors(t: View, nodeOps: array<nat>, order: seq<nat>) returns (converged: bool)
    requires TreeShape(t.childOffsets, t.parents, nodeOps.Length) && nodeOps[0] != 0
    requires IsOrderOf(order, nodeOps.Length)
    modifies nodeOps
    ensures nodeOps[..] == ProtectedOps(t, old(nodeOps[..]))
    ensures converged <==> forall i: nat :: i < nodeOps.Length ==> nodeOps[i] == 1
  {
    ghost var before := nodeOps[..];
    var numChanges: nat := 0;
    var k: nat := 0;
    while k < |order|
      invariant k <= |order|
      invariant IsPartlyProtected(t, before, nodeOps[..])
      invariant forall j: nat :: j < k ==> nodeOps[order[j]] == ProtectedOp(t, before, order[j])
      invariant numChanges == 0 <==> forall j: nat :: j < k ==> nodeOps[order[j]] == 1
    {
      var i := order[k];
      ProtectedOpIsStable(t, before, nodeOps[..], i);
      ProtectedOpIsStable(t, before, nodeOps[..], 0);
      var opDecision := NzAncestorOp(i, t, nodeOps);
      if opDecision != 1 { numChanges := numChanges + 1; }
      nodeOps[i] := opDecision;
      k := k + 1;
    }
    converged := numChanges == 0;
    forall i: nat | i < nodeOps.Length
      ensures nodeOps[i] == ProtectedOp(t, before, i) && (converged ==> nodeOps[i] == 1)
    {
      assert i in order;
      var j: nat :| j < |order| && order[j] == i;
    }
    assert nodeOps[..] == ProtectedOps(t, before);
  }

  // ------------------------------------------------------------- iterations that race

  /** How far one iteration has come: on its way up, about to write, or done. */
  datatype Walk = Walking(at: nat) | Writing(op: nat) | Finished

  datatype Race = Race(ops: seq<nat>, walks: seq<Walk>)

  /** The next read or write of iteration i. */
  function Advance(t: View, r: Race, i: nat): (next: Race) {
    if i >= |r.walks| || i >= |r.ops| then r else
      match r.walks[i]
      case Walking(at) =>
        if at >= |r.ops| then r
        else if at > 0 && r.ops[at] == 0 then r.(walks := r.walks[i := Walking(Parent(t.parents, at))])
        else r.(walks := r.walks[i := Writing(if StartOf(t, i) == StartOf(t, at) then r.ops[at] else 0)])
      case Writing(op) => Race(r.ops[i := op], r.walks[i := Finished])
      case Finished => r
  }

  /** The iterations take turns in the order of a schedule. */
  function RunSchedule(t: View, r: Race, schedule: seq<nat>): (end: Race) {
    if schedule == [] then r else Advance(t, RunSchedule(t, r, schedule[..|schedule| - 1]), schedule[|schedule| - 1])
  }

  function StartOfRace(ops: seq<nat>): (r: Race) {
    Race(ops, seq(|ops|, i requires i >= 0 => Walking(i)))
  }

  ghost predicate WalkIsSound(t: View, ops: seq<nat>, r: Race, i: nat)
    requires |ops| == |r.ops| == |r.walks| && i < |ops|
  {
    match r.walks[i]
    case Walking(at) => at <= i && ClosestKept(t.parents, ops, at) == ClosestKept(t.parents, ops, i)
    case Writing(op) => op == ProtectedOp(t, ops, i)
    case Finished => r.ops[i] == ProtectedOp(t, ops, i)
  }

  /** What holds at every moment of the race that starts with the operations `ops`. */
  ghost predicate RaceInvariant(t: View, ops: seq<nat>, r: Race) {
    && |ops| == |r.walks| && IsPartlyProtected(t, ops, r.ops)
    && forall i: nat :: i < |ops| ==> WalkIsSound(t, ops, r, i)
  }

  lemma AdvanceKeepsInvariant(t: View, ops: seq<nat>, r: Race, i: nat)
    requires RaceInvariant(t, ops, r) && |ops| > 0 && ops[0] != 0
    ensures RaceInvariant(t, ops, Advance(t, r, i))
  {
    var next := Advance(t, r, i);
    if i < |ops| {
      assert WalkIsSound(t, ops, r, i);
      if r.walks[i].Walking? {
        ProtectedOpIsStable(t, ops, r.ops, r.walks[i].at);
        ReadDecides(t, ops, r, i);
      }
      forall j: nat | j < |ops| ensures WalkIsSound(t, ops, next, j) {
        assert WalkIsSound(t, ops, r, j);
      }
    }
  }

  /** What an iteration reads on its way up decides as the original operations would. */
  lemma ReadDecides(t: View, ops: seq<nat>, r: Race, i: nat)
    requires RaceInvariant(t, ops, r) && i < |ops| && ops[0] != 0
    requires r.walks[i].Walking? && WalkIsSound(t, ops, r, i)
    ensures var at := r.walks[i].at;
            if at > 0 && r.ops[at] == 0 then
              Parent(t.parents, at) <= at &&
              ClosestKept(t.parents, ops, Parent(t.parents, at)) == ClosestKept(t.parents, ops, i)
            else ProtectedOp(t, ops, i) == if StartOf(t, i) == StartOf(t, at) then r.ops[at] else 0
  {
    var at := r.walks[i].at;
    ProtectedOpIsStable(t, ops, r.ops, at);
    if at > 0 && ops[at] != 0 {
      assert ProtectedOp(t, ops, at) == ops[at];
    }
  }

  lemma {:induction false} RaceKeepsInvariant(t: View, ops: seq<nat>, schedule: seq<nat>)
    requires |ops| > 0 && ops[0] != 0
    ensures RaceInvariant(t, ops, RunSchedule(t, StartOfRace(ops), schedule))
  {
    if schedule != [] {
      var k := |schedule| - 1;
      RaceKeepsInvariant(t, ops, schedule[..k]);
      AdvanceKeepsInvariant(t, ops, RunSchedule(t, StartOfRace(ops), schedule[..k]), schedule[k]);
    }
  }

  function WorkLeft(w: Walk): (n: nat) {
    match w
    case Walking(at) => at + 2
    case Writing(_) => 1
    case Finished => 0
  }

  /** Each turn of an unfinished iteration brings it closer to its end, and no other iteration's. */
  lemma TurnsAreProductive(t: View, ops: seq<nat>, r: Race, i: nat)
    requires RaceInvariant(t, ops, r) && i < |ops| && ops[0] != 0
    ensures var next := Advance(t, r, i);
            && (r.walks[i] != Finished ==> WorkLeft(next.walks[i]) < WorkLeft(r.walks[i]))
            && forall j: nat :: j < |ops| && j != i ==> next.walks[j] == r.walks[j]
  {
    assert WalkIsSound(t, ops, r, i);
  }

  predicate AllFinished(r: Race) {
    forall i: nat :: i < |r.walks| ==> r.walks[i] == Finished
  }

  /** Whatever the schedule, when all iterations are done the array is what evaluating every node on
      the original operations gives. */
  lemma RaceIsDeterministic(t: View, ops: seq<nat>, schedule: seq<nat>)
    requires |ops| > 0 && ops[0] != 0
    requires AllFinished(RunSchedule(t, StartOfRace(ops), schedule))
    ensures RunSchedule(t, StartOfRace(ops), schedule).ops == ProtectedOps(t, ops)
  {
    RaceKeepsInvariant(t, ops, schedule);
    var end := RunSchedule(t, StartOfRace(ops), schedule);
    forall i: nat | i < |ops| ensures end.ops[i] == ProtectedOp(t, ops, i) {
      assert WalkIsSound(t, ops, end, i);
    }
  }
}
