/** Simultaneous traversal of two subtrees of a linked octree with a fixed stack of node pairs. */
module DualTraversal {
  import opened Traversal

  type NodePair = (nat, nat)

  const STACK_SIZE: nat := 128

  /** A constant, so that sums over 8 children are not unfolded term by term. */
  const OCTANTS: nat := 8

  // ------------------------------------------------------------------ heights

  /** Height of the subtree below a node. */
  ghost function Height(childOffsets: seq<nat>, n: nat, i: nat): (h: nat)
    requires n <= |childOffsets|
    ensures i < n ==> (h == 0 ==> childOffsets[i] == 0 || childOffsets[i] <= i || childOffsets[i] + 8 > n)
    decreases n - i, 9
  {
    if i < n && i < childOffsets[i] && childOffsets[i] + 8 <= n then 1 + HighestChild(childOffsets, n, i, 0) else 0
  }

  ghost function HighestChild(childOffsets: seq<nat>, n: nat, i: nat, d: nat): (h: nat)
    requires n <= |childOffsets| && i < n && i < childOffsets[i] && childOffsets[i] + 8 <= n && d <= 8
    decreases n - i, 8 - d
  {
    if d == 8 then 0 else
      var h := Height(childOffsets, n, childOffsets[i] + d);
      var rest := HighestChild(childOffsets, n, i, d + 1);
      if h > rest then h else rest
  }

  lemma {:induction false} HighestIsHighest(childOffsets: seq<nat>, n: nat, i: nat, d: nat, e: nat)
    requires n <= |childOffsets| && i < n && i < childOffsets[i] && childOffsets[i] + 8 <= n && d <= e < 8
    ensures Height(childOffsets, n, childOffsets[i] + e) <= HighestChild(childOffsets, n, i, d)
    decreases 8 - d
  {
    if d < e { HighestIsHighest(childOffsets, n, i, d + 1, e); }
  }

  lemma ChildIsLower(childOffsets: seq<nat>, parents: seq<nat>, n: nat, i: nat, d: nat)
    requires TreeShape(childOffsets, parents, n) && i < n && d < 8 && childOffsets[i] != 0
    ensures childOffsets[i] + d < n
    ensures Height(childOffsets, n, childOffsets[i] + d) < Height(childOffsets, n, i)
  {
    ChildFacts(childOffsets, parents, n, i, d);
    HighestIsHighest(childOffsets, n, i, 0, d);
  }

  /** The height of both nodes together. */
  ghost function PairHeight(childOffsets: seq<nat>, n: nat, p: NodePair): (h: nat)
    requires n <= |childOffsets|
  {
    Height(childOffsets, n, p.0) + Height(childOffsets, n, p.1)
  }

  ghost function Pow9(h: nat): (p: nat)
    ensures p >= 1
  {
    if h == 0 then 1 else 9 * Pow9(h - 1)
  }

  lemma {:induction false} Pow9Monotone(g: nat, h: nat)
    requires g <= h
    ensures Pow9(g) <= Pow9(h)
    decreases h
  {
    if g < h { Pow9Monotone(g, h - 1); }
  }

  /** Work that is left on the stack. */
  ghost function Work(childOffsets: seq<nat>, n: nat, stack: seq<NodePair>): (w: nat)
    requires n <= |childOffsets|
  {
    if stack == [] then 0 else
      Work(childOffsets, n, stack[..|stack| - 1]) + Pow9(PairHeight(childOffsets, n, stack[|stack| - 1]))
  }

  // ------------------------------------------------------------------ covering

  /** The pair covers leaf la on the target side and leaf lb on the source side. */
  ghost predicate Covers(parents: seq<nat>, p: NodePair, la: nat, lb: nat) {
    IsAncestor(parents, p.0, la) && IsAncestor(parents, p.1, lb)
  }

  /** How many of the pairs cover the two leaves. */
  ghost function Cover(parents: seq<nat>, pairs: seq<NodePair>, la: nat, lb: nat): (k: nat) {
    if pairs == [] then 0 else
      Cover(parents, pairs[..|pairs| - 1], la, lb) + (if Covers(parents, pairs[|pairs| - 1], la, lb) then 1 else 0)
  }

  lemma CoverAppend(parents: seq<nat>, pairs: seq<NodePair>, p: NodePair, la: nat, lb: nat)
    ensures Cover(parents, pairs + [p], la, lb) ==
            Cover(parents, pairs, la, lb) + if Covers(parents, p, la, lb) then 1 else 0
  {
    assert (pairs + [p])[..|pairs|] == pairs;
  }

  lemma {:induction false} NoneCovers(parents: seq<nat>, pairs: seq<NodePair>, la: nat, lb: nat)
    requires forall k: nat :: k < |pairs| ==> !Covers(parents, pairs[k], la, lb)
    ensures Cover(parents, pairs, la, lb) == 0
  {
    if pairs != [] { NoneCovers(parents, pairs[..|pairs| - 1], la, lb); }
  }

  lemma {:induction false} SomeCovers(parents: seq<nat>, pairs: seq<NodePair>, la: nat, lb: nat) returns (k: nat)
    requires Cover(parents, pairs, la, lb) > 0
    ensures k < |pairs| && Covers(parents, pairs[k], la, lb)
  {
    if Covers(parents, pairs[|pairs| - 1], la, lb) {
      k := |pairs| - 1;
    } else {
      k := SomeCovers(parents, pairs[..|pairs| - 1], la, lb);
    }
  }

  lemma {:induction false} OneCovers(parents: seq<nat>, pairs: seq<NodePair>, e: nat, la: nat, lb: nat)
    requires e < |pairs| && Covers(parents, pairs[e], la, lb)
    requires forall k: nat :: k < |pairs| && k != e ==> !Covers(parents, pairs[k], la, lb)
    ensures Cover(parents, pairs, la, lb) == 1
  {
    var last := |pairs| - 1;
    if e == last {
      NoneCovers(parents, pairs[..last], la, lb);
    } else {
      OneCovers(parents, pairs[..last], e, la, lb);
    }
  }

  ghost predicate IsLeafBelow(childOffsets: seq<nat>, parents: seq<nat>, n: nat, v: nat, leaf: nat)
    requires n <= |childOffsets|
  {
    leaf < n && childOffsets[leaf] == 0 && IsAncestor(parents, v, leaf)
  }

  /** The first d of the 8 pairs that a pair is subdivided into. */
  ghost function ChildPairs(first: nat, other: nat, onTarget: bool, d: nat): (pairs: seq<NodePair>)
    ensures |pairs| == d
    ensures forall k: nat :: k < d ==> pairs[k] == ChildPair(first, other, onTarget, k)
  {
    if d == 0 then [] else ChildPairs(first, other, onTarget, d - 1) + [ChildPair(first, other, onTarget, d - 1)]
  }

  function ChildPair(first: nat, other: nat, onTarget: bool, k: nat): (p: NodePair) {
    if onTarget then (first + k, other) else (other, first + k)
  }

  /** A leaf pair below a subdivided pair is below exactly one of the 8 new pairs. */
  lemma SubdivisionCovers(childOffsets: seq<nat>, parents: seq<nat>, n: nat, v: nat, other: nat, onTarget: bool,
                          la: nat, lb: nat)
    requires TreeShape(childOffsets, parents, n) && v < n && childOffsets[v] != 0 && la < n && lb < n
    requires childOffsets[la] == 0 && childOffsets[lb] == 0
    ensures Cover(parents, ChildPairs(childOffsets[v], other, onTarget, 8), la, lb) ==
            if Covers(parents, if onTarget then (v, other) else (other, v), la, lb) then 1 else 0
  {
    var c := childOffsets[v];
    var pairs := ChildPairs(c, other, onTarget, 8);
    var leaf, partner := if onTarget then la else lb, if onTarget then lb else la;
    if IsAncestor(parents, v, leaf) && IsAncestor(parents, other, partner) {
      AncestorIsSmaller(parents, v, leaf);
      var e := ThroughOneChild(childOffsets, parents, n, v, leaf);
      forall k: nat | k < 8 && k != e ensures !Covers(parents, pairs[k], la, lb) {
        assert pairs[k] == ChildPair(c, other, onTarget, k);
        if IsAncestor(parents, c + k, leaf) { OnlyOneChild(childOffsets, parents, n, v, e, k, leaf); }
      }
      assert pairs[e] == ChildPair(c, other, onTarget, e);
      OneCovers(parents, pairs, e, la, lb);
    } else {
      forall k: nat | k < 8 ensures !Covers(parents, pairs[k], la, lb) {
        assert pairs[k] == ChildPair(c, other, onTarget, k);
        ChildFacts(childOffsets, parents, n, v, k);
        if IsAncestor(parents, c + k, leaf) { BelowParent(parents, v, c + k, leaf); }
      }
      NoneCovers(parents, pairs, la, lb);
    }
  }

  // ------------------------------------------------------------------ one pass

  /** Where a pair goes: a far pair to `m2l`, a near pair of leaves to `p2p`, any other near pair to the stack. */
  datatype Calls = Calls(stack: seq<NodePair>, m2l: seq<NodePair>, p2p: seq<NodePair>)

  ghost function Placed(childOffsets: seq<nat>, near: NodePair -> bool, calls: Calls, p: NodePair): (r: Calls)
  {
    if !near(p) then calls.(m2l := calls.m2l + [p])
    else if IsLeafPair(childOffsets, p) then calls.(p2p := calls.p2p + [p])
    else calls.(stack := calls.stack + [p])
  }

  predicate IsLeafPair(childOffsets: seq<nat>, p: NodePair) {
    p.0 < |childOffsets| && p.1 < |childOffsets| && childOffsets[p.0] == 0 && childOffsets[p.1] == 0
  }

  ghost function AllPlaced(childOffsets: seq<nat>, near: NodePair -> bool, calls: Calls,
                           pairs: seq<NodePair>): (r: Calls) {
    if pairs == [] then calls else
      var k := |pairs| - 1;
      Placed(childOffsets, near, AllPlaced(childOffsets, near, calls, pairs[..k]), pairs[k])
  }

  ghost function CoverCalls(parents: seq<nat>, calls: Calls, la: nat, lb: nat): (k: nat) {
    Cover(parents, calls.stack, la, lb) + Cover(parents, calls.m2l, la, lb) + Cover(parents, calls.p2p, la, lb)
  }

  lemma PlacedCovers(childOffsets: seq<nat>, parents: seq<nat>, near: NodePair -> bool, calls: Calls, p: NodePair,
                     la: nat, lb: nat)
    ensures CoverCalls(parents, Placed(childOffsets, near, calls, p), la, lb) ==
            CoverCalls(parents, calls, la, lb) + if Covers(parents, p, la, lb) then 1 else 0
  {
    if !near(p) {
      CoverAppend(parents, calls.m2l, p, la, lb);
    } else if IsLeafPair(childOffsets, p) {
      CoverAppend(parents, calls.p2p, p, la, lb);
    } else {
      CoverAppend(parents, calls.stack, p, la, lb);
    }
  }

  /** Placing pairs covers what they cover. */
  lemma {:induction false} PlacingCovers(childOffsets: seq<nat>, parents: seq<nat>, near: NodePair -> bool,
                                         calls: Calls, pairs: seq<NodePair>, la: nat, lb: nat)
    ensures CoverCalls(parents, AllPlaced(childOffsets, near, calls, pairs), la, lb) ==
            CoverCalls(parents, calls, la, lb) + Cover(parents, pairs, la, lb)
  {
    if pairs != [] {
      var k := |pairs| - 1;
      PlacingCovers(childOffsets, parents, near, calls, pairs[..k], la, lb);
      PlacedCovers(childOffsets, parents, near, AllPlaced(childOffsets, near, calls, pairs[..k]), pairs[k], la, lb);
    }
  }

  /** The pair of nodes is below the pair at which the traversal started. */
  ghost predicate IsPairBelow(parents: seq<nat>, n: nat, start: NodePair, p: NodePair) {
    p.0 < n && p.1 < n && IsAncestor(parents, start.0, p.0) && IsAncestor(parents, start.1, p.1)
  }

  ghost predicate OnStack(childOffsets: seq<nat>, parents: seq<nat>, n: nat, start: NodePair, p: NodePair) {
    IsPairBelow(parents, n, start, p) && !IsLeafPair(childOffsets, p)
  }

  ghost predicate IsFar(parents: seq<nat>, n: nat, near: NodePair -> bool, start: NodePair, p: NodePair) {
    IsPairBelow(parents, n, start, p) && !near(p)
  }

  ghost predicate IsNear(childOffsets: seq<nat>, parents: seq<nat>, n: nat, near: NodePair -> bool, start: NodePair,
                         p: NodePair) {
    IsPairBelow(parents, n, start, p) && near(p) && IsLeafPair(childOffsets, p)
  }

  /** Every pair is in the right place. */
  ghost predicate Sound(childOffsets: seq<nat>, parents: seq<nat>, n: nat, near: NodePair -> bool, start: NodePair,
                         calls: Calls) {
    && (forall k: nat :: k < |calls.stack| ==> OnStack(childOffsets, parents, n, start, calls.stack[k]))
    && (forall k: nat :: k < |calls.m2l| ==> IsFar(parents, n, near, start, calls.m2l[k]))
    && (forall k: nat :: k < |calls.p2p| ==> IsNear(childOffsets, parents, n, near, start, calls.p2p[k]))
  }

  lemma {:induction false} PlacingKeepsSound(childOffsets: seq<nat>, parents: seq<nat>, n: nat, near: NodePair -> bool,
                                        start: NodePair, calls: Calls, pairs: seq<NodePair>)
    requires Sound(childOffsets, parents, n, near, start, calls)
    requires forall k: nat :: k < |pairs| ==> IsPairBelow(parents, n, start, pairs[k])
    ensures Sound(childOffsets, parents, n, near, start, AllPlaced(childOffsets, near, calls, pairs))
  {
    if pairs != [] {
      PlacingKeepsSound(childOffsets, parents, n, near, start, calls, pairs[..|pairs| - 1]);
    }
  }

  lemma PlacedWork(childOffsets: seq<nat>, n: nat, near: NodePair -> bool, calls: Calls, p: NodePair, h: nat)
    requires n <= |childOffsets| && PairHeight(childOffsets, n, p) <= h
    ensures Work(childOffsets, n, Placed(childOffsets, near, calls, p).stack) <=
            Work(childOffsets, n, calls.stack) + Pow9(h)
  {
    Pow9Monotone(PairHeight(childOffsets, n, p), h);
    assert (calls.stack + [p])[..|calls.stack|] == calls.stack;
  }

  lemma {:induction false} PlacingWork(childOffsets: seq<nat>, n: nat, near: NodePair -> bool, calls: Calls,
                                       pairs: seq<NodePair>, h: nat)
    requires n <= |childOffsets|
    requires forall k: nat :: k < |pairs| ==> PairHeight(childOffsets, n, pairs[k]) <= h
    ensures Work(childOffsets, n, AllPlaced(childOffsets, near, calls, pairs).stack) <=
            Work(childOffsets, n, calls.stack) + Copies(|pairs|, Pow9(h))
  {
    if pairs != [] {
      var k := |pairs| - 1;
      PlacingWork(childOffsets, n, near, calls, pairs[..k], h);
      PlacedWork(childOffsets, n, near, AllPlaced(childOffsets, near, calls, pairs[..k]), pairs[k], h);
    }
  }

  ghost function Copies(k: nat, w: nat): (sum: nat) {
    if k == 0 then 0 else Copies(k - 1, w) + w
  }

  lemma EightCopies(w: nat)
    ensures Copies(8, w) == 8 * w
  {
    assert Copies(1, w) == w;
    assert Copies(3, w) == 3 * w;
    assert Copies(5, w) == 5 * w;
    assert Copies(7, w) == 7 * w;
  }

  /** Every pair of leaves is covered by exactly one pair. */
  ghost predicate Tiles(childOffsets: seq<nat>, parents: seq<nat>, n: nat, start: NodePair, calls: Calls)
    requires n <= |childOffsets|
  {
    forall la: nat, lb: nat {:trigger CoverCalls(parents, calls, la, lb)} ::
      IsLeafBelow(childOffsets, parents, n, start.0, la) && IsLeafBelow(childOffsets, parents, n, start.1, lb) ==>
      CoverCalls(parents, calls, la, lb) == 1
  }

  predicate SubdividesTarget(childOffsets: seq<nat>, p: NodePair)
    requires p.0 < |childOffsets| && p.1 < |childOffsets|
  {
    (p.0 < p.1 && childOffsets[p.0] != 0) || childOffsets[p.1] == 0
  }

  /** One pass of the loop: the topmost pair is replaced by 8 pairs. */
  ghost function Step(childOffsets: seq<nat>, near: NodePair -> bool, calls: Calls): (r: Calls)
    requires calls.stack != []
    requires var p := calls.stack[|calls.stack| - 1]; p.0 < |childOffsets| && p.1 < |childOffsets|
  {
    var k := |calls.stack| - 1;
    AllPlaced(childOffsets, near, calls.(stack := calls.stack[..k]), Subdivision(childOffsets, calls.stack[k], 8))
  }

  ghost function Subdivision(childOffsets: seq<nat>, p: NodePair, d: nat): (pairs: seq<NodePair>)
    requires p.0 < |childOffsets| && p.1 < |childOffsets|
  {
    if SubdividesTarget(childOffsets, p) then ChildPairs(childOffsets[p.0], p.1, true, d)
    else ChildPairs(childOffsets[p.1], p.0, false, d)
  }

  lemma SubdivisionFacts(childOffsets: seq<nat>, parents: seq<nat>, n: nat, start: NodePair, p: NodePair)
    requires TreeShape(childOffsets, parents, n) && OnStack(childOffsets, parents, n, start, p)
    ensures |Subdivision(childOffsets, p, 8)| == 8 && PairHeight(childOffsets, n, p) >= 1
    ensures forall k: nat :: k < 8 ==>
              IsPairBelow(parents, n, start, Subdivision(childOffsets, p, 8)[k]) &&
              PairHeight(childOffsets, n, Subdivision(childOffsets, p, 8)[k]) < PairHeight(childOffsets, n, p)
  {
    var onTarget := SubdividesTarget(childOffsets, p);
    var v, other := if onTarget then p.0 else p.1, if onTarget then p.1 else p.0;
    AncestorIsSmaller(parents, start.0, p.0);
    AncestorIsSmaller(parents, start.1, p.1);
    ChildIsLower(childOffsets, parents, n, v, 0);
    forall k: nat | k < 8
      ensures IsPairBelow(parents, n, start, Subdivision(childOffsets, p, 8)[k])
      ensures PairHeight(childOffsets, n, Subdivision(childOffsets, p, 8)[k]) < PairHeight(childOffsets, n, p)
    {
      assert Subdivision(childOffsets, p, 8)[k] == ChildPair(childOffsets[v], other, onTarget, k);
      ChildFacts(childOffsets, parents, n, v, k);
      ChildIsLower(childOffsets, parents, n, v, k);
    }
  }

  lemma StepIsSound(childOffsets: seq<nat>, parents: seq<nat>, n: nat, near: NodePair -> bool, start: NodePair,
                    calls: Calls)
    requires TreeShape(childOffsets, parents, n) && calls.stack != []
    requires Sound(childOffsets, parents, n, near, start, calls)
    ensures Sound(childOffsets, parents, n, near, start, Step(childOffsets, near, calls))
  {
    var k := |calls.stack| - 1;
    SubdivisionFacts(childOffsets, parents, n, start, calls.stack[k]);
    PlacingKeepsSound(childOffsets, parents, n, near, start, calls.(stack := calls.stack[..k]),
                      Subdivision(childOffsets, calls.stack[k], 8));
  }

  lemma StepShrinksWork(childOffsets: seq<nat>, parents: seq<nat>, n: nat, near: NodePair -> bool, start: NodePair,
                        calls: Calls)
    requires TreeShape(childOffsets, parents, n) && calls.stack != []
    requires Sound(childOffsets, parents, n, near, start, calls)
    ensures Work(childOffsets, n, Step(childOffsets, near, calls).stack) < Work(childOffsets, n, calls.stack)
  {
    var k := |calls.stack| - 1;
    var p := calls.stack[k];
    SubdivisionFacts(childOffsets, parents, n, start, p);
    var h := PairHeight(childOffsets, n, p) - 1;
    assert Work(childOffsets, n, calls.stack) == Work(childOffsets, n, calls.stack[..k]) + Pow9(h + 1);
    assert Pow9(h + 1) == 9 * Pow9(h);
    EightCopies(Pow9(h));
    PlacingWork(childOffsets, n, near, calls.(stack := calls.stack[..k]), Subdivision(childOffsets, p, 8), h);
  }

  lemma StepTiles(childOffsets: seq<nat>, parents: seq<nat>, n: nat, near: NodePair -> bool, start: NodePair,
                  calls: Calls)
    requires TreeShape(childOffsets, parents, n) && calls.stack != []
    requires Sound(childOffsets, parents, n, near, start, calls) && Tiles(childOffsets, parents, n, start, calls)
    ensures Tiles(childOffsets, parents, n, start, Step(childOffsets, near, calls))
  {
    var k := |calls.stack| - 1;
    var p := calls.stack[k];
    var base := calls.(stack := calls.stack[..k]);
    var onTarget := SubdividesTarget(childOffsets, p);
    forall la: nat, lb: nat | IsLeafBelow(childOffsets, parents, n, start.0, la) &&
                              IsLeafBelow(childOffsets, parents, n, start.1, lb)
      ensures CoverCalls(parents, Step(childOffsets, near, calls), la, lb) == 1
    {
      assert CoverCalls(parents, calls, la, lb) == 1;
      PlacingCovers(childOffsets, parents, near, base, Subdivision(childOffsets, p, 8), la, lb);
      if onTarget {
        SubdivisionCovers(childOffsets, parents, n, p.0, p.1, true, la, lb);
      } else {
        SubdivisionCovers(childOffsets, parents, n, p.1, p.0, false, la, lb);
      }
      assert Cover(parents, calls.stack, la, lb) ==
             Cover(parents, base.stack, la, lb) + if Covers(parents, p, la, lb) then 1 else 0;
    }
  }

  ghost predicate Invariant(childOffsets: seq<nat>, parents: seq<nat>, n: nat, near: NodePair -> bool, start: NodePair,
                            calls: Calls) {
    && TreeShape(childOffsets, parents, n)
    && Sound(childOffsets, parents, n, near, start, calls)
    && Tiles(childOffsets, parents, n, start, calls)
  }

  lemma StepKeepsInvariant(childOffsets: seq<nat>, parents: seq<nat>, n: nat, near: NodePair -> bool, start: NodePair,
                           calls: Calls) returns (p: NodePair)
    requires Invariant(childOffsets, parents, n, near, start, calls) && calls.stack != []
    ensures p == calls.stack[|calls.stack| - 1] && p.0 < n && p.1 < n && !IsLeafPair(childOffsets, p)
    ensures childOffsets[p.0] + 8 <= |childOffsets| || !SubdividesTarget(childOffsets, p)
    ensures childOffsets[p.1] + 8 <= |childOffsets| || SubdividesTarget(childOffsets, p)
    ensures Invariant(childOffsets, parents, n, near, start, Step(childOffsets, near, calls))
    ensures Work(childOffsets, n, Step(childOffsets, near, calls).stack) < Work(childOffsets, n, calls.stack)
  {
    p := calls.stack[|calls.stack| - 1];
    assert OnStack(childOffsets, parents, n, start, p);
    assert ChildrenKnowParent(childOffsets, parents, n, p.0) && ChildrenKnowParent(childOffsets, parents, n, p.1);
    StepIsSound(childOffsets, parents, n, near, start, calls);
    StepTiles(childOffsets, parents, n, near, start, calls);
    StepShrinksWork(childOffsets, parents, n, near, start, calls);
  }

  lemma InvariantAtStart(childOffsets: seq<nat>, parents: seq<nat>, n: nat, near: NodePair -> bool, start: NodePair)
    requires TreeShape(childOffsets, parents, n) && start.0 < n && start.1 < n && !IsLeafPair(childOffsets, start)
    ensures Invariant(childOffsets, parents, n, near, start, Calls([start], [], []))
  {
    forall la: nat, lb: nat | IsLeafBelow(childOffsets, parents, n, start.0, la) &&
                              IsLeafBelow(childOffsets, parents, n, start.1, lb)
      ensures CoverCalls(parents, Calls([start], [], []), la, lb) == 1
    {
      CoverAppend(parents, [], start, la, lb);
      assert [] + [start] == [start];
    }
  }

  // ------------------------------------------------------------------ how much stack a pair needs

  /** The pair goes to the stack. */
  predicate IsPushed(childOffsets: seq<nat>, near: NodePair -> bool, p: NodePair) {
    near(p) && !IsLeafPair(childOffsets, p)
  }

  /** Pair k of the 8 pairs that a pair is subdivided into. */
  ghost function Part(childOffsets: seq<nat>, p: NodePair, k: nat): (q: NodePair)
    requires p.0 < |childOffsets| && p.1 < |childOffsets|
  {
    if SubdividesTarget(childOffsets, p) then ChildPair(childOffsets[p.0], p.1, true, k)
    else ChildPair(childOffsets[p.1], p.0, false, k)
  }

  lemma PartIsLower(childOffsets: seq<nat>, parents: seq<nat>, n: nat, p: NodePair, k: nat)
    requires TreeShape(childOffsets, parents, n) && p.0 < n && p.1 < n && !IsLeafPair(childOffsets, p) && k < 8
    ensures Part(childOffsets, p, k).0 < n && Part(childOffsets, p, k).1 < n
    ensures PairHeight(childOffsets, n, Part(childOffsets, p, k)) < PairHeight(childOffsets, n, p)
  {
    var v := if SubdividesTarget(childOffsets, p) then p.0 else p.1;
    ChildIsLower(childOffsets, parents, n, v, k);
  }

  /** How many of the first k parts go to the stack. */
  ghost function PushCount(childOffsets: seq<nat>, near: NodePair -> bool, p: NodePair, k: nat): (c: nat)
    requires p.0 < |childOffsets| && p.1 < |childOffsets|
    ensures c <= k
  {
    if k == 0 then 0 else
      PushCount(childOffsets, near, p, k - 1) +
      if IsPushed(childOffsets, near, Part(childOffsets, p, k - 1)) then 1 else 0
  }

  function Larger(x: nat, y: nat): (m: nat) {
    if x >= y then x else y
  }

  /** Entries that the stack must hold from a pair on: the pair itself, or while one of its parts is dealt
      with, the parts that were pushed before it and what that part needs. */
  ghost function Need(childOffsets: seq<nat>, parents: seq<nat>, n: nat, near: NodePair -> bool, p: NodePair): (m: nat)
    requires TreeShape(childOffsets, parents, n) && p.0 < n && p.1 < n
    ensures m >= 1
    decreases PairHeight(childOffsets, n, p), 9
  {
    if IsLeafPair(childOffsets, p) then 1 else Larger(1, PartsNeed(childOffsets, parents, n, near, p, OCTANTS))
  }

  ghost function PartsNeed(childOffsets: seq<nat>, parents: seq<nat>, n: nat, near: NodePair -> bool, p: NodePair,
                           k: nat): (m: nat)
    requires TreeShape(childOffsets, parents, n) && p.0 < n && p.1 < n && !IsLeafPair(childOffsets, p) && k <= 8
    decreases PairHeight(childOffsets, n, p), k
  {
    if k == 0 then 0 else
      var q := Part(childOffsets, p, k - 1);
      PartIsLower(childOffsets, parents, n, p, k - 1);
      Larger(PartsNeed(childOffsets, parents, n, near, p, k - 1),
             if IsPushed(childOffsets, near, q)
             then PushCount(childOffsets, near, p, k - 1) + Need(childOffsets, parents, n, near, q) else 0)
  }

  /** The same as a function of pairs, and whether a pair is pushed. */
  ghost function Needs(childOffsets: seq<nat>, parents: seq<nat>, n: nat,
                       near: NodePair -> bool): (need: NodePair -> nat)
    requires TreeShape(childOffsets, parents, n)
    ensures forall p: NodePair :: need(p) >= 1
  {
    (p: NodePair) => if p.0 < n && p.1 < n then Need(childOffsets, parents, n, near, p) else 1
  }

  ghost function Pushed(childOffsets: seq<nat>, near: NodePair -> bool): (pushed: NodePair -> bool) {
    (p: NodePair) => IsPushed(childOffsets, near, p)
  }

  lemma {:induction false} PartsArePairs(childOffsets: seq<nat>, p: NodePair, d: nat)
    requires p.0 < |childOffsets| && p.1 < |childOffsets|
    ensures |Subdivision(childOffsets, p, d)| == d
    ensures forall k: nat :: k < d ==> Subdivision(childOffsets, p, d)[k] == Part(childOffsets, p, k)
  {
  }

  /** The need of a pair follows from those of its parts. */
  lemma NeedOfParts(childOffsets: seq<nat>, parents: seq<nat>, n: nat, near: NodePair -> bool, p: NodePair)
    requires TreeShape(childOffsets, parents, n) && p.0 < n && p.1 < n && !IsLeafPair(childOffsets, p)
    ensures IsNeedOf(Needs(childOffsets, parents, n, near), Pushed(childOffsets, near), p,
                     Subdivision(childOffsets, p, OCTANTS))
  {
    PartsArePairs(childOffsets, p, OCTANTS);
    PartsNeedIs(childOffsets, parents, n, near, p, Subdivision(childOffsets, p, OCTANTS), OCTANTS);
  }

  lemma {:induction false} PartsNeedIs(childOffsets: seq<nat>, parents: seq<nat>, n: nat, near: NodePair -> bool,
                                       p: NodePair, parts: seq<NodePair>, k: nat)
    requires TreeShape(childOffsets, parents, n) && p.0 < n && p.1 < n && !IsLeafPair(childOffsets, p)
    requires k <= |parts| <= 8
    requires forall j: nat :: j < k ==> parts[j] == Part(childOffsets, p, j)
    ensures PartsNeed(childOffsets, parents, n, near, p, k) ==
            NeedForParts(Needs(childOffsets, parents, n, near), Pushed(childOffsets, near), parts, k)
    ensures PushCount(childOffsets, near, p, k) == CountPushed(Pushed(childOffsets, near), parts, k)
  {
    if k > 0 {
      PartsNeedIs(childOffsets, parents, n, near, p, parts, k - 1);
      PartIsLower(childOffsets, parents, n, p, k - 1);
    }
  }

  // ------------------------------------------------------------------ stacks of pairs with needs

  ghost function CountPushed(pushed: NodePair -> bool, parts: seq<NodePair>, k: nat): (c: nat)
    requires k <= |parts|
  {
    if k == 0 then 0 else CountPushed(pushed, parts, k - 1) + if pushed(parts[k - 1]) then 1 else 0
  }

  ghost function NeedForParts(need: NodePair -> nat, pushed: NodePair -> bool, parts: seq<NodePair>, k: nat): (m: nat)
    requires k <= |parts|
  {
    if k == 0 then 0 else
      Larger(NeedForParts(need, pushed, parts, k - 1),
             if pushed(parts[k - 1]) then CountPushed(pushed, parts, k - 1) + need(parts[k - 1]) else 0)
  }

  ghost predicate IsNeedOf(need: NodePair -> nat, pushed: NodePair -> bool, p: NodePair, parts: seq<NodePair>) {
    need(p) == Larger(1, NeedForParts(need, pushed, parts, |parts|))
  }

  /** What the whole stack needs. */
  ghost function StackNeed(need: NodePair -> nat, stack: seq<NodePair>): (m: nat) {
    if stack == [] then 0 else
      var k := |stack| - 1;
      Larger(StackNeed(need, stack[..k]), k + need(stack[k]))
  }

  lemma {:induction false} StackNeedsItself(need: NodePair -> nat, stack: seq<NodePair>)
    requires forall p: NodePair :: need(p) >= 1
    ensures StackNeed(need, stack) >= |stack|
  {
    if stack != [] { StackNeedsItself(need, stack[..|stack| - 1]); }
  }

  /** The stack after the first d parts. */
  ghost function Pushes(pushed: NodePair -> bool, stack: seq<NodePair>, parts: seq<NodePair>,
                        d: nat): (r: seq<NodePair>)
    requires d <= |parts|
  {
    if d == 0 then stack else
      Pushes(pushed, stack, parts, d - 1) + if pushed(parts[d - 1]) then [parts[d - 1]] else []
  }

  lemma {:induction false} PushesNeed(need: NodePair -> nat, pushed: NodePair -> bool, stack: seq<NodePair>,
                                      parts: seq<NodePair>, d: nat)
    requires d <= |parts| && forall p: NodePair :: need(p) >= 1
    ensures |Pushes(pushed, stack, parts, d)| == |stack| + CountPushed(pushed, parts, d)
    ensures var m := NeedForParts(need, pushed, parts, d);
            StackNeed(need, Pushes(pushed, stack, parts, d)) ==
            Larger(StackNeed(need, stack), if m == 0 then 0 else |stack| + m)
  {
    if d > 0 {
      PushesNeed(need, pushed, stack, parts, d - 1);
      var before := Pushes(pushed, stack, parts, d - 1);
      assert (before + [parts[d - 1]])[..|before|] == before;
      assert before + [] == before;
    }
  }

  /** Replacing the topmost pair by its parts does not change whether the stack will overflow. */
  lemma PartsKeepNeed(need: NodePair -> nat, pushed: NodePair -> bool, stack: seq<NodePair>, parts: seq<NodePair>,
                      size: nat)
    requires stack != [] && |stack| <= size && IsNeedOf(need, pushed, stack[|stack| - 1], parts)
    requires forall p: NodePair :: need(p) >= 1
    ensures StackNeed(need, Pushes(pushed, stack[..|stack| - 1], parts, |parts|)) > size <==>
      StackNeed(need, stack) > size
  {
    PushesNeed(need, pushed, stack[..|stack| - 1], parts, |parts|);
  }

  lemma {:induction false} PlacedStack(childOffsets: seq<nat>, near: NodePair -> bool, calls: Calls,
                                       pairs: seq<NodePair>, d: nat)
    requires d <= |pairs|
    ensures AllPlaced(childOffsets, near, calls, pairs[..d]).stack == Pushes(Pushed(childOffsets, near), calls.stack,
                                                                             pairs, d)
  {
    if d > 0 {
      PlacedStack(childOffsets, near, calls, pairs, d - 1);
      assert pairs[..d][..d - 1] == pairs[..d - 1];
    }
  }

  /** A step does not change whether the stack will overflow. */
  lemma StepKeepsNeed(childOffsets: seq<nat>, near: NodePair -> bool, calls: Calls, need: NodePair -> nat, size: nat)
    requires calls.stack != [] && |calls.stack| <= size
    requires var p := calls.stack[|calls.stack| - 1];
             && p.0 < |childOffsets| && p.1 < |childOffsets|
             && IsNeedOf(need, Pushed(childOffsets, near), p, Subdivision(childOffsets, p, OCTANTS))
    requires forall p: NodePair :: need(p) >= 1
    ensures StackNeed(need, Step(childOffsets, near, calls).stack) > size <==> StackNeed(need, calls.stack) > size
  {
    var k := |calls.stack| - 1;
    var parts := Subdivision(childOffsets, calls.stack[k], OCTANTS);
    PlacedStack(childOffsets, near, calls.(stack := calls.stack[..k]), parts, |parts|);
    assert parts[..|parts|] == parts;
    PartsKeepNeed(need, Pushed(childOffsets, near), calls.stack, parts, size);
  }

  /** 7 entries for every level of the two subtrees are enough. */
  lemma {:induction false} NeedIsBounded(childOffsets: seq<nat>, parents: seq<nat>, n: nat, near: NodePair -> bool,
                                         p: NodePair)
    requires TreeShape(childOffsets, parents, n) && p.0 < n && p.1 < n && !IsLeafPair(childOffsets, p)
    ensures Need(childOffsets, parents, n, near, p) + 6 <= 7 * PairHeight(childOffsets, n, p)
    decreases PairHeight(childOffsets, n, p), 9
  {
    PartIsLower(childOffsets, parents, n, p, 0);
    PartsNeedIsBounded(childOffsets, parents, n, near, p, OCTANTS);
  }

  lemma {:induction false} PartsNeedIsBounded(childOffsets: seq<nat>, parents: seq<nat>, n: nat, near: NodePair -> bool,
                                              p: NodePair, k: nat)
    requires TreeShape(childOffsets, parents, n) && p.0 < n && p.1 < n && !IsLeafPair(childOffsets, p) && k <= 8
    ensures PartsNeed(childOffsets, parents, n, near, p, k) == 0 ||
            PartsNeed(childOffsets, parents, n, near, p, k) + 6 <= 7 * PairHeight(childOffsets, n, p)
    decreases PairHeight(childOffsets, n, p), k
  {
    if k > 0 {
      PartsNeedIsBounded(childOffsets, parents, n, near, p, k - 1);
      PartIsLower(childOffsets, parents, n, p, k - 1);
      var q := Part(childOffsets, p, k - 1);
      if IsPushed(childOffsets, near, q) { NeedIsBounded(childOffsets, parents, n, near, q); }
    }
  }

  /** Nothing more is needed than the pair itself if none of its parts is pushed. */
  lemma {:induction false} NothingPushed(childOffsets: seq<nat>, parents: seq<nat>, n: nat, near: NodePair -> bool,
                                         p: NodePair, k: nat)
    requires TreeShape(childOffsets, parents, n) && p.0 < n && p.1 < n && !IsLeafPair(childOffsets, p) && k <= 8
    requires forall j: nat :: j < k ==> !near(Part(childOffsets, p, j))
    ensures PartsNeed(childOffsets, parents, n, near, p, k) == 0
  {
    if k > 0 { NothingPushed(childOffsets, parents, n, near, p, k - 1); }
  }

  // ------------------------------------------------------------------ the traversal

  /** Evaluate the criterion on one pair and put the pair where it belongs. The program asserts that there is
      room on the stack. */
  method Interact(childOffsets: seq<nat>, near: NodePair -> bool, p: NodePair, stack: array<NodePair>, stackPos: nat,
                  m2l: seq<NodePair>, p2p: seq<NodePair>)
    returns (overflow: bool, stackPos': nat, m2l': seq<NodePair>, p2p': seq<NodePair>)
    requires p.0 < |childOffsets| && p.1 < |childOffsets| && stackPos <= stack.Length
    modifies stack
    ensures stackPos' <= stack.Length
    ensures var r := Placed(childOffsets, near, Calls(old(stack[..stackPos]), m2l, p2p), p);
            (overflow <==> |r.stack| > stack.Length) && (!overflow ==> Calls(stack[..stackPos'], m2l', p2p') == r)
  {
    overflow, stackPos', m2l', p2p' := false, stackPos, m2l, p2p;
    if near(p) {
      if childOffsets[p.0] == 0 && childOffsets[p.1] == 0 {
        p2p' := p2p + [p];
      } else if stackPos < stack.Length {
        stack[stackPos] := p;
        stackPos' := stackPos + 1;
      } else {
        overflow := true;
      }
    } else {
      m2l' := m2l + [p];
    }
  }

  lemma {:induction false} StackGrows(childOffsets: seq<nat>, near: NodePair -> bool, calls: Calls,
                                      pairs: seq<NodePair>, d: nat)
    requires d <= |pairs|
    ensures |AllPlaced(childOffsets, near, calls, pairs[..d]).stack| <=
            |AllPlaced(childOffsets, near, calls, pairs).stack|
    decreases |pairs|
  {
    if d == |pairs| {
      assert pairs[..d] == pairs;
    } else {
      assert pairs[..|pairs| - 1][..d] == pairs[..d];
      StackGrows(childOffsets, near, calls, pairs[..|pairs| - 1], d);
    }
  }

  /** Subdivide one of the nodes of a pair and evaluate the criterion on the 8 new pairs. */
  method Subdivide(childOffsets: seq<nat>, near: NodePair -> bool, first: nat, other: nat, onTarget: bool,
                   stack: array<NodePair>, top: nat, m2l: seq<NodePair>, p2p: seq<NodePair>)
    returns (overflow: bool, stackPos: nat, m2l': seq<NodePair>, p2p': seq<NodePair>)
    requires first + 8 <= |childOffsets| && other < |childOffsets| && top <= stack.Length
    modifies stack
    ensures stackPos <= stack.Length
    ensures var r := AllPlaced(childOffsets, near, Calls(old(stack[..top]), m2l, p2p),
                               ChildPairs(first, other, onTarget, 8));
            (overflow <==> |r.stack| > stack.Length) && (!overflow ==> Calls(stack[..stackPos], m2l', p2p') == r)
  {
    ghost var base := Calls(stack[..top], m2l, p2p);
    ghost var all := ChildPairs(first, other, onTarget, 8);
    overflow, stackPos, m2l', p2p' := false, top, m2l, p2p;
    var octant: nat := 0;
    while octant < 8 && !overflow
      invariant octant <= 8 && stackPos <= stack.Length
      invariant if overflow then |AllPlaced(childOffsets, near, base, all).stack| > stack.Length
                else Calls(stack[..stackPos], m2l', p2p') == AllPlaced(childOffsets, near, base, all[..octant])
    {
      var p := ChildPair(first, other, onTarget, octant);
      assert all[..octant + 1][..octant] == all[..octant] && all[..octant + 1][octant] == p;
      StackGrows(childOffsets, near, base, all, octant + 1);
      overflow, stackPos, m2l', p2p' := Interact(childOffsets, near, p, stack, stackPos, m2l', p2p');
      octant := octant + 1;
    }
    assert all[..8] == all;
  }

  method PopAndSubdivide(childOffsets: seq<nat>, near: NodePair -> bool, stack: array<NodePair>, top: nat,
                         m2l: seq<NodePair>, p2p: seq<NodePair>)
    returns (overflow: bool, stackPos: nat, m2l': seq<NodePair>, p2p': seq<NodePair>)
    requires 0 < top <= stack.Length
    requires stack[top - 1].0 < |childOffsets| && stack[top - 1].1 < |childOffsets|
    requires var p := stack[top - 1];
             childOffsets[if SubdividesTarget(childOffsets, p) then p.0 else p.1] + 8
             <= |childOffsets|
    modifies stack
    ensures stackPos <= stack.Length
    ensures var r := Step(childOffsets, near, Calls(old(stack[..top]), m2l, p2p));
            (overflow <==> |r.stack| > stack.Length) && (!overflow ==> Calls(stack[..stackPos], m2l', p2p') == r)
  {
    ghost var calls := Calls(stack[..top], m2l, p2p);
    stackPos := top - 1;
    var nodePair := stack[stackPos];
    assert calls.stack[stackPos] == nodePair && calls.stack[..stackPos] == stack[..stackPos];
    var target, source := nodePair.0, nodePair.1;
    if (target < source && childOffsets[target] != 0) || childOffsets[source] == 0 {
      overflow, stackPos, m2l', p2p' := Subdivide(childOffsets, near, childOffsets[target], source, true, stack,
                                                  stackPos, m2l, p2p);
    } else {
      overflow, stackPos, m2l', p2p' := Subdivide(childOffsets, near, childOffsets[source], target, false, stack,
                                                  stackPos, m2l, p2p);
    }
  }

  /** What one step does for the traversal: it ends, its calls are right, and the stack that it needs stays the same. */
  lemma StepProgresses(childOffsets: seq<nat>, parents: seq<nat>, n: nat, near: NodePair -> bool, start: NodePair,
                       calls: Calls, size: nat) returns (p: NodePair)
    requires Invariant(childOffsets, parents, n, near, start, calls) && calls.stack != [] && |calls.stack| <= size
    requires TreeShape(childOffsets, parents, n)
    ensures p == calls.stack[|calls.stack| - 1] && p.0 < n && p.1 < n
    ensures childOffsets[if SubdividesTarget(childOffsets, p) then p.0 else p.1] + 8 <= |childOffsets|
    ensures Invariant(childOffsets, parents, n, near, start, Step(childOffsets, near, calls))
    ensures Work(childOffsets, n, Step(childOffsets, near, calls).stack) < Work(childOffsets, n, calls.stack)
    ensures var need := Needs(childOffsets, parents, n, near);
            && (StackNeed(need, Step(childOffsets, near, calls).stack) > size <==> StackNeed(need, calls.stack) > size)
            && (|Step(childOffsets, near, calls).stack| > size ==> StackNeed(need, calls.stack) > size)
  {
    var need := Needs(childOffsets, parents, n, near);
    p := StepKeepsInvariant(childOffsets, parents, n, near, start, calls);
    NeedOfParts(childOffsets, parents, n, near, p);
    StepKeepsNeed(childOffsets, near, calls, need, size);
    StackNeedsItself(need, Step(childOffsets, near, calls).stack);
  }

  /** The traversal. It overflows its stack exactly if the pair at which it starts needs more entries. */
  method DualTraversal(childOffsets: seq<nat>, a: nat, b: nat, near: NodePair -> bool, ghost parents: seq<nat>,
                       ghost n: nat)
    returns (overflow: bool, m2l: seq<NodePair>, p2p: seq<NodePair>)
    requires TreeShape(childOffsets, parents, n) && a < n && b < n
    ensures overflow <==> Need(childOffsets, parents, n, near, (a, b)) > STACK_SIZE
    ensures !overflow ==> IsResult(childOffsets, parents, n, near, (a, b), m2l, p2p)
  {
    overflow, m2l, p2p := false, [], [];
    if childOffsets[a] == 0 && childOffsets[b] == 0 {
      if near((a, b)) { p2p := [(a, b)]; }
      return;
    }
    InvariantAtStart(childOffsets, parents, n, near, (a, b));
    ghost var need := Needs(childOffsets, parents, n, near);
    var stack := new NodePair[STACK_SIZE](_ => (0, 0));
    stack[0] := (a, b);
    var stackPos: nat := 1;
    assert stack[..stackPos] == [(a, b)];
    NeedOfOne(need, (a, b));
    while stackPos > 0 && !overflow
      invariant stackPos <= stack.Length == STACK_SIZE && fresh(stack)
      invariant overflow ==> need((a, b)) > STACK_SIZE
      invariant !overflow ==> Invariant(childOffsets, parents, n, near, (a, b), Calls(stack[..stackPos], m2l, p2p))
      invariant !overflow ==> (StackNeed(need, stack[..stackPos]) > STACK_SIZE <==> need((a, b)) > STACK_SIZE)
      decreases !overflow, if overflow then 0 else Work(childOffsets, n, stack[..stackPos])
    {
      ghost var calls := Calls(stack[..stackPos], m2l, p2p);
      ghost var p := StepProgresses(childOffsets, parents, n, near, (a, b), calls, STACK_SIZE);
      overflow, stackPos, m2l, p2p := PopAndSubdivide(childOffsets, near, stack, stackPos, m2l, p2p);
    }
    assert stack[..0] == [];
  }

  lemma NeedOfOne(need: NodePair -> nat, p: NodePair)
    ensures StackNeed(need, [p]) == need(p)
  {
    assert [p][..0] == [];
  }

  // ------------------------------------------------------- criteria that hold for parents

  /** A criterion that holds for a pair also holds when either node is replaced by its parent. */
  ghost predicate Propagates(parents: seq<nat>, n: nat, near: NodePair -> bool) {
    forall x: nat, y: nat {:trigger near((x, y))} :: x < n && y < n && near((x, y)) ==>
      near((Parent(parents, x), y)) && near((x, Parent(parents, y)))
  }

  lemma {:induction false} NearAncestors(parents: seq<nat>, n: nat, near: NodePair -> bool, x: nat, y: nat, la: nat,
                                         lb: nat)
    requires Propagates(parents, n, near) && la < n && lb < n && near((la, lb))
    requires IsAncestor(parents, x, la) && IsAncestor(parents, y, lb)
    ensures near((x, y))
    decreases la + lb
  {
    if la != x {
      NearAncestors(parents, n, near, x, y, Parent(parents, la), lb);
    } else if lb != y {
      NearAncestors(parents, n, near, x, y, la, Parent(parents, lb));
    }
  }

  /** What the traversal guarantees when it ends. */
  ghost predicate IsResult(childOffsets: seq<nat>, parents: seq<nat>, n: nat, near: NodePair -> bool, start: NodePair,
                           m2l: seq<NodePair>, p2p: seq<NodePair>)
    requires n <= |childOffsets|
  {
    && Sound(childOffsets, parents, n, near, start, Calls([], m2l, p2p))
    && if IsLeafPair(childOffsets, start) then m2l == [] && p2p == if near(start) then [start] else []
       else Tiles(childOffsets, parents, n, start, Calls([], m2l, p2p))
  }

  /** With such a criterion, the near pairs are exactly the leaf pairs that meet it. */
  lemma NearPairsFound(childOffsets: seq<nat>, parents: seq<nat>, n: nat, near: NodePair -> bool, start: NodePair,
                       m2l: seq<NodePair>, p2p: seq<NodePair>, la: nat, lb: nat)
    requires TreeShape(childOffsets, parents, n) && start.0 < n && start.1 < n
    requires IsResult(childOffsets, parents, n, near, start, m2l, p2p) && Propagates(parents, n, near)
    ensures (la, lb) in p2p <==>
            IsLeafBelow(childOffsets, parents, n, start.0, la) && IsLeafBelow(childOffsets, parents, n, start.1, lb) &&
            near((la, lb))
  {
    if (la, lb) in p2p {
      var k: nat :| k < |p2p| && p2p[k] == (la, lb);
      assert IsNear(childOffsets, parents, n, near, start, p2p[k]);
    }
    if IsLeafBelow(childOffsets, parents, n, start.0, la) && IsLeafBelow(childOffsets, parents, n, start.1, lb) &&
       near((la, lb)) {
      if IsLeafPair(childOffsets, start) {
        LeafBelowLeaf(childOffsets, parents, n, start.0, la);
        LeafBelowLeaf(childOffsets, parents, n, start.1, lb);
        assert p2p[0] == (la, lb);
      } else {
        NearPairIsFound(childOffsets, parents, n, near, start, m2l, p2p, la, lb);
      }
    }
  }

  lemma NearPairIsFound(childOffsets: seq<nat>, parents: seq<nat>, n: nat, near: NodePair -> bool, start: NodePair,
                        m2l: seq<NodePair>, p2p: seq<NodePair>, la: nat, lb: nat)
    requires TreeShape(childOffsets, parents, n) && Propagates(parents, n, near)
    requires Sound(childOffsets, parents, n, near, start, Calls([], m2l, p2p))
    requires Tiles(childOffsets, parents, n, start, Calls([], m2l, p2p))
    requires IsLeafBelow(childOffsets, parents, n, start.0, la) && IsLeafBelow(childOffsets, parents, n, start.1, lb)
    requires near((la, lb))
    ensures (la, lb) in p2p
  {
    assert CoverCalls(parents, Calls([], m2l, p2p), la, lb) == 1;
    if Cover(parents, m2l, la, lb) > 0 {
      var k := SomeCovers(parents, m2l, la, lb);
      assert IsFar(parents, n, near, start, m2l[k]);
      NearAncestors(parents, n, near, m2l[k].0, m2l[k].1, la, lb);
    } else {
      var k := SomeCovers(parents, p2p, la, lb);
      assert IsNear(childOffsets, parents, n, near, start, p2p[k]);
      LeafBelowLeaf(childOffsets, parents, n, p2p[k].0, la);
      LeafBelowLeaf(childOffsets, parents, n, p2p[k].1, lb);
      assert p2p[k] == (la, lb);
    }
  }
}
