/** Counts of all octree nodes from the counts of the leaves, level by level from the bottom up. */
module Upsweep {
  import opened Keys
  import opened Counts
  import opened BuildOctree
  import opened Traversal
  import opened OctreeView
  import OctreeLinks

  const UNSIGNED_MAX: nat := 0xFFFF_FFFF

  /** `NodeCount`: sum of the counts of 8 children, cut off at the largest 32-bit number. */
  function NodeCount(c: nat, counts: seq<nat>): (n: nat)
    requires c + 8 <= |counts|
    ensures n <= UNSIGNED_MAX
  {
    Min(UNSIGNED_MAX, SumFrom(counts, c, 8))
  }

  function SumFrom(counts: seq<nat>, c: nat, n: nat): (sum: nat)
    requires c + n <= |counts|
    ensures forall j: nat :: c <= j < c + n ==> counts[j] <= sum
  {
    if n == 0 then 0 else SumFrom(counts, c, n - 1) + counts[c + n - 1]
  }

  /** Every internal node has the combined count of its children. */
  ghost predicate IsSweptAt(childOffsets: seq<nat>, before: seq<nat>, counts: seq<nat>, i: nat)
    requires i < |counts| == |before| <= |childOffsets|
  {
    if childOffsets[i] == 0 then counts[i] == before[i]
    else childOffsets[i] + 8 <= |counts| && counts[i] == NodeCount(childOffsets[i], counts)
  }

  ghost predicate IsSwept(childOffsets: seq<nat>, before: seq<nat>, counts: seq<nat>) {
    |before| == |counts| <= |childOffsets| && forall i: nat :: i < |counts| ==>
    IsSweptAt(childOffsets, before, counts, i)
  }

  /** The children of a node are on the next level. */
  lemma ChildrenOnNextLevel(t: View, leaves: seq<nat>, i: nat, d: nat)
    requires IsView(t, leaves) && i < |t.prefixes| && t.childOffsets[i] != 0 && d < 8
    ensures i < t.childOffsets[i] && t.childOffsets[i] + 8 <= |t.prefixes|
    ensures HeightOf(t, t.childOffsets[i] + d) + 1 == HeightOf(t, i)
  {
    ChildFacts(t.childOffsets, t.parents, |t.prefixes|, i, d);
    assert ChildFits(t, t.childOffsets[i] + d);
  }

  /** Nodes of height h or lower are done, all others are as before. */
  ghost predicate SweptUpTo(t: View, before: seq<nat>, counts: seq<nat>, h: nat, first: nat)
    requires |before| == |counts| == |t.prefixes| <= |t.childOffsets|
  {
    forall i: nat :: i < |counts| ==>
      if HeightOf(t, i) < h || (HeightOf(t, i) == h && i < first) then IsSweptAt(t.childOffsets, before, counts, i)
      else counts[i] == before[i]
  }

  lemma NotAChild(t: View, leaves: seq<nat>, i: nat, j: nat)
    requires IsView(t, leaves) && i < |t.prefixes| && j < |t.prefixes| && HeightOf(t, j) <= HeightOf(t, i)
    requires t.childOffsets[j] != 0
    ensures t.childOffsets[j] + 8 <= |t.prefixes| && !(t.childOffsets[j] <= i < t.childOffsets[j] + 8)
  {
    ChildrenOnNextLevel(t, leaves, j, 0);
    if t.childOffsets[j] <= i < t.childOffsets[j] + 8 { ChildrenOnNextLevel(t, leaves, j, i - t.childOffsets[j]); }
  }

  lemma SweepOne(t: View, leaves: seq<nat>, before: seq<nat>, counts: seq<nat>, h: nat, i: nat)
    requires IsView(t, leaves) && |before| == |counts| == |t.prefixes| && i < |counts|
    requires SweptUpTo(t, before, counts, h, i) && HeightOf(t, i) == h
    requires t.childOffsets[i] != 0
    ensures t.childOffsets[i] + 8 <= |counts|
    ensures SweptUpTo(t, before, counts[i := NodeCount(t.childOffsets[i], counts)], h, i + 1)
  {
    NotAChild(t, leaves, i, i);
    var x := NodeCount(t.childOffsets[i], counts);
    var after := counts[i := x];
    forall j: nat | j < |counts|
      ensures if HeightOf(t, j) < h || (HeightOf(t, j) == h && j < i + 1)
              then IsSweptAt(t.childOffsets, before, after, j) else after[j] == before[j]
    {
      if t.childOffsets[j] != 0 && HeightOf(t, j) <= h {
        NotAChild(t, leaves, i, j);
        SumUnchanged(counts, i, x, t.childOffsets[j], 8);
      }
    }
  }

  lemma {:induction false} SumUnchanged(counts: seq<nat>, i: nat, x: nat, c: nat, n: nat)
    requires i < |counts| && c + n <= |counts| && !(c <= i < c + n)
    ensures SumFrom(counts[i := x], c, n) == SumFrom(counts, c, n)
  {
    if n > 0 { SumUnchanged(counts, i, x, c, n - 1); }
  }

  /** One level. */
  method SweepLevel(t: View, start: nat, end: nat, counts: array<nat>, h: nat, ghost leaves: seq<nat>,
                    ghost before: seq<nat>)
    requires IsView(t, leaves) && |before| == counts.Length == |t.prefixes|
    requires forall i: nat :: i < counts.Length ==> (start <= i < end <==> HeightOf(t, i) == h)
    requires SweptUpTo(t, before, counts[..], h, 0)
    modifies counts
    ensures SweptUpTo(t, before, counts[..], h + 1, 0)
  {
    var i := start;
    while i < end && i < counts.Length
      invariant start <= i
      invariant SweptUpTo(t, before, counts[..], h, i)
    {
      var firstChild := t.childOffsets[i];
      ghost var now := counts[..];
      if firstChild != 0 {
        SweepOne(t, leaves, before, now, h, i);
        counts[i] := NodeCount(firstChild, counts[..]);
        assert counts[..] == now[i := NodeCount(firstChild, now)];
      }
      i := i + 1;
    }
  }

  method UpsweepCounts(t: View, levelRange: seq<nat>, counts: array<nat>, ghost leaves: seq<nat>)
    requires IsView(t, leaves) && LevelsDelimited(t.prefixes, levelRange, t.L) && counts.Length == |t.prefixes|
    modifies counts
    ensures IsSwept(t.childOffsets, old(counts[..]), counts[..])
  {
    ghost var before := counts[..];
    var currentLevel: int := |levelRange| - 2;
    while currentLevel >= 0
      invariant -1 <= currentLevel <= t.L
      invariant SweptUpTo(t, before, counts[..], t.L - currentLevel, 0)
    {
      LevelIs(t, leaves, levelRange, currentLevel);
      SweepLevel(t, levelRange[currentLevel], levelRange[currentLevel + 1], counts, t.L - currentLevel, leaves, before);
      currentLevel := currentLevel - 1;
    }
    forall i: nat | i < |before| ensures IsSweptAt(t.childOffsets, before, counts[..], i) {
      assert NodeFits(t, leaves, i);
    }
  }

  lemma LevelIs(t: View, leaves: seq<nat>, levelRange: seq<nat>, l: nat)
    requires IsView(t, leaves) && LevelsDelimited(t.prefixes, levelRange, t.L) && l <= t.L
    ensures forall i: nat :: i < |t.prefixes| ==>
      (levelRange[l] <= i < levelRange[l + 1] <==> HeightOf(t, i) == t.L - l)
  {
    forall i: nat | i < |t.prefixes|
      ensures levelRange[l] <= i < levelRange[l + 1] <==> HeightOf(t, i) == t.L - l
    {
      assert NodeOnLevel(t.prefixes, levelRange, l, i);
      assert NodeFits(t, leaves, i);
      OctreeLinks.CodeLevel(StartOf(t, i), HeightOf(t, i), t.L);
    }
  }

  // ------------------------------------------------------------- what the counts mean

  /** The count of every node is the number of particles in its cell, cut off at the largest 32-bit number. */
  ghost predicate CountsParticles(t: View, counts: seq<nat>, keys: seq<nat>, i: nat)
    requires i < |counts|
  {
    counts[i] == Min(UNSIGNED_MAX, CountIn(keys, StartOf(t, i), EndOf(t, i)))
  }

  /** The first d children of a node hold the particles up to child boundary d. */
  lemma {:induction false} FirstChildren(t: View, leaves: seq<nat>, counts: seq<nat>, keys: seq<nat>, v: nat, d: nat)
    requires IsView(t, leaves) && |counts| == |t.prefixes| && v < |counts| && t.childOffsets[v] != 0 && d <= 8
    requires t.childOffsets[v] + 8 <= |counts| && HeightOf(t, v) >= 1
    requires forall e: nat :: t.childOffsets[v] <= e < t.childOffsets[v] + d ==> CountsParticles(t, counts, keys, e)
    ensures Min(UNSIGNED_MAX, SumFrom(counts, t.childOffsets[v], d)) ==
            Min(UNSIGNED_MAX, CountIn(keys, StartOf(t, v), ChildStart(StartOf(t, v), HeightOf(t, v), d)))
  {
    var c, s, h := t.childOffsets[v], StartOf(t, v), HeightOf(t, v);
    if d == 0 {
      CountSplits(keys, s, s, s);
    } else {
      FirstChildren(t, leaves, counts, keys, v, d - 1);
      var e := c + (d - 1);
      ChildFacts(t.childOffsets, t.parents, |counts|, v, d - 1);
      ChildEnds(t, leaves, e);
      assert ChildFits(t, e);
      assert CountsParticles(t, counts, keys, e);
      NthMonotone(s, h - 1, d - 1, d);
      CountSplits(keys, s, ChildStart(s, h, d - 1), ChildStart(s, h, d));
    }
  }

  /** Node i lies in the key range from lo to hi. */
  predicate IsWithin(t: View, i: nat, lo: nat, hi: nat) {
    lo <= StartOf(t, i) && EndOf(t, i) <= hi
  }

  /** Where the counts of the leaves are exact, those of the nodes become exact. */
  lemma {:induction false} SweptCountsParticles(t: View, leaves: seq<nat>, before: seq<nat>, counts: seq<nat>,
                                                keys: seq<nat>, lo: nat, hi: nat, i: nat)
    requires IsView(t, leaves) && |counts| == |t.prefixes| && i < |counts| && IsWithin(t, i, lo, hi)
    requires IsSwept(t.childOffsets, before, counts)
    requires forall k: nat :: k < |before| && t.childOffsets[k] == 0 && IsWithin(t, k, lo, hi) ==>
               CountsParticles(t, before, keys, k)
    ensures CountsParticles(t, counts, keys, i)
    decreases |counts| - i
  {
    assert IsSweptAt(t.childOffsets, before, counts, i);
    if t.childOffsets[i] == 0 {
      assert CountsParticles(t, before, keys, i);
    } else {
      ChildBoundary(t, leaves, i, 8);
      forall e: nat | t.childOffsets[i] <= e < t.childOffsets[i] + 8 ensures CountsParticles(t, counts, keys, e) {
        ChildFacts(t.childOffsets, t.parents, |counts|, i, e - t.childOffsets[i]);
        ParentCell(t, leaves, e);
        SweptCountsParticles(t, leaves, before, counts, keys, lo, hi, e);
      }
      FirstChildren(t, leaves, counts, keys, i, 8);
    }
  }

  /** Swept counts do not shrink towards the root. */
  lemma SweptCountsGrow(t: View, leaves: seq<nat>, before: seq<nat>, counts: seq<nat>, i: nat)
    requires IsView(t, leaves) && |counts| == |t.prefixes| && 0 < i < |counts|
    requires IsSwept(t.childOffsets, before, counts)
    requires forall k: nat :: k < |before| ==> before[k] <= UNSIGNED_MAX
    ensures Parent(t.parents, i) < i && counts[i] <= counts[Parent(t.parents, i)]
  {
    var p := Parent(t.parents, i);
    ParentFacts(t.childOffsets, t.parents, |counts|, i);
    assert ChildrenKnowParent(t.childOffsets, t.parents, |counts|, p);
    assert IsSweptAt(t.childOffsets, before, counts, p) && IsSweptAt(t.childOffsets, before, counts, i);
  }

  /** Put the counts of the leaves where their nodes are. */
  method ScatterCounts(nodes: seq<nat>, leafCounts: seq<nat>, counts: array<nat>)
    requires |nodes| == |leafCounts| && forall k: nat :: k < |nodes| ==> nodes[k] < counts.Length
    requires forall j: nat, k: nat :: j < k < |nodes| ==> nodes[j] != nodes[k]
    modifies counts
    ensures forall k: nat :: k < |nodes| ==> counts[nodes[k]] == leafCounts[k]
    ensures forall i: nat :: i < counts.Length && i !in nodes ==> counts[i] == old(counts[i])
  {
    for k := 0 to |nodes|
      invariant forall j: nat :: j < k ==> counts[nodes[j]] == leafCounts[j]
      invariant forall i: nat :: i < counts.Length && i !in nodes ==> counts[i] == old(counts[i])
    {
      counts[nodes[k]] := leafCounts[k];
    }
  }
}
