/** The octree that belongs to a set of particles and a focus: its internal nodes are the cells that are too full and
    near the focus, and those that a mandatory key subdivides. */
module FocusOctrees {
  import opened Keys
  import opened CornerstoneArray
  import opened Counts
  import opened ComputeOctree
  import opened FocusRebalance

  /** What repeated updates have in common. The geometric tests get the ends of cells: `near` those of a target and of
      a node, `inside` those of a target. */
  datatype Setting = Setting(particles: seq<nat>, start: nat, end: nat, mandatory: seq<nat>, bucketSize: nat, L: nat,
                             near: (nat, nat, nat, nat) -> bool, inside: (nat, nat) -> bool)

  function AllMandatory(x: Setting): (keys: seq<nat>) {
    [x.start, x.end] + x.mandatory
  }

  /** The leaves of the focus: their keys from its start to its end. */
  function FocusLeaves(leaves: seq<nat>, start: nat, end: nat): (f: seq<nat>)
    requires |leaves| > 0
  {
    var n := |leaves| - 1;
    var fStart, fEnd := FindNodeAbove(leaves, n, start), FindNodeAbove(leaves, n, end);
    if fStart <= fEnd then leaves[fStart..fEnd + 1] else []
  }

  lemma NodeAboveIs(leaves: seq<nat>, key: nat)
    requires Ascending(leaves) && |leaves| > 0 && key in leaves
    ensures leaves[FindNodeAbove(leaves, |leaves| - 1, key)] == key
  {
    var n := |leaves| - 1;
    var p := FindNodeAbove(leaves, n, key);
    var k: nat :| k < |leaves| && leaves[k] == key;
    assert forall i: nat :: i < p ==> leaves[..n][i] == leaves[i];
  }

  lemma SliceKeys(leaves: seq<nat>, p: nat, q: nat)
    requires Ascending(leaves) && p <= q < |leaves|
    ensures var f := leaves[p..q + 1]; Ascending(f) && f[0] == leaves[p] && f[|f| - 1] == leaves[q]
    ensures forall key: nat :: key in leaves[p..q + 1] <==> key in leaves && leaves[p] <= key <= leaves[q]
  {
    var f := leaves[p..q + 1];
    forall key: nat | key in leaves && leaves[p] <= key <= leaves[q] ensures key in f {
      var i: nat :| i < |leaves| && leaves[i] == key;
      assert f[i - p] == key;
    }
  }

  /** They are all keys in the focus. */
  lemma FocusLeavesAre(leaves: seq<nat>, start: nat, end: nat)
    requires Ascending(leaves) && |leaves| > 0 && start in leaves && end in leaves && start <= end
    ensures var f := FocusLeaves(leaves, start, end); f != [] && Ascending(f) && f[0] == start && f[|f| - 1] == end
    ensures forall key: nat :: key in FocusLeaves(leaves, start, end) <==> key in leaves && start <= key <= end
  {
    var p, q := FocusEnds(leaves, start, end);
    SliceKeys(leaves, p, q);
  }

  lemma FocusEnds(leaves: seq<nat>, start: nat, end: nat) returns (p: nat, q: nat)
    requires Ascending(leaves) && |leaves| > 0 && start in leaves && end in leaves && start <= end
    ensures p <= q < |leaves| && leaves[p] == start && leaves[q] == end
    ensures FocusLeaves(leaves, start, end) == leaves[p..q + 1]
  {
    p, q := FindNodeAbove(leaves, |leaves| - 1, start), FindNodeAbove(leaves, |leaves| - 1, end);
    NodeAboveIs(leaves, start);
    NodeAboveIs(leaves, end);
    InOrder(leaves, p, q);
  }

  lemma InOrder(leaves: seq<nat>, p: nat, q: nat)
    requires Ascending(leaves) && p < |leaves| && q < |leaves| && leaves[p] <= leaves[q]
    ensures p <= q
  {
  }

  // ------------------------------------------------------------- marks of cells

  /** The cell (s, h) fails the acceptance criterion for target k of the focus leaves f. */
  ghost predicate FailsFor(x: Setting, f: seq<nat>, k: nat, s: nat, h: nat) {
    k + 1 < |f| && !(f[0] <= s && s + Pow8(h) <= f[|f| - 1]) && x.near(f[k], f[k + 1], s, s + Pow8(h))
  }

  /** So do all cells around it. */
  ghost predicate OpensFor(x: Setting, f: seq<nat>, k: nat, s: nat, h: nat)
    decreases x.L - h
  {
    FailsFor(x, f, k, s, h) && (h < x.L ==> OpensFor(x, f, k, Floor(s, h + 1), h + 1))
  }

  ghost predicate IsMarkedCell(x: Setting, f: seq<nat>, s: nat, h: nat) {
    exists k: nat :: k + 1 < |f| && !x.inside(f[k], f[k + 1]) && OpensFor(x, f, k, s, h)
  }

  // ------------------------------------------------------------- the octree

  ghost predicate IsNearFocus(x: Setting, s: nat, h: nat) {
    OverlapTwoRanges(s, s + Pow8(h), x.start, x.end)
  }

  /** The cell is too full, and marked or near the focus. */
  ghost predicate IsDenseCell(x: Setting, f: seq<nat>, s: nat, h: nat) {
    IsOverfull(x.particles, x.bucketSize, s, h) && (IsMarkedCell(x, f, s, h) || IsNearFocus(x, s, h))
  }

  ghost predicate HoldsKey(x: Setting, s: nat, h: nat) {
    exists k: nat :: k < |AllMandatory(x)| && s < AllMandatory(x)[k] < s + Pow8(h)
  }

  ghost predicate HasKeys(leaves: seq<nat>, x: Setting) {
    forall k: nat :: k < |AllMandatory(x)| ==> AllMandatory(x)[k] in leaves
  }

  /** Cells are subdivided exactly if they are dense, where marks are for the leaves of this octree, or hold a key. */
  ghost predicate IsFocusOctreeOf(leaves: seq<nat>, x: Setting) {
    && Cornerstone(leaves, x.L) && HasKeys(leaves, x)
    && forall s: nat, h: nat :: 1 <= h <= x.L && Aligned(s, h) && s < Pow8(x.L) ==> IsAsItShould(leaves, x, s, h)
  }

  ghost predicate IsAsItShould(leaves: seq<nat>, x: Setting, s: nat, h: nat)
    requires |leaves| > 0
  {
    IsCut(leaves, s, h) <==> IsDenseCell(x, FocusLeaves(leaves, x.start, x.end), s, h) || HoldsKey(x, s, h)
  }

  // ------------------------------------------------------------- there is only one

  lemma SamePart(a: seq<nat>, b: seq<nat>, start: nat, end: nat)
    requires Ascending(a) && |a| > 0 && start in a && end in a && start <= end
    requires Ascending(b) && |b| > 0 && start in b && end in b
    requires forall key: nat :: start <= key <= end ==> (key in a <==> key in b)
    ensures FocusLeaves(a, start, end) == FocusLeaves(b, start, end)
  {
    FocusLeavesAre(a, start, end);
    FocusLeavesAre(b, start, end);
    assert KeySet(FocusLeaves(a, start, end)) == KeySet(FocusLeaves(b, start, end));
    AscendingUnique(FocusLeaves(a, start, end), FocusLeaves(b, start, end));
  }

  /** The parts of two octrees in the focus are the same. */
  lemma SameFocusLeaves(a: seq<nat>, b: seq<nat>, x: Setting)
    requires IsFocusOctreeOf(a, x) && IsFocusOctreeOf(b, x) && x.start <= x.end
    ensures FocusLeaves(a, x.start, x.end) == FocusLeaves(b, x.start, x.end)
  {
    FocusKeysAreIn(a, b, x);
    FocusKeysAreIn(b, a, x);
    assert AllMandatory(x)[0] == x.start && AllMandatory(x)[1] == x.end;
    SamePart(a, b, x.start, x.end);
  }

  lemma FocusKeysAreIn(a: seq<nat>, b: seq<nat>, x: Setting)
    requires IsFocusOctreeOf(a, x) && IsFocusOctreeOf(b, x)
    ensures forall key: nat :: key in a && x.start <= key <= x.end ==> key in b
  {
    forall key: nat | key in a && x.start <= key <= x.end ensures key in b {
      if 0 < key < Pow8(x.L) {
        var s, h := CutAround(a, x.L, key);
        assert IsNearFocus(x, s, h);
        assert IsAsItShould(a, x, s, h) && IsAsItShould(b, x, s, h);
        CutAroundHas(b, x.L, key, s, h);
      } else {
        EndsAreIn(a, x.L, key);
        EndsAreIn(b, x.L, key);
      }
    }
  }

  /** There is at most one such octree, although its marks depend on its leaves. */
  lemma FocusOctreeIsUnique(a: seq<nat>, b: seq<nat>, x: Setting)
    requires IsFocusOctreeOf(a, x) && IsFocusOctreeOf(b, x) && x.start <= x.end
    ensures a == b
  {
    SameFocusLeaves(a, b, x);
    KeysAreIn(a, b, x);
    KeysAreIn(b, a, x);
    AscendingUnique(a, b);
  }

  lemma KeysAreIn(a: seq<nat>, b: seq<nat>, x: Setting)
    requires IsFocusOctreeOf(a, x) && IsFocusOctreeOf(b, x)
    requires FocusLeaves(a, x.start, x.end) == FocusLeaves(b, x.start, x.end)
    ensures KeySet(a) <= KeySet(b)
  {
    forall key | key in KeySet(a) ensures key in KeySet(b) {
      if 0 < key < Pow8(x.L) {
        var s, h := CutAround(a, x.L, key);
        assert IsAsItShould(a, x, s, h) && IsAsItShould(b, x, s, h);
        CutAroundHas(b, x.L, key, s, h);
      } else {
        EndsAreIn(a, x.L, key);
        EndsAreIn(b, x.L, key);
      }
    }
  }
}
