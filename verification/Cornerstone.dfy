/** Cornerstone arrays: octrees stored as the ascending sequence of their leaf start keys.

Two views of the same thing are proved equal here. An array is a cornerstone array when
neighbouring keys delimit octree cells. A set of keys is a cornerstone set when every cell that
has a key strictly inside also has its 9 child boundaries in the set. The second view is a set
of Horn clauses with one premise each, so it is kept by union and by intersection. */
module CornerstoneArray {
  import opened Keys

  predicate Ascending(a: seq<nat>) {
    forall i, j :: 0 <= i < j < |a| ==> a[i] < a[j]
  }

  /** lo and hi are the start and end key of an octree cell. */
  predicate IsCell(lo: nat, hi: nat) {
    lo < hi && hi - lo == Pow8(Log8(hi - lo)) && Aligned(lo, Log8(hi - lo))
  }

  predicate CellAt(a: seq<nat>, i: nat)
    requires i + 1 < |a|
  {
    IsCell(a[i], a[i + 1])
  }

  /** The cornerstone invariants for maximum level L. */
  predicate Cornerstone(a: seq<nat>, L: nat) {
    && |a| >= 2 && a[0] == 0 && a[|a| - 1] == Pow8(L)
    && Ascending(a)
    && forall i: nat :: i < |a| - 1 ==> CellAt(a, i)
  }

  ghost function KeySet(a: seq<nat>): (s: set<nat>) {
    set k | k in a
  }

  /** All 9 child boundaries of the cell (s, h) are in S. */
  ghost predicate ChildrenIn(S: set<nat>, s: nat, h: nat)
    requires h >= 1
  {
    forall j: nat {:trigger ChildStart(s, h, j)} :: j <= 8 ==> ChildStart(s, h, j) in S
  }

  /** Cells that have a key of S strictly inside are fully subdivided. */
  ghost predicate Subdivided(S: set<nat>, L: nat) {
    forall k: nat, h: nat {:trigger k in S, Floor(k, h)} ::
      k in S && 1 <= h <= L && Floor(k, h) != k ==> ChildrenIn(S, Floor(k, h), h)
  }

  ghost predicate CornerstoneSet(S: set<nat>, L: nat) {
    && 0 in S && Pow8(L) in S
    && (forall k: nat :: k in S ==> k <= Pow8(L))
    && Subdivided(S, L)
  }

  // ------------------------------------------------------------------ cells

  lemma CellHeight(s: nat, h: nat)
    requires Aligned(s, h)
    ensures IsCell(s, s + Pow8(h)) && Log8(s + Pow8(h) - s) == h
  {
    Log8OfPow8(h);
  }

  /** A multiple of 8^g strictly inside a cell shows that the cell is higher than g. */
  lemma CutCellIsHigh(lo: nat, hi: nat, x: nat, g: nat)
    requires IsCell(lo, hi) && lo < x < hi && Aligned(x, g)
    ensures Log8(hi - lo) > g
  {
    var h := Log8(hi - lo);
    if h <= g {
      AlignedWeaken(x, h, g);
      AlignedGap(lo, x, h);
    }
  }

  /** Index of the leaf that contains key x. */
  lemma {:induction false} FindCell(a: seq<nat>, x: nat) returns (m: nat)
    requires |a| >= 2 && a[0] <= x < a[|a| - 1]
    ensures m + 1 < |a| && a[m] <= x < a[m + 1]
    decreases |a|
  {
    if |a| == 2 || x < a[1] {
      m := 0;
    } else {
      var r := FindCell(a[1..], x);
      m := r + 1;
    }
  }

  // ------------------------------------------------------- the two views agree

  lemma NoKeyInside(a: seq<nat>, i: nat, m: nat)
    requires Ascending(a) && i < |a| && m + 1 < |a|
    ensures a[i] <= a[m] || a[m + 1] <= a[i]
  {
    assert i <= m || m + 1 <= i;
  }

  /** A cell that is cut by a child boundary of another cell contains all of that other cell. */
  lemma CutCellIsLarger(lo: nat, hi: nat, x: nat, s: nat, h: nat)
    requires IsCell(lo, hi) && lo < x < hi
    requires h >= 1 && Aligned(s, h) && Aligned(x, h - 1) && s <= x <= s + Pow8(h)
    ensures lo <= s && s + Pow8(h) <= hi
  {
    var g := Log8(hi - lo);
    CutCellIsHigh(lo, hi, x, h - 1);
    AlignedWeaken(lo, h, g);
    AlignedPow8(h, h);
    AlignedAdd(s, Pow8(h), h);
    AlignedGap(lo, s + Pow8(h), h);
    AlignedPow8(h, g);
    AlignedAdd(lo, Pow8(g), h);
    AlignedGap(s, hi, h);
  }

  /** A cell boundary of height h - 1 next to a key that lies strictly inside the cell of height h
      is in the array: otherwise some leaf would contain that key strictly inside. */
  lemma BoundaryPresent(a: seq<nat>, L: nat, i: nat, h: nat, x: nat)
    requires Cornerstone(a, L) && i < |a| && 1 <= h <= L
    requires Floor(a[i], h) != a[i]
    requires Aligned(x, h - 1) && Floor(a[i], h) <= x <= Floor(a[i], h) + Pow8(h)
    requires x <= Pow8(L)
    ensures x in a
  {
    if x !in a {
      assert a[|a| - 1] in a && a[0] in a;
      var m := FindCell(a, x);
      assert a[m] in a && CellAt(a, m);
      FloorBounds(a[i], h);
      CutCellIsLarger(a[m], a[m + 1], x, Floor(a[i], h), h);
      NoKeyInside(a, i, m);
      assert false;
    }
  }

  lemma ArrayToSet(a: seq<nat>, L: nat)
    requires Cornerstone(a, L)
    ensures CornerstoneSet(KeySet(a), L)
  {
    var S := KeySet(a);
    assert a[0] in a && a[|a| - 1] in a;
    forall k: nat | k in S ensures k <= Pow8(L) {
      var i: nat :| i < |a| && a[i] == k;
    }
    forall k: nat, h: nat | k in S && 1 <= h <= L && Floor(k, h) != k
      ensures ChildrenIn(S, Floor(k, h), h)
    {
      var i: nat :| i < |a| && a[i] == k;
      var s := Floor(k, h);
      FloorBounds(k, h);
      ChildStarts(s, h);
      AlignedPow8(h, L);
      AlignedGap(s, Pow8(L), h);
      forall j: nat | j <= 8 ensures ChildStart(s, h, j) in S {
        assert ChildStart(s, h, 0) <= ChildStart(s, h, j) <= ChildStart(s, h, 8);
        BoundaryPresent(a, L, i, h, ChildStart(s, h, j));
      }
    }
  }

  /** Two neighbours x < y in a cornerstone set are the ends of a cell: descend from a cell that
      contains x and has both its ends in the set. */
  lemma {:induction false} NeighboursAreCell(S: set<nat>, L: nat, s: nat, h: nat, x: nat, y: nat)
    requires CornerstoneSet(S, L) && h <= L
    requires Aligned(s, h) && s in S && s + Pow8(h) in S
    requires s <= x < s + Pow8(h) && x in S && y in S && x < y
    requires forall k: nat :: x < k < y ==> k !in S
    ensures IsCell(x, y)
    decreases h
  {
    if s == x && y == s + Pow8(h) {
      CellHeight(s, h);
    } else {
      var k := if s < x then x else y;
      assert s < k < s + Pow8(h) && k in S;
      FloorUnique(k, s, h);
      assert h >= 1 && ChildrenIn(S, s, h);
      FloorUnique(x, s, h);
      ChildOf(x, h);
      ChildStarts(s, h);
      var d := Digit(x, h - 1);
      assert ChildStart(s, h, d) in S && ChildStart(s, h, d + 1) in S;
      NeighboursAreCell(S, L, ChildStart(s, h, d), h - 1, x, y);
    }
  }

  lemma SetToArray(a: seq<nat>, L: nat)
    requires Ascending(a) && CornerstoneSet(KeySet(a), L)
    ensures Cornerstone(a, L)
  {
    var S := KeySet(a);
    assert 0 in S && Pow8(L) in S;
    assert a[0] in S && a[|a| - 1] in S;
    var z: nat :| z < |a| && a[z] == 0;
    var e: nat :| e < |a| && a[e] == Pow8(L);
    forall i: nat | i < |a| - 1 ensures CellAt(a, i) {
      assert a[i] in S && a[i + 1] in S;
      forall k: nat | a[i] < k < a[i + 1] ensures k !in S {
        if k in S {
          var m: nat :| m < |a| && a[m] == k;
          assert false;
        }
      }
      AlignedZero(L);
      NeighboursAreCell(S, L, 0, L, a[i], a[i + 1]);
    }
  }

  /** Cornerstone arrays are exactly the sorted listings of cornerstone sets. */
  lemma ArrayIffSet(a: seq<nat>, L: nat)
    ensures Cornerstone(a, L) <==> Ascending(a) && CornerstoneSet(KeySet(a), L)
  {
    if Cornerstone(a, L) { ArrayToSet(a, L); }
    if Ascending(a) && CornerstoneSet(KeySet(a), L) { SetToArray(a, L); }
  }

  /** The same keys in ascending order are the same array. */
  /** An ascending listing of some of the keys is shorter. */
  lemma {:induction false} SubsequenceIsShorter(a: seq<nat>, b: seq<nat>)
    requires Ascending(a) && Ascending(b) && forall key: nat :: key in a ==> key in b
    ensures |a| < |b| || a == b
    decreases |a|
  {
    if a != [] {
      var j := FirstIsAt(a, b);
      SubsequenceIsShorter(a[1..], b[j + 1..]);
      assert a == [a[0]] + a[1..] && b[j..] == [b[j]] + b[j + 1..];
    }
  }

  lemma FirstIsAt(a: seq<nat>, b: seq<nat>) returns (j: nat)
    requires Ascending(a) && Ascending(b) && a != [] && forall key: nat :: key in a ==> key in b
    ensures j < |b| && b[j] == a[0] && forall key: nat :: key in a[1..] ==> key in b[j + 1..]
  {
    assert a[0] in b;
    j :| j < |b| && b[j] == a[0];
    forall key: nat | key in a[1..] ensures key in b[j + 1..] {
      var i: nat :| i < |a[1..]| && a[1..][i] == key;
      assert key in b && a[0] < key;
      var q: nat :| q < |b| && b[q] == key;
      assert b[j + 1..][q - j - 1] == key;
    }
  }

  lemma {:induction false} AscendingUnique(a: seq<nat>, b: seq<nat>)
    requires Ascending(a) && Ascending(b) && KeySet(a) == KeySet(b)
    ensures a == b
    decreases |a|
  {
    assert b != [] ==> b[0] in KeySet(b);
    if a != [] {
      assert a[0] in KeySet(a);
      assert b != [] && b[0] in KeySet(b);
      var i: nat :| i < |b| && b[i] == a[0];
      var j: nat :| j < |a| && a[j] == b[0];
      assert a[0] == b[0];
      assert KeySet(a[1..]) == KeySet(a) - {a[0]} by { TailKeys(a); }
      assert KeySet(b[1..]) == KeySet(b) - {b[0]} by { TailKeys(b); }
      AscendingUnique(a[1..], b[1..]);
      assert a == [a[0]] + a[1..] && b == [b[0]] + b[1..];
    }
  }

  lemma TailKeys(a: seq<nat>)
    requires Ascending(a) && a != []
    ensures KeySet(a[1..]) == KeySet(a) - {a[0]}
  {
    assert a == [a[0]] + a[1..];
    forall k: nat | k in a[1..] ensures k != a[0] {
      var i: nat :| i < |a[1..]| && a[1..][i] == k;
      assert a[0] < a[i + 1];
    }
  }

  /** Union and intersection of octrees are the union and intersection of their keys. */
  lemma UnionAndIntersection(S: set<nat>, T: set<nat>, L: nat)
    requires CornerstoneSet(S, L) && CornerstoneSet(T, L)
    ensures CornerstoneSet(S + T, L) && CornerstoneSet(S * T, L)
  {
    forall k: nat, h: nat | k in S + T && 1 <= h <= L && Floor(k, h) != k
      ensures ChildrenIn(S + T, Floor(k, h), h)
    {
      assert if k in S then ChildrenIn(S, Floor(k, h), h) else ChildrenIn(T, Floor(k, h), h);
    }
    forall k: nat, h: nat | k in S * T && 1 <= h <= L && Floor(k, h) != k
      ensures ChildrenIn(S * T, Floor(k, h), h)
    {
      assert ChildrenIn(S, Floor(k, h), h) && ChildrenIn(T, Floor(k, h), h);
    }
  }

  /** The three invariants of the file comment, without alignment: 0 and 8^L are present, keys
      ascend, differences are powers of 8. */
  predicate DocumentedInvariants(a: seq<nat>, L: nat) {
    && |a| >= 2 && a[0] == 0 && a[|a| - 1] == Pow8(L)
    && Ascending(a)
    && forall i: nat :: i < |a| - 1 ==> DifferenceIsPower(a, i)
  }

  predicate DifferenceIsPower(a: seq<nat>, i: nat)
    requires i + 1 < |a|
  {
    a[i] < a[i + 1] && a[i + 1] - a[i] == Pow8(Log8(a[i + 1] - a[i]))
  }

  /** The documented invariants do not imply that leaves come with all their siblings: they hold of an
      array whose first leaf has height 0 while its sibling 2 is missing. They are sufficient exactly
      when every leaf starts at a multiple of its own size, which the second leaf of that array does not. */
  lemma DocumentedInvariantsAreTooWeak(a: seq<nat>, L: nat)
    ensures Cornerstone(a, L) <==>
            DocumentedInvariants(a, L) &&
            forall i: nat :: i < |a| - 1 ==> Aligned(a[i], Log8(a[i + 1] - a[i]))
    ensures var b: seq<nat> := [0, 1, 9, 17, 25, 33, 41, 49, 57, 58, 59, 60, 61, 62, 63, 64];
            && DocumentedInvariants(b, 2) && !Cornerstone(b, 2)
            && b[1] - b[0] == Pow8(0) && ChildStart(Floor(b[0], 1), 1, 2) !in b && !Aligned(b[1], Log8(b[2] - b[1]))
  {
    MisalignedExample();
    if Cornerstone(a, L) {
      forall i: nat | i < |a| - 1
        ensures DifferenceIsPower(a, i) && Aligned(a[i], Log8(a[i + 1] - a[i]))
      {
        assert CellAt(a, i);
      }
    }
    if DocumentedInvariants(a, L) &&
       forall i: nat :: i < |a| - 1 ==> Aligned(a[i], Log8(a[i + 1] - a[i])) {
      forall i: nat | i < |a| - 1 ensures CellAt(a, i) {
        assert DifferenceIsPower(a, i);
      }
    }
  }

  lemma MisalignedExample()
    ensures var b: seq<nat> := [0, 1, 9, 17, 25, 33, 41, 49, 57, 58, 59, 60, 61, 62, 63, 64];
            && DocumentedInvariants(b, 2) && !Cornerstone(b, 2)
            && b[1] - b[0] == Pow8(0) && ChildStart(Floor(b[0], 1), 1, 2) !in b && !Aligned(b[1], Log8(b[2] - b[1]))
  {
    var b: seq<nat> := [0, 1, 9, 17, 25, 33, 41, 49, 57, 58, 59, 60, 61, 62, 63, 64];
    assert Pow8(0) == 1 && Pow8(1) == 8 && Pow8(2) == 64;
    assert Log8(1) == 0 && Log8(8) == 1;
    assert forall i: nat :: i < |b| - 1 ==> DifferenceIsPower(b, i);
    assert !CellAt(b, 1) by { assert !Aligned(1, 1); }
    NthUnit(0, 2);
    assert Floor(0, 1) == 0;
  }

  // -------------------------------------------------------- cells of the octree

  /** The cells of the octree stored in S, leaves and internal nodes. */
  ghost predicate IsNode(S: set<nat>, s: nat, h: nat) {
    Aligned(s, h) && s in S && s + Pow8(h) in S
  }

  lemma SiblingsAreThere(S: set<nat>, L: nat, s: nat, h: nat)
    requires CornerstoneSet(S, L) && h < L && IsNode(S, s, h)
    ensures ChildrenIn(S, Floor(s, h + 1), h + 1)
  {
    var p := Floor(s, h + 1);
    FloorBounds(s, h + 1);
    if p == s {
      var e := s + Pow8(h);
      assert p < e < p + Pow8(h + 1);
      FloorUnique(e, p, h + 1);
      assert e in S && Floor(e, h + 1) != e;
    }
  }

  /** Every cell of the octree other than the root is one of the 8 children of a cell of the octree. */
  lemma ParentIsNode(S: set<nat>, L: nat, s: nat, h: nat)
    requires CornerstoneSet(S, L) && h < L && IsNode(S, s, h)
    ensures IsNode(S, Floor(s, h + 1), h + 1)
    ensures ChildrenIn(S, Floor(s, h + 1), h + 1)
    ensures ChildStart(Floor(s, h + 1), h + 1, Digit(s, h)) == s
  {
    var p := Floor(s, h + 1);
    SiblingsAreThere(S, L, s, h);
    FloorBounds(s, h + 1);
    FloorBounds(s, h);
    ChildOf(s, h + 1);
    EightCells(p, h);
    assert ChildStart(p, h + 1, 0) in S && ChildStart(p, h + 1, 8) in S;
  }

  /** A cell that has a key strictly inside is a cell of the octree. */
  lemma CutCellIsNode(S: set<nat>, L: nat, s: nat, h: nat, k: nat)
    requires CornerstoneSet(S, L) && h <= L && Aligned(s, h) && k in S && s < k < s + Pow8(h)
    ensures IsNode(S, s, h) && h >= 1 && ChildrenIn(S, s, h)
  {
    FloorUnique(k, s, h);
    FloorBounds(k, h);
    assert h >= 1;
    ChildStarts(s, h);
    assert ChildrenIn(S, Floor(k, h), h);
    assert ChildStart(s, h, 0) in S && ChildStart(s, h, 8) in S;
  }
}
