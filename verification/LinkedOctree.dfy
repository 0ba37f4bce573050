/** Sorting the node codes and linking children and parents. */
module LinkedOctree {
  import opened Keys
  import opened CornerstoneArray
  import opened ComputeOctree
  import opened InOrder
  import opened OctreeLinks
  import LeafUpdate
  import Rebalance

  // ------------------------------------------------- sets of node codes, sorted

  /** Code of child d of the node with code c. */
  function Octant(c: nat, d: nat): (r: nat) {
    8 * c + d
  }

  ghost predicate SiblingsIn(C: set<nat>, c: nat) {
    c / 8 in C && forall d: nat {:trigger Octant(c / 8, d)} :: d < 8 ==> Octant(c / 8, d) in C
  }

  /** Codes of all nodes of an octree: the root, and with every other node its parent and siblings. */
  ghost predicate TreeCodes(C: set<nat>) {
    && 1 in C && 0 !in C
    && forall c: nat :: c in C && c > 1 ==> SiblingsIn(C, c)
  }

  /** In ascending order, a code that is not the last of its siblings is followed by the next one. */
  lemma NextSibling(p: seq<nat>, i: nat)
    requires Ascending(p) && TreeCodes(KeySet(p)) && i < |p| && p[i] > 1 && p[i] % 8 < 7
    ensures i + 1 < |p| && p[i + 1] == p[i] + 1
  {
    assert p[i] in KeySet(p);
    assert SiblingsIn(KeySet(p), p[i]);
    var c := Octant(p[i] / 8, p[i] % 8 + 1);
    assert c in KeySet(p);
    var q: nat :| q < |p| && p[q] == c;
    assert i < q;
    AdjacentCodesUp(p, i, q);
  }

  lemma AdjacentCodesUp(p: seq<nat>, i: nat, q: nat)
    requires Ascending(p) && i < q < |p| && p[q] == p[i] + 1
    ensures q == i + 1
  {
    assert p[i] < p[i + 1] <= p[q];
  }

  lemma PrevSibling(p: seq<nat>, i: nat)
    requires Ascending(p) && TreeCodes(KeySet(p)) && i < |p| && p[i] > 1 && p[i] % 8 > 0
    ensures i > 0 && p[i - 1] == p[i] - 1 && p[i - 1] > 1
  {
    assert p[i] in KeySet(p);
    assert SiblingsIn(KeySet(p), p[i]);
    var c := Octant(p[i] / 8, p[i] % 8 - 1);
    assert c in KeySet(p);
    var q: nat :| q < |p| && p[q] == c;
    AdjacentCodesUp(p, q, i);
  }

  lemma RootFirst(p: seq<nat>)
    requires Ascending(p) && TreeCodes(KeySet(p))
    ensures |p| > 0 && p[0] == 1 && forall i: nat :: 0 < i < |p| ==> p[i] > 1
  {
    assert 1 in KeySet(p);
    var q: nat :| q < |p| && p[q] == 1;
    assert p[0] in KeySet(p);
  }

  /** Node i is child number (i - 1) % 8 of its parent. */
  lemma {:induction false} OctantOfIndex(p: seq<nat>, i: nat)
    requires Ascending(p) && TreeCodes(KeySet(p)) && 0 < i < |p|
    ensures p[i] % 8 == (i - 1) % 8
    decreases i
  {
    RootFirst(p);
    if p[i] % 8 > 0 {
      PrevSibling(p, i);
      OctantOfIndex(p, i - 1);
      ModuloOfSuccessor(i - 2);
      ModuloOfSuccessor(p[i - 1]);
    } else if i > 1 {
      OctantOfIndex(p, i - 1);
      ModuloOfSuccessor(p[i - 1]);
      if p[i - 1] % 8 < 7 { NextSibling(p, i - 1); }
      ModuloOfSuccessor(i - 2);
    }
  }

  lemma ModuloOfSuccessor(x: nat)
    ensures (x + 1) % 8 == if x % 8 == 7 then 0 else x % 8 + 1
  {
  }

  /** The node whose code ends in digit 0 is followed by its 7 siblings, at an index 1 modulo 8. */
  lemma SiblingBlock(p: seq<nat>, c: nat)
    requires Ascending(p) && TreeCodes(KeySet(p)) && c < |p| && p[c] > 1 && p[c] % 8 == 0
    ensures c % 8 == 1 && c + 8 <= |p| && forall j: nat :: c <= j < c + 8 ==> p[j] == p[c] + (j - c)
  {
    RootFirst(p);
    assert c > 0;
    OctantOfIndex(p, c);
    var d := 0;
    while d < 7
      invariant d <= 7 && c + d < |p|
      invariant forall j: nat :: c <= j <= c + d ==> p[j] == p[c] + (j - c)
    {
      NextSibling(p, c + d);
      d := d + 1;
    }
  }

  // ------------------------------------------------------------- links

  ghost function PosOf(p: seq<nat>, c: nat): (i: nat)
    requires c in p
    ensures i < |p| && p[i] == c
  {
    LeafUpdate.IndexOf(p, c)
  }

  /** Index of the first child of node i, or 0 for a leaf. */
  ghost function ChildOffset(p: seq<nat>, i: nat): (c: nat)
    requires i < |p|
  {
    if 8 * p[i] in p then PosOf(p, 8 * p[i]) else 0
  }

  /** Children and parents agree with the codes. */
  ghost predicate Linked(prefixes: seq<nat>, childOffsets: seq<nat>, parents: seq<nat>) {
    && |prefixes| > 0 && |prefixes| <= |childOffsets| && prefixes[0] == 1
    && Ascending(prefixes)
    && (forall i: nat :: i < |prefixes| ==> ChildrenLinked(prefixes, childOffsets, parents, i))
    && (forall i: nat :: 0 < i < |prefixes| ==> ParentLinked(prefixes, childOffsets, parents, i))
  }

  /** The children of node i are 8 neighbours behind i, in order, and know their parent. */
  ghost predicate ChildrenLinked(prefixes: seq<nat>, childOffsets: seq<nat>, parents: seq<nat>, i: nat)
    requires i < |prefixes| <= |childOffsets|
  {
    var c := childOffsets[i];
    c != 0 ==>
      && i < c && c % 8 == 1 && c + 8 <= |prefixes|
      && (c - 1) / 8 < |parents| && parents[(c - 1) / 8] == i
      && forall j: nat :: c <= j < c + 8 ==> prefixes[j] == Octant(prefixes[i], j - c)
  }

  /** Node i is the child number (i - 1) % 8 of its parent. */
  ghost predicate ParentLinked(prefixes: seq<nat>, childOffsets: seq<nat>, parents: seq<nat>, i: nat)
    requires 0 < i < |prefixes| <= |childOffsets|
  {
    && (i - 1) / 8 < |parents|
    && parents[(i - 1) / 8] < i
    && childOffsets[parents[(i - 1) / 8]] == i - (i - 1) % 8
  }

  /** The links that the binary searches find. */
  ghost predicate LinksFound(p: seq<nat>, childOffsets: seq<nat>, parents: seq<nat>) {
    && |p| <= |childOffsets| && (|p| - 1) / 8 <= |parents|
    && (forall i: nat :: i < |p| ==> childOffsets[i] == ChildOffset(p, i))
    && (forall i: nat :: i < |p| && childOffsets[i] != 0 ==>
          (childOffsets[i] - 1) / 8 < |parents| && parents[(childOffsets[i] - 1) / 8] == i)
  }

  lemma FoundLinksAreLinked(p: seq<nat>, childOffsets: seq<nat>, parents: seq<nat>)
    requires Ascending(p) && TreeCodes(KeySet(p)) && LinksFound(p, childOffsets, parents)
    ensures Linked(p, childOffsets, parents)
  {
    RootFirst(p);
    forall i: nat | i < |p| ensures ChildrenLinked(p, childOffsets, parents, i) {
      if childOffsets[i] != 0 {
        SiblingBlock(p, childOffsets[i]);
      }
    }
    forall i: nat | 0 < i < |p| ensures ParentLinked(p, childOffsets, parents, i) {
      FoundParent(p, childOffsets, parents, i);
    }
  }

  lemma FoundParent(p: seq<nat>, childOffsets: seq<nat>, parents: seq<nat>, i: nat)
    requires Ascending(p) && TreeCodes(KeySet(p)) && LinksFound(p, childOffsets, parents) && 0 < i < |p|
    ensures ParentLinked(p, childOffsets, parents, i)
  {
    RootFirst(p);
    assert p[i] in KeySet(p);
    assert SiblingsIn(KeySet(p), p[i]);
    var q := p[i] / 8;
    assert q in p && Octant(q, 0) in KeySet(p);
    var j, c := PosOf(p, q), PosOf(p, 8 * q);
    assert ChildOffset(p, j) == c;
    assert c > 0;
    SiblingBlock(p, c);
    var d := p[i] % 8;
    assert p[c + d] == p[i];
    LeafUpdate.UniqueIndex(p, c + d, i);
    LeafUpdate.UniqueIndex(p, j, i);
  }

  // ------------------------------------------------ the codes of an octree's nodes

  /** The cell (s, h) is a node of the octree. */
  ghost predicate NodeIn(leaves: seq<nat>, s: nat, h: nat, L: nat) {
    h <= L && s < Pow8(L) && Aligned(s, h) && s in leaves && s + Pow8(h) in leaves
  }

  lemma {:induction false} InternalAt(leaves: seq<nat>, n: nat, r: nat, L: nat) returns (j: nat)
    requires n < |leaves| && r < FlagCount(leaves, n, L)
    ensures j < n && IsFlagged(leaves, j, L) && FlagCount(leaves, j, L) == r
    ensures InternalCodes(leaves, n, L)[r] == InternalCode(leaves, j, L)
  {
    if r < FlagCount(leaves, n - 1, L) {
      j := InternalAt(leaves, n - 1, r, L);
    } else {
      j := n - 1;
    }
  }

  lemma FlaggedIsNode(leaves: seq<nat>, j: nat, L: nat)
    requires Cornerstone(leaves, L) && j + 1 < |leaves| && IsFlagged(leaves, j, L) && 3 * L < 0x1_0000_0000
    ensures var h := NodeHeight(leaves, j, L); var s := Floor(leaves[j], h);
            1 <= h && NodeIn(leaves, s, h, L) && IsCut(leaves, s, h) && leaves[j + 1] == ChildStart(s, h, 4)
  {
    FlaggedIsMiddle(leaves, j, L);
    var h := NodeHeight(leaves, j, L);
    var s := Floor(leaves[j], h);
    FloorBounds(leaves[j], h);
    ChildInTree(leaves, L, s, h, 0);
    ChildInTree(leaves, L, s, h, 8);
    ChildStarts(s, h);
    assert leaves[j] < leaves[|leaves| - 1];
  }

  lemma LeafIsNode(leaves: seq<nat>, i: nat, L: nat)
    requires Cornerstone(leaves, L) && i + 1 < |leaves|
    ensures var h := Rebalance.LeafHeight(leaves, i);
            NodeIn(leaves, leaves[i], h, L) && !IsCut(leaves, leaves[i], h) && leaves[i + 1] == leaves[i] + Pow8(h)
  {
    LeafUpdate.LevelInRange(leaves, i, L);
    assert CellAt(leaves, i);
    LeafIsUncut(leaves, i, Rebalance.LeafHeight(leaves, i));
    assert leaves[i] < leaves[|leaves| - 1];
    assert leaves[i] in leaves && leaves[i + 1] in leaves;
  }

  /** Every code in the layout is that of a node. */
  lemma NodeOfCode(leaves: seq<nat>, u: nat, L: nat) returns (s: nat, h: nat)
    requires Cornerstone(leaves, L) && 3 * L < 0x1_0000_0000 && u < |UnsortedCodes(leaves, L)|
    ensures NodeIn(leaves, s, h, L) && UnsortedCodes(leaves, L)[u] == Code(s, h, L)
    ensures IsCut(leaves, s, h) <==> u < FlagCount(leaves, |leaves| - 1, L)
    ensures u >= FlagCount(leaves, |leaves| - 1, L) ==> s == leaves[u - FlagCount(leaves, |leaves| - 1, L)]
  {
    var n := |leaves| - 1;
    var f := FlagCount(leaves, n, L);
    if u < f {
      var j := InternalAt(leaves, n, u, L);
      FlaggedIsNode(leaves, j, L);
      h := NodeHeight(leaves, j, L);
      s := Floor(leaves[j], h);
    } else {
      UnsortedAt(leaves, u - f, L);
      LeafIsNode(leaves, u - f, L);
      s, h := leaves[u - f], Rebalance.LeafHeight(leaves, u - f);
    }
  }

  /** The code of every node is in the layout. */
  lemma CodeOfNode(leaves: seq<nat>, s: nat, h: nat, L: nat)
    requires Cornerstone(leaves, L) && 3 * L < 0x1_0000_0000 && NodeIn(leaves, s, h, L)
    ensures Code(s, h, L) in UnsortedCodes(leaves, L)
  {
    if IsCut(leaves, s, h) {
      assert h >= 1;
      var j := MiddleIsFlagged(leaves, s, h, L);
      UnsortedAt(leaves, j, L);
      assert InternalCode(leaves, j, L) == Code(s, h, L);
    } else {
      var i: nat :| i < |leaves| && leaves[i] == s;
      UncutEndsAtNext(leaves, i, h);
      Log8OfPow8(h);
      UnsortedAt(leaves, i, L);
    }
  }

  lemma RootCode(s: nat, L: nat)
    requires s < Pow8(L)
    ensures Code(s, L, L) == 1
  {
    ShiftSmall(s, L);
  }

  lemma CodesAreTree(leaves: seq<nat>, L: nat)
    requires Cornerstone(leaves, L) && 3 * L < 0x1_0000_0000
    ensures TreeCodes(KeySet(UnsortedCodes(leaves, L)))
  {
    var U := UnsortedCodes(leaves, L);
    var C := KeySet(U);
    AlignedZero(L);
    assert leaves[0] in leaves && leaves[|leaves| - 1] in leaves;
    CodeOfNode(leaves, 0, L, L);
    RootCode(0, L);
    forall c: nat | c in C ensures c > 0 && (c > 1 ==> SiblingsIn(C, c)) {
      var u: nat :| u < |U| && U[u] == c;
      var s, h := NodeOfCode(leaves, u, L);
      if c > 1 {
        if h == L { RootCode(s, L); }
        NodeSiblings(leaves, s, h, L);
      }
    }
  }

  lemma ChildIsNode(leaves: seq<nat>, p: nat, h: nat, d: nat, L: nat)
    requires Cornerstone(leaves, L) && 1 <= h && NodeIn(leaves, p, h, L) && d < 8
    requires ChildrenIn(KeySet(leaves), p, h)
    ensures NodeIn(leaves, ChildStart(p, h, d), h - 1, L)
  {
    ChildStarts(p, h);
    assert ChildStart(p, h, d) in KeySet(leaves) && ChildStart(p, h, d + 1) in KeySet(leaves);
    assert ChildStart(p, h, d) + Pow8(h - 1) == ChildStart(p, h, d + 1);
    assert ChildStart(p, h, d) < ChildStart(p, h, 8);
    var e: nat :| e < |leaves| && leaves[e] == p + Pow8(h);
    assert leaves[e] <= leaves[|leaves| - 1];
  }

  lemma ParentNode(leaves: seq<nat>, s: nat, h: nat, L: nat)
    requires Cornerstone(leaves, L) && NodeIn(leaves, s, h, L) && h < L
    ensures NodeIn(leaves, Floor(s, h + 1), h + 1, L)
    ensures ChildrenIn(KeySet(leaves), Floor(s, h + 1), h + 1)
  {
    ArrayToSet(leaves, L);
    ParentIsNode(KeySet(leaves), L, s, h);
    FloorBounds(s, h + 1);
  }

  lemma NodeSiblings(leaves: seq<nat>, s: nat, h: nat, L: nat)
    requires Cornerstone(leaves, L) && 3 * L < 0x1_0000_0000 && NodeIn(leaves, s, h, L) && h < L
    ensures SiblingsIn(KeySet(UnsortedCodes(leaves, L)), Code(s, h, L))
  {
    var p := Floor(s, h + 1);
    ParentNode(leaves, s, h, L);
    ParentCode(s, h, L);
    CodeOfNode(leaves, p, h + 1, L);
    forall d: nat {:trigger Octant(Code(s, h, L) / 8, d)} | d < 8
      ensures Octant(Code(s, h, L) / 8, d) in KeySet(UnsortedCodes(leaves, L))
    {
      ChildIsNode(leaves, p, h + 1, d, L);
      ChildCode(p, h + 1, d, L);
      CodeOfNode(leaves, ChildStart(p, h + 1, d), h, L);
    }
  }

  /** No two entries of the layout have the same code. */
  lemma CodesDistinct(leaves: seq<nat>, u: nat, v: nat, L: nat)
    requires Cornerstone(leaves, L) && 3 * L < 0x1_0000_0000
    requires u < v < |UnsortedCodes(leaves, L)|
    ensures UnsortedCodes(leaves, L)[u] != UnsortedCodes(leaves, L)[v]
  {
    var n := |leaves| - 1;
    var f := FlagCount(leaves, n, L);
    if UnsortedCodes(leaves, L)[u] == UnsortedCodes(leaves, L)[v] {
      var s, h := NodeOfCode(leaves, u, L);
      var t, g := NodeOfCode(leaves, v, L);
      CodeInjective(s, h, t, g, L);
      if v < f {
        var i := InternalAt(leaves, n, u, L);
        var j := InternalAt(leaves, n, v, L);
        InternalDistinct(leaves, i, j, L);
      } else {
        assert u >= f;
        LeafUpdate.UniqueIndex(leaves, u - f, v - f);
      }
    }
  }

  lemma InternalDistinct(leaves: seq<nat>, i: nat, j: nat, L: nat)
    requires Cornerstone(leaves, L) && i + 1 < |leaves| && j + 1 < |leaves| && 3 * L < 0x1_0000_0000
    requires IsFlagged(leaves, i, L) && IsFlagged(leaves, j, L)
    requires InternalCode(leaves, i, L) == InternalCode(leaves, j, L)
    ensures i == j
  {
    FlaggedIsNode(leaves, i, L);
    FlaggedIsNode(leaves, j, L);
    var hi, hj := NodeHeight(leaves, i, L), NodeHeight(leaves, j, L);
    CodeInjective(Floor(leaves[i], hi), hi, Floor(leaves[j], hj), hj, L);
    LeafUpdate.UniqueIndex(leaves, i + 1, j + 1);
  }
}
