/** The cells behind the indices of a linked octree, and walks along its links. */
module OctreeView {
  import opened Keys
  import opened CornerstoneArray
  import opened ComputeOctree
  import opened OctreeLinks
  import opened LinkedOctree
  import opened BuildOctree
  import opened Traversal
  import Rebalance

  /** The arrays that describe nodes and links. */
  datatype View = View(prefixes: seq<nat>, childOffsets: seq<nat>, parents: seq<nat>, L: nat)

  /** Start key of node i. */
  function StartOf(t: View, i: nat): (s: nat) {
    if i < |t.prefixes| && Log8(t.prefixes[i]) <= t.L then DecodePlaceholderBit(t.prefixes[i], t.L) else 0
  }

  /** Height of node i; its level is L - height. */
  function HeightOf(t: View, i: nat): (h: nat) {
    if i < |t.prefixes| && Log8(t.prefixes[i]) <= t.L then t.L - Log8(t.prefixes[i]) else 0
  }

  function EndOf(t: View, i: nat): (e: nat) {
    StartOf(t, i) + Pow8(HeightOf(t, i))
  }

  /** Node i is a node of the octree, with children exactly if it is cut. */
  ghost predicate NodeFits(t: View, leaves: seq<nat>, i: nat)
    requires i < |t.prefixes| <= |t.childOffsets|
  {
    && NodeIn(leaves, StartOf(t, i), HeightOf(t, i), t.L)
    && t.prefixes[i] == Code(StartOf(t, i), HeightOf(t, i), t.L)
    && (t.childOffsets[i] != 0 <==> IsCut(leaves, StartOf(t, i), HeightOf(t, i)))
  }

  /** Node i is the child of its parent that its index says. */
  ghost predicate ChildFits(t: View, i: nat)
    requires 0 < i
  {
    var p := Parent(t.parents, i);
    && p < i && HeightOf(t, p) == HeightOf(t, i) + 1
    && StartOf(t, i) == ChildStart(StartOf(t, p), HeightOf(t, p), (i - 1) % 8)
  }

  ghost predicate IsListed(t: View, s: nat, h: nat) {
    exists i: nat :: i < |t.prefixes| && StartOf(t, i) == s && HeightOf(t, i) == h
  }

  /** The arrays are a linked octree of the leaves. */
  ghost predicate IsView(t: View, leaves: seq<nat>) {
    && Cornerstone(leaves, t.L)
    && TreeShape(t.childOffsets, t.parents, |t.prefixes|)
    && StartOf(t, 0) == 0 && HeightOf(t, 0) == t.L
    && (forall i: nat :: i < |t.prefixes| ==> NodeFits(t, leaves, i))
    && (forall i: nat :: 0 < i < |t.prefixes| ==> ChildFits(t, i))
    && (forall s: nat, h: nat {:trigger IsListed(t, s, h)} :: NodeIn(leaves, s, h, t.L) ==> IsListed(t, s, h))
  }

  lemma ListedNode(t: View, leaves: seq<nat>, i: nat) returns (s: nat, h: nat)
    requires Cornerstone(leaves, t.L) && NodesListed(leaves, t.prefixes, t.L) && i < |t.prefixes|
    ensures NodeIn(leaves, s, h, t.L) && t.prefixes[i] == Code(s, h, t.L)
    ensures StartOf(t, i) == s && HeightOf(t, i) == h
  {
    assert IsNodeCode(leaves, t.prefixes[i], t.L);
    s, h :| NodeIn(leaves, s, h, t.L) && t.prefixes[i] == Code(s, h, t.L);
    DecodeEncode(s, h, t.L);
  }

  lemma NodeIsListed(t: View, leaves: seq<nat>, s: nat, h: nat) returns (i: nat)
    requires Cornerstone(leaves, t.L) && NodesListed(leaves, t.prefixes, t.L) && NodeIn(leaves, s, h, t.L)
    ensures i < |t.prefixes| && StartOf(t, i) == s && HeightOf(t, i) == h && IsListed(t, s, h)
  {
    assert Code(s, h, t.L) in t.prefixes;
    i :| i < |t.prefixes| && t.prefixes[i] == Code(s, h, t.L);
    var s', h' := ListedNode(t, leaves, i);
    CodeInjective(s, h, s', h', t.L);
  }

  /** Only child d of a cell has 8 times its code plus d. */
  lemma ChildOfCode(s: nat, h: nat, s': nat, h': nat, d: nat, L: nat)
    requires h <= L && h' <= L && Aligned(s, h) && Aligned(s', h') && d < 8
    requires s + Pow8(h) <= Pow8(L) && s' < Pow8(L)
    requires Code(s', h', L) == 8 * Code(s, h, L) + d
    ensures h == h' + 1 && s' == ChildStart(s, h, d)
  {
    OctantHasParent(s, h, s', h', d, L);
    ChildOfDigit(s, h, s', d);
  }

  lemma ChildOfDigit(s: nat, h: nat, s': nat, d: nat)
    requires h >= 1 && Aligned(s', h - 1) && s == Floor(s', h) && d == Digit(s', h - 1)
    ensures s' == ChildStart(s, h, d)
  {
    ChildOf(s', h);
    FloorBounds(s', h - 1);
  }

  lemma OctantHasParent(s: nat, h: nat, s': nat, h': nat, d: nat, L: nat)
    requires h <= L && h' <= L && Aligned(s, h) && d < 8 && s < Pow8(L) && s' < Pow8(L)
    requires Code(s', h', L) == 8 * Code(s, h, L) + d
    ensures h == h' + 1 && s == Floor(s', h) && d == Digit(s', h')
  {
    OctantArithmetic(Code(s, h, L), d, Code(s', h', L));
    if h' == L { RootCode(s', L); }
    ParentCode(s', h', L);
    ParentBounds(s', h', L);
    CodeInjective(Floor(s', h' + 1), h' + 1, s, h, L);
  }

  lemma OctantArithmetic(c: nat, d: nat, c': nat)
    requires c >= 1 && d < 8 && c' == 8 * c + d
    ensures c' / 8 == c && c' % 8 == d && c' >= 8
  {
  }

  lemma ParentBounds(s: nat, h: nat, L: nat)
    requires h < L && s < Pow8(L)
    ensures Floor(s, h + 1) < Pow8(L) && Aligned(Floor(s, h + 1), h + 1)
  {
    FloorBounds(s, h + 1);
  }

  lemma ChildBounds(s: nat, h: nat, d: nat)
    requires h >= 1 && Aligned(s, h) && d < 8
    ensures Aligned(ChildStart(s, h, d), h - 1)
    ensures s <= ChildStart(s, h, d) && ChildStart(s, h, d) + Pow8(h - 1) <= s + Pow8(h)
    ensures ChildStart(s, h, d + 1) == ChildStart(s, h, d) + Pow8(h - 1) && ChildStart(s, h, 8) == s + Pow8(h)
  {
    ChildStarts(s, h);
    assert ChildStart(s, h, d) < ChildStart(s, h, 8);
  }

  /** Links lead from a code to its octants. */
  lemma LinkedCodes(prefixes: seq<nat>, childOffsets: seq<nat>, parents: seq<nat>, i: nat)
    requires Linked(prefixes, childOffsets, parents) && 0 < i < |prefixes|
    ensures Parent(parents, i) < i && prefixes[i] == 8 * prefixes[Parent(parents, i)] + (i - 1) % 8
  {
    LinkedIsTreeShape(prefixes, childOffsets, parents);
    ParentFacts(childOffsets, parents, |prefixes|, i);
    var p, d := Parent(parents, i), (i - 1) % 8;
    assert ChildrenLinked(prefixes, childOffsets, parents, p);
    ChildFacts(childOffsets, parents, |prefixes|, p, d);
    assert prefixes[childOffsets[p] + d] == Octant(prefixes[p], d);
  }

  /** A child is where its parent's digit puts it. */
  lemma LinkedChild(t: View, leaves: seq<nat>, i: nat)
    requires Cornerstone(leaves, t.L) && NodesListed(leaves, t.prefixes, t.L)
    requires Linked(t.prefixes, t.childOffsets, t.parents) && 0 < i < |t.prefixes|
    ensures ChildFits(t, i)
  {
    LinkedCodes(t.prefixes, t.childOffsets, t.parents, i);
    var s, h := ListedNode(t, leaves, Parent(t.parents, i));
    var s', h' := ListedNode(t, leaves, i);
    NodeEnds(leaves, s, h, t.L);
    ChildOfCode(s, h, s', h', (i - 1) % 8, t.L);
  }

  lemma NodeEnds(leaves: seq<nat>, s: nat, h: nat, L: nat)
    requires Cornerstone(leaves, L) && NodeIn(leaves, s, h, L)
    ensures s + Pow8(h) <= Pow8(L)
  {
    var e: nat :| e < |leaves| && leaves[e] == s + Pow8(h);
    assert leaves[e] <= leaves[|leaves| - 1];
  }

  /** What `buildOctreeCpu` guarantees is enough. */
  lemma RepresentsIsView(leaves: seq<nat>, prefixes: seq<nat>, childOffsets: seq<nat>, parents: seq<nat>,
                         levelRange: seq<nat>, internalToLeaf: seq<int>, leafToInternal: seq<nat>, L: nat)
    requires Represents(leaves, prefixes, childOffsets, parents, levelRange, internalToLeaf, leafToInternal, L)
    ensures IsView(View(prefixes, childOffsets, parents, L), leaves)
  {
    var t := View(prefixes, childOffsets, parents, L);
    LinkedIsTreeShape(prefixes, childOffsets, parents);
    assert StartOf(t, 0) == 0 && HeightOf(t, 0) == L;
    forall i: nat | i < |prefixes| ensures NodeFits(t, leaves, i) {
      NodeHasItsCell(leaves, prefixes, childOffsets, parents, levelRange, internalToLeaf, leafToInternal, L, i);
    }
    forall i: nat | 0 < i < |prefixes| ensures ChildFits(t, i) {
      LinkedChild(t, leaves, i);
    }
    forall s: nat, h: nat {:trigger IsListed(t, s, h)} | NodeIn(leaves, s, h, L) ensures IsListed(t, s, h) {
      var i := NodeIsListed(t, leaves, s, h);
    }
  }

  lemma NodeHasItsCell(leaves: seq<nat>, prefixes: seq<nat>, childOffsets: seq<nat>, parents: seq<nat>,
                       levelRange: seq<nat>, internalToLeaf: seq<int>, leafToInternal: seq<nat>, L: nat, i: nat)
    requires Represents(leaves, prefixes, childOffsets, parents, levelRange, internalToLeaf, leafToInternal, L)
    requires i < |prefixes|
    ensures NodeFits(View(prefixes, childOffsets, parents, L), leaves, i)
  {
    var s, h := ListedNode(View(prefixes, childOffsets, parents, L), leaves, i);
    if childOffsets[i] != 0 {
      assert 8 * prefixes[i] in prefixes by {
        assert ChildrenLinked(prefixes, childOffsets, parents, i);
        assert prefixes[childOffsets[i]] == Octant(prefixes[i], 0);
      }
      ChildListed(leaves, prefixes, s, h, L);
    } else {
      var j := LeafOfNode(leaves, prefixes, childOffsets, parents, levelRange, internalToLeaf, leafToInternal, L, i);
      LeafCell(leaves, j, s, h, L);
    }
  }

  lemma LeafCell(leaves: seq<nat>, j: nat, s: nat, h: nat, L: nat)
    requires Cornerstone(leaves, L) && NodeIn(leaves, s, h, L) && j + 1 < |leaves|
    requires LeafCode(leaves, j, L) == Code(s, h, L)
    ensures leaves[j] == s && leaves[j + 1] == s + Pow8(h) && !IsCut(leaves, s, h)
  {
    LeafIsNode(leaves, j, L);
    CodeInjective(s, h, leaves[j], Rebalance.LeafHeight(leaves, j), L);
  }

  lemma LeafOfNode(leaves: seq<nat>, prefixes: seq<nat>, childOffsets: seq<nat>, parents: seq<nat>,
                   levelRange: seq<nat>, internalToLeaf: seq<int>, leafToInternal: seq<nat>, L: nat, i: nat)
    returns (j: nat)
    requires Represents(leaves, prefixes, childOffsets, parents, levelRange, internalToLeaf, leafToInternal, L)
    requires i < |prefixes| && childOffsets[i] == 0
    ensures j + 1 < |leaves| && prefixes[i] == LeafCode(leaves, j, L)
  {
    assert NodeMapped(leaves, prefixes, childOffsets, internalToLeaf, leafToInternal, i);
    j := internalToLeaf[i];
    assert LeafMapped(leaves, prefixes, childOffsets, internalToLeaf, leafToInternal, j, L);
  }

  // ------------------------------------------------------------- ancestors and cells

  lemma ParentCell(t: View, leaves: seq<nat>, i: nat)
    requires IsView(t, leaves) && 0 < i < |t.prefixes|
    ensures Parent(t.parents, i) < i && HeightOf(t, i) < t.L
    ensures var p := Parent(t.parents, i);
            && HeightOf(t, p) == HeightOf(t, i) + 1
            && StartOf(t, p) == Floor(StartOf(t, i), HeightOf(t, p))
            && StartOf(t, p) <= StartOf(t, i) && EndOf(t, i) <= EndOf(t, p)
  {
    assert ChildFits(t, i);
    var p := Parent(t.parents, i);
    assert NodeFits(t, leaves, p) && NodeFits(t, leaves, i);
    ChildBounds(StartOf(t, p), HeightOf(t, p), (i - 1) % 8);
    FloorUnique(StartOf(t, i), StartOf(t, p), HeightOf(t, p));
  }

  /** A child ends where the next one starts, and the last one where its parent ends. */
  lemma ChildEnds(t: View, leaves: seq<nat>, i: nat)
    requires IsView(t, leaves) && 0 < i < |t.prefixes|
    ensures Parent(t.parents, i) < i && HeightOf(t, Parent(t.parents, i)) >= 1
    ensures var p, d := Parent(t.parents, i), (i - 1) % 8;
            && EndOf(t, i) == ChildStart(StartOf(t, p), HeightOf(t, p), d + 1)
            && (d == 7 ==> EndOf(t, i) == EndOf(t, p))
  {
    assert ChildFits(t, i);
    var p := Parent(t.parents, i);
    assert NodeFits(t, leaves, p);
    ChildBounds(StartOf(t, p), HeightOf(t, p), (i - 1) % 8);
  }

  /** Nodes with the same cell are the same. */
  lemma {:induction false} SameCell(t: View, leaves: seq<nat>, i: nat, j: nat)
    requires IsView(t, leaves) && i < |t.prefixes| && j < |t.prefixes|
    requires StartOf(t, i) == StartOf(t, j) && HeightOf(t, i) == HeightOf(t, j)
    ensures i == j
    decreases i
  {
    if i > 0 { ParentCell(t, leaves, i); }
    if j > 0 { ParentCell(t, leaves, j); }
    if i > 0 && j > 0 {
      SameCell(t, leaves, Parent(t.parents, i), Parent(t.parents, j));
      assert ChildFits(t, i) && ChildFits(t, j);
      var p := Parent(t.parents, i);
      SameDigit(StartOf(t, p), HeightOf(t, p), (i - 1) % 8, (j - 1) % 8);
      ParentFacts(t.childOffsets, t.parents, |t.prefixes|, i);
      ParentFacts(t.childOffsets, t.parents, |t.prefixes|, j);
    }
  }

  lemma SameDigit(s: nat, h: nat, d: nat, e: nat)
    requires h >= 1 && ChildStart(s, h, d) == ChildStart(s, h, e)
    ensures d == e
  {
    if d < e { NthMonotone(s, h - 1, d, e); }
    if e < d { NthMonotone(s, h - 1, e, d); }
  }

  lemma {:induction false} BelowIsInside(t: View, leaves: seq<nat>, v: nat, i: nat)
    requires IsView(t, leaves) && i < |t.prefixes| && IsAncestor(t.parents, v, i)
    ensures v <= i && StartOf(t, v) <= StartOf(t, i) && EndOf(t, i) <= EndOf(t, v)
    ensures HeightOf(t, i) <= HeightOf(t, v) && (i != v ==> HeightOf(t, i) < HeightOf(t, v))
    decreases i
  {
    if i != v {
      ParentCell(t, leaves, i);
      BelowIsInside(t, leaves, v, Parent(t.parents, i));
    }
  }

  /** A node that is not higher and starts inside a cell is below it. */
  lemma {:induction false} InsideIsBelow(t: View, leaves: seq<nat>, v: nat, i: nat)
    requires IsView(t, leaves) && v < |t.prefixes| && i < |t.prefixes|
    requires StartOf(t, v) <= StartOf(t, i) < EndOf(t, v) && HeightOf(t, i) <= HeightOf(t, v)
    ensures IsAncestor(t.parents, v, i)
    decreases i
  {
    assert NodeFits(t, leaves, v) && NodeFits(t, leaves, i);
    if HeightOf(t, i) == HeightOf(t, v) {
      FloorUnique(StartOf(t, i), StartOf(t, v), HeightOf(t, v));
      FloorBounds(StartOf(t, i), HeightOf(t, v));
      SameCell(t, leaves, i, v);
    } else {
      assert i > 0;
      ParentCell(t, leaves, i);
      var p := Parent(t.parents, i);
      FloorNested(StartOf(t, i), HeightOf(t, p), HeightOf(t, v));
      FloorUnique(StartOf(t, i), StartOf(t, v), HeightOf(t, v));
      InsideIsBelow(t, leaves, v, p);
      AncestorIsSmaller(t.parents, v, p);
    }
  }

  /** Of two ancestors of a node, the one with the smaller index is above the other. */
  lemma {:induction false} AncestorsAreOrdered(parents: seq<nat>, a: nat, b: nat, i: nat)
    requires IsAncestor(parents, a, i) && IsAncestor(parents, b, i) && a < b
    ensures IsAncestor(parents, a, Parent(parents, b)) && Parent(parents, b) < b
    decreases i
  {
    if i == b {
      AncestorIsSmaller(parents, a, Parent(parents, b));
    } else {
      AncestorIsSmaller(parents, b, i);
      AncestorsAreOrdered(parents, a, b, Parent(parents, i));
    }
  }

  /** A cell with a key of the octree strictly inside is an internal node. */
  lemma CutCellIsInternal(t: View, leaves: seq<nat>, key: nat, h: nat) returns (v: nat)
    requires IsView(t, leaves) && key in leaves && 1 <= h <= t.L && Floor(key, h) != key
    ensures v < |t.prefixes| && t.childOffsets[v] != 0 && StartOf(t, v) == Floor(key, h) && HeightOf(t, v) == h
  {
    var s := Floor(key, h);
    FloorBounds(key, h);
    ArrayToSet(leaves, t.L);
    CutCellIsNode(KeySet(leaves), t.L, s, h, key);
    var k: nat :| k < |leaves| && leaves[k] == key;
    assert leaves[k] <= leaves[|leaves| - 1];
    assert IsListed(t, s, h) by { assert NodeIn(leaves, s, h, t.L); }
    v :| v < |t.prefixes| && StartOf(t, v) == s && HeightOf(t, v) == h;
    assert NodeFits(t, leaves, v);
  }

  /** A node that starts strictly inside a cell is properly below it. */
  lemma StrictlyInsideIsBelow(t: View, leaves: seq<nat>, v: nat, i: nat)
    requires IsView(t, leaves) && v < |t.prefixes| && i < |t.prefixes|
    requires StartOf(t, v) == Floor(StartOf(t, i), HeightOf(t, v)) != StartOf(t, i)
    ensures v < i && IsAncestor(t.parents, v, i)
  {
    var key, h := StartOf(t, i), HeightOf(t, v);
    FloorBounds(key, h);
    assert NodeFits(t, leaves, i);
    if HeightOf(t, i) >= h { AlignedWeaken(key, h, HeightOf(t, i)); }
    InsideIsBelow(t, leaves, v, i);
    AncestorIsSmaller(t.parents, v, i);
  }

  /** The 9 child boundaries of an internal node. */
  lemma ChildBoundary(t: View, leaves: seq<nat>, v: nat, j: nat)
    requires IsView(t, leaves) && v < |t.prefixes| && t.childOffsets[v] != 0 && j <= 8
    ensures v < t.childOffsets[v] && t.childOffsets[v] + 8 <= |t.prefixes| && HeightOf(t, v) >= 1
    ensures ChildStart(StartOf(t, v), HeightOf(t, v), j) ==
            if j < 8 then StartOf(t, t.childOffsets[v] + j) else EndOf(t, v)
  {
    assert NodeFits(t, leaves, v);
    ChildFacts(t.childOffsets, t.parents, |t.prefixes|, v, if j < 8 then j else 7);
    if j < 8 {
      assert ChildFits(t, t.childOffsets[v] + j);
    } else {
      ChildBounds(StartOf(t, v), HeightOf(t, v), 7);
    }
  }
}
