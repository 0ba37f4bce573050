/** Octrees in which the peer search overflows its stack: uniform ones of height 11 or more, when everything is too
close. Keys of 64 bits have 21 levels. */
module PeerOverflow {
  import opened Keys
  import opened CornerstoneArray
  import opened ComputeOctree
  import opened BuildOctree
  import opened Traversal
  import opened DualTraversal
  import opened OctreeView
  import opened Separation
  import opened Peers
  import opened StackBound
  import opened HilbertPeers
  import Curves
  import Rebalance
  import Span

  // ------------------------------------------------------------- a uniform octree, seen by its first rank

  /** All leaves have height g. */
  ghost predicate IsUniformView(t: View, g: nat) {
    |t.prefixes| <= |t.childOffsets| && forall i: nat :: i < |t.prefixes| ==> IsLeafAt(t, g, i)
  }

  ghost predicate IsLeafAt(t: View, g: nat, i: nat)
    requires i < |t.childOffsets|
  {
    HeightOf(t, i) >= g && (t.childOffsets[i] == 0 <==> HeightOf(t, i) == g)
  }

  ghost function HeightAbove(t: View, g: nat): (height: nat -> nat) {
    (i: nat) => if HeightOf(t, i) >= g then HeightOf(t, i) - g else 0
  }

  lemma ViewIsUniform(t: View, leaves: seq<nat>, g: nat)
    requires IsView(t, leaves) && IsUniformView(t, g)
    ensures IsUniform(t.childOffsets, |t.prefixes|, HeightAbove(t, g))
  {
    var height := HeightAbove(t, g);
    forall i: nat | i < |t.prefixes| ensures IsUniformAt(t.childOffsets, height, i) {
      assert IsLeafAt(t, g, i);
      forall d: nat | d < 8 && t.childOffsets[i] != 0 ensures IsOneLower(height, t.childOffsets[i], d, i) {
        ChildOfNode(t, leaves, i, d);
        assert IsLeafAt(t, g, t.childOffsets[i] + d);
      }
    }
  }

  lemma ChildOfNode(t: View, leaves: seq<nat>, i: nat, d: nat)
    requires IsView(t, leaves) && i < |t.prefixes| && t.childOffsets[i] != 0 && d < 8
    ensures var c := t.childOffsets[i] + d;
            && c < |t.prefixes| && HeightOf(t, i) == HeightOf(t, c) + 1
            && StartOf(t, c) == ChildStart(StartOf(t, i), HeightOf(t, i), d)
            && StartOf(t, i) <= StartOf(t, c) && EndOf(t, c) <= EndOf(t, i)
  {
    ChildFacts(t.childOffsets, t.parents, |t.prefixes|, i, d);
    var c := t.childOffsets[i] + d;
    assert ChildFits(t, c);
    ParentAround(t, leaves, c);
  }

  /** Everything is too close. */
  ghost predicate NothingIsFar(d: Domain) {
    forall i: nat, j: nat :: i < |d.t.prefixes| && j < |d.t.prefixes| ==> !MinMacMutualInt(d.box(i), d.box(j), d.grid)
  }

  /** Targets below the first octant, sources outside it. */
  ghost function Across(t: View, m: nat): (dense: NodePair -> bool) {
    (p: NodePair) => p.0 < |t.prefixes| && p.1 < |t.prefixes| && EndOf(t, p.0) <= m <= StartOf(t, p.1)
  }

  lemma NearAcross(d: Domain, m: nat, p: NodePair)
    requires NothingIsFar(d) && Across(d.t, m)(p)
    ensures CrossFocusPairs(d, 0, m)(p)
  {
    CellIsNotEmpty(d.t, p.0);
    CellIsNotEmpty(d.t, p.1);
  }

  lemma PartAcross(t: View, leaves: seq<nat>, m: nat, p: NodePair, k: nat)
    requires IsView(t, leaves) && Across(t, m)(p) && k < 8 && !IsLeafPair(t.childOffsets, p)
    ensures IsDensePart(t.childOffsets, Across(t, m), p, k)
  {
    if SubdividesTarget(t.childOffsets, p) {
      ChildOfNode(t, leaves, p.0, k);
    } else {
      ChildOfNode(t, leaves, p.1, k);
    }
  }

  lemma AcrossIsDense(d: Domain, leaves: seq<nat>, m: nat)
    requires IsView(d.t, leaves) && NothingIsFar(d)
    ensures IsDense(d.t.childOffsets, |d.t.prefixes|, CrossFocusPairs(d, 0, m), Across(d.t, m))
  {
    var dense := Across(d.t, m);
    forall p: NodePair | dense(p) ensures CrossFocusPairs(d, 0, m)(p) { NearAcross(d, m, p); }
    forall p: NodePair, k: nat | dense(p) && k < 8 && !IsLeafPair(d.t.childOffsets, p)
      ensures IsDensePart(d.t.childOffsets, dense, p, k)
    {
      PartAcross(d.t, leaves, m, p, k);
    }
  }

  lemma CellIsNotEmpty(t: View, i: nat)
    ensures StartOf(t, i) < EndOf(t, i)
  {
  }

  /** A domain with a uniform octree, whose first rank owns the first octant, node v. */
  ghost predicate IsExample(d: Domain, leaves: seq<nat>, g: nat, v: nat) {
    && IsView(d.t, leaves) && IsUniformView(d.t, g) && NothingIsFar(d) && d.t.L >= g + 2
    && v < |d.t.prefixes| && StartOf(d.t, v) == 0 && HeightOf(d.t, v) == d.t.L - 1
  }

  /** From there, the traversal needs 14 (D - 1) entries if the octree has D levels below the root. */
  lemma FirstOctantNeeds(d: Domain, leaves: seq<nat>, g: nat, v: nat)
    requires IsExample(d, leaves, g, v)
    ensures Need(d.t.childOffsets, d.t.parents, |d.t.prefixes|, CrossFocusPairs(d, 0, Pow8(d.t.L - 1)), (v, 0)) ==
            14 * (d.t.L - g - 1)
  {
    var t, n := d.t, |d.t.prefixes|;
    var near := CrossFocusPairs(d, 0, Pow8(t.L - 1));
    var parts := Subdivision(t.childOffsets, (v, 0), OCTANTS);
    RootIsSubdivided(t, g, v);
    PartsArePairs(t.childOffsets, (v, 0), OCTANTS);
    NeedOfParts(t.childOffsets, t.parents, n, near, (v, 0));
    var need, pushed, total := Needs(t.childOffsets, t.parents, n, near), Pushed(t.childOffsets,
                                                                                 near), 14 * (t.L - g - 1);
    forall e: nat | e < |parts| ensures IsPart(need, pushed, parts, total, e) { RootPart(d, leaves, g, v, e); }
    AllButFirst(need, pushed, parts, total, OCTANTS);
  }

  lemma RootIsSubdivided(t: View, g: nat, v: nat)
    requires IsUniformView(t, g) && HeightOf(t, 0) == t.L >= g + 2 && v < |t.prefixes| && HeightOf(t, v) == t.L - 1
    ensures v != 0 && t.childOffsets[0] != 0 && t.childOffsets[v] != 0
  {
    assert IsLeafAt(t, g, 0) && IsLeafAt(t, g, v);
  }

  /** The part in the octant of the rank itself is not pushed; the other 7 are. */
  ghost predicate IsPart(need: NodePair -> nat, pushed: NodePair -> bool, parts: seq<NodePair>, total: nat, e: nat)
    requires e < |parts|
  {
    (pushed(parts[e]) <==> e > 0) && (e > 0 ==> need(parts[e]) + 6 == total)
  }

  lemma {:induction false} AllButFirst(need: NodePair -> nat, pushed: NodePair -> bool, parts: seq<NodePair>,
                                       total: nat, k: nat)
    requires k <= |parts| && total >= 6 && forall e: nat :: e < k ==> IsPart(need, pushed, parts, total, e)
    ensures CountPushed(pushed, parts, k) == if k <= 1 then 0 else k - 1
    ensures NeedForParts(need, pushed, parts, k) + 8 == if k <= 1 then 8 else total + k
    decreases k
  {
    if k > 0 {
      AllButFirst(need, pushed, parts, total, k - 1);
      assert IsPart(need, pushed, parts, total, k - 1);
    }
  }

  lemma RootPart(d: Domain, leaves: seq<nat>, g: nat, v: nat, e: nat)
    requires IsExample(d, leaves, g, v) && e < 8
    ensures var near, n := CrossFocusPairs(d, 0, Pow8(d.t.L - 1)), |d.t.prefixes|;
            var parts := Subdivision(d.t.childOffsets, (v, 0), OCTANTS);
            |parts| == 8 &&
            IsPart(Needs(d.t.childOffsets, d.t.parents, n, near), Pushed(d.t.childOffsets, near), parts,
                   14 * (d.t.L - g - 1), e)
  {
    RootIsSubdivided(d.t, g, v);
    PartsArePairs(d.t.childOffsets, (v, 0), OCTANTS);
    assert Part(d.t.childOffsets, (v, 0), e) == (v, d.t.childOffsets[0] + e);
    if e > 0 { OtherOctant(d, leaves, g, v, e); } else { OwnOctant(d, leaves, g, v); }
  }

  lemma OwnOctant(d: Domain, leaves: seq<nat>, g: nat, v: nat)
    requires IsExample(d, leaves, g, v)
    ensures !IsPushed(d.t.childOffsets, CrossFocusPairs(d, 0, Pow8(d.t.L - 1)), (v, d.t.childOffsets[0]))
  {
    RootIsSubdivided(d.t, g, v);
    OctantOf(d.t, leaves, g, v, 0);
  }

  lemma OtherOctant(d: Domain, leaves: seq<nat>, g: nat, v: nat, e: nat)
    requires IsExample(d, leaves, g, v) && 0 < e < 8
    ensures var near, q := CrossFocusPairs(d, 0, Pow8(d.t.L - 1)), (v, d.t.childOffsets[0] + e);
            && IsPushed(d.t.childOffsets, near, q)
            && Needs(d.t.childOffsets, d.t.parents, |d.t.prefixes|, near)(q) + 6 == 14 * (d.t.L - g - 1)
  {
    var m, q := Pow8(d.t.L - 1), (v, d.t.childOffsets[0] + e);
    RootIsSubdivided(d.t, g, v);
    OctantOf(d.t, leaves, g, v, e);
    OctantHeights(d.t, g, q.0, q.1);
    NearAcross(d, m, q);
    NeedAcross(d, leaves, g, m, q);
  }

  lemma OctantHeights(t: View, g: nat, v: nat, c: nat)
    requires HeightOf(t, v) == HeightOf(t, c) == t.L - 1 && t.L >= g + 2
    ensures HeightAbove(t, g)(v) + HeightAbove(t, g)(c) == 2 * (t.L - g - 1)
  {
  }

  lemma NeedAcross(d: Domain, leaves: seq<nat>, g: nat, m: nat, q: NodePair)
    requires IsView(d.t, leaves) && IsUniformView(d.t, g) && NothingIsFar(d) && Across(d.t, m)(q)
    requires !IsLeafPair(d.t.childOffsets, q)
    ensures Need(d.t.childOffsets, d.t.parents, |d.t.prefixes|, CrossFocusPairs(d, 0, m), q) + 6 ==
            7 * (HeightAbove(d.t, g)(q.0) + HeightAbove(d.t, g)(q.1))
  {
    AcrossIsDense(d, leaves, m);
    ViewIsUniform(d.t, leaves, g);
    NeedOfFull(d.t.childOffsets, d.t.parents, |d.t.prefixes|, HeightAbove(d.t, g), CrossFocusPairs(d, 0, m),
               Across(d.t, m), q, HeightAbove(d.t, g)(q.0) + HeightAbove(d.t, g)(q.1));
  }

  lemma OctantOf(t: View, leaves: seq<nat>, g: nat, v: nat, e: nat)
    requires IsView(t, leaves) && IsUniformView(t, g) && t.L >= g + 2 && t.childOffsets[0] != 0 && e < 8
    requires v < |t.prefixes| && StartOf(t, v) == 0 && HeightOf(t, v) == t.L - 1
    ensures var c := t.childOffsets[0] + e;
            && c < |t.prefixes| && HeightOf(t, c) == t.L - 1 && !IsLeafPair(t.childOffsets, (v, c))
            && (if e > 0 then Across(t, Pow8(t.L - 1))((v, c)) else IsInside(t, c, 0, Pow8(t.L - 1)))
  {
    ChildOfNode(t, leaves, 0, e);
    OctantStarts(t.L, e);
    assert IsLeafAt(t, g, v);
  }

  lemma OctantStarts(L: nat, e: nat)
    requires L >= 1 && e < 8
    ensures ChildStart(0, L, 0) == 0 && (e > 0 ==> ChildStart(0, L, e) >= Pow8(L - 1))
  {
    AlignedZero(L);
    ChildStarts(0, L);
    NthMonotone(0, L - 1, 0, e);
  }

  // ------------------------------------------------------------- the example exists

  /** Keys at equal distances: the cells of height g. */
  ghost predicate AreUniform(leaves: seq<nat>, g: nat) {
    |leaves| >= 2 && leaves[0] == 0 && Ascending(leaves) && forall k: nat :: k + 1 < |leaves| ==>
    IsUniformCell(leaves, g, k)
  }

  ghost predicate IsUniformCell(leaves: seq<nat>, g: nat, k: nat)
    requires k + 1 < |leaves|
  {
    leaves[k + 1] == leaves[k] + Pow8(g) && Aligned(leaves[k], g)
  }

  /** All cells of height g of an octree with D levels more. */
  method UniformLeaves(g: nat, D: nat) returns (leaves: seq<nat>)
    ensures AreUniform(leaves, g) && Cornerstone(leaves, g + D)
  {
    AlignedZero(g);
    leaves := [0];
    var k := 0;
    while k < Pow8(D)
      invariant k <= Pow8(D) && |leaves| == k + 1 && leaves[0] == 0 && leaves[k] == NthCell(0, g, k)
      invariant Aligned(leaves[k], g)
      invariant Ascending(leaves) && forall i: nat :: i < k ==> IsUniformCell(leaves, g, i)
    {
      ghost var before := leaves;
      AlignedPow8(g, g);
      AlignedAdd(leaves[k], Pow8(g), g);
      leaves := leaves + [leaves[k] + Pow8(g)];
      forall i: nat | i < k + 1 ensures IsUniformCell(leaves, g, i) { assert i < k ==> IsUniformCell(before, g, i); }
      k := k + 1;
    }
    Rebalance.NthPower(0, g, D);
    forall i: nat | i < |leaves| - 1 ensures CellAt(leaves, i) {
      assert IsUniformCell(leaves, g, i);
      CellHeight(leaves[i], g);
    }
  }

  /** The nodes of the uniform octree are subdivided down to height g. */
  lemma UniformNodes(t: View, leaves: seq<nat>, g: nat)
    requires AreUniform(leaves, g) && IsView(t, leaves)
    ensures IsUniformView(t, g)
  {
    forall i: nat | i < |t.prefixes| ensures IsLeafAt(t, g, i) { UniformNode(t, leaves, g, i); }
  }

  lemma UniformNode(t: View, leaves: seq<nat>, g: nat, i: nat)
    requires AreUniform(leaves, g) && IsView(t, leaves) && i < |t.prefixes|
    ensures IsLeafAt(t, g, i)
  {
    assert NodeFits(t, leaves, i);
    UniformCut(leaves, g, StartOf(t, i), HeightOf(t, i));
  }

  lemma UniformCut(leaves: seq<nat>, g: nat, s: nat, h: nat)
    requires AreUniform(leaves, g) && s in leaves && s + Pow8(h) in leaves
    ensures h >= g && (IsCut(leaves, s, h) <==> h > g)
  {
    var k: nat :| k < |leaves| && leaves[k] == s;
    var l: nat :| l < |leaves| && leaves[l] == s + Pow8(h);
    assert k < l && IsUniformCell(leaves, g, k);
    assert leaves[k + 1] <= leaves[l];
    if h < g { Pow8Monotone(h + 1, g); }
    if h > g {
      Pow8Monotone(g + 1, h);
      assert leaves[k + 1] in leaves;
    } else if c: nat :| c in leaves && s < c < s + Pow8(h) {
      var m: nat :| m < |leaves| && leaves[m] == c;
      NoKeyInside(leaves, m, k);
    }
  }

  /** With an ellipse of twice the size of the grid, that is with a very small opening angle, nothing is far. */
  function HugeEllipse(n: nat): (space: Space)
    requires n > 0
    ensures IsSpace(space, n)
  {
    Space(0, 0, 0, (2 * n) as real, (2 * n) as real, (2 * n) as real)
  }

  lemma ScaledIsSmall(x: nat, n: nat)
    requires x <= n && n > 0
    ensures Scaled(x, (2 * n) as real) <= 0.25
  {
    QuotientGrows(x as real, n as real, (2 * n) as real);
    assert n as real / (2 * n) as real == 0.5;
    SquareGrows(x as real / (2 * n) as real, 0.5);
  }

  lemma SeparationFits(a: nat, b: nat, c: nat, d: nat, n: nat)
    requires a <= b <= n && c <= d <= n
    ensures RangeSep(a, b, c, d, 0) <= n
  {
  }

  lemma NothingFarInHugeEllipse(a: Box, b: Box, n: nat)
    requires n > 0 && IsBox(a, n) && IsBox(b, n) && MaxExtent(a) >= 1
    ensures !MinMacMutualInt(a, b, MacGrid(n, 0, 0, 0, (2 * n) as real, (2 * n) as real, (2 * n) as real))
  {
    SeparationFits(a.xmin, a.xmax, b.xmin, b.xmax, n);
    SeparationFits(a.ymin, a.ymax, b.ymin, b.ymax, n);
    SeparationFits(a.zmin, a.zmax, b.zmin, b.zmax, n);
    HugeEllipseFar(RangeSep(a.xmin, a.xmax, b.xmin, b.xmax, 0), RangeSep(a.ymin, a.ymax, b.ymin, b.ymax, 0),
                   RangeSep(a.zmin, a.zmax, b.zmin, b.zmax, 0), MaxOf(MaxExtent(a), MaxExtent(b)), n);
  }

  lemma HugeEllipseFar(x: nat, y: nat, z: nat, l: nat, n: nat)
    requires n > 0 && x <= n && y <= n && z <= n && l >= 1
    ensures !EllipseFar((2 * n) as real, (2 * n) as real, (2 * n) as real)(x, y, z, l)
  {
    var e := (2 * n) as real;
    ScaledIsSmall(x, n);
    ScaledIsSmall(y, n);
    ScaledIsSmall(z, n);
    AtLeastOne(l);
    assert Scaled(x, e) + Scaled(y, e) + Scaled(z, e) <= 0.75;
  }

  lemma AtLeastOne(l: nat)
    requires l >= 1
    ensures l as real * l as real >= 1.0
  {
    SquareGrows(1.0, l as real);
  }

  lemma NothingIsFarInExample(t: View, leaves: seq<nat>, bounds: seq<nat>, boxes: seq<Box>)
    requires IsView(t, leaves) && AreNodeBoxes(t, boxes)
    ensures NothingIsFar(HilbertDomain(t, bounds, boxes, HugeEllipse(Curves.Pow2(t.L))))
  {
    var n := Curves.Pow2(t.L);
    var d := HilbertDomain(t, bounds, boxes, HugeEllipse(n));
    forall i: nat, j: nat | i < |t.prefixes| && j < |t.prefixes| ensures !MinMacMutualInt(d.box(i), d.box(j), d.grid) {
      NodeBoxNests(t, leaves, boxes, i);
      NodeBoxNests(t, leaves, boxes, j);
      assert IsNodeBox(t, boxes, i);
      NothingFarInHugeEllipse(boxes[i], boxes[j], n);
    }
  }

  /** With at least 11 levels there is an octree, split between two ranks on the Hilbert curve, for which the peer
      search of the first rank overflows its stack. */
  method OverflowingSearch(L: nat) returns (t: View, bounds: seq<nat>, boxes: seq<Box>, ghost leaves: seq<nat>)
    requires L >= 11 && 3 * L < 0x1_0000_0000
    ensures t.L == L && IsView(t, leaves) && AreNodeBoxes(t, boxes) && AreRankBounds(bounds, leaves, L)
    ensures |bounds| == 3 && bounds[0] <= bounds[1]
    ensures SearchOverflows(HilbertDomain(t, bounds, boxes, HugeEllipse(Curves.Pow2(L))), 0)
  {
    t, leaves := UniformView(L - 11, 11);
    boxes := NodeBoxes(t, leaves);
    bounds := [0, Pow8(L - 1), Pow8(L)];
    ExampleOverflows(t, leaves, boxes, bounds, L - 11);
  }

  method UniformView(g: nat, D: nat) returns (t: View, ghost leaves: seq<nat>)
    requires 3 * (g + D) < 0x1_0000_0000
    ensures t.L == g + D && IsView(t, leaves) && IsUniformView(t, g)
  {
    var keys := UniformLeaves(g, D);
    leaves := keys;
    var prefixes, childOffsets, parents, levelRange, internalToLeaf, leafToInternal :=
      BuildOctreeCpu(keys, |keys| - 1, (|keys| - 2) / 7, g + D);
    t := View(prefixes, childOffsets, parents, g + D);
    RepresentsIsView(leaves, prefixes, childOffsets, parents, levelRange, internalToLeaf, leafToInternal, g + D);
    UniformNodes(t, leaves, g);
  }

  lemma ExampleOverflows(t: View, leaves: seq<nat>, boxes: seq<Box>, bounds: seq<nat>, g: nat)
    requires IsView(t, leaves) && IsUniformView(t, g) && AreNodeBoxes(t, boxes) && t.L >= g + 11
    requires bounds == [0, Pow8(t.L - 1), Pow8(t.L)]
    ensures AreRankBounds(bounds, leaves, t.L)
    ensures SearchOverflows(HilbertDomain(t, bounds, boxes, HugeEllipse(Curves.Pow2(t.L))), 0)
  {
    NothingIsFarInExample(t, leaves, bounds, boxes);
    var v := FirstOctant(t, leaves, g);
    UniformOverflows(HilbertDomain(t, bounds, boxes, HugeEllipse(Curves.Pow2(t.L))), leaves, g, v);
  }

  /** Exactly the uniform octrees with at least 11 levels overflow. */
  lemma UniformOverflows(d: Domain, leaves: seq<nat>, g: nat, v: nat)
    requires IsExample(d, leaves, g, v) && |d.bounds| > 1 && d.bounds[0] == 0 && d.bounds[1] == Pow8(d.t.L - 1)
    requires Ascending(d.t.prefixes) || d.t.L - g >= 11
    ensures SearchOverflows(d, 0) <==> d.t.L - g >= 11
  {
    var m := Pow8(d.t.L - 1);
    var c := Span.SpanChain(0, m) + [m];
    FirstOctantNeeds(d, leaves, g, v);
    OneSpanningCell(m, d.t.L);
    assert IsCellNode(d.t, v, 0, m);
    if d.t.L - g >= 11 {
      assert NeedsTooMuch(d, 0, v);
      assert IsOverflowAt(d, 0, c, 0);
    } else if i: nat :| IsOverflowAt(d, 0, c, i) {
      var u: nat :| IsCellNode(d.t, u, c[i], c[i + 1]) && NeedsTooMuch(d, 0, u);
      CellHasOneNode(d.t, leaves, 0, m, u, v);
    }
  }

  /** The first child of the root. */
  lemma FirstOctant(t: View, leaves: seq<nat>, g: nat) returns (v: nat)
    requires IsView(t, leaves) && IsUniformView(t, g) && t.L >= g + 2
    ensures v < |t.prefixes| && StartOf(t, v) == 0 && HeightOf(t, v) == t.L - 1
    ensures 0 in leaves && Pow8(t.L - 1) in leaves && Pow8(t.L) in leaves
  {
    assert IsLeafAt(t, g, 0);
    ChildOfNode(t, leaves, 0, 0);
    OctantStarts(t.L, 0);
    v := t.childOffsets[0];
    assert NodeFits(t, leaves, v) && NodeFits(t, leaves, 0);
  }

  /** The range from 0 to a power of 8 is spanned by one cell. */
  lemma OneSpanningCell(m: nat, L: nat)
    requires L >= 1 && m == Pow8(L - 1)
    ensures var c := Span.SpanChain(0, m) + [m]; |c| == 2 && c[0] == 0 && c[1] == m
  {
    AlignedZero(L - 1);
    Span.GreedyStep(0, m, L - 1);
    assert Span.SpanChain(0, m) == [0] + Span.SpanChain(m, m);
  }
}
