/** The peer search with the boxes of the Hilbert curve. */
module HilbertPeers {
  import opened Keys
  import opened CornerstoneArray
  import opened BuildOctree
  import opened Traversal
  import opened OctreeView
  import opened Separation
  import opened Peers
  import Curves
  import Hilbert
  // ------------------------------------------------------------- boxes of nodes

  /** Entry i is the box of node i. */
  ghost predicate AreNodeBoxes(t: View, boxes: seq<Box>) {
    |boxes| == |t.prefixes| && forall i: nat :: i < |boxes| ==> IsNodeBox(t, boxes, i)
  }

  ghost predicate IsNodeBox(t: View, boxes: seq<Box>, i: nat)
    requires i < |boxes|
  {
    boxes[i] == Hilbert.CellBox(t.L, StartOf(t, i), HeightOf(t, i))
  }

  /** `sfcIBox` of every node. */
  method NodeBoxes(t: View, ghost leaves: seq<nat>) returns (boxes: seq<Box>)
    requires IsView(t, leaves)
    ensures AreNodeBoxes(t, boxes)
  {
    boxes := [];
    for i := 0 to |t.prefixes|
      invariant |boxes| == i && forall k: nat :: k < i ==> IsNodeBox(t, boxes, k)
    {
      assert NodeFits(t, leaves, i);
      var box := Hilbert.HilbertIBox(StartOf(t, i), t.L - HeightOf(t, i), t.L);
      ghost var before := boxes;
      boxes := boxes + [box];
      forall k: nat | k < i + 1 ensures IsNodeBox(t, boxes, k) { assert k < i ==> IsNodeBox(t, before, k); }
    }
  }

  /** Periods and ellipse of the simulation box. */
  datatype Space = Space(px: nat, py: nat, pz: nat, ex: real, ey: real, ez: real)

  predicate IsSpace(s: Space, n: nat) {
    IsPeriod(s.px, n) && IsPeriod(s.py, n) && IsPeriod(s.pz, n) && s.ex > 0.0 && s.ey > 0.0 && s.ez > 0.0
  }

  function HilbertDomain(t: View, bounds: seq<nat>, boxes: seq<Box>, space: Space): (d: Domain)
    requires IsSpace(space, Curves.Pow2(t.L))
  {
    Domain(t, bounds, (i: nat) => if i < |boxes| then boxes[i] else Box(0, 0, 0, 0, 0, 0),
           MacGrid(Curves.Pow2(t.L), space.px, space.py, space.pz, space.ex, space.ey, space.ez))
  }

  /** Boundaries of ranks: leaf keys of the octree. */
  ghost predicate AreRankBounds(bounds: seq<nat>, leaves: seq<nat>, L: nat) {
    && |bounds| > 1 && bounds[0] == 0 && bounds[|bounds| - 1] == Pow8(L)
    && (forall i: nat, j: nat :: i <= j < |bounds| ==> bounds[i] <= bounds[j])
    && forall q: nat :: q < |bounds| ==> bounds[q] in leaves
  }

  /** The boxes of the Hilbert curve nest, and the program's criterion is monotone: all results about the peer
      search hold for them. */
  lemma HilbertIsDomain(t: View, bounds: seq<nat>, boxes: seq<Box>, space: Space, leaves: seq<nat>)
    requires IsView(t, leaves) && AreNodeBoxes(t, boxes) && IsSpace(space, Curves.Pow2(t.L))
    requires AreRankBounds(bounds, leaves, t.L)
    ensures IsDomain(HilbertDomain(t, bounds, boxes, space), leaves)
  {
    var d := HilbertDomain(t, bounds, boxes, space);
    MacGridIsGrid(Curves.Pow2(t.L), space.px, space.py, space.pz, space.ex, space.ey, space.ez);
    forall i: nat | i < |t.prefixes| ensures BoxNests(d, i) { NodeBoxNests(t, leaves, boxes, i); }
  }

  lemma NodeBoxNests(t: View, leaves: seq<nat>, boxes: seq<Box>, i: nat)
    requires IsView(t, leaves) && AreNodeBoxes(t, boxes) && i < |t.prefixes|
    ensures Parent(t.parents, i) < |boxes| && IsBox(boxes[i], Curves.Pow2(t.L))
    ensures Contains(boxes[Parent(t.parents, i)], boxes[i])
  {
    var p := Parent(t.parents, i);
    ParentAround(t, leaves, i);
    assert NodeFits(t, leaves, i) && NodeFits(t, leaves, p);
    assert IsNodeBox(t, boxes, i) && IsNodeBox(t, boxes, p);
    EndInTree(t, leaves, p);
    if i > 0 { assert ChildFits(t, i); }
    Hilbert.BoxesNest(t.L, StartOf(t, i), HeightOf(t, i), StartOf(t, p), HeightOf(t, p));
  }

  /** Leaves i and j are too close for the acceptance criterion. */
  ghost predicate AreTooClose(t: View, space: Space, i: nat, j: nat)
    requires IsSpace(space, Curves.Pow2(t.L))
  {
    !MinMacMutualInt(Hilbert.CellBox(t.L, StartOf(t, i), HeightOf(t, i)),
                     Hilbert.CellBox(t.L, StartOf(t, j), HeightOf(t, j)),
                     MacGrid(Curves.Pow2(t.L), space.px, space.py, space.pz, space.ex, space.ey, space.ez))
  }

  ghost predicate IsOwnLeaf(t: View, bounds: seq<nat>, i: nat, q: nat) {
    i < |t.prefixes| && i < |t.childOffsets| && t.childOffsets[i] == 0 && q + 1 < |bounds| &&
    bounds[q] <= StartOf(t, i) && EndOf(t, i) <= bounds[q + 1]
  }

  /** Another rank q has a leaf that is too close to a leaf of rank r. */
  ghost predicate AreHilbertPeers(t: View, bounds: seq<nat>, space: Space, r: nat, q: nat)
    requires IsSpace(space, Curves.Pow2(t.L))
  {
    q != r && exists i: nat, j: nat ::
    IsOwnLeaf(t, bounds, i, r) && IsOwnLeaf(t, bounds, j, q) && AreTooClose(t, space, i, j)
  }

  lemma PeersAreHilbertPeers(t: View, bounds: seq<nat>, boxes: seq<Box>, space: Space, r: nat, q: nat)
    requires AreNodeBoxes(t, boxes) && IsSpace(space, Curves.Pow2(t.L))
    ensures IsPeer(HilbertDomain(t, bounds, boxes, space), r, q) <==> AreHilbertPeers(t, bounds, space, r, q)
  {
    var d := HilbertDomain(t, bounds, boxes, space);
    forall i: nat, j: nat
      ensures IsClosePair(d, r, q, i, j) <==>
              IsOwnLeaf(t, bounds, i, r) && IsOwnLeaf(t, bounds, j, q) && AreTooClose(t, space, i, j)
    {
      if i < |boxes| && j < |boxes| { assert IsNodeBox(t, boxes, i) && IsNodeBox(t, boxes, j); }
    }
    if IsPeer(d, r, q) { var i: nat, j: nat :| IsClosePair(d, r, q, i, j); }
    if AreHilbertPeers(t, bounds, space, r, q) {
      var i: nat, j: nat :| IsOwnLeaf(t, bounds, i, r) && IsOwnLeaf(t, bounds, j, q) && AreTooClose(t, space, i, j);
      assert IsClosePair(d, r, q, i, j);
    }
  }

  /** Being peers on the Hilbert curve is mutual. */
  lemma HilbertPeersAreMutual(t: View, bounds: seq<nat>, boxes: seq<Box>, space: Space, leaves: seq<nat>, r: nat,
                              q: nat)
    requires IsView(t, leaves) && AreNodeBoxes(t, boxes) && IsSpace(space, Curves.Pow2(t.L))
    requires AreRankBounds(bounds, leaves, t.L)
    ensures AreHilbertPeers(t, bounds, space, r, q) <==> AreHilbertPeers(t, bounds, space, q, r)
  {
    HilbertIsDomain(t, bounds, boxes, space, leaves);
    PeersAreHilbertPeers(t, bounds, boxes, space, r, q);
    PeersAreHilbertPeers(t, bounds, boxes, space, q, r);
    PeersAreMutual(HilbertDomain(t, bounds, boxes, space), leaves, r, q);
  }

  /** `findPeersMac` on a linked octree: unless a traversal overflows its stack, exactly the peers. */
  method FindHilbertPeers(t: View, bounds: seq<nat>, space: Space, myRank: nat, levelRange: seq<nat>,
                          ghost leaves: seq<nat>)
    returns (overflow: bool, ret: seq<nat>, ghost boxes: seq<Box>)
    requires IsView(t, leaves) && IsSpace(space, Curves.Pow2(t.L)) && AreRankBounds(bounds, leaves, t.L)
    requires myRank + 1 < |bounds|
    requires Ascending(t.prefixes) && NodesListed(leaves, t.prefixes, t.L)
    requires LevelsDelimited(t.prefixes, levelRange, t.L) && IsLevelRange(t.prefixes, levelRange, t.L)
    ensures AreNodeBoxes(t, boxes) && bounds[myRank] <= bounds[myRank + 1]
    ensures overflow <==> SearchOverflows(HilbertDomain(t, bounds, boxes, space), myRank)
    ensures !overflow ==> Ascending(ret) && forall q: nat :: q in ret <==> AreHilbertPeers(t, bounds, space, myRank, q)
    ensures t.L <= 10 ==> !overflow
  {
    var nodeBoxes := NodeBoxes(t, leaves);
    boxes := nodeBoxes;
    var d := HilbertDomain(t, bounds, nodeBoxes, space);
    HilbertIsDomain(t, bounds, boxes, space, leaves);
    overflow, ret := FindPeersMac(d, myRank, levelRange, leaves);
    forall q: nat { PeersAreHilbertPeers(t, bounds, boxes, space, myRank, q); }
    if t.L <= 10 { TenLevelsFit(d, leaves, myRank); }
  }
}
