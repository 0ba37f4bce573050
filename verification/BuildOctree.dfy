/** `OctreeData` and its construction from the leaves. */
module BuildOctree {
  import opened Keys
  import opened CornerstoneArray
  import opened Counts
  import opened ComputeOctree
  import opened InOrder
  import opened OctreeLinks
  import opened LinkedOctree
  import LeafUpdate
  // ------------------------------------------------------------- sort by key

  ghost predicate DistinctKeys(keys: seq<nat>) {
    forall i, j :: 0 <= i < j < |keys| ==> keys[i] != keys[j]
  }

  /** Index of the first of the listed elements whose key is above that of element x. */
  function InsertPosition(keys: seq<nat>, order: seq<nat>, x: nat): (k: nat)
    requires x < |keys| && forall i: nat :: i < |order| ==> order[i] < |keys|
    ensures k <= |order|
    ensures forall i: nat :: i < k ==> keys[order[i]] <= keys[x]
    ensures k < |order| ==> keys[order[k]] > keys[x]
  {
    if order == [] || keys[order[0]] > keys[x] then 0
    else 1 + InsertPosition(keys, order[1..], x)
  }

  ghost predicate SortedBy(keys: seq<nat>, order: seq<nat>) {
    && (forall i: nat :: i < |order| ==> order[i] < |keys|)
    && forall i, j :: 0 <= i < j < |order| ==> keys[order[i]] < keys[order[j]]
  }

  /** The order in which `sort_by_key` arranges the first n elements. */
  function SortOrder(keys: seq<nat>, n: nat): (order: seq<nat>)
    requires DistinctKeys(keys) && n <= |keys|
    ensures |order| == n && SortedBy(keys, order)
    ensures forall u: nat :: u < n <==> u in order
  {
    if n == 0 then [] else
      var order := SortOrder(keys, n - 1);
      var k := InsertPosition(keys, order, n - 1);
      InsertKeepsOrder(keys, order, n - 1, k);
      order[..k] + [n - 1] + order[k..]
  }

  lemma InsertKeepsOrder(keys: seq<nat>, order: seq<nat>, x: nat, k: nat)
    requires DistinctKeys(keys) && x < |keys| && SortedBy(keys, order) && k <= |order|
    requires forall u: nat :: u < x <==> u in order
    requires forall i: nat :: i < k ==> keys[order[i]] <= keys[x]
    requires k < |order| ==> keys[order[k]] > keys[x]
    ensures SortedBy(keys, order[..k] + [x] + order[k..])
    ensures forall u: nat :: u < x + 1 <==> u in order[..k] + [x] + order[k..]
  {
    var r := order[..k] + [x] + order[k..];
    assert order == order[..k] + order[k..];
    forall i: nat | i < k ensures keys[order[i]] < keys[x] {
      assert order[i] in order;
    }
    forall u: nat ensures u < x + 1 <==> u in r {
      assert u in r <==> u in order || u == x;
    }
  }

  // ------------------------------------------------------------- representation

  /** Exactly the nodes of the octree are listed. */
  ghost predicate NodesListed(leaves: seq<nat>, prefixes: seq<nat>, L: nat) {
    && (forall i: nat :: i < |prefixes| ==> IsNodeCode(leaves, prefixes[i], L))
    && forall s: nat, h: nat :: NodeIn(leaves, s, h, L) ==> Code(s, h, L) in prefixes
  }

  ghost predicate IsNodeCode(leaves: seq<nat>, code: nat, L: nat) {
    exists s: nat, h: nat :: NodeIn(leaves, s, h, L) && code == Code(s, h, L)
  }

  /** Leaf j has its code and index in the sorted order, and no children. */
  ghost predicate LeafMapped(leaves: seq<nat>, prefixes: seq<nat>, childOffsets: seq<nat>,
                             internalToLeaf: seq<int>, leafToInternal: seq<nat>, j: nat, L: nat)
    requires j + 1 < |leaves| && |leafToInternal| >= |leaves| - 1
    requires |prefixes| <= |childOffsets| && |prefixes| <= |internalToLeaf|
  {
    var i := leafToInternal[|leafToInternal| - (|leaves| - 1) + j];
    i < |prefixes| && prefixes[i] == LeafCode(leaves, j, L) && childOffsets[i] == 0 && internalToLeaf[i] == j
  }

  /** Node i has no children if and only if it is a leaf, and then the maps lead back to it. */
  ghost predicate NodeMapped(leaves: seq<nat>, prefixes: seq<nat>, childOffsets: seq<nat>,
                             internalToLeaf: seq<int>, leafToInternal: seq<nat>, i: nat)
    requires |leaves| > 0 && |leafToInternal| >= |leaves| - 1
    requires i < |prefixes| && |prefixes| <= |childOffsets| && |prefixes| <= |internalToLeaf|
  {
    && (childOffsets[i] == 0 <==> internalToLeaf[i] >= 0)
    && (internalToLeaf[i] >= 0 ==>
          internalToLeaf[i] < |leaves| - 1 &&
          leafToInternal[|leafToInternal| - (|leaves| - 1) + internalToLeaf[i]] == i)
  }

  /** The index range of level l contains node i exactly if i is on level l. */
  ghost predicate NodeOnLevel(prefixes: seq<nat>, levelRange: seq<nat>, l: nat, i: nat)
    requires i < |prefixes| && l + 1 < |levelRange|
  {
    levelRange[l] <= i < levelRange[l + 1] <==> Log8(prefixes[i]) == l
  }

  ghost predicate LevelsDelimited(prefixes: seq<nat>, levelRange: seq<nat>, L: nat) {
    && |levelRange| == L + 2
    && forall l: nat, i: nat :: l <= L && i < |prefixes| ==> NodeOnLevel(prefixes, levelRange, l, i)
  }

  ghost predicate StartsLevel(prefixes: seq<nat>, first: nat, l: nat) {
    first == LowerBound(prefixes, Pow8(l))
  }

  /** Entry l of the level range is the position of the first code of level l or higher. */
  ghost predicate IsLevelStart(prefixes: seq<nat>, levelRange: seq<nat>, l: nat)
    requires l < |levelRange|
  {
    if l + 1 < |levelRange| then StartsLevel(prefixes, levelRange[l], l) else levelRange[l] == |prefixes|
  }

  ghost predicate IsLevelRange(prefixes: seq<nat>, levelRange: seq<nat>, L: nat) {
    |levelRange| == L + 2 && forall l: nat :: l <= L + 1 ==> IsLevelStart(prefixes, levelRange, l)
  }

  /** The arrays are the sorted, linked octree of the leaves. */
  ghost predicate Represents(leaves: seq<nat>, prefixes: seq<nat>, childOffsets: seq<nat>, parents: seq<nat>,
                             levelRange: seq<nat>, internalToLeaf: seq<int>, leafToInternal: seq<nat>, L: nat) {
    && Cornerstone(leaves, L)
    && Linked(prefixes, childOffsets, parents)
    && NodesListed(leaves, prefixes, L)
    && LevelsDelimited(prefixes, levelRange, L) && IsLevelRange(prefixes, levelRange, L)
    && |prefixes| == |internalToLeaf| == |leafToInternal| == |leaves| - 1 + (|leaves| - 2) / 7
    && (forall j: nat :: j + 1 < |leaves| ==>
          LeafMapped(leaves, prefixes, childOffsets, internalToLeaf, leafToInternal, j, L))
    && (forall i: nat :: i < |prefixes| ==>
          NodeMapped(leaves, prefixes, childOffsets, internalToLeaf, leafToInternal, i))
  }

  /** The sorted codes of the layout, and the positions of the codes. */
  ghost predicate SortedLayout(leaves: seq<nat>, p: seq<nat>, order: seq<nat>, position: seq<nat>, L: nat)
    requires |leaves| > 0
  {
    var U := UnsortedCodes(leaves, L);
    && |p| == |order| == |position| == |U| && Ascending(p)
    && (forall i: nat :: i < |p| ==> order[i] < |U| && p[i] == U[order[i]] && position[order[i]] == i)
    && (forall u: nat :: u < |U| ==> position[u] < |p| && p[position[u]] == U[u] && order[position[u]] == u)
  }

  lemma SortedLayoutCodes(leaves: seq<nat>, p: seq<nat>, order: seq<nat>, position: seq<nat>, L: nat)
    requires Cornerstone(leaves, L) && 3 * L < 0x1_0000_0000 && SortedLayout(leaves, p, order, position, L)
    ensures KeySet(p) == KeySet(UnsortedCodes(leaves, L)) && TreeCodes(KeySet(p))
    ensures NodesListed(leaves, p, L)
  {
    var U := UnsortedCodes(leaves, L);
    forall c: nat ensures c in p <==> c in U {
      if c in p { var i: nat :| i < |p| && p[i] == c; }
      if c in U { var u: nat :| u < |U| && U[u] == c; assert p[position[u]] == c; }
    }
    CodesAreTree(leaves, L);
    forall i: nat | i < |p| ensures IsNodeCode(leaves, p[i], L) {
      var s, h := NodeOfCode(leaves, order[i], L);
    }
    forall s: nat, h: nat | NodeIn(leaves, s, h, L) ensures Code(s, h, L) in p {
      CodeOfNode(leaves, s, h, L);
    }
  }

  lemma CutHasChildCode(leaves: seq<nat>, p: seq<nat>, s: nat, h: nat, L: nat)
    requires Cornerstone(leaves, L) && NodesListed(leaves, p, L) && NodeIn(leaves, s, h, L) && IsCut(leaves, s, h)
    ensures h >= 1 && Code(s, h - 1, L) == 8 * Code(s, h, L) && 8 * Code(s, h, L) in p
  {
    assert h >= 1;
    var k: nat :| k in leaves && s < k < s + Pow8(h);
    ArrayToSet(leaves, L);
    CutCellIsNode(KeySet(leaves), L, s, h, k);
    ChildIsNode(leaves, s, h, 0, L);
    ChildCode(s, h, 0, L);
  }

  lemma ChildCodeMeansCut(leaves: seq<nat>, p: seq<nat>, s: nat, h: nat, L: nat)
    requires Cornerstone(leaves, L) && NodesListed(leaves, p, L) && NodeIn(leaves, s, h, L)
    requires 8 * Code(s, h, L) in p
    ensures IsCut(leaves, s, h)
  {
    var i: nat :| i < |p| && p[i] == 8 * Code(s, h, L);
    assert IsNodeCode(leaves, p[i], L);
    var t: nat, g: nat :| NodeIn(leaves, t, g, L) && p[i] == Code(t, g, L);
    FirstChildIs(s, h, t, g, L);
    assert t + Pow8(g) in leaves;
    Pow8Monotone(g, h);
  }

  /** A node has a first child in the list if and only if it is an internal node. */
  lemma ChildListed(leaves: seq<nat>, p: seq<nat>, s: nat, h: nat, L: nat)
    requires Cornerstone(leaves, L) && NodesListed(leaves, p, L) && NodeIn(leaves, s, h, L)
    ensures 8 * Code(s, h, L) in p <==> IsCut(leaves, s, h)
    ensures IsCut(leaves, s, h) ==> h >= 1 && Code(s, h - 1, L) == 8 * Code(s, h, L)
  {
    if IsCut(leaves, s, h) { CutHasChildCode(leaves, p, s, h, L); }
    if 8 * Code(s, h, L) in p { ChildCodeMeansCut(leaves, p, s, h, L); }
  }

  /** Only the first child of a cell has 8 times its code. */
  lemma FirstChildIs(s: nat, h: nat, t: nat, g: nat, L: nat)
    requires h <= L && g <= L && s < Pow8(L) && t < Pow8(L) && Aligned(s, h) && Aligned(t, g)
    requires Code(t, g, L) == 8 * Code(s, h, L)
    ensures h >= 1 && t == s && g == h - 1
  {
    CodeLevel(s, h, L);
    CodeLevel(t, g, L);
    assert Log8(8 * Code(s, h, L)) == 1 + Log8(Code(s, h, L));
    ChildCode(s, h, 0, L);
    AlignedWeaken(s, h - 1, h);
    CodeInjective(t, g, s, h - 1, L);
  }

  // ------------------------------------------------------------- levels

  function FirstOfLevel(nodeKeys: seq<nat>, level: nat, L: nat): (first: nat)
    requires level <= L
    ensures StartsLevel(nodeKeys, first, level)
  {
    ShiftOfZero(L - level);
    LowerBound(nodeKeys, EncodePlaceholderBit(0, level, L))
  }

  /** Level boundaries by binary search for the smallest code of each level. */
  method GetLevelRange(nodeKeys: seq<nat>, L: nat) returns (levelRange: seq<nat>)
    ensures IsLevelRange(nodeKeys, levelRange, L)
  {
    levelRange := [];
    var level := 0;
    while level <= L
      invariant level <= L + 1 && |levelRange| == level
      invariant forall l: nat :: l < level ==> StartsLevel(nodeKeys, levelRange[l], l)
    {
      var first := FirstOfLevel(nodeKeys, level, L);
      levelRange := levelRange + [first];
      level := level + 1;
    }
    levelRange := levelRange + [|nodeKeys|];
    assert forall l: nat :: l <= L ==> StartsLevel(nodeKeys, levelRange[l], l);
    assert forall l: nat :: l <= L + 1 ==> IsLevelStart(nodeKeys, levelRange, l);
  }

  lemma LevelsByLowerBound(p: seq<nat>, levelRange: seq<nat>, L: nat)
    requires Ascending(p) && IsLevelRange(p, levelRange, L)
    requires forall i: nat :: i < |p| ==> 1 <= p[i] && Log8(p[i]) <= L
    ensures LevelsDelimited(p, levelRange, L)
  {
    forall l: nat, i: nat | l <= L && i < |p| ensures NodeOnLevel(p, levelRange, l, i) {
      assert IsLevelStart(p, levelRange, l) && IsLevelStart(p, levelRange, l + 1);
      LevelOfPosition(p, l, i);
      LevelOfPosition(p, l + 1, i);
    }
  }

  lemma {:induction false} ShiftOfZero(h: nat)
    ensures Shift(0, h) == 0
  {
    if h > 0 { ShiftOfZero(h - 1); }
  }

  lemma {:induction false} Log8AtLeast(c: nat, l: nat)
    requires c >= 1
    ensures Log8(c) >= l <==> c >= Pow8(l)
  {
    if l > 0 && c >= 8 { Log8AtLeast(c / 8, l - 1); }
  }

  lemma LevelOfPosition(p: seq<nat>, l: nat, i: nat)
    requires Ascending(p) && i < |p| && p[i] >= 1
    ensures LowerBound(p, Pow8(l)) <= i <==> Log8(p[i]) >= l
  {
    Log8AtLeast(p[i], l);
    var b := LowerBound(p, Pow8(l));
    if b <= i { assert p[b] <= p[i]; }
  }

  // ------------------------------------------------------------- links

  /** Links of the nodes that have been processed; all others have no children yet. */
  ghost predicate LinksSoFar(p: seq<nat>, childOffsets: seq<nat>, parents: seq<nat>, leafToInternal: seq<nat>, n: nat)
    requires n <= |leafToInternal|
  {
    && |p| <= |childOffsets| && (|p| - 1) / 8 <= |parents|
    && (forall k: nat :: k < |p| && childOffsets[k] != 0 ==>
          childOffsets[k] == ChildOffset(p, k) && (childOffsets[k] - 1) / 8 < |parents| &&
          parents[(childOffsets[k] - 1) / 8] == k)
    && (forall u: nat :: u < n ==>
          leafToInternal[u] < |p| && childOffsets[leafToInternal[u]] == ChildOffset(p, leafToInternal[u]))
  }

  /** Find the first child of a node among the nodes of the next level. */
  method FindChild(p: seq<nat>, idxA: nat, levelRange: seq<nat>, L: nat) returns (childIdx: nat, found: bool)
    requires Ascending(p) && IsLevelRange(p, levelRange, L) && HasFirstChild(p, idxA, L)
    ensures found && childIdx == PosOf(p, 8 * p[idxA])
  {
    ghost var s: nat, h: nat :| 1 <= h <= L && s < Pow8(L) && Aligned(s, h) && p[idxA] == Code(s, h, L);
    ChildSearch(p, idxA, levelRange, L, s, h);
    var prefix := p[idxA];
    var nodeKey := DecodePlaceholderBit(prefix, L);
    var level := Log8(prefix);
    var childPrefix := EncodePlaceholderBit(nodeKey, level + 1, L);
    var searchStart, searchEnd := levelRange[level + 1], levelRange[level + 2];
    childIdx := searchStart + LowerBound(p[searchStart..searchEnd], childPrefix);
    found := childIdx != searchEnd && childPrefix == p[childIdx];
  }

  /** The search among the nodes of the next level finds what a search among all nodes finds. */
  lemma ChildSearch(p: seq<nat>, idxA: nat, levelRange: seq<nat>, L: nat, s: nat, h: nat)
    requires Ascending(p) && idxA < |p| && IsLevelRange(p, levelRange, L)
    requires 1 <= h <= L && s < Pow8(L) && Aligned(s, h) && p[idxA] == Code(s, h, L)
    requires 8 * p[idxA] in p
    ensures var c := 8 * p[idxA]; var l := Log8(p[idxA]);
            && l < L && EncodePlaceholderBit(DecodePlaceholderBit(p[idxA], L), l + 1, L) == c
            && levelRange[l + 1] <= PosOf(p, c) < levelRange[l + 2] <= |p|
            && levelRange[l + 1] + LowerBound(p[levelRange[l + 1]..levelRange[l + 2]], c) == PosOf(p, c)
  {
    var c, l := 8 * p[idxA], Log8(p[idxA]);
    DecodeEncode(s, h, L);
    ChildCode(s, h, 0, L);
    assert Log8(c) == l + 1;
    var pos := PosOf(p, c);
    assert IsLevelStart(p, levelRange, l + 1) && IsLevelStart(p, levelRange, l + 2);
    LowerBoundIs(p, c, pos);
    LevelOfPosition(p, l + 1, pos);
    if l + 2 <= L { LevelOfPosition(p, l + 2, pos); }
    LowerBoundInRange(p, c, levelRange[l + 1], levelRange[l + 2]);
  }

  lemma LinkStep(p: seq<nat>, childOffsets: seq<nat>, parents: seq<nat>, leafToInternal: seq<nat>, n: nat)
    requires n < |leafToInternal| && LinksSoFar(p, childOffsets, parents, leafToInternal, n)
    requires Ascending(p) && TreeCodes(KeySet(p))
    requires leafToInternal[n] < |p| && 8 * p[leafToInternal[n]] in p
    ensures var i := leafToInternal[n]; var c := ChildOffset(p, i);
            && c >= 1 && (c - 1) / 8 < |parents|
            && LinksSoFar(p, childOffsets[i := c], parents[(c - 1) / 8 := i], leafToInternal, n + 1)
  {
    var i := leafToInternal[n];
    var c := ChildOffset(p, i);
    RootFirst(p);
    FirstChildBlock(p, i);
    var co, pa := childOffsets[i := c], parents[(c - 1) / 8 := i];
    forall k: nat | k < |p| && co[k] != 0
      ensures co[k] == ChildOffset(p, k) && (co[k] - 1) / 8 < |pa| && pa[(co[k] - 1) / 8] == k
    {
      if k != i { DifferentGroups(p, i, k); }
    }
  }

  lemma DifferentGroups(p: seq<nat>, i: nat, k: nat)
    requires Ascending(p) && TreeCodes(KeySet(p)) && i < |p| && k < |p| && i != k
    requires ChildOffset(p, i) != 0 && ChildOffset(p, k) != 0
    ensures (ChildOffset(p, i) - 1) / 8 != (ChildOffset(p, k) - 1) / 8
  {
    FirstChildBlock(p, i);
    FirstChildBlock(p, k);
    LeafUpdate.UniqueIndex(p, i, k);
  }

  lemma FirstChildBlock(p: seq<nat>, i: nat)
    requires Ascending(p) && TreeCodes(KeySet(p)) && i < |p| && ChildOffset(p, i) != 0
    ensures var c := ChildOffset(p, i); p[c] == 8 * p[i] && c % 8 == 1 && c + 8 <= |p|
  {
    RootFirst(p);
    SiblingBlock(p, ChildOffset(p, i));
  }

  /** Node i is listed together with its first child. */
  ghost predicate HasFirstChild(p: seq<nat>, i: nat, L: nat) {
    && i < |p| && 8 * p[i] in p
    && exists s: nat, h: nat :: 1 <= h <= L && s < Pow8(L) && Aligned(s, h) && p[i] == Code(s, h, L)
  }

  /** Link every internal node to its first child, and the group of its children to it. */
  method LinkTree(p: seq<nat>, numInternalNodes: nat, leafToInternal: seq<nat>, levelRange: seq<nat>,
                  parentSize: nat, L: nat)
    returns (childOffsets: seq<nat>, parents: seq<nat>)
    requires Ascending(p) && TreeCodes(KeySet(p)) && IsLevelRange(p, levelRange, L)
    requires numInternalNodes <= |leafToInternal| && parentSize >= (|p| - 1) / 8
    requires forall u: nat :: u < numInternalNodes ==> HasFirstChild(p, leafToInternal[u], L)
    ensures |childOffsets| == |p| + 1
    ensures LinksSoFar(p, childOffsets, parents, leafToInternal, numInternalNodes)
  {
    childOffsets := seq(|p| + 1, _ => 0);
    parents := seq(parentSize, _ => 0);
    var i := 0;
    while i < numInternalNodes
      invariant i <= numInternalNodes && |childOffsets| == |p| + 1
      invariant LinksSoFar(p, childOffsets, parents, leafToInternal, i)
    {
      var idxA := leafToInternal[i];
      assert HasFirstChild(p, idxA, L);
      LinkStep(p, childOffsets, parents, leafToInternal, i);
      var childIdx, found := FindChild(p, idxA, levelRange, L);
      if found {
        childOffsets := childOffsets[idxA := childIdx];
        parents := parents[(childIdx - 1) / 8 := idxA];
      }
      i := i + 1;
    }
  }

  /** When all internal nodes have been processed, no link is missing. */
  lemma LinksComplete(leaves: seq<nat>, p: seq<nat>, order: seq<nat>, leafToInternal: seq<nat>,
                      childOffsets: seq<nat>, parents: seq<nat>, L: nat)
    requires Cornerstone(leaves, L) && 3 * L < 0x1_0000_0000
    requires SortedLayout(leaves, p, order, leafToInternal, L)
    requires LinksSoFar(p, childOffsets, parents, leafToInternal, FlagCount(leaves, |leaves| - 1, L))
    ensures LinksFound(p, childOffsets, parents)
  {
    SortedLayoutCodes(leaves, p, order, leafToInternal, L);
    forall k: nat | k < |p| ensures childOffsets[k] == ChildOffset(p, k) {
      if ChildOffset(p, k) != 0 {
        var s, h := NodeOfCode(leaves, order[k], L);
        ChildListed(leaves, p, s, h, L);
        assert leafToInternal[order[k]] == k;
      }
    }
  }

  lemma InternalHasChild(leaves: seq<nat>, p: seq<nat>, order: seq<nat>, leafToInternal: seq<nat>, u: nat, L: nat)
    requires Cornerstone(leaves, L) && 3 * L < 0x1_0000_0000
    requires SortedLayout(leaves, p, order, leafToInternal, L)
    requires u < FlagCount(leaves, |leaves| - 1, L)
    ensures HasFirstChild(p, leafToInternal[u], L)
  {
    SortedLayoutCodes(leaves, p, order, leafToInternal, L);
    var s, h := NodeOfCode(leaves, u, L);
    ChildListed(leaves, p, s, h, L);
  }

  // ------------------------------------------------------------- OctreeData

  class OctreeData {
    var numLeafNodes: nat
    var numInternalNodes: nat
    var numNodes: nat
    var prefixes: seq<nat>
    var childOffsets: seq<nat>
    var parents: seq<nat>
    var levelRange: seq<nat>
    var internalToLeaf: seq<int>
    var leafToInternal: seq<nat>

    constructor ()
    {
      numLeafNodes, numInternalNodes, numNodes := 0, 0, 0;
      prefixes, childOffsets, parents, levelRange, internalToLeaf, leafToInternal := [], [], [], [], [], [];
    }

    /** The fields are the octree of the leaves. */
    ghost predicate IsOctree(leaves: seq<nat>, L: nat)
      reads this
    {
      && Represents(leaves, prefixes, childOffsets, parents, levelRange, internalToLeaf, leafToInternal, L)
      && numLeafNodes == |leaves| - 1 && numInternalNodes == (numLeafNodes - 1) / 7
      && numNodes == numLeafNodes + numInternalNodes
    }

    /** Rebuild everything from the leaves: `resize` and `buildOctreeCpu`. */
    method UpdateInternalTree(leaves: seq<nat>, L: nat)
      requires Cornerstone(leaves, L) && 3 * L < 0x1_0000_0000
      modifies this
      ensures IsOctree(leaves, L)
    {
      numLeafNodes := |leaves| - 1;
      numInternalNodes := (numLeafNodes - 1) / 7;
      numNodes := numLeafNodes + numInternalNodes;
      prefixes, childOffsets, parents, levelRange, internalToLeaf, leafToInternal :=
        BuildOctreeCpu(leaves, numLeafNodes, numInternalNodes, L);
    }
  }

  method BuildOctreeCpu(leaves: seq<nat>, numLeafNodes: nat, numInternalNodes: nat, L: nat)
    returns (prefixes: seq<nat>, childOffsets: seq<nat>, parents: seq<nat>, levelRange: seq<nat>,
             internalToLeaf: seq<int>, leafToInternal: seq<nat>)
    requires Cornerstone(leaves, L) && 3 * L < 0x1_0000_0000
    requires numLeafNodes == |leaves| - 1 && numInternalNodes == (numLeafNodes - 1) / 7
    ensures Represents(leaves, prefixes, childOffsets, parents, levelRange, internalToLeaf, leafToInternal, L)
  {
    var numNodes := numLeafNodes + numInternalNodes;
    NumInternalNodes(leaves, L);
    var codes := new nat[numNodes](_ => 0);
    var indices := new int[numNodes](_ => 0);
    CreateUnsortedLayout(leaves, numInternalNodes, numLeafNodes, codes, indices, L);
    var order;
    prefixes, order, leafToInternal := SortLayout(leaves, codes[..], L);
    internalToLeaf := seq(numNodes, i requires 0 <= i < |order| => order[i] as int - numInternalNodes);
    SortedLayoutCodes(leaves, prefixes, order, leafToInternal, L);
    levelRange := GetLevelRange(prefixes, L);
    CodesInRange(leaves, prefixes, L);
    LevelsByLowerBound(prefixes, levelRange, L);
    var parentSize := if (numNodes - 1) / 8 > 1 then (numNodes - 1) / 8 else 1;
    forall u: nat | u < numInternalNodes ensures HasFirstChild(prefixes, leafToInternal[u], L) {
      InternalHasChild(leaves, prefixes, order, leafToInternal, u, L);
    }
    childOffsets, parents := LinkTree(prefixes, numInternalNodes, leafToInternal, levelRange, parentSize, L);
    LinksComplete(leaves, prefixes, order, leafToInternal, childOffsets, parents, L);
    FoundLinksAreLinked(prefixes, childOffsets, parents);
    MapsAgree(leaves, prefixes, order, leafToInternal, childOffsets, parents, internalToLeaf, L);
  }

  lemma LayoutDistinct(leaves: seq<nat>, L: nat)
    requires Cornerstone(leaves, L) && 3 * L < 0x1_0000_0000
    ensures DistinctKeys(UnsortedCodes(leaves, L))
  {
    var U := UnsortedCodes(leaves, L);
    forall i, j | 0 <= i < j < |U| ensures U[i] != U[j] {
      CodesDistinct(leaves, i, j, L);
    }
  }

  /** `sort_by_key` on the codes, and the inverse of the resulting order. */
  method SortLayout(leaves: seq<nat>, codes: seq<nat>, L: nat)
    returns (p: seq<nat>, order: seq<nat>, position: seq<nat>)
    requires Cornerstone(leaves, L) && 3 * L < 0x1_0000_0000 && codes == UnsortedCodes(leaves, L)
    ensures SortedLayout(leaves, p, order, position, L)
  {
    LayoutDistinct(leaves, L);
    order := SortOrder(codes, |codes|);
    p := seq(|codes|, i requires 0 <= i < |order| && order[i] < |codes| => codes[order[i]]);
    position := seq(|codes|, _ => 0);
    var i := 0;
    while i < |codes|
      invariant i <= |codes| == |position|
      invariant forall k: nat :: k < i ==> position[order[k]] == k
    {
      position := position[order[i] := i];
      i := i + 1;
    }
    InverseOrder(codes, p, order, position);
  }

  lemma InverseOrder(codes: seq<nat>, p: seq<nat>, order: seq<nat>, position: seq<nat>)
    requires |p| == |order| == |position| == |codes|
    requires forall u: nat :: u < |codes| <==> u in order
    requires forall i: nat :: i < |p| ==> order[i] < |codes| && p[i] == codes[order[i]] && position[order[i]] == i
    ensures forall u: nat :: u < |codes| ==>
              position[u] < |p| && p[position[u]] == codes[u] && order[position[u]] == u
  {
    forall u: nat | u < |codes| ensures position[u] < |p| && p[position[u]] == codes[u] && order[position[u]] == u {
      assert u in order;
      var k: nat :| k < |order| && order[k] == u;
    }
  }

  lemma CodesInRange(leaves: seq<nat>, p: seq<nat>, L: nat)
    requires NodesListed(leaves, p, L)
    ensures forall i: nat :: i < |p| ==> 1 <= p[i] && Log8(p[i]) <= L
  {
    forall i: nat | i < |p| ensures 1 <= p[i] && Log8(p[i]) <= L {
      assert IsNodeCode(leaves, p[i], L);
      var s: nat, h: nat :| NodeIn(leaves, s, h, L) && p[i] == Code(s, h, L);
      CodeLevel(s, h, L);
    }
  }

  lemma MapsAgree(leaves: seq<nat>, p: seq<nat>, order: seq<nat>, position: seq<nat>, childOffsets: seq<nat>,
                  parents: seq<nat>, internalToLeaf: seq<int>, L: nat)
    requires Cornerstone(leaves, L) && 3 * L < 0x1_0000_0000 && SortedLayout(leaves, p, order, position, L)
    requires LinksFound(p, childOffsets, parents)
    requires |internalToLeaf| == |p|
    requires forall i: nat :: i < |p| ==> internalToLeaf[i] == order[i] - FlagCount(leaves, |leaves| - 1, L)
    ensures forall j: nat :: j + 1 < |leaves| ==>
              LeafMapped(leaves, p, childOffsets, internalToLeaf, position, j, L)
    ensures forall i: nat :: i < |p| ==> NodeMapped(leaves, p, childOffsets, internalToLeaf, position, i)
  {
    var f := FlagCount(leaves, |leaves| - 1, L);
    SortedLayoutCodes(leaves, p, order, position, L);
    RootFirst(p);
    forall i: nat | i < |p| ensures NodeMapped(leaves, p, childOffsets, internalToLeaf, position, i) {
      var s, h := NodeOfCode(leaves, order[i], L);
      ChildListed(leaves, p, s, h, L);
    }
    forall j: nat | j + 1 < |leaves|
      ensures LeafMapped(leaves, p, childOffsets, internalToLeaf, position, j, L)
    {
      UnsortedAt(leaves, j, L);
      assert NodeMapped(leaves, p, childOffsets, internalToLeaf, position, position[f + j]);
    }
  }
}
