/** Merge, split and enforce decisions for the nodes of a focused octree. */
module FocusRebalance {
  import opened Keys
  import opened ComputeOctree
  import opened Rebalance
  import opened OctreeLinks
  import opened Traversal
  import opened OctreeView
  import opened LeafUpdate

  // ------------------------------------------------------------- one node's decision

  predicate OverlapTwoRanges(a: nat, b: nat, c: nat, d: nat) {
    b > c && d > a
  }

  /** Operation for one node: 0 to merge it with its siblings, 1 to keep it, a power of 8 to split it. */
  function MergeCountAndMacOp(t: View, counts: seq<nat>, macs: seq<nat>, focusStart: nat, focusEnd: nat,
                              bucketSize: nat, nodeIdx: nat): (op: nat)
    requires nodeIdx < |t.prefixes| == |counts| == |macs| && |t.prefixes| <= |t.childOffsets|
    ensures IsOp(op)
  {
    var parent := Parent(t.parents, nodeIdx);
    var h := HeightOf(t, nodeIdx);
    var firstGroupKey := StartOf(t, parent);
    var inFringe := OverlapTwoRanges(firstGroupKey, firstGroupKey + 8 * Pow8(h), focusStart, focusEnd);
    if nodeIdx > 0 && (counts[parent] <= bucketSize || (macs[parent] == 0 && !inFringe)) then 0
    else
      var nodeStart := StartOf(t, nodeIdx);
      var inFocus := focusStart <= nodeStart < focusEnd;
      var n := counts[nodeIdx];
      if t.childOffsets[nodeIdx] == 0 && (macs[nodeIdx] != 0 || inFocus) then
        if h > 3 && n > UnsignedMul(4096, bucketSize) then 4096
        else if h > 2 && n > UnsignedMul(512, bucketSize) then 512
        else if h > 1 && n > UnsignedMul(64, bucketSize) then 64
        else if h > 0 && n > bucketSize then 8
        else 1
      else 1
  }

  /** Thresholds of a focused octree: a split by more than one level takes more than 8^k buckets. */
  function FocusThreshold(bucketSize: nat): (threshold: nat -> nat) {
    (k: nat) => if k <= 1 then bucketSize else UnsignedMul(Pow8(k), bucketSize)
  }

  /** Marked leaves and those that start in the focus are split. */
  predicate IsSplittable(t: View, macs: seq<nat>, focusStart: nat, focusEnd: nat, i: nat)
    requires i < |macs| && i < |t.prefixes| && i < |t.childOffsets|
  {
    t.childOffsets[i] == 0 && (macs[i] != 0 || focusStart <= StartOf(t, i) < focusEnd)
  }

  /** They are split by as many levels as their counts ask for, if they are not merged. */
  lemma FocusSplitIsLargest(t: View, counts: seq<nat>, macs: seq<nat>, focusStart: nat, focusEnd: nat,
                            bucketSize: nat, i: nat)
    requires i < |t.prefixes| == |counts| == |macs| && |t.prefixes| <= |t.childOffsets|
    ensures var op := MergeCountAndMacOp(t, counts, macs, focusStart, focusEnd, bucketSize, i);
            op != 0 ==>
              if IsSplittable(t, macs, focusStart, focusEnd, i) then
                op == Pow8(OpLevels(op)) &&
                IsLargestSplit(OpLevels(op), HeightOf(t, i), counts[i], FocusThreshold(bucketSize))
              else op == 1
  {
    var op := MergeCountAndMacOp(t, counts, macs, focusStart, focusEnd, bucketSize, i);
    if op != 0 && IsSplittable(t, macs, focusStart, focusEnd, i) {
      OpIsPower(op);
      FirstFocusIsLargest(op, HeightOf(t, i), counts[i], bucketSize);
    }
  }

  lemma FirstFocusIsLargest(op: nat, h: nat, count: nat, bucketSize: nat)
    requires op == if h > 3 && count > UnsignedMul(4096, bucketSize) then 4096
                   else if h > 2 && count > UnsignedMul(512, bucketSize) then 512
                   else if h > 1 && count > UnsignedMul(64, bucketSize) then 64
                   else if h > 0 && count > bucketSize then 8 else 1
    ensures IsLargestSplit(OpLevels(op), h, count, FocusThreshold(bucketSize))
  {
    assert Pow8(1) == 8 && Pow8(2) == 64 && Pow8(3) == 512 && Pow8(4) == 4096;
    var threshold := FocusThreshold(bucketSize);
    assert threshold(1) == bucketSize && threshold(2) == UnsignedMul(64, bucketSize);
    assert threshold(3) == UnsignedMul(512, bucketSize) && threshold(4) == UnsignedMul(4096, bucketSize);
  }

  /** Node i has no more particles than its parent, and is marked only if its parent is. */
  ghost predicate GrowsUpward(t: View, counts: seq<nat>, macs: seq<nat>, i: nat)
    requires 0 < i < |counts| == |macs|
  {
    var p := Parent(t.parents, i);
    counts[i] <= counts[p] && (macs[i] != 0 ==> macs[p] != 0)
  }

  ghost predicate AncestorMonotone(t: View, counts: seq<nat>, macs: seq<nat>) {
    && |t.prefixes| == |counts| == |macs|
    && forall i: nat :: 0 < i < |counts| ==> GrowsUpward(t, counts, macs, i)
  }

  // ------------------------------------------------------------- what the operations of all nodes keep

  /** All siblings of node i are kept, and so is its parent. */
  ghost predicate GroupKept(t: View, ops: seq<nat>, i: nat) {
    var p := Parent(t.parents, i);
    && p < |ops| && ops[p] != 0 && p < |t.childOffsets|
    && t.childOffsets[p] + 8 <= |ops|
    && forall j: nat :: t.childOffsets[p] <= j < t.childOffsets[p] + 8 ==> ops[j] != 0
  }

  ghost predicate KeptWithGroup(t: View, ops: seq<nat>, i: nat)
    requires i < |ops|
  {
    ops[i] != 0 ==> GroupKept(t, ops, i)
  }

  /** The operation is possible for the node: only leaves are split, and only as far as there are levels. */
  ghost predicate OpPossible(t: View, ops: seq<nat>, i: nat)
    requires i < |ops| && i < |t.childOffsets|
  {
    IsOp(ops[i]) && OpLevels(ops[i]) <= HeightOf(t, i) && (t.childOffsets[i] != 0 ==> ops[i] <= 1)
  }

  /** Zero operations come in whole sibling groups, and everything below a zero is zero. */
  ghost predicate OpsInvariant(t: View, ops: seq<nat>) {
    && |ops| == |t.prefixes| <= |t.childOffsets| && |ops| > 0 && ops[0] != 0
    && (forall i: nat :: 0 < i < |ops| ==> KeptWithGroup(t, ops, i))
    && (forall i: nat :: i < |ops| ==> OpPossible(t, ops, i))
  }

  ghost function Decisions(t: View, counts: seq<nat>, macs: seq<nat>, focusStart: nat, focusEnd: nat, bucketSize: nat)
    : (ops: seq<nat>)
    requires |t.prefixes| == |counts| == |macs| && |t.prefixes| <= |t.childOffsets|
  {
    seq(|t.prefixes|, i requires 0 <= i < |t.prefixes| =>
      MergeCountAndMacOp(t, counts, macs, focusStart, focusEnd, bucketSize, i))
  }

  /** The whole sibling group of a node whose parent has more particles and is marked or near the focus is kept. */
  ghost predicate IsDense(t: View, counts: seq<nat>, macs: seq<nat>, focusStart: nat, focusEnd: nat,
                          bucketSize: nat, p: nat)
    requires p < |counts| == |macs|
  {
    counts[p] > bucketSize && (macs[p] != 0 || OverlapTwoRanges(StartOf(t, p), EndOf(t, p), focusStart, focusEnd))
  }

  lemma KeptIffParentDense(t: View, leaves: seq<nat>, counts: seq<nat>, macs: seq<nat>, focusStart: nat, focusEnd: nat,
                           bucketSize: nat, i: nat)
    requires IsView(t, leaves) && |t.prefixes| == |counts| == |macs| && 0 < i < |counts|
    ensures Parent(t.parents, i) < i
    ensures MergeCountAndMacOp(t, counts, macs, focusStart, focusEnd, bucketSize, i) != 0 <==>
            IsDense(t, counts, macs, focusStart, focusEnd, bucketSize, Parent(t.parents, i))
  {
    ParentCell(t, leaves, i);
  }

  lemma DenseParent(t: View, leaves: seq<nat>, counts: seq<nat>, macs: seq<nat>, focusStart: nat, focusEnd: nat,
                    bucketSize: nat, p: nat)
    requires IsView(t, leaves) && AncestorMonotone(t, counts, macs) && 0 < p < |counts|
    requires IsDense(t, counts, macs, focusStart, focusEnd, bucketSize, p)
    ensures Parent(t.parents, p) < p
    ensures IsDense(t, counts, macs, focusStart, focusEnd, bucketSize, Parent(t.parents, p))
  {
    ParentCell(t, leaves, p);
    assert GrowsUpward(t, counts, macs, p);
  }

  /** The decisions merge whole groups and everything below what they merge. */
  lemma DecisionsInvariant(t: View, leaves: seq<nat>, counts: seq<nat>, macs: seq<nat>, focusStart: nat, focusEnd: nat,
                           bucketSize: nat)
    requires IsView(t, leaves) && AncestorMonotone(t, counts, macs)
    ensures OpsInvariant(t, Decisions(t, counts, macs, focusStart, focusEnd, bucketSize))
  {
    var ops := Decisions(t, counts, macs, focusStart, focusEnd, bucketSize);
    forall i: nat | i < |ops| ensures OpPossible(t, ops, i) {
    }
    forall i: nat | 0 < i < |ops| ensures KeptWithGroup(t, ops, i) {
      if ops[i] != 0 {
        KeptIffParentDense(t, leaves, counts, macs, focusStart, focusEnd, bucketSize, i);
        ParentFacts(t.childOffsets, t.parents, |ops|, i);
        var p := Parent(t.parents, i);
        assert ChildrenKnowParent(t.childOffsets, t.parents, |ops|, p);
        if p > 0 {
          DenseParent(t, leaves, counts, macs, focusStart, focusEnd, bucketSize, p);
          KeptIffParentDense(t, leaves, counts, macs, focusStart, focusEnd, bucketSize, p);
        }
        forall j: nat | t.childOffsets[p] <= j < t.childOffsets[p] + 8 ensures ops[j] != 0 {
          ChildFacts(t.childOffsets, t.parents, |ops|, p, j - t.childOffsets[p]);
          KeptIffParentDense(t, leaves, counts, macs, focusStart, focusEnd, bucketSize, j);
        }
      }
    }
  }

  method RebalanceDecisionEssential(t: View, counts: seq<nat>, macs: seq<nat>, focusStart: nat, focusEnd: nat,
                                    bucketSize: nat, nodeOps: array<nat>)
    requires |t.prefixes| == |counts| == |macs| == nodeOps.Length && |t.prefixes| <= |t.childOffsets|
    modifies nodeOps
    ensures nodeOps[..] == Decisions(t, counts, macs, focusStart, focusEnd, bucketSize)
  {
    for i := 0 to nodeOps.Length
      invariant forall j: nat :: j < i ==>
                  nodeOps[j] == MergeCountAndMacOp(t, counts, macs, focusStart, focusEnd, bucketSize, j)
    {
      nodeOps[i] := MergeCountAndMacOp(t, counts, macs, focusStart, focusEnd, bucketSize, i);
    }
  }

  // ------------------------------------------------------------- enforcing keys

  datatype ResolutionStatus = Converged | CancelMerge | Rebalance | Failed

  function Severity(status: ResolutionStatus): (n: nat) {
    match status
    case Converged => 0
    case CancelMerge => 1
    case Rebalance => 2
    case Failed => 3
  }

  function Worse(a: ResolutionStatus, b: ResolutionStatus): (c: ResolutionStatus)
    ensures (c == a || c == b) && Severity(c) >= Severity(a) && Severity(c) >= Severity(b)
  {
    if Severity(a) >= Severity(b) then a else b
  }

  /** Height of the largest cell that starts at a key inside the curve. */
  ghost function KeyHeight(key: nat, L: nat): (h: nat)
  {
    var pos := LastNzPlace(key, L);
    if 0 <= pos <= L then L - pos else 0
  }

  lemma KeyHeightIs(key: nat, L: nat)
    requires 0 < key < Pow8(L)
    ensures 0 < LastNzPlace(key, L) <= L && KeyHeight(key, L) == L - LastNzPlace(key, L)
    ensures Aligned(key, KeyHeight(key, L)) && !Aligned(key, KeyHeight(key, L) + 1)
  {
    TrailHeight(key);
    var h := TrailBits(key) / 3;
    if h >= L {
      AlignedWeaken(key, L, h);
      AlignedZero(L);
      AlignedGap(0, key, L);
    }
  }

  /** Placeholder-bit code of the largest cell that starts at the key. */
  function MakePrefix(key: nat, L: nat): (code: nat)
    requires key > 0 ==> 0 <= LastNzPlace(key, L) <= L
  {
    if key == 0 then 1 else EncodePlaceholderBit(key, LastNzPlace(key, L), L)
  }

  /** Node v contains key s, and it is the cell (s, h) or a leaf above it. */
  ghost predicate IsContaining(t: View, s: nat, h: nat, v: nat) {
    && v < |t.prefixes| && v < |t.childOffsets|
    && StartOf(t, v) == Floor(s, HeightOf(t, v)) && h <= HeightOf(t, v)
    && (HeightOf(t, v) == h || t.childOffsets[v] == 0)
  }

  /** The child that a digit of the key leads to. */
  lemma DescendTo(t: View, leaves: seq<nat>, s: nat, v: nat)
    requires IsView(t, leaves) && v < |t.prefixes| && t.childOffsets[v] != 0 && HeightOf(t, v) >= 1
    requires StartOf(t, v) == Floor(s, HeightOf(t, v))
    ensures var c := t.childOffsets[v] + Digit(s, HeightOf(t, v) - 1);
            && v < c < |t.prefixes| && HeightOf(t, c) == HeightOf(t, v) - 1 && StartOf(t, c) == Floor(s, HeightOf(t, c))
  {
    var d := Digit(s, HeightOf(t, v) - 1);
    var c := t.childOffsets[v] + d;
    ChildFacts(t.childOffsets, t.parents, |t.prefixes|, v, d);
    assert ChildFits(t, c);
    ChildOf(s, HeightOf(t, v));
  }

  /** Walk down from the root along the digits of a node's key. */
  method ContainingNode(nodeKey: nat, t: View, ghost leaves: seq<nat>, ghost s: nat, ghost h: nat) returns (ret: nat)
    requires IsView(t, leaves) && h <= t.L && s < Pow8(t.L) && Aligned(s, h) && nodeKey == Code(s, h, t.L)
    ensures IsContaining(t, s, h, ret)
    ensures nodeKey == t.prefixes[ret] <==> HeightOf(t, ret) == h
  {
    DecodeEncode(s, h, t.L);
    var nodeLevel := Log8(nodeKey);
    var key := DecodePlaceholderBit(nodeKey, t.L);
    ret := 0;
    FloorUnique(s, 0, t.L) by { AlignedZero(t.L); }
    var i := 1;
    while i <= nodeLevel
      invariant 1 <= i <= nodeLevel + 1 && ret < |t.prefixes|
      invariant HeightOf(t, ret) == t.L - (i - 1) && StartOf(t, ret) == Floor(s, HeightOf(t, ret))
    {
      assert NodeFits(t, leaves, ret);
      if t.childOffsets[ret] == 0 || nodeKey == t.prefixes[ret] {
        break;
      }
      DescendTo(t, leaves, s, ret);
      ret := t.childOffsets[ret] + Digit(key, t.L - i);
      i := i + 1;
    }
    assert NodeFits(t, leaves, ret);
    FloorBounds(s, h);
    if nodeKey == t.prefixes[ret] { CodeInjective(s, h, StartOf(t, ret), HeightOf(t, ret), t.L); }
  }

  /** The containing node is the cell itself exactly if the key is in the octree. */
  lemma KeyInTree(t: View, leaves: seq<nat>, key: nat, v: nat)
    requires IsView(t, leaves) && 0 < key < Pow8(t.L) && IsContaining(t, key, KeyHeight(key, t.L), v)
    ensures HeightOf(t, v) == KeyHeight(key, t.L) <==> key in leaves
    ensures HeightOf(t, v) == KeyHeight(key, t.L) <==> StartOf(t, v) == key
    ensures StartOf(t, v) <= key < EndOf(t, v)
  {
    KeyHeightIs(key, t.L);
    var h, g := KeyHeight(key, t.L), HeightOf(t, v);
    assert NodeFits(t, leaves, v);
    FloorBounds(key, g);
    if h < g {
      if Aligned(key, g) { AlignedWeaken(key, h + 1, g); }
      assert !IsCut(leaves, StartOf(t, v), g);
    }
  }

  ghost predicate IsAbove(parents: seq<nat>, a: nat, v: nat) {
    a < v && IsAncestor(parents, a, v)
  }

  /** Operation of node i once no ancestor of v, and no sibling of one, is merged. */
  ghost function CancelledOp(t: View, ops: seq<nat>, v: nat, i: nat): (op: nat)
    requires i < |ops|
  {
    if ops[i] == 0 && i > 0 && IsAbove(t.parents, Parent(t.parents, i), v) then 1 else ops[i]
  }

  /** The key is not in the octree: v is a leaf that has it strictly inside. */
  ghost predicate IsMissing(t: View, key: nat, v: nat) {
    HeightOf(t, v) != KeyHeight(key, t.L)
  }

  /** Operations after a key has been enforced at the node v that contains it. */
  ghost function EnforcedOp(t: View, ops: seq<nat>, key: nat, v: nat, i: nat): (op: nat)
    requires i < |ops| && v < |ops|
  {
    var kept := if ops[v] == 0 || IsMissing(t, key, v) then CancelledOp(t, ops, v, i) else ops[i];
    if IsMissing(t, key, v) && i == v && kept < 8 then 8 else kept
  }

  ghost function EnforcedStatus(t: View, ops: seq<nat>, key: nat, v: nat): (status: ResolutionStatus)
    requires v < |ops|
  {
    if IsMissing(t, key, v) then
      if HeightOf(t, v) - KeyHeight(key, t.L) > 1 then Failed else Rebalance
    else if ops[v] == 0 && v > 0 then CancelMerge else Converged
  }

  ghost function EnforcedOps(t: View, ops: seq<nat>, key: nat, v: nat): (r: seq<nat>)
    requires v < |ops|
    ensures |r| == |ops|
  {
    seq(|ops|, i requires 0 <= i < |ops| => EnforcedOp(t, ops, key, v, i))
  }

  /** Keep the sibling groups on the way from a node up to the root. */
  method CancelMerges(t: View, nodeIdx: nat, nodeOps: array<nat>, ghost leaves: seq<nat>)
    requires IsView(t, leaves) && nodeIdx < nodeOps.Length == |t.prefixes|
    modifies nodeOps
    ensures forall i: nat :: i < nodeOps.Length ==> nodeOps[i] == CancelledOp(t, old(nodeOps[..]), nodeIdx, i)
  {
    ghost var before := nodeOps[..];
    ghost var n := |t.prefixes|;
    var parent: nat := nodeIdx;
    while parent != 0
      invariant parent <= nodeIdx && IsAncestor(t.parents, parent, nodeIdx)
      invariant forall i: nat :: i < n ==> nodeOps[i] == CancelledDownTo(t, before, nodeIdx, parent, i)
    {
      ParentFacts(t.childOffsets, t.parents, n, parent);
      ghost var below: nat := parent;
      parent := t.parents[(parent - 1) / 8];
      AncestorOfAncestor(t.parents, below, nodeIdx);
      assert ChildrenKnowParent(t.childOffsets, t.parents, n, parent);
      var firstSibling := t.childOffsets[parent];
      label Group:
      var i: nat := firstSibling;
      while i < firstSibling + 8
        invariant firstSibling <= i <= firstSibling + 8
        invariant forall j: nat :: j < n ==>
                    nodeOps[j] ==
                    if firstSibling <= j < i && old@Group(nodeOps[j]) == 0 then 1 else old@Group(nodeOps[j])
      {
        if nodeOps[i] == 0 { nodeOps[i] := 1; }
        i := i + 1;
      }
      forall j: nat | j < n ensures nodeOps[j] == CancelledDownTo(t, before, nodeIdx, parent, j) {
        OneGroupMore(t, leaves, before, nodeIdx, below, j);
      }
    }
    forall i: nat | i < n ensures nodeOps[i] == CancelledOp(t, before, nodeIdx, i) {
    }
  }

  /** As far as the loop has come: ancestors with index `top` or higher are done. */
  ghost function CancelledDownTo(t: View, ops: seq<nat>, v: nat, top: nat, i: nat): (op: nat)
    requires i < |ops|
  {
    if top <= Parent(t.parents, i) then CancelledOp(t, ops, v, i) else ops[i]
  }

  lemma {:induction false} AncestorOfAncestor(parents: seq<nat>, a: nat, v: nat)
    requires 0 < a && IsAncestor(parents, a, v) && Parent(parents, a) < a
    ensures IsAncestor(parents, Parent(parents, a), v) && Parent(parents, a) < v
    decreases v
  {
    if a != v { AncestorOfAncestor(parents, a, Parent(parents, v)); }
  }

  lemma OneGroupMore(t: View, leaves: seq<nat>, ops: seq<nat>, v: nat, below: nat, j: nat)
    requires IsView(t, leaves) && |ops| == |t.prefixes| && v < |ops| && j < |ops|
    requires 0 < below <= v && IsAncestor(t.parents, below, v)
    ensures Parent(t.parents, below) < below
    ensures var p := Parent(t.parents, below);
            var c := t.childOffsets[p];
            var done := CancelledDownTo(t, ops, v, below, j);
            CancelledDownTo(t, ops, v, p, j) == if c <= j < c + 8 && done == 0 then 1 else done
  {
    var p := Parent(t.parents, below);
    ParentFacts(t.childOffsets, t.parents, |ops|, below);
    AncestorOfAncestor(t.parents, below, v);
    var c := t.childOffsets[p];
    assert ChildrenKnowParent(t.childOffsets, t.parents, |ops|, p);
    if c <= j < c + 8 {
      ChildFacts(t.childOffsets, t.parents, |ops|, p, j - c);
    } else if j > 0 {
      ParentFacts(t.childOffsets, t.parents, |ops|, j);
      NothingBetween(t.parents, Parent(t.parents, j), below, v);
    }
  }

  lemma NothingBetween(parents: seq<nat>, q: nat, below: nat, v: nat)
    requires IsAncestor(parents, below, v)
    ensures IsAncestor(parents, q, v) && q < below ==> q <= Parent(parents, below)
  {
    if IsAncestor(parents, q, v) && q < below {
      AncestorsAreOrdered(parents, q, below, v);
      AncestorIsSmaller(parents, q, Parent(parents, below));
    }
  }

  /** Keys 0 and 8^L are in every octree. */
  predicate IsCurveEnd(key: nat, L: nat) {
    key == 0 || key == Pow8(L)
  }

  /** The level numbers of the program in terms of heights. */
  lemma PlaceFacts(t: View, leaves: seq<nat>, key: nat, v: nat)
    requires IsView(t, leaves) && 0 < key < Pow8(t.L) && IsContaining(t, key, KeyHeight(key, t.L), v)
    ensures 0 < LastNzPlace(key, t.L) <= t.L && MakePrefix(key, t.L) == Code(key, KeyHeight(key, t.L), t.L)
    ensures Log8(t.prefixes[v]) == t.L - HeightOf(t, v)
    ensures LastNzPlace(key, t.L) - Log8(t.prefixes[v]) == HeightOf(t, v) - KeyHeight(key, t.L)
    ensures t.prefixes[v] != MakePrefix(key, t.L) && Log8(t.prefixes[v]) < t.L <==> IsMissing(t, key, v)
  {
    KeyHeightIs(key, t.L);
    assert NodeFits(t, leaves, v);
    CodeLevel(StartOf(t, v), HeightOf(t, v), t.L);
    CodeLevel(key, KeyHeight(key, t.L), t.L);
    FloorBounds(key, KeyHeight(key, t.L));
  }

  /** Make sure that a rebalance step with these operations leaves the key in the octree, as far as
      one more level can do so. */
  method EnforceKeySingle(key: nat, t: View, nodeOps: array<nat>, ghost leaves: seq<nat>)
    returns (status: ResolutionStatus, ghost v: nat)
    requires IsView(t, leaves) && key <= Pow8(t.L) && nodeOps.Length == |t.prefixes|
    modifies nodeOps
    ensures IsCurveEnd(key, t.L) ==> status == Converged && nodeOps[..] == old(nodeOps[..])
    ensures !IsCurveEnd(key, t.L) ==>
              && IsContaining(t, key, KeyHeight(key, t.L), v)
              && nodeOps[..] == EnforcedOps(t, old(nodeOps[..]), key, v)
              && status == EnforcedStatus(t, old(nodeOps[..]), key, v)
  {
    v := 0;
    if key == 0 || key == Pow8(t.L) { return Converged, 0; }
    status := Converged;
    ghost var before := nodeOps[..];
    KeyHeightIs(key, t.L);
    var nodeKeyWant := MakePrefix(key, t.L);
    var nodeIdx := ContainingNode(nodeKeyWant, t, leaves, key, KeyHeight(key, t.L));
    v := nodeIdx;
    PlaceFacts(t, leaves, key, nodeIdx);
    var nodeKeyHave := t.prefixes[nodeIdx];
    var nodeLevelHave := Log8(nodeKeyHave);
    var trySplit := nodeKeyHave != nodeKeyWant && nodeLevelHave < t.L;
    var undoMerges := nodeOps[nodeIdx] == 0 || trySplit;
    if undoMerges && nodeIdx > 0 {
      status := CancelMerge;
      CancelMerges(t, nodeIdx, nodeOps, leaves);
    }
    ghost var kept := nodeOps[..];
    assert forall i: nat :: i < |before| ==> kept[i] == if undoMerges then CancelledOp(t, before, v, i) else before[i];
    if trySplit {
      var keyPos := LastNzPlace(key, t.L);
      var levelDiff := keyPos - nodeLevelHave;
      status := if levelDiff > 1 then Failed else Rebalance;
      levelDiff := if levelDiff < 1 then levelDiff else 1;
      assert levelDiff == 1;
      var split := Pow8(levelDiff);
      nodeOps[nodeIdx] := if nodeOps[nodeIdx] > split then nodeOps[nodeIdx] else split;
    }
  }

  /** No operation is lowered. */
  ghost predicate IsRaised(ops: seq<nat>, raised: seq<nat>) {
    |ops| == |raised| && forall i: nat :: i < |ops| ==> ops[i] <= raised[i]
  }

  /** The operations leave the key in the octree: its node is kept, or the leaf around it is split. */
  ghost predicate IsSecured(t: View, ops: seq<nat>, key: nat) {
    || IsCurveEnd(key, t.L)
    || exists i: nat :: i < |ops| && SecuredAt(t, ops, key, i)
  }

  ghost predicate SecuredAt(t: View, ops: seq<nat>, key: nat, i: nat)
    requires i < |ops|
  {
    || (StartOf(t, i) == key && ops[i] != 0)
    || (StartOf(t, i) < key < EndOf(t, i) && i < |t.childOffsets| && t.childOffsets[i] == 0 && ops[i] >= 8
        && HeightOf(t, i) >= 1 && Aligned(key, HeightOf(t, i) - 1))
  }

  lemma StaysSecured(t: View, ops: seq<nat>, raised: seq<nat>, key: nat)
    requires IsSecured(t, ops, key) && IsRaised(ops, raised)
    ensures IsSecured(t, raised, key)
  {
    if !IsCurveEnd(key, t.L) {
      var i: nat :| i < |ops| && SecuredAt(t, ops, key, i);
      assert ops[i] <= raised[i];
      assert SecuredAt(t, raised, key, i);
    }
  }

  lemma StaysGroupKept(t: View, ops: seq<nat>, raised: seq<nat>, i: nat)
    requires GroupKept(t, ops, i) && IsRaised(ops, raised)
    ensures GroupKept(t, raised, i)
  {
  }

  /** Enforcing a key raises operations only, and keeps whole groups and ancestors together. */
  lemma EnforcingKeepsInvariant(t: View, leaves: seq<nat>, ops: seq<nat>, key: nat, v: nat)
    requires IsView(t, leaves) && OpsInvariant(t, ops) && !IsCurveEnd(key, t.L) && key < Pow8(t.L)
    requires IsContaining(t, key, KeyHeight(key, t.L), v)
    ensures IsRaised(ops, EnforcedOps(t, ops, key, v))
    ensures OpsInvariant(t, EnforcedOps(t, ops, key, v))
  {
    var raised := EnforcedOps(t, ops, key, v);
    forall i: nat | i < |ops| ensures OpPossible(t, raised, i) {
      assert OpPossible(t, ops, i);
    }
    forall i: nat | 0 < i < |ops| ensures KeptWithGroup(t, raised, i) {
      assert KeptWithGroup(t, ops, i);
      if ops[i] != 0 {
        StaysGroupKept(t, ops, raised, i);
      } else if raised[i] != 0 {
        RaisedGroup(t, leaves, ops, key, v, i);
      }
    }
  }

  /** A node that is no longer merged has all its siblings and its parent with it. */
  lemma RaisedGroup(t: View, leaves: seq<nat>, ops: seq<nat>, key: nat, v: nat, i: nat)
    requires IsView(t, leaves) && OpsInvariant(t, ops) && v < |ops| && 0 < i < |ops|
    requires ops[i] == 0 && EnforcedOp(t, ops, key, v, i) != 0
    ensures GroupKept(t, EnforcedOps(t, ops, key, v), i)
  {
    var raised := EnforcedOps(t, ops, key, v);
    var p := Parent(t.parents, i);
    ParentFacts(t.childOffsets, t.parents, |ops|, i);
    assert ChildrenKnowParent(t.childOffsets, t.parents, |ops|, p);
    if i == v { assert IsAncestor(t.parents, p, v); }
    assert IsAbove(t.parents, p, v) && (ops[v] == 0 || IsMissing(t, key, v));
    forall j: nat | t.childOffsets[p] <= j < t.childOffsets[p] + 8 ensures raised[j] != 0 {
      ChildFacts(t.childOffsets, t.parents, |ops|, p, j - t.childOffsets[p]);
    }
    if p > 0 && ops[p] == 0 {
      ParentFacts(t.childOffsets, t.parents, |ops|, p);
      AncestorOfAncestor(t.parents, p, v);
    }
  }

  /** Unless it failed, the key is secured. It fails exactly for keys that one more level would not add. */
  lemma EnforcingSecures(t: View, leaves: seq<nat>, ops: seq<nat>, key: nat, v: nat)
    requires IsView(t, leaves) && OpsInvariant(t, ops) && !IsCurveEnd(key, t.L) && key < Pow8(t.L)
    requires IsContaining(t, key, KeyHeight(key, t.L), v)
    ensures EnforcedStatus(t, ops, key, v) != Failed ==> IsSecured(t, EnforcedOps(t, ops, key, v), key)
    ensures EnforcedStatus(t, ops, key, v).Converged? || EnforcedStatus(t, ops, key, v).CancelMerge? <==> key in leaves
    ensures EnforcedStatus(t, ops, key, v) == Failed <==>
            key !in leaves && HeightOf(t, v) >= 1 && !Aligned(key, HeightOf(t, v) - 1)
  {
    var raised := EnforcedOps(t, ops, key, v);
    KeyInTree(t, leaves, key, v);
    KeyHeightIs(key, t.L);
    if HeightOf(t, v) - KeyHeight(key, t.L) > 1 && Aligned(key, HeightOf(t, v) - 1) {
      AlignedWeaken(key, KeyHeight(key, t.L) + 1, HeightOf(t, v) - 1);
    }
    if EnforcedStatus(t, ops, key, v) != Failed {
      if v > 0 && ops[v] == 0 {
        ParentFacts(t.childOffsets, t.parents, |ops|, v);
        assert IsAncestor(t.parents, Parent(t.parents, v), v);
      }
      assert SecuredAt(t, raised, key, v);
    }
  }

  /** The node that contains the key. */
  ghost function ContainerOf(t: View, key: nat): (v: nat) {
    if exists v: nat :: IsContaining(t, key, KeyHeight(key, t.L), v) then
      var v: nat :| IsContaining(t, key, KeyHeight(key, t.L), v); v
    else 0
  }

  lemma ContainerIsUnique(t: View, leaves: seq<nat>, key: nat, v: nat)
    requires IsView(t, leaves) && 0 < key < Pow8(t.L) && IsContaining(t, key, KeyHeight(key, t.L), v)
    ensures ContainerOf(t, key) == v
  {
    var w := ContainerOf(t, key);
    KeyInTree(t, leaves, key, v);
    KeyInTree(t, leaves, key, w);
    if HeightOf(t, v) < HeightOf(t, w) {
      FloorNested(key, HeightOf(t, v), HeightOf(t, w));
      InsideIsBelow(t, leaves, w, v);
      LeafBelowLeaf(t.childOffsets, t.parents, |t.prefixes|, w, v);
    } else if HeightOf(t, w) < HeightOf(t, v) {
      FloorNested(key, HeightOf(t, w), HeightOf(t, v));
      InsideIsBelow(t, leaves, v, w);
      LeafBelowLeaf(t.childOffsets, t.parents, |t.prefixes|, v, w);
    } else {
      SameCell(t, leaves, v, w);
    }
  }

  /** There is one: the walk down along the digits of the key ends in it. */
  lemma {:induction false} ContainerBelow(t: View, leaves: seq<nat>, s: nat, h: nat, v: nat) returns (w: nat)
    requires IsView(t, leaves) && v < |t.prefixes| && h <= HeightOf(t, v) && StartOf(t, v) == Floor(s, HeightOf(t, v))
    ensures IsContaining(t, s, h, w)
    decreases HeightOf(t, v)
  {
    if HeightOf(t, v) == h || t.childOffsets[v] == 0 {
      w := v;
    } else {
      DescendTo(t, leaves, s, v);
      w := ContainerBelow(t, leaves, s, h, t.childOffsets[v] + Digit(s, HeightOf(t, v) - 1));
    }
  }

  lemma ContainerIs(t: View, leaves: seq<nat>, key: nat)
    requires IsView(t, leaves) && 0 < key < Pow8(t.L)
    ensures IsContaining(t, key, KeyHeight(key, t.L), ContainerOf(t, key))
  {
    AlignedZero(t.L);
    FloorUnique(key, 0, t.L);
    var v := ContainerBelow(t, leaves, key, KeyHeight(key, t.L), 0);
  }

  /** Operations and status after enforcing one more key. */
  ghost function AfterOneMore(t: View, r: (seq<nat>, ResolutionStatus), key: nat): (next: (seq<nat>, ResolutionStatus))
    ensures |next.0| == |r.0|
  {
    var v := ContainerOf(t, key);
    if IsCurveEnd(key, t.L) || v >= |r.0| then (r.0, Worse(Converged, r.1))
    else (EnforcedOps(t, r.0, key, v), Worse(EnforcedStatus(t, r.0, key, v), r.1))
  }

  /** Operations and status after enforcing the first n keys, one after the other. */
  ghost function AfterEnforcing(t: View, before: seq<nat>, keys: seq<nat>, n: nat): (r: (seq<nat>, ResolutionStatus))
    requires n <= |keys|
    ensures |r.0| == |before|
  {
    if n == 0 then (before, Converged) else AfterOneMore(t, AfterEnforcing(t, before, keys, n - 1), keys[n - 1])
  }

  predicate InTreeStatus(status: ResolutionStatus) {
    status.Converged? || status.CancelMerge?
  }

  /** What enforcing the first n keys has achieved. */
  ghost predicate AreEnforced(t: View, leaves: seq<nat>, before: seq<nat>, after: seq<nat>, keys: seq<nat>, n: nat,
                              status: ResolutionStatus)
    requires n <= |keys|
  {
    && OpsInvariant(t, after) && IsRaised(before, after)
    && (status.Converged? ==> after == before)
    && (status != Failed ==> forall k: nat :: k < n ==> IsSecured(t, after, keys[k]))
    && (InTreeStatus(status) <==> forall k: nat :: k < n ==> keys[k] in leaves)
  }

  lemma EnforceOneMore(t: View, leaves: seq<nat>, before: seq<nat>, ops: seq<nat>, raised: seq<nat>, keys: seq<nat>,
                       n: nat, status: ResolutionStatus, single: ResolutionStatus, v: nat)
    requires IsView(t, leaves) && n < |keys| && keys[n] <= Pow8(t.L)
    requires AreEnforced(t, leaves, before, ops, keys, n, status)
    requires IsCurveEnd(keys[n], t.L) ==> single == Converged && raised == ops
    requires !IsCurveEnd(keys[n], t.L) ==>
               && IsContaining(t, keys[n], KeyHeight(keys[n], t.L), v)
               && raised == EnforcedOps(t, ops, keys[n], v) && single == EnforcedStatus(t, ops, keys[n], v)
    ensures AreEnforced(t, leaves, before, raised, keys, n + 1, Worse(single, status))
  {
    var key := keys[n];
    assert leaves[0] in leaves && leaves[|leaves| - 1] in leaves;
    if !IsCurveEnd(key, t.L) {
      EnforcingKeepsInvariant(t, leaves, ops, key, v);
      EnforcingSecures(t, leaves, ops, key, v);
      RaisingIsTransitive(before, ops, raised);
      if single.Converged? { assert raised == ops; }
    }
    if Worse(single, status) != Failed {
      forall k: nat | k < n ensures IsSecured(t, raised, keys[k]) {
        StaysSecured(t, ops, raised, keys[k]);
      }
    }
  }

  lemma RaisingIsTransitive(a: seq<nat>, b: seq<nat>, c: seq<nat>)
    requires IsRaised(a, b) && IsRaised(b, c)
    ensures IsRaised(a, c)
  {
    forall i: nat | i < |a| ensures a[i] <= c[i] {
      assert a[i] <= b[i] <= c[i];
    }
  }

  lemma {:induction false} EnforcedAfter(t: View, leaves: seq<nat>, before: seq<nat>, keys: seq<nat>, n: nat)
    returns (r: (seq<nat>, ResolutionStatus))
    requires IsView(t, leaves) && OpsInvariant(t, before) && n <= |keys|
    requires forall k: nat :: k < |keys| ==> keys[k] <= Pow8(t.L)
    ensures r == AfterEnforcing(t, before, keys, n) && AreEnforced(t, leaves, before, r.0, keys, n, r.1)
  {
    if n == 0 {
      r := (before, Converged);
    } else {
      var previous := EnforcedAfter(t, leaves, before, keys, n - 1);
      r := AfterOneMore(t, previous, keys[n - 1]);
      EnforcedNext(t, leaves, before, keys, n - 1, previous, r);
    }
  }

  lemma EnforcedNext(t: View, leaves: seq<nat>, before: seq<nat>, keys: seq<nat>, n: nat,
                     r: (seq<nat>, ResolutionStatus), next: (seq<nat>, ResolutionStatus))
    requires IsView(t, leaves) && n < |keys| && keys[n] <= Pow8(t.L) && next == AfterOneMore(t, r, keys[n])
    requires AreEnforced(t, leaves, before, r.0, keys, n, r.1)
    ensures AreEnforced(t, leaves, before, next.0, keys, n + 1, next.1)
  {
    var key, v := keys[n], ContainerOf(t, keys[n]);
    if IsCurveEnd(key, t.L) {
      EnforceOneMore(t, leaves, before, r.0, r.0, keys, n, r.1, Converged, v);
    } else {
      ContainerIs(t, leaves, key);
      EnforceOneMore(t, leaves, before, r.0, EnforcedOps(t, r.0, key, v), keys, n, r.1,
                     EnforcedStatus(t, r.0, key, v), v);
    }
  }

  /** A merge has been cancelled because one of the first n keys is below the parent of the node. */
  ghost predicate IsCancelled(t: View, keys: seq<nat>, n: nat, i: nat)
    requires n <= |keys|
  {
    exists k: nat :: k < n && 0 < keys[k] < Pow8(t.L) && i > 0 &&
                     IsAbove(t.parents, Parent(t.parents, i), ContainerOf(t, keys[k]))
  }

  /** Node i is a leaf that one of the first n keys lies strictly inside. */
  ghost predicate IsForced(t: View, keys: seq<nat>, n: nat, i: nat)
    requires n <= |keys|
  {
    exists k: nat :: k < n && 0 < keys[k] < Pow8(t.L) && ContainerOf(t, keys[k]) == i && IsMissing(t, keys[k], i)
  }

  /** Enforcing keys does nothing but cancel merges and split leaves around keys once. */
  lemma {:induction false} RaisedMeans(t: View, leaves: seq<nat>, before: seq<nat>, keys: seq<nat>, n: nat, i: nat)
    requires IsView(t, leaves) && n <= |keys| && i < |before| == |t.prefixes|
    requires forall k: nat :: k < |keys| ==> keys[k] <= Pow8(t.L)
    ensures var op := AfterEnforcing(t, before, keys, n).0[i];
            || op == before[i]
            || (before[i] == 0 && op == 1 && IsCancelled(t, keys, n, i))
            || (before[i] < 8 && op == 8 && IsForced(t, keys, n, i))
  {
    if n > 0 {
      RaisedMeans(t, leaves, before, keys, n - 1, i);
      var ops, key, v := AfterEnforcing(t, before, keys, n - 1).0, keys[n - 1], ContainerOf(t, keys[n - 1]);
      if !IsCurveEnd(key, t.L) {
        ContainerIs(t, leaves, key);
        assert EnforcedOps(t, ops, key, v)[i] == EnforcedOp(t, ops, key, v, i);
      }
    }
  }

  /** Keys that are there do nothing but cancel merges. */
  lemma OnlyCancels(t: View, leaves: seq<nat>, before: seq<nat>, keys: seq<nat>, n: nat, i: nat)
    requires IsView(t, leaves) && n <= |keys| && i < |before| == |t.prefixes|
    requires forall k: nat :: k < |keys| ==> keys[k] in leaves && keys[k] <= Pow8(t.L)
    ensures var op := AfterEnforcing(t, before, keys, n).0[i];
            op == before[i] || (before[i] == 0 && op == 1 && IsCancelled(t, keys, n, i))
  {
    RaisedMeans(t, leaves, before, keys, n, i);
    if k: nat :| k < n && 0 < keys[k] < Pow8(t.L) && ContainerOf(t, keys[k]) == i && IsMissing(t, keys[k], i) {
      ContainerIs(t, leaves, keys[k]);
      KeyInTree(t, leaves, keys[k], i);
    }
  }

  /** Enforce all mandatory keys; the status is that of the key that is hardest to resolve. */
  method EnforceKeys(mandatoryKeys: seq<nat>, t: View, nodeOps: array<nat>, ghost leaves: seq<nat>)
    returns (status: ResolutionStatus)
    requires IsView(t, leaves) && nodeOps.Length == |t.prefixes| && OpsInvariant(t, nodeOps[..])
    requires forall k: nat :: k < |mandatoryKeys| ==> mandatoryKeys[k] <= Pow8(t.L)
    modifies nodeOps
    ensures AreEnforced(t, leaves, old(nodeOps[..]), nodeOps[..], mandatoryKeys, |mandatoryKeys|, status)
    ensures (nodeOps[..], status) == AfterEnforcing(t, old(nodeOps[..]), mandatoryKeys, |mandatoryKeys|)
  {
    status := Converged;
    ghost var before := nodeOps[..];
    var n: nat := 0;
    while n < |mandatoryKeys|
      invariant n <= |mandatoryKeys|
      invariant AreEnforced(t, leaves, before, nodeOps[..], mandatoryKeys, n, status)
      invariant (nodeOps[..], status) == AfterEnforcing(t, before, mandatoryKeys, n)
    {
      ghost var ops := nodeOps[..];
      var single, v := EnforceKeySingle(mandatoryKeys[n], t, nodeOps, leaves);
      EnforceOneMore(t, leaves, before, ops, nodeOps[..], mandatoryKeys, n, status, single, v);
      if !IsCurveEnd(mandatoryKeys[n], t.L) { ContainerIsUnique(t, leaves, mandatoryKeys[n], v); }
      status := Worse(single, status);
      n := n + 1;
    }
  }

  // ------------------------------------------------------------- protecting ancestors

  /** The closest ancestor of node i, or i itself, whose operation is not 0; the root if there is none. */
  ghost function ClosestKept(parents: seq<nat>, ops: seq<nat>, i: nat): (a: nat)
    requires i < |ops|
    ensures a <= i
    decreases i
  {
    if i == 0 || ops[i] != 0 then i else ClosestKept(parents, ops, Parent(parents, i))
  }

  /** A node takes over the operation of its closest kept ancestor if it starts at the same key. */
  ghost function ProtectedOp(t: View, ops: seq<nat>, i: nat): (op: nat)
    requires i < |ops|
  {
    var a := ClosestKept(t.parents, ops, i);
    if StartOf(t, i) == StartOf(t, a) then ops[a] else 0
  }

  ghost function ProtectedOps(t: View, ops: seq<nat>): (r: seq<nat>)
    ensures |r| == |ops|
  {
    seq(|ops|, i requires 0 <= i < |ops| => ProtectedOp(t, ops, i))
  }

  /** Every operation is the original or the final one. */
  ghost predicate IsPartlyProtected(t: View, ops: seq<nat>, seen: seq<nat>) {
    |seen| == |ops| && forall j: nat :: j < |ops| ==> seen[j] == ops[j] || seen[j] == ProtectedOp(t, ops, j)
  }

  /** Walking up over partly updated operations leads to the same decision. */
  lemma {:induction false} ProtectedOpIsStable(t: View, ops: seq<nat>, seen: seq<nat>, i: nat)
    requires IsPartlyProtected(t, ops, seen) && i < |ops| && ops[0] != 0
    ensures ClosestKept(t.parents, ops, i) <= ClosestKept(t.parents, seen, i)
    ensures var a, b := ClosestKept(t.parents, ops, i), ClosestKept(t.parents, seen, i);
            seen[b] == ops[a] && ops[a] != 0 && (a != b ==> StartOf(t, b) == StartOf(t, a))
    ensures ProtectedOp(t, seen, i) == ProtectedOp(t, ops, i)
    decreases i
  {
    if i > 0 && ops[i] == 0 && seen[i] == 0 {
      ProtectedOpIsStable(t, ops, seen, Parent(t.parents, i));
    } else if i > 0 && ops[i] == 0 {
      KeptOpIsNotZero(t.parents, ops, i);
    }
  }

  lemma {:induction false} KeptOpIsNotZero(parents: seq<nat>, ops: seq<nat>, i: nat)
    requires i < |ops| && ops[0] != 0
    ensures ops[ClosestKept(parents, ops, i)] != 0
    decreases i
  {
    if i > 0 && ops[i] == 0 { KeptOpIsNotZero(parents, ops, Parent(parents, i)); }
  }
}
