/** Splitting and merging the leaves of a cornerstone array. */
module Rebalance {
  import opened Keys
  import opened CornerstoneArray
  import opened Scan

  // ------------------------------------------------------------ node operations

  /** Height gained by node operation `op`: 8 splits a leaf into its children, 64 into its
      grandchildren, and so on. The `log8ceil` of the operation. */
  function OpLevels(op: nat): (k: nat) {
    if op <= 1 then 0 else if op <= 8 then 1 else if op <= 64 then 2 else if op <= 512 then 3 else 4
  }

  /** The operations that the program produces: drop the leaf key, keep it, or split the leaf. */
  predicate IsOp(op: nat) {
    op == 0 || op == 1 || op == 8 || op == 64 || op == 512 || op == 4096
  }

  lemma OpIsPower(op: nat)
    requires IsOp(op) && op > 0
    ensures op == Pow8(OpLevels(op))
  {
    assert Pow8(0) == 1 && Pow8(1) == 8 && Pow8(2) == 64 && Pow8(3) == 512 && Pow8(4) == 4096;
  }

  /** The start keys of n cells of height h. */
  ghost function Cells(s: nat, h: nat, n: nat): (c: seq<nat>)
    ensures |c| == n
    ensures n > 0 ==> c[0] == s
  {
    if n == 0 then [] else Cells(s, h, n - 1) + [NthCell(s, h, n - 1)]
  }

  lemma {:induction false} CellsAt(s: nat, h: nat, n: nat)
    ensures forall j: nat :: j < n ==> Cells(s, h, n)[j] == NthCell(s, h, j)
  {
    if n > 0 { CellsAt(s, h, n - 1); }
  }

  /** Height of leaf i. */
  function LeafHeight(tree: seq<nat>, i: nat): (h: nat)
    requires i + 1 < |tree|
  {
    if tree[i] < tree[i + 1] then Log8(tree[i + 1] - tree[i]) else 0
  }

  /** What leaf i turns into. */
  ghost function Piece(tree: seq<nat>, ops: seq<nat>, i: nat): (c: seq<nat>)
    requires |ops| + 1 == |tree| && i < |ops|
  {
    if OpLevels(ops[i]) <= LeafHeight(tree, i)
    then Cells(tree[i], LeafHeight(tree, i) - OpLevels(ops[i]), ops[i])
    else []
  }

  /** Operations that fit the tree: none splits a leaf below the smallest cell. */
  ghost predicate OpsFit(tree: seq<nat>, ops: seq<nat>) {
    |ops| + 1 == |tree| && forall i: nat :: i < |ops| ==> FitsAt(tree, ops, i)
  }

  ghost predicate FitsAt(tree: seq<nat>, ops: seq<nat>, i: nat)
    requires |ops| + 1 == |tree| && i < |ops|
  {
    IsOp(ops[i]) && OpLevels(ops[i]) <= LeafHeight(tree, i)
  }

  /** The pieces of the first n leaves. */
  ghost function Pieces(tree: seq<nat>, ops: seq<nat>, n: nat): (c: seq<nat>)
    requires |ops| + 1 == |tree| && n <= |ops|
  {
    if n == 0 then [] else Pieces(tree, ops, n - 1) + Piece(tree, ops, n - 1)
  }

  /** The tree after all node operations. */
  ghost function Rebalanced(tree: seq<nat>, ops: seq<nat>): (c: seq<nat>)
    requires |ops| + 1 == |tree|
  {
    Pieces(tree, ops, |ops|) + [tree[|ops|]]
  }

  lemma {:induction false} PiecesLength(tree: seq<nat>, ops: seq<nat>, n: nat)
    requires OpsFit(tree, ops) && n <= |ops|
    ensures |Pieces(tree, ops, n)| == PrefixSum(ops, n)
  {
    if n > 0 {
      PiecesLength(tree, ops, n - 1);
      assert FitsAt(tree, ops, n - 1);
    }
  }

  // ------------------------------------------------------------- in-place passes

  /** Write one more key behind those that have been written. */
  method WriteKey(newTree: array<nat>, at: nat, n: nat, key: nat, ghost before: seq<nat>, ghost cells: seq<nat>)
    requires Spliced(before, newTree[..], at, cells) && |cells| == n && at + n < newTree.Length
    modifies newTree
    ensures Spliced(before, newTree[..], at, cells + [key])
  {
    ghost var mid := newTree[..];
    SpliceOne(before, mid, at, cells, key);
    newTree[at + n] := key;
    assert newTree[..] == mid[at + n := key];
  }

  /** Write the start keys of n cells of height h. */
  method WriteCells(newTree: array<nat>, at: nat, s: nat, h: nat, n: nat)
    requires at + n <= newTree.Length
    modifies newTree
    ensures Spliced(old(newTree[..]), newTree[..], at, Cells(s, h, n))
  {
    ghost var before := newTree[..];
    var sibling := 0;
    while sibling < n
      invariant sibling <= n
      invariant Spliced(before, newTree[..], at, Cells(s, h, sibling))
    {
      var key := CellKey(s, h, sibling);
      WriteKey(newTree, at, sibling, key, before, Cells(s, h, sibling));
      sibling := sibling + 1;
    }
  }

  /** Write what leaf `nodeIndex` turns into to the new tree; `nodeOps` holds the scanned operations. */
  method ProcessNode(nodeIndex: nat, oldTree: seq<nat>, nodeOps: array<nat>, newTree: array<nat>, L: nat,
                     ghost ops: seq<nat>)
    requires |ops| + 1 == |oldTree| && nodeIndex < |ops| && FitsAt(oldTree, ops, nodeIndex)
    requires CellAt(oldTree, nodeIndex) && oldTree[nodeIndex + 1] <= Pow8(L)
    requires nodeOps != newTree && nodeOps.Length == |ops| + 1
    requires nodeOps[nodeIndex] == PrefixSum(ops, nodeIndex)
    requires nodeOps[nodeIndex + 1] == PrefixSum(ops, nodeIndex + 1) < newTree.Length
    modifies newTree
    ensures Spliced(old(newTree[..]), newTree[..], PrefixSum(ops, nodeIndex), Piece(oldTree, ops, nodeIndex))
  {
    var thisNode := oldTree[nodeIndex];
    var range := oldTree[nodeIndex + 1] - thisNode;
    if Log8(range) > L { Pow8Monotone(L + 1, Log8(range)); }
    var level := L - Log8(range);
    var opCode := nodeOps[nodeIndex + 1] - nodeOps[nodeIndex];
    var newNodeIndex := nodeOps[nodeIndex];
    ghost var before := newTree[..];
    if opCode == 1 {
      newTree[newNodeIndex] := thisNode;
      assert newTree[..] == before[newNodeIndex := thisNode];
      assert Piece(oldTree, ops, nodeIndex) == [] + [thisNode];
      SpliceOne(before, before, newNodeIndex, [], thisNode);
    } else if opCode == 8 {
      WriteCells(newTree, newNodeIndex, thisNode, L - (level + 1), 8);
    } else if opCode > 8 {
      var levelDiff := OpLevels(opCode);
      WriteCells(newTree, newNodeIndex, thisNode, L - (level + levelDiff), opCode);
    }
  }

  /** Apply one operation per leaf. `nodeOps` has one element more than there are leaves, and is
      overwritten by its own scan. */
  method RebalanceTree(tree: seq<nat>, nodeOps: array<nat>, L: nat) returns (newTree: array<nat>)
    requires Cornerstone(tree, L) && nodeOps.Length == |tree|
    requires OpsFit(tree, nodeOps[..|tree| - 1])
    modifies nodeOps
    ensures fresh(newTree)
    ensures newTree[..] == Rebalanced(tree, old(nodeOps[..|tree| - 1]))
  {
    var numNodes := |tree| - 1;
    ghost var ops := nodeOps[..numNodes];
    ScanOps(nodeOps, numNodes);
    newTree := new nat[nodeOps[numNodes] + 1](_ => 0);
    for i := 0 to numNodes
      invariant fresh(newTree) && newTree.Length == PrefixSum(ops, numNodes) + 1
      invariant IsScan(nodeOps[..], ops)
      invariant PrefixSum(ops, i) < newTree.Length
      invariant newTree[..PrefixSum(ops, i)] == Pieces(tree, ops, i)
    {
      assert CellAt(tree, i) && FitsAt(tree, ops, i) && tree[i + 1] <= tree[numNodes];
      assert nodeOps[i] == nodeOps[..][i] && nodeOps[i + 1] == nodeOps[..][i + 1];
      PrefixSumMonotone(ops, i + 1, numNodes);
      ghost var before := newTree[..];
      ProcessNode(i, tree, nodeOps, newTree, L, ops);
      PieceWritten(tree, ops, i, before, newTree[..]);
    }
    PiecesLength(tree, ops, numNodes);
    newTree[newTree.Length - 1] := tree[numNodes];
    assert newTree[..] == newTree[..newTree.Length - 1] + [tree[numNodes]];
  }

  lemma PieceWritten(tree: seq<nat>, ops: seq<nat>, i: nat, before: seq<nat>, after: seq<nat>)
    requires |ops| + 1 == |tree| && i < |ops| && FitsAt(tree, ops, i) && PrefixSum(ops, i) <= |before|
    requires before[..PrefixSum(ops, i)] == Pieces(tree, ops, i)
    requires Spliced(before, after, PrefixSum(ops, i), Piece(tree, ops, i))
    ensures |after| == |before| && PrefixSum(ops, i + 1) <= |after|
    ensures after[..PrefixSum(ops, i + 1)] == Pieces(tree, ops, i + 1)
  {
    SplicedPrefix(before, after, PrefixSum(ops, i), Piece(tree, ops, i));
  }

  ghost predicate IsScan(scan: seq<nat>, ops: seq<nat>) {
    |scan| == |ops| + 1 && forall k: nat :: k <= |ops| ==> scan[k] == PrefixSum(ops, k)
  }

  method ScanOps(nodeOps: array<nat>, numNodes: nat)
    requires nodeOps.Length == numNodes + 1
    modifies nodeOps
    ensures IsScan(nodeOps[..], old(nodeOps[..numNodes]))
  {
    ghost var ops, all := nodeOps[..numNodes], nodeOps[..];
    ExclusiveScan(nodeOps, numNodes + 1);
    forall k: nat | k <= numNodes ensures nodeOps[..][k] == PrefixSum(ops, k) {
      assert all[..k] == ops[..k];
      PrefixSumOf(all, ops, k);
    }
  }

  // ------------------------------------------- when the result is an octree again

  /** First key at or after position i that is not dropped; the last key never is. */
  ghost function NextKept(tree: seq<nat>, ops: seq<nat>, i: nat): (k: nat)
    requires |ops| + 1 == |tree| && i <= |ops|
    decreases |ops| - i
  {
    if i == |ops| || ops[i] != 0 then tree[i] else NextKept(tree, ops, i + 1)
  }

  /** Dropped keys leave cells behind, and no leaf is split and merged at the same time. */
  ghost predicate MergesWhole(tree: seq<nat>, ops: seq<nat>) {
    && |ops| + 1 == |tree| && |ops| > 0 && ops[0] != 0
    && forall i: nat :: i < |ops| ==> MergeAt(tree, ops, i)
  }

  ghost predicate MergeAt(tree: seq<nat>, ops: seq<nat>, i: nat)
    requires |ops| + 1 == |tree| && i < |ops|
  {
    ops[i] != 0 ==>
      && IsCell(tree[i], NextKept(tree, ops, i + 1))
      && (ops[i] > 1 ==> NextKept(tree, ops, i + 1) == tree[i + 1])
  }

  ghost predicate IsChain(c: seq<nat>) {
    |c| > 0 && Ascending(c) && forall i: nat :: i < |c| - 1 ==> CellAt(c, i)
  }

  /** Two chains that meet are one chain. */
  lemma JoinChains(x: seq<nat>, y: seq<nat>)
    requires y != [] && IsChain(x + [y[0]]) && IsChain(y)
    ensures IsChain(x + y)
  {
    var c, xy := x + y, x + [y[0]];
    forall i, j | 0 <= i < j < |c| ensures c[i] < c[j] {
      if i < |x| {
        assert c[i] == xy[i];
        assert j < |x| ==> c[j] == xy[j];
        assert xy[|x|] == y[0];
      }
    }
    forall i: nat | i < |c| - 1 ensures CellAt(c, i) {
      if i < |x| {
        assert CellAt(xy, i);
        assert c[i] == xy[i] && c[i + 1] == xy[i + 1];
      } else {
        assert CellAt(y, i - |x|);
      }
    }
  }

  /** A row of cells of one size is a chain. */
  lemma {:induction false} CellsAreChain(s: nat, h: nat, n: nat)
    requires Aligned(s, h)
    ensures IsChain(Cells(s, h, n) + [NthCell(s, h, n)])
  {
    if n == 0 {
      assert Cells(s, h, 0) + [s] == [s];
    } else {
      CellsAreChain(s, h, n - 1);
      var m := NthCell(s, h, n - 1);
      NthAligned(s, h, n - 1);
      CellHeight(m, h);
      var last: seq<nat> := [m, m + Pow8(h)];
      assert IsChain(last);
      JoinChains(Cells(s, h, n - 1), last);
      assert Cells(s, h, n - 1) + last == Cells(s, h, n) + [NthCell(s, h, n)];
    }
  }

  lemma PieceIsChain(tree: seq<nat>, ops: seq<nat>, i: nat)
    requires |ops| + 1 == |tree| && i < |ops| && CellAt(tree, i) && FitsAt(tree, ops, i) && ops[i] > 1
    ensures IsChain(Piece(tree, ops, i) + [tree[i + 1]]) && |Piece(tree, ops, i)| > 0
    ensures Piece(tree, ops, i)[0] == tree[i]
  {
    var k, h := OpLevels(ops[i]), LeafHeight(tree, i);
    OpIsPower(ops[i]);
    NthPower(tree[i], h - k, k);
    AlignedWeaken(tree[i], h - k, h);
    CellsAreChain(tree[i], h - k, ops[i]);
  }

  lemma {:induction false} NthPower(a: nat, h: nat, k: nat)
    ensures NthCell(a, h, Pow8(k)) == a + Pow8(h + k)
    decreases k
  {
    if k == 0 {
      EightCells(a, h);
    } else {
      NthEight(a, h, Pow8(k - 1));
      NthPower(a, h + 1, k - 1);
    }
  }

  /** The pieces of the leaves from i on. */
  ghost function Rest(tree: seq<nat>, ops: seq<nat>, i: nat): (c: seq<nat>)
    requires |ops| + 1 == |tree| && i <= |ops|
    decreases |ops| - i
  {
    if i == |ops| then [tree[i]] else Piece(tree, ops, i) + Rest(tree, ops, i + 1)
  }

  lemma {:induction false} PiecesAndRest(tree: seq<nat>, ops: seq<nat>, i: nat)
    requires |ops| + 1 == |tree| && i <= |ops|
    ensures Rebalanced(tree, ops) == Pieces(tree, ops, i) + Rest(tree, ops, i)
    decreases |ops| - i
  {
    if i < |ops| {
      PiecesAndRest(tree, ops, i + 1);
      OnePieceMore(tree, ops, i);
    }
  }

  lemma OnePieceMore(tree: seq<nat>, ops: seq<nat>, i: nat)
    requires |ops| + 1 == |tree| && i < |ops|
    ensures Pieces(tree, ops, i + 1) + Rest(tree, ops, i + 1) == Pieces(tree, ops, i) + Rest(tree, ops, i)
  {
    ConcatAssoc(Pieces(tree, ops, i), Piece(tree, ops, i), Rest(tree, ops, i + 1));
  }

  lemma ConcatAssoc(x: seq<nat>, y: seq<nat>, z: seq<nat>)
    ensures x + y + z == x + (y + z)
  {
  }

  lemma {:induction false} RestIsChain(tree: seq<nat>, ops: seq<nat>, i: nat, L: nat)
    requires Cornerstone(tree, L) && OpsFit(tree, ops) && MergesWhole(tree, ops) && i <= |ops|
    ensures IsChain(Rest(tree, ops, i)) && Rest(tree, ops, i)[0] == NextKept(tree, ops, i)
    decreases |ops| - i
  {
    if i < |ops| {
      RestIsChain(tree, ops, i + 1, L);
      assert FitsAt(tree, ops, i) && MergeAt(tree, ops, i) && CellAt(tree, i);
      var rest := Rest(tree, ops, i + 1);
      if ops[i] == 1 {
        assert Piece(tree, ops, i) == [tree[i]];
        PrependCell(tree[i], rest);
      } else if ops[i] > 1 {
        PieceIsChain(tree, ops, i);
        JoinChains(Piece(tree, ops, i), rest);
      } else {
        assert Piece(tree, ops, i) + rest == rest;
      }
    }
  }

  lemma PrependCell(lo: nat, rest: seq<nat>)
    requires IsChain(rest) && IsCell(lo, rest[0])
    ensures IsChain([lo] + rest)
  {
    var x: seq<nat> := [lo];
    var two := x + [rest[0]];
    assert two[0] == lo && two[1] == rest[0];
    assert IsChain(two);
    JoinChains(x, rest);
  }

  lemma {:induction false} RestEnds(tree: seq<nat>, ops: seq<nat>, i: nat)
    requires OpsFit(tree, ops) && i <= |ops|
    ensures var r := Rest(tree, ops, i); |r| > 0 && r[|r| - 1] == tree[|ops|]
    ensures i < |ops| && ops[i] != 0 ==> |Rest(tree, ops, i)| > 1
    decreases |ops| - i
  {
    if i < |ops| {
      RestEnds(tree, ops, i + 1);
      assert FitsAt(tree, ops, i);
    }
  }

  /** Node operations that merge whole cells turn an octree into an octree. */
  lemma RebalancedIsCornerstone(tree: seq<nat>, ops: seq<nat>, L: nat)
    requires Cornerstone(tree, L) && OpsFit(tree, ops) && MergesWhole(tree, ops)
    ensures Cornerstone(Rebalanced(tree, ops), L)
  {
    PiecesAndRest(tree, ops, 0);
    RestIsChain(tree, ops, 0, L);
    RestEnds(tree, ops, 0);
    assert Rebalanced(tree, ops) == Rest(tree, ops, 0);
  }

  /** The keys of the new tree are those of the pieces. */
  lemma {:induction false} KeysOfPieces(tree: seq<nat>, ops: seq<nat>, n: nat, k: nat)
    requires |ops| + 1 == |tree| && n <= |ops|
    ensures k in Pieces(tree, ops, n) <==> exists i: nat :: i < n && k in Piece(tree, ops, i)
  {
    if n > 0 { KeysOfPieces(tree, ops, n - 1, k); }
  }

  /** A key that is not dropped is a key of the new tree. */
  lemma KeptKeyRemains(tree: seq<nat>, ops: seq<nat>, m: nat)
    requires OpsFit(tree, ops) && m <= |ops| && (m < |ops| ==> ops[m] != 0)
    ensures tree[m] in Rebalanced(tree, ops)
  {
    if m < |ops| {
      assert FitsAt(tree, ops, m);
      assert Piece(tree, ops, m)[0] == tree[m];
      KeysOfPieces(tree, ops, |ops|, tree[m]);
    }
  }

  /** A split adds the boundaries of the smaller cells. */
  lemma SplitAdds(tree: seq<nat>, ops: seq<nat>, i: nat, j: nat)
    requires OpsFit(tree, ops) && i < |ops| && j < ops[i]
    ensures OpLevels(ops[i]) <= LeafHeight(tree, i)
    ensures NthCell(tree[i], LeafHeight(tree, i) - OpLevels(ops[i]), j) in Rebalanced(tree, ops)
  {
    assert FitsAt(tree, ops, i);
    var g := LeafHeight(tree, i) - OpLevels(ops[i]);
    CellsAt(tree[i], g, ops[i]);
    assert Piece(tree, ops, i)[j] == NthCell(tree[i], g, j);
    KeysOfPieces(tree, ops, |ops|, NthCell(tree[i], g, j));
  }

  /** The pieces of a leaf lie inside it. */
  lemma PieceInside(tree: seq<nat>, ops: seq<nat>, i: nat, key: nat)
    requires OpsFit(tree, ops) && i < |ops| && CellAt(tree, i) && key in Piece(tree, ops, i)
    ensures tree[i] <= key < tree[i + 1] && ops[i] != 0
  {
    assert FitsAt(tree, ops, i);
    var h, levels := LeafHeight(tree, i), OpLevels(ops[i]);
    var j: nat :| j < |Piece(tree, ops, i)| && Piece(tree, ops, i)[j] == key;
    CellsAt(tree[i], h - levels, ops[i]);
    OpIsPower(ops[i]);
    NthMonotone(tree[i], h - levels, j, ops[i]);
    NthPower(tree[i], h - levels, levels);
  }

  /** A key that is new lies inside a leaf that is split. */
  lemma NewKeyIsInside(tree: seq<nat>, ops: seq<nat>, key: nat, L: nat) returns (i: nat)
    requires Cornerstone(tree, L) && OpsFit(tree, ops) && key in Rebalanced(tree, ops) && key !in tree
    ensures i < |ops| && ops[i] > 1 && tree[i] < key < tree[i + 1] && key in Piece(tree, ops, i)
  {
    KeysOfPieces(tree, ops, |ops|, key);
    assert tree[|ops|] in tree;
    i :| i < |ops| && key in Piece(tree, ops, i);
    assert CellAt(tree, i) && FitsAt(tree, ops, i) && tree[i] in tree;
    PieceInside(tree, ops, i, key);
    KeptPiece(tree, ops, i);
  }

  lemma KeptPiece(tree: seq<nat>, ops: seq<nat>, i: nat)
    requires OpsFit(tree, ops) && i < |ops|
    ensures ops[i] == 1 ==> Piece(tree, ops, i) == [tree[i]]
  {
    assert FitsAt(tree, ops, i);
  }

  /** If every operation is 1, nothing changes. */
  lemma {:induction false} AllKept(tree: seq<nat>, ops: seq<nat>, n: nat)
    requires OpsFit(tree, ops) && n <= |ops| && forall i: nat :: i < n ==> ops[i] == 1
    ensures Pieces(tree, ops, n) == tree[..n]
  {
    if n > 0 {
      AllKept(tree, ops, n - 1);
      var last: seq<nat> := [tree[n - 1]];
      assert Piece(tree, ops, n - 1) == last by { assert FitsAt(tree, ops, n - 1); }
      assert tree[..n] == tree[..n - 1] + last;
    }
  }

  lemma UnchangedTree(tree: seq<nat>, ops: seq<nat>)
    requires OpsFit(tree, ops) && forall i: nat :: i < |ops| ==> ops[i] == 1
    ensures Rebalanced(tree, ops) == tree
  {
    AllKept(tree, ops, |ops|);
    assert tree == tree[..|ops|] + [tree[|ops|]];
  }

  /** A dropped key is not in the new octree. */
  lemma DroppedKeyIsGone(tree: seq<nat>, ops: seq<nat>, k: nat, L: nat)
    requires Cornerstone(tree, L) && OpsFit(tree, ops) && k < |ops| && ops[k] == 0
    ensures tree[k] !in Rebalanced(tree, ops)
  {
    KeysOfPieces(tree, ops, |ops|, tree[k]);
    forall i: nat | i < |ops| ensures tree[k] !in Piece(tree, ops, i) {
      OneLeafContains(tree, i, k);
      assert CellAt(tree, i);
      if tree[k] in Piece(tree, ops, i) { PieceInside(tree, ops, i, tree[k]); }
    }
  }

  lemma OneLeafContains(tree: seq<nat>, i: nat, k: nat)
    requires Ascending(tree) && i + 1 < |tree| && k < |tree|
    ensures tree[i] <= tree[k] < tree[i + 1] ==> i == k
  {
  }

  /** The octree is unchanged exactly if every leaf is kept as it is. */
  lemma UnchangedIffAllOne(tree: seq<nat>, ops: seq<nat>, L: nat)
    requires Cornerstone(tree, L) && OpsFit(tree, ops)
    ensures Rebalanced(tree, ops) == tree <==> forall k: nat :: k < |ops| ==> ops[k] == 1
  {
    if forall k: nat :: k < |ops| ==> ops[k] == 1 {
      UnchangedTree(tree, ops);
    } else {
      var k: nat :| k < |ops| && ops[k] != 1;
      assert tree[k] in tree;
      if ops[k] == 0 {
        DroppedKeyIsGone(tree, ops, k, L);
      } else {
        SplitAddsKey(tree, ops, k, L);
      }
    }
  }

  lemma SplitAddsKey(tree: seq<nat>, ops: seq<nat>, k: nat, L: nat)
    requires Cornerstone(tree, L) && OpsFit(tree, ops) && k < |ops| && ops[k] > 1
    ensures Rebalanced(tree, ops) != tree
  {
    assert FitsAt(tree, ops, k) && CellAt(tree, k);
    var h, levels := LeafHeight(tree, k), OpLevels(ops[k]);
    OpIsPower(ops[k]);
    SplitAdds(tree, ops, k, 1);
    NthMonotone(tree[k], h - levels, 1, ops[k]);
    NthPower(tree[k], h - levels, levels);
    EightCells(tree[k], h - levels);
    var key := NthCell(tree[k], h - levels, 1);
    if key in tree {
      var i: nat :| i < |tree| && tree[i] == key;
      NoKeyInside(tree, i, k);
    }
  }

  /** The keys that are not dropped. */
  ghost function KeptKeys(tree: seq<nat>, ops: seq<nat>): (s: set<nat>)
    requires |ops| + 1 == |tree|
  {
    (set i | 0 <= i < |ops| && ops[i] != 0 :: tree[i]) + {tree[|ops|]}
  }

  lemma {:induction false} NextKeptIsKept(tree: seq<nat>, ops: seq<nat>, i: nat)
    requires |ops| + 1 == |tree| && i <= |ops| && Ascending(tree)
    ensures NextKept(tree, ops, i) in KeptKeys(tree, ops) && tree[i] <= NextKept(tree, ops, i)
    ensures forall k: nat :: tree[i] <= k < NextKept(tree, ops, i) ==> k !in KeptKeys(tree, ops)
    decreases |ops| - i
  {
    if i < |ops| && ops[i] == 0 {
      NextKeptIsKept(tree, ops, i + 1);
      forall k: nat | tree[i] <= k < NextKept(tree, ops, i) ensures k !in KeptKeys(tree, ops) {
        KeptIsNotBetween(tree, ops, i, k);
      }
    }
  }

  lemma KeptIsNotBetween(tree: seq<nat>, ops: seq<nat>, i: nat, k: nat)
    requires |ops| + 1 == |tree| && i < |ops| && Ascending(tree)
    ensures k in KeptKeys(tree, ops) && tree[i] <= k < tree[i + 1] ==> k == tree[i] && ops[i] != 0
  {
    if k in KeptKeys(tree, ops) {
      var m: nat :| m <= |ops| && tree[m] == k && (m == |ops| || ops[m] != 0);
    }
  }

  /** Merging is sound when the keys that remain are those of an octree, and split leaves are not
      merged over. */
  lemma KeptOctreeMergesWhole(tree: seq<nat>, ops: seq<nat>, L: nat)
    requires Cornerstone(tree, L) && |ops| + 1 == |tree|
    requires CornerstoneSet(KeptKeys(tree, ops), L)
    requires forall i: nat :: i < |ops| - 1 && ops[i] > 1 ==> ops[i + 1] != 0
    ensures MergesWhole(tree, ops)
  {
    var K := KeptKeys(tree, ops);
    assert 0 in K;
    var z: nat :| z <= |ops| && tree[z] == 0 && (z == |ops| || ops[z] != 0);
    assert z == 0;
    forall i: nat | i < |ops| ensures MergeAt(tree, ops, i) {
      if ops[i] != 0 {
        var next := NextKept(tree, ops, i + 1);
        NextKeptIsKept(tree, ops, i + 1);
        assert tree[i] in K;
        forall k: nat | tree[i] < k < next ensures k !in K {
          KeptIsNotBetween(tree, ops, i, k);
        }
        AlignedZero(L);
        assert tree[i] < tree[|ops|];
        NeighboursAreCell(K, L, 0, L, tree[i], next);
      }
    }
  }
}
