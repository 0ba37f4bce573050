/** The octree with its internal nodes: nodes sorted by level and key, linked to children and parents. */
module OctreeLinks {
  import opened Keys
  import opened CornerstoneArray
  import opened InOrder
  import LeafUpdate
  import Rebalance

  // ------------------------------------------------------------- node codes

  /** `encodePlaceholderBit(k, 3 * level)`: the leading octal digits of a key behind a 1-bit. */
  function EncodePlaceholderBit(k: nat, level: nat, L: nat): (code: nat)
    requires level <= L
    ensures code >= 1
  {
    Pow8(level) + Shift(k, L - level)
  }

  /** Code of the cell (s, h). */
  function Code(s: nat, h: nat, L: nat): (code: nat)
    ensures code >= 1
  {
    EncodePlaceholderBit(s, if h <= L then L - h else 0, L)
  }

  lemma {:induction false} Log8OfCode(level: nat, q: nat)
    requires q < Pow8(level)
    ensures Log8(Pow8(level) + q) == level
  {
    if level > 0 {
      Log8OfCode(level - 1, q / 8);
      assert (Pow8(level) + q) / 8 == Pow8(level - 1) + q / 8;
    }
  }

  lemma {:induction false} ShiftBound(s: nat, h: nat, L: nat)
    requires h <= L && s < Pow8(L)
    ensures Shift(s, h) < Pow8(L - h)
  {
    if h > 0 { ShiftBound(s / 8, h - 1, L - 1); }
  }

  /** The level of a cell is that of its code, `decodePrefixLength(code) / 3`. */
  lemma CodeLevel(s: nat, h: nat, L: nat)
    requires h <= L && s < Pow8(L)
    ensures Log8(Code(s, h, L)) == L - h
  {
    ShiftBound(s, h, L);
    Log8OfCode(L - h, Shift(s, h));
  }

  /** Start key of the cell with a given code, `decodePlaceholderBit`. */
  function DecodePlaceholderBit(code: nat, L: nat): (k: nat)
    requires Log8(code) <= L
  {
    DecodeAt(code, Log8(code), L)
  }

  function DecodeAt(code: nat, level: nat, L: nat): (k: nat)
    requires level <= L
  {
    if code < Pow8(level) then 0 else CellKey(0, L - level, code - Pow8(level))
  }

  lemma {:induction false} ShiftOfAligned(s: nat, h: nat)
    requires Aligned(s, h)
    ensures NthCell(0, h, Shift(s, h)) == s
  {
    if h == 0 {
      NthUnit(0, s);
    } else {
      ShiftOfAligned(s / 8, h - 1);
      NthTimes8(0, h - 1, Shift(s, h));
    }
  }

  /** Decoding inverts encoding. */
  lemma DecodeEncode(s: nat, h: nat, L: nat)
    requires h <= L && s < Pow8(L) && Aligned(s, h)
    ensures Log8(Code(s, h, L)) == L - h && DecodePlaceholderBit(Code(s, h, L), L) == s
  {
    CodeLevel(s, h, L);
    ShiftOfAligned(s, h);
    assert DecodeAt(Pow8(L - h) + Shift(s, h), L - h, L) == NthCell(0, h, Shift(s, h));
  }

  /** Cells with the same code are the same. */
  lemma CodeInjective(s: nat, h: nat, t: nat, g: nat, L: nat)
    requires h <= L && g <= L && s < Pow8(L) && t < Pow8(L) && Aligned(s, h) && Aligned(t, g)
    requires Code(s, h, L) == Code(t, g, L)
    ensures s == t && h == g
  {
    DecodeEncode(s, h, L);
    DecodeEncode(t, g, L);
  }

  /** The parent's code drops the last octal digit; the digit is the child number. */
  lemma ParentCode(s: nat, h: nat, L: nat)
    requires h < L
    ensures Code(s, h, L) / 8 == Code(Floor(s, h + 1), h + 1, L)
    ensures Code(s, h, L) % 8 == Digit(s, h)
  {
    ShiftMore(s, h);
    ShiftOfFloor(s, h + 1);
  }

  lemma {:induction false} ShiftOfFloor(s: nat, h: nat)
    ensures Shift(Floor(s, h), h) == Shift(s, h)
  {
    if h > 0 { ShiftOfFloor(s / 8, h - 1); }
  }

  lemma ChildCode(s: nat, h: nat, d: nat, L: nat)
    requires 1 <= h <= L && d < 8 && Aligned(s, h)
    ensures Code(ChildStart(s, h, d), h - 1, L) == 8 * Code(s, h, L) + d
  {
    LeafUpdate.GroupDigit(s, h, d);
    ParentCode(ChildStart(s, h, d), h - 1, L);
  }

  // ------------------------------------------------ the unsorted layout of the nodes

  /** Code of the internal node of flagged leaf j. */
  ghost function InternalCode(leaves: seq<nat>, j: nat, L: nat): (c: nat)
    requires j + 1 < |leaves|
  {
    Code(Floor(leaves[j], NodeHeight(leaves, j, L)), NodeHeight(leaves, j, L), L)
  }

  /** Codes of the internal nodes, in the order of the flagged leaves before leaf n. */
  ghost function InternalCodes(leaves: seq<nat>, n: nat, L: nat): (c: seq<nat>)
    requires n < |leaves|
    ensures |c| == FlagCount(leaves, n, L)
  {
    if n == 0 then []
    else InternalCodes(leaves, n - 1, L) +
         (if IsFlagged(leaves, n - 1, L) then [InternalCode(leaves, n - 1, L)] else [])
  }

  /** Code of leaf i. */
  ghost function LeafCode(leaves: seq<nat>, i: nat, L: nat): (c: nat)
    requires i + 1 < |leaves|
  {
    Code(leaves[i], Rebalance.LeafHeight(leaves, i), L)
  }

  ghost function LeafCodes(leaves: seq<nat>, n: nat, L: nat): (c: seq<nat>)
    requires n < |leaves|
    ensures |c| == n
  {
    if n == 0 then [] else LeafCodes(leaves, n - 1, L) + [LeafCode(leaves, n - 1, L)]
  }

  /** Internal nodes at their in-order index, followed by the leaves. */
  ghost function UnsortedCodes(leaves: seq<nat>, L: nat): (c: seq<nat>)
    requires |leaves| > 0
    ensures |c| == FlagCount(leaves, |leaves| - 1, L) + |leaves| - 1
  {
    InternalCodes(leaves, |leaves| - 1, L) + LeafCodes(leaves, |leaves| - 1, L)
  }

  lemma {:induction false} FlagCountMonotone(leaves: seq<nat>, i: nat, j: nat, L: nat)
    requires i <= j < |leaves|
    ensures FlagCount(leaves, i, L) <= FlagCount(leaves, j, L)
    ensures InternalCodes(leaves, i, L) <= InternalCodes(leaves, j, L)
    decreases j
  {
    if i < j { FlagCountMonotone(leaves, i, j - 1, L); }
  }

  /** Encoding of a leaf key at the level of the node gives the code of the node. */
  lemma EncodeOfFlagged(leaves: seq<nat>, j: nat, L: nat)
    requires Cornerstone(leaves, L) && j + 1 < |leaves| && IsFlagged(leaves, j, L) && 3 * L < 0x1_0000_0000
    ensures PrefixLength(leaves, j, L) / 3 <= L
    ensures EncodePlaceholderBit(leaves[j], PrefixLength(leaves, j, L) / 3, L) == InternalCode(leaves, j, L)
  {
    FlaggedIsMiddle(leaves, j, L);
    ShiftOfFloor(leaves[j], NodeHeight(leaves, j, L));
  }

  /** Leaf i is element i of the second part of the layout; the node of flagged leaf j is at its
      in-order index in the first part. */
  lemma {:induction false} LeafCodeAt(leaves: seq<nat>, n: nat, i: nat, L: nat)
    requires i < n < |leaves|
    ensures LeafCodes(leaves, n, L)[i] == LeafCode(leaves, i, L)
  {
    if i < n - 1 { LeafCodeAt(leaves, n - 1, i, L); }
  }

  lemma UnsortedAt(leaves: seq<nat>, i: nat, L: nat)
    requires i + 1 < |leaves|
    ensures var n := |leaves| - 1;
            && UnsortedCodes(leaves, L)[FlagCount(leaves, n, L) + i] == LeafCode(leaves, i, L)
            && (IsFlagged(leaves, i, L) ==>
                  FlagCount(leaves, i, L) < FlagCount(leaves, n, L) &&
                  UnsortedCodes(leaves, L)[FlagCount(leaves, i, L)] == InternalCode(leaves, i, L))
  {
    var n := |leaves| - 1;
    LeafCodeAt(leaves, n, i, L);
    FlagCountMonotone(leaves, i + 1, n, L);
    if IsFlagged(leaves, i, L) {
      assert InternalCodes(leaves, i + 1, L)[FlagCount(leaves, i, L)] == InternalCode(leaves, i, L);
    }
  }

  function LeafNode(leaves: seq<nat>, tid: nat, L: nat): (code: nat)
    requires Cornerstone(leaves, L) && tid + 1 < |leaves|
    ensures code == LeafCode(leaves, tid, L)
  {
    LeafUpdate.LevelInRange(leaves, tid, L);
    EncodePlaceholderBit(leaves[tid], L - Log8(leaves[tid + 1] - leaves[tid]), L)
  }

  /** In-order index and code of the node of a flagged leaf. */
  method InternalNode(leaves: seq<nat>, tid: nat, L: nat) returns (octIndex: nat, code: nat)
    requires Cornerstone(leaves, L) && 3 * L < 0x1_0000_0000
    requires tid + 1 < |leaves| && IsFlagged(leaves, tid, L)
    ensures octIndex == FlagCount(leaves, tid, L) && code == InternalCode(leaves, tid, L)
  {
    var key, prefixLength := leaves[tid], PrefixLength(leaves, tid, L);
    InOrderIndex(leaves, tid, L);
    EncodeOfFlagged(leaves, tid, L);
    var weight := BinaryKeyWeight(key, prefixLength / 3, L);
    octIndex := (tid + weight) / 7;
    code := EncodePlaceholderBit(key, prefixLength / 3, L);
  }

  /** Compute the codes of all nodes: leaves at the end, internal nodes at their in-order index. */
  method CreateUnsortedLayout(leaves: seq<nat>, numInternalNodes: nat, numLeafNodes: nat,
                              prefixes: array<nat>, internalToLeaf: array<int>, L: nat)
    requires Cornerstone(leaves, L) && 3 * L < 0x1_0000_0000
    requires numLeafNodes == |leaves| - 1 && numInternalNodes == (numLeafNodes - 1) / 7
    requires prefixes.Length == internalToLeaf.Length == numInternalNodes + numLeafNodes
    modifies prefixes, internalToLeaf
    ensures prefixes[..] == UnsortedCodes(leaves, L)
    ensures forall i: nat :: i < internalToLeaf.Length ==> internalToLeaf[i] == i
  {
    NumInternalNodes(leaves, L);
    ghost var all := UnsortedCodes(leaves, L);
    var tid := 0;
    while tid < numLeafNodes
      invariant tid <= numLeafNodes && FlagCount(leaves, tid, L) <= numInternalNodes
      invariant forall i: nat {:trigger prefixes[i]} {:trigger internalToLeaf[i]} ::
                  i < FlagCount(leaves, tid, L) || numInternalNodes <= i < numInternalNodes + tid ==>
                  prefixes[i] == all[i] && internalToLeaf[i] == i
    {
      UnsortedAt(leaves, tid, L);
      prefixes[tid + numInternalNodes] := LeafNode(leaves, tid, L);
      internalToLeaf[tid + numInternalNodes] := tid + numInternalNodes;
      if PrefixLength(leaves, tid, L) % 3 == 0 && tid < numLeafNodes - 1 {
        var octIndex, code := InternalNode(leaves, tid, L);
        prefixes[octIndex] := code;
        internalToLeaf[octIndex] := octIndex;
      }
      tid := tid + 1;
    }
  }
}
