/** Parallel construction of the binary radix tree of a sorted sequence of codes. */
module BinaryTree {
  import opened Keys
  import opened CornerstoneArray
  import opened Counts
  import opened Curves
  import opened RadixTree

  /** Leaves are told from internal nodes by the sign of the stored index. */
  const LEAF_OFFSET: nat := 0x8000_0000

  predicate IsLeafIndex(nodeIndex: int) {
    nodeIndex < 0
  }

  function StoreLeafIndex(index: int): (stored: int) {
    index - LEAF_OFFSET
  }

  function LoadLeafIndex(stored: int): (index: int) {
    stored + LEAF_OFFSET
  }

  datatype BinaryNode = BinaryNode(left: int, right: int, prefix: nat)

  // ------------------------------------------------------------- bits

  /** The code without its lowest m bits. */
  function DropBits(x: nat, m: nat): (r: nat) {
    if m == 0 then x else DropBits(x / 2, m - 1)
  }

  /** `zeroLowBits` and `encodePlaceholderBit`: the leading bits of a code, after a 1. */
  function Prefix(code: nat, prefixLength: nat, L: nat): (prefix: nat)
    requires prefixLength <= 3 * L
  {
    var nShifts := 3 * L - prefixLength;
    Pow2(prefixLength) + DropBits(Round(code, nShifts), nShifts)
  }

  lemma {:induction false} DropRounded(x: nat, m: nat)
    ensures DropBits(Round(x, m), m) == DropBits(x, m)
  {
    if m > 0 { DropRounded(x / 2, m - 1); }
  }

  /** Codes agree above bit m exactly if their highest differing bit is at most bit m. */
  lemma {:induction false} SameLeadingBits(a: nat, b: nat, m: nat)
    ensures DropBits(a, m) == DropBits(b, m) <==> DiffBits(a, b) <= m
  {
    if m > 0 { SameLeadingBits(a / 2, b / 2, m - 1); }
  }

  lemma {:induction false} DiffBitsIsSymmetric(a: nat, b: nat)
    ensures DiffBits(a, b) == DiffBits(b, a)
    decreases a + b
  {
    if a != b { DiffBitsIsSymmetric(a / 2, b / 2); }
  }

  /** The highest differing bit of two codes, with a third one between them. */
  lemma {:induction false} CodeBetween(a: nat, b: nat, c: nat)
    requires a <= b <= c
    ensures DiffBits(a, c) == MaxOf(DiffBits(a, b), DiffBits(b, c))
    ensures a < b < c ==> DiffBits(a, b) != DiffBits(b, c)
    decreases c
  {
    if a < c { CodeBetween(a / 2, b / 2, c / 2); }
  }

  lemma {:induction false} BitsOfKey(a: nat, b: nat, L: nat)
    requires a < Pow8(L) && b < Pow8(L)
    ensures DiffBits(a, b) <= 3 * L
  {
    if L > 0 {
      DiffBitsStep(a, b);
      BitsOfKey(a / 8, b / 8, L - 1);
    }
  }

  lemma {:induction false} BitsOfEnd(a: nat, L: nat)
    requires a < Pow8(L)
    ensures DiffBits(a, Pow8(L)) == 3 * L + 1
  {
    if L > 0 {
      DiffBitsStep(a, Pow8(L));
      BitsOfEnd(a / 8, L - 1);
    } else {
      assert DiffBits(0, 1) == 1 + DiffBits(0, 0);
    }
  }

  // ------------------------------------------------------------- codes

  /** Sorted codes without duplicates. The last code may be the end of the curve. */
  predicate IsCodes(codes: seq<nat>, L: nat) {
    && Ascending(codes) && 2 <= |codes| <= LEAF_OFFSET
    && codes[|codes| - 2] < Pow8(L) && codes[|codes| - 1] <= Pow8(L)
  }

  /** Number of items of the tree: the end of the curve is none. */
  function NumItems(codes: seq<nat>, L: nat): (n: nat)
    requires IsCodes(codes, L)
    ensures n <= |codes| && forall i: nat :: i < |codes| ==> (i < n <==> codes[i] < Pow8(L))
  {
    if codes[|codes| - 1] == Pow8(L) then |codes| - 1 else |codes|
  }

  /** How much two codes differ. */
  ghost function Difference(codes: seq<nat>): (d: (nat, nat) -> nat) {
    (i: nat, j: nat) => if i < |codes| && j < |codes| then DiffBits(codes[i], codes[j]) else 0
  }

  lemma CodesDiffer(codes: seq<nat>, n: nat)
    requires Ascending(codes) && n <= |codes|
    ensures IsDifference(Difference(codes), n)
  {
    var d := Difference(codes);
    forall i: nat, j: nat, k: nat | i < j < k < n ensures Between(d, i, j, k) {
      CodeBetween(codes[i], codes[j], codes[k]);
    }
  }

  // ------------------------------------------------------------- searches

  /** Code k has more leading bits in common with the first code than the last code has. */
  predicate SharesMore(codes: seq<nat>, first: nat, last: nat, k: nat, L: nat)
    requires first < |codes| && last < |codes| && k < |codes|
  {
    CommonPrefix(codes[first], codes[k], L) > CommonPrefix(codes[first], codes[last], L)
  }

  lemma SharesLessLater(codes: seq<nat>, first: nat, last: nat, j: nat, k: nat, L: nat)
    requires Sorted(codes) && first <= j <= k < |codes| && last < |codes| && SharesMore(codes, first, last, k, L)
    ensures SharesMore(codes, first, last, j, L)
  {
    assert codes[first] <= codes[j] <= codes[k] by { SortedAt(codes, first, j); SortedAt(codes, j, k); }
    CodeBetween(codes[first], codes[j], codes[k]);
  }

  lemma SortedAt(codes: seq<nat>, i: nat, j: nat)
    requires Sorted(codes) && i <= j < |codes|
    ensures codes[i] <= codes[j]
  {
  }

  /** `findSplit`: the last code that shares more bits with the first code than the last code does. */
  method FindSplit(codes: seq<nat>, first: nat, last: nat, L: nat) returns (split: nat)
    requires Sorted(codes) && first <= last < |codes|
    ensures codes[first] == codes[last] ==> split == (first + last) / 2
    ensures codes[first] != codes[last] ==> first <= split < last
    ensures codes[first] != codes[last] ==>
      forall k: nat :: first <= k <= last ==> (k <= split <==> SharesMore(codes, first, last, k, L))
  {
    if codes[first] == codes[last] { return (first + last) / 2; }
    var cpr := CommonPrefix(codes[first], codes[last], L);
    split := first;
    var step: nat := last - first;
    var going := true;
    while going
      invariant first <= split < last && step > 0 && (going || step == 1)
      invariant SharesMore(codes, first, last, split, L)
      invariant split + step < last ==> !SharesMore(codes, first, last, split + step, L)
      decreases step + if going then 1 else 0
    {
      step := (step + 1) / 2;
      var newSplit := split + step;
      if newSplit < last {
        var splitPrefix := CommonPrefix(codes[first], codes[newSplit], L);
        if splitPrefix > cpr {
          ghost var end := split + 2 * step;
          split := newSplit;
          if end < last && SharesMore(codes, first, last, end, L) {
            SharesLessLater(codes, first, last, end - 1, end, L);
          }
        }
      }
      going := step > 1;
    }
    forall k: nat | first <= k <= last ensures k <= split <==> SharesMore(codes, first, last, k, L) {
      if k <= split { SharesLessLater(codes, first, last, k, split, L); }
      if k > split && k < last && SharesMore(codes, first, last, k, L) {
        SharesLessLater(codes, first, last, split + 1, k, L);
      }
    }
  }

  /** The index at distance x from i in direction 1 or -1. */
  function Offset(i: nat, d: int, x: nat): (j: int) {
    if d == 1 then i + x else i - x
  }

  /** The code at distance x shares more than minPrefix leading bits with code i. */
  predicate Shares(codes: seq<nat>, L: nat, i: nat, d: int, minPrefix: int, x: nat)
    requires i < |codes|
  {
    0 <= Offset(i, d, x) < |codes| && CommonPrefix(codes[i], codes[Offset(i, d, x)], L) > minPrefix
  }

  lemma SharesNearer(codes: seq<nat>, L: nat, i: nat, d: int, minPrefix: int, y: nat, x: nat)
    requires Ascending(codes) && i < |codes| && (d == 1 || d == -1) && y <= x
    requires Shares(codes, L, i, d, minPrefix, x)
    ensures Shares(codes, L, i, d, minPrefix, y)
  {
    AscendingIsSorted(codes);
    var j, k := Offset(i, d, y), Offset(i, d, x);
    if d == 1 {
      SortedAt(codes, i, j);
      SortedAt(codes, j, k);
      CodeBetween(codes[i], codes[j], codes[k]);
    } else {
      SortedAt(codes, k, j);
      SortedAt(codes, j, i);
      CodeBetween(codes[k], codes[j], codes[i]);
      DiffBitsIsSymmetric(codes[k], codes[i]);
      DiffBitsIsSymmetric(codes[j], codes[i]);
    }
  }

  lemma AscendingIsSorted(codes: seq<nat>)
    requires Ascending(codes)
    ensures Sorted(codes)
  {
  }

  /** Exponential search for a distance that is too far. */
  method FindSearchRange(codes: seq<nat>, L: nat, firstIndex: nat, d: int, minPrefix: int) returns (searchRange: nat)
    requires firstIndex < |codes| && (d == 1 || d == -1)
    ensures searchRange >= 2 && !Shares(codes, L, firstIndex, d, minPrefix, searchRange)
  {
    searchRange := 2;
    var secondIndex := Offset(firstIndex, d, searchRange);
    while 0 <= secondIndex < |codes| && CommonPrefix(codes[firstIndex], codes[secondIndex], L) > minPrefix
      invariant searchRange >= 2 && secondIndex == Offset(firstIndex, d, searchRange)
      decreases |codes| - searchRange
    {
      searchRange := searchRange * 2;
      secondIndex := Offset(firstIndex, d, searchRange);
    }
  }

  /** One halving of the binary search. */
  method Halve(codes: seq<nat>, L: nat, firstIndex: nat, d: int, minPrefix: int, secondIndex: nat, range: nat,
               ghost x: nat)
    returns (second: nat, searchRange: nat, ghost x': nat)
    requires Ascending(codes) && firstIndex < |codes| && (d == 1 || d == -1) && range > 1
    requires secondIndex == Offset(firstIndex, d, x)
    requires Shares(codes, L, firstIndex, d, minPrefix, x) && !Shares(codes, L, firstIndex, d, minPrefix, x + range)
    ensures 0 < searchRange < range && second == Offset(firstIndex, d, x')
    ensures Shares(codes, L, firstIndex, d, minPrefix, x')
    ensures !Shares(codes, L, firstIndex, d, minPrefix, x' + searchRange)
  {
    searchRange := (range + 1) / 2;
    second, x' := secondIndex, x;
    var newJdx := Offset(secondIndex, d, searchRange);
    if 0 <= newJdx < |codes| && CommonPrefix(codes[firstIndex], codes[newJdx], L) > minPrefix {
      second, x' := newJdx, x + searchRange;
      if Shares(codes, L, firstIndex, d, minPrefix, x' + searchRange) {
        SharesNearer(codes, L, firstIndex, d, minPrefix, x + range, x' + searchRange);
      }
    }
  }

  /** Binary search for the last index that shares more than minPrefix bits with code firstIndex. */
  method FindRangeEnd(codes: seq<nat>, L: nat, firstIndex: nat, d: int, minPrefix: int)
    returns (secondIndex: nat, ghost x: nat)
    requires Ascending(codes) && firstIndex < |codes| && (d == 1 || d == -1) && minPrefix < 3 * L
    ensures secondIndex == Offset(firstIndex, d, x)
    ensures Shares(codes, L, firstIndex, d, minPrefix, x) && !Shares(codes, L, firstIndex, d, minPrefix, x + 1)
  {
    var searchRange := FindSearchRange(codes, L, firstIndex, d, minPrefix);
    secondIndex, x := firstIndex, 0;
    while searchRange > 1
      invariant searchRange > 0 && secondIndex == Offset(firstIndex, d, x)
      invariant Shares(codes, L, firstIndex, d, minPrefix, x)
      invariant !Shares(codes, L, firstIndex, d, minPrefix, x + searchRange)
    {
      secondIndex, searchRange, x := Halve(codes, L, firstIndex, d, minPrefix, secondIndex, searchRange, x);
    }
  }

  // ------------------------------------------------------------- one node

  /** Direction in which node i extends, and the number of bits shared with the neighbour on the other side. */
  function Direction(codes: seq<nat>, i: nat, L: nat): (r: (int, int))
    requires i + 1 < |codes|
    ensures r.0 == 1 || r.0 == -1
  {
    if i == 0 then (1, -1)
    else
      var d := if CommonPrefix(codes[i], codes[i + 1], L) > CommonPrefix(codes[i], codes[i - 1], L) then 1 else -1;
      (d, CommonPrefix(codes[i], codes[i - d], L))
  }

  /** The ends of the search are the ends of the range of the node. */
  lemma FoundRange(codes: seq<nat>, L: nat, i: nat, x: nat)
    requires IsCodes(codes, L) && i + 1 < NumItems(codes, L)
    requires var r := Direction(codes, i, L);
             Shares(codes, L, i, r.0, r.1, x) && !Shares(codes, L, i, r.0, r.1, x + 1)
    ensures var j := Offset(i, Direction(codes, i, L).0, x);
            0 <= j && IsNodeRange(Difference(codes), NumItems(codes, L), i, Least(i, j), Greatest(i, j))
  {
    var n := NumItems(codes, L);
    var r := Direction(codes, i, L);
    if i == 0 {
      FoundRoot(codes, L, x);
    } else if r.0 == 1 {
      FoundUp(codes, L, i, x);
    } else {
      FoundDown(codes, L, i, x);
    }
  }

  function Least(i: int, j: int): (m: int) {
    if i <= j then i else j
  }

  function Greatest(i: int, j: int): (m: int) {
    if i <= j then j else i
  }

  lemma FoundRoot(codes: seq<nat>, L: nat, x: nat)
    requires IsCodes(codes, L) && 1 < NumItems(codes, L)
    requires Shares(codes, L, 0, 1, -1, x) && !Shares(codes, L, 0, 1, -1, x + 1)
    ensures x + 1 == NumItems(codes, L)
  {
    var n := NumItems(codes, L);
    if x + 1 < n { BitsOfKey(codes[0], codes[x + 1], L); }
    if x == n { BitsOfEnd(codes[0], L); }
  }

  lemma FoundUp(codes: seq<nat>, L: nat, i: nat, x: nat)
    requires IsCodes(codes, L) && 0 < i && i + 1 < NumItems(codes, L)
    requires CommonPrefix(codes[i], codes[i + 1], L) > CommonPrefix(codes[i], codes[i - 1], L)
    requires Shares(codes, L, i, 1, CommonPrefix(codes[i], codes[i - 1], L), x)
    requires !Shares(codes, L, i, 1, CommonPrefix(codes[i], codes[i - 1], L), x + 1)
    ensures IsFirstOf(Difference(codes), NumItems(codes, L), i, i, i + x)
  {
    var d, n := Difference(codes), NumItems(codes, L);
    CodesDiffer(codes, n);
    SharesUp(codes, L, i, 1);
    SharesUp(codes, L, i, x);
    SharesUp(codes, L, i, x + 1);
    RangeUp(d, n, i, i + x);
  }

  lemma SharesUp(codes: seq<nat>, L: nat, i: nat, x: nat)
    requires IsCodes(codes, L) && 0 < i && i + 1 < NumItems(codes, L)
    ensures Shares(codes, L, i, 1, CommonPrefix(codes[i], codes[i - 1], L), x) <==>
            i + x < NumItems(codes, L) && Difference(codes)(i, i + x) < Difference(codes)(i - 1, i)
  {
    if i + x < NumItems(codes, L) {
      PrefixOrder(codes[i], codes[i + x], codes[i - 1], L);
    } else if i + x < |codes| {
      EndSharesNothing(codes[i], codes[i - 1], L);
    }
  }

  lemma PrefixOrder(a: nat, b: nat, c: nat, L: nat)
    ensures CommonPrefix(a, b, L) > CommonPrefix(a, c, L) <==> DiffBits(a, b) < DiffBits(c, a)
  {
    DiffBitsIsSymmetric(a, c);
  }

  lemma EndSharesNothing(a: nat, b: nat, L: nat)
    requires a < Pow8(L) && b < Pow8(L)
    ensures CommonPrefix(a, Pow8(L), L) <= CommonPrefix(a, b, L)
  {
    BitsOfEnd(a, L);
    BitsOfKey(a, b, L);
  }

  lemma DifferenceIs(codes: seq<nat>, i: nat, j: nat)
    requires i <= j < |codes|
    ensures Difference(codes)(i, j) == DiffBits(codes[i], codes[j])
  {
  }

  lemma FoundDown(codes: seq<nat>, L: nat, i: nat, x: nat)
    requires IsCodes(codes, L) && 0 < i && i + 1 < NumItems(codes, L)
    requires CommonPrefix(codes[i], codes[i + 1], L) <= CommonPrefix(codes[i], codes[i - 1], L)
    requires Shares(codes, L, i, -1, CommonPrefix(codes[i], codes[i + 1], L), x)
    requires !Shares(codes, L, i, -1, CommonPrefix(codes[i], codes[i + 1], L), x + 1)
    ensures x <= i && IsLastOf(Difference(codes), NumItems(codes, L), i, i - x, i)
  {
    var d, n, f := Difference(codes), NumItems(codes, L), i - x;
    CodesDiffer(codes, n);
    DiffBitsIsSymmetric(codes[i], codes[i - 1]);
    DiffBitsIsSymmetric(codes[i], codes[f]);
    DifferenceIs(codes, i - 1, i);
    DifferenceIs(codes, i, i + 1);
    DifferenceIs(codes, f, i);
    if f > 0 {
      DiffBitsIsSymmetric(codes[i], codes[f - 1]);
      DifferenceIs(codes, f - 1, i);
    }
    RangeDown(d, n, f, i);
  }

  function Stored(c: Child): (index: int) {
    if c.Leaf? then StoreLeafIndex(c.index) else c.index
  }

  /** The node covers the items from f to l, which are split after g. */
  ghost predicate IsBuiltFor(codes: seq<nat>, L: nat, i: nat, node: BinaryNode, f: nat, l: nat, g: nat)
    requires IsCodes(codes, L)
  {
    && IsRadixNode(Difference(codes), NumItems(codes, L), i, f, l, g)
    && node.left == Stored(ChildFor(f, l, g, true)) && node.right == Stored(ChildFor(f, l, g, false))
    && forall k: nat :: k < NumItems(codes, L) ==> HasPrefixIff(codes, L, node, k, f, l)
  }

  /** The placeholder-bit prefix of the node tells whether it covers code k. */
  ghost predicate HasPrefixIff(codes: seq<nat>, L: nat, node: BinaryNode, k: nat, f: nat, l: nat) {
    && Pow2(PrefixLength(node.prefix)) <= node.prefix < 2 * Pow2(PrefixLength(node.prefix))
    && PrefixLength(node.prefix) <= 3 * L
    && (k < |codes| ==> (f <= k <= l <==> Prefix(codes[k], PrefixLength(node.prefix), L) == node.prefix))
  }

  /** `decodePrefixLength`: the place of the highest bit. */
  function PrefixLength(prefix: nat): (n: nat) {
    if prefix < 2 then 0 else 1 + PrefixLength(prefix / 2)
  }

  ghost predicate IsBuilt(codes: seq<nat>, L: nat, i: nat, node: BinaryNode)
    requires IsCodes(codes, L)
  {
    exists f: nat, l: nat, g: nat :: IsBuiltFor(codes, L, i, node, f, l, g)
  }

  lemma {:induction false} PrefixLengthIs(prefix: nat, n: nat)
    requires Pow2(n) <= prefix < 2 * Pow2(n)
    ensures PrefixLength(prefix) == n
  {
    if n > 0 { PrefixLengthIs(prefix / 2, n - 1); }
  }

  lemma {:induction false} TopBitsAreSmall(x: nat, m: nat, n: nat)
    requires x < Pow2(m + n)
    ensures DropBits(x, m) < Pow2(n)
  {
    if m > 0 { TopBitsAreSmall(x / 2, m - 1, n); }
  }

  lemma {:induction false} KeyBits(L: nat)
    ensures Pow8(L) == Pow2(3 * L)
  {
    if L > 0 {
      KeyBits(L - 1);
      assert Pow2(3 * L) == 2 * Pow2(3 * L - 1) && Pow2(3 * L - 1) == 2 * Pow2(3 * L - 2);
    }
  }

  lemma PrefixHasLength(code: nat, n: nat, L: nat)
    requires code < Pow8(L) && n <= 3 * L
    ensures PrefixLength(Prefix(code, n, L)) == n && Pow2(n) <= Prefix(code, n, L) < 2 * Pow2(n)
  {
    KeyBits(L);
    DropRounded(code, 3 * L - n);
    TopBitsAreSmall(code, 3 * L - n, n);
    PrefixLengthIs(Prefix(code, n, L), n);
  }

  lemma PrefixTells(codes: seq<nat>, L: nat, f: nat, l: nat, i: nat, k: nat, node: BinaryNode)
    requires IsCodes(codes, L) && IsGroup(Difference(codes), NumItems(codes, L), f, l) && f <= i <= l
    requires k < NumItems(codes, L) && 0 <= CommonPrefix(codes[f], codes[l], L)
    requires node.prefix == Prefix(codes[i], CommonPrefix(codes[f], codes[l], L), L)
    ensures HasPrefixIff(codes, L, node, k, f, l)
  {
    var d, n, length := Difference(codes), NumItems(codes, L), CommonPrefix(codes[f], codes[l], L);
    var m := 3 * L - length;
    CodesDiffer(codes, n);
    GroupMembers(d, n, f, l, i, k);
    DiffBitsIsSymmetric(codes[i], codes[k]);
    PrefixHasLength(codes[i], length, L);
    DropRounded(codes[i], m);
    DropRounded(codes[k], m);
    SameLeadingBits(codes[i], codes[k], m);
  }

  /** `constructInternalNode`: node firstIndex, independently of all other nodes. */
  method ConstructInternalNode(codes: seq<nat>, L: nat, internalNodes: array<BinaryNode>, firstIndex: nat)
    requires IsCodes(codes, L) && firstIndex + 1 < |codes| && firstIndex < internalNodes.Length
    modifies internalNodes
    ensures firstIndex + 1 < NumItems(codes, L) ==> IsBuilt(codes, L, firstIndex, internalNodes[firstIndex])
    ensures internalNodes[..] == old(internalNodes[..])[firstIndex := internalNodes[firstIndex]]
  {
    var direction := Direction(codes, firstIndex, L);
    DirectionShares(codes, firstIndex, L);
    var secondIndex, x := FindRangeEnd(codes, L, firstIndex, direction.0, direction.1);
    var prefixLength := CommonPrefix(codes[firstIndex], codes[secondIndex], L);
    var prefix := Prefix(codes[firstIndex], prefixLength, L);
    DiffBitsIsSymmetric(codes[firstIndex], codes[secondIndex]);
    var first: nat, last: nat := Least(firstIndex, secondIndex), Greatest(firstIndex, secondIndex);
    AscendingIsSorted(codes);
    var gamma := FindSplit(codes, first, last, L);
    var left := if first == gamma then StoreLeafIndex(gamma) else gamma;
    var right := if last == gamma + 1 then StoreLeafIndex(gamma + 1) else gamma + 1;
    internalNodes[firstIndex] := BinaryNode(left, right, prefix);
    if firstIndex + 1 < NumItems(codes, L) {
      FoundRange(codes, L, firstIndex, x);
      NodeIsBuilt(codes, L, firstIndex, internalNodes[firstIndex], first, last, gamma);
    }
  }

  lemma DirectionShares(codes: seq<nat>, i: nat, L: nat)
    requires Ascending(codes) && i + 1 < |codes| && codes[i + 1] <= Pow8(L)
    ensures -1 <= Direction(codes, i, L).1 < 3 * L
  {
    if i > 0 {
      BitsOfKey(codes[i], codes[i - 1], L);
      if codes[i + 1] < Pow8(L) { BitsOfKey(codes[i], codes[i + 1], L); } else { BitsOfEnd(codes[i], L); }
    }
  }

  lemma NodeIsBuilt(codes: seq<nat>, L: nat, i: nat, node: BinaryNode, f: nat, l: nat, g: nat)
    requires IsCodes(codes, L) && i + 1 < NumItems(codes, L)
    requires IsNodeRange(Difference(codes), NumItems(codes, L), i, f, l) && f <= g < l
    requires forall k: nat :: f <= k <= l ==> (k <= g <==> SharesMore(codes, f, l, k, L))
    requires node.left == Stored(ChildFor(f, l, g, true)) && node.right == Stored(ChildFor(f, l, g, false))
    requires 0 <= CommonPrefix(codes[f], codes[l], L)
    requires node.prefix == Prefix(codes[i], CommonPrefix(codes[f], codes[l], L), L)
    ensures IsBuilt(codes, L, i, node)
  {
    var d, n := Difference(codes), NumItems(codes, L);
    CodesDiffer(codes, n);
    NodeIsGroup(d, n, i, f, l);
    var h := SplitExists(d, n, f, l);
    SplitSides(d, n, f, l, h);
    assert forall k: nat :: f <= k <= l ==> (SharesMore(codes, f, l, k, L) <==> d(f, k) < d(f, l));
    assert SharesMore(codes, f, l, g, L) && !SharesMore(codes, f, l, g + 1, L);
    assert g == h;
    forall k: nat | k < n ensures HasPrefixIff(codes, L, node, k, f, l) {
      PrefixTells(codes, L, f, l, i, k, node);
    }
    assert IsBuiltFor(codes, L, i, node, f, l, g);
  }

  // ------------------------------------------------------------- the whole tree

  /** The nodes form the tree of the items. Behind an end-of-curve code there is one more node, of no use. */
  ghost predicate IsTree(codes: seq<nat>, L: nat, nodes: seq<BinaryNode>) {
    && IsCodes(codes, L) && |nodes| == |codes| - 1
    && forall i: nat :: i + 1 < NumItems(codes, L) ==> IsBuilt(codes, L, i, nodes[i])
  }

  /** `createBinaryTree`: all nodes, in any order. */
  method CreateBinaryTree(tree: seq<nat>, L: nat, binaryTree: array<BinaryNode>, order: seq<nat>)
    requires IsCodes(tree, L) && binaryTree.Length == |tree| - 1 && IsOrderOf(order, |tree| - 1)
    modifies binaryTree
    ensures IsTree(tree, L, binaryTree[..])
  {
    for k := 0 to |order|
      invariant forall j: nat :: j < k && order[j] + 1 < NumItems(tree, L) ==>
        IsBuilt(tree, L, order[j], binaryTree[order[j]])
    {
      ConstructInternalNode(tree, L, binaryTree, order[k]);
    }
    forall i: nat | i + 1 < NumItems(tree, L) ensures IsBuilt(tree, L, i, binaryTree[i]) {
      assert i in order;
    }
  }

  /** The child that a stored index stands for. */
  function Loaded(stored: int): (c: Child) {
    if IsLeafIndex(stored) then Leaf(if stored + LEAF_OFFSET >= 0 then LoadLeafIndex(stored) else 0)
    else Internal(stored)
  }

  lemma LoadStored(c: Child)
    requires c.index < LEAF_OFFSET
    ensures Loaded(Stored(c)) == c
  {
  }

  /** Where the nodes point. */
  ghost function Pointers(nodes: seq<BinaryNode>): (child: (nat, bool) -> Child) {
    (p: nat, onLeft: bool) =>
      if p < |nodes| then Loaded(if onLeft then nodes[p].left else nodes[p].right) else Internal(0)
  }

  /** The nodes that `createBinaryTree` builds form the binary radix tree of the items. */
  lemma BuiltTreeIsRadixTree(codes: seq<nat>, L: nat, nodes: seq<BinaryNode>)
    requires IsTree(codes, L, nodes)
    ensures IsDifference(Difference(codes), NumItems(codes, L))
    ensures IsTreeOf(Difference(codes), NumItems(codes, L), Pointers(nodes))
  {
    var d, n := Difference(codes), NumItems(codes, L);
    CodesDiffer(codes, n);
    forall i: nat | i + 1 < n ensures PointsToSides(d, n, Pointers(nodes), i) {
      assert IsBuilt(codes, L, i, nodes[i]);
      var f: nat, l: nat, g: nat :| IsBuiltFor(codes, L, i, nodes[i], f, l, g);
      LoadStored(ChildFor(f, l, g, true));
      LoadStored(ChildFor(f, l, g, false));
      assert IsRadixNode(d, n, i, f, l, g);
    }
  }

  /** In the tree that is built, every leaf and every node but the root has exactly one parent, and the
      leaves below the root are all items, in order. */
  lemma BuiltTreeIsOneTree(codes: seq<nat>, L: nat, nodes: seq<BinaryNode>, c: Child)
    requires IsTree(codes, L, nodes) && NumItems(codes, L) >= 2
    ensures HasOneParent(NumItems(codes, L), Pointers(nodes), c) <==> IsBelowRoot(NumItems(codes, L), c)
    ensures LeavesBelow(Pointers(nodes), Internal(0), NumItems(codes, L)) == Upto(0, NumItems(codes, L))
  {
    BuiltTreeIsRadixTree(codes, L, nodes);
    OneParent(Difference(codes), NumItems(codes, L), Pointers(nodes), c);
    RootCoversAll(Difference(codes), NumItems(codes, L), Pointers(nodes));
  }
}
