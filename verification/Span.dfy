/** Spanning a key range with as few cells as possible, spanning trees, and key injection. */
module Span {
  import opened Keys
  import opened CornerstoneArray
  import opened Counts
  import opened Rebalance
  import opened Scan

  // ---------------------------------------------------------- reference chain

  /** Height of the largest cell that starts at a and ends at or before b. */
  ghost function StepHeight(a: nat, b: nat, h: nat): (g: nat)
    requires Aligned(a, h) && a + Pow8(h) <= b
    ensures g >= h && Aligned(a, g) && a + Pow8(g) <= b
    ensures !(Aligned(a, g + 1) && a + Pow8(g + 1) <= b)
    decreases b - Pow8(h)
  {
    if Aligned(a, h + 1) && a + Pow8(h + 1) <= b then StepHeight(a, b, h + 1) else h
  }

  /** The greedy chain of cells from a to b; the start keys of its cells. */
  ghost function SpanChain(a: nat, b: nat): (chain: seq<nat>)
    requires a <= b
    decreases b - a
  {
    if a == b then [] else [a] + SpanChain(a + Pow8(StepHeight(a, b, 0)), b)
  }

  /** Greedy means: the largest cell that is aligned and fits. */
  lemma GreedyStep(a: nat, b: nat, h: nat)
    requires a < b && Aligned(a, h) && a + Pow8(h) <= b
    requires !(Aligned(a, h + 1) && a + Pow8(h + 1) <= b)
    ensures StepHeight(a, b, 0) == h
  {
    var g := StepHeight(a, b, 0);
    if g < h {
      AlignedWeaken(a, g + 1, h);
      Pow8Monotone(g + 1, h);
    } else if g > h {
      AlignedWeaken(a, h + 1, g);
      Pow8Monotone(h + 1, g);
    }
  }

  /** The chain ascends from a to b, and its neighbours are cells. */
  lemma {:induction false} ChainOfCells(a: nat, b: nat)
    requires a <= b
    ensures var c := SpanChain(a, b) + [b];
            Ascending(c) && c[0] == a && forall i: nat :: i < |c| - 1 ==> CellAt(c, i)
    decreases b - a
  {
    if a < b {
      var h := StepHeight(a, b, 0);
      var n := a + Pow8(h);
      ChainOfCells(n, b);
      CellHeight(a, h);
      var t := SpanChain(n, b) + [b];
      var c := SpanChain(a, b) + [b];
      assert c == [a] + t;
      forall i: nat | i < |c| - 1 ensures CellAt(c, i) {
        if i > 0 { assert CellAt(t, i - 1); }
      }
    }
  }

  /** Every octree that has a and b as cell boundaries has the whole chain. */
  lemma {:induction false} ChainIsRequired(a: nat, b: nat, L: nat, S: set<nat>)
    requires a <= b && CornerstoneSet(S, L) && a in S && b in S
    ensures forall k :: k in SpanChain(a, b) ==> k in S
    decreases b - a
  {
    if a < b {
      var h := StepHeight(a, b, 0);
      NextIsRequired(a, b, L, S, h);
      ChainIsRequired(a + Pow8(h), b, L, S);
    }
  }

  lemma NextIsRequired(a: nat, b: nat, L: nat, S: set<nat>, h: nat)
    requires a < b && CornerstoneSet(S, L) && a in S && b in S
    requires h == StepHeight(a, b, 0)
    ensures a + Pow8(h) in S
  {
    var p := Floor(a, h + 1);
    FloorBounds(a, h + 1);
    if h >= L {
      Pow8Monotone(L, h);
    } else if p < a {
      ChildOf(a, h + 1);
      FloorBounds(a, h);
      assert ChildrenIn(S, p, h + 1);
      assert ChildStart(p, h + 1, Digit(a, h) + 1) in S;
    } else {
      CutCellIsNode(S, L, a, h + 1, b);
      EightCells(a, h);
      assert ChildStart(a, h + 1, 1) in S;
    }
  }

  // ------------------------------------------------------------- spanSfcRange

  /** Start keys of n neighbouring cells of height h. */
  ghost function Run(a: nat, h: nat, n: nat): (r: seq<nat>)
    ensures |r| == n
    decreases n
  {
    if n == 0 then [] else [a] + Run(a + Pow8(h), h, n - 1)
  }

  lemma NthFromNext(a: nat, h: nat, n: nat)
    ensures NthCell(a + Pow8(h), h, n) == NthCell(a, h, n + 1)
  {
    EightCells(a, h);
    NthAdd(a, h, 1, n);
  }

  lemma StartOfRun(a: nat, b: nat, h: nat, n: nat)
    requires n > 0 && Aligned(a, h) && NthCell(a, h, n) <= b
    requires !(Aligned(a, h + 1) && a + Pow8(h + 1) <= b)
    ensures SpanChain(a, b) == [a] + SpanChain(a + Pow8(h), b)
    ensures Aligned(a + Pow8(h), h)
  {
    GreedyStep(a, b, h);
    AlignedPow8(h, h);
    AlignedAdd(a, Pow8(h), h);
  }

  lemma NotMultipleBefore(a: nat, h: nat, n: nat)
    requires 0 < n < 8 && Aligned(NthCell(a, h, n), h + 1)
    ensures !Aligned(a, h + 1)
  {
    NthMonotone(a, h, 0, n);
    NthMonotone(a, h, n, 8);
    EightCells(a, h);
    if Aligned(a, h + 1) { AlignedGap(a, NthCell(a, h, n), h + 1); }
  }

  /** Cells of height h that stop at a multiple of 8^(h+1), less than 8 cells away, are greedy. */
  lemma {:induction false} RunToMultiple(a: nat, b: nat, h: nat, n: nat)
    requires Aligned(a, h) && n < 8 && NthCell(a, h, n) <= b && Aligned(NthCell(a, h, n), h + 1)
    ensures SpanChain(a, b) == Run(a, h, n) + SpanChain(NthCell(a, h, n), b)
    decreases n
  {
    if n > 0 {
      NotMultipleBefore(a, h, n);
      StartOfRun(a, b, h, n);
      NthFromNext(a, h, n - 1);
      RunToMultiple(a + Pow8(h), b, h, n - 1);
      ConcatAssoc([a], Run(a + Pow8(h), h, n - 1), SpanChain(NthCell(a, h, n), b));
    }
  }

  /** Cells of height h are greedy from where the next larger cell would end past b. */
  lemma {:induction false} RunBelow(a: nat, b: nat, h: nat, n: nat)
    requires Aligned(a, h) && NthCell(a, h, n) <= b && a + Pow8(h + 1) > b
    ensures SpanChain(a, b) == Run(a, h, n) + SpanChain(NthCell(a, h, n), b)
    decreases n
  {
    if n > 0 {
      StartOfRun(a, b, h, n);
      NthFromNext(a, h, n - 1);
      RunBelow(a + Pow8(h), b, h, n - 1);
      ConcatAssoc([a], Run(a + Pow8(h), h, n - 1), SpanChain(NthCell(a, h, n), b));
    }
  }

  /** Number of cells of height h from `a` up to the next multiple of 8^(h+1). */
  function DigitsUp(a: nat, h: nat): (n: nat)
    ensures n < 8 && (if Digit(a, h) == 0 then n == 0 else n + Digit(a, h) == 8)
  {
    (8 - Digit(a, h)) % 8
  }

  /** Ascending part: cells of height h up to the next multiple of 8^(h+1). */
  lemma AscendingRun(a: nat, b: nat, h: nat, limit: nat)
    requires Aligned(a, h) && a <= limit <= b && Aligned(limit, h + 1)
    ensures var n := DigitsUp(a, h); var next := NthCell(a, h, n);
            && next <= limit && Aligned(next, h + 1)
            && SpanChain(a, b) == Run(a, h, n) + SpanChain(next, b)
  {
    DigitOfFloor(a, h);
    FloorBounds(a, h);
    FloorBounds(a, h + 1);
    if Digit(a, h) != 0 {
      var p, n := Floor(a, h + 1), DigitsUp(a, h);
      UpToParentEnd(a, h);
      NthMonotone(p, h, 0, Digit(a, h));
      AlignedPow8(h + 1, h + 1);
      AlignedAdd(p, Pow8(h + 1), h + 1);
      AlignedGap(p, limit, h + 1);
      RunToMultiple(a, b, h, n);
    }
  }

  lemma UpToParentEnd(a: nat, h: nat)
    requires Aligned(a, h) && Digit(a, h) != 0
    ensures NthCell(a, h, DigitsUp(a, h)) == Floor(a, h + 1) + Pow8(h + 1)
  {
    DigitOfFloor(a, h);
    FloorBounds(a, h);
    NthAdd(Floor(a, h + 1), h, Digit(a, h), DigitsUp(a, h));
    EightCells(Floor(a, h + 1), h);
  }

  /** Descending part: cells of height h up to the last multiple of 8^h at or before b. */
  lemma DescendingRun(a: nat, b: nat, h: nat)
    requires Aligned(a, h) && Floor(b, h + 1) <= a <= Floor(b, h) <= b
    ensures Digit(b, h) >= Digit(a, h)
    ensures var n := Digit(b, h) - Digit(a, h);
            && NthCell(a, h, n) == Floor(b, h)
            && SpanChain(a, b) == Run(a, h, n) + SpanChain(Floor(b, h), b)
  {
    FloorBounds(a, h);
    FloorBounds(b, h + 1);
    FloorUnique(a, Floor(b, h + 1), h + 1);
    DigitOfFloor(a, h);
    DigitOfFloor(b, h);
    var da, db := Digit(a, h), Digit(b, h);
    if db < da { NthMonotone(Floor(b, h + 1), h, db, da); }
    NthAdd(Floor(b, h + 1), h, da, db - da);
    RunBelow(a, b, h, db - da);
  }

  /** First differing digit place of a range, counted from the left; L + 1 if the range is empty. */
  function FirstDiffPos(a: nat, b: nat, L: nat): (pos: int) {
    (3 * L + 3 - DiffBits(a, b)) / 3
  }

  /** The first differing digit is within the L places of a key, or the one above them. */
  lemma FirstDifference(a: nat, b: nat, L: nat) returns (D: nat)
    requires a < b <= Pow8(L)
    ensures D == L - FirstDiffPos(a, b, L) && D <= L
    ensures Shift(a, D + 1) == Shift(b, D + 1) && Shift(a, D) != Shift(b, D)
  {
    DiffDigit(a, b);
    D := (DiffBits(a, b) + 2) / 3 - 1;
    if D > L {
      ShiftOfSmall(b, L + 1, D);
      ShiftOfSmall(a, L + 1, D);
    }
  }

  lemma ShiftOfSmall(x: nat, g: nat, h: nat)
    requires g <= h && x < Pow8(g)
    ensures Shift(x, h) == 0
  {
    Pow8Monotone(g, h);
    ShiftSmall(x, h);
  }

  /** With D the height of the first differing digit, b has a boundary of a cell of height D past `a`
      in the same cell of height D + 1. */
  lemma BoundaryAbove(a: nat, b: nat, D: nat)
    requires a < b && Shift(a, D + 1) == Shift(b, D + 1) && Shift(a, D) != Shift(b, D)
    ensures Floor(b, D + 1) <= a <= Floor(b, D) <= b
    ensures !Aligned(b, D + 1)
  {
    FloorMonotone(a, b, D);
    FloorMonotone(a, b, D + 1);
    FloorBounds(a, D);
    FloorBounds(b, D);
    FloorBounds(a, D + 1);
    FloorBounds(b, D + 1);
    AlignedGap(Floor(a, D), Floor(b, D), D);
  }

  /** Write n neighbouring cells of height h at position `at` of the output buffer, if there is one. */
  method EmitCells(first: nat, h: nat, numDigits: nat, output: array?<nat>, at: nat) returns (a: nat)
    requires output != null ==> at + numDigits <= output.Length
    modifies (if output == null then {} else {output})
    ensures a == NthCell(first, h, numDigits)
    ensures output != null ==> Spliced(old(output[..]), output[..], at, Run(first, h, numDigits))
  {
    a := first;
    var left := numDigits;
    ghost var done: seq<nat> := [];
    ghost var before := if output == null then [] else output[..];
    while left > 0
      invariant NthCell(a, h, left) == NthCell(first, h, numDigits)
      invariant |done| + left == numDigits && Run(first, h, numDigits) == done + Run(a, h, left)
      invariant output != null ==> Spliced(before, output[..], at, done)
    {
      ghost var rest := Run(a + Pow8(h), h, left - 1);
      AppendRest(done, a, rest);
      if output != null {
        ghost var mid := output[..];
        output[at + numDigits - left] := a;
        assert output[..] == mid[at + |done| := a];
        SpliceOne(before, mid, at, done, a);
      }
      NthFromNext(a, h, left - 1);
      done := done + [a];
      a := a + Pow8(h);
      left := left - 1;
    }
    assert done + [] == done;
  }

  lemma AppendRest(done: seq<nat>, a: nat, rest: seq<nat>)
    ensures done + ([a] + rest) == (done + [a]) + rest
  {
  }

  /** The cells in `done` are the start of the whole chain, and the chain from a to b is its rest. */
  ghost predicate Progress(all: seq<nat>, done: seq<nat>, a: nat, b: nat) {
    a <= b && all == done + SpanChain(a, b)
  }

  lemma ProgressStep(all: seq<nat>, done: seq<nat>, a: nat, b: nat, run: seq<nat>, next: nat)
    requires Progress(all, done, a, b) && next <= b && SpanChain(a, b) == run + SpanChain(next, b)
    ensures Progress(all, done + run, next, b)
  {
    assert done + (run + SpanChain(next, b)) == (done + run) + SpanChain(next, b);
  }

  /** State of the first loop: `a` ascends to the limit, by cells of height h. */
  ghost predicate Ascent(a: nat, b: nat, D: nat, h: nat) {
    Aligned(a, h) && h <= D && a <= Floor(b, D) <= b
  }

  /** State of the second loop: `a` is the last multiple of 8^(h+1) at or before b, or later. */
  ghost predicate Descent(a: nat, b: nat, h: nat) {
    Aligned(a, h) && Floor(b, h + 1) <= a <= Floor(b, h) <= b
  }

  lemma AscentStep(a: nat, b: nat, D: nat, h: nat)
    requires Ascent(a, b, D, h) && h < D
    ensures var n := DigitsUp(a, h);
            Ascent(NthCell(a, h, n), b, D, h + 1) &&
            SpanChain(a, b) == Run(a, h, n) + SpanChain(NthCell(a, h, n), b)
  {
    FloorBounds(b, D);
    AlignedWeaken(Floor(b, D), h + 1, D);
    AscendingRun(a, b, h, Floor(b, D));
  }

  lemma DescentStep(a: nat, b: nat, h: nat)
    requires Descent(a, b, h)
    ensures Digit(b, h) >= Digit(a, h)
    ensures var n := Digit(b, h) - Digit(a, h);
            && NthCell(a, h, n) == Floor(b, h)
            && SpanChain(a, b) == Run(a, h, n) + SpanChain(Floor(b, h), b)
    ensures h > 0 ==> Descent(Floor(b, h), b, h - 1)
  {
    DescendingRun(a, b, h);
    FloorBounds(b, h);
    if h > 0 {
      FloorBounds(b, h - 1);
      FloorNested(b, h - 1, h);
      AlignedWeaken(Floor(b, h), h - 1, h);
    }
  }

  lemma PlaceBounds(x: nat, L: nat)
    requires x <= Pow8(L)
    ensures 0 <= LastNzPlace(x, L) <= L
    ensures x > 0 ==> Floor(x, L - LastNzPlace(x, L)) == x && !Aligned(x, L - LastNzPlace(x, L) + 1)
    ensures Aligned(x, L - LastNzPlace(x, L))
  {
    if x > 0 {
      TrailHeight(x);
      TrailAtMost(x, L);
      FloorBounds(x, TrailBits(x) / 3);
    }
  }

  /** Where the two loops begin and end, in terms of the digit places that the program computes. */
  lemma SpanPlaces(first: nat, b: nat, L: nat)
    requires first < b <= Pow8(L)
    ensures 0 <= FirstDiffPos(first, b, L) <= LastNzPlace(b, L) <= L
    ensures var D := L - FirstDiffPos(first, b, L); var h := L - LastNzPlace(first, L);
            Floor(b, D + 1) <= first && h >= 0 && Ascent(first, b, D, if h < D then h else D)
  {
    var D := FirstDifference(first, b, L);
    BoundaryAbove(first, b, D);
    PlaceBounds(first, L);
    PlaceBounds(b, L);
    var h, g := L - LastNzPlace(first, L), L - LastNzPlace(b, L);
    if g > D { AlignedWeaken(b, D + 1, g); }
    if h >= D { AlignedWeaken(first, D, h); }
  }

  lemma TrailAtMost(x: nat, L: nat)
    requires 0 < x <= Pow8(L)
    ensures TrailBits(x) / 3 <= L
  {
    TrailHeight(x);
    var t := TrailBits(x) / 3;
    if t > L {
      AlignedZero(t);
      AlignedGap(0, x, t);
      Pow8Monotone(L, t);
    }
  }

  /** One pass of an inner loop: write a run of the chain. */
  method EmitRun(first: nat, b: nat, h: nat, n: nat, output: array?<nat>, offset: nat, numValues: nat,
                 ghost all: seq<nat>, ghost before: seq<nat>, ghost written: seq<nat>)
    returns (a: nat, ghost done: seq<nat>)
    requires Progress(all, written, first, b) && NthCell(first, h, n) <= b && |written| == numValues
    requires SpanChain(first, b) == Run(first, h, n) + SpanChain(NthCell(first, h, n), b)
    requires output != null ==> offset + |all| <= output.Length && Spliced(before, output[..], offset, written)
    modifies (if output == null then {} else {output})
    ensures a == NthCell(first, h, n) && |done| == numValues + n && Progress(all, done, a, b)
    ensures output != null ==> Spliced(before, output[..], offset, done)
  {
    ghost var run := Run(first, h, n);
    ghost var mid := if output == null then [] else output[..];
    ProgressStep(all, written, first, b, run, NthCell(first, h, n));
    a := EmitCells(first, h, n, output, offset + numValues);
    if output != null { SpliceSplice(before, mid, output[..], offset, written, run); }
    done := written + run;
  }

  /** First loop: cells of increasing size. `fromPos` is the place of the last non-zero digit. */
  method SpanUp(first: nat, b: nat, L: nat, diffPos: nat, fromPos: nat, output: array?<nat>, offset: nat)
    returns (a: nat, numValues: nat, ghost done: seq<nat>)
    requires diffPos < fromPos <= L && first <= b && Ascent(first, b, L - diffPos, L - fromPos)
    requires output != null ==> offset + |SpanChain(first, b)| <= output.Length
    modifies (if output == null then {} else {output})
    ensures Progress(SpanChain(first, b), done, a, b) && |done| == numValues
    ensures Ascent(a, b, L - diffPos, L - diffPos) && first <= a
    ensures output != null ==> Spliced(old(output[..]), output[..], offset, done)
  {
    a, numValues, done := first, 0, [];
    ghost var before := if output == null then [] else output[..];
    ghost var all, D := SpanChain(first, b), L - diffPos;
    var pos := fromPos;
    while pos > diffPos
      invariant diffPos <= pos <= L && first <= a
      invariant Progress(all, done, a, b) && |done| == numValues
      invariant output != null ==> Spliced(before, output[..], offset, done)
      invariant Ascent(a, b, D, L - pos)
    {
      var h := L - pos;
      var numDigits := DigitsUp(a, h);
      AscentStep(a, b, D, h);
      a, done := EmitRun(a, b, h, numDigits, output, offset, numValues, all, before, done);
      numValues := numValues + numDigits;
      pos := pos - 1;
    }
  }

  /** Second loop: cells of decreasing size, to the place of the last non-zero digit of b. */
  method SpanDown(first: nat, b: nat, L: nat, diffPos: nat, toPos: nat, output: array?<nat>, offset: nat)
    returns (a: nat, numValues: nat, ghost done: seq<nat>)
    requires diffPos <= toPos <= L && first <= b && Descent(first, b, L - diffPos) && Floor(b, L - toPos) == b
    requires output != null ==> offset + |SpanChain(first, b)| <= output.Length
    modifies (if output == null then {} else {output})
    ensures Progress(SpanChain(first, b), done, a, b) && |done| == numValues && a == b
    ensures output != null ==> Spliced(old(output[..]), output[..], offset, done)
  {
    a, numValues, done := first, 0, [];
    ghost var before := if output == null then [] else output[..];
    ghost var all := SpanChain(first, b);
    var pos := diffPos;
    while pos <= toPos
      invariant diffPos <= pos <= toPos + 1 && first <= a
      invariant Progress(all, done, a, b) && |done| == numValues
      invariant output != null ==> Spliced(before, output[..], offset, done)
      invariant if pos <= toPos then Descent(a, b, L - pos) else a == b
    {
      var h := L - pos;
      DescentStep(a, b, h);
      var numDigits := Digit(b, h) - Digit(a, h);
      a, done := EmitRun(a, b, h, numDigits, output, offset, numValues, all, before, done);
      numValues := numValues + numDigits;
      pos := pos + 1;
    }
  }

  /** Which of the two loops run, and from which state. */
  lemma SpanStart(a: nat, b: nat, L: nat)
    requires a <= b <= Pow8(L)
    ensures 0 <= LastNzPlace(a, L) <= L && 0 <= LastNzPlace(b, L) <= L
    ensures a == b ==> FirstDiffPos(a, b, L) == L + 1
    ensures a < b ==>
              && 0 <= FirstDiffPos(a, b, L) <= LastNzPlace(b, L)
              && Floor(b, L - LastNzPlace(b, L)) == b
              && Floor(b, L - FirstDiffPos(a, b, L) + 1) <= a
              && Ascent(a, b, L - FirstDiffPos(a, b, L),
                        L - (if LastNzPlace(a, L) > FirstDiffPos(a, b, L) then LastNzPlace(a, L)
                             else FirstDiffPos(a, b, L)))
  {
    PlaceBounds(a, L);
    PlaceBounds(b, L);
    if a < b { SpanPlaces(a, b, L); }
  }

  /** Cover the range from a to b, writing the start keys of the cells to `output` from position
      `offset` on when an output buffer is given, and only counting them otherwise. Digit places are
      counted from the left as in the program: place `pos` belongs to cells of height L - pos. */
  method SpanSfcRange(a: nat, b: nat, L: nat, output: array?<nat>, offset: nat) returns (numValues: nat)
    requires a <= b <= Pow8(L)
    requires output != null ==> offset + |SpanChain(a, b)| <= output.Length
    modifies (if output == null then {} else {output})
    ensures numValues == |SpanChain(a, b)|
    ensures output != null ==> Spliced(old(output[..]), output[..], offset, SpanChain(a, b))
  {
    var diffPos := FirstDiffPos(a, b, L);
    var aLastNzPos, bLastNzPos := LastNzPlace(a, L), LastNzPlace(b, L);
    SpanStart(a, b, L);
    ghost var all := SpanChain(a, b);
    ghost var before := if output == null then [] else output[..];
    ghost var up: seq<nat> := [];
    var c: nat := a;
    numValues := 0;
    if aLastNzPos > diffPos {
      c, numValues, up := SpanUp(a, b, L, diffPos, aLastNzPos, output, offset);
    }
    assert Progress(all, up, c, b);
    if diffPos <= bLastNzPos {
      ghost var mid := if output == null then [] else output[..];
      var n; ghost var down;
      c, n, down := SpanDown(c, b, L, diffPos, bLastNzPos, output, offset + numValues);
      if output != null { SpliceSplice(before, mid, output[..], offset, up, down); }
      assert up + down == all;
      numValues := numValues + n;
    }
  }

  // ------------------------------------------------------- computeSpanningTree


  /** What the program asserts or documents about the keys to span. */
  predicate SpanningInput(keys: seq<nat>, L: nat) {
    |keys| > 1 && keys[0] == 0 && keys[|keys| - 1] == Pow8(L) && Sorted(keys)
  }

  /** The chains of the first n intervals, one after the other. */
  ghost function SpanAll(keys: seq<nat>, n: nat): (chain: seq<nat>)
    requires Sorted(keys) && n < |keys|
  {
    if n == 0 then [] else SpanAll(keys, n - 1) + SpanChain(keys[n - 1], keys[n])
  }

  lemma AppendChain(x: seq<nat>, chain: seq<nat>, a: nat, b: nat)
    requires IsChain(x + [a]) && IsChain(chain + [b]) && (chain + [b])[0] == a
    ensures IsChain(x + chain + [b]) && (x + chain + [b])[0] == (x + [a])[0]
    ensures forall k: nat :: k in x + [a] ==> k in x + chain + [b]
  {
    var y := chain + [b];
    JoinChains(x, y);
    assert x + y == x + chain + [b];
    assert (x + y)[|x|] == a;
  }

  lemma {:induction false} SpanAllIsChain(keys: seq<nat>, n: nat)
    requires Sorted(keys) && n < |keys|
    ensures IsChain(SpanAll(keys, n) + [keys[n]]) && (SpanAll(keys, n) + [keys[n]])[0] == keys[0]
    ensures forall i: nat :: i <= n ==> keys[i] in SpanAll(keys, n) + [keys[n]]
  {
    if n > 0 {
      SpanAllIsChain(keys, n - 1);
      var x := SpanAll(keys, n - 1);
      var chain := SpanIsChain(keys[n - 1], keys[n]);
      AppendChain(x, chain, keys[n - 1], keys[n]);
      assert SpanAll(keys, n) == x + chain;
      KeysAppended(keys, n, x + [keys[n - 1]], x + chain + [keys[n]]);
    }
  }

  lemma SpanIsChain(a: nat, b: nat) returns (chain: seq<nat>)
    requires a <= b
    ensures chain == SpanChain(a, b) && IsChain(chain + [b]) && (chain + [b])[0] == a
  {
    chain := SpanChain(a, b);
    ChainOfCells(a, b);
  }

  lemma KeysAppended(keys: seq<nat>, n: nat, before: seq<nat>, after: seq<nat>)
    requires 0 < n < |keys| && (forall k: nat :: k in before ==> k in after) && keys[n] in after
    requires forall i: nat :: i <= n - 1 ==> keys[i] in before
    ensures forall i: nat :: i <= n ==> keys[i] in after
  {
  }

  lemma {:induction false} SpanAllIsRequired(keys: seq<nat>, n: nat, L: nat, S: set<nat>)
    requires Sorted(keys) && n < |keys| && CornerstoneSet(S, L)
    requires forall i: nat :: i < |keys| ==> keys[i] in S
    ensures forall k :: k in SpanAll(keys, n) ==> k in S
  {
    if n > 0 {
      SpanAllIsRequired(keys, n - 1, L, S);
      ChainIsRequired(keys[n - 1], keys[n], L, S);
    }
  }

  /** a is the smallest cornerstone array with the given keys. */
  ghost predicate LeastWith(a: seq<nat>, keys: set<nat>, L: nat) {
    && Cornerstone(a, L)
    && keys <= KeySet(a)
    && forall S: set<nat> :: CornerstoneSet(S, L) && keys <= S ==> KeySet(a) <= S
  }

  ghost function Outside(S: set<nat>, s: nat, h: nat): (r: set<nat>) {
    set k | k in S && !(s < k < s + Pow8(h))
  }

  /** Removing everything inside a cell leaves an octree. */
  lemma OutsideIsOctree(S: set<nat>, L: nat, s: nat, h: nat)
    requires CornerstoneSet(S, L) && Aligned(s, h) && s + Pow8(h) <= Pow8(L)
    ensures CornerstoneSet(Outside(S, s, h), L)
  {
    var r := Outside(S, s, h);
    forall k: nat, g: nat | k in r && 1 <= g <= L && Floor(k, g) != k ensures ChildrenIn(r, Floor(k, g), g) {
      assert k in S && ChildrenIn(S, Floor(k, g), g);
      forall j: nat {:trigger ChildStart(Floor(k, g), g, j)} | j <= 8 ensures ChildStart(Floor(k, g), g, j) in r {
        BoundaryIsOutside(k, g, j, s, h);
      }
    }
  }

  lemma BoundaryIsOutside(k: nat, g: nat, j: nat, s: nat, h: nat)
    requires g >= 1 && Floor(k, g) != k && j <= 8 && Aligned(s, h) && !(s < k < s + Pow8(h))
    ensures !(s < ChildStart(Floor(k, g), g, j) < s + Pow8(h))
  {
    FloorBounds(k, g);
    BoundaryOfCell(Floor(k, g), g, j);
    InsideOrOutside(Floor(k, g), g, ChildStart(Floor(k, g), g, j), s, h);
  }

  lemma BoundaryOfCell(q: nat, g: nat, j: nat)
    requires g >= 1 && Aligned(q, g) && j <= 8
    ensures var b := ChildStart(q, g, j); q <= b <= q + Pow8(g) && Aligned(b, g - 1)
  {
    AlignedWeaken(q, g - 1, g);
    NthAligned(q, g - 1, j);
    EightCells(q, g - 1);
    if j > 0 { NthMonotone(q, g - 1, 0, j); }
    if j < 8 { NthMonotone(q, g - 1, j, 8); }
  }

  /** A child boundary strictly inside a cell (s, h) is one of a cell that lies in it. */
  lemma InsideOrOutside(q: nat, g: nat, b: nat, s: nat, h: nat)
    requires g >= 1 && Aligned(q, g) && Aligned(s, h) && q <= b <= q + Pow8(g) && Aligned(b, g - 1)
    ensures s < b < s + Pow8(h) ==> s <= q && q + Pow8(g) <= s + Pow8(h)
  {
    if s < b < s + Pow8(h) {
      if g <= h {
        CellStartsInside(q, g, b, s, h);
        CellEndsInside(q, g, b, s, h);
      } else {
        NoBoundaryInside(b, g - 1, s, h);
      }
    }
  }

  lemma CellStartsInside(q: nat, g: nat, b: nat, s: nat, h: nat)
    requires Aligned(q, g) && Aligned(s, h) && g <= h && s < b <= q + Pow8(g)
    ensures s <= q
  {
    AlignedWeaken(s, g, h);
    if q < s { AlignedGap(q, s, g); }
  }

  lemma CellEndsInside(q: nat, g: nat, b: nat, s: nat, h: nat)
    requires Aligned(q, g) && Aligned(s, h) && g <= h && q <= b < s + Pow8(h)
    ensures q + Pow8(g) <= s + Pow8(h)
  {
    AlignedWeaken(s, g, h);
    AlignedPow8(g, h);
    AlignedAdd(s, Pow8(h), g);
    AlignedGap(q, s + Pow8(h), g);
  }

  lemma NoBoundaryInside(b: nat, g: nat, s: nat, h: nat)
    requires Aligned(b, g) && Aligned(s, h) && h <= g && s < b
    ensures s + Pow8(h) <= b
  {
    AlignedWeaken(b, h, g);
    AlignedGap(s, b, h);
  }

  /** The smallest array has a key inside a cell only if one of the given keys is inside. */
  lemma LeastIsCutByKeys(a: seq<nat>, keys: set<nat>, L: nat, s: nat, h: nat, k: nat) returns (key: nat)
    requires LeastWith(a, keys, L) && Aligned(s, h) && s + Pow8(h) <= Pow8(L) && k in a && s < k < s + Pow8(h)
    ensures key in keys && s < key < s + Pow8(h)
  {
    var r := Outside(KeySet(a), s, h);
    ArrayToSet(a, L);
    OutsideIsOctree(KeySet(a), L, s, h);
    assert k in KeySet(a) && k !in r;
    assert !(keys <= r);
    key :| key in keys && key !in r;
  }

  lemma SpanningTreeIsLeast(keys: seq<nat>, L: nat)
    requires SpanningInput(keys, L)
    ensures LeastWith(SpanAll(keys, |keys| - 1) + [Pow8(L)], KeySet(keys), L)
  {
    var n := |keys| - 1;
    var a := SpanAll(keys, n) + [Pow8(L)];
    SpanAllIsChain(keys, n);
    forall k | k in KeySet(keys) ensures k in a {
      var i: nat :| i < |keys| && keys[i] == k;
    }
    forall S: set<nat> | CornerstoneSet(S, L) && KeySet(keys) <= S
      ensures KeySet(a) <= S
    {
      assert forall i: nat :: i < |keys| ==> keys[i] in KeySet(keys);
      SpanAllIsRequired(keys, n, L, S);
    }
  }

  /** Lengths of the chains, and the length of all of them. */
  ghost function ChainLengths(keys: seq<nat>): (lengths: seq<nat>)
    requires Sorted(keys) && |keys| > 1
    ensures |lengths| == |keys| - 1
  {
    seq(|keys| - 1, i requires 0 <= i < |keys| - 1 => |SpanChain(keys[i], keys[i + 1])|)
  }

  lemma {:induction false} SpanAllLength(keys: seq<nat>, n: nat)
    requires Sorted(keys) && 1 < |keys| && n < |keys|
    ensures |SpanAll(keys, n)| == PrefixSum(ChainLengths(keys), n)
  {
    if n > 0 {
      SpanAllLength(keys, n - 1);
      assert ChainLengths(keys)[n - 1] == |SpanChain(keys[n - 1], keys[n])|;
    }
  }

  /** Where the chain of each interval starts. */
  method SpanOffsets(spanningKeys: seq<nat>, L: nat) returns (offsets: array<nat>)
    requires SpanningInput(spanningKeys, L)
    ensures fresh(offsets) && offsets.Length == |spanningKeys|
    ensures forall i: nat :: i < offsets.Length ==> offsets[i] == |SpanAll(spanningKeys, i)|
  {
    var numIntervals := |spanningKeys| - 1;
    ghost var lengths := ChainLengths(spanningKeys);
    offsets := new nat[numIntervals + 1](_ => 0);
    for i := 0 to numIntervals
      invariant fresh(offsets)
      invariant forall k: nat :: k < i ==> offsets[k] == lengths[k]
    {
      assert spanningKeys[i + 1] <= spanningKeys[numIntervals];
      offsets[i] := SpanSfcRange(spanningKeys[i], spanningKeys[i + 1], L, null, 0);
    }
    ghost var counts := offsets[..];
    assert counts[..numIntervals] == lengths;
    ExclusiveScan(offsets, numIntervals + 1);
    forall i: nat | i <= numIntervals ensures offsets[i] == |SpanAll(spanningKeys, i)| {
      assert counts[..i] == counts[..numIntervals][..i] == lengths[..i];
      PrefixSumOf(counts, lengths, i);
      SpanAllLength(spanningKeys, i);
    }
  }

  lemma SpanAllGrows(keys: seq<nat>, n: nat, m: nat)
    requires Sorted(keys) && 1 < |keys| && n <= m < |keys|
    ensures |SpanAll(keys, n)| <= |SpanAll(keys, m)|
  {
    PrefixSumMonotone(ChainLengths(keys), n, m);
    SpanAllLength(keys, n);
    SpanAllLength(keys, m);
  }

  /** The coarsest octree that has all the given keys as cell boundaries. */
  method ComputeSpanningTree(spanningKeys: seq<nat>, L: nat) returns (spanningTree: array<nat>)
    requires SpanningInput(spanningKeys, L)
    ensures fresh(spanningTree)
    ensures LeastWith(spanningTree[..], KeySet(spanningKeys), L)
  {
    var numIntervals := |spanningKeys| - 1;
    var offsets := SpanOffsets(spanningKeys, L);
    ghost var scanned := offsets[..];
    spanningTree := new nat[offsets[numIntervals] + 1](_ => 0);
    for i := 0 to numIntervals
      invariant fresh(spanningTree) && fresh(offsets) && spanningTree != offsets && offsets[..] == scanned
      invariant spanningTree.Length == |SpanAll(spanningKeys, numIntervals)| + 1
      invariant |SpanAll(spanningKeys, i)| < spanningTree.Length
      invariant spanningTree[..|SpanAll(spanningKeys, i)|] == SpanAll(spanningKeys, i)
    {
      assert spanningKeys[i + 1] <= spanningKeys[numIntervals];
      SpanAllGrows(spanningKeys, i + 1, numIntervals);
      assert offsets[i] == scanned[i] == |SpanAll(spanningKeys, i)|;
      ghost var before := spanningTree[..];
      var n := SpanSfcRange(spanningKeys[i], spanningKeys[i + 1], L, spanningTree, offsets[i]);
      assert before[..offsets[i]] == SpanAll(spanningKeys, i);
      assert spanningTree[..|SpanAll(spanningKeys, i + 1)|] == SpanAll(spanningKeys, i + 1);
    }
    spanningTree[spanningTree.Length - 1] := Pow8(L);
    assert spanningTree[..] == SpanAll(spanningKeys, numIntervals) + [Pow8(L)];
    SpanningTreeIsLeast(spanningKeys, L);
  }

  // ---------------------------------------------------------------- injectKeys

  /** `std::sort` followed by `std::unique` and `erase`. */
  function SortUnique(keys: seq<nat>): (sorted: seq<nat>)
    ensures Ascending(sorted) && KeySet(sorted) == KeySet(keys)
  {
    if keys == [] then [] else
      assert keys == [keys[0]] + keys[1..];
      InsertKey(keys[0], SortUnique(keys[1..]))
  }

  function InsertKey(k: nat, sorted: seq<nat>): (r: seq<nat>)
    requires Ascending(sorted)
    ensures Ascending(r) && KeySet(r) == KeySet(sorted) + {k}
  {
    var p := LowerBound(sorted, k);
    if p < |sorted| && sorted[p] == k then sorted
    else InsertAt(k, sorted, p); sorted[..p] + [k] + sorted[p..]
  }

  lemma InsertAt(k: nat, sorted: seq<nat>, p: nat)
    requires Ascending(sorted) && p <= |sorted|
    requires forall i: nat :: i < p ==> sorted[i] < k
    requires p < |sorted| ==> k < sorted[p]
    ensures Ascending(sorted[..p] + [k] + sorted[p..])
    ensures KeySet(sorted[..p] + [k] + sorted[p..]) == KeySet(sorted) + {k}
  {
    assert sorted == sorted[..p] + sorted[p..];
  }

  lemma FirstAndLast(sorted: seq<nat>, first: nat, last: nat)
    requires Ascending(sorted) && first in sorted && last in sorted && first < last
    requires forall k :: k in sorted ==> first <= k <= last
    ensures |sorted| > 1 && sorted[0] == first && sorted[|sorted| - 1] == last
  {
    var i: nat :| i < |sorted| && sorted[i] == first;
    var j: nat :| j < |sorted| && sorted[j] == last;
    assert sorted[0] in sorted && sorted[|sorted| - 1] in sorted;
  }

  lemma SpanningKeys(sorted: seq<nat>, keys: seq<nat>, L: nat)
    requires forall k :: k in keys ==> k <= Pow8(L)
    requires Ascending(sorted) && KeySet(sorted) == KeySet(keys + [0] + [Pow8(L)])
    ensures SpanningInput(sorted, L) && KeySet(sorted) == KeySet(keys) + {0, Pow8(L)}
  {
    assert KeySet(sorted) == KeySet(keys) + {0, Pow8(L)};
    assert forall k :: k in sorted ==> k in KeySet(sorted);
    assert 0 in KeySet(sorted) && Pow8(L) in KeySet(sorted);
    FirstAndLast(sorted, 0, Pow8(L));
  }

  /** Insert keys into an octree, together with the cells needed to keep it an octree: the result is
      the coarsest octree that refines the old one and has all the keys. */
  method InjectKeys(tree: seq<nat>, keys: seq<nat>, L: nat) returns (newTree: seq<nat>)
    requires Cornerstone(tree, L)
    requires forall k :: k in keys ==> k <= Pow8(L)
    ensures LeastWith(newTree, KeySet(tree) + KeySet(keys), L)
  {
    var spanningKeys := SortUnique(keys + [0] + [Pow8(L)]);
    SpanningKeys(spanningKeys, keys, L);
    var spanningTree := ComputeSpanningTree(spanningKeys, L);
    newTree := SortUnique(tree + spanningTree[..]);
    assert KeySet(tree + spanningTree[..]) == KeySet(tree) + KeySet(spanningTree[..]);
    MergedIsLeast(tree, spanningTree[..], newTree, KeySet(keys), L);
  }

  lemma MergedIsLeast(tree: seq<nat>, spanning: seq<nat>, merged: seq<nat>, keys: set<nat>, L: nat)
    requires Cornerstone(tree, L) && LeastWith(spanning, keys + {0, Pow8(L)}, L)
    requires Ascending(merged) && KeySet(merged) == KeySet(tree) + KeySet(spanning)
    ensures LeastWith(merged, KeySet(tree) + keys, L)
  {
    ArrayToSet(tree, L);
    ArrayToSet(spanning, L);
    UnionAndIntersection(KeySet(tree), KeySet(spanning), L);
    SetToArray(merged, L);
    forall S: set<nat> | CornerstoneSet(S, L) && KeySet(tree) + keys <= S
      ensures KeySet(merged) <= S
    {
      assert keys + {0, Pow8(L)} <= S;
    }
  }
}
