/** Index ranges: complement and enumeration. */
module Ranges {
  /** A half-open range of indices. */
  datatype Range = Range(start: nat, end: nat)

  predicate IsIn(i: nat, r: Range) {
    r.start <= i < r.end
  }

  /** Some of the first n ranges contains the index. */
  predicate Covers(ranges: seq<Range>, n: nat, i: nat)
    requires n <= |ranges|
  {
    n > 0 && (IsIn(i, ranges[n - 1]) || Covers(ranges, n - 1, i))
  }

  /** Where the first n ranges end; empty ranges do not matter. */
  ghost function EndOfFirst(ranges: seq<Range>, n: nat, first: nat): (e: nat)
    requires n <= |ranges|
  {
    if n == 0 then first
    else if ranges[n - 1].start == ranges[n - 1].end then EndOfFirst(ranges, n - 1, first) else ranges[n - 1].end
  }

  /** The non-empty ones of the first n ranges ascend without overlap between first and last. */
  ghost predicate AreSorted(first: nat, ranges: seq<Range>, n: nat, last: nat)
    requires n <= |ranges|
  {
    if n == 0 then first <= last else
      var r := ranges[n - 1];
      && AreSorted(first, ranges, n - 1, last) && r.start <= r.end
      && (r.start < r.end ==> EndOfFirst(ranges, n - 1, first) <= r.start && r.end <= last)
  }

  lemma {:induction false} EndIsInside(first: nat, ranges: seq<Range>, last: nat, n: nat)
    requires n <= |ranges| && AreSorted(first, ranges, n, last)
    ensures first <= EndOfFirst(ranges, n, first) <= last
    ensures forall i: nat :: Covers(ranges, n, i) ==> first <= i < EndOfFirst(ranges, n, first)
  {
    if n > 0 { EndIsInside(first, ranges, last, n - 1); }
  }

  lemma {:induction false} FirstAreSorted(first: nat, ranges: seq<Range>, last: nat, m: nat, n: nat)
    requires m <= n <= |ranges| && AreSorted(first, ranges, n, last)
    ensures AreSorted(first, ranges, m, last)
    decreases n
  {
    if m < n { FirstAreSorted(first, ranges, last, m, n - 1); }
  }

  /** No range ends before it starts. */
  predicate AreForward(ranges: seq<Range>) {
    forall k: nat :: k < |ranges| ==> ranges[k].start <= ranges[k].end
  }

  /** The ranges cover exactly the indices from first to `to` that the first n input ranges do not cover. */
  ghost predicate IsInverse(inverted: seq<Range>, first: nat, ranges: seq<Range>, n: nat, to: nat)
    requires n <= |ranges|
  {
    && AreForward(inverted)
    && forall i: nat :: Covers(inverted, |inverted|, i) <==> first <= i < to && !Covers(ranges, n, i)
  }

  lemma {:induction false} CoversPrefix(ranges: seq<Range>, more: seq<Range>, n: nat, i: nat)
    requires n <= |ranges|
    ensures Covers(ranges + more, n, i) <==> Covers(ranges, n, i)
  {
    if n > 0 { CoversPrefix(ranges, more, n - 1, i); }
  }

  lemma AppendRange(inverted: seq<Range>, r: Range, i: nat)
    ensures Covers(inverted + [r], |inverted| + 1, i) <==> Covers(inverted, |inverted|, i) || IsIn(i, r)
  {
    CoversPrefix(inverted, [r], |inverted|, i);
  }

  /** The gap before a range, and the range itself. */
  lemma InvertOneMore(inverted: seq<Range>, first: nat, ranges: seq<Range>, n: nat, last: nat)
    requires n < |ranges| && AreSorted(first, ranges, n + 1, last)
    requires IsInverse(inverted, first, ranges, n, EndOfFirst(ranges, n, first))
    ensures ranges[n].start == ranges[n].end ==> IsInverse(inverted, first, ranges, n + 1, EndOfFirst(ranges, n, first))
    ensures ranges[n].start < ranges[n].end ==>
              var current := EndOfFirst(ranges, n, first);
              var more := if current < ranges[n].start then inverted + [Range(current, ranges[n].start)] else inverted;
              IsInverse(more, first, ranges, n + 1, ranges[n].end)
  {
    var current, r := EndOfFirst(ranges, n, first), ranges[n];
    EndIsInside(first, ranges, last, n);
    if r.start < r.end {
      var more := if current < r.start then inverted + [Range(current, r.start)] else inverted;
      forall i: nat ensures Covers(more, |more|, i) <==> first <= i < r.end && !Covers(ranges, n + 1, i) {
        AppendRange(inverted, Range(current, r.start), i);
      }
    }
  }

  /** The complement of sorted ranges within [first, last). */
  method InvertRanges(first: nat, ranges: seq<Range>, last: nat) returns (inverted: seq<Range>)
    requires AreSorted(first, ranges, |ranges|, last)
    ensures IsInverse(inverted, first, ranges, |ranges|, last)
  {
    inverted := [];
    var currentIndex := first;
    var n: nat := 0;
    while n < |ranges|
      invariant n <= |ranges| && currentIndex == EndOfFirst(ranges, n, first)
      invariant IsInverse(inverted, first, ranges, n, currentIndex)
    {
      var range := ranges[n];
      FirstAreSorted(first, ranges, last, n + 1, |ranges|);
      InvertOneMore(inverted, first, ranges, n, last);
      if range.start != range.end {
        if currentIndex < range.start { inverted := inverted + [Range(currentIndex, range.start)]; }
        currentIndex := range.end;
      }
      n := n + 1;
    }
    LastGap(inverted, first, ranges, last);
    if currentIndex < last { inverted := inverted + [Range(currentIndex, last)]; }
  }

  /** What is left behind the last range. */
  lemma LastGap(inverted: seq<Range>, first: nat, ranges: seq<Range>, last: nat)
    requires AreSorted(first, ranges, |ranges|, last)
    requires IsInverse(inverted, first, ranges, |ranges|, EndOfFirst(ranges, |ranges|, first))
    ensures var current := EndOfFirst(ranges, |ranges|, first);
            IsInverse(if current < last then inverted + [Range(current, last)] else inverted, first, ranges, |ranges|,
                      last)
  {
    var current := EndOfFirst(ranges, |ranges|, first);
    EndIsInside(first, ranges, last, |ranges|);
    if current < last {
      var more := inverted + [Range(current, last)];
      forall i: nat ensures Covers(more, |more|, i) <==> first <= i < last && !Covers(ranges, |ranges|, i) {
        AppendRange(inverted, Range(current, last), i);
      }
    }
  }

  // ------------------------------------------------------------- sorting ranges

  predicate LexLeq(a: Range, b: Range) {
    a.start < b.start || (a.start == b.start && a.end <= b.end)
  }

  /** `std::sort` of ranges, by start and then by end. */
  function SortRanges(ranges: seq<Range>): (sorted: seq<Range>)
    ensures |sorted| == |ranges|
  {
    if ranges == [] then [] else InsertRange(ranges[0], SortRanges(ranges[1..]))
  }

  function InsertRange(r: Range, sorted: seq<Range>): (s: seq<Range>)
    ensures |s| == |sorted| + 1
  {
    if sorted == [] || LexLeq(r, sorted[0]) then [r] + sorted else [sorted[0]] + InsertRange(r, sorted[1..])
  }

  /** Two ranges have no index in common. */
  predicate AreApart(a: Range, b: Range) {
    && a.start <= a.end && b.start <= b.end
    && (a.start == a.end || b.start == b.end || a.end <= b.start || b.end <= a.start)
  }

  ghost predicate IsApartFrom(r: Range, ranges: seq<Range>) {
    forall k: nat :: k < |ranges| ==> AreApart(r, ranges[k])
  }

  ghost predicate ArePairwiseApart(ranges: seq<Range>) {
    forall j: nat, k: nat :: j < k < |ranges| ==> AreApart(ranges[j], ranges[k])
  }

  ghost predicate IsAscendingChain(ranges: seq<Range>) {
    forall j: nat, k: nat :: j < k < |ranges| ==> LexLeq(ranges[j], ranges[k]) && AreApart(ranges[j], ranges[k])
  }

  lemma {:induction false} InsertKeepsMembers(r: Range, sorted: seq<Range>)
    ensures forall q: Range :: q in InsertRange(r, sorted) <==> q == r || q in sorted
  {
    if sorted != [] && !LexLeq(r, sorted[0]) {
      InsertKeepsMembers(r, sorted[1..]);
      assert sorted == [sorted[0]] + sorted[1..];
    }
  }

  lemma {:induction false} InsertKeepsChain(r: Range, sorted: seq<Range>)
    requires IsAscendingChain(sorted) && IsApartFrom(r, sorted)
    ensures IsAscendingChain(InsertRange(r, sorted))
  {
    if sorted != [] {
      if LexLeq(r, sorted[0]) {
        forall k: nat | k < |sorted| ensures LexLeq(r, sorted[k]) {
          if k > 0 { assert LexLeq(sorted[0], sorted[k]); }
        }
      } else {
        var rest := sorted[1..];
        assert IsApartFrom(r, rest);
        InsertKeepsChain(r, rest);
        InsertKeepsMembers(r, rest);
        var s := InsertRange(r, rest);
        forall k: nat | k < |s| ensures LexLeq(sorted[0], s[k]) && AreApart(sorted[0], s[k]) {
          assert s[k] in s;
          if s[k] != r {
            var m: nat :| m < |rest| && rest[m] == s[k];
            assert sorted[m + 1] == s[k];
          } else {
            assert AreApart(r, sorted[0]);
          }
        }
      }
    }
  }

  lemma {:induction false} SortedAreChain(ranges: seq<Range>)
    requires ArePairwiseApart(ranges)
    ensures IsAscendingChain(SortRanges(ranges))
    ensures forall q: Range :: q in SortRanges(ranges) <==> q in ranges
  {
    if ranges != [] {
      var rest := ranges[1..];
      assert forall j: nat :: j < |rest| ==> rest[j] == ranges[j + 1];
      SortedAreChain(rest);
      InsertKeepsMembers(ranges[0], SortRanges(rest));
      assert ranges == [ranges[0]] + rest;
      forall k: nat | k < |SortRanges(rest)| ensures AreApart(ranges[0], SortRanges(rest)[k]) {
        assert SortRanges(rest)[k] in rest;
        var m: nat :| m < |rest| && rest[m] == SortRanges(rest)[k];
        assert AreApart(ranges[0], ranges[m + 1]);
      }
      InsertKeepsChain(ranges[0], SortRanges(rest));
    }
  }

  /** Where the first n ranges end is the end of one of them, or the start. */
  lemma {:induction false} ChainIsSorted(ranges: seq<Range>, n: nat, last: nat)
    requires IsAscendingChain(ranges) && n <= |ranges|
    requires forall k: nat :: k < |ranges| ==> ranges[k].start <= ranges[k].end <= last
    ensures AreSorted(0, ranges, n, last)
    ensures EndOfFirst(ranges, n, 0) == 0 ||
            exists m: nat :: m < n && ranges[m].start < ranges[m].end && ranges[m].end == EndOfFirst(ranges, n, 0)
  {
    if n > 0 {
      ChainIsSorted(ranges, n - 1, last);
      var e := EndOfFirst(ranges, n - 1, 0);
      if e != 0 {
        var m: nat :| m < n - 1 && ranges[m].start < ranges[m].end && ranges[m].end == e;
        assert LexLeq(ranges[m], ranges[n - 1]) && AreApart(ranges[m], ranges[n - 1]);
      }
    }
  }

  lemma {:induction false} CoversMember(ranges: seq<Range>, n: nat, i: nat)
    requires n <= |ranges|
    ensures Covers(ranges, n, i) <==> exists k: nat :: k < n && IsIn(i, ranges[k])
  {
    if n > 0 { CoversMember(ranges, n - 1, i); }
  }

  /** Sorting ranges that are apart makes them fit for inversion, and covers the same indices. */
  lemma SortingRanges(ranges: seq<Range>, last: nat)
    requires ArePairwiseApart(ranges)
    requires forall k: nat :: k < |ranges| ==> ranges[k].start <= ranges[k].end <= last
    ensures AreSorted(0, SortRanges(ranges), |ranges|, last)
    ensures forall i: nat :: Covers(SortRanges(ranges), |ranges|, i) <==>
      exists k: nat :: k < |ranges| && IsIn(i, ranges[k])
  {
    var s := SortRanges(ranges);
    SortedAreChain(ranges);
    forall k: nat | k < |s| ensures s[k].start <= s[k].end <= last {
      assert s[k] in ranges;
    }
    ChainIsSorted(s, |s|, last);
    forall i: nat ensures Covers(s, |s|, i) <==> exists k: nat :: k < |ranges| && IsIn(i, ranges[k]) {
      CoversMember(s, |s|, i);
      if k: nat :| k < |ranges| && IsIn(i, ranges[k]) {
        assert ranges[k] in s;
        var m: nat :| m < |s| && s[m] == ranges[k];
      }
      if m: nat :| m < |s| && IsIn(i, s[m]) {
        assert s[m] in ranges;
        var k: nat :| k < |ranges| && ranges[k] == s[m];
      }
    }
  }

  /** The indices of a range in order. */
  function Iota(r: Range): (indices: seq<nat>)
    requires r.start <= r.end
    ensures |indices| == r.end - r.start
    ensures forall k: nat :: k < |indices| ==> indices[k] == r.start + k
    decreases r.end - r.start
  {
    if r.start == r.end then [] else [r.start] + Iota(Range(r.start + 1, r.end))
  }

  /** The indices of the first n ranges, one range after the other. */
  ghost function Enumerated(ranges: seq<Range>, n: nat): (indices: seq<nat>)
    requires n <= |ranges| && AreForward(ranges)
  {
    if n == 0 then [] else Enumerated(ranges, n - 1) + Iota(ranges[n - 1])
  }

  lemma {:induction false} EnumeratedAre(ranges: seq<Range>, n: nat, i: nat)
    requires n <= |ranges| && AreForward(ranges)
    ensures i in Enumerated(ranges, n) <==> Covers(ranges, n, i)
  {
    if n > 0 {
      EnumeratedAre(ranges, n - 1, i);
      IotaHas(ranges[n - 1], i);
    }
  }

  lemma IotaHas(r: Range, i: nat)
    requires r.start <= r.end
    ensures i in Iota(r) <==> IsIn(i, r)
  {
    if IsIn(i, r) { assert Iota(r)[i - r.start] == i; }
  }

  /** Enumerate ranges by scanning their sizes and filling in each range at its offset. */
  method EnumerateRanges(ranges: seq<Range>) returns (indices: seq<nat>)
    requires AreForward(ranges)
    ensures indices == Enumerated(ranges, |ranges|)
  {
    indices := [];
    for k := 0 to |ranges|
      invariant indices == Enumerated(ranges, k)
    {
      indices := indices + Iota(ranges[k]);
    }
  }
}
