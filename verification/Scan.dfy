/** Sums over prefixes of an array, the in-place exclusive scan, and writes into a part of an array. */
module Scan {

  /** Sum of the first i elements. */
  function PrefixSum(s: seq<nat>, i: nat): (sum: nat)
    requires i <= |s|
  {
    if i == 0 then 0 else PrefixSum(s, i - 1) + s[i - 1]
  }

  lemma {:induction false} PrefixSumMonotone(s: seq<nat>, i: nat, j: nat)
    requires i <= j <= |s|
    ensures PrefixSum(s, i) <= PrefixSum(s, j)
  {
    if i < j { PrefixSumMonotone(s, i, j - 1); }
  }

  lemma {:induction false} PrefixSumOf(s: seq<nat>, t: seq<nat>, i: nat)
    requires i <= |s| && i <= |t| && s[..i] == t[..i]
    ensures PrefixSum(s, i) == PrefixSum(t, i)
  {
    if i > 0 {
      assert s[..i - 1] == s[..i][..i - 1] && t[..i - 1] == t[..i][..i - 1];
      assert s[..i][i - 1] == t[..i][i - 1];
      PrefixSumOf(s, t, i - 1);
    }
  }

  /** `std::exclusive_scan(a, a + n, a, 0)` on the first n elements. */
  method ExclusiveScan(a: array<nat>, n: nat)
    requires n <= a.Length
    modifies a
    ensures forall i: nat :: i < n ==> a[i] == PrefixSum(old(a[..]), i)
    ensures forall i: nat :: n <= i < a.Length ==> a[i] == old(a[i])
  {
    var sum := 0;
    ghost var before := a[..];
    for k := 0 to n
      invariant sum == PrefixSum(before, k)
      invariant forall i: nat :: i < k ==> a[i] == PrefixSum(before, i)
      invariant forall i: nat :: k <= i < a.Length ==> a[i] == before[i]
    {
      var x := a[k];
      a[k] := sum;
      sum := sum + x;
    }
  }

  /** `after` is `before` with the elements from position `at` on replaced by those of `piece`. */
  ghost predicate Spliced(before: seq<nat>, after: seq<nat>, at: nat, piece: seq<nat>) {
    && at + |piece| <= |before|
    && after == before[..at] + piece + before[at + |piece|..]
  }

  lemma SpliceSplice(s0: seq<nat>, s1: seq<nat>, s2: seq<nat>, at: nat, p1: seq<nat>, p2: seq<nat>)
    requires Spliced(s0, s1, at, p1) && Spliced(s1, s2, at + |p1|, p2)
    ensures Spliced(s0, s2, at, p1 + p2)
  {
    assert s1[..at + |p1|] == s0[..at] + p1;
    assert s1[at + |p1| + |p2|..] == s0[at + |p1| + |p2|..];
    assert s2 == s0[..at] + (p1 + p2) + s0[at + |p1| + |p2|..];
  }

  lemma SpliceOne(s0: seq<nat>, s1: seq<nat>, at: nat, p: seq<nat>, x: nat)
    requires Spliced(s0, s1, at, p) && at + |p| < |s0|
    ensures Spliced(s0, s1[at + |p| := x], at, p + [x])
  {
    assert s1[at + |p| := x] == s0[..at] + (p + [x]) + s0[at + |p| + 1..];
  }

  lemma SplicedPrefix(s0: seq<nat>, s1: seq<nat>, at: nat, p: seq<nat>)
    requires Spliced(s0, s1, at, p)
    ensures |s1| == |s0| && s1[..at + |p|] == s0[..at] + p
  {
  }
}
