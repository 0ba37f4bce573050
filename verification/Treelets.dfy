/** Agreement of all ranks on the cells they exchange: treelets, rejected keys, pruning.

Rank r sends the part of its leaves that covers the range of a peer o. Rank o masks the keys that
its own octree does not have, tells r to remove them, and removes them from its copy. Messages are
delivered in any order. */
module Treelets {
  import opened Keys
  import opened CornerstoneArray
  import opened Counts
  import LeafUpdate

  // ------------------------------------------------------------- one rank's part

  /** Index range of the leaves in the key range [lo, hi], narrowed down where there is no exact match;
      one entry of `translateAssignment`. */
  function LeafRange(leaves: seq<nat>, lo: nat, hi: nat): (r: (nat, nat))
    ensures r.0 <= r.1
  {
    var startIndex := FindNodeAbove(leaves, |leaves|, lo);
    var endIndex := FindNodeBelow(leaves, |leaves|, hi);
    (startIndex, if endIndex < startIndex then startIndex else endIndex)
  }

  lemma RangeInBounds(leaves: seq<nat>, lo: nat, hi: nat, L: nat)
    requires Cornerstone(leaves, L) && lo <= hi <= Pow8(L)
    ensures LeafRange(leaves, lo, hi).1 < |leaves|
  {
    var n := |leaves|;
    assert leaves[..n] == leaves;
    assert leaves[n - 1] == Pow8(L);
  }

  /** The keys that a rank sends to the owner of [lo, hi]: one key more than there are leaves. */
  function Treelet(leaves: seq<nat>, lo: nat, hi: nat): (t: seq<nat>) {
    var (start, end) := LeafRange(leaves, lo, hi);
    if end < |leaves| then leaves[start..end + 1] else []
  }

  predicate InRange(k: nat, lo: nat, hi: nat) {
    lo <= k <= hi
  }

  /** Some key of the array is in the range. */
  predicate Meets(leaves: seq<nat>, lo: nat, hi: nat) {
    exists i: nat :: i < |leaves| && InRange(leaves[i], lo, hi)
  }

  /** The treelet holds exactly the keys in the range, in order. */
  lemma TreeletIs(leaves: seq<nat>, lo: nat, hi: nat, L: nat)
    requires Cornerstone(leaves, L) && lo <= hi <= Pow8(L) && Meets(leaves, lo, hi)
    ensures Treelet(leaves, lo, hi) != [] && Ascending(Treelet(leaves, lo, hi))
    ensures forall k: nat :: k in Treelet(leaves, lo, hi) <==> k in leaves && InRange(k, lo, hi)
  {
    RangeInBounds(leaves, lo, hi, L);
    var (start, end) := LeafRange(leaves, lo, hi);
    RangeCovers(leaves, lo, hi);
    var t := Treelet(leaves, lo, hi);
    forall k: nat ensures k in t <==> k in leaves && InRange(k, lo, hi) {
      if k in t {
        var j: nat :| j < |t| && t[j] == k;
        assert leaves[start + j] == k;
      }
      if k in leaves && InRange(k, lo, hi) {
        var i: nat :| i < |leaves| && leaves[i] == k;
        assert t[i - start] == k;
      }
    }
  }

  lemma RangeCovers(leaves: seq<nat>, lo: nat, hi: nat)
    requires Ascending(leaves) && Meets(leaves, lo, hi)
    ensures var (start, end) := LeafRange(leaves, lo, hi);
            && end < |leaves|
            && forall i: nat :: i < |leaves| ==> (start <= i <= end <==> InRange(leaves[i], lo, hi))
  {
    var n := |leaves|;
    assert leaves[..n] == leaves;
    var m: nat :| m < n && InRange(leaves[m], lo, hi);
  }

  /** `maskKey`: a key inside the curve gets the bit above all valid keys. */
  function MaskKey(k: nat, L: nat): (m: nat) {
    if 0 < k < Pow8(L) then k + Pow8(L) else k
  }

  function UnmaskKey(m: nat, L: nat): (k: nat) {
    if m > Pow8(L) then m - Pow8(L) else m
  }

  predicate IsMasked(m: nat, L: nat) {
    m > Pow8(L)
  }

  /** The key is among the leaves: the first leaf at or above it is the key itself. */
  predicate IsLeafKey(leaves: seq<nat>, k: nat)
    requires |leaves| > 0
  {
    leaves[FindNodeAbove(leaves, |leaves| - 1, k)] == k
  }

  lemma IsLeafKeyIs(leaves: seq<nat>, k: nat)
    requires Ascending(leaves) && |leaves| > 0 && k <= leaves[|leaves| - 1]
    ensures IsLeafKey(leaves, k) <==> k in leaves
  {
    var n := |leaves| - 1;
    var p := FindNodeAbove(leaves, n, k);
    if k in leaves {
      var i: nat :| i < |leaves| && leaves[i] == k;
      assert forall j: nat :: j < p ==> leaves[..n][j] == leaves[j];
      assert p < n ==> leaves[..n][p] == leaves[p];
    }
  }

  /** A treelet after the owner has masked the keys that it does not have. The last key is not checked. */
  ghost function Checked(treelet: seq<nat>, leaves: seq<nat>, L: nat): (c: seq<nat>)
    requires |leaves| > 0
    ensures |c| == |treelet|
  {
    seq(|treelet|, i requires 0 <= i < |treelet| =>
      if i < |treelet| - 1 && !IsLeafKey(leaves, treelet[i]) then MaskKey(treelet[i], L) else treelet[i])
  }

  method CheckTreelet(treelet: array<nat>, leaves: seq<nat>, L: nat)
    requires |leaves| > 0
    modifies treelet
    ensures treelet[..] == Checked(old(treelet[..]), leaves, L)
  {
    var numNodes := treelet.Length - 1;
    var i := 0;
    while i < numNodes
      invariant 0 <= i && (i <= numNodes || i == 0)
      invariant forall j: nat :: j < treelet.Length ==>
                  treelet[j] == if j < i then Checked(old(treelet[..]), leaves, L)[j] else old(treelet[j])
    {
      var k := treelet[i];
      if k != leaves[FindNodeAbove(leaves, |leaves| - 1, k)] { treelet[i] := MaskKey(k, L); }
      i := i + 1;
    }
  }

  /** The masked keys among the first n, unmasked. */
  ghost function Rejected(checked: seq<nat>, n: nat, L: nat): (keys: seq<nat>)
    requires n <= |checked|
  {
    if n == 0 then []
    else Rejected(checked, n - 1, L) + if IsMasked(checked[n - 1], L) then [UnmaskKey(checked[n - 1], L)] else []
  }

  method RejectedKeys(treelet: seq<nat>, L: nat) returns (rejected: seq<nat>)
    requires treelet != []
    ensures rejected == Rejected(treelet, |treelet| - 1, L)
  {
    rejected := [];
    for i := 0 to |treelet| - 1
      invariant rejected == Rejected(treelet, i, L)
    {
      if IsMasked(treelet[i], L) { rejected := rejected + [UnmaskKey(treelet[i], L)]; }
    }
  }

  /** The unmasked keys among the first n. */
  ghost function Pruned(checked: seq<nat>, n: nat, L: nat): (keys: seq<nat>)
    requires n <= |checked|
  {
    if n == 0 then []
    else Pruned(checked, n - 1, L) + if IsMasked(checked[n - 1], L) then [] else [checked[n - 1]]
  }

  method PruneTreelet(treelet: seq<nat>, L: nat) returns (pruned: seq<nat>)
    ensures pruned == Pruned(treelet, |treelet|, L)
  {
    pruned := [];
    for i := 0 to |treelet|
      invariant pruned == Pruned(treelet, i, L)
    {
      if !IsMasked(treelet[i], L) { pruned := pruned + [treelet[i]]; }
    }
  }

  lemma CheckedKey(treelet: seq<nat>, leaves: seq<nat>, i: nat, L: nat)
    requires Cornerstone(leaves, L) && i < |treelet| && treelet[i] <= Pow8(L)
    ensures var c := Checked(treelet, leaves, L)[i];
            if i < |treelet| - 1 && treelet[i] !in leaves then IsMasked(c, L) && UnmaskKey(c, L) == treelet[i]
            else !IsMasked(c, L) && c == treelet[i]
  {
    IsLeafKeyIs(leaves, treelet[i]);
    assert leaves[0] in leaves && leaves[|leaves| - 1] in leaves;
  }

  /** Which keys are rejected. */
  lemma {:induction false} RejectedAre(treelet: seq<nat>, leaves: seq<nat>, n: nat, L: nat)
    requires Cornerstone(leaves, L) && n < |treelet| && forall i: nat :: i < |treelet| ==> treelet[i] <= Pow8(L)
    ensures forall k: nat :: k in Rejected(Checked(treelet, leaves, L), n, L) <==> k in treelet[..n] && k !in leaves
  {
    if n > 0 {
      RejectedAre(treelet, leaves, n - 1, L);
      CheckedKey(treelet, leaves, n - 1, L);
      assert treelet[..n] == treelet[..n - 1] + [treelet[n - 1]];
    }
  }

  /** If the owner has the last key, checking the others rejects all keys that it does not have. */
  lemma AllRejected(treelet: seq<nat>, leaves: seq<nat>, L: nat)
    requires Cornerstone(leaves, L) && treelet != [] && forall k: nat :: k in treelet ==> k <= Pow8(L)
    requires treelet[|treelet| - 1] in leaves
    ensures forall k: nat :: k in Rejected(Checked(treelet, leaves, L), |treelet| - 1, L) <==>
              k in treelet && k !in leaves
  {
    var n := |treelet| - 1;
    assert treelet == treelet[..n] + [treelet[n]];
    forall i: nat | i < |treelet| ensures treelet[i] <= Pow8(L) {
      assert treelet[i] in treelet;
    }
    RejectedAre(treelet, leaves, n, L);
  }

  /** Which of the first n keys are kept. */
  ghost function Kept(treelet: seq<nat>, leaves: seq<nat>, n: nat): (keys: seq<nat>)
    requires n <= |treelet|
  {
    if n == 0 then []
    else Kept(treelet, leaves, n - 1) +
         if treelet[n - 1] in leaves || n == |treelet| then [treelet[n - 1]] else []
  }

  lemma {:induction false} PrunedIsKept(treelet: seq<nat>, leaves: seq<nat>, n: nat, L: nat)
    requires Cornerstone(leaves, L) && n <= |treelet| && forall i: nat :: i < |treelet| ==> treelet[i] <= Pow8(L)
    ensures Pruned(Checked(treelet, leaves, L), n, L) == Kept(treelet, leaves, n)
  {
    if n > 0 {
      PrunedIsKept(treelet, leaves, n - 1, L);
      CheckedKey(treelet, leaves, n - 1, L);
    }
  }

  lemma {:induction false} KeptAre(treelet: seq<nat>, leaves: seq<nat>, n: nat)
    requires n <= |treelet| && Ascending(treelet)
    ensures Ascending(Kept(treelet, leaves, n))
    ensures forall k: nat :: k in Kept(treelet, leaves, n) ==> k in treelet[..n]
    ensures n < |treelet| ==> forall k: nat :: k in treelet[..n] && k in leaves ==> k in Kept(treelet, leaves, n)
    ensures n < |treelet| ==> forall k: nat :: k in Kept(treelet, leaves, n) ==> k in leaves
  {
    if n > 0 {
      KeptAre(treelet, leaves, n - 1);
      assert treelet[..n] == treelet[..n - 1] + [treelet[n - 1]];
      var before := Kept(treelet, leaves, n - 1);
      forall i: nat | i < |before| ensures before[i] < treelet[n - 1] {
        assert before[i] in before;
        var j: nat :| j < n - 1 && treelet[..n - 1][j] == before[i];
      }
    }
  }

  /** Pruning keeps the keys that the owner has, if it has the last one. */
  lemma PrunedAre(treelet: seq<nat>, leaves: seq<nat>, L: nat)
    requires Cornerstone(leaves, L) && treelet != [] && Ascending(treelet)
    requires forall i: nat :: i < |treelet| ==> treelet[i] <= Pow8(L)
    requires treelet[|treelet| - 1] in leaves
    ensures var p := Pruned(Checked(treelet, leaves, L), |treelet|, L);
            Ascending(p) && forall k: nat :: k in p <==> k in treelet && k in leaves
  {
    PrunedIsKept(treelet, leaves, |treelet|, L);
    AllKept(treelet, leaves);
  }

  lemma AllKept(treelet: seq<nat>, leaves: seq<nat>)
    requires treelet != [] && Ascending(treelet) && treelet[|treelet| - 1] in leaves
    ensures Ascending(Kept(treelet, leaves, |treelet|))
    ensures forall k: nat :: k in Kept(treelet, leaves, |treelet|) <==> k in treelet && k in leaves
  {
    var n := |treelet|;
    KeptAre(treelet, leaves, n - 1);
    KeptAre(treelet, leaves, n);
    assert Kept(treelet, leaves, n) == Kept(treelet, leaves, n - 1) + [treelet[n - 1]];
    assert treelet == treelet[..n - 1] + [treelet[n - 1]];
  }

  // ------------------------------------------------------------- all ranks

  /** Leaves of every rank, the range boundaries of the ranks, and the peers that each rank sends to. */
  datatype World = World(leaves: seq<seq<nat>>, bounds: seq<nat>, peers: seq<seq<nat>>, L: nat)

  /** The leaves of a rank are an octree that contains the ends of its own range. */
  ghost predicate RankIsReady(w: World, r: nat)
    requires |w.bounds| == |w.leaves| + 1 && r < |w.leaves|
  {
    && Cornerstone(w.leaves[r], w.L)
    && w.bounds[r] in w.leaves[r] && w.bounds[r + 1] in w.leaves[r]
  }

  /** Rank o is a peer of rank r only if a leaf of r lies in the range of o. */
  ghost predicate PeerIsReady(w: World, r: nat, o: nat)
    requires |w.bounds| == |w.leaves| + 1 && r < |w.leaves|
  {
    && o < |w.leaves| && o != r
    && LeafRange(w.leaves[r], w.bounds[o], w.bounds[o + 1]).0 < LeafRange(w.leaves[r], w.bounds[o], w.bounds[o + 1]).1
  }

  ghost predicate WorldIsReady(w: World) {
    && |w.bounds| == |w.leaves| + 1 && |w.peers| == |w.leaves|
    && (forall i: nat, j: nat :: i <= j < |w.bounds| ==> w.bounds[i] <= w.bounds[j])
    && (forall r: nat :: r < |w.leaves| ==> RankIsReady(w, r))
    && (forall r: nat, i: nat :: r < |w.leaves| && i < |w.peers[r]| ==> PeerIsReady(w, r, w.peers[r][i]))
  }

  /** What rank r sends to rank o. */
  function Sent(w: World, r: nat, o: nat): (treelet: seq<nat>)
    requires r < |w.leaves| && o + 1 < |w.bounds|
  {
    Treelet(w.leaves[r], w.bounds[o], w.bounds[o + 1])
  }

  predicate InRangeOf(w: World, o: nat, k: nat)
    requires o + 1 < |w.bounds|
  {
    InRange(k, w.bounds[o], w.bounds[o + 1])
  }

  /** What rank o finds wrong with the treelet of rank r, and what it keeps of it. */
  ghost function RejectedBy(w: World, r: nat, o: nat): (keys: seq<nat>)
    requires r < |w.leaves| && o < |w.leaves| && o + 1 < |w.bounds|
    requires |w.leaves[o]| > 0 && Sent(w, r, o) != []
  {
    var treelet := Sent(w, r, o);
    Rejected(Checked(treelet, w.leaves[o], w.L), |treelet| - 1, w.L)
  }

  ghost function PrunedBy(w: World, r: nat, o: nat): (keys: seq<nat>)
    requires r < |w.leaves| && o < |w.leaves| && o + 1 < |w.bounds| && |w.leaves[o]| > 0
  {
    var treelet := Sent(w, r, o);
    Pruned(Checked(treelet, w.leaves[o], w.L), |treelet|, w.L)
  }

  lemma PeersMeet(w: World, r: nat, o: nat)
    requires WorldIsReady(w) && r < |w.leaves| && o in w.peers[r]
    ensures o < |w.leaves| && PeerIsReady(w, r, o) && RankIsReady(w, r) && RankIsReady(w, o)
    ensures w.bounds[o] <= w.bounds[o + 1] <= Pow8(w.L)
    ensures Meets(w.leaves[r], w.bounds[o], w.bounds[o + 1])
  {
    var i: nat :| i < |w.peers[r]| && w.peers[r][i] == o;
    assert PeerIsReady(w, r, w.peers[r][i]);
    assert RankIsReady(w, o) && RankIsReady(w, r);
    var k: nat :| k < |w.leaves[o]| && w.leaves[o][k] == w.bounds[o + 1];
    assert w.leaves[o][k] <= w.leaves[o][|w.leaves[o]| - 1];
    RangeInBounds(w.leaves[r], w.bounds[o], w.bounds[o + 1], w.L);
    StartMeets(w.leaves[r], w.bounds[o], w.bounds[o + 1]);
  }

  lemma StartMeets(leaves: seq<nat>, lo: nat, hi: nat)
    requires Ascending(leaves) && LeafRange(leaves, lo, hi).0 < LeafRange(leaves, lo, hi).1 < |leaves|
    ensures Meets(leaves, lo, hi)
  {
    var (start, end) := LeafRange(leaves, lo, hi);
    assert leaves[..|leaves|] == leaves;
    assert InRange(leaves[start], lo, hi);
  }

  /** An octree with a key strictly inside a leaf of another octree has both ends of that leaf. */
  lemma CutLeafIsShared(a: seq<nat>, m: nat, other: seq<nat>, key: nat, L: nat)
    requires Cornerstone(a, L) && Cornerstone(other, L) && m + 1 < |a|
    requires key in other && a[m] < key < a[m + 1]
    ensures a[m] in other && a[m + 1] in other
  {
    assert CellAt(a, m);
    ArrayToSet(other, L);
    LeafUpdate.LevelInRange(a, m, L);
    CutCellIsNode(KeySet(other), L, a[m], Log8(a[m + 1] - a[m]), key);
    assert a[m] in KeySet(other) && a[m + 1] in KeySet(other);
  }

  lemma LastIsGreatest(t: seq<nat>, k: nat)
    requires Ascending(t) && t != []
    ensures k in t ==> k <= t[|t| - 1]
    ensures t[|t| - 1] in t
  {
  }

  lemma LastKeyInRange(t: seq<nat>, a: seq<nat>, other: seq<nat>, lo: nat, hi: nat, L: nat)
    requires Cornerstone(a, L) && Cornerstone(other, L) && lo <= hi <= Pow8(L) && hi in other
    requires t != [] && Ascending(t) && forall k: nat :: k in t <==> k in a && InRange(k, lo, hi)
    ensures t[|t| - 1] in other
  {
    var last := t[|t| - 1];
    LastIsGreatest(t, a[|a| - 1]);
    assert a[|a| - 1] in a;
    if last != hi {
      var m := FindCell(a, hi);
      NoKeyAfterLast(t, a, last, lo, hi, m);
      CutLeafIsShared(a, m, other, hi, L);
    }
  }

  /** Where the range of the owner ends inside a cell of the sender, the owner has the ends of that cell. */
  lemma LastKeyIsShared(w: World, r: nat, o: nat) returns (last: nat)
    requires WorldIsReady(w) && r < |w.leaves| && o in w.peers[r]
    ensures o < |w.leaves| && Sent(w, r, o) != [] && last == Sent(w, r, o)[|Sent(w, r, o)| - 1]
    ensures last in w.leaves[r] && last in w.leaves[o] && InRangeOf(w, o, last)
  {
    PeersMeet(w, r, o);
    TreeletIs(w.leaves[r], w.bounds[o], w.bounds[o + 1], w.L);
    var t := Sent(w, r, o);
    last := t[|t| - 1];
    assert last in t;
    LastKeyInRange(t, w.leaves[r], w.leaves[o], w.bounds[o], w.bounds[o + 1], w.L);
  }

  lemma NoKeyAfterLast(t: seq<nat>, a: seq<nat>, last: nat, lo: nat, hi: nat, m: nat)
    requires Ascending(a) && Ascending(t) && t != [] && last == t[|t| - 1] && last != hi
    requires forall k: nat :: k in t <==> k in a && InRange(k, lo, hi)
    requires m + 1 < |a| && a[m] <= hi < a[m + 1]
    ensures a[m] == last && last < hi
  {
    assert last in t;
    var i: nat :| i < |a| && a[i] == last;
    assert a[i] <= a[m];
    assert a[m] in a && InRange(a[m], lo, hi);
    assert a[m] in t;
    var j: nat :| j < |t| && t[j] == a[m];
    assert t[j] <= t[|t| - 1];
  }
}
