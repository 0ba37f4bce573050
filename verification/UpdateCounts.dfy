/** The distributed count update: two upsweeps with an exchange of counts between peers. */
module UpdateCounts {
  import opened Keys
  import opened CornerstoneArray
  import opened Counts
  import opened ComputeOctree
  import opened BuildOctree
  import opened LinkedOctree
  import opened OctreeLinks
  import opened OctreeView
  import opened FocusUpdate
  import opened Upsweep
  import opened Ranges
  import opened Treelets
  import opened TreeletAgreement
  import opened ExactCounts
  import FocusedOctree
  // ------------------------------------------------------------- where the leaves of a rank get their counts

  /** Leaf k lies in the key range. */
  predicate LeafWithin(leaves: seq<nat>, k: nat, lo: nat, hi: nat) {
    k + 1 < |leaves| && lo <= leaves[k] && leaves[k + 1] <= hi
  }

  /** The index range of a key range consists of the leaves that lie in it. */
  lemma LeafInRange(leaves: seq<nat>, lo: nat, hi: nat, k: nat, L: nat)
    requires Cornerstone(leaves, L) && lo <= hi <= Pow8(L) && k + 1 < |leaves|
    ensures IsIn(k, RangeOf(leaves, lo, hi)) <==> LeafWithin(leaves, k, lo, hi)
    ensures RangeOf(leaves, lo, hi).end < |leaves|
  {
    RangeInBounds(leaves, lo, hi, L);
    KeyInRangeMeets(leaves, k, lo, hi);
    if Meets(leaves, lo, hi) {
      RangeCovers(leaves, lo, hi);
      assert leaves[k] < leaves[k + 1];
    } else {
      EmptyRange(leaves, lo, hi);
    }
  }

  lemma KeyInRangeMeets(leaves: seq<nat>, i: nat, lo: nat, hi: nat)
    ensures i < |leaves| && InRange(leaves[i], lo, hi) ==> Meets(leaves, lo, hi)
  {
  }

  lemma EmptyRange(leaves: seq<nat>, lo: nat, hi: nat)
    requires Ascending(leaves) && !Meets(leaves, lo, hi)
    ensures RangeOf(leaves, lo, hi).start == RangeOf(leaves, lo, hi).end
  {
    var (start, end) := LeafRange(leaves, lo, hi);
    assert leaves[..|leaves|] == leaves;
    KeyInRangeMeets(leaves, end, lo, hi);
  }

  /** The boundaries of the ranks' key ranges ascend to the end of the curve. */
  ghost predicate AreBounds(bounds: seq<nat>, L: nat) {
    && bounds != []
    && (forall i: nat, j: nat :: i <= j < |bounds| ==> bounds[i] <= bounds[j])
    && bounds[|bounds| - 1] == Pow8(L)
  }

  /** Leaf k lies in the key range of rank o. */
  predicate IsLeafOf(leaves: seq<nat>, bounds: seq<nat>, o: nat, k: nat) {
    o + 1 < |bounds| && LeafWithin(leaves, k, bounds[o], bounds[o + 1])
  }

  function LeavesOf(leaves: seq<nat>, bounds: seq<nat>, o: nat): (range: Range)
    ensures range.start <= range.end
  {
    if o + 1 < |bounds| then RangeOf(leaves, bounds[o], bounds[o + 1]) else Range(0, 0)
  }

  lemma LeavesOfAre(leaves: seq<nat>, bounds: seq<nat>, o: nat, k: nat, L: nat)
    requires Cornerstone(leaves, L) && AreBounds(bounds, L) && k + 1 < |leaves|
    ensures IsIn(k, LeavesOf(leaves, bounds, o)) <==> IsLeafOf(leaves, bounds, o, k)
    ensures LeavesOf(leaves, bounds, o).end <= |leaves| - 1
  {
    if o + 1 < |bounds| {
      assert bounds[o] <= bounds[o + 1] <= bounds[|bounds| - 1];
      LeafInRange(leaves, bounds[o], bounds[o + 1], k, L);
    }
  }

  /** Leaf k is in the rank's own range or in that of a peer. */
  ghost predicate IsExchanged(leaves: seq<nat>, bounds: seq<nat>, ranks: seq<nat>, k: nat) {
    exists i: nat :: i < |ranks| && IsLeafOf(leaves, bounds, ranks[i], k)
  }

  ghost predicate AreDistinct(ranks: seq<nat>) {
    forall i: nat, j: nat :: i < j < |ranks| ==> ranks[i] != ranks[j]
  }

  /** The ranks from which rank r gets counts of whole leaves: its peers, and itself. */
  function Sources(w: World, r: nat): (ranks: seq<nat>)
    requires r < |w.peers|
  {
    w.peers[r] + [r]
  }

  /** Everything that the ranks have agreed on before they count. */
  ghost predicate IsCountable(w: World, globalTree: seq<nat>, globalCounts: seq<nat>, keys: seq<seq<nat>>) {
    && AreAssigned(keys, w.bounds) && |w.leaves| == |w.peers| == |keys|
    && w.bounds[0] == 0 && AreBounds(w.bounds, w.L)
    && Cornerstone(globalTree, w.L) && AreCounts(globalTree, globalCounts, AllKeys(keys), UNSIGNED_MAX)
    && (forall q: nat :: q < |w.bounds| ==> w.bounds[q] in globalTree)
    && forall q: nat :: q < |keys| ==> IsCountableRank(w, globalTree, keys, q)
  }

  ghost predicate IsCountableRank(w: World, globalTree: seq<nat>, keys: seq<seq<nat>>, r: nat)
    requires r < |w.leaves| == |w.peers| == |keys| && |w.bounds| == |w.leaves| + 1
  {
    && RankIsReady(w, r) && Counts.Sorted(keys[r]) && |keys[r]| < UNSIGNED_LIMIT
    && AreDistinct(Sources(w, r))
    && (forall i: nat :: i < |w.peers[r]| ==> w.peers[r][i] < |w.leaves|)
    && forall o: nat :: o < |w.leaves| && o !in Sources(w, r) ==> IsCoveredBy(w, globalTree, r, o)
  }

  /** In the range of a rank that is not a peer, all keys are keys of the global tree. */
  ghost predicate IsCoveredBy(w: World, globalTree: seq<nat>, r: nat, o: nat)
    requires r < |w.leaves| && o + 1 < |w.bounds|
  {
    forall k: nat :: k in w.leaves[r] && InRangeOf(w, o, k) ==> k in globalTree
  }

  /** The rank in whose key range a key lies. */
  lemma {:induction false} FindRank(bounds: seq<nat>, k: nat, n: nat) returns (o: nat)
    requires 0 < n < |bounds| && bounds[0] <= k < bounds[n]
    ensures o < n && bounds[o] <= k < bounds[o + 1]
  {
    if bounds[n - 1] <= k { o := n - 1; } else { o := FindRank(bounds, k, n - 1); }
  }

  lemma LeafOfSource(leaves: seq<nat>, bounds: seq<nat>, ranks: seq<nat>, o: nat, k: nat)
    ensures o in ranks && IsLeafOf(leaves, bounds, o, k) ==> IsExchanged(leaves, bounds, ranks, k)
  {
  }

  /** A leaf that is neither in the rank's own range nor in that of a peer is delimited by global keys. */
  lemma OtherLeavesAreGlobal(w: World, globalTree: seq<nat>, globalCounts: seq<nat>, keys: seq<seq<nat>>, r: nat,
                             k: nat)
    requires IsCountable(w, globalTree, globalCounts, keys) && r < |keys| && k + 1 < |w.leaves[r]|
    requires !IsExchanged(w.leaves[r], w.bounds, Sources(w, r), k)
    ensures IsGlobalLeaf(globalTree, w.leaves[r], k)
  {
    var a := w.leaves[r];
    assert IsCountableRank(w, globalTree, keys, r);
    assert a[k] < a[|a| - 1];
    var o := FindRank(w.bounds, a[k], |keys|);
    assert a[k] in a && a[k + 1] in a;
    if a[k + 1] <= w.bounds[o + 1] {
      LeafOfSource(a, w.bounds, Sources(w, r), o, k);
      assert IsCoveredBy(w, globalTree, r, o);
    } else {
      CutLeafIsShared(a, k, globalTree, w.bounds[o + 1], w.L);
    }
  }

  /** The leaf ranges of different ranks are apart. */
  lemma LeavesAreApart(leaves: seq<nat>, bounds: seq<nat>, o: nat, p: nat, L: nat)
    requires Cornerstone(leaves, L) && AreBounds(bounds, L) && o != p
    ensures AreApart(LeavesOf(leaves, bounds, o), LeavesOf(leaves, bounds, p))
  {
    var R, S := LeavesOf(leaves, bounds, o), LeavesOf(leaves, bounds, p);
    var k := if R.start < S.start then S.start else R.start;
    LeavesOfAre(leaves, bounds, o, 0, L);
    LeavesOfAre(leaves, bounds, p, 0, L);
    if k + 1 < |leaves| {
      LeavesOfAre(leaves, bounds, o, k, L);
      LeavesOfAre(leaves, bounds, p, k, L);
      NotInBoth(leaves, bounds, o, p, k);
    }
  }

  lemma NotInBoth(leaves: seq<nat>, bounds: seq<nat>, o: nat, p: nat, k: nat)
    requires Ascending(leaves) && o != p
    requires forall i: nat, j: nat :: i <= j < |bounds| ==> bounds[i] <= bounds[j]
    ensures !(IsLeafOf(leaves, bounds, o, k) && IsLeafOf(leaves, bounds, p, k))
  {
    if o + 1 < |bounds| && p + 1 < |bounds| {
      assert if o < p then bounds[o + 1] <= bounds[p] else bounds[p + 1] <= bounds[o];
    }
  }

  /** The leaf ranges of the first n listed ranks. */
  function RankRanges(leaves: seq<nat>, bounds: seq<nat>, ranks: seq<nat>, n: nat): (ranges: seq<Range>)
    requires n <= |ranks|
    ensures |ranges| == n
    ensures forall i: nat :: i < n ==> ranges[i] == LeavesOf(leaves, bounds, ranks[i])
  {
    if n == 0 then []
    else RankRanges(leaves, bounds, ranks, n - 1) + [LeavesOf(leaves, bounds, ranks[n - 1])]
  }

  /** `extractPeerRanges`: the leaf ranges of the peers and of the rank itself, sorted. */
  function ExtractPeerRanges(leaves: seq<nat>, bounds: seq<nat>, peers: seq<nat>, myRank: nat): (ranges: seq<Range>) {
    var ranks := peers + [myRank];
    SortRanges(RankRanges(leaves, bounds, ranks, |ranks|))
  }

  /** The ranges of distinct ranks can be sorted and inverted, and cover the leaves that lie in them. */
  lemma PeerRangesCover(leaves: seq<nat>, bounds: seq<nat>, ranks: seq<nat>, L: nat)
    requires Cornerstone(leaves, L) && AreBounds(bounds, L) && AreDistinct(ranks)
    ensures var ranges := SortRanges(RankRanges(leaves, bounds, ranks, |ranks|)); var n := |leaves| - 1;
            && AreSorted(0, ranges, |ranges|, n)
            && forall k: nat :: k < n ==> (Covers(ranges, |ranges|, k) <==> IsExchanged(leaves, bounds, ranks, k))
  {
    var all, n := RankRanges(leaves, bounds, ranks, |ranks|), |leaves| - 1;
    forall j: nat, k: nat | j < k < |all| ensures AreApart(all[j], all[k]) {
      LeavesAreApart(leaves, bounds, ranks[j], ranks[k], L);
    }
    forall k: nat | k < |all| ensures all[k].start <= all[k].end <= n {
      LeavesOfAre(leaves, bounds, ranks[k], 0, L);
    }
    SortingRanges(all, n);
    forall k: nat | k < n
      ensures (exists i: nat :: i < |all| && IsIn(k, all[i])) <==> IsExchanged(leaves, bounds, ranks, k)
    {
      ExchangedIsCovered(leaves, bounds, ranks, k, L, all);
    }
  }

  lemma ExchangedIsCovered(leaves: seq<nat>, bounds: seq<nat>, ranks: seq<nat>, k: nat, L: nat, all: seq<Range>)
    requires Cornerstone(leaves, L) && AreBounds(bounds, L) && k + 1 < |leaves| && |all| == |ranks|
    requires forall i: nat :: i < |all| ==> all[i] == LeavesOf(leaves, bounds, ranks[i])
    ensures (exists i: nat :: i < |all| && IsIn(k, all[i])) <==> IsExchanged(leaves, bounds, ranks, k)
  {
    forall i: nat | i < |all| ensures IsIn(k, all[i]) <==> IsLeafOf(leaves, bounds, ranks[i], k) {
      LeavesOfAre(leaves, bounds, ranks[i], k, L);
    }
    if i: nat :| i < |all| && IsIn(k, all[i]) { assert IsLeafOf(leaves, bounds, ranks[i], k); }
    if IsExchanged(leaves, bounds, ranks, k) {
      var i: nat :| i < |ranks| && IsLeafOf(leaves, bounds, ranks[i], k);
      assert IsIn(k, all[i]);
    }
  }

  // ------------------------------------------------------------- the first sweep

  /** Leaf counts from local particles, and from the global tree where no rank supplies the count. */
  method CountLeaves(leaves: seq<nat>, bounds: seq<nat>, peers: seq<nat>, myRank: nat, localKeys: seq<nat>,
                     globalTree: seq<nat>, globalCounts: seq<nat>, guesses: seq<nat>, L: nat, ghost all: seq<nat>)
    returns (counts: array<nat>)
    requires Cornerstone(leaves, L) && AreBounds(bounds, L) && AreDistinct(peers + [myRank])
    requires Counts.Sorted(localKeys) && |localKeys| < UNSIGNED_LIMIT
    requires Ascending(globalTree) && AreCounts(globalTree, globalCounts, all, UNSIGNED_MAX)
    requires forall k: nat :: k + 1 < |leaves| && !IsExchanged(leaves, bounds, peers + [myRank], k) ==>
               IsGlobalLeaf(globalTree, leaves, k)
    ensures fresh(counts) && counts.Length == |leaves| - 1
    ensures forall k: nat :: k < counts.Length ==>
              counts[k] == if IsExchanged(leaves, bounds, peers + [myRank], k) then LeafTotal(leaves, localKeys, k)
                           else LeafTotal(leaves, all, k)
  {
    var n := |leaves| - 1;
    counts := new nat[n](k => if 0 <= k < |guesses| then guesses[k] else 0);
    ComputeNodeCounts(leaves, counts, localKeys, UNSIGNED_MAX, true, L, Identity(n));
    ghost var localCounts := counts[..];
    PeerRangesCover(leaves, bounds, peers + [myRank], L);
    var ranges := ExtractPeerRanges(leaves, bounds, peers, myRank);
    var inverted := InvertRanges(0, ranges, n);
    var idxFromGlob := EnumerateRanges(inverted);
    forall k: nat ensures k in idxFromGlob <==> k < n && !IsExchanged(leaves, bounds, peers + [myRank], k) {
      EnumeratedAre(inverted, |inverted|, k);
    }
    forall i: nat | i < |idxFromGlob| ensures IsGlobalLeaf(globalTree, leaves, idxFromGlob[i]) {
      assert idxFromGlob[i] in idxFromGlob;
    }
    RangeCount(globalTree, globalCounts, leaves, idxFromGlob, counts, all);
    forall k: nat | k < n ensures localCounts[k] == LeafTotal(leaves, localKeys, k) {
    }
  }

  /** A rank's own particles are all particles of its key range. */
  ghost predicate IsLocal(all: seq<nat>, localKeys: seq<nat>, lo: nat, hi: nat) {
    forall a: nat, b: nat {:trigger CountIn(all, a, b)} :: lo <= a <= b <= hi ==>
      CountIn(all, a, b) == CountIn(localKeys, a, b)
  }

  /** The counts of the nodes are exact for the leaves that satisfy the condition. */
  ghost predicate LeavesExact(leaves: seq<nat>, nodes: seq<nat>, counts: seq<nat>, all: seq<nat>, which: nat -> bool) {
    && (forall k: nat :: k < |nodes| ==> nodes[k] < |counts|)
    && forall k: nat :: k < |nodes| && which(k) ==> counts[nodes[k]] == LeafTotal(leaves, all, k)
  }

  /** Every internal node has the combined count of its children. */
  ghost predicate IsConsistent(t: View, counts: seq<nat>) {
    |counts| == |t.prefixes| && IsSwept(t.childOffsets, counts, counts)
  }

  /** Exact leaves in a key range make all counts in that range exact. */
  lemma SweepIsExact(t: View, leaves: seq<nat>, nodes: seq<nat>, counts: seq<nat>, all: seq<nat>, lo: nat, hi: nat,
                     i: nat)
    requires IsView(t, leaves) && LeavesAre(t, leaves, nodes) && IsConsistent(t, counts)
    requires i < |counts| && IsWithin(t, i, lo, hi)
    requires LeavesExact(leaves, nodes, counts, all, (k: nat) => LeafWithin(leaves, k, lo, hi))
    ensures CountsParticles(t, counts, all, i)
  {
    forall j: nat | j < |counts| && t.childOffsets[j] == 0 && IsWithin(t, j, lo, hi)
      ensures CountsParticles(t, counts, all, j)
    {
      var k := LeafNumber(t, leaves, nodes, j);
      assert LeafIs(t, leaves, nodes, k);
      assert LeafWithin(leaves, k, lo, hi);
    }
    SweptCountsParticles(t, leaves, counts, counts, all, lo, hi, i);
  }

  /** A sweep keeps the counts of the leaves and makes the others consistent. */
  method Sweep(t: View, nodes: seq<nat>, levelRange: seq<nat>, counts: array<nat>, ghost leaves: seq<nat>)
    requires IsView(t, leaves) && LeavesAre(t, leaves, nodes) && LevelsDelimited(t.prefixes, levelRange, t.L)
    requires counts.Length == |t.prefixes|
    modifies counts
    ensures IsConsistent(t, counts[..])
    ensures forall k: nat :: k < |nodes| ==> nodes[k] < counts.Length && counts[nodes[k]] == old(counts[nodes[k]])
  {
    FocusedOctree.LeafNodesDistinct(t, leaves, nodes);
    ghost var before := counts[..];
    UpsweepCounts(t, levelRange, counts, leaves);
    ghost var after := counts[..];
    forall i: nat | i < |after| ensures IsSweptAt(t.childOffsets, after, after, i) {
      assert IsSweptAt(t.childOffsets, before, after, i);
    }
    forall k: nat | k < |nodes| ensures counts[nodes[k]] == before[nodes[k]] {
      assert LeafIs(t, leaves, nodes, k);
      assert IsSweptAt(t.childOffsets, before, after, nodes[k]);
    }
  }

  /** First sweep: the counts of all nodes in the rank's own range are exact, and so are those of the
      leaves that no peer supplies. */
  method FirstSweep(t: View, leaves: seq<nat>, nodes: seq<nat>, levelRange: seq<nat>, bounds: seq<nat>, peers: seq<nat>,
                    myRank: nat, localKeys: seq<nat>, globalTree: seq<nat>, globalCounts: seq<nat>, guesses: seq<nat>,
                    ghost all: seq<nat>)
    returns (counts: array<nat>)
    requires IsView(t, leaves) && LeavesAre(t, leaves, nodes) && LevelsDelimited(t.prefixes, levelRange, t.L)
    requires AreBounds(bounds, t.L) && AreDistinct(peers + [myRank]) && myRank + 1 < |bounds|
    requires Counts.Sorted(localKeys) && |localKeys| < UNSIGNED_LIMIT
    requires IsLocal(all, localKeys, bounds[myRank], bounds[myRank + 1])
    requires Ascending(globalTree) && AreCounts(globalTree, globalCounts, all, UNSIGNED_MAX)
    requires forall k: nat :: k + 1 < |leaves| && !IsExchanged(leaves, bounds, peers + [myRank], k) ==>
               IsGlobalLeaf(globalTree, leaves, k)
    ensures fresh(counts) && counts.Length == |t.prefixes|
    ensures forall i: nat :: i < counts.Length && IsWithin(t, i, bounds[myRank], bounds[myRank + 1]) ==>
              CountsParticles(t, counts[..], all, i)
    ensures LeavesExact(leaves, nodes, counts[..], all,
                        (k: nat) => IsLeafOf(leaves, bounds, myRank, k) ||
                                    !IsExchanged(leaves, bounds, peers + [myRank], k))
  {
    var leafCounts := CountLeaves(leaves, bounds, peers, myRank, localKeys, globalTree, globalCounts, guesses, t.L,
                                  all);
    counts := new nat[|t.prefixes|](_ => 0);
    FocusedOctree.LeafNodesDistinct(t, leaves, nodes);
    ScatterCounts(nodes, leafCounts[..], counts);
    Sweep(t, nodes, levelRange, counts, leaves);
    ghost var after := counts[..];
    ghost var which := (k: nat) => IsLeafOf(leaves, bounds, myRank, k) ||
                                   !IsExchanged(leaves, bounds, peers + [myRank], k);
    forall k: nat | k < |nodes| && which(k) ensures after[nodes[k]] == LeafTotal(leaves, all, k) {
      assert leaves[k] < leaves[k + 1];
    }
    forall i: nat | i < |after| && IsWithin(t, i, bounds[myRank], bounds[myRank + 1])
      ensures CountsParticles(t, after, all, i)
    {
      SweepIsExact(t, leaves, nodes, after, all, bounds[myRank], bounds[myRank + 1], i);
    }
  }

  // ------------------------------------------------------------- the exchange

  /** What the owner of a treelet sends: the counts of the nodes that the treelet cells are. */
  method PackCounts(indices: seq<nat>, counts: seq<nat>) returns (values: seq<nat>)
    requires forall i: nat :: i < |indices| ==> indices[i] < |counts|
    ensures |values| == |indices| && forall i: nat :: i < |values| ==> values[i] == counts[indices[i]]
  {
    values := seq(|indices|, i requires 0 <= i < |indices| && indices[i] < |counts| => counts[indices[i]]);
  }

  /** The values are the exact counts of the receiver's leaves in the range of the sender. */
  ghost predicate IsCountMessage(leaves: seq<nat>, bounds: seq<nat>, o: nat, values: seq<nat>, all: seq<nat>) {
    var range := LeavesOf(leaves, bounds, o);
    && |values| == range.end - range.start
    && forall i: nat :: i < |values| ==> values[i] == LeafTotal(leaves, all, range.start + i)
  }

  /** Store the counts of one message at the nodes of the leaves in the sender's range. */
  method ScatterMessage(nodes: seq<nat>, start: nat, values: seq<nat>, counts: array<nat>)
    requires start + |values| <= |nodes| && forall k: nat :: k < |nodes| ==> nodes[k] < counts.Length
    requires forall j: nat, k: nat :: j < k < |nodes| ==> nodes[j] != nodes[k]
    modifies counts
    ensures forall k: nat :: k < |nodes| ==>
              counts[nodes[k]] == if start <= k < start + |values| then values[k - start] else old(counts[nodes[k]])
  {
    for i := 0 to |values|
      invariant forall k: nat :: k < |nodes| ==>
                  counts[nodes[k]] == if start <= k < start + i then values[k - start] else old(counts[nodes[k]])
    {
      counts[nodes[start + i]] := values[i];
    }
  }

  datatype Message = Message(sender: nat, values: seq<nat>)

  /** One message from every peer has arrived, in some order. */
  ghost predicate AreDelivered(leaves: seq<nat>, bounds: seq<nat>, peers: seq<nat>, order: seq<nat>,
                               messages: seq<Message>, all: seq<nat>) {
    && |messages| == |order| && IsOrderOf(order, |peers|)
    && forall m: nat :: m < |messages| ==>
         messages[m].sender == peers[order[m]] &&
         IsCountMessage(leaves, bounds, messages[m].sender, messages[m].values, all)
  }

  /** Some of the first m messages comes from the rank in whose range leaf k lies. */
  ghost predicate IsSupplied(leaves: seq<nat>, bounds: seq<nat>, messages: seq<Message>, m: nat, k: nat)
    requires m <= |messages|
  {
    exists j: nat :: j < m && IsLeafOf(leaves, bounds, messages[j].sender, k)
  }

  /** Receive the counts of all peers. */
  method ReceiveCounts(leaves: seq<nat>, nodes: seq<nat>, bounds: seq<nat>, messages: seq<Message>, counts: array<nat>,
                       L: nat, ghost all: seq<nat>)
    requires Cornerstone(leaves, L) && AreBounds(bounds, L) && |nodes| + 1 == |leaves|
    requires forall k: nat :: k < |nodes| ==> nodes[k] < counts.Length
    requires forall j: nat, k: nat :: j < k < |nodes| ==> nodes[j] != nodes[k]
    requires forall m: nat :: m < |messages| ==>
               IsCountMessage(leaves, bounds, messages[m].sender, messages[m].values, all)
    modifies counts
    ensures forall k: nat :: k < |nodes| ==>
              counts[nodes[k]] == if IsSupplied(leaves, bounds, messages, |messages|, k) then LeafTotal(leaves, all, k)
                                  else old(counts[nodes[k]])
  {
    var m: nat := 0;
    while m < |messages|
      invariant m <= |messages|
      invariant forall k: nat :: k < |nodes| ==>
                  counts[nodes[k]] == if IsSupplied(leaves, bounds, messages, m, k) then LeafTotal(leaves, all, k)
                                      else old(counts[nodes[k]])
    {
      var o := messages[m].sender;
      assert IsCountMessage(leaves, bounds, messages[m].sender, messages[m].values, all);
      LeavesOfAre(leaves, bounds, o, 0, L);
      ghost var before := counts[..];
      ScatterMessage(nodes, LeavesOf(leaves, bounds, o).start, messages[m].values, counts);
      forall k: nat | k < |nodes|
        ensures counts[nodes[k]] == if IsSupplied(leaves, bounds, messages, m + 1, k) then LeafTotal(leaves, all, k)
                                    else old(counts[nodes[k]])
      {
        LeavesOfAre(leaves, bounds, o, k, L);
        SuppliedByNext(leaves, bounds, messages, m, k);
        assert before[nodes[k]] == if IsSupplied(leaves, bounds, messages, m, k) then LeafTotal(leaves, all, k)
                                   else old(counts[nodes[k]]);
      }
      m := m + 1;
    }
  }

  lemma SuppliedByNext(leaves: seq<nat>, bounds: seq<nat>, messages: seq<Message>, m: nat, k: nat)
    requires m < |messages|
    ensures IsSupplied(leaves, bounds, messages, m + 1, k) <==>
            IsSupplied(leaves, bounds, messages, m, k) || IsLeafOf(leaves, bounds, messages[m].sender, k)
  {
    if IsLeafOf(leaves, bounds, messages[m].sender, k) { assert IsSupplied(leaves, bounds, messages, m + 1, k); }
  }

  /** In whatever order the messages come, every leaf that lies in the range of a peer is supplied. */
  lemma PeersSupply(leaves: seq<nat>, bounds: seq<nat>, peers: seq<nat>, myRank: nat, order: seq<nat>,
                    messages: seq<Message>, all: seq<nat>, k: nat)
    requires AreDelivered(leaves, bounds, peers, order, messages, all)
    requires IsExchanged(leaves, bounds, peers + [myRank], k) && !IsLeafOf(leaves, bounds, myRank, k)
    ensures IsSupplied(leaves, bounds, messages, |messages|, k)
  {
    var ranks := peers + [myRank];
    var i: nat :| i < |ranks| && IsLeafOf(leaves, bounds, ranks[i], k);
    assert i < |peers|;
    assert i in order;
    var m: nat :| m < |order| && order[m] == i;
    assert IsLeafOf(leaves, bounds, messages[m].sender, k);
  }

  /** Second sweep, with the counts of the peers present: all counts of all nodes are exact. */
  method SecondSweep(t: View, leaves: seq<nat>, nodes: seq<nat>, levelRange: seq<nat>, bounds: seq<nat>,
                     peers: seq<nat>, myRank: nat, messages: seq<Message>, counts: array<nat>, ghost order: seq<nat>,
                     ghost all: seq<nat>)
    returns (leafCounts: seq<nat>)
    requires IsView(t, leaves) && LeavesAre(t, leaves, nodes) && LevelsDelimited(t.prefixes, levelRange, t.L)
    requires AreBounds(bounds, t.L) && counts.Length == |t.prefixes|
    requires AreDelivered(leaves, bounds, peers, order, messages, all)
    requires LeavesExact(leaves, nodes, counts[..], all,
                         (k: nat) => IsLeafOf(leaves, bounds, myRank, k) ||
                                     !IsExchanged(leaves, bounds, peers + [myRank], k))
    modifies counts
    ensures forall i: nat :: i < counts.Length ==> CountsParticles(t, counts[..], all, i)
    ensures AreCounts(leaves, leafCounts, all, UNSIGNED_MAX)
  {
    ghost var first := counts[..];
    FocusedOctree.LeafNodesDistinct(t, leaves, nodes);
    ReceiveCounts(leaves, nodes, bounds, messages, counts, t.L, all);
    forall k: nat | k < |nodes| ensures counts[nodes[k]] == LeafTotal(leaves, all, k) {
      if !IsSupplied(leaves, bounds, messages, |messages|, k) {
        if IsExchanged(leaves, bounds, peers + [myRank], k) && !IsLeafOf(leaves, bounds, myRank, k) {
          PeersSupply(leaves, bounds, peers, myRank, order, messages, all, k);
        }
        assert first[nodes[k]] == LeafTotal(leaves, all, k);
      }
    }
    Sweep(t, nodes, levelRange, counts, leaves);
    ghost var after := counts[..];
    forall i: nat | i < |after| ensures CountsParticles(t, after, all, i) {
      FocusedOctree.WholeCurve(t, leaves, i);
      SweepIsExact(t, leaves, nodes, after, all, 0, Pow8(t.L), i);
    }
    leafCounts := seq(|nodes|, k requires 0 <= k < |nodes| &&
                      nodes[k] < counts.Length reads counts => counts[nodes[k]]);
    forall k: nat | k < |leafCounts|
      ensures leafCounts[k] == Min(CountIn(all, leaves[k], leaves[k + 1]), UNSIGNED_MAX) {
      assert leafCounts[k] == LeafTotal(leaves, all, k);
    }
  }

  // ------------------------------------------------------------- the protocol

  /** What the owner sends after its first sweep is what the requester needs. */
  lemma MessageIsExact(w: World, w': World, r: nat, o: nat, owner: View, ownerCounts: seq<nat>, indices: seq<nat>,
                       values: seq<nat>, all: seq<nat>)
    requires WorldIsReady(w) && IsSynced(w, w') && r < |w.leaves| && o in w.peers[r] && o + 1 < |w.bounds|
    requires o < |w'.leaves| && IsView(owner, w'.leaves[o]) && owner.L == w.L && |ownerCounts| == |owner.prefixes|
    requires forall i: nat :: i < |ownerCounts| && IsWithin(owner, i, w.bounds[o], w.bounds[o + 1]) ==>
               CountsParticles(owner, ownerCounts, all, i)
    requires |indices| + 1 == |Sent(w', r, o)|
    requires forall i: nat :: i < |indices| ==> IsNodeIndex(owner.prefixes, Sent(w', r, o), i, indices[i], w.L)
    requires |values| == |indices|
    requires forall i: nat :: i < |values| ==> indices[i] < |ownerCounts| && values[i] == ownerCounts[indices[i]]
    ensures r < |w'.leaves| && IsCountMessage(w'.leaves[r], w.bounds, o, values, all)
  {
    var range := LeavesOf(w'.leaves[r], w.bounds, o);
    SentSize(w, w', r, o);
    forall i: nat | i < |values| ensures values[i] == LeafTotal(w'.leaves[r], all, range.start + i) {
      assert IsNodeIndex(owner.prefixes, Sent(w', r, o), i, indices[i], w.L);
      OwnerCountIsExact(w, w', r, o, owner, ownerCounts, i, indices[i], all);
    }
  }

  lemma SentSize(w: World, w': World, r: nat, o: nat)
    requires WorldIsReady(w) && IsSynced(w, w') && r < |w.leaves| && o in w.peers[r] && o + 1 < |w.bounds|
    ensures var range := LeavesOf(w'.leaves[r], w.bounds, o); |Sent(w', r, o)| == range.end - range.start + 1
  {
    SentAfterSync(w, w', r, o);
  }

  lemma OwnerCountIsExact(w: World, w': World, r: nat, o: nat, owner: View, ownerCounts: seq<nat>, i: nat, index: nat,
                          all: seq<nat>)
    requires WorldIsReady(w) && IsSynced(w, w') && r < |w.leaves| && o in w.peers[r] && o + 1 < |w.bounds|
    requires o < |w'.leaves| && IsView(owner, w'.leaves[o]) && owner.L == w.L && |ownerCounts| == |owner.prefixes|
    requires forall j: nat :: j < |ownerCounts| && IsWithin(owner, j, w.bounds[o], w.bounds[o + 1]) ==>
               CountsParticles(owner, ownerCounts, all, j)
    requires i + 1 < |Sent(w', r, o)| && IsNodeIndex(owner.prefixes, Sent(w', r, o), i, index, w.L)
    ensures ownerCounts[index] == LeafTotal(w'.leaves[r], all, LeavesOf(w'.leaves[r], w.bounds, o).start + i)
  {
    var m := OwnerNode(w, w', r, o, owner, i, index);
    assert CountsParticles(owner, ownerCounts, all, index);
  }

  /** The node that the owner has looked up for a treelet cell is the requester's leaf, in the owner's range. */
  lemma OwnerNode(w: World, w': World, r: nat, o: nat, owner: View, i: nat, index: nat) returns (m: nat)
    requires WorldIsReady(w) && IsSynced(w, w') && r < |w.leaves| && o in w.peers[r] && o + 1 < |w.bounds|
    requires o < |w'.leaves| && IsView(owner, w'.leaves[o]) && owner.L == w.L
    requires i + 1 < |Sent(w', r, o)| && IsNodeIndex(owner.prefixes, Sent(w', r, o), i, index, w.L)
    ensures m == LeavesOf(w'.leaves[r], w.bounds, o).start + i && m + 1 < |w'.leaves[r]|
    ensures StartOf(owner, index) == w'.leaves[r][m] && EndOf(owner, index) == w'.leaves[r][m + 1]
    ensures IsWithin(owner, index, w.bounds[o], w.bounds[o + 1])
  {
    var t := Sent(w', r, o);
    SentAfterSync(w, w', r, o);
    TreeletCellsAreNodes(w, w', r, o, i);
    IndexedCell(owner, w'.leaves[o], t[i], t[i + 1], index);
    assert t[i] in t && t[i + 1] in t;
    m := NeighboursInTreelet(w'.leaves[r], w.bounds[o], w.bounds[o + 1], i);
  }

  /** The node with the code of a cell is that cell. */
  lemma IndexedCell(t: View, leaves: seq<nat>, lo: nat, hi: nat, i: nat)
    requires IsView(t, leaves) && i < |t.prefixes| && lo < hi && hi - lo == Pow8(Log8(hi - lo))
    requires NodeIn(leaves, lo, Log8(hi - lo), t.L) && t.prefixes[i] == Code(lo, Log8(hi - lo), t.L)
    ensures StartOf(t, i) == lo && EndOf(t, i) == hi
  {
    DecodeEncode(lo, Log8(hi - lo), t.L);
  }

  /** What the ranks have agreed on is what the first sweep needs. */
  lemma CountableRankCanSweep(w: World, globalTree: seq<nat>, globalCounts: seq<nat>, keys: seq<seq<nat>>, r: nat)
    requires IsCountable(w, globalTree, globalCounts, keys) && r < |keys|
    ensures IsLocal(AllKeys(keys), keys[r], w.bounds[r], w.bounds[r + 1])
    ensures AreDistinct(w.peers[r] + [r]) && Counts.Sorted(keys[r]) && |keys[r]| < UNSIGNED_LIMIT
    ensures forall k: nat :: k + 1 < |w.leaves[r]| && !IsExchanged(w.leaves[r], w.bounds, w.peers[r] + [r], k) ==>
              IsGlobalLeaf(globalTree, w.leaves[r], k)
  {
    assert IsCountableRank(w, globalTree, keys, r);
    forall a: nat, b: nat {:trigger CountIn(AllKeys(keys), a, b)} | w.bounds[r] <= a <= b <= w.bounds[r + 1]
      ensures CountIn(AllKeys(keys), a, b) == CountIn(keys[r], a, b)
    {
      LocalCountIsTotal(keys, w.bounds, r, a, b);
    }
    forall k: nat | k + 1 < |w.leaves[r]| && !IsExchanged(w.leaves[r], w.bounds, Sources(w, r), k)
      ensures IsGlobalLeaf(globalTree, w.leaves[r], k)
    {
      OtherLeavesAreGlobal(w, globalTree, globalCounts, keys, r, k);
    }
  }

  /** A rank that was not flagged as a peer before the key agreement is covered by the global tree after it. */
  lemma UnflaggedIsCovered(w: World, w': World, r: nat, o: nat, globalTree: seq<nat>, globalRange: Range)
    requires WorldIsReady(w) && IsSynced(w, w') && r < |w.leaves| && o < |w.leaves|
    requires Cornerstone(globalTree, w.L) && w.bounds[o + 1] in globalTree
    requires !IsFocusPeer(Slice(globalTree, globalRange),
                          Slice(w.leaves[r], RangeOf(w.leaves[r], w.bounds[o], w.bounds[o + 1])))
    ensures IsCoveredBy(w', globalTree, r, o)
  {
    assert RankIsReady(w, r);
    var i: nat :| i < |globalTree| && globalTree[i] == w.bounds[o + 1];
    assert globalTree[i] <= globalTree[|globalTree| - 1] && w.bounds[o] <= w.bounds[o + 1];
    forall k: nat | k in w'.leaves[r] && InRangeOf(w, o, k) ensures k in globalTree {
      SurvivesIff(w, w', r, k);
      NonPeerKeysAreGlobal(w.leaves[r], globalTree, globalRange, w.bounds[o], w.bounds[o + 1], k, w.L);
    }
  }
}
