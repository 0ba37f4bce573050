/** `updateCounts` on all ranks: from the peers that were flagged and the cells that were agreed on, to exact
    counts of all leaves and nodes of every rank. */
module CountAgreement {
  import opened CornerstoneArray
  import opened Counts
  import opened BuildOctree
  import opened OctreeView
  import opened FocusUpdate
  import opened Upsweep
  import opened Ranges
  import opened Treelets
  import opened TreeletAgreement
  import opened ExactCounts
  import opened UpdateCounts

  // ------------------------------------------------------------- peers

  /** Rank r has flagged rank o. */
  ghost predicate IsFlagged(w: World, r: nat, globalTree: seq<nat>, ranges: seq<Range>, o: nat)
    requires r < |w.leaves| && o < |ranges| && o + 1 < |w.bounds|
  {
    o != r && IsFocusPeer(Slice(globalTree, ranges[o]),
                          Slice(w.leaves[r], RangeOf(w.leaves[r], w.bounds[o], w.bounds[o + 1])))
  }

  /** The peers of rank r are the ranks that it has flagged. */
  ghost predicate ArePeersOf(w: World, r: nat, globalTree: seq<nat>, ranges: seq<Range>) {
    && r < |w.leaves| == |w.peers| == |ranges| && |w.bounds| == |w.leaves| + 1 && AreDistinct(w.peers[r])
    && (forall o: nat :: o in w.peers[r] ==> o < |ranges|)
    && forall o: nat :: o < |ranges| ==> (o in w.peers[r] <==> IsFlagged(w, r, globalTree, ranges, o))
  }

  /** `peerFlagsToList`. */
  method PeerFlagsToList(flags: seq<bool>) returns (peers: seq<nat>)
    ensures AreDistinct(peers) && (forall o: nat :: o in peers ==> o < |flags|)
    ensures forall o: nat :: o < |flags| ==> (o in peers <==> flags[o])
  {
    peers := [];
    for i := 0 to |flags|
      invariant AreDistinct(peers) && forall k: nat :: k < |peers| ==> peers[k] < i
      invariant forall o: nat :: o < i ==> (o in peers <==> flags[o])
    {
      ghost var before := peers;
      if flags[i] {
        peers := peers + [i];
        assert forall o: nat :: o < i ==> (o in peers <==> o in before);
      }
    }
  }

  /** Flag and list the peers of one rank. */
  method FindFocusPeers(bounds: seq<nat>, leaves: seq<nat>, myRank: nat, globalTree: seq<nat>, ranges: seq<Range>,
                        L: nat)
    returns (peers: seq<nat>)
    requires Cornerstone(leaves, L) && |bounds| == |ranges| + 1 && AreBounds(bounds, L)
    requires forall q: nat :: q < |ranges| ==> FitsIn(globalTree, ranges[q])
    ensures AreDistinct(peers) && (forall o: nat :: o in peers ==> o < |ranges|)
    ensures forall o: nat :: o < |ranges| ==>
      (o in peers <==>
       o != myRank && IsFocusPeer(Slice(globalTree, ranges[o]), Slice(leaves, LeavesOf(leaves, bounds, o))))
  {
    var focusRanges := seq(|ranges|, (o: nat) => LeavesOf(leaves, bounds, o));
    forall q: nat | q < |focusRanges| ensures FitsIn(leaves, focusRanges[q]) { LeavesOfAre(leaves, bounds, q, 0, L); }
    var flags := FocusPeers(ranges, focusRanges, myRank, globalTree, leaves);
    peers := PeerFlagsToList(flags);
  }

  /** Ranks with the ends of their own ranges and flagged peers can agree on cells. */
  lemma FlaggedWorldIsReady(w: World, globalTree: seq<nat>, globalRanges: seq<seq<Range>>)
    requires |w.bounds| == |w.leaves| + 1 && |globalRanges| == |w.peers| == |w.leaves|
    requires forall i: nat, j: nat :: i <= j < |w.bounds| ==> w.bounds[i] <= w.bounds[j]
    requires forall r: nat :: r < |w.leaves| ==> RankIsReady(w, r) && ArePeersOf(w, r, globalTree, globalRanges[r])
    ensures WorldIsReady(w)
  {
    forall r: nat, i: nat | r < |w.leaves| && i < |w.peers[r]| ensures PeerIsReady(w, r, w.peers[r][i]) {
      var o := w.peers[r][i];
      assert ArePeersOf(w, r, globalTree, globalRanges[r]) && o in w.peers[r];
      assert IsFlagged(w, r, globalTree, globalRanges[r], o);
      PeerHasLeaf(Slice(globalTree, globalRanges[r][o]),
                  Slice(w.leaves[r], RangeOf(w.leaves[r], w.bounds[o], w.bounds[o + 1])));
    }
  }

  /** With the ranges of the present bounds, the peers of a rank are the ranks in whose range its octree is finer than
      the global one. */
  lemma PeersAreFiner(w: World, r: nat, globalTree: seq<nat>, ranges: seq<Range>, o: nat)
    requires ArePeersOf(w, r, globalTree, ranges) && RankIsReady(w, r) && o < |ranges|
    requires Cornerstone(globalTree, w.L) && w.bounds[o] <= w.bounds[o + 1] && w.bounds[o + 1] in globalTree
    requires IsRangeOf(globalTree, ranges[o], w.bounds[o], w.bounds[o + 1])
    ensures o in w.peers[r] <==>
            o != r && exists key: nat :: key in w.leaves[r] && InRangeOf(w, o, key) && key !in globalTree
  {
    var lo, hi := w.bounds[o], w.bounds[o + 1];
    var i: nat :| i < |globalTree| && globalTree[i] == hi;
    assert globalTree[i] <= globalTree[|globalTree| - 1];
    PeerIffFiner(w.leaves[r], globalTree, ranges[o], lo, hi, w.L);
    assert o in w.peers[r] <==> IsFlagged(w, r, globalTree, ranges, o);
  }

  /** What every rank has before it counts: sorted keys of its own range, and exact counts of the global octree,
      in which all boundaries are keys. */
  ghost predicate AreCountInputs(w: World, globalTree: seq<nat>, globalCounts: seq<nat>, keys: seq<seq<nat>>) {
    && AreAssigned(keys, w.bounds) && |w.leaves| == |keys| && w.bounds[0] == 0 && UpdateCounts.AreBounds(w.bounds, w.L)
    && Cornerstone(globalTree, w.L) && AreCounts(globalTree, globalCounts, AllKeys(keys), UNSIGNED_MAX)
    && (forall q: nat :: q < |w.bounds| ==> w.bounds[q] in globalTree)
    && forall q: nat :: q < |keys| ==> Counts.Sorted(keys[q]) && |keys[q]| < UNSIGNED_LIMIT
  }

  lemma RankIsCountable(w: World, w': World, globalTree: seq<nat>, globalCounts: seq<nat>, keys: seq<seq<nat>>,
                        ranges: seq<Range>, r: nat)
    requires WorldIsReady(w) && IsSynced(w, w') && AreCountInputs(w, globalTree, globalCounts, keys) && r < |keys|
    requires ArePeersOf(w, r, globalTree, ranges)
    ensures IsCountableRank(w', globalTree, keys, r)
  {
    SyncedRankIsReady(w, w', r);
    assert r in w.peers[r] <==> IsFlagged(w, r, globalTree, ranges, r);
    forall o: nat | o < |w'.leaves| && o !in Sources(w', r) ensures IsCoveredBy(w', globalTree, r, o) {
      assert o !in w.peers[r] && o != r;
      assert w.bounds[o + 1] in globalTree;
      UnflaggedIsCovered(w, w', r, o, globalTree, ranges[o]);
    }
    DistinctWithOwn(w.peers[r], r);
  }

  lemma DistinctWithOwn(peers: seq<nat>, r: nat)
    requires AreDistinct(peers) && r !in peers
    ensures AreDistinct(peers + [r])
  {
  }

  /** Flagged peers and agreed cells are all that counting needs. */
  lemma RanksAreCountable(w: World, w': World, globalTree: seq<nat>, globalCounts: seq<nat>, keys: seq<seq<nat>>,
                          globalRanges: seq<seq<Range>>)
    requires WorldIsReady(w) && IsSynced(w, w') && AreCountInputs(w, globalTree, globalCounts, keys)
    requires |globalRanges| == |keys| && forall r: nat :: r < |keys| ==> ArePeersOf(w, r, globalTree, globalRanges[r])
    ensures IsCountable(w', globalTree, globalCounts, keys)
  {
    forall r: nat | r < |keys| ensures IsCountableRank(w', globalTree, keys, r) {
      RankIsCountable(w, w', globalTree, globalCounts, keys, globalRanges[r], r);
    }
  }

  // ------------------------------------------------------------- the steps of all ranks

  /** The linked octree of a rank. */
  datatype RankTree = RankTree(view: View, nodes: seq<nat>, levelRange: seq<nat>)

  ghost predicate IsTreeOf(t: RankTree, leaves: seq<nat>, L: nat) {
    && t.view.L == L && IsView(t.view, leaves) && LeavesAre(t.view, leaves, t.nodes)
    && Ascending(t.view.prefixes) && NodesListed(leaves, t.view.prefixes, L)
    && LevelsDelimited(t.view.prefixes, t.levelRange, L) && IsLevelRange(t.view.prefixes, t.levelRange, L)
  }

  /** The octree that `updateInternalTree` builds from the leaves. */
  lemma OctreeIsTreeOf(tree: OctreeData, leaves: seq<nat>, L: nat)
    requires tree.IsOctree(leaves, L)
    ensures |tree.leafToInternal| >= tree.numInternalNodes
    ensures IsTreeOf(RankTree(View(tree.prefixes, tree.childOffsets, tree.parents, L),
                              tree.leafToInternal[tree.numInternalNodes..], tree.levelRange), leaves, L)
  {
    LeafNodesOf(tree, leaves, L);
  }

  ghost predicate AreTreesOf(trees: seq<RankTree>, w: World) {
    |trees| == |w.leaves| && forall r: nat :: r < |trees| ==> IsTreeOf(trees[r], w.leaves[r], w.L)
  }

  /** After the first sweep of rank r. */
  ghost predicate IsSweptOnce(t: RankTree, leaves: seq<nat>, bounds: seq<nat>, peers: seq<nat>, r: nat,
                              counts: seq<nat>, all: seq<nat>)
    requires r + 1 < |bounds|
  {
    && |counts| == |t.view.prefixes|
    && (forall i: nat :: i < |counts| && IsWithin(t.view, i, bounds[r], bounds[r + 1]) ==>
        CountsParticles(t.view, counts, all, i))
    && LeavesExact(leaves, t.nodes, counts, all,
                   (k: nat) => IsLeafOf(leaves, bounds, r, k) || !IsExchanged(leaves, bounds, peers + [r], k))
  }

  /** All counts of a rank are those of the particles of all ranks. */
  ghost predicate IsCounted(t: RankTree, leaves: seq<nat>, counts: seq<nat>, leafCounts: seq<nat>, all: seq<nat>) {
    && |counts| == |t.view.prefixes| && (forall i: nat :: i < |counts| ==> CountsParticles(t.view, counts, all, i))
    && AreCounts(leaves, leafCounts, all, UNSIGNED_MAX)
  }

  method SweepAll(w: World, trees: seq<RankTree>, globalTree: seq<nat>, globalCounts: seq<nat>, keys: seq<seq<nat>>,
                  guesses: seq<seq<nat>>)
    returns (swept: seq<seq<nat>>)
    requires IsCountable(w, globalTree, globalCounts, keys) && AreTreesOf(trees, w) && |guesses| == |keys|
    ensures |swept| == |keys|
    ensures forall r: nat :: r < |keys| ==>
      IsSweptOnce(trees[r], w.leaves[r], w.bounds, w.peers[r], r, swept[r], AllKeys(keys))
  {
    swept := [];
    for r := 0 to |keys|
      invariant |swept| == r
      invariant forall q: nat :: q < r ==>
        IsSweptOnce(trees[q], w.leaves[q], w.bounds, w.peers[q], q, swept[q], AllKeys(keys))
    {
      CountableRankCanSweep(w, globalTree, globalCounts, keys, r);
      assert IsTreeOf(trees[r], w.leaves[r], w.L);
      var counts := SweepOne(trees[r], w.leaves[r], w.bounds, w.peers[r], r, keys[r], globalTree, globalCounts,
                             guesses[r], w.L, AllKeys(keys));
      swept := swept + [counts];
    }
  }

  method SweepOne(t: RankTree, leaves: seq<nat>, bounds: seq<nat>, peers: seq<nat>, myRank: nat, localKeys: seq<nat>,
                  globalTree: seq<nat>, globalCounts: seq<nat>, guesses: seq<nat>, ghost L: nat, ghost all: seq<nat>)
    returns (swept: seq<nat>)
    requires IsTreeOf(t, leaves, L) && UpdateCounts.AreBounds(bounds, L) && AreDistinct(peers + [myRank])
    requires myRank + 1 < |bounds|
    requires Counts.Sorted(localKeys) && |localKeys| < UNSIGNED_LIMIT
    requires IsLocal(all, localKeys, bounds[myRank], bounds[myRank + 1])
    requires Ascending(globalTree) && AreCounts(globalTree, globalCounts, all, UNSIGNED_MAX)
    requires forall k: nat :: k + 1 < |leaves| && !IsExchanged(leaves, bounds, peers + [myRank], k) ==>
               IsGlobalLeaf(globalTree, leaves, k)
    ensures IsSweptOnce(t, leaves, bounds, peers, myRank, swept, all)
  {
    var counts := FirstSweep(t.view, leaves, t.nodes, t.levelRange, bounds, peers, myRank, localKeys, globalTree,
                             globalCounts, guesses, all);
    swept := counts[..];
  }

  /** What the ranks have kept of the treelets of their requesters. */
  ghost predicate AreKept(w: World, treelets: seq<seq<seq<nat>>>) {
    && WorldIsReady(w) && |treelets| == |w.leaves|
    && forall r: nat, o: nat :: r < |w.leaves| && o in w.peers[r] ==> IsKept(w, treelets, r, o)
  }

  ghost predicate IsKept(w: World, treelets: seq<seq<seq<nat>>>, r: nat, o: nat)
    requires WorldIsReady(w) && r < |w.leaves|
  {
    && o < |treelets| && o < |w.leaves| && r < |treelets[o]| && |w.leaves[o]| > 0
    && treelets[o][r] == PrunedBy(w, r, o)
  }

  /** Rank o looks up the nodes of the treelet of rank r and sends their counts. */
  method AnswerPeer(w: World, ghost w': World, r: nat, o: nat, treelet: seq<nat>, owner: RankTree, counts: seq<nat>,
                    ghost all: seq<nat>)
    returns (values: seq<nat>)
    requires WorldIsReady(w) && IsSynced(w, w') && r < |w.leaves| && o in w.peers[r] && o < |w.leaves|
    requires |w.leaves[o]| > 0
    requires treelet == PrunedBy(w, r, o) && IsTreeOf(owner, w'.leaves[o], w'.L)
    requires IsSweptOnce(owner, w'.leaves[o], w.bounds, w.peers[o], o, counts, all)
    ensures IsCountMessage(w'.leaves[r], w.bounds, o, values, all)
  {
    PrunedTreeletIsIndexable(w, w', r, o);
    TreeletsAgree(w, w', r, o);
    var indices := IndexTreelet(treelet, owner.view.prefixes, owner.levelRange, w.L, w'.leaves[o]);
    assert forall i: nat :: i < |indices| ==> IsNodeIndex(owner.view.prefixes, treelet, i, indices[i], w.L);
    values := PackCounts(indices, counts);
    MessageIsExact(w, w', r, o, owner.view, counts, indices, values, all);
  }

  /** The message of peer o to rank r. */
  method MessageOf(w: World, ghost w': World, r: nat, o: nat, treelets: seq<seq<seq<nat>>>, trees: seq<RankTree>,
                   swept: seq<seq<nat>>, ghost all: seq<nat>)
    returns (message: Message)
    requires IsSynced(w, w') && AreKept(w, treelets) && AreTreesOf(trees, w') && |swept| == |trees| && r < |w.leaves|
    requires o in w.peers[r] && forall q: nat :: q < |swept| ==> IsSweptAt(w, w', trees, swept, q, all)
    ensures message.sender == o && IsCountMessage(w'.leaves[r], w.bounds, o, message.values, all)
  {
    assert IsKept(w, treelets, r, o);
    assert IsTreeOf(trees[o], w'.leaves[o], w'.L) && IsSweptAt(w, w', trees, swept, o, all);
    var values := AnswerPeer(w, w', r, o, treelets[o][r], trees[o], swept[o], all);
    message := Message(o, values);
  }

  ghost predicate IsSweptAt(w: World, w': World, trees: seq<RankTree>, swept: seq<seq<nat>>, q: nat, all: seq<nat>)
    requires WorldIsReady(w) && IsSynced(w, w') && q < |swept| == |trees| == |w.leaves|
  {
    IsSweptOnce(trees[q], w'.leaves[q], w.bounds, w.peers[q], q, swept[q], all)
  }

  /** Message m comes from the peer whose turn it is. */
  ghost predicate IsNextMessage(leaves: seq<nat>, bounds: seq<nat>, peers: seq<nat>, sender: int, message: Message,
                                all: seq<nat>) {
    && 0 <= sender < |peers| && message.sender == peers[sender]
    && IsCountMessage(leaves, bounds, message.sender, message.values, all)
  }

  /** The messages of the peers of rank r, in the order in which they arrive. */
  method Deliver(w: World, ghost w': World, r: nat, order: seq<nat>, treelets: seq<seq<seq<nat>>>, trees: seq<RankTree>,
                 swept: seq<seq<nat>>, ghost all: seq<nat>)
    returns (messages: seq<Message>)
    requires IsSynced(w, w') && AreKept(w, treelets) && AreTreesOf(trees, w') && |swept| == |trees| && r < |w.leaves|
    requires IsOrderOf(order, |w.peers[r]|)
    requires forall q: nat :: q < |swept| ==> IsSweptAt(w, w', trees, swept, q, all)
    ensures AreDelivered(w'.leaves[r], w.bounds, w.peers[r], order, messages, all)
  {
    var peers := w.peers[r];
    messages := [];
    for m := 0 to |order|
      invariant |messages| == m
      invariant forall j: nat :: j < m ==> IsNextMessage(w'.leaves[r], w.bounds, peers, order[j], messages[j], all)
    {
      var message := MessageOf(w, w', r, peers[order[m]], treelets, trees, swept, all);
      messages := messages + [message];
    }
    AllNext(w'.leaves[r], w.bounds, peers, order, messages, all);
  }

  lemma AllNext(leaves: seq<nat>, bounds: seq<nat>, peers: seq<nat>, order: seq<nat>, messages: seq<Message>,
                all: seq<nat>)
    requires |messages| == |order| && IsOrderOf(order, |peers|)
    requires forall j: nat :: j < |messages| ==> IsNextMessage(leaves, bounds, peers, order[j], messages[j], all)
    ensures AreDelivered(leaves, bounds, peers, order, messages, all)
  {
  }

  /** Second sweep of one rank. */
  method FinishOne(t: RankTree, leaves: seq<nat>, bounds: seq<nat>, peers: seq<nat>, myRank: nat,
                   messages: seq<Message>, swept: seq<nat>, ghost order: seq<nat>, ghost L: nat, ghost all: seq<nat>)
    returns (counts: seq<nat>, leafCounts: seq<nat>)
    requires IsTreeOf(t, leaves, L) && UpdateCounts.AreBounds(bounds, L) && myRank + 1 < |bounds|
    requires AreDelivered(leaves, bounds, peers, order, messages, all)
    requires IsSweptOnce(t, leaves, bounds, peers, myRank, swept, all)
    ensures IsCounted(t, leaves, counts, leafCounts, all)
  {
    var nodeCounts := new nat[|swept|](i requires 0 <= i < |swept| => swept[i]);
    assert nodeCounts[..] == swept;
    leafCounts := SecondSweep(t.view, leaves, t.nodes, t.levelRange, bounds, peers, myRank, messages, nodeCounts, order,
                              all);
    counts := nodeCounts[..];
  }

  /** `updateCounts` on all ranks. Whatever the order in which the messages of the peers arrive, all counts of all
      leaves and nodes of all ranks are exact afterwards. */
  method UpdateAllCounts(w: World, w': World, treelets: seq<seq<seq<nat>>>, trees: seq<RankTree>, globalTree: seq<nat>,
                         globalCounts: seq<nat>, keys: seq<seq<nat>>, guesses: seq<seq<nat>>, orders: seq<seq<nat>>,
                         ghost globalRanges: seq<seq<Range>>)
    returns (counts: seq<seq<nat>>, leafCounts: seq<seq<nat>>)
    requires WorldIsReady(w) && IsSynced(w, w') && AreKept(w, treelets) && AreTreesOf(trees, w')
    requires AreCountInputs(w, globalTree, globalCounts, keys)
    requires |globalRanges| == |keys| && forall r: nat :: r < |keys| ==> ArePeersOf(w, r, globalTree, globalRanges[r])
    requires |guesses| == |orders| == |keys|
    requires forall r: nat :: r < |keys| ==> IsOrderOf(orders[r], |w.peers[r]|)
    ensures |counts| == |leafCounts| == |keys|
    ensures forall r: nat :: r < |keys| ==> IsCounted(trees[r], w'.leaves[r], counts[r], leafCounts[r], AllKeys(keys))
  {
    RanksAreCountable(w, w', globalTree, globalCounts, keys, globalRanges);
    var swept := SweepAll(w', trees, globalTree, globalCounts, keys, guesses);
    assert forall q: nat :: q < |swept| ==> IsSweptAt(w, w', trees, swept, q, AllKeys(keys));
    counts, leafCounts := [], [];
    for r := 0 to |keys|
      invariant |counts| == |leafCounts| == r
      invariant forall q: nat :: q < r ==> IsCounted(trees[q], w'.leaves[q], counts[q], leafCounts[q], AllKeys(keys))
    {
      var messages := Deliver(w, w', r, orders[r], treelets, trees, swept, AllKeys(keys));
      assert IsTreeOf(trees[r], w'.leaves[r], w'.L);
      var nodeCounts, ofLeaves := FinishOne(trees[r], w'.leaves[r], w.bounds, w.peers[r], r, messages, swept[r],
                                            orders[r], w'.L, AllKeys(keys));
      counts, leafCounts := counts + [nodeCounts], leafCounts + [ofLeaves];
    }
  }
}
