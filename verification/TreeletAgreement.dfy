/** After the rejected keys have been delivered, requester and owner have the same cells. */
module TreeletAgreement {
  import opened Keys
  import opened CornerstoneArray
  import opened Counts
  import opened Rebalance
  import opened LinkedOctree
  import opened OctreeLinks
  import opened BuildOctree
  import opened Treelets
  import LeafUpdate
  import FocusUpdate

  /** Some peer of r owns the key and does not have it. */
  ghost predicate Dropped(w: World, r: nat, k: nat)
    requires r < |w.peers|
  {
    exists o: nat :: o in w.peers[r] && LacksOwn(w, o, k)
  }

  ghost predicate LacksOwn(w: World, o: nat, k: nat) {
    o + 1 < |w.bounds| && o < |w.leaves| && InRangeOf(w, o, k) && k !in w.leaves[o]
  }

  /** The keys of rank r that no owner rejects. */
  ghost function Survivors(w: World, r: nat): (s: set<nat>)
    requires r < |w.leaves| && r < |w.peers|
  {
    set k | k in w.leaves[r] && !Dropped(w, r, k)
  }

  /** A rank sends its keys in the range of the peer, and the peer has the last of them. */
  lemma SentKeys(w: World, r: nat, o: nat)
    requires WorldIsReady(w) && r < |w.leaves| && o in w.peers[r]
    ensures o < |w.leaves| && Cornerstone(w.leaves[o], w.L)
    ensures Sent(w, r, o) != [] && Ascending(Sent(w, r, o)) && Sent(w, r, o)[|Sent(w, r, o)| - 1] in w.leaves[o]
    ensures forall k: nat :: k in Sent(w, r, o) <==> k in w.leaves[r] && InRangeOf(w, o, k)
    ensures forall k: nat :: k in Sent(w, r, o) ==> k <= Pow8(w.L)
  {
    PeersMeet(w, r, o);
    TreeletIs(w.leaves[r], w.bounds[o], w.bounds[o + 1], w.L);
    var last := LastKeyIsShared(w, r, o);
  }

  /** An owner rejects exactly the keys in its range that it does not have. */
  lemma RejectedByAre(w: World, r: nat, o: nat)
    requires WorldIsReady(w) && r < |w.leaves| && o in w.peers[r]
    ensures o < |w.leaves| && |w.leaves[o]| > 0 && Sent(w, r, o) != []
    ensures forall k: nat :: k in RejectedBy(w, r, o) <==> k in w.leaves[r] && LacksOwn(w, o, k)
  {
    SentKeys(w, r, o);
    AllRejected(Sent(w, r, o), w.leaves[o], w.L);
  }

  lemma PrunedByAre(w: World, r: nat, o: nat)
    requires WorldIsReady(w) && r < |w.leaves| && o in w.peers[r]
    ensures o < |w.leaves| && |w.leaves[o]| > 0 && Ascending(PrunedBy(w, r, o))
    ensures forall k: nat :: k in PrunedBy(w, r, o) <==> k in w.leaves[r] && k in w.leaves[o] && InRangeOf(w, o, k)
  {
    SentKeys(w, r, o);
    var t := Sent(w, r, o);
    forall i: nat | i < |t| ensures t[i] <= Pow8(w.L) {
      assert t[i] in t;
    }
    PrunedAre(t, w.leaves[o], w.L);
  }

  /** Ranges of different ranks meet only at a boundary, which both ranks have. */
  lemma SharedBoundary(w: World, o: nat, p: nat, k: nat)
    requires WorldIsReady(w) && o < |w.leaves| && p < |w.leaves| && o != p
    requires InRangeOf(w, o, k) && InRangeOf(w, p, k)
    ensures k in w.leaves[o] && k in w.leaves[p]
  {
    assert RankIsReady(w, o) && RankIsReady(w, p);
    if o < p {
      assert w.bounds[o + 1] <= w.bounds[p];
    } else {
      assert w.bounds[p + 1] <= w.bounds[o];
    }
  }

  lemma PeerIsOther(w: World, r: nat, o: nat)
    requires WorldIsReady(w) && r < |w.leaves| && o in w.peers[r]
    ensures o < |w.leaves| && o != r && RankIsReady(w, o)
  {
    var i: nat :| i < |w.peers[r]| && w.peers[r][i] == o;
    assert PeerIsReady(w, r, w.peers[r][i]);
  }

  /** A boundary of the cell around a surviving key is not rejected by any owner. */
  lemma ChildSurvives(w: World, r: nat, k: nat, h: nat, j: nat, o: nat)
    requires WorldIsReady(w) && r < |w.leaves| && o in w.peers[r]
    requires k in Survivors(w, r) && 1 <= h <= w.L && Floor(k, h) != k && j <= 8
    ensures !LacksOwn(w, o, ChildStart(Floor(k, h), h, j))
  {
    var s := Floor(k, h);
    var c := ChildStart(s, h, j);
    PeerIsOther(w, r, o);
    FloorBounds(k, h);
    ChildStarts(s, h);
    assert ChildStart(s, h, 0) <= c <= ChildStart(s, h, 8);
    if InRangeOf(w, o, c) {
      ArrayToSet(w.leaves[o], w.L);
      var b := if k < w.bounds[o] then w.bounds[o] else if k > w.bounds[o + 1] then w.bounds[o + 1] else k;
      assert b in w.leaves[o] by {
        if b == k { assert !LacksOwn(w, o, k); }
      }
      if s < b < s + Pow8(h) {
        CutCellIsNode(KeySet(w.leaves[o]), w.L, s, h, b);
        assert c in KeySet(w.leaves[o]);
      }
    }
  }

  /** What survives is an octree. */
  lemma SurvivorsAreOctree(w: World, r: nat)
    requires WorldIsReady(w) && r < |w.leaves|
    ensures CornerstoneSet(Survivors(w, r), w.L)
  {
    var S := Survivors(w, r);
    assert RankIsReady(w, r);
    ArrayToSet(w.leaves[r], w.L);
    forall o: nat | o in w.peers[r] ensures !LacksOwn(w, o, 0) && !LacksOwn(w, o, Pow8(w.L)) {
      PeerIsOther(w, r, o);
      assert w.leaves[o][0] in w.leaves[o] && w.leaves[o][|w.leaves[o]| - 1] in w.leaves[o];
    }
    assert 0 in KeySet(w.leaves[r]) && Pow8(w.L) in KeySet(w.leaves[r]);
    forall k: nat, h: nat | k in S && 1 <= h <= w.L && Floor(k, h) != k
      ensures ChildrenIn(S, Floor(k, h), h)
    {
      assert k in KeySet(w.leaves[r]) && ChildrenIn(KeySet(w.leaves[r]), Floor(k, h), h);
      forall j: nat | j <= 8 ensures ChildStart(Floor(k, h), h, j) in S {
        assert ChildStart(Floor(k, h), h, j) in KeySet(w.leaves[r]);
        forall o: nat | o in w.peers[r] ensures !LacksOwn(w, o, ChildStart(Floor(k, h), h, j)) {
          ChildSurvives(w, r, k, h, j, o);
        }
      }
    }
    forall k: nat | k in S ensures k <= Pow8(w.L) {
      assert k in KeySet(w.leaves[r]);
    }
  }

  // ------------------------------------------------------------- delivery in any order

  /** The rejections of all peers of r have arrived, one message each, in some order. */
  ghost predicate IsDelivery(w: World, r: nat, order: seq<nat>, messages: seq<seq<nat>>)
    requires WorldIsReady(w) && r < |w.leaves|
  {
    && |messages| == |order| && IsOrderOf(order, |w.peers[r]|)
    && forall m: nat :: m < |messages| ==> IsMessageOf(w, r, w.peers[r][order[m]], messages[m])
  }

  ghost predicate IsMessageOf(w: World, r: nat, o: nat, message: seq<nat>)
    requires r < |w.leaves|
  {
    && o < |w.leaves| && o + 1 < |w.bounds| && |w.leaves[o]| > 0 && Sent(w, r, o) != []
    && message == RejectedBy(w, r, o)
  }

  /** Some of the first n messages contains the key. */
  ghost predicate InMessages(messages: seq<seq<nat>>, n: nat, k: nat)
    requires n <= |messages|
  {
    exists m: nat :: m < n && k in messages[m]
  }

  /** Whatever the order, the messages together contain the keys that are dropped. */
  lemma MessagesAreDropped(w: World, r: nat, order: seq<nat>, messages: seq<seq<nat>>, k: nat)
    requires WorldIsReady(w) && r < |w.leaves| && IsDelivery(w, r, order, messages)
    ensures InMessages(messages, |messages|, k) <==> k in w.leaves[r] && Dropped(w, r, k)
  {
    if InMessages(messages, |messages|, k) {
      var m: nat :| m < |messages| && k in messages[m];
      RejectedByAre(w, r, w.peers[r][order[m]]);
    }
    if k in w.leaves[r] && Dropped(w, r, k) {
      var o: nat :| o in w.peers[r] && LacksOwn(w, o, k);
      var i: nat :| i < |w.peers[r]| && w.peers[r][i] == o;
      assert i in order;
      var m: nat :| m < |order| && order[m] == i;
      RejectedByAre(w, r, o);
      assert IsMessageOf(w, r, w.peers[r][order[m]], messages[m]);
    }
  }

  /** Mark the keys of one message for removal. */
  method MarkRejected(leaves: seq<nat>, recvKeys: seq<nat>, nodeOps: array<nat>)
    requires Ascending(leaves) && nodeOps.Length == |leaves|
    requires forall k: nat :: k in recvKeys ==> k in leaves
    modifies nodeOps
    ensures forall i: nat :: i < |leaves| ==> nodeOps[i] == if leaves[i] in recvKeys then 0 else old(nodeOps[i])
  {
    for i := 0 to |recvKeys|
      invariant forall j: nat :: j < |leaves| ==>
                  nodeOps[j] == if leaves[j] in recvKeys[..i] then 0 else old(nodeOps[j])
    {
      assert recvKeys[i] in recvKeys;
      var ki := FindNodeAbove(leaves, |leaves|, recvKeys[i]);
      FoundKey(leaves, recvKeys[i]);
      nodeOps[ki] := 0;
      assert recvKeys[..i + 1] == recvKeys[..i] + [recvKeys[i]];
      forall j: nat | j < |leaves|
        ensures nodeOps[j] == if leaves[j] in recvKeys[..i + 1] then 0 else old(nodeOps[j])
      {
        LeafUpdate.UniqueIndex(leaves, j, ki);
      }
    }
    assert recvKeys[..|recvKeys|] == recvKeys;
  }

  lemma FoundKey(leaves: seq<nat>, k: nat)
    requires Ascending(leaves) && k in leaves
    ensures FindNodeAbove(leaves, |leaves|, k) < |leaves| && leaves[FindNodeAbove(leaves, |leaves|, k)] == k
  {
    var i: nat :| i < |leaves| && leaves[i] == k;
    assert leaves[..|leaves|] == leaves;
  }

  /** Keeping and dropping without splitting leaves the keys that are kept. */
  lemma KeysAfterDropping(leaves: seq<nat>, ops: seq<nat>, L: nat)
    requires Cornerstone(leaves, L) && |ops| + 1 == |leaves|
    requires forall i: nat :: i < |ops| ==> ops[i] <= 1
    ensures OpsFit(leaves, ops) && KeySet(Rebalanced(leaves, ops)) == KeptKeys(leaves, ops)
  {
    forall i: nat | i < |ops| ensures FitsAt(leaves, ops, i) {
    }
    var R := Rebalanced(leaves, ops);
    forall k: nat ensures k in R <==> k in KeptKeys(leaves, ops) {
      KeysOfPieces(leaves, ops, |ops|, k);
      if i: nat :| i < |ops| && k in Piece(leaves, ops, i) {
        assert Piece(leaves, ops, i) == if ops[i] == 1 then [leaves[i]] else [];
      }
      if k in KeptKeys(leaves, ops) { FocusUpdate.KeptKeysRemain(leaves, ops, k); }
    }
  }

  lemma MessageKeysAreOurs(w: World, r: nat, order: seq<nat>, messages: seq<seq<nat>>, m: nat)
    requires WorldIsReady(w) && r < |w.leaves| && IsDelivery(w, r, order, messages) && m < |messages|
    ensures forall k: nat :: k in messages[m] ==> k in w.leaves[r]
    ensures Ascending(w.leaves[r])
  {
    assert RankIsReady(w, r);
    assert IsMessageOf(w, r, w.peers[r][order[m]], messages[m]);
    RejectedByAre(w, r, w.peers[r][order[m]]);
  }

  ghost predicate AreKeysOf(leaves: seq<nat>, keys: seq<nat>) {
    forall k: nat :: k in keys ==> k in leaves
  }

  /** Receive the messages of all peers. */
  method ReceiveRejected(leaves: seq<nat>, messages: seq<seq<nat>>) returns (nodeOps: array<nat>)
    requires Ascending(leaves) && forall m: nat :: m < |messages| ==> AreKeysOf(leaves, messages[m])
    ensures fresh(nodeOps) && nodeOps.Length == |leaves|
    ensures forall i: nat :: i < |leaves| ==>
              nodeOps[i] == if InMessages(messages, |messages|, leaves[i]) then 0 else 1
  {
    nodeOps := new nat[|leaves|](_ => 1);
    for m := 0 to |messages|
      invariant forall i: nat :: i < |leaves| ==> nodeOps[i] == if InMessages(messages, m, leaves[i]) then 0 else 1
    {
      assert AreKeysOf(leaves, messages[m]);
      MarkRejected(leaves, messages[m], nodeOps);
    }
  }

  method AreAllOne(nodeOps: array<nat>) returns (all: bool)
    ensures all <==> forall i: nat :: i < nodeOps.Length ==> nodeOps[i] == 1
  {
    all := true;
    for i := 0 to nodeOps.Length
      invariant all <==> forall j: nat :: j < i ==> nodeOps[j] == 1
    {
      if nodeOps[i] != 1 { all := false; }
    }
  }

  /** Remove the rejected keys from the leaves of a rank. */
  method SyncLeaves(leaves: seq<nat>, messages: seq<seq<nat>>, L: nat, ghost w: World, ghost r: nat,
                    ghost order: seq<nat>)
    returns (newLeaves: seq<nat>)
    requires WorldIsReady(w) && r < |w.leaves| && leaves == w.leaves[r] && L == w.L
    requires IsDelivery(w, r, order, messages)
    ensures Cornerstone(newLeaves, L) && KeySet(newLeaves) == Survivors(w, r)
  {
    forall m: nat | m < |messages| ensures AreKeysOf(leaves, messages[m]) {
      MessageKeysAreOurs(w, r, order, messages, m);
    }
    assert RankIsReady(w, r);
    var nodeOps := ReceiveRejected(leaves, messages);
    ghost var ops := nodeOps[..|leaves| - 1];
    assert forall i: nat :: i < |ops| ==> ops[i] == if InMessages(messages, |messages|, leaves[i]) then 0 else 1;
    DroppingIsMerging(w, r, order, messages, ops);
    var nothingRejected := AreAllOne(nodeOps);
    if nothingRejected {
      UnchangedTree(leaves, ops);
      newLeaves := leaves;
    } else {
      var rebalanced := RebalanceTree(leaves, nodeOps, L);
      newLeaves := rebalanced[..];
    }
  }

  lemma DroppingIsMerging(w: World, r: nat, order: seq<nat>, messages: seq<seq<nat>>, ops: seq<nat>)
    requires WorldIsReady(w) && r < |w.leaves| && IsDelivery(w, r, order, messages)
    requires |ops| + 1 == |w.leaves[r]|
    requires forall i: nat :: i < |ops| ==> ops[i] == if InMessages(messages, |messages|, w.leaves[r][i]) then 0 else 1
    ensures OpsFit(w.leaves[r], ops)
    ensures Cornerstone(Rebalanced(w.leaves[r], ops), w.L) && KeySet(Rebalanced(w.leaves[r], ops)) == Survivors(w, r)
  {
    var a := w.leaves[r];
    assert RankIsReady(w, r);
    SurvivorsAreOctree(w, r);
    KeysAfterDropping(a, ops, w.L);
    KeptAreSurvivors(w, r, order, messages, ops);
    KeptOctreeMergesWhole(a, ops, w.L);
    RebalancedIsCornerstone(a, ops, w.L);
  }

  lemma KeptAreSurvivors(w: World, r: nat, order: seq<nat>, messages: seq<seq<nat>>, ops: seq<nat>)
    requires WorldIsReady(w) && r < |w.leaves| && IsDelivery(w, r, order, messages)
    requires |ops| + 1 == |w.leaves[r]| && CornerstoneSet(Survivors(w, r), w.L)
    requires forall i: nat :: i < |ops| ==> ops[i] == if InMessages(messages, |messages|, w.leaves[r][i]) then 0 else 1
    ensures KeptKeys(w.leaves[r], ops) == Survivors(w, r)
  {
    var a := w.leaves[r];
    assert RankIsReady(w, r);
    forall i: nat | i < |a| ensures i < |ops| ==> (ops[i] != 0 <==> a[i] in Survivors(w, r)) {
      MessagesAreDropped(w, r, order, messages, a[i]);
      assert a[i] in a;
    }
    forall k: nat ensures k in KeptKeys(a, ops) <==> k in Survivors(w, r) {
      if k in Survivors(w, r) {
        var i: nat :| i < |a| && a[i] == k;
        assert i == |ops| || ops[i] != 0;
      }
    }
  }

  // ------------------------------------------------------------- the agreement

  /** Every rank has removed what was rejected. */
  ghost predicate IsSynced(w: World, w': World) {
    && w'.L == w.L && w'.bounds == w.bounds && w'.peers == w.peers && |w'.leaves| == |w.leaves|
    && |w.peers| == |w.leaves|
    && forall r: nat :: r < |w.leaves| ==> RankIsSynced(w, w', r)
  }

  ghost predicate RankIsSynced(w: World, w': World, r: nat)
    requires r < |w.leaves| == |w'.leaves| == |w.peers|
  {
    Cornerstone(w'.leaves[r], w.L) && KeySet(w'.leaves[r]) == Survivors(w, r)
  }

  lemma SurvivesIff(w: World, w': World, r: nat, k: nat)
    requires WorldIsReady(w) && IsSynced(w, w') && r < |w.leaves|
    ensures k in w'.leaves[r] <==> k in w.leaves[r] && !Dropped(w, r, k)
  {
    assert RankIsSynced(w, w', r);
    assert k in w'.leaves[r] <==> k in KeySet(w'.leaves[r]);
  }

  /** In the range of a peer, the keys that survive are those that the peer has. */
  lemma SurvivorsInRange(w: World, w': World, r: nat, o: nat, k: nat)
    requires WorldIsReady(w) && IsSynced(w, w') && r < |w.leaves| && o in w.peers[r]
    requires o + 1 < |w.bounds| && InRangeOf(w, o, k)
    ensures o < |w.leaves| && (k in w'.leaves[r] <==> k in w.leaves[r] && k in w.leaves[o])
  {
    PeerIsOther(w, r, o);
    SurvivesIff(w, w', r, k);
    forall p: nat | p in w.peers[r] && p != o ensures !LacksOwn(w, p, k) {
      PeerIsOther(w, r, p);
      if InRangeOf(w, p, k) { SharedBoundary(w, o, p, k); }
    }
    if k !in w.leaves[o] { assert LacksOwn(w, o, k); }
  }

  /** A rank keeps all its keys in its own range. */
  lemma OwnKeysSurvive(w: World, w': World, o: nat, k: nat)
    requires WorldIsReady(w) && IsSynced(w, w') && o < |w.leaves| && InRangeOf(w, o, k)
    ensures k in w.leaves[o] <==> k in w'.leaves[o]
  {
    SurvivesIff(w, w', o, k);
    forall p: nat | p in w.peers[o] ensures !LacksOwn(w, p, k) {
      PeerIsOther(w, o, p);
      if InRangeOf(w, p, k) { SharedBoundary(w, o, p, k); }
    }
  }

  /** The treelet that the owner has pruned is the part of the requester's new leaves in the range of
      the owner. */
  lemma TreeletsAgree(w: World, w': World, r: nat, o: nat)
    requires WorldIsReady(w) && IsSynced(w, w') && r < |w.leaves| && o in w.peers[r]
    ensures o < |w.leaves| && |w.leaves[o]| > 0 && PrunedBy(w, r, o) == Sent(w', r, o)
  {
    PrunedByAre(w, r, o);
    SentAfterSync(w, w', r, o);
    forall k: nat ensures k in Sent(w', r, o) <==> k in PrunedBy(w, r, o) {
      if InRangeOf(w, o, k) { SurvivorsInRange(w, w', r, o, k); }
    }
    SameKeysSameArray(Sent(w', r, o), PrunedBy(w, r, o));
  }

  /** The owner still has every key of the agreed treelet. */
  lemma AgreedKeyIsShared(w: World, w': World, r: nat, o: nat, k: nat)
    requires WorldIsReady(w) && IsSynced(w, w') && r < |w.leaves| && o in w.peers[r]
    requires o + 1 < |w.bounds| && k in Sent(w', r, o)
    ensures o < |w.leaves| && k in w'.leaves[o]
  {
    SentAfterSync(w, w', r, o);
    SurvivorsInRange(w, w', r, o, k);
    OwnKeysSurvive(w, w', o, k);
  }

  /** After the agreement every rank still has the ends of its own range, as before the update. */
  lemma SyncedRankIsReady(w: World, w': World, r: nat)
    requires WorldIsReady(w) && IsSynced(w, w') && r < |w.leaves|
    ensures RankIsReady(w', r)
  {
    assert RankIsReady(w, r) && RankIsSynced(w, w', r);
    assert w.bounds[r] <= w.bounds[r + 1];
    OwnKeysSurvive(w, w', r, w.bounds[r]);
    OwnKeysSurvive(w, w', r, w.bounds[r + 1]);
  }

  lemma SameKeysSameArray(a: seq<nat>, b: seq<nat>)
    requires Ascending(a) && Ascending(b) && forall k: nat :: k in a <==> k in b
    ensures a == b
  {
    assert KeySet(a) == KeySet(b);
    AscendingUnique(a, b);
  }

  lemma SomeKeySurvives(w: World, w': World, r: nat, o: nat)
    requires WorldIsReady(w) && IsSynced(w, w') && r < |w.leaves| && o in w.peers[r]
    ensures o + 1 < |w.bounds| && Meets(w'.leaves[r], w.bounds[o], w.bounds[o + 1])
  {
    PeersMeet(w, r, o);
    var last := LastKeyIsShared(w, r, o);
    SurvivorsInRange(w, w', r, o, last);
    KeyMeets(w'.leaves[r], last, w.bounds[o], w.bounds[o + 1]);
  }

  lemma KeyMeets(leaves: seq<nat>, k: nat, lo: nat, hi: nat)
    requires k in leaves && InRange(k, lo, hi)
    ensures Meets(leaves, lo, hi)
  {
    var i: nat :| i < |leaves| && leaves[i] == k;
    assert InRange(leaves[i], lo, hi);
  }

  /** The part of the requester's new leaves in the range of the owner, key by key. */
  lemma SentAfterSync(w: World, w': World, r: nat, o: nat)
    requires WorldIsReady(w) && IsSynced(w, w') && r < |w.leaves| && o in w.peers[r]
    ensures o < |w.leaves| && Cornerstone(w'.leaves[r], w.L) && Cornerstone(w'.leaves[o], w.L)
    ensures Sent(w', r, o) != [] && Ascending(Sent(w', r, o))
    ensures forall k: nat :: k in Sent(w', r, o) <==> k in w'.leaves[r] && InRangeOf(w, o, k)
  {
    PeersMeet(w, r, o);
    SomeKeySurvives(w, w', r, o);
    assert RankIsSynced(w, w', r) && RankIsSynced(w, w', o);
    TreeletIs(w'.leaves[r], w.bounds[o], w.bounds[o + 1], w.L);
  }

  /** Neighbouring keys of a treelet delimit a node of the octree. */
  ghost predicate IsNodeCell(leaves: seq<nat>, treelet: seq<nat>, i: nat, L: nat)
    requires i + 1 < |treelet|
  {
    var h := Log8(if treelet[i] < treelet[i + 1] then treelet[i + 1] - treelet[i] else 0);
    && treelet[i] < treelet[i + 1] && treelet[i + 1] - treelet[i] == Pow8(h)
    && NodeIn(leaves, treelet[i], h, L)
  }

  /** Every cell of the agreed treelet is a leaf of the requester and a node of the owner's octree. */
  lemma TreeletCellsAreNodes(w: World, w': World, r: nat, o: nat, i: nat)
    requires WorldIsReady(w) && IsSynced(w, w') && r < |w.leaves| && o in w.peers[r]
    requires o + 1 < |w.bounds| && i + 1 < |Sent(w', r, o)|
    ensures o < |w.leaves| && IsNodeCell(w'.leaves[o], Sent(w', r, o), i, w.L)
  {
    SentAfterSync(w, w', r, o);
    var m := NeighboursInTreelet(w'.leaves[r], w.bounds[o], w.bounds[o + 1], i);
    AgreedKeyIsShared(w, w', r, o, Sent(w', r, o)[i]);
    AgreedKeyIsShared(w, w', r, o, Sent(w', r, o)[i + 1]);
    LeafCellIn(w'.leaves[r], m, w'.leaves[o], w.L);
  }

  lemma NeighboursInTreelet(a: seq<nat>, lo: nat, hi: nat, i: nat) returns (m: nat)
    requires i + 1 < |Treelet(a, lo, hi)|
    ensures m == LeafRange(a, lo, hi).0 + i
    ensures m + 1 < |a| && Treelet(a, lo, hi)[i] == a[m] && Treelet(a, lo, hi)[i + 1] == a[m + 1]
  {
    m := LeafRange(a, lo, hi).0 + i;
  }

  /** A leaf of one octree whose ends are keys of another is a node of the other. */
  lemma LeafCellIn(a: seq<nat>, m: nat, other: seq<nat>, L: nat)
    requires Cornerstone(a, L) && Cornerstone(other, L) && m + 1 < |a|
    requires a[m] in other && a[m + 1] in other
    ensures a[m] < a[m + 1] && a[m + 1] - a[m] == Pow8(Log8(a[m + 1] - a[m]))
    ensures NodeIn(other, a[m], Log8(a[m + 1] - a[m]), L)
  {
    assert CellAt(a, m);
    LeafUpdate.LevelInRange(a, m, L);
    assert a[m] < a[|a| - 1];
  }

  // ------------------------------------------------------------- node indices

  lemma LevelsAscend(prefixes: seq<nat>, levelRange: seq<nat>, l: nat, L: nat)
    requires Ascending(prefixes) && IsLevelRange(prefixes, levelRange, L) && l <= L
    ensures levelRange[l] <= levelRange[l + 1] <= |prefixes| && levelRange[L + 1] == |prefixes|
  {
    assert IsLevelStart(prefixes, levelRange, l) && IsLevelStart(prefixes, levelRange, l + 1);
    assert IsLevelStart(prefixes, levelRange, L + 1);
    if l + 1 <= L { CountIsDistance(prefixes, Pow8(l), Pow8(l + 1)); }
  }

  /** `locateNode`: binary search for the cell from startKey to endKey among the nodes of its level. */
  method LocateNode(startKey: nat, endKey: nat, prefixes: seq<nat>, levelRange: seq<nat>, L: nat) returns (index: nat)
    requires Ascending(prefixes) && IsLevelRange(prefixes, levelRange, L) && LevelsDelimited(prefixes, levelRange, L)
    requires startKey < endKey && endKey - startKey == Pow8(Log8(endKey - startKey)) && Log8(endKey - startKey) <= L
    requires startKey < Pow8(L)
    ensures var code := Code(startKey, Log8(endKey - startKey), L);
            if code in prefixes then index < |prefixes| && prefixes[index] == code else index == |prefixes|
  {
    LevelsAscend(prefixes, levelRange, L - Log8(endKey - startKey), L);
    var numNodes := levelRange[L + 1];
    var level := L - Log8(endKey - startKey);
    var nodeKey := EncodePlaceholderBit(startKey, level, L);
    var lo, hi := levelRange[level], levelRange[level + 1];
    var it := lo + LowerBound(prefixes[lo..hi], nodeKey);
    if it != numNodes && prefixes[it] == nodeKey { index := it; } else { index := numNodes; }
    if nodeKey in prefixes {
      ghost var p: nat :| p < |prefixes| && prefixes[p] == nodeKey;
      CodeLevel(startKey, Log8(endKey - startKey), L);
      assert NodeOnLevel(prefixes, levelRange, level, p);
      LowerBoundIs(prefixes[lo..hi], nodeKey, p - lo);
    }
  }

  /** The index of the node of every treelet cell, as `indexTreelets` computes it for the owner. */
  ghost predicate IsNodeIndex(prefixes: seq<nat>, treelet: seq<nat>, i: nat, index: nat, L: nat)
    requires i + 1 < |treelet|
  {
    && treelet[i] < treelet[i + 1] && index < |prefixes|
    && prefixes[index] == Code(treelet[i], Log8(treelet[i + 1] - treelet[i]), L)
  }

  /** Index the cells of a treelet; all look-ups succeed if the cells are nodes. */
  method IndexTreelet(treelet: seq<nat>, prefixes: seq<nat>, levelRange: seq<nat>, L: nat, ghost leaves: seq<nat>)
    returns (indices: seq<nat>)
    requires Ascending(prefixes) && IsLevelRange(prefixes, levelRange, L) && LevelsDelimited(prefixes, levelRange, L)
    requires NodesListed(leaves, prefixes, L) && treelet != []
    requires forall i: nat :: i + 1 < |treelet| ==> IsNodeCell(leaves, treelet, i, L)
    ensures |indices| == |treelet| - 1
    ensures forall i: nat :: i < |indices| ==> IsNodeIndex(prefixes, treelet, i, indices[i], L)
  {
    indices := [];
    for i := 0 to |treelet| - 1
      invariant |indices| == i
      invariant forall k: nat :: k < i ==> IsNodeIndex(prefixes, treelet, k, indices[k], L)
    {
      assert IsNodeCell(leaves, treelet, i, L);
      var index := LocateNode(treelet[i], treelet[i + 1], prefixes, levelRange, L);
      indices := indices + [index];
    }
  }

  /** What the owner keeps of the treelet of any requester can be indexed. */
  lemma PrunedTreeletIsIndexable(w: World, w': World, r: nat, o: nat)
    requires WorldIsReady(w) && IsSynced(w, w') && r < |w.leaves| && o in w.peers[r]
    ensures o < |w.leaves| && |w.leaves[o]| > 0 && PrunedBy(w, r, o) != []
    ensures forall i: nat :: i + 1 < |PrunedBy(w, r, o)| ==> IsNodeCell(w'.leaves[o], PrunedBy(w, r, o), i, w.L)
  {
    TreeletsAgree(w, w', r, o);
    SentAfterSync(w, w', r, o);
    forall i: nat | i + 1 < |PrunedBy(w, r, o)| ensures IsNodeCell(w'.leaves[o], PrunedBy(w, r, o), i, w.L) {
      TreeletCellsAreNodes(w, w', r, o, i);
    }
  }
}
