/** Halo exchange of all ranks. On agreed octrees with exact counts, every halo cell of every rank ends with the
    particles that its owner has in the cell, in any order of delivery. */
module HaloAgreement {
  import opened CornerstoneArray
  import opened Counts
  import opened Upsweep
  import opened Ranges
  import opened Treelets
  import opened TreeletAgreement
  import opened UpdateCounts
  import opened HaloRequests
  import opened HaloExchange
  import ParticleExchange
  // ------------------------------------------------------------- layouts

  /** For every rank: its leaves, their counts, which of them are halos, and the layout of its particles. */
  datatype Layouts = Layouts(w: World, counts: seq<seq<nat>>, halos: seq<seq<bool>>, layouts: seq<seq<nat>>)

  function TreeOf(h: Layouts, r: nat): (t: Tree)
    requires r < |h.w.leaves| == |h.layouts|
  {
    Tree(h.w.leaves[r], h.layouts[r])
  }

  /** The leaves of rank r in the range of rank q. */
  function LeavesAt(h: Layouts, r: nat, q: nat): (range: Range)
    requires r < |h.w.leaves|
    ensures range.start <= range.end
  {
    LeavesOf(h.w.leaves[r], h.w.bounds, q)
  }

  /** What `computeNodeLayout` says: own leaves and halos have room for their particles, others have none. */
  ghost predicate IsLaidOut(layout: seq<nat>, counts: seq<nat>, own: Range, halos: seq<bool>) {
    && |layout| == |counts| + 1 == |halos| + 1 && layout[0] == 0
    && forall j: nat :: j < |counts| ==> IsNextOffset(layout, counts, own, halos, j)
  }

  ghost predicate IsNextOffset(layout: seq<nat>, counts: seq<nat>, own: Range, halos: seq<bool>, j: nat)
    requires j < |counts| == |halos| && j + 1 < |layout|
  {
    layout[j + 1] == layout[j] + if IsIn(j, own) || halos[j] then counts[j] else 0
  }

  lemma {:induction false} LayoutAscends(layout: seq<nat>, counts: seq<nat>, own: Range, halos: seq<bool>, i: nat,
                                         j: nat)
    requires IsLaidOut(layout, counts, own, halos) && i <= j < |layout|
    ensures layout[i] <= layout[j]
    decreases j
  {
    if i < j {
      LayoutAscends(layout, counts, own, halos, i, j - 1);
      assert IsNextOffset(layout, counts, own, halos, j - 1);
    }
  }

  /** Halo j of rank r lies in the range of a peer. */
  ghost predicate IsAtPeer(w: World, r: nat, j: nat)
    requires r < |w.leaves| == |w.peers|
  {
    exists o: nat :: o in w.peers[r] && IsLeafOf(w.leaves[r], w.bounds, o, j)
  }

  /** Rank r can exchange halos: exact counts, a layout, and halos where it has peers. */
  ghost predicate IsHaloRank(h: Layouts, r: nat, all: seq<nat>)
    requires r < |h.w.leaves| == |h.w.peers| == |h.counts| == |h.halos| == |h.layouts|
  {
    && AreCounts(h.w.leaves[r], h.counts[r], all, UNSIGNED_MAX)
    && IsLaidOut(h.layouts[r], h.counts[r], LeavesAt(h, r, r), h.halos[r])
    && forall j: nat :: j < |h.halos[r]| && h.halos[r][j] && !IsIn(j, LeavesAt(h, r, r)) ==> IsAtPeer(h.w, r, j)
  }

  /** The ranks have agreed on their cells, and each one can exchange halos. */
  ghost predicate AreHaloRanks(w: World, h: Layouts, all: seq<nat>) {
    && WorldIsReady(w) && IsSynced(w, h.w) && UpdateCounts.AreBounds(w.bounds, w.L) && |all| <= UNSIGNED_MAX
    && |h.counts| == |h.halos| == |h.layouts| == |h.w.leaves|
    && forall r: nat :: r < |h.w.leaves| ==> IsHaloRank(h, r, all)
  }

  lemma RankFacts(w: World, h: Layouts, all: seq<nat>, r: nat)
    requires AreHaloRanks(w, h, all) && r < |h.w.leaves|
    ensures Cornerstone(h.w.leaves[r], w.L) && IsTree(TreeOf(h, r))
    ensures |h.counts[r]| + 1 == |h.layouts[r]| == |h.w.leaves[r]|
    ensures AreCounts(h.w.leaves[r], h.counts[r], all, UNSIGNED_MAX)
    ensures forall q: nat :: LeavesAt(h, r, q).end < |h.layouts[r]|
  {
    assert RankIsSynced(w, h.w, r) && IsHaloRank(h, r, all);
    forall i: nat, j: nat | i <= j < |h.layouts[r]| ensures h.layouts[r][i] <= h.layouts[r][j] {
      LayoutAscends(h.layouts[r], h.counts[r], LeavesAt(h, r, r), h.halos[r], i, j);
    }
    forall q: nat ensures LeavesAt(h, r, q).end < |h.layouts[r]| { LeavesOfAre(h.w.leaves[r], w.bounds, q, 0, w.L); }
  }

  // ------------------------------------------------------------- both ranks agree on a halo cell

  /** Leaf j of rank r, which has particles, is in the range of rank q. */
  ghost predicate IsHaloOf(h: Layouts, r: nat, q: nat, j: nat)
    requires r < |h.w.leaves| == |h.layouts|
  {
    r != q && j + 1 < |h.layouts[r]| && IsMarkedAt(h.layouts[r], j) && IsIn(j, LeavesAt(h, r, q))
  }

  /** Particles of the range of another rank are there because of a halo, and the other rank is a peer. */
  lemma HaloIsAtPeer(w: World, h: Layouts, all: seq<nat>, r: nat, q: nat, j: nat)
    requires AreHaloRanks(w, h, all) && r < |h.w.leaves| && IsHaloOf(h, r, q, j)
    ensures q in w.peers[r] && j < |h.counts[r]| && h.layouts[r][j + 1] == h.layouts[r][j] + h.counts[r][j]
    ensures IsLeafOf(h.w.leaves[r], w.bounds, q, j)
  {
    RankFacts(w, h, all, r);
    assert IsHaloRank(h, r, all);
    assert IsNextOffset(h.layouts[r], h.counts[r], LeavesAt(h, r, r), h.halos[r], j);
    LeavesOfAre(h.w.leaves[r], w.bounds, q, j, w.L);
    LeavesOfAre(h.w.leaves[r], w.bounds, r, j, w.L);
    NotInBoth(h.w.leaves[r], w.bounds, q, r, j);
    assert IsAtPeer(h.w, r, j);
    var o: nat :| o in h.w.peers[r] && IsLeafOf(h.w.leaves[r], h.w.bounds, o, j);
    if o != q { NotInBoth(h.w.leaves[r], w.bounds, o, q, j); }
  }

  /** The owner has both ends of the cell. */
  lemma EndsAreShared(w: World, h: Layouts, r: nat, q: nat, j: nat)
    requires WorldIsReady(w) && IsSynced(w, h.w) && r < |h.w.leaves| && q in w.peers[r] && j + 1 < |h.w.leaves[r]|
    requires IsLeafOf(h.w.leaves[r], w.bounds, q, j)
    ensures q < |h.w.leaves| && h.w.leaves[r][j] in h.w.leaves[q] && h.w.leaves[r][j + 1] in h.w.leaves[q]
  {
    SentAfterSync(w, h.w, r, q);
    var a := h.w.leaves[r];
    assert a[j] in a && a[j + 1] in a && a[j] <= a[j + 1];
    AgreedKeyIsShared(w, h.w, r, q, a[j]);
    AgreedKeyIsShared(w, h.w, r, q, a[j + 1]);
  }

  /** The leaves of a rank between two keys of its own range are its own, with all their particles. */
  lemma OwnLeavesHaveRoom(w: World, h: Layouts, all: seq<nat>, q: nat, a: nat, b: nat)
    requires AreHaloRanks(w, h, all) && q < |h.w.leaves| && a <= b < |h.w.leaves[q]| && q + 1 < |w.bounds|
    requires w.bounds[q] <= h.w.leaves[q][a] && h.w.leaves[q][b] <= w.bounds[q + 1]
    ensures forall k: nat :: a <= k < b ==> IsOwnLeaf(TreeOf(h, q), h.counts[q], k)
  {
    RankFacts(w, h, all, q);
    assert IsHaloRank(h, q, all);
    forall k: nat | a <= k < b ensures IsOwnLeaf(TreeOf(h, q), h.counts[q], k) {
      assert h.w.leaves[q][a] <= h.w.leaves[q][k] && h.w.leaves[q][k + 1] <= h.w.leaves[q][b];
      LeavesOfAre(h.w.leaves[q], w.bounds, q, k, w.L);
      assert IsNextOffset(h.layouts[q], h.counts[q], LeavesAt(h, q, q), h.halos[q], k);
    }
  }

  /** In every halo cell, requester and owner expect the same number of particles. */
  lemma HaloCellAgrees(w: World, h: Layouts, all: seq<nat>, r: nat, q: nat, j: nat)
    requires AreHaloRanks(w, h, all) && r < |h.w.leaves| && q < |h.w.leaves| && IsHaloOf(h, r, q, j)
    ensures CellAgrees(TreeOf(h, r), TreeOf(h, q), j)
  {
    RankFacts(w, h, all, r);
    RankFacts(w, h, all, q);
    HaloIsAtPeer(w, h, all, r, q, j);
    EndsAreShared(w, h, r, q, j);
    var lo, hi := h.w.leaves[r][j], h.w.leaves[r][j + 1];
    var a, b := IndicesOfEnds(h.w.leaves[q], lo, hi);
    OwnLeavesHaveRoom(w, h, all, q, a, b);
    ExactCountsAgree(all, TreeOf(h, r), h.counts[r], TreeOf(h, q), h.counts[q], j, a, b);
  }

  lemma IndicesOfEnds(leaves: seq<nat>, lo: nat, hi: nat) returns (a: nat, b: nat)
    requires Ascending(leaves) && lo in leaves && hi in leaves && lo < hi
    ensures a <= b < |leaves| && leaves[a] == lo && leaves[b] == hi
  {
    a :| a < |leaves| && leaves[a] == lo;
    b :| b < |leaves| && leaves[b] == hi;
  }

  lemma HaloCellsAgree(w: World, h: Layouts, all: seq<nat>, r: nat, q: nat)
    requires AreHaloRanks(w, h, all) && r < |h.w.leaves| && q < |h.w.leaves| && r != q
    ensures CellsAgree(TreeOf(h, r), TreeOf(h, q), LeavesAt(h, r, q).start, LeavesAt(h, r, q).end)
  {
    RankFacts(w, h, all, r);
    RankFacts(w, h, all, q);
    var range := LeavesAt(h, r, q);
    forall j: nat | range.start <= j < range.end && IsMarkedAt(h.layouts[r], j)
      ensures CellAgrees(TreeOf(h, r), TreeOf(h, q), j) {
      assert IsHaloOf(h, r, q, j);
      HaloCellAgrees(w, h, all, r, q, j);
    }
  }

  // ------------------------------------------------------------- requests and answers

  /** `haloPeers`: rank r has particles of the range of rank q. */
  predicate IsHaloPeer(h: Layouts, r: nat, q: nat)
    requires r < |h.w.leaves| == |h.layouts|
  {
    var range := LeavesAt(h, r, q);
    q != r && range.end < |h.layouts[r]| && h.layouts[r][range.end] > h.layouts[r][range.start]
  }

  /** What `exchangeRequests` sets for rank q: the range of the buffer for its particles, or nothing. */
  function IncomingOf(h: Layouts, r: nat, q: nat): (range: (nat, nat))
    requires r < |h.w.leaves| == |h.layouts|
  {
    if IsHaloPeer(h, r, q) then (h.layouts[r][LeavesAt(h, r, q).start], h.layouts[r][LeavesAt(h, r, q).end]) else (0, 0)
  }

  function IncomingHalos(h: Layouts, r: nat): (incoming: seq<(nat, nat)>)
    requires r < |h.w.leaves| == |h.layouts|
    ensures |incoming| == |h.w.leaves| && forall q: nat :: q < |incoming| ==> incoming[q] == IncomingOf(h, r, q)
  {
    seq(|h.w.leaves|, (q: nat) => IncomingOf(h, r, q))
  }

  /** Rank q, with these fields, has answered the request of rank r; only halo peers are asked. */
  ghost predicate IsAnswer<T>(h: Layouts, r: nat, q: nat, message: seq<T>, fields: seq<T>)
    requires r < |h.w.leaves| == |h.layouts| && q < |h.w.leaves|
  {
    if IsHaloPeer(h, r, q) then
      exists keys: seq<nat> ::
      IsAnswered(TreeOf(h, r), TreeOf(h, q), LeavesAt(h, r, q).start, LeavesAt(h, r, q).end, keys,
                                          message, fields)
    else message == []
  }

  /** All fields have room for all particles of the layout. */
  ghost predicate AreFields<T>(h: Layouts, fields: seq<seq<T>>) {
    && |fields| == |h.w.leaves| == |h.layouts|
    && forall r: nat :: r < |fields| ==> |h.layouts[r]| > 0 && h.layouts[r][|h.layouts[r]| - 1] <= |fields[r]|
  }

  /** The request of rank r to rank q, and the answer. */
  method RequestAndAnswer<T>(ghost w: World, h: Layouts, r: nat, q: nat, fields: seq<T>, ghost all: seq<nat>)
    returns (message: seq<T>)
    requires AreHaloRanks(w, h, all) && r < |h.w.leaves| && q < |h.w.leaves|
    requires |h.layouts[q]| > 0 && h.layouts[q][|h.layouts[q]| - 1] <= |fields|
    ensures IsAnswer(h, r, q, message, fields)
  {
    message := [];
    if IsHaloPeer(h, r, q) {
      HaloCellsAgree(w, h, all, r, q);
      RankFacts(w, h, all, r);
      RankFacts(w, h, all, q);
      var range := LeavesAt(h, r, q);
      var keys := ExtractMarkedElements(h.w.leaves[r], h.layouts[r], range.start, range.end);
      RequestFits(TreeOf(h, r), TreeOf(h, q), range.start, range.end, keys);
      message := Answer(TreeOf(h, q), keys, fields);
      assert IsAnswered(TreeOf(h, r), TreeOf(h, q), range.start, range.end, keys, message, fields);
    }
  }

  /** The owner collects the requested ranges and packs them. */
  method Answer<T>(o: Tree, keys: seq<nat>, fields: seq<T>) returns (message: seq<T>)
    requires IsTree(o) && AreRequestKeys(o.leaves, keys) && o.leaves != [] && o.layout[|o.layout| - 1] <= |fields|
    ensures IsHaloMessage(message, Requested(o.leaves, o.layout, keys, |keys| / 2), fields)
  {
    var manifest := new IndexRanges();
    AddRequests(o.leaves, o.layout, keys, manifest);
    assert manifest.Indices() == Requested(o.leaves, o.layout, keys, |keys| / 2);
    var buffer := new T[|fields|](i requires 0 <= i < |fields| => fields[i]);
    RequestedInBounds(o, keys, |keys| / 2, |fields|);
    message := PackHalos(manifest, buffer);
  }

  lemma {:induction false} RequestedInBounds(o: Tree, keys: seq<nat>, n: nat, size: nat)
    requires IsTree(o) && AreRequestKeys(o.leaves, keys) && o.leaves != [] && o.layout[|o.layout| - 1] <= size
    requires n <= |keys| / 2
    ensures forall p: nat :: p < |Requested(o.leaves, o.layout, keys, n)| ==>
      Requested(o.leaves, o.layout, keys, n)[p] < size
  {
    if n > 0 {
      RequestedInBounds(o, keys, n - 1, size);
      PlaceInBounds(o, keys[2 * (n - 1) + 1]);
    }
  }

  lemma PlaceInBounds(o: Tree, key: nat)
    requires IsTree(o) && o.leaves != []
    ensures Place(o, key) <= o.layout[|o.layout| - 1]
  {
  }

  // ------------------------------------------------------------- receiving

  /** The leaves of the ranges of two ranks follow each other. */
  lemma RangesFollow(leaves: seq<nat>, bounds: seq<nat>, p: nat, q: nat, L: nat)
    requires Cornerstone(leaves, L) && UpdateCounts.AreBounds(bounds, L) && p < q
    ensures var R, S := LeavesOf(leaves, bounds, p), LeavesOf(leaves, bounds, q);
            R.start == R.end || S.start == S.end || R.end <= S.start
  {
    var R, S := LeavesOf(leaves, bounds, p), LeavesOf(leaves, bounds, q);
    LeavesOfAre(leaves, bounds, p, 0, L);
    LeavesOfAre(leaves, bounds, q, 0, L);
    if R.start < R.end && S.start < S.end {
      LeavesOfAre(leaves, bounds, p, R.end - 1, L);
      LeavesOfAre(leaves, bounds, q, S.start, L);
      assert bounds[p + 1] <= bounds[q];
      OneBeforeOther(leaves, R.end - 1, S.start);
    }
  }

  lemma OneBeforeOther(leaves: seq<nat>, i: nat, j: nat)
    requires Ascending(leaves) && i + 1 < |leaves| && j < |leaves| && leaves[i + 1] <= leaves[j]
    ensures i + 1 <= j
  {
  }

  lemma IncomingSeparate(w: World, h: Layouts, all: seq<nat>, r: nat, p: nat, q: nat)
    requires AreHaloRanks(w, h, all) && r < |h.w.leaves| && p < q < |h.w.leaves|
    ensures AreSeparate(IncomingHalos(h, r), p, q)
  {
    RankFacts(w, h, all, r);
    RangesFollow(h.w.leaves[r], w.bounds, p, q, w.L);
  }

  /** Messages fit into separate ranges of the buffer. */
  lemma MessagesFit<T>(w: World, h: Layouts, all: seq<nat>, fields: seq<seq<T>>, r: nat, messages: seq<seq<T>>)
    requires AreHaloRanks(w, h, all) && AreFields(h, fields) && r < |fields| == |messages|
    requires forall q: nat :: q < |messages| ==> IsAnswer(h, r, q, messages[q], fields[q])
    ensures AreIncoming(IncomingHalos(h, r), messages, |fields[r]|)
  {
    RankFacts(w, h, all, r);
    forall q: nat | q < |messages| ensures IsIncoming(IncomingHalos(h, r), messages, |fields[r]|, q) {
      MessageFits(w, h, all, r, q, messages[q], fields[q]);
      assert h.layouts[r][LeavesAt(h, r, q).end] <= h.layouts[r][|h.layouts[r]| - 1];
    }
    forall p: nat, q: nat | p < q < |messages| ensures AreSeparate(IncomingHalos(h, r), p, q) {
      IncomingSeparate(w, h, all, r, p, q);
    }
  }

  lemma MessageFits<T>(w: World, h: Layouts, all: seq<nat>, r: nat, q: nat, message: seq<T>, fields: seq<T>)
    requires AreHaloRanks(w, h, all) && r < |h.w.leaves| && q < |h.w.leaves| && IsAnswer(h, r, q, message, fields)
    ensures IncomingOf(h, r, q).0 + |message| == IncomingOf(h, r, q).1
  {
    if IsHaloPeer(h, r, q) {
      var s, e := LeavesAt(h, r, q).start, LeavesAt(h, r, q).end;
      var keys: seq<nat> :| IsAnswered(TreeOf(h, r), TreeOf(h, q), s, e, keys, message, fields);
      AnswerFits(TreeOf(h, r), TreeOf(h, q), s, e, keys, message, fields);
    }
  }

  /** Where a rank keeps its own particles, it receives none. */
  lemma OwnPlacesStay(w: World, h: Layouts, all: seq<nat>, q: nat, i: nat)
    requires AreHaloRanks(w, h, all) && q < |h.w.leaves|
    requires var own := LeavesAt(h, q, q);
             own.end < |h.layouts[q]| && h.layouts[q][own.start] <= i < h.layouts[q][own.end]
    ensures !IsHaloPlace(IncomingHalos(h, q), i)
  {
    RankFacts(w, h, all, q);
    var own := LeavesAt(h, q, q);
    forall p: nat | p < |h.w.leaves|
      ensures !ParticleExchange.Within(i, IncomingHalos(h, q)[p].0, IncomingHalos(h, q)[p].1) {
      if p < q { RangesFollow(h.w.leaves[q], w.bounds, p, q, w.L); }
      if q < p { RangesFollow(h.w.leaves[q], w.bounds, q, p, w.L); }
    }
  }

  /** Fields after the exchange of all ranks, every one in its order of arrival. */
  ghost predicate AreExchanged<T>(h: Layouts, before: seq<seq<T>>, after: seq<seq<T>>, messages: seq<seq<seq<T>>>,
                                  orders: seq<seq<nat>>)
  {
    && |before| == |after| == |messages| == |orders| == |h.w.leaves| == |h.layouts|
    && forall r: nat :: r < |after| ==> IsExchangedAt(h, before, after, messages, orders, r)
  }

  ghost predicate IsExchangedAt<T>(h: Layouts, before: seq<seq<T>>, after: seq<seq<T>>, messages: seq<seq<seq<T>>>,
                                   orders: seq<seq<nat>>, r: nat)
    requires r < |before| == |after| == |messages| == |orders| == |h.w.leaves| == |h.layouts|
  {
    && IsArrivalAt(h, before, messages, orders, r)
    && AreHalosAfter(before[r], after[r], IncomingHalos(h, r), messages[r], orders[r], |orders[r]|)
  }

  /** The answers of all ranks to rank r. */
  ghost predicate AreAnswers<T>(h: Layouts, r: nat, messages: seq<seq<T>>, before: seq<seq<T>>)
    requires r < |h.w.leaves| == |h.layouts|
  {
    && |messages| == |before| == |h.w.leaves|
    && forall q: nat :: q < |messages| ==> IsAnswer(h, r, q, messages[q], before[q])
  }

  /** Rank r gets the answers of all ranks, in some order. */
  ghost predicate IsArrivalAt<T>(h: Layouts, before: seq<seq<T>>, messages: seq<seq<seq<T>>>, orders: seq<seq<nat>>,
                                 r: nat)
    requires r < |before| == |messages| == |orders| == |h.w.leaves| == |h.layouts|
  {
    ParticleExchange.IsArrivalOrder(orders[r], messages[r]) && AreAnswers(h, r, messages[r], before)
  }

  /** The requests and answers between all ranks. */
  method AnswerAll<T>(ghost w: World, h: Layouts, fields: seq<seq<T>>, ghost all: seq<nat>)
    returns (messages: seq<seq<seq<T>>>)
    requires AreHaloRanks(w, h, all) && AreFields(h, fields)
    ensures |messages| == |fields|
    ensures forall r: nat :: r < |messages| ==> AreAnswers(h, r, messages[r], fields)
  {
    messages := [];
    for r := 0 to |fields|
      invariant |messages| == r
      invariant forall k: nat :: k < r ==> AreAnswers(h, k, messages[k], fields)
    {
      var answers := [];
      for q := 0 to |fields|
        invariant |answers| == q && forall p: nat :: p < q ==> IsAnswer(h, r, p, answers[p], fields[p])
      {
        RankFacts(w, h, all, q);
        var answer := RequestAndAnswer(w, h, r, q, fields[q], all);
        answers := answers + [answer];
      }
      messages := messages + [answers];
    }
  }

  /** `exchangeHalos` on all ranks. */
  method ExchangeAllHalos<T>(ghost w: World, h: Layouts, fields: seq<seq<T>>, messages: seq<seq<seq<T>>>,
                             orders: seq<seq<nat>>, ghost all: seq<nat>)
    returns (after: seq<seq<T>>)
    requires AreHaloRanks(w, h, all) && AreFields(h, fields) && |messages| == |orders| == |fields|
    requires forall r: nat :: r < |fields| ==> IsArrivalAt(h, fields, messages, orders, r)
    ensures AreExchanged(h, fields, after, messages, orders)
  {
    after := [];
    for r := 0 to |fields|
      invariant |after| == r
      invariant forall k: nat :: k < r ==>
        AreHalosAfter(fields[k], after[k], IncomingHalos(h, k), messages[k], orders[k], |orders[k]|)
    {
      assert IsArrivalAt(h, fields, messages, orders, r);
      MessagesFit(w, h, all, fields, r, messages[r]);
      var buffer := new T[|fields[r]|](i requires 0 <= i < |fields[r]| => fields[r][i]);
      assert buffer[..] == fields[r];
      ReceiveHalos(IncomingHalos(h, r), buffer, orders[r], messages[r]);
      after := after + [buffer[..]];
    }
  }

  // ------------------------------------------------------------- all halos of all ranks

  /** The cell was delivered from what the owner had before the exchange, and still has after it. */
  lemma OwnerKeepsCell<T>(w: World, h: Layouts, all: seq<nat>, before: seq<seq<T>>, after: seq<seq<T>>,
                          messages: seq<seq<seq<T>>>, orders: seq<seq<nat>>, r: nat, q: nat, j: nat)
    requires AreHaloRanks(w, h, all) && AreExchanged(h, before, after, messages, orders)
    requires r < |after| && q < |after| && IsHaloOf(h, r, q, j) && j + 1 < |h.w.leaves[r]| == |h.layouts[r]|
    requires |h.w.leaves[q]| <= |h.layouts[q]| && IsCellDelivered(TreeOf(h, r), TreeOf(h, q), j, after[r], before[q])
    ensures IsCellDelivered(TreeOf(h, r), TreeOf(h, q), j, after[r], after[q])
  {
    assert IsExchangedAt(h, before, after, messages, orders, q);
    var layout := h.layouts[r];
    forall i: nat ensures IsDeliveredAt(TreeOf(h, r), TreeOf(h, q), j, after[r], after[q], i) {
      assert IsDeliveredAt(TreeOf(h, r), TreeOf(h, q), j, after[r], before[q], i);
      if layout[j] <= i < layout[j + 1] {
        CellIsOwn(w, h, all, r, q, j, i - layout[j]);
      }
    }
  }

  /** The owner's particles of a halo cell are among its own, so that the exchange keeps them. */
  lemma CellIsOwn(w: World, h: Layouts, all: seq<nat>, r: nat, q: nat, j: nat, d: nat)
    requires AreHaloRanks(w, h, all) && r < |h.w.leaves| && q < |h.w.leaves| && IsHaloOf(h, r, q, j)
    requires |h.w.leaves[q]| <= |h.layouts[q]| && j + 1 < |h.w.leaves[r]| && d < h.layouts[r][j + 1] - h.layouts[r][j]
    ensures !IsHaloPlace(IncomingHalos(h, q), Place(TreeOf(h, q), h.w.leaves[r][j]) + d)
  {
    RankFacts(w, h, all, r);
    RankFacts(w, h, all, q);
    HaloIsAtPeer(w, h, all, r, q, j);
    EndsAreShared(w, h, r, q, j);
    HaloCellAgrees(w, h, all, r, q, j);
    var lo, hi := h.w.leaves[r][j], h.w.leaves[r][j + 1];
    var a, b := IndicesOfEnds(h.w.leaves[q], lo, hi);
    LowerBoundIs(h.w.leaves[q], lo, a);
    LowerBoundIs(h.w.leaves[q], hi, b);
    OwnLeafBetween(w, h, q, a, b);
    OwnPlacesStay(w, h, all, q, Place(TreeOf(h, q), lo) + d);
  }

  lemma OwnLeafBetween(w: World, h: Layouts, q: nat, a: nat, b: nat)
    requires q < |h.w.leaves| && Cornerstone(h.w.leaves[q], w.L) && UpdateCounts.AreBounds(w.bounds, w.L)
    requires h.w.bounds == w.bounds
    requires a < b < |h.w.leaves[q]| && q + 1 < |w.bounds|
    requires w.bounds[q] <= h.w.leaves[q][a] && h.w.leaves[q][b] <= w.bounds[q + 1]
    ensures LeavesAt(h, q, q).start <= a && b <= LeavesAt(h, q, q).end
  {
    var leaves := h.w.leaves[q];
    assert leaves[a + 1] <= leaves[b] && leaves[a] <= leaves[b - 1];
    LeavesOfAre(leaves, w.bounds, q, a, w.L);
    LeavesOfAre(leaves, w.bounds, q, b - 1, w.L);
  }

  /** After the exchange of all ranks, in any order of delivery, every leaf of every rank with particles of another
      rank holds exactly the particles that its owner has in the cell, in the same order; nothing else has changed. */
  lemma AllHalosDelivered<T>(w: World, h: Layouts, all: seq<nat>, before: seq<seq<T>>, after: seq<seq<T>>,
                             messages: seq<seq<seq<T>>>, orders: seq<seq<nat>>, r: nat, q: nat, j: nat)
    requires AreHaloRanks(w, h, all) && AreExchanged(h, before, after, messages, orders)
    requires r < |after| && q < |after| && IsHaloOf(h, r, q, j)
    ensures j + 1 < |h.w.leaves[r]| == |h.layouts[r]| && |h.w.leaves[q]| <= |h.layouts[q]|
    ensures IsCellDelivered(TreeOf(h, r), TreeOf(h, q), j, after[r], after[q])
    ensures |after[r]| == |before[r]|
    ensures forall i: nat :: i < |after[r]| && !IsHaloPlace(IncomingHalos(h, r), i) ==> after[r][i] == before[r][i]
  {
    RankFacts(w, h, all, r);
    RankFacts(w, h, all, q);
    assert IsExchangedAt(h, before, after, messages, orders, r);
    var s, e := LeavesAt(h, r, q).start, LeavesAt(h, r, q).end;
    assert h.layouts[r][s] <= h.layouts[r][j] < h.layouts[r][j + 1] <= h.layouts[r][e];
    assert IsHaloPeer(h, r, q) && IsAnswer(h, r, q, messages[r][q], before[q]);
    var keys: seq<nat> :| IsAnswered(TreeOf(h, r), TreeOf(h, q), s, e, keys, messages[r][q], before[q]);
    HalosDelivered(TreeOf(h, r), TreeOf(h, q), s, e, keys, j, q, before[r], after[r], before[q], IncomingHalos(h, r),
                   messages[r], orders[r]);
    OwnerKeepsCell(w, h, all, before, after, messages, orders, r, q, j);
  }
}
