/** Delivery of halo particles: every halo cell receives the particles that its owner has in the cell. */
module HaloExchange {
  import opened CornerstoneArray
  import opened Counts
  import opened ExactCounts
  import opened Upsweep
  import opened ParticleExchange
  import opened HaloRequests
  import ExchangeRuns

  // ------------------------------------------------------------- answering a request

  /** Where the owner's particles from a key on start. */
  function PlaceOf(leaves: seq<nat>, layout: seq<nat>, key: nat): (i: nat)
    requires |leaves| <= |layout|
  {
    var k := LowerBound(leaves, key);
    if k < |leaves| then layout[k] else 0
  }

  /** The owner's indices for the first n pairs of request keys. */
  ghost function Requested(leaves: seq<nat>, layout: seq<nat>, keys: seq<nat>, n: nat): (indices: seq<nat>)
    requires |leaves| <= |layout| && 2 * n <= |keys|
  {
    if n == 0 then [] else
      Requested(leaves, layout, keys, n - 1) + RequestedBy(leaves, layout, keys, n - 1)
  }

  /** The indices for pair k. */
  ghost function RequestedBy(leaves: seq<nat>, layout: seq<nat>, keys: seq<nat>, k: nat): (indices: seq<nat>)
    requires |leaves| <= |layout| && 2 * k + 1 < |keys|
  {
    Interval(PlaceOf(leaves, layout, keys[2 * k]), PlaceOf(leaves, layout, keys[2 * k + 1]))
  }

  ghost predicate AreRequestKeys(leaves: seq<nat>, keys: seq<nat>) {
    forall k: nat :: k < |keys| / 2 ==> IsRequestPair(leaves, keys, k)
  }

  ghost predicate IsRequestPair(leaves: seq<nat>, keys: seq<nat>, k: nat)
    requires k < |keys| / 2
  {
    keys[2 * k] in leaves && keys[2 * k + 1] in leaves && keys[2 * k] <= keys[2 * k + 1]
  }

  lemma PlacesAscend(leaves: seq<nat>, layout: seq<nat>, a: nat, b: nat)
    requires Ascending(leaves) && |leaves| == |layout| && IsLayout(layout) && a in leaves && b in leaves && a <= b
    ensures PlaceOf(leaves, layout, a) <= PlaceOf(leaves, layout, b)
  {
    var i: nat :| i < |leaves| && leaves[i] == a;
    var j: nat :| j < |leaves| && leaves[j] == b;
    LowerBoundIs(leaves, a, i);
    LowerBoundIs(leaves, b, j);
    assert i <= j;
  }

  /** One message of `exchangeRequestKeys`: add the requested ranges for the requesting rank. */
  method AddRequests(leaves: seq<nat>, layout: seq<nat>, keys: seq<nat>, manifest: IndexRanges)
    requires Ascending(leaves) && |leaves| == |layout| && IsLayout(layout) && AreRequestKeys(leaves, keys)
    requires manifest.Valid()
    modifies manifest
    ensures manifest.Valid()
    ensures manifest.Indices() == old(manifest.Indices()) + Requested(leaves, layout, keys, |keys| / 2)
  {
    ghost var before := manifest.Indices();
    for i := 0 to |keys| / 2
      invariant manifest.Valid() && manifest.Indices() == before + Requested(leaves, layout, keys, i)
    {
      assert IsRequestPair(leaves, keys, i);
      AddRequest(leaves, layout, keys[2 * i], keys[2 * i + 1], manifest);
      JoinRequest(leaves, layout, keys, before, i);
    }
  }

  method AddRequest(leaves: seq<nat>, layout: seq<nat>, lowerKey: nat, upperKey: nat, manifest: IndexRanges)
    requires Ascending(leaves) && |leaves| == |layout| && IsLayout(layout)
    requires lowerKey in leaves && upperKey in leaves && lowerKey <= upperKey && manifest.Valid()
    modifies manifest
    ensures manifest.Valid()
    ensures manifest.Indices() ==
            old(manifest.Indices()) + Interval(PlaceOf(leaves, layout, lowerKey), PlaceOf(leaves, layout, upperKey))
  {
    PlacesAscend(leaves, layout, lowerKey, upperKey);
    var lowerIdx, upperIdx := PlaceOf(leaves, layout, lowerKey), PlaceOf(leaves, layout, upperKey);
    manifest.AddRange(lowerIdx, upperIdx);
  }

  lemma JoinRequest(leaves: seq<nat>, layout: seq<nat>, keys: seq<nat>, before: seq<nat>, i: nat)
    requires |leaves| <= |layout| && 2 * i + 1 < |keys|
    ensures before + Requested(leaves, layout, keys, i + 1) ==
            before + Requested(leaves, layout, keys, i) + RequestedBy(leaves, layout, keys, i)
  {
  }

  /** Pack the outgoing ranges of a field, range by range. */
  method PackHalos<T>(manifest: IndexRanges, fields: array<T>) returns (message: seq<T>)
    requires manifest.Valid() && forall p: nat :: p < |manifest.Indices()| ==> manifest.Indices()[p] < fields.Length
    ensures |message| == manifest.totalCount
    ensures forall p: nat :: p < |message| ==> message[p] == fields[manifest.Indices()[p]]
  {
    message := [];
    for i := 0 to |manifest.offsets|
      invariant manifest.scan[i] <= manifest.totalCount && |message| == manifest.scan[i]
      invariant IndicesOf(manifest.offsets, manifest.scan, i) <= manifest.Indices()
      invariant |IndicesOf(manifest.offsets, manifest.scan, i)| == |message|
      invariant forall p: nat :: p < |message| ==> message[p] == fields[manifest.Indices()[p]]
    {
      var first, count := manifest.RangeStart(i), manifest.Count(i);
      NextRange(manifest, i, fields);
      message := message + fields[first..first + count];
    }
  }

  lemma NextRange<T>(manifest: IndexRanges, i: nat, fields: array<T>)
    requires manifest.Valid() && i < |manifest.offsets|
    requires forall p: nat :: p < |manifest.Indices()| ==> manifest.Indices()[p] < fields.Length
    ensures var front := IndicesOf(manifest.offsets, manifest.scan, i);
            var next := IndicesOf(manifest.offsets, manifest.scan, i + 1);
            && next <= manifest.Indices() && |next| == |front| + manifest.Count(i) && |next| <= manifest.totalCount
            && manifest.RangeStart(i) + manifest.Count(i) <= fields.Length
            && forall p: nat :: |front| <= p < |next| ==>
                 manifest.Indices()[p] == manifest.RangeStart(i) + (p - |front|)
  {
    PrefixOfIndices(manifest.offsets, manifest.scan, i + 1, |manifest.offsets|);
    var front := IndicesOf(manifest.offsets, manifest.scan, i);
    var next := IndicesOf(manifest.offsets, manifest.scan, i + 1);
    assert next[|front| + manifest.Count(i) - 1] == manifest.RangeStart(i) + manifest.Count(i) - 1;
  }

  lemma {:induction false} PrefixOfIndices(offsets: seq<nat>, scan: seq<nat>, m: nat, n: nat)
    requires m <= n <= |offsets| && |scan| == |offsets| + 1
    ensures IndicesOf(offsets, scan, m) <= IndicesOf(offsets, scan, n)
    decreases n
  {
    if m < n { PrefixOfIndices(offsets, scan, m, n - 1); }
  }

  // ------------------------------------------------------------- what a request is for

  /** Leaves and layout of a rank. */
  datatype Tree = Tree(leaves: seq<nat>, layout: seq<nat>)

  ghost predicate IsTree(t: Tree) {
    Ascending(t.leaves) && |t.leaves| == |t.layout| && IsLayout(t.layout)
  }

  function Place(t: Tree, key: nat): (i: nat)
    requires |t.leaves| <= |t.layout|
  {
    PlaceOf(t.leaves, t.layout, key)
  }

  /** Number of particles that a rank has or expects in leaf j. */
  function CellSize(t: Tree, j: nat): (n: int)
    requires j + 1 < |t.layout|
  {
    (t.layout[j + 1] as int) - t.layout[j]
  }

  /** The owner has the ends of the halo cell as leaf boundaries, and as many particles as expected. */
  ghost predicate CellAgrees(r: Tree, o: Tree, j: nat) {
    && j + 1 < |r.leaves| == |r.layout| && |o.leaves| == |o.layout| && r.leaves[j] in o.leaves
    && r.leaves[j + 1] in o.leaves
    && Place(o, r.leaves[j + 1]) == Place(o, r.leaves[j]) + CellSize(r, j)
  }

  ghost predicate CellsAgree(r: Tree, o: Tree, s: nat, e: nat) {
    && IsTree(r) && IsTree(o) && s <= e < |r.leaves|
    && forall j: nat :: s <= j < e && IsMarkedAt(r.layout, j) ==> CellAgrees(r, o, j)
  }

  lemma {:induction false} FlatLayout(layout: seq<nat>, a: nat, b: nat)
    requires IsLayout(layout) && a <= b && NoneMarked(layout, a, b)
    ensures layout[a] == layout[b]
    decreases b
  {
    if a < b {
      FlatLayout(layout, a, b - 1);
      assert !IsMarkedAt(layout, b - 1) && layout[b - 1] <= layout[b];
    }
  }

  /** In a run of halo cells, the owner's particles are contiguous. */
  lemma {:induction false} RunIsContiguous(r: Tree, o: Tree, s: nat, e: nat, a: nat, j: nat)
    requires CellsAgree(r, o, s, e) && s <= a <= j <= e && AllMarked(r.layout, a, j)
    ensures Place(o, r.leaves[j]) + r.layout[a] == Place(o, r.leaves[a]) + r.layout[j]
    decreases j
  {
    if a < j {
      RunIsContiguous(r, o, s, e, a, j - 1);
      assert IsMarkedAt(r.layout, j - 1) && CellAgrees(r, o, j - 1);
    }
  }

  /** Where the indices of the owner's particles of leaf j are in the list. */
  ghost predicate IsCellWanted(indices: seq<nat>, r: Tree, o: Tree, s: nat, j: nat) {
    && s <= j && j + 1 < |r.layout| == |r.leaves| && IsLayout(r.layout) && |o.leaves| <= |o.layout|
    && r.layout[j + 1] <= r.layout[s] + |indices|
    && forall p: nat :: r.layout[j] <= r.layout[s] + p < r.layout[j + 1] ==>
         indices[p] == Place(o, r.leaves[j]) + (r.layout[s] + p - r.layout[j])
  }

  /** The list has the owner's particles of all leaves from s to i, in order. */
  ghost predicate AreCellsWanted(indices: seq<nat>, r: Tree, o: Tree, s: nat, i: nat) {
    && s <= i < |r.layout| && |indices| + r.layout[s] == r.layout[i]
    && forall j: nat :: s <= j < i && j + 1 < |r.layout| && IsMarkedAt(r.layout, j) ==>
         IsCellWanted(indices, r, o, s, j)
  }

  lemma WantedOneRun(indices: seq<nat>, r: Tree, o: Tree, s: nat, e: nat, a: nat, b: nat, i: nat)
    requires CellsAgree(r, o, s, e) && s <= a < b <= i <= e
    requires AllMarked(r.layout, a, b) && NoneMarked(r.layout, b, i) && AreCellsWanted(indices, r, o, s, a)
    ensures AreCellsWanted(indices + Interval(Place(o, r.leaves[a]), Place(o, r.leaves[b])), r, o, s, i)
  {
    var more := indices + Interval(Place(o, r.leaves[a]), Place(o, r.leaves[b]));
    FlatLayout(r.layout, b, i);
    RunIsContiguous(r, o, s, e, a, b);
    assert r.layout[a] <= r.layout[b];
    forall j: nat | s <= j < i && j + 1 < |r.layout| && IsMarkedAt(r.layout, j) ensures IsCellWanted(more, r, o, s, j) {
      if j < a {
        assert IsCellWanted(indices, r, o, s, j);
      } else {
        RunIsContiguous(r, o, s, e, a, j);
        assert r.layout[s] <= r.layout[a] <= r.layout[j] <= r.layout[j + 1] <= r.layout[b];
      }
    }
  }

  lemma RequestedOneRun(r: Tree, o: Tree, cuts: seq<(nat, nat)>, n: nat, keys: seq<nat>)
    requires 0 < n <= |cuts| && AreKeysAt(keys, r.leaves, cuts) && |o.leaves| <= |o.layout|
    ensures cuts[n - 1].0 < |r.leaves| && cuts[n - 1].1 < |r.leaves|
    ensures Requested(o.leaves, o.layout, keys, n) == Requested(o.leaves, o.layout, keys, n - 1) +
            Interval(Place(o, r.leaves[cuts[n - 1].0]), Place(o, r.leaves[cuts[n - 1].1]))
  {
    RequestedByRun(r, o, cuts, n - 1, keys);
  }

  lemma RequestedByRun(r: Tree, o: Tree, cuts: seq<(nat, nat)>, k: nat, keys: seq<nat>)
    requires k < |cuts| && AreKeysAt(keys, r.leaves, cuts) && |o.leaves| <= |o.layout|
    ensures cuts[k].0 < |r.leaves| && cuts[k].1 < |r.leaves|
    ensures RequestedBy(o.leaves, o.layout, keys, k) == Interval(Place(o, r.leaves[cuts[k].0]),
                                                                 Place(o, r.leaves[cuts[k].1]))
  {
    assert IsKeyPairAt(keys, r.leaves, cuts, k);
  }

  /** The answer to a request has the owner's particles of all halo cells, in order. */
  lemma {:induction false} RequestedAreWanted(r: Tree, o: Tree, s: nat, e: nat, i: nat, cuts: seq<(nat, nat)>, n: nat,
                                              keys: seq<nat>)
    requires CellsAgree(r, o, s, e) && i <= e && n <= |cuts| && AreRuns(cuts, n, r.layout, s, i)
    requires AreKeysAt(keys, r.leaves, cuts)
    ensures AreCellsWanted(Requested(o.leaves, o.layout, keys, n), r, o, s, i)
    decreases n
  {
    if n == 0 {
      FlatLayout(r.layout, s, i);
    } else {
      var (a, b) := cuts[n - 1];
      RequestedAreWanted(r, o, s, e, a, cuts, n - 1, keys);
      RequestedOneRun(r, o, cuts, n, keys);
      WantedOneRun(Requested(o.leaves, o.layout, keys, n - 1), r, o, s, e, a, b, i);
    }
  }

  /** The keys of a request are leaf keys of the owner, pair by pair in ascending order. */
  lemma RequestIsValid(r: Tree, o: Tree, s: nat, e: nat, cuts: seq<(nat, nat)>, keys: seq<nat>)
    requires CellsAgree(r, o, s, e) && AreRuns(cuts, |cuts|, r.layout, s, e) && AreKeysAt(keys, r.leaves, cuts)
    ensures AreRequestKeys(o.leaves, keys)
  {
    forall k: nat | k < |keys| / 2 ensures IsRequestPair(o.leaves, keys, k) {
      assert IsKeyPairAt(keys, r.leaves, cuts, k);
      CutsAreKeys(r, o, s, e, e, cuts, |cuts|, k);
    }
  }

  lemma {:induction false} CutsAreKeys(r: Tree, o: Tree, s: nat, e: nat, i: nat, cuts: seq<(nat, nat)>, n: nat, k: nat)
    requires CellsAgree(r, o, s, e) && i <= e && k < n <= |cuts| && AreRuns(cuts, n, r.layout, s, i)
    ensures cuts[k].0 < cuts[k].1 <= i && r.leaves[cuts[k].0] in o.leaves && r.leaves[cuts[k].1] in o.leaves
    decreases n
  {
    var (a, b) := cuts[n - 1];
    if k < n - 1 {
      CutsAreKeys(r, o, s, e, a, cuts, n - 1, k);
    } else {
      assert IsMarkedAt(r.layout, a) && CellAgrees(r, o, a);
      assert IsMarkedAt(r.layout, b - 1) && CellAgrees(r, o, b - 1);
    }
  }

  /** The message of an owner: the requested indices of a field. */
  ghost predicate IsHaloMessage<T>(message: seq<T>, indices: seq<nat>, fields: seq<T>) {
    |message| == |indices| && forall p: nat :: p < |message| ==>
    indices[p] < |fields| && message[p] == fields[indices[p]]
  }

  /** The particles of halo cell j at the requester are those of the owner in the cell, in order. */
  ghost predicate IsCellDelivered<T>(r: Tree, o: Tree, j: nat, received: seq<T>, owned: seq<T>)
    requires j + 1 < |r.leaves| == |r.layout| && |o.leaves| <= |o.layout|
  {
    forall i: nat :: IsDeliveredAt(r, o, j, received, owned, i)
  }

  ghost predicate IsDeliveredAt<T>(r: Tree, o: Tree, j: nat, received: seq<T>, owned: seq<T>, i: nat)
    requires j + 1 < |r.leaves| == |r.layout| && |o.leaves| <= |o.layout|
  {
    r.layout[j] <= i < r.layout[j + 1] ==> IsCopied(received, i, owned, Place(o, r.leaves[j]) + (i - r.layout[j]))
  }

  ghost predicate IsCopied<T>(received: seq<T>, i: nat, owned: seq<T>, k: nat) {
    i < |received| && k < |owned| && received[i] == owned[k]
  }

  /** A message that is put at the start of the owner's cells delivers every halo cell. */
  lemma CellsDelivered<T>(r: Tree, o: Tree, s: nat, e: nat, j: nat, indices: seq<nat>, message: seq<T>,
                          received: seq<T>, owned: seq<T>)
    requires CellsAgree(r, o, s, e) && AreCellsWanted(indices, r, o, s, e) && IsHaloMessage(message, indices, owned)
    requires IsPlaced(received, r.layout[s], message) && s <= j < e && IsMarkedAt(r.layout, j)
    ensures IsCellDelivered(r, o, j, received, owned)
  {
    assert IsCellWanted(indices, r, o, s, j);
    forall i: nat ensures IsDeliveredAt(r, o, j, received, owned, i) {
      if r.layout[j] <= i < r.layout[j + 1] {
        assert r.layout[s] <= r.layout[j];
        var p := i - r.layout[s];
        assert indices[p] == Place(o, r.leaves[j]) + (r.layout[s] + p - r.layout[j]);
        assert received[r.layout[s] + p] == message[p];
      }
    }
  }

  /** Sizes agree if the counts of both ranks are exact: the owner's leaves between the ends of the cell hold
      what the requester counts in the cell. */
  lemma ExactCountsAgree(all: seq<nat>, r: Tree, countsR: seq<nat>, o: Tree, countsO: seq<nat>, j: nat, a: nat, b: nat)
    requires IsTree(r) && IsTree(o) && |all| <= UNSIGNED_MAX && j + 1 < |r.leaves| && a <= b < |o.leaves|
    requires AreCounts(r.leaves, countsR, all, UNSIGNED_MAX) && AreCounts(o.leaves, countsO, all, UNSIGNED_MAX)
    requires r.leaves[j] == o.leaves[a] && r.leaves[j + 1] == o.leaves[b]
    requires CellSize(r, j) == countsR[j] && forall k: nat :: a <= k < b ==> IsOwnLeaf(o, countsO, k)
    ensures CellAgrees(r, o, j)
  {
    LowerBoundIs(o.leaves, r.leaves[j], a);
    LowerBoundIs(o.leaves, r.leaves[j + 1], b);
    OwnSizes(o, countsO, a, b);
    UncutSums(o.leaves, countsO, all, a, b);
    assert countsR[j] == Min(CountIn(all, r.leaves[j], r.leaves[j + 1]), UNSIGNED_MAX);
  }

  ghost predicate IsOwnLeaf(o: Tree, counts: seq<nat>, k: nat) {
    k + 1 < |o.layout| && k < |counts| && o.layout[k + 1] == o.layout[k] + counts[k]
  }

  lemma {:induction false} OwnSizes(o: Tree, counts: seq<nat>, a: nat, b: nat)
    requires a <= b < |o.layout| && b <= |counts| && forall k: nat :: a <= k < b ==> IsOwnLeaf(o, counts, k)
    ensures o.layout[b] == o.layout[a] + SumBetween(counts, a, b)
    decreases b
  {
    if a < b {
      OwnSizes(o, counts, a, b - 1);
      assert IsOwnLeaf(o, counts, b - 1);
    }
  }

  // ------------------------------------------------------------- receiving

  /** How many of the first n ranges are not empty. */
  ghost function NonEmpty(incoming: seq<(nat, nat)>, n: nat): (k: nat)
    requires n <= |incoming|
  {
    if n == 0 then 0 else NonEmpty(incoming, n - 1) + if incoming[n - 1].1 > incoming[n - 1].0 then 1 else 0
  }

  /** What is to come from every rank, and where it goes. */
  ghost predicate AreIncoming<T>(incoming: seq<(nat, nat)>, messages: seq<seq<T>>, size: nat) {
    && |incoming| == |messages|
    && (forall q: nat :: q < |incoming| ==> IsIncoming(incoming, messages, size, q))
    && forall p: nat, q: nat :: p < q < |incoming| ==> AreSeparate(incoming, p, q)
  }

  ghost predicate IsIncoming<T>(incoming: seq<(nat, nat)>, messages: seq<seq<T>>, size: nat, q: nat) {
    q < |incoming| == |messages| && incoming[q].0 + |messages[q]| == incoming[q].1 <= size
  }

  ghost predicate AreSeparate(incoming: seq<(nat, nat)>, p: nat, q: nat) {
    p < |incoming| && q < |incoming| && (incoming[p].1 <= incoming[q].0 || incoming[q].1 <= incoming[p].0)
  }

  /** After n messages: those that have arrived are in their ranges, everything else is as before. */
  ghost predicate AreHalosAfter<T>(before: seq<T>, fields: seq<T>, incoming: seq<(nat, nat)>, messages: seq<seq<T>>,
                                   order: seq<nat>, n: nat)
  {
    && n <= |order| && |fields| == |before| && |incoming| == |messages|
    && (forall k: nat :: k < |order| ==> order[k] < |messages|)
    && (forall k: nat :: k < n ==> IsPlaced(fields, incoming[order[k]].0, messages[order[k]]))
    && forall i: nat :: i < |fields| && !IsHaloPlace(incoming, i) ==> fields[i] == before[i]
  }

  ghost predicate IsHaloPlace(incoming: seq<(nat, nat)>, i: nat) {
    exists q: nat :: q < |incoming| && Within(i, incoming[q].0, incoming[q].1)
  }

  /** `haloexchange`, receiving: as many messages as there are non-empty ranges, in any order. */
  method ReceiveHalos<T>(incomingHalos: seq<(nat, nat)>, fields: array<T>, order: seq<nat>, messages: seq<seq<T>>)
    requires AreIncoming(incomingHalos, messages, fields.Length) && IsArrivalOrder(order, messages)
    modifies fields
    ensures AreHalosAfter(old(fields[..]), fields[..], incomingHalos, messages, order, |order|)
  {
    ghost var before := fields[..];
    var numMessages := 0;
    for q := 0 to |incomingHalos|
      invariant numMessages == NonEmpty(incomingHalos, q)
    {
      if incomingHalos[q].1 > incomingHalos[q].0 { numMessages := numMessages + 1; }
    }
    MessagesAreCounted(incomingHalos, messages, fields.Length, order);
    var n := 0;
    while numMessages > 0
      invariant n + numMessages == |order|
      invariant AreHalosAfter(before, fields[..], incomingHalos, messages, order, n)
    {
      numMessages := numMessages - 1;
      var receiveRank := order[n];
      assert IsIncoming(incomingHalos, messages, fields.Length, receiveRank);
      PutHalo(incomingHalos, fields, order, messages, n, before);
      n := n + 1;
    }
  }

  /** Copying one message keeps the others. */
  method PutHalo<T>(incoming: seq<(nat, nat)>, fields: array<T>, order: seq<nat>, messages: seq<seq<T>>, n: nat,
                    ghost before: seq<T>)
    requires AreIncoming(incoming, messages, fields.Length) && IsArrivalOrder(order, messages) && n < |order|
    requires AreHalosAfter(before, fields[..], incoming, messages, order, n)
    modifies fields
    ensures AreHalosAfter(before, fields[..], incoming, messages, order, n + 1)
  {
    var q := order[n];
    assert IsIncoming(incoming, messages, fields.Length, q);
    CopyTo(messages[q], fields, incoming[q].0);
    forall k: nat | k < n ensures IsPlaced(fields[..], incoming[order[k]].0, messages[order[k]]) {
      assert IsIncoming(incoming, messages, fields.Length, order[k]) && order[k] != q;
      assert if order[k] < q then AreSeparate(incoming, order[k], q) else AreSeparate(incoming, q, order[k]);
      assert old(IsPlaced(fields[..], incoming[order[k]].0, messages[order[k]]));
    }
  }

  /** One unit for every message that is not empty. */
  ghost function Units<T>(messages: seq<seq<T>>): (units: seq<seq<bool>>)
    ensures |units| == |messages|
    ensures forall r: nat :: r < |messages| ==> units[r] == if messages[r] == [] then [] else [true]
  {
    seq(|messages|, (r: nat) requires r < |messages| => if messages[r] == [] then [] else [true])
  }

  lemma {:induction false} UnitsArrived<T>(order: seq<nat>, messages: seq<seq<T>>, n: nat)
    requires IsArrivalOrder(order, messages) && n <= |order|
    ensures Arrived(order, Units(messages), n) == n
  {
    if n > 0 { UnitsArrived(order, messages, n - 1); }
  }

  lemma {:induction false} UnitsSize<T>(incoming: seq<(nat, nat)>, messages: seq<seq<T>>, size: nat, n: nat)
    requires AreIncoming(incoming, messages, size) && n <= |messages|
    ensures Size(Units(messages), n) == NonEmpty(incoming, n)
  {
    if n > 0 {
      UnitsSize(incoming, messages, size, n - 1);
      assert IsIncoming(incoming, messages, size, n - 1);
    }
  }

  lemma MessagesAreCounted<T>(incoming: seq<(nat, nat)>, messages: seq<seq<T>>, size: nat, order: seq<nat>)
    requires AreIncoming(incoming, messages, size) && IsArrivalOrder(order, messages)
    ensures |order| == NonEmpty(incoming, |incoming|)
  {
    UnitsArrived(order, messages, |order|);
    UnitsSize(incoming, messages, size, |messages|);
    ExchangeRuns.ArrivedIsSize(order, Units(messages));
  }

  // ------------------------------------------------------------- a whole exchange

  /** What rank q contributes: its answer to the request for its cells from s to e. */
  ghost predicate IsAnswered<T>(r: Tree, o: Tree, s: nat, e: nat, keys: seq<nat>, message: seq<T>, owned: seq<T>) {
    && CellsAgree(r, o, s, e) && IsRequestFor(r, s, e, keys)
    && IsHaloMessage(message, Requested(o.leaves, o.layout, keys, |keys| / 2), owned)
  }

  ghost predicate IsRequestFor(r: Tree, s: nat, e: nat, keys: seq<nat>) {
    AreKeysOfRuns(keys, r.leaves, r.layout, s, e)
  }

  /** The request is valid for the owner, and asks for all halo cells. */
  lemma RequestFits(r: Tree, o: Tree, s: nat, e: nat, keys: seq<nat>)
    requires CellsAgree(r, o, s, e) && IsRequestFor(r, s, e, keys)
    ensures AreCellsWanted(Requested(o.leaves, o.layout, keys, |keys| / 2), r, o, s, e)
    ensures AreRequestKeys(o.leaves, keys)
  {
    var cuts: seq<(nat, nat)> :| AreRuns(cuts, |cuts|, r.layout, s, e) && AreKeysAt(keys, r.leaves, cuts);
    assert |keys| / 2 == |cuts|;
    RequestedAreWanted(r, o, s, e, e, cuts, |cuts|, keys);
    RequestIsValid(r, o, s, e, cuts, keys);
  }

  /** Messages have the size that the receiver expects. */
  lemma AnswerFits<T>(r: Tree, o: Tree, s: nat, e: nat, keys: seq<nat>, message: seq<T>, owned: seq<T>)
    requires IsAnswered(r, o, s, e, keys, message, owned)
    ensures r.layout[s] + |message| == r.layout[e]
  {
    RequestFits(r, o, s, e, keys);
  }

  /** After the exchange, in any order of delivery, every halo cell holds exactly the owner's particles of the
      cell, in order. */
  lemma HalosDelivered<T>(r: Tree, o: Tree, s: nat, e: nat, keys: seq<nat>, j: nat, q: nat, before: seq<T>,
                          received: seq<T>, owned: seq<T>, incoming: seq<(nat, nat)>, messages: seq<seq<T>>,
                          order: seq<nat>)
    requires q < |messages| == |incoming| && IsAnswered(r, o, s, e, keys, messages[q], owned)
    requires incoming[q] == (r.layout[s], r.layout[e]) && s <= j < e && IsMarkedAt(r.layout, j)
    requires IsArrivalOrder(order, messages) && AreHalosAfter(before, received, incoming, messages, order, |order|)
    ensures IsCellDelivered(r, o, j, received, owned)
  {
    RequestFits(r, o, s, e, keys);
    assert r.layout[s] <= r.layout[j] < r.layout[j + 1] <= r.layout[e];
    assert messages[q] != [] && q in order;
    var k: nat :| k < |order| && order[k] == q;
    assert IsPlaced(received, incoming[order[k]].0, messages[order[k]]);
    CellsDelivered(r, o, s, e, j, Requested(o.leaves, o.layout, keys, |keys| / 2), messages[q], received, owned);
  }
}
