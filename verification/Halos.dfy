/** The halo exchange of one rank: the state between the agreement on requests and any number of exchanges. */
module Halos {
  import opened CornerstoneArray
  import opened Ranges
  import opened ParticleExchange
  import opened HaloRequests
  import opened HaloExchange
  import opened HaloAgreement
  import Treelets

  /** `haloPeers`: there are particles of the leaves of rank q, which is another rank. */
  predicate IsPeer(layout: seq<nat>, ranges: seq<Range>, me: nat, q: nat)
    requires q < |ranges| && ranges[q].start < |layout| && ranges[q].end < |layout|
  {
    q != me && layout[ranges[q].end] > layout[ranges[q].start]
  }

  /** The places of the particles of rank q; nothing if it is not a peer. */
  function IncomingFrom(layout: seq<nat>, ranges: seq<Range>, me: nat, q: nat): (places: (nat, nat))
    requires q < |ranges| && ranges[q].start < |layout| && ranges[q].end < |layout|
  {
    if IsPeer(layout, ranges, me, q) then (layout[ranges[q].start], layout[ranges[q].end]) else (0, 0)
  }

  /** The leaf ranges of all ranks are in the layout. */
  predicate AreRanges(ranges: seq<Range>, layout: seq<nat>) {
    forall q: nat :: q < |ranges| ==> ranges[q].start <= ranges[q].end < |layout|
  }

  /** What rank me asks rank q for: the ends of its halo cells there; nobody else is asked. */
  ghost predicate IsRequestTo(leaves: seq<nat>, layout: seq<nat>, ranges: seq<Range>, me: nat, q: nat, keys: seq<nat>)
    requires q < |ranges| && AreRanges(ranges, layout)
  {
    if IsPeer(layout, ranges, me, q) then AreKeysOfRuns(keys, leaves, layout, ranges[q].start,
                                                        ranges[q].end) else keys == []
  }

  /** The indices that rank me sends for a request. */
  ghost predicate IsManifestOf(manifest: IndexRanges, leaves: seq<nat>, layout: seq<nat>, keys: seq<nat>)
    requires |leaves| <= |layout|
    reads manifest
  {
    manifest.Valid() && manifest.Indices() == Requested(leaves, layout, keys, |keys| / 2)
  }

  method AskAll(leaves: seq<nat>, layout: seq<nat>, ranges: seq<Range>, me: nat) returns (requests: seq<seq<nat>>)
    requires |leaves| == |layout| && IsLayout(layout) && AreRanges(ranges, layout)
    ensures |requests| == |ranges|
    ensures forall q: nat :: q < |ranges| ==> IsRequestTo(leaves, layout, ranges, me, q, requests[q])
  {
    requests := [];
    for q := 0 to |ranges|
      invariant |requests| == q
      invariant forall p: nat :: p < q ==> IsRequestTo(leaves, layout, ranges, me, p, requests[p])
    {
      var keys := [];
      if IsPeer(layout, ranges, me, q) {
        keys := ExtractMarkedElements(leaves, layout, ranges[q].start, ranges[q].end);
      }
      requests := requests + [keys];
    }
  }

  function IncomingFromAll(layout: seq<nat>, ranges: seq<Range>, me: nat): (incoming: seq<(nat, nat)>)
    requires AreRanges(ranges, layout)
    ensures |incoming| == |ranges|
    ensures forall q: nat :: q < |ranges| ==> incoming[q] == IncomingFrom(layout, ranges, me, q)
  {
    seq(|ranges|, (q: nat) requires q < |ranges| && AreRanges(ranges, layout) => IncomingFrom(layout, ranges, me, q))
  }

  method ManifestFor(leaves: seq<nat>, layout: seq<nat>, keys: seq<nat>) returns (manifest: IndexRanges)
    requires Ascending(leaves) && |leaves| == |layout| && IsLayout(layout) && AreRequestKeys(leaves, keys)
    ensures fresh(manifest) && IsManifestOf(manifest, leaves, layout, keys)
  {
    manifest := new IndexRanges();
    AddRequests(leaves, layout, keys, manifest);
  }

  method AllManifests(leaves: seq<nat>, layout: seq<nat>, requests: seq<seq<nat>>) returns (manifests: seq<IndexRanges>)
    requires Ascending(leaves) && |leaves| == |layout| && IsLayout(layout)
    requires forall q: nat :: q < |requests| ==> AreRequestKeys(leaves, requests[q])
    ensures |manifests| == |requests| && forall q: nat :: q < |manifests| ==> fresh(manifests[q])
    ensures forall q: nat :: q < |requests| ==> IsManifestOf(manifests[q], leaves, layout, requests[q])
  {
    manifests := [];
    for q := 0 to |requests|
      invariant |manifests| == q && forall p: nat :: p < q ==> fresh(manifests[p])
      invariant forall p: nat :: p < q ==> IsManifestOf(manifests[p], leaves, layout, requests[p])
    {
      var manifest := ManifestFor(leaves, layout, requests[q]);
      manifests := manifests + [manifest];
    }
  }

  class Halos {
    const myRank: nat
    var incomingHaloIndices: seq<(nat, nat)>
    var outgoingHaloIndices: seq<IndexRanges>
    var haloEpoch: nat

    constructor (myRank: nat)
      ensures this.myRank == myRank && incomingHaloIndices == [] && outgoingHaloIndices == [] && haloEpoch == 0
    {
      this.myRank := myRank;
      incomingHaloIndices, outgoingHaloIndices, haloEpoch := [], [], 0;
    }

    /** The keys to ask for, and where the answers will go. */
    method SendRequests(leaves: seq<nat>, layout: seq<nat>, ranges: seq<Range>) returns (requests: seq<seq<nat>>)
      requires |leaves| == |layout| && IsLayout(layout) && AreRanges(ranges, layout)
      modifies this`incomingHaloIndices
      ensures |requests| == |incomingHaloIndices| == |ranges|
      ensures forall q: nat :: q < |ranges| ==>
        IsRequestTo(leaves, layout, ranges, myRank, q, requests[q]) &&
        incomingHaloIndices[q] == IncomingFrom(layout, ranges, myRank, q)
    {
      requests := AskAll(leaves, layout, ranges, myRank);
      incomingHaloIndices := IncomingFromAll(layout, ranges, myRank);
    }

    /** The ranges that others ask for, by asking rank. */
    method ReceiveRequests(leaves: seq<nat>, layout: seq<nat>, requests: seq<seq<nat>>)
      requires Ascending(leaves) && |leaves| == |layout| && IsLayout(layout)
      requires forall q: nat :: q < |requests| ==> AreRequestKeys(leaves, requests[q])
      modifies this`outgoingHaloIndices
      ensures |outgoingHaloIndices| == |requests|
      ensures forall q: nat :: q < |requests| ==> IsManifestOf(outgoingHaloIndices[q], leaves, layout, requests[q])
    {
      outgoingHaloIndices := AllManifests(leaves, layout, requests);
    }

    /** One exchange: what is sent are the requested particles, what arrives goes to its places, in any order of
        arrival. The ranges can be used again for other fields. */
    method ExchangeHalos<T>(fields: array<T>, order: seq<nat>, messages: seq<seq<T>>) returns (sent: seq<seq<T>>)
      requires AreIncoming(incomingHaloIndices, messages, fields.Length) && IsArrivalOrder(order, messages)
      requires forall q: nat :: q < |outgoingHaloIndices| ==> AreInBounds(outgoingHaloIndices[q], fields.Length)
      modifies this`haloEpoch, fields
      ensures haloEpoch == old(haloEpoch) + 1 && |sent| == |outgoingHaloIndices|
      ensures forall q: nat :: q < |sent| ==>
        outgoingHaloIndices[q].Valid() && IsHaloMessage(sent[q], outgoingHaloIndices[q].Indices(), old(fields[..]))
      ensures AreHalosAfter(old(fields[..]), fields[..], incomingHaloIndices, messages, order, |order|)
    {
      ghost var before := fields[..];
      sent := PackAll(outgoingHaloIndices, fields);
      ReceiveHalos(incomingHaloIndices, fields, order, messages);
      forall q: nat | q < |sent|
        ensures outgoingHaloIndices[q].Valid() && IsHaloMessage(sent[q], outgoingHaloIndices[q].Indices(), before)
      {
        assert old(IsPacked(sent[q], outgoingHaloIndices[q], fields[..]));
        assert (outgoingHaloIndices[q] as object) != fields;
      }
      haloEpoch := haloEpoch + 1;
    }
  }

  ghost predicate IsPacked<T>(message: seq<T>, manifest: IndexRanges, fields: seq<T>)
    reads manifest
  {
    manifest.Valid() && IsHaloMessage(message, manifest.Indices(), fields)
  }

  /** The messages to all ranks. */
  method PackAll<T>(manifests: seq<IndexRanges>, fields: array<T>) returns (sent: seq<seq<T>>)
    requires forall q: nat :: q < |manifests| ==> AreInBounds(manifests[q], fields.Length)
    ensures |sent| == |manifests| && forall q: nat :: q < |sent| ==> IsPacked(sent[q], manifests[q], fields[..])
  {
    sent := [];
    for q := 0 to |manifests|
      invariant |sent| == q && forall p: nat :: p < q ==> IsPacked(sent[p], manifests[p], fields[..])
    {
      assert AreInBounds(manifests[q], fields.Length);
      var message := PackHalos(manifests[q], fields);
      sent := sent + [message];
    }
  }

  ghost predicate AreInBounds(manifest: IndexRanges, size: nat)
    reads manifest
  {
    manifest.Valid() && forall p: nat :: p < |manifest.Indices()| ==> manifest.Indices()[p] < size
  }

  // ------------------------------------------------------------- all ranks

  /** The leaf ranges of all ranks in the octree of rank r. */
  function RangesAt(h: Layouts, r: nat): (ranges: seq<Range>)
    requires r < |h.w.leaves|
    ensures |ranges| == |h.w.leaves| && forall q: nat :: q < |ranges| ==> ranges[q] == LeavesAt(h, r, q)
  {
    seq(|h.w.leaves|, (q: nat) => LeavesAt(h, r, q))
  }

  /** The states of two ranks fit the exchange of all ranks: what rank r expects from rank q, and what rank q packs when
      it has received the request of rank r, is an answer to the request. */
  lemma StatesFitTogether<T>(w: Treelets.World, h: Layouts, all: seq<nat>, r: nat, q: nat, keys: seq<nat>,
                             indices: seq<nat>, message: seq<T>, fields: seq<T>)
    requires AreHaloRanks(w, h, all) && r < |h.w.leaves| && q < |h.w.leaves|
    requires AreRanges(RangesAt(h, r), h.layouts[r]) && |h.w.leaves[q]| <= |h.layouts[q]|
    requires IsRequestTo(h.w.leaves[r], h.layouts[r], RangesAt(h, r), r, q, keys)
    requires indices == Requested(h.w.leaves[q], h.layouts[q], keys, |keys| / 2)
    requires IsHaloMessage(message, indices, fields)
    ensures IncomingFrom(h.layouts[r], RangesAt(h, r), r, q) == IncomingOf(h, r, q)
    ensures IsAnswer(h, r, q, message, fields)
    ensures IsHaloPeer(h, r, q) ==> AreRequestKeys(h.w.leaves[q], keys)
  {
    if IsHaloPeer(h, r, q) {
      var s, e := LeavesAt(h, r, q).start, LeavesAt(h, r, q).end;
      HaloCellsAgree(w, h, all, r, q);
      RequestFits(TreeOf(h, r), TreeOf(h, q), s, e, keys);
      assert IsAnswered(TreeOf(h, r), TreeOf(h, q), s, e, keys, message, fields);
    }
  }
}
