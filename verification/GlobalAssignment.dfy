/** Distribution of particles to their ranks, and repetition for further fields with the same outcome. */
module GlobalAssignment {
  import opened Counts
  import opened StableSorting
  import opened ParticleExchange
  import opened ExchangeRuns

  // ------------------------------------------------------------- the order of present and received particles

  /** Sorted keys and buffer indices of the present particles, and how the ranges to send divide them. */
  ghost predicate ArePresent(keys: seq<nat>, ordering: seq<nat>, sends: seq<nat>, bounds: seq<nat>, me: nat) {
    && Sorted(keys) && |ordering| == |keys|
    && AreBounds(bounds) && me + 1 < |bounds| && AreSendRanges(sends, bounds, keys)
  }

  /** A list of received and of present particles, the present ones from position `from` on; the received
      ones have keys between lo and hi. */
  ghost predicate IsEnvelope(e: seq<Entry>, from: nat, keys: seq<nat>, ordering: seq<nat>, lo: nat, hi: nat) {
    && |ordering| == |keys| && from + |keys| <= |e| && (from == 0 || from + |keys| == |e|)
    && (forall i: nat :: i < |keys| ==> IsPresentAt(e, from, keys, ordering, i))
    && forall i: nat :: i < |e| ==> IsReceivedAt(e, from, |keys|, lo, hi, i)
  }

  /** Positions outside the part of n present particles have keys between lo and hi. */
  ghost predicate IsReceivedAt(e: seq<Entry>, from: nat, n: nat, lo: nat, hi: nat, i: nat)
    requires i < |e|
  {
    Within(i, from, from + n) || lo <= e[i].key < hi
  }

  ghost predicate IsPresentAt(e: seq<Entry>, from: nat, keys: seq<nat>, ordering: seq<nat>, i: nat)
    requires i < |keys| == |ordering| && from + |keys| <= |e|
  {
    e[from + i] == Entry(keys[i], ordering[i])
  }

  lemma PresentKey(e: seq<Entry>, from: nat, keys: seq<nat>, ordering: seq<nat>, sends: seq<nat>, bounds: seq<nat>,
                   me: nat, q: nat, x: nat)
    requires ArePresent(keys, ordering, sends, bounds, me)
    requires IsEnvelope(e, from, keys, ordering, bounds[me], bounds[me + 1]) && q < |bounds|
    requires Within(x, from, from + |keys|)
    ensures e[x] == Entry(keys[x - from], ordering[x - from])
    ensures e[x].key < bounds[q] <==> x - from < sends[q]
  {
    assert IsPresentAt(e, from, keys, ordering, x - from);
    BoundDivides(keys, bounds[q], x - from);
  }

  lemma SentDownIsLow(e: seq<Entry>, from: nat, keys: seq<nat>, ordering: seq<nat>, sends: seq<nat>, bounds: seq<nat>,
                      me: nat)
    requires ArePresent(keys, ordering, sends, bounds, me)
    requires IsEnvelope(e, from, keys, ordering, bounds[me], bounds[me + 1])
    ensures sends[me] <= |keys| && IsLow(e, from, sends[me])
  {
    var p := sends[me];
    forall x: nat, y: nat | from <= x < y < from + p ensures Precedes(e, x, y) {
      PresentKey(e, from, keys, ordering, sends, bounds, me, me, x);
      PresentKey(e, from, keys, ordering, sends, bounds, me, me, y);
    }
    forall x: nat, y: nat | from <= x < from + p && y < |e| && !(from <= y < from + p) ensures Precedes(e, x, y) {
      PresentKey(e, from, keys, ordering, sends, bounds, me, me, x);
      assert IsReceivedAt(e, from, |keys|, bounds[me], bounds[me + 1], y);
      if Within(y, from, from + |keys|) { PresentKey(e, from, keys, ordering, sends, bounds, me, me, y); }
    }
  }

  lemma SentUpIsHigh(e: seq<Entry>, from: nat, keys: seq<nat>, ordering: seq<nat>, sends: seq<nat>, bounds: seq<nat>,
                     me: nat)
    requires ArePresent(keys, ordering, sends, bounds, me)
    requires IsEnvelope(e, from, keys, ordering, bounds[me], bounds[me + 1])
    ensures sends[me + 1] <= |keys| && IsHigh(e, from + sends[me + 1], |keys| - sends[me + 1])
  {
    var s := sends[me + 1];
    forall x: nat, y: nat | from + s <= x < y < from + |keys| ensures Precedes(e, x, y) {
      PresentKey(e, from, keys, ordering, sends, bounds, me, me + 1, x);
      PresentKey(e, from, keys, ordering, sends, bounds, me, me + 1, y);
    }
    forall x: nat, y: nat | from + s <= x < from + |keys| && y < |e| && !(from + s <= y < from + |keys|)
      ensures Precedes(e, y, x) {
      PresentKey(e, from, keys, ordering, sends, bounds, me, me + 1, x);
      assert IsReceivedAt(e, from, |keys|, bounds[me], bounds[me + 1], y);
      if Within(y, from, from + |keys|) { PresentKey(e, from, keys, ordering, sends, bounds, me, me + 1, y); }
    }
  }

  /** The buffer indices in the order after sorting. */
  ghost predicate IsSortedMap(e: seq<Entry>, order: seq<nat>, newOrdering: seq<nat>) {
    && IsStableOrder(e, |e|, order) && |newOrdering| == |e|
    && forall j: nat :: j < |e| ==> newOrdering[j] == e[order[j]].index
  }

  /** Particles that go to lower ranks keep their positions, particles that go to higher ranks move up by
      the number of received ones. */
  lemma SentParticlesKeepOrder(e: seq<Entry>, from: nat, keys: seq<nat>, ordering: seq<nat>, sends: seq<nat>,
                               bounds: seq<nat>, me: nat, order: seq<nat>, newOrdering: seq<nat>, k: nat)
    requires ArePresent(keys, ordering, sends, bounds, me)
    requires IsEnvelope(e, from, keys, ordering, bounds[me], bounds[me + 1]) && IsSortedMap(e, order, newOrdering)
    requires k < |keys|
    ensures k < sends[me] ==> newOrdering[k] == ordering[k]
    ensures sends[me + 1] <= k ==> newOrdering[k + |e| - |keys|] == ordering[k]
  {
    SentDownIsLow(e, from, keys, ordering, sends, bounds, me);
    SentUpIsHigh(e, from, keys, ordering, sends, bounds, me);
    PresentKey(e, from, keys, ordering, sends, bounds, me, me, from + k);
    if k < sends[me] {
      LowComeFirst(e, order, from, sends[me], from + k);
    }
    if sends[me + 1] <= k {
      HighComeLast(e, order, from + sends[me + 1], |keys| - sends[me + 1], from + k);
    }
  }

  /** Between them are exactly the particles that this rank owns. */
  lemma OwnedAreInTheMiddle(e: seq<Entry>, from: nat, keys: seq<nat>, ordering: seq<nat>, sends: seq<nat>,
                            bounds: seq<nat>, me: nat, order: seq<nat>, newOrdering: seq<nat>, j: nat)
    requires ArePresent(keys, ordering, sends, bounds, me)
    requires IsEnvelope(e, from, keys, ordering, bounds[me], bounds[me + 1]) && IsSortedMap(e, order, newOrdering)
    requires j < |e|
    ensures bounds[me] <= e[order[j]].key < bounds[me + 1] <==> sends[me] <= j < |e| - (|keys| - sends[me + 1])
  {
    SentDownIsLow(e, from, keys, ordering, sends, bounds, me);
    SentUpIsHigh(e, from, keys, ordering, sends, bounds, me);
    var x, p, s, n := order[j], sends[me], sends[me + 1], |keys|;
    assert IsReceivedAt(e, from, n, bounds[me], bounds[me + 1], x);
    if Within(x, from, from + n) {
      PresentKey(e, from, keys, ordering, sends, bounds, me, me, x);
      PresentKey(e, from, keys, ordering, sends, bounds, me, me + 1, x);
      if x - from < p {
        LowComeFirst(e, order, from, p, x);
        NoneTwice(e, order, j, x - from);
      }
      if x - from >= s {
        HighComeLast(e, order, from + s, n - s, x);
        NoneTwice(e, order, j, x + (|e| - (n - s) - (from + s)));
      }
    }
    if j < p {
      LowComeFirst(e, order, from, p, from + j);
      PresentKey(e, from, keys, ordering, sends, bounds, me, me, from + j);
    }
    if j >= |e| - (n - s) {
      var y := j - (|e| - (n - s)) + from + s;
      HighComeLast(e, order, from + s, n - s, y);
      PresentKey(e, from, keys, ordering, sends, bounds, me, me + 1, y);
    }
  }

  /** What is sent with the new order and the shifted ranges is what the old order and ranges say. */
  lemma RepeatedMessagesAreSame<T>(e: seq<Entry>, from: nat, keys: seq<nat>, ordering: seq<nat>, sends: seq<nat>,
                                   bounds: seq<nat>, me: nat, order: seq<nat>, newOrdering: seq<nat>, shifted: seq<nat>,
                                   fields: seq<T>, sent: seq<seq<T>>)
    requires ArePresent(keys, ordering, sends, bounds, me)
    requires IsEnvelope(e, from, keys, ordering, bounds[me], bounds[me + 1]) && IsSortedMap(e, order, newOrdering)
    requires AreShifted(sends, shifted, me, |e| - |keys|) && AreMessages(sent, shifted, me, newOrdering, fields)
    ensures AreMessages(sent, sends, me, ordering, fields)
  {
    forall q: nat | q < |sent| ensures IsMessage(sent[q], sends, me, ordering, fields, q) {
      assert IsMessage(sent[q], shifted, me, newOrdering, fields, q);
      if q != me { RepeatedMessageIsSame(e, from, keys, ordering, sends, bounds, me, order, newOrdering, shifted,
                                         fields, sent[q], q); }
    }
  }

  lemma RepeatedMessageIsSame<T>(e: seq<Entry>, from: nat, keys: seq<nat>, ordering: seq<nat>, sends: seq<nat>,
                                 bounds: seq<nat>, me: nat, order: seq<nat>, newOrdering: seq<nat>, shifted: seq<nat>,
                                 fields: seq<T>, message: seq<T>, q: nat)
    requires ArePresent(keys, ordering, sends, bounds, me)
    requires IsEnvelope(e, from, keys, ordering, bounds[me], bounds[me + 1]) && IsSortedMap(e, order, newOrdering)
    requires AreShifted(sends, shifted, me, |e| - |keys|) && q + 1 < |sends| && q != me
    requires IsMessage(message, shifted, me, newOrdering, fields, q)
    ensures IsMessage(message, sends, me, ordering, fields, q)
  {
    assert SendCount(shifted, q) == SendCount(sends, q);
    forall i: nat | i < |message| ensures IsGathered(message[i], ordering, fields, sends[q] + i) {
      var k := sends[q] + i;
      assert IsGathered(message[i], newOrdering, fields, shifted[q] + i);
      assert bounds[q] <= bounds[q + 1];
      if q < me { assert bounds[q + 1] <= bounds[me]; } else { assert bounds[me + 1] <= bounds[q]; }
      RangesAscend(keys, bounds[q], bounds[q + 1]);
      if q < me {
        RangesAscend(keys, bounds[q + 1], bounds[me]);
      } else {
        RangesAscend(keys, bounds[me + 1], bounds[q]);
      }
      SentParticlesKeepOrder(e, from, keys, ordering, sends, bounds, me, order, newOrdering, k);
    }
  }

  lemma RangesAscend(keys: seq<nat>, lo: nat, hi: nat)
    requires Sorted(keys) && lo <= hi
    ensures LowerBound(keys, lo) <= LowerBound(keys, hi) <= |keys|
  {
    CountIsDistance(keys, lo, hi);
  }

  // ------------------------------------------------------------- received particles

  /** Every place of the range belongs to a message. */
  lemma {:induction false} CoveredByMessage<T>(order: seq<nat>, messages: seq<seq<T>>, start: nat, n: nat, i: nat)
    returns (k: nat)
    requires n <= |order| && (forall k: nat :: k < |order| ==> order[k] < |messages|)
    requires start <= i < start + Arrived(order, messages, n)
    ensures k < n
    ensures start + Arrived(order, messages, k) <= i < start + Arrived(order, messages, k) + |messages[order[k]]|
  {
    k := n - 1;
    if i < start + Arrived(order, messages, n - 1) { k := CoveredByMessage(order, messages, start, n - 1, i); }
  }

  /** All particles in the messages have keys between lo and hi. */
  ghost predicate AreKeysBetween<T>(messages: seq<seq<T>>, keyOf: T -> nat, lo: nat, hi: nat) {
    forall r: nat, i: nat :: r < |messages| && i < |messages[r]| ==> lo <= keyOf(messages[r][i]) < hi
  }

  lemma ReceivedKey<T>(receiveLog: seq<LogEntry>, before: seq<T>, fields: seq<T>, order: seq<nat>,
                       messages: seq<seq<T>>, places: seq<nat>, start: nat, end: nat, keyOf: T -> nat, lo: nat, hi: nat,
                       i: nat)
    requires AreFieldsAfter(before, fields, order, messages, places, |order|, start, end)
    requires places == Consecutive(order, messages, start, |order|) && end == start + Arrived(order, messages, |order|)
    requires AreKeysBetween(messages, keyOf, lo, hi) && Within(i, start, end) && i < |fields|
    ensures lo <= keyOf(fields[i]) < hi
  {
    var k := CoveredByMessage(order, messages, start, |order|, i);
    assert IsNextPlace(order, messages, start, places, k);
    assert IsPlaced(fields, places[k], messages[order[k]]);
    assert fields[places[k] + (i - places[k])] == messages[order[k]][i - places[k]];
  }

  /** `computeSfcKeys` and `sequence` for received particles. */
  method LabelReceived<T(==)>(keyOf: T -> nat, fields: array<T>, keys: array<nat>, map_: array<nat>, from: nat, to: nat)
    requires keys != map_ && (keys as object) != fields && (map_ as object) != fields
    requires from <= to <= keys.Length && to <= map_.Length && to <= fields.Length
    modifies keys, map_
    ensures forall i: nat :: i < keys.Length ==>
      keys[i] == if Within(i, from, to) then keyOf(fields[i]) else old(keys[i])
    ensures forall i: nat :: i < map_.Length ==> map_[i] == if Within(i, from, to) then i else old(map_[i])
  {
    for k := from to to
      invariant forall i: nat :: i < keys.Length ==>
        keys[i] == if Within(i, from, k) then keyOf(fields[i]) else old(keys[i])
      invariant forall i: nat :: i < map_.Length ==> map_[i] == if Within(i, from, k) then i else old(map_[i])
    {
      keys[k] := keyOf(fields[k]);
      map_[k] := k;
    }
  }

  /** Keys and indices of the present particles are in the arrays. */
  ghost predicate IsPresent(o: BufferDescription, keys: seq<nat>, map_: seq<nat>, presentKeys: seq<nat>,
                            presentMap: seq<nat>) {
    && IsBuffer(o) && |keys| == |map_| == o.size && |presentKeys| == |presentMap| == o.end - o.start
    && forall i: nat :: i < |presentKeys| ==> HasPresent(o, keys, map_, presentKeys, presentMap, i)
  }

  ghost predicate HasPresent(o: BufferDescription, keys: seq<nat>, map_: seq<nat>, presentKeys: seq<nat>,
                             presentMap: seq<nat>, i: nat)
    requires i < |presentKeys| == |presentMap| && o.start + i < |keys| == |map_|
  {
    keys[o.start + i] == presentKeys[i] && map_[o.start + i] == presentMap[i]
  }

  /** The entries of received particles, outside the part of n present ones, hold key and place of the particle. */
  ghost predicate AreLabelled<T>(envelopeStart: nat, from: nat, n: nat, keyOf: T -> nat, fields: seq<T>,
                                 e: seq<Entry>) {
    && envelopeStart + |e| <= |fields|
    && forall x: nat :: x < |e| && !Within(x, from, from + n) ==> IsLabelledAt(envelopeStart, keyOf, fields, e, x)
  }

  ghost predicate IsLabelledAt<T>(envelopeStart: nat, keyOf: T -> nat, fields: seq<T>, e: seq<Entry>, x: nat)
    requires x < |e| && envelopeStart + |e| <= |fields|
  {
    e[x] == Entry(keyOf(fields[envelopeStart + x]), envelopeStart + x)
  }

  lemma LabelsAre<T>(o: BufferDescription, n: nat, keyOf: T -> nat, fields: seq<T>, keys: seq<nat>, map_: seq<nat>)
    requires IsBuffer(o) && (o.start >= n || o.size - o.end >= n) && |fields| == |keys| == |map_| == o.size
    requires var r := ReceiveStart(o, n); forall i: nat :: r <= i < r + n ==>
      keys[i] == keyOf(fields[i]) && map_[i] == i
    ensures var v := AssignedEnvelope(o, n);
            && v.0 <= v.1 <= o.size && v.0 <= o.start
            && AreLabelled(v.0, o.start - v.0, o.end - o.start, keyOf, fields, Zip(keys[v.0..v.1], map_[v.0..v.1]))
  {
    var v, r := AssignedEnvelope(o, n), ReceiveStart(o, n);
    var e, from := Zip(keys[v.0..v.1], map_[v.0..v.1]), o.start - v.0;
    forall x: nat | x < |e| && !Within(x, from, from + (o.end - o.start))
      ensures IsLabelledAt(v.0, keyOf, fields, e, x) {
      assert r <= v.0 + x < r + n;
      assert e[x] == Entry(keys[v.0 + x], map_[v.0 + x]);
    }
  }

  /** The list that is sorted after receiving: received particles in front of or behind the present ones. */
  lemma EnvelopeIs(o: BufferDescription, n: nat, keys: seq<nat>, map_: seq<nat>, presentKeys: seq<nat>,
                   presentMap: seq<nat>, lo: nat, hi: nat)
    requires IsPresent(o, keys, map_, presentKeys, presentMap) && (o.start >= n || o.size - o.end >= n)
    requires var r := ReceiveStart(o, n); forall i: nat :: r <= i < r + n ==> lo <= keys[i] < hi
    ensures var v := AssignedEnvelope(o, n);
            && v.0 <= v.1 <= o.size && v.0 <= o.start
            && IsEnvelope(Zip(keys[v.0..v.1], map_[v.0..v.1]), o.start - v.0, presentKeys, presentMap, lo, hi)
  {
    var v, r := AssignedEnvelope(o, n), ReceiveStart(o, n);
    var e, from := Zip(keys[v.0..v.1], map_[v.0..v.1]), o.start - v.0;
    forall i: nat | i < |presentKeys| ensures IsPresentAt(e, from, presentKeys, presentMap, i) {
      assert HasPresent(o, keys, map_, presentKeys, presentMap, i);
    }
    forall i: nat | i < |e| ensures IsReceivedAt(e, from, |presentKeys|, lo, hi, i) {
      if !Within(i, from, from + |presentKeys|) {
        assert r <= v.0 + i < r + n;
        assert e[i].key == keys[v.0 + i] && lo <= keys[v.0 + i] < hi;
      }
    }
  }

  /** The exchange with an empty log. */
  method FirstExchange<T>(o: BufferDescription, n: nat, receiveLog: seq<LogEntry>, sends: seq<nat>, thisRank: nat,
                          ordering: seq<nat>, fields: array<T>, order: seq<nat>, messages: seq<seq<T>>)
    returns (log: seq<LogEntry>, outgoing: seq<seq<T>>)
    requires IsBuffer(o) && (o.start >= n || o.size - o.end >= n) && fields.Length == o.size && receiveLog == []
    requires |sends| > 0
    requires forall q: nat :: q + 1 < |sends| ==> sends[q] + SendCount(sends, q) <= |ordering|
    requires forall k: nat :: k < |ordering| ==> ordering[k] < fields.Length
    requires IsArrivalOrder(order, messages) && n == Arrived(order, messages, |order|)
    modifies fields
    ensures AreMessages(outgoing, sends, thisRank, ordering, old(fields[..]))
    ensures IsReceived(o, n, old(fields[..]), fields[..], order, messages, log)
  {
    var recvStart := ReceiveStart(o, n);
    ConsecutiveAreBlocks(order, messages, recvStart);
    log, outgoing := ExchangeParticles(receiveLog, sends, thisRank, recvStart, recvStart + n, ordering, fields, order,
                                       messages, Consecutive(order, messages, recvStart, |order|));
  }

  /** Sort present and received particles together. */
  method SortReceived<T(==)>(o: BufferDescription, n: nat, keys: array<nat>, map_: array<nat>, fields: array<T>,
                             keyOf: T -> nat, ghost presentKeys: seq<nat>, ghost presentMap: seq<nat>, ghost lo: nat,
                             ghost hi: nat)
    returns (newStart: nat, ghost e: seq<Entry>, ghost sorted: seq<nat>)
    requires keys != map_ && (keys as object) != fields && (map_ as object) != fields && fields.Length == o.size
    requires IsPresent(o, keys[..], map_[..], presentKeys, presentMap) && (o.start >= n || o.size - o.end >= n)
    requires var r := ReceiveStart(o, n); AreInRangeFrom(fields[..], keyOf, r, r + n, lo, hi)
    modifies keys, map_
    ensures newStart == AssignedEnvelope(o, n).0
    ensures IsReordered(o, n, keys[..], map_[..], presentKeys, presentMap, e, sorted, lo, hi)
    ensures AreLabelled(newStart, o.start - newStart, o.end - o.start, keyOf, fields[..], e)
  {
    var recvStart := ReceiveStart(o, n);
    var envelope := AssignedEnvelope(o, n);
    newStart := envelope.0;
    LabelReceived(keyOf, fields, keys, map_, recvStart, recvStart + n);
    forall i: nat | i < |presentKeys| ensures HasPresent(o, keys[..], map_[..], presentKeys, presentMap, i) {
      assert old(HasPresent(o, keys[..], map_[..], presentKeys, presentMap, i));
    }
    EnvelopeIs(o, n, keys[..], map_[..], presentKeys, presentMap, lo, hi);
    LabelsAre(o, n, keyOf, fields[..], keys[..], map_[..]);
    assert keys[..][envelope.0..envelope.1] == keys[envelope.0..envelope.1];
    assert map_[..][envelope.0..envelope.1] == map_[envelope.0..envelope.1];
    e, sorted := SortByKey(keys, map_, envelope.0, envelope.1);
  }

  ghost predicate AreInRangeFrom<T>(fields: seq<T>, keyOf: T -> nat, from: nat, to: nat, lo: nat, hi: nat) {
    to <= |fields| && forall i: nat :: from <= i < to ==> lo <= keyOf(fields[i]) < hi
  }

  lemma ReceivedKeys<T>(o: BufferDescription, n: nat, before: seq<T>, fields: seq<T>, order: seq<nat>,
                        messages: seq<seq<T>>, log: seq<LogEntry>, keyOf: T -> nat, lo: nat, hi: nat)
    requires IsReceived(o, n, before, fields, order, messages, log) && n == Arrived(order, messages, |order|)
    requires AreKeysBetween(messages, keyOf, lo, hi) && |fields| == o.size
    ensures AreInRangeFrom(fields, keyOf, ReceiveStart(o, n), ReceiveStart(o, n) + n, lo, hi)
  {
    var r := ReceiveStart(o, n);
    forall i: nat | r <= i < r + n ensures lo <= keyOf(fields[i]) < hi {
      ReceivedKey(log, before, fields, order, messages, Consecutive(order, messages, r, |order|), r, r + n, keyOf, lo,
                  hi, i);
    }
  }

  lemma OrderingIsPresent(o: BufferDescription, keys: seq<nat>, map_: seq<nat>, presentKeys: seq<nat>,
                          presentMap: seq<nat>)
    requires IsPresent(o, keys, map_, presentKeys, presentMap)
    ensures map_[o.start..o.end] == presentMap
  {
    forall i: nat | i < |presentMap| ensures map_[o.start..o.end][i] == presentMap[i] {
      assert HasPresent(o, keys, map_, presentKeys, presentMap, i);
    }
  }

  /** One exchange: what it started from, what arrived in which order, and the outcome. */
  datatype Run<T> = Run(o: BufferDescription, n: nat, sends: seq<nat>, bounds: seq<nat>, me: nat, presentKeys: seq<nat>,
                        presentMap: seq<nat>, before: seq<T>, order: seq<nat>, messages: seq<seq<T>>,
                        outgoing: seq<seq<T>>, log: seq<LogEntry>, fields: seq<T>, keys: seq<nat>, map_: seq<nat>,
                        e: seq<Entry>, sorted: seq<nat>)

  /** Index of the first particle that the rank owns after an exchange. */
  ghost function FirstOwned<T>(run: Run<T>): (first: nat)
    requires run.me < |run.sends|
  {
    AssignedEnvelope(run.o, run.n).0 + run.sends[run.me]
  }

  /** The present particles of other ranks have been sent, the received ones are stored and logged, and the
      buffer indices of all are sorted by key. */
  ghost predicate IsDistributed<T>(r: Run<T>) {
    && IsRepeatable(r) && AreMessages(r.outgoing, r.sends, r.me, r.presentMap, r.before)
    && var start := ReceiveStart(r.o, r.n);
       AreFieldsAfter(r.before, r.fields, r.order, r.messages, Consecutive(r.order, r.messages, start, |r.order|),
                      |r.order|, start, start + r.n)
  }

  /** What a repetition relies on: the log, and the order of the envelope. */
  ghost predicate IsRepeatable<T>(r: Run<T>) {
    && ArePresent(r.presentKeys, r.presentMap, r.sends, r.bounds, r.me)
    && IsArrivalOrder(r.order, r.messages) && Arrived(r.order, r.messages, |r.order|) == r.n
    && IsReceptionLogged(r.o, r.n, r.order, r.messages, r.log)
    && IsReordered(r.o, r.n, r.keys, r.map_, r.presentKeys, r.presentMap, r.e, r.sorted, r.bounds[r.me],
                   r.bounds[r.me + 1])
  }

  /** The list that was sorted has the keys and places of received particles. */
  ghost predicate IsLabelled<T>(r: Run<T>, keyOf: T -> nat) {
    var start := AssignedEnvelope(r.o, r.n).0;
    && start <= r.o.start <= r.o.end
    && AreLabelled(start, r.o.start - start, r.o.end - r.o.start, keyOf, r.fields, r.e)
  }

  /** What `assign` has prepared, and what arrives. */
  ghost predicate IsPrepared<T>(o: BufferDescription, numRecv: nat, sends: seq<nat>, bounds: seq<nat>, me: nat,
                                keys: seq<nat>, map_: seq<nat>, keyOf: T -> nat, order: seq<nat>, messages: seq<seq<T>>,
                                presentKeys: seq<nat>, presentMap: seq<nat>)
  {
    && IsPresent(o, keys, map_, presentKeys, presentMap) && ArePresent(presentKeys, presentMap, sends, bounds, me)
    && (forall k: nat :: k < |presentMap| ==> o.start <= presentMap[k] < o.end)
    && (o.start >= numRecv || o.size - o.end >= numRecv)
    && IsArrivalOrder(order, messages) && Arrived(order, messages, |order|) == numRecv
    && AreKeysBetween(messages, keyOf, bounds[me], bounds[me + 1])
  }

  /** Exchange with a cleared log, then sort. */
  method DistributeParticles<T(==)>(o: BufferDescription, numRecv: nat, sends: seq<nat>, bounds: seq<nat>, me: nat,
                                    keys: array<nat>, map_: array<nat>, fields: array<T>, keyOf: T -> nat,
                                    order: seq<nat>, messages: seq<seq<T>>, ghost presentKeys: seq<nat>,
                                    ghost presentMap: seq<nat>)
    returns (newStart: nat, log: seq<LogEntry>, outgoing: seq<seq<T>>, ghost run: Run<T>)
    requires keys != map_ && (keys as object) != fields && (map_ as object) != fields && fields.Length == o.size
    requires IsPrepared(o, numRecv, sends, bounds, me, keys[..], map_[..], keyOf, order, messages, presentKeys,
                        presentMap)
    modifies keys, map_, fields
    ensures run.o == o && run.n == numRecv && run.sends == sends && run.bounds == bounds && run.me == me
    ensures run.before == old(fields[..]) && run.fields == fields[..] && run.keys == keys[..] && run.map_ == map_[..]
    ensures run.order == order && run.messages == messages && run.presentKeys == presentKeys
    ensures run.presentMap == presentMap
    ensures run.log == log && run.outgoing == outgoing && newStart == AssignedEnvelope(o, numRecv).0
    ensures IsDistributed(run) && IsLabelled(run, keyOf)
  {
    OrderingIsPresent(o, keys[..], map_[..], presentKeys, presentMap);
    SendBounds(bounds, presentKeys, sends);
    ghost var before := fields[..];
    log, outgoing := FirstExchange(o, numRecv, [], sends, me, map_[o.start..o.end], fields, order, messages);
    ghost var received := fields[..];
    ReceivedKeys(o, numRecv, old(fields[..]), received, order, messages, log, keyOf, bounds[me], bounds[me + 1]);
    ghost var e, sorted;
    newStart, e, sorted := SortReceived(o, numRecv, keys, map_, fields, keyOf, presentKeys, presentMap, bounds[me],
                                        bounds[me + 1]);
    assert fields[..] == received;
    run := Run(o, numRecv, sends, bounds, me, presentKeys, presentMap, before, order, messages, outgoing, log, received,
               keys[..], map_[..], e, sorted);
  }

  // ------------------------------------------------------------- the class

  class GlobalAssignment {
    const myRank: nat
    var bounds: seq<nat>
    var counts: seq<nat>
    var exchanges: seq<nat>
    var recvLog: seq<LogEntry>

    /** `assign` has set boundaries, numbers of particles, and ranges to send. */
    ghost predicate Valid()
      reads this`bounds, this`exchanges, this`counts
    {
      && AreBounds(bounds) && |exchanges| == |bounds| == |counts| + 1 && myRank < |counts|
      && NumPresent() <= NumAssigned()
    }

    function NumSendDown(): (n: nat)
      requires myRank < |exchanges|
      reads this`exchanges
    {
      exchanges[myRank]
    }

    function NumPresent(): (n: nat)
      requires myRank + 1 < |exchanges|
      reads this`exchanges
    {
      SendCount(exchanges, myRank)
    }

    function NumAssigned(): (n: nat)
      requires myRank < |counts|
      reads this`counts
    {
      counts[myRank]
    }

    /** Index of the first owned particle, from the state of the rank. */
    function PostExchangeStart(o: BufferDescription): (start: nat)
      requires Valid()
      reads this
    {
      AssignedEnvelope(o, NumAssigned() - NumPresent()).0 + NumSendDown()
    }

    constructor (rank: nat, bounds: seq<nat>, counts: seq<nat>, keys: seq<nat>)
      requires AreBounds(bounds) && Sorted(keys) && |bounds| == |counts| + 1 && rank < |counts|
      requires CountIn(keys, bounds[rank], bounds[rank + 1]) <= counts[rank]
      ensures Valid() && myRank == rank && this.bounds == bounds && this.counts == counts && recvLog == []
      ensures AreSendRanges(exchanges, bounds, keys)
    {
      var sends := CreateSendRanges(bounds, keys);
      myRank, this.bounds, this.counts, exchanges, recvLog := rank, bounds, counts, sends, [];
      CountIsDistance(keys, bounds[rank], bounds[rank + 1]);
    }

    /** `distribute`: send and receive particles, log where they went, and sort present and received ones. */
    method Distribute<T(==)>(o: BufferDescription, keys: array<nat>, map_: array<nat>, fields: array<T>,
                             keyOf: T -> nat, order: seq<nat>, messages: seq<seq<T>>, ghost presentKeys: seq<nat>,
                             ghost presentMap: seq<nat>)
      returns (newStart: nat, outgoing: seq<seq<T>>, ghost run: Run<T>)
      requires Valid() && keys != map_ && (keys as object) != fields && (map_ as object) != fields
      requires fields.Length == o.size
      requires IsPrepared(o, NumAssigned() - NumPresent(), exchanges, bounds, myRank, keys[..], map_[..], keyOf, order,
                          messages, presentKeys, presentMap)
      modifies this`recvLog, keys, map_, fields
      ensures Valid()
      ensures run.o == o && run.n == NumAssigned() - NumPresent() && run.sends == exchanges && run.bounds == bounds
      ensures run.me == myRank
      ensures run.before == old(fields[..]) && run.fields == fields[..] && run.keys == keys[..] && run.map_ == map_[..]
      ensures run.order == order && run.messages == messages && run.presentKeys == presentKeys
      ensures run.presentMap == presentMap
      ensures run.log == recvLog && run.outgoing == outgoing && newStart == AssignedEnvelope(o, run.n).0
      ensures PostExchangeStart(o) == FirstOwned(run)
      ensures IsDistributed(run) && IsLabelled(run, keyOf)
    {
      var log;
      newStart, log, outgoing, run :=
        DistributeParticles(o, NumAssigned() - NumPresent(), exchanges, bounds, myRank, keys, map_, fields, keyOf,
                            order, messages, presentKeys, presentMap);
      recvLog := log;
    }

    /** `redoExchange`: the same exchange for another field. Messages may arrive in another order. */
    method RedoExchange<T, U>(o: BufferDescription, ordering: seq<nat>, fields: array<T>, order: seq<nat>,
                              messages: seq<seq<T>>, ghost run: Run<U>)
      returns (outgoing: seq<seq<T>>)
      requires Valid() && fields.Length == o.size && IsRepeatable(run)
      requires run.o == o && run.n == NumAssigned() - NumPresent() && run.sends == exchanges && run.me == myRank
      requires run.log == recvLog
      requires IsOrderingAfter(run, ordering) && forall k: nat :: k < |ordering| ==> ordering[k] < o.size
      requires IsArrivalOrder(order, messages) && HaveSameSizes(run.messages, messages)
      modifies fields
      ensures AreMessages(outgoing, run.sends, run.me, run.presentMap, old(fields[..]))
      ensures LandLikeBefore(run, old(fields[..]), fields[..], order, messages)
    {
      outgoing := RepeatExchange(o, NumAssigned() - NumPresent(), exchanges, myRank, recvLog, ordering, fields, order,
                                 messages, run);
    }
  }

  /** The part of the sorted buffer indices that belongs to the envelope. */
  ghost predicate IsOrderingAfter<T>(run: Run<T>, ordering: seq<nat>) {
    var v := AssignedEnvelope(run.o, run.n);
    v.0 <= v.1 <= |run.map_| && ordering == run.map_[v.0..v.1]
  }

  /** Every message is where the message of the same rank is after the first exchange; nothing else changed. */
  ghost predicate LandLikeBefore<T, U>(run: Run<U>, before: seq<T>, fields: seq<T>, order: seq<nat>,
                                       messages: seq<seq<T>>) {
    && IsReceptionLogged(run.o, run.n, run.order, run.messages, run.log)
    && var r := ReceiveStart(run.o, run.n);
       var places := LoggedPlaces(run.log, order);
       && AreFieldsAfter(before, fields, order, messages, places, |order|, r, r + run.n)
       && forall j: nat, k: nat :: LandsAlike(run.order, run.messages, r, order, places, j, k)
  }

  /** If the message that arrives as number k is of the rank whose message arrived as number j before, it is
      put where that one was put. */
  ghost predicate LandsAlike<T>(order: seq<nat>, messages: seq<seq<T>>, start: nat, order': seq<nat>, places': seq<nat>,
                                j: nat, k: nat) {
    j < |order| && k < |order'| && k < |places'| && order[j] == order'[k] &&
    (forall i: nat :: i < |order| ==> order[i] < |messages|)
    ==> places'[k] == start + Arrived(order, messages, j)
  }

  lemma ReorderedKey(o: BufferDescription, n: nat, keys: seq<nat>, map_: seq<nat>, presentKeys: seq<nat>,
                     presentMap: seq<nat>, e: seq<Entry>, sorted: seq<nat>, lo: nat, hi: nat, i: nat)
    requires IsReordered(o, n, keys, map_, presentKeys, presentMap, e, sorted, lo, hi)
    requires var v := AssignedEnvelope(o, n); v.0 <= i < v.1
    ensures var j := i - AssignedEnvelope(o, n).0;
            i < |keys| && j < |e| == |sorted| == |presentKeys| + n && sorted[j] < |e| && keys[i] == e[sorted[j]].key
  {
  }

  /** From `postExchangeStart` on there are exactly the particles that the rank owns. */
  lemma OwnedAfterExchange<T>(run: Run<T>, i: nat)
    requires IsRepeatable(run) && (var v := AssignedEnvelope(run.o, run.n); v.0 <= i < v.1)
    ensures run.me < |run.sends|
    ensures var first := FirstOwned(run);
            i < |run.keys| && (run.bounds[run.me] <= run.keys[i] < run.bounds[run.me + 1] <==>
                               first <= i < first + SendCount(run.sends, run.me) + run.n)
  {
    var v, from := AssignedEnvelope(run.o, run.n), run.o.start - AssignedEnvelope(run.o, run.n).0;
    ReorderedKey(run.o, run.n, run.keys, run.map_, run.presentKeys, run.presentMap, run.e, run.sorted,
                 run.bounds[run.me], run.bounds[run.me + 1], i);
    ReorderedMap(run.o, run.n, run.keys, run.map_, run.presentKeys, run.presentMap, run.e, run.sorted,
                 run.bounds[run.me], run.bounds[run.me + 1]);
    OwnedWindow(run.e, from, run.presentKeys, run.presentMap, run.sends, run.bounds, run.me, run.sorted,
                run.map_[v.0..v.1], run.n, i - v.0);
  }

  lemma OwnedWindow(e: seq<Entry>, from: nat, keys: seq<nat>, ordering: seq<nat>, sends: seq<nat>, bounds: seq<nat>,
                    me: nat, order: seq<nat>, newOrdering: seq<nat>, n: nat, j: nat)
    requires ArePresent(keys, ordering, sends, bounds, me)
    requires IsEnvelope(e, from, keys, ordering, bounds[me], bounds[me + 1])
    requires IsSortedMap(e, order, newOrdering) && j < |e| == |keys| + n
    ensures bounds[me] <= e[order[j]].key < bounds[me + 1] <==> sends[me] <= j < sends[me] + SendCount(sends, me) + n
  {
    OwnedAreInTheMiddle(e, from, keys, ordering, sends, bounds, me, order, newOrdering, j);
    assert bounds[me] <= bounds[me + 1];
    RangesAscend(keys, bounds[me], bounds[me + 1]);
  }

  /** The exchange with shifted ranges, the new order and the log. */
  method RepeatExchange<T, U>(o: BufferDescription, numRecv: nat, sends: seq<nat>, me: nat, log: seq<LogEntry>,
                              ordering: seq<nat>, fields: array<T>, order: seq<nat>, messages: seq<seq<T>>,
                              ghost run: Run<U>)
    returns (outgoing: seq<seq<T>>)
    requires fields.Length == o.size && IsRepeatable(run)
    requires run.o == o && run.n == numRecv && run.sends == sends && run.me == me && run.log == log
    requires IsOrderingAfter(run, ordering) && forall k: nat :: k < |ordering| ==> ordering[k] < o.size
    requires IsArrivalOrder(order, messages) && HaveSameSizes(run.messages, messages)
    modifies fields
    ensures AreMessages(outgoing, run.sends, run.me, run.presentMap, old(fields[..]))
    ensures LandLikeBefore(run, old(fields[..]), fields[..], order, messages)
  {
    ghost var before := fields[..];
    var recvStart := ReceiveStart(o, numRecv);
    var exchangeO2 := ShiftSendRanges(sends, me, numRecv);
    ShiftedRangesFit(run, exchangeO2, ordering);
    ReplayFits(o, numRecv, run.order, run.messages, log, order, messages);
    var log';
    log', outgoing := ExchangeParticles(log, exchangeO2, me, recvStart, recvStart + numRecv, ordering, fields, order,
                                        messages, LoggedPlaces(log, order));
    SameMessages(run, exchangeO2, ordering, before, outgoing);
    LandingIs(run, before, fields[..], order, messages);
  }

  lemma LandingIs<T, U>(run: Run<U>, before: seq<T>, fields: seq<T>, order: seq<nat>, messages: seq<seq<T>>)
    requires IsReceptionLogged(run.o, run.n, run.order, run.messages, run.log)
    requires var r, places := ReceiveStart(run.o, run.n), LoggedPlaces(run.log, order);
             && AreFieldsAfter(before, fields, order, messages, places, |order|, r, r + run.n)
             && forall j: nat, k: nat :: LandsAlike(run.order, run.messages, r, order, places, j, k)
    ensures LandLikeBefore(run, before, fields, order, messages)
  {
  }

  lemma ShiftedRangesFit<T>(run: Run<T>, shifted: seq<nat>, ordering: seq<nat>)
    requires IsRepeatable(run) && AreShifted(run.sends, shifted, run.me, run.n) && IsOrderingAfter(run, ordering)
    ensures |ordering| == |run.presentKeys| + run.n
    ensures forall q: nat :: q + 1 < |shifted| && q != run.me ==> shifted[q] + SendCount(shifted, q) <= |ordering|
  {
    SendBounds(run.bounds, run.presentKeys, run.sends);
  }

  lemma ReplayFits<T, U>(o: BufferDescription, n: nat, order: seq<nat>, messages: seq<seq<T>>, log: seq<LogEntry>,
                         order': seq<nat>, messages': seq<seq<U>>)
    requires IsReceptionLogged(o, n, order, messages, log) && n == Arrived(order, messages, |order|)
    requires IsArrivalOrder(order, messages) && IsArrivalOrder(order', messages') && HaveSameSizes(messages, messages')
    ensures var r, places' := ReceiveStart(o, n), LoggedPlaces(log, order');
            && ArePlaces(log, order', places', messages', r, r + n) && n == Arrived(order', messages', |order'|)
            && forall j: nat, k: nat :: LandsAlike(order, messages, r, order', places', j, k)
  {
    var r := ReceiveStart(o, n);
    var places := Consecutive(order, messages, r, |order|);
    ConsecutiveAreBlocks(order, messages, r);
    ReplayLandsSame(messages, order, places, log, r, r + n, messages', order');
    forall j: nat, k: nat ensures LandsAlike(order, messages, r, order', LoggedPlaces(log, order'), j, k) {
      if j < |order| && k < |order'| && order[j] == order'[k] {
        assert IsNextPlace(order, messages, r, places, j);
      }
    }
  }

  lemma SameMessages<T, U>(run: Run<T>, shifted: seq<nat>, ordering: seq<nat>, fields: seq<U>, sent: seq<seq<U>>)
    requires IsRepeatable(run) && AreShifted(run.sends, shifted, run.me, run.n) && IsOrderingAfter(run, ordering)
    requires AreMessages(sent, shifted, run.me, ordering, fields)
    ensures AreMessages(sent, run.sends, run.me, run.presentMap, fields)
  {
    var from := run.o.start - AssignedEnvelope(run.o, run.n).0;
    ReorderedMap(run.o, run.n, run.keys, run.map_, run.presentKeys, run.presentMap, run.e, run.sorted,
                 run.bounds[run.me], run.bounds[run.me + 1]);
    RepeatedMessagesAreSame(run.e, from, run.presentKeys, run.presentMap, run.sends, run.bounds, run.me, run.sorted,
                            ordering, shifted, fields, sent);
  }

  /** The received messages are next to the present particles, one behind the other, and logged. */
  ghost predicate IsReceived<T>(o: BufferDescription, n: nat, before: seq<T>, fields: seq<T>, order: seq<nat>,
                                messages: seq<seq<T>>, log: seq<LogEntry>)
  {
    && IsReceptionLogged(o, n, order, messages, log)
    && var r := ReceiveStart(o, n);
       AreFieldsAfter(before, fields, order, messages, Consecutive(order, messages, r, |order|), |order|, r, r + n)
  }

  ghost predicate IsReceptionLogged<T>(o: BufferDescription, n: nat, order: seq<nat>, messages: seq<seq<T>>,
                                       log: seq<LogEntry>) {
    && IsBuffer(o) && (o.start >= n || o.size - o.end >= n) && (forall k: nat :: k < |order| ==> order[k] < |messages|)
    && IsLogAfter([], log, order, Consecutive(order, messages, ReceiveStart(o, n), |order|), |order|)
  }

  /** Keys and buffer indices of the envelope are sorted stably. */
  ghost predicate IsReordered(o: BufferDescription, n: nat, keys: seq<nat>, map_: seq<nat>, presentKeys: seq<nat>,
                              presentMap: seq<nat>, e: seq<Entry>, sorted: seq<nat>, lo: nat, hi: nat)
  {
    var v := AssignedEnvelope(o, n);
    && IsBuffer(o) && v.0 <= o.start && |presentKeys| == o.end - o.start
    && IsEnvelope(e, o.start - v.0, presentKeys, presentMap, lo, hi)
    && AreSorted(keys, map_, v.0, v.1, e, sorted)
  }

  lemma ReorderedMap(o: BufferDescription, n: nat, keys: seq<nat>, map_: seq<nat>, presentKeys: seq<nat>,
                     presentMap: seq<nat>, e: seq<Entry>, sorted: seq<nat>, lo: nat, hi: nat)
    requires IsReordered(o, n, keys, map_, presentKeys, presentMap, e, sorted, lo, hi)
    ensures var v := AssignedEnvelope(o, n); v.0 <= v.1 <= |map_| && IsSortedMap(e, sorted, map_[v.0..v.1])
  {
    var v := AssignedEnvelope(o, n);
    forall j: nat | j < |e|
      ensures map_[v.0..v.1][j] == e[sorted[j]].index { assert map_[v.0..v.1][j] == map_[v.0 + j]; }
  }

  lemma SendBounds(bounds: seq<nat>, keys: seq<nat>, sends: seq<nat>)
    requires AreBounds(bounds) && Sorted(keys) && AreSendRanges(sends, bounds, keys)
    ensures forall q: nat :: q + 1 < |sends| ==> sends[q] + SendCount(sends, q) <= |keys|
  {
    forall q: nat | q + 1 < |sends| ensures sends[q] + SendCount(sends, q) <= |keys| {
      assert bounds[q] <= bounds[q + 1];
      RangesAscend(keys, bounds[q], bounds[q + 1]);
    }
  }
}
