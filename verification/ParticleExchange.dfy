/** Exchange of particles between ranks, and its repetition for further fields. */
module ParticleExchange {
  import opened Counts
  // ------------------------------------------------------------- buffers

  /** The assigned particles are in [start, end) of buffers of the given size. */
  datatype BufferDescription = BufferDescription(start: nat, end: nat, size: nat)

  predicate IsBuffer(b: BufferDescription) {
    b.start <= b.end <= b.size
  }

  function ExchangeBufferSize(b: BufferDescription, numPresent: nat, numAssigned: nat): (size: nat)
    requires IsBuffer(b) && numPresent <= numAssigned
  {
    var numIncoming := numAssigned - numPresent;
    var fitHead, fitTail := b.start >= numIncoming, b.size - b.end >= numIncoming;
    if fitHead || fitTail then b.size else b.end + numIncoming
  }

  /** The program's assertion is the precondition. */
  function ReceiveStart(b: BufferDescription, numIncoming: nat): (start: nat)
    requires IsBuffer(b) && (b.start >= numIncoming || b.size - b.end >= numIncoming)
  {
    if b.start >= numIncoming then b.start - numIncoming else b.end
  }

  function AssignedEnvelope(b: BufferDescription, numIncoming: nat): (envelope: (nat, nat)) {
    if b.start >= numIncoming then (b.start - numIncoming, b.end) else (b.start, b.end + numIncoming)
  }

  predicate Within(i: int, from: int, to: int) {
    from <= i < to
  }

  /** Incoming particles fit next to the present ones, in front of them if there is room, and the envelope is what both
      occupy. The buffer grows only if there is room on neither side, and no more than needed. */
  lemma ReceiveRangeIsFree(b: BufferDescription, numPresent: nat, numAssigned: nat)
    requires IsBuffer(b) && numPresent <= numAssigned
    ensures var n := numAssigned - numPresent;
            var e := b.(size := ExchangeBufferSize(b, numPresent, numAssigned));
            && IsBuffer(e) && (e.start >= n || e.size - e.end >= n) && e.size >= b.size
            && var r, v := ReceiveStart(e, n), AssignedEnvelope(e, n);
               && r + n <= e.size && (r + n <= b.start || b.end <= r)
               && v.1 - v.0 == b.end - b.start + n && v.1 <= e.size
               && (forall i: nat :: Within(i, v.0, v.1) <==> Within(i, b.start, b.end) || Within(i, r, r + n))
               && (n > 0 ==> (r < b.start <==> n <= b.start))
               && (e.size > b.size <==> b.start < n && b.size - b.end < n) && (e.size > b.size ==> e.size == v.1)
  {
  }

  // ------------------------------------------------------------- ranges to send

  /** Position of the first key of every rank, and of the first key that belongs to none. */
  ghost predicate AreSendRanges(sends: seq<nat>, bounds: seq<nat>, keys: seq<nat>) {
    |sends| == |bounds| && forall q: nat :: q < |bounds| ==> sends[q] == LowerBound(keys, bounds[q])
  }

  method CreateSendRanges(bounds: seq<nat>, particleKeys: seq<nat>) returns (sends: seq<nat>)
    ensures AreSendRanges(sends, bounds, particleKeys)
  {
    sends := [];
    for rank := 0 to |bounds|
      invariant |sends| == rank
      invariant forall q: nat :: q < rank ==> sends[q] == LowerBound(particleKeys, bounds[q])
    {
      sends := sends + [LowerBound(particleKeys, bounds[rank])];
    }
  }

  function SendCount(sends: seq<nat>, rank: nat): (count: nat)
    requires rank + 1 < |sends|
  {
    if sends[rank + 1] >= sends[rank] then sends[rank + 1] - sends[rank] else 0
  }

  method ShiftSendRanges(ranges: seq<nat>, thisRank: nat, numIncoming: nat) returns (shifted: seq<nat>)
    requires thisRank < |ranges|
    ensures AreShifted(ranges, shifted, thisRank, numIncoming)
  {
    shifted := ranges;
    for rank := thisRank + 1 to |ranges|
      invariant |shifted| == |ranges|
      invariant forall q: nat :: q < |ranges| ==>
        shifted[q] == ranges[q] + if thisRank < q < rank then numIncoming else 0
    {
      shifted := shifted[rank := shifted[rank] + numIncoming];
    }
  }

  ghost predicate AreShifted(ranges: seq<nat>, shifted: seq<nat>, thisRank: nat, numIncoming: nat) {
    && |shifted| == |ranges|
    && forall q: nat :: q < |ranges| ==> shifted[q] == ranges[q] + if q > thisRank then numIncoming else 0
  }

  predicate AreBounds(bounds: seq<nat>) {
    |bounds| > 1 && forall i: nat, j: nat :: i <= j < |bounds| ==> bounds[i] <= bounds[j]
  }

  /** A particle is sent to a rank exactly if its key is in the range of the rank. Keys from the last
      boundary on are those of removed particles; nobody gets them. */
  lemma SentToOwner(bounds: seq<nat>, keys: seq<nat>, sends: seq<nat>, q: nat, k: nat)
    requires AreBounds(bounds) && Sorted(keys) && AreSendRanges(sends, bounds, keys)
    requires q + 1 < |bounds| && k < |keys|
    ensures sends[q] <= k < sends[q + 1] <==> bounds[q] <= keys[k] < bounds[q + 1]
    ensures sends[q] <= sends[q + 1] <= |keys| && SendCount(sends, q) == CountIn(keys, bounds[q], bounds[q + 1])
  {
    assert bounds[q] <= bounds[q + 1];
    CountIsDistance(keys, bounds[q], bounds[q + 1]);
    BoundDivides(keys, bounds[q], k);
    BoundDivides(keys, bounds[q + 1], k);
  }

  lemma BoundDivides(keys: seq<nat>, bound: nat, k: nat)
    requires Sorted(keys) && k < |keys|
    ensures k < LowerBound(keys, bound) <==> keys[k] < bound
  {
  }

  // ------------------------------------------------------------- one rank's messages

  /** `gather`. */
  function Gather<T>(ordering: seq<nat>, fields: seq<T>): (r: seq<T>)
    requires forall i: nat :: i < |ordering| ==> ordering[i] < |fields|
    ensures |r| == |ordering|
  {
    seq(|ordering|, (i: nat) requires i < |ordering| => fields[ordering[i]])
  }

  /** The fields of the particles that go to another rank, in the order of their keys; nothing is sent to oneself. */
  ghost predicate IsMessage<T>(message: seq<T>, sends: seq<nat>, thisRank: nat, ordering: seq<nat>, fields: seq<T>,
                               q: nat)
    requires q + 1 < |sends|
  {
    if q == thisRank then message == []
    else |message| == SendCount(sends, q) &&
         forall i: nat :: i < |message| ==> IsGathered(message[i], ordering, fields, sends[q] + i)
  }

  ghost predicate IsGathered<T>(value: T, ordering: seq<nat>, fields: seq<T>, k: nat) {
    k < |ordering| && ordering[k] < |fields| && value == fields[ordering[k]]
  }

  ghost predicate AreMessages<T>(messages: seq<seq<T>>, sends: seq<nat>, thisRank: nat, ordering: seq<nat>,
                                 fields: seq<T>) {
    |messages| + 1 == |sends| && forall q: nat :: q < |messages| ==>
    IsMessage(messages[q], sends, thisRank, ordering, fields, q)
  }

  /** The sending half of `exchangeParticles`; an empty message is not sent. */
  method SendParticles<T>(sends: seq<nat>, thisRank: nat, ordering: seq<nat>, fields: array<T>)
    returns (messages: seq<seq<T>>)
    requires |sends| > 0
    requires forall q: nat :: q + 1 < |sends| && q != thisRank ==> sends[q] + SendCount(sends, q) <= |ordering|
    requires forall k: nat :: k < |ordering| ==> ordering[k] < fields.Length
    ensures AreMessages(messages, sends, thisRank, ordering, fields[..])
  {
    messages := [];
    for destinationRank := 0 to |sends| - 1
      invariant |messages| == destinationRank
      invariant forall q: nat :: q < destinationRank ==>
        IsMessage(messages[q], sends, thisRank, ordering, fields[..], q)
    {
      var sendCount := SendCount(sends, destinationRank);
      if destinationRank == thisRank || sendCount == 0 {
        messages := messages + [[]];
      } else {
        var first := sends[destinationRank];
        messages := messages + [Gather(ordering[first..first + sendCount], fields[..])];
      }
    }
  }

  // ------------------------------------------------------------- receiving

  /** Some order in which the messages that are sent to a rank can arrive. */
  ghost predicate IsArrivalOrder<T>(order: seq<nat>, messages: seq<seq<T>>) {
    && (forall k: nat :: k < |order| ==> order[k] < |messages| && messages[order[k]] != [])
    && (forall j: nat, k: nat :: j < k < |order| ==> order[j] != order[k])
    && forall r: nat :: r < |messages| && messages[r] != [] ==> r in order
  }

  /** Size of the first n messages to arrive. */
  ghost function Arrived<T>(order: seq<nat>, messages: seq<seq<T>>, n: nat): (size: nat)
    requires n <= |order| && forall k: nat :: k < |order| ==> order[k] < |messages|
  {
    if n == 0 then 0 else Arrived(order, messages, n - 1) + |messages[order[n - 1]]|
  }

  ghost function Size<T>(messages: seq<seq<T>>, n: nat): (size: nat)
    requires n <= |messages|
  {
    if n == 0 then 0 else Size(messages, n - 1) + |messages[n - 1]|
  }

  /** A message and where it was put. */
  datatype LogEntry = LogEntry(rank: nat, location: nat)

  /** `lookup`: the location of the first entry of the rank. */
  function Lookup(log: seq<LogEntry>, rank: nat): (location: nat)
    requires IsLogged(log, rank)
  {
    LookupFrom(log, rank, 0)
  }

  function LookupFrom(log: seq<LogEntry>, rank: nat, from: nat): (location: nat)
    requires exists k: nat :: from <= k < |log| && log[k].rank == rank
    decreases |log| - from
  {
    if log[from].rank == rank then log[from].location else LookupFrom(log, rank, from + 1)
  }

  ghost predicate IsLogged(log: seq<LogEntry>, rank: nat) {
    exists k: nat :: k < |log| && log[k].rank == rank
  }

  ghost predicate IsPlaced<T>(fields: seq<T>, location: nat, message: seq<T>) {
    location + |message| <= |fields| && forall i: nat :: i < |message| ==> fields[location + i] == message[i]
  }

  /** The places of the messages, in the order of their arrival, do not overlap. */
  ghost predicate AreBlocks<T>(places: seq<nat>, order: seq<nat>, messages: seq<seq<T>>, lo: nat, hi: nat) {
    && |places| == |order| && (forall k: nat :: k < |order| ==> order[k] < |messages|)
    && (forall k: nat :: k < |places| ==> lo <= places[k] && places[k] + |messages[order[k]]| <= hi)
    && forall j: nat, k: nat :: j < k < |places| ==> AreApart(places, order, messages, j, k)
  }

  ghost predicate AreApart<T>(places: seq<nat>, order: seq<nat>, messages: seq<seq<T>>, j: nat, k: nat) {
    j < |places| == |order| && k < |places| && order[j] < |messages| && order[k] < |messages| &&
    (places[j] + |messages[order[j]]| <= places[k] || places[k] + |messages[order[k]]| <= places[j])
  }

  /** Message k is behind those that arrived before it. */
  ghost predicate IsNextPlace<T>(order: seq<nat>, messages: seq<seq<T>>, start: nat, places: seq<nat>, k: nat) {
    && k < |places| && k <= |order| && (forall j: nat :: j < |order| ==> order[j] < |messages|)
    && places[k] == start + Arrived(order, messages, k)
  }

  /** One message behind the other. */
  ghost function Consecutive<T>(order: seq<nat>, messages: seq<seq<T>>, start: nat, n: nat): (places: seq<nat>)
    requires n <= |order| && forall k: nat :: k < |order| ==> order[k] < |messages|
    ensures |places| == n && forall k: nat :: k < n ==> IsNextPlace(order, messages, start, places, k)
  {
    if n == 0 then [] else
      var front := Consecutive(order, messages, start, n - 1);
      var places := front + [start + Arrived(order, messages, n - 1)];
      assert forall k: nat :: k < n ==> IsNextPlace(order, messages, start, places, k) by {
        forall k: nat | k < n ensures IsNextPlace(order, messages, start, places, k) {
          assert k < n - 1 ==> IsNextPlace(order, messages, start, front, k);
        }
      }
      places
  }

  lemma {:induction false} ArrivedGrows<T>(order: seq<nat>, messages: seq<seq<T>>, j: nat, k: nat)
    requires IsArrivalOrder(order, messages) && j <= k <= |order|
    ensures Arrived(order, messages, j) <= Arrived(order, messages, k)
    ensures j < k ==> Arrived(order, messages, j) + |messages[order[j]]| <= Arrived(order, messages, k)
    decreases k
  {
    if j + 1 < k { ArrivedGrows(order, messages, j, k - 1); }
  }

  lemma ConsecutiveAreBlocks<T>(order: seq<nat>, messages: seq<seq<T>>, start: nat)
    requires IsArrivalOrder(order, messages)
    ensures AreBlocks(Consecutive(order, messages, start, |order|), order, messages, start,
                      start + Arrived(order, messages, |order|))
  {
    var n, places := |order|, Consecutive(order, messages, start, |order|);
    forall k: nat | k < n
      ensures start <= places[k] && places[k] + |messages[order[k]]| <= start + Arrived(order, messages, n) {
      assert IsNextPlace(order, messages, start, places, k);
      ArrivedGrows(order, messages, k, n);
    }
    forall j: nat, k: nat | j < k < n ensures AreApart(places, order, messages, j, k) {
      assert IsNextPlace(order, messages, start, places, j) && IsNextPlace(order, messages, start, places, k);
      ArrivedGrows(order, messages, j, k);
    }
  }

  method CopyTo<T>(message: seq<T>, fields: array<T>, location: nat)
    requires location + |message| <= fields.Length
    modifies fields
    ensures forall i: nat :: i < fields.Length ==>
      fields[i] == if Within(i, location, location + |message|) then message[i - location] else old(fields[i])
  {
    for k := 0 to |message|
      invariant forall i: nat :: i < fields.Length ==>
        fields[i] == if Within(i, location, location + k) then message[i - location] else old(fields[i])
    {
      fields[location + k] := message[k];
    }
  }

  /** The log of the first n messages. */
  ghost predicate IsLogOf(log: seq<LogEntry>, order: seq<nat>, places: seq<nat>, n: nat) {
    |log| == n <= |order| == |places| && forall k: nat :: k < n ==> log[k] == LogEntry(order[k], places[k])
  }

  /** The log after n messages, when it was `before` at the start. */
  ghost predicate IsLogAfter(before: seq<LogEntry>, log: seq<LogEntry>, order: seq<nat>, places: seq<nat>, n: nat) {
    if before == [] then IsLogOf(log, order, places, n) else log == before
  }

  /** The fields after n messages: the messages are in their places, and nothing changed outside the range. */
  ghost predicate AreFieldsAfter<T>(before: seq<T>, fields: seq<T>, order: seq<nat>, messages: seq<seq<T>>,
                                    places: seq<nat>, n: nat, lo: nat, hi: nat) {
    && n <= |order| == |places| && |fields| == |before|
    && (forall k: nat :: k < n ==> order[k] < |messages| && IsPlaced(fields, places[k], messages[order[k]]))
    && forall i: nat :: i < |fields| && !Within(i, lo, hi) ==> fields[i] == before[i]
  }

  /** Where the messages belong: one behind the other, or where the log says. */
  ghost predicate ArePlaces<T>(receiveLog: seq<LogEntry>, order: seq<nat>, places: seq<nat>, messages: seq<seq<T>>,
                               lo: nat, hi: nat) {
    && AreBlocks(places, order, messages, lo, hi)
    && forall k: nat :: k < |order| ==> IsPlaceOf(receiveLog, order, places, messages, lo, k)
  }

  ghost predicate IsPlaceOf<T>(receiveLog: seq<LogEntry>, order: seq<nat>, places: seq<nat>, messages: seq<seq<T>>,
                               lo: nat, k: nat)
    requires |places| == |order| && k < |order| && forall j: nat :: j < |order| ==> order[j] < |messages|
  {
    if receiveLog == [] then IsNextPlace(order, messages, lo, places, k)
    else IsLogged(receiveLog, order[k]) && Lookup(receiveLog, order[k]) == places[k]
  }

  /** The receiving half of `exchangeParticles`. With an empty log, messages are put one behind the other
      as they arrive, and are logged. Otherwise they are put where the log says. The loop ends when the
      range is full, and then no message is left. */
  method ReceiveParticles<T>(receiveLog: seq<LogEntry>, start: nat, receiveEnd: nat, fields: array<T>, order: seq<nat>,
                             messages: seq<seq<T>>, ghost places: seq<nat>)
    returns (log: seq<LogEntry>, numMessages: nat)
    requires IsArrivalOrder(order, messages) && receiveEnd <= fields.Length
    requires receiveEnd == start + Arrived(order, messages, |order|)
    requires ArePlaces(receiveLog, order, places, messages, start, receiveEnd)
    modifies fields
    ensures numMessages == |order|
    ensures IsLogAfter(receiveLog, log, order, places, |order|)
    ensures AreFieldsAfter(old(fields[..]), fields[..], order, messages, places, |order|, start, receiveEnd)
  {
    ghost var before := fields[..];
    var record := receiveLog == [];
    log := receiveLog;
    var receiveStart := start;
    numMessages := 0;
    while receiveStart != receiveEnd
      invariant numMessages <= |order| && receiveStart == start + Arrived(order, messages, numMessages)
      invariant IsLogAfter(receiveLog, log, order, places, numMessages)
      invariant AreFieldsAfter(before, fields[..], order, messages, places, numMessages, start, receiveEnd)
      decreases |order| - numMessages
    {
      var receiveRank := order[numMessages];
      var message := messages[receiveRank];
      ArrivedGrows(order, messages, numMessages, |order|);
      assert receiveStart + |message| <= receiveEnd;
      assert IsPlaceOf(receiveLog, order, places, messages, start, numMessages);
      log := ReceiveMessage(record, receiveLog, log, receiveRank, message, receiveStart, fields, before, order,
                            messages, places, numMessages, start, receiveEnd);
      receiveStart := receiveStart + |message|;
      numMessages := numMessages + 1;
    }
    ArrivedGrows(order, messages, numMessages, |order|);
  }

  /** Receive one message: log it or look it up, and copy it. Messages that are already there stay. */
  method ReceiveMessage<T>(record: bool, ghost receiveLog: seq<LogEntry>, logged: seq<LogEntry>, receiveRank: nat,
                           message: seq<T>, receiveStart: nat, fields: array<T>, ghost before: seq<T>,
                           ghost order: seq<nat>, ghost messages: seq<seq<T>>, ghost places: seq<nat>, ghost n: nat,
                           ghost lo: nat, ghost hi: nat)
    returns (log: seq<LogEntry>)
    requires AreBlocks(places, order, messages, lo, hi) && n < |order| && hi <= fields.Length
    requires receiveRank == order[n] && message == messages[receiveRank]
    requires record == (receiveLog == []) && IsLogAfter(receiveLog, logged, order, places, n)
    requires if record then receiveStart == places[n]
             else IsLogged(receiveLog, receiveRank) && Lookup(receiveLog, receiveRank) == places[n]
    requires AreFieldsAfter(before, fields[..], order, messages, places, n, lo, hi)
    modifies fields
    ensures IsLogAfter(receiveLog, log, order, places, n + 1)
    ensures AreFieldsAfter(before, fields[..], order, messages, places, n + 1, lo, hi)
  {
    var receiveLocation := receiveStart;
    log := logged;
    if record { log := log + [LogEntry(receiveRank, receiveStart)]; }
    else { receiveLocation := Lookup(log, receiveRank); }
    CopyTo(message, fields, receiveLocation);
    forall k: nat | k < n ensures IsPlaced(fields[..], places[k], messages[order[k]]) {
      assert AreApart(places, order, messages, k, n);
      assert old(IsPlaced(fields[..], places[k], messages[order[k]]));
    }
  }

  /** `exchangeParticles`: send, then receive. */
  method ExchangeParticles<T>(receiveLog: seq<LogEntry>, sends: seq<nat>, thisRank: nat, receiveStart: nat,
                              receiveEnd: nat, ordering: seq<nat>, fields: array<T>, order: seq<nat>,
                              messages: seq<seq<T>>, ghost places: seq<nat>)
    returns (log: seq<LogEntry>, outgoing: seq<seq<T>>)
    requires |sends| > 0
    requires forall q: nat :: q + 1 < |sends| && q != thisRank ==> sends[q] + SendCount(sends, q) <= |ordering|
    requires forall k: nat :: k < |ordering| ==> ordering[k] < fields.Length
    requires IsArrivalOrder(order, messages) && receiveEnd <= fields.Length
    requires receiveEnd == receiveStart + Arrived(order, messages, |order|)
    requires ArePlaces(receiveLog, order, places, messages, receiveStart, receiveEnd)
    modifies fields
    ensures AreMessages(outgoing, sends, thisRank, ordering, old(fields[..]))
    ensures IsLogAfter(receiveLog, log, order, places, |order|)
    ensures AreFieldsAfter(old(fields[..]), fields[..], order, messages, places, |order|, receiveStart, receiveEnd)
  {
    outgoing := SendParticles(sends, thisRank, ordering, fields);
    var n;
    log, n := ReceiveParticles(receiveLog, receiveStart, receiveEnd, fields, order, messages, places);
  }
}
