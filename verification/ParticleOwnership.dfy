/** One exchange on all ranks. Every particle that is not removed is afterwards on the rank that owns its key,
    exactly once; what a rank owns comes from some rank; nothing is lost and nothing is duplicated. */
module ParticleOwnership {
  import opened StableSorting
  import opened ParticleExchange
  import opened ExchangeRuns
  import opened GlobalAssignment

  // ------------------------------------------------------------- before the exchange

  /** The sorted keys are those of the particles. */
  ghost predicate AreKeyed<T>(s: Sender<T>, keyOf: T -> nat) {
    |s.ordering| == |s.keys| && forall k: nat :: k < |s.keys| ==> IsKeyed(s, keyOf, k)
  }

  ghost predicate IsKeyed<T>(s: Sender<T>, keyOf: T -> nat, k: nat)
    requires k < |s.keys| == |s.ordering|
  {
    s.ordering[k] < |s.fields| && keyOf(s.fields[s.ordering[k]]) == s.keys[k]
  }

  lemma IncomingKeys<T>(bounds: seq<nat>, ranks: seq<Sender<T>>, sends: seq<seq<nat>>, sent: seq<seq<seq<T>>>,
                        keyOf: T -> nat, q: nat)
    requires AreSent(bounds, ranks, sends, sent) && q < |ranks|
    requires forall r: nat :: r < |ranks| ==> AreKeyed(ranks[r], keyOf)
    ensures forall r: nat :: r < |sent| ==> q < |sent[r]|
    ensures AreKeysBetween(Incoming(sent, q), keyOf, bounds[q], bounds[q + 1])
  {
    IncomingExists(bounds, ranks, sends, sent, q);
    forall r: nat, i: nat | r < |sent| && i < |sent[r][q]| ensures bounds[q] <= keyOf(sent[r][q][i]) < bounds[q + 1] {
      MessageKey(bounds, ranks[r], sends[r], sent[r], keyOf, r, q, i);
    }
  }

  lemma MessageKey<T>(bounds: seq<nat>, s: Sender<T>, sends: seq<nat>, sent: seq<seq<T>>, keyOf: T -> nat, r: nat,
                      q: nat, i: nat)
    requires AreBounds(bounds) && HasSent(bounds, s, sends, sent, r) && AreKeyed(s, keyOf)
    requires q + 1 < |bounds| && i < |sent[q]|
    ensures bounds[q] <= keyOf(sent[q][i]) < bounds[q + 1]
  {
    assert IsMessage(sent[q], sends, r, s.ordering, s.fields, q);
    assert IsGathered(sent[q][i], s.ordering, s.fields, sends[q] + i);
    assert IsKeyed(s, keyOf, sends[q] + i);
    SentToOwner(bounds, s.keys, sends, q, sends[q] + i);
  }

  /** When all ranks have sent what the boundaries say, every rank can receive: the messages have keys of its
      range, and fill exactly the room for those of its assigned particles that are not present. */
  lemma ExchangeIsPrepared<T>(bounds: seq<nat>, ranks: seq<Sender<T>>, sends: seq<seq<nat>>, sent: seq<seq<seq<T>>>,
                              keyOf: T -> nat, q: nat, o: BufferDescription, keys: seq<nat>, map_: seq<nat>,
                              order: seq<nat>)
    requires AreSent(bounds, ranks, sends, sent) && q < |ranks|
    requires forall r: nat :: r < |ranks| ==> AreKeyed(ranks[r], keyOf)
    requires forall r: nat :: r < |sent| ==> q < |sent[r]|
    requires IsPresent(o, keys, map_, ranks[q].keys, ranks[q].ordering)
    requires forall k: nat :: k < |ranks[q].ordering| ==> o.start <= ranks[q].ordering[k] < o.end
    requires q + 1 < |sends[q]| && IsArrivalOrder(order, Incoming(sent, q))
    requires var n := NumAssigned(bounds, ranks, q) - SendCount(sends[q], q); o.start >= n || o.size - o.end >= n
    ensures SendCount(sends[q], q) <= NumAssigned(bounds, ranks, q)
    ensures IsPrepared(o, NumAssigned(bounds, ranks, q) - SendCount(sends[q], q), sends[q], bounds, q, keys, map_,
                       keyOf, order, Incoming(sent, q), ranks[q].keys, ranks[q].ordering)
  {
    AllArrive(bounds, ranks, sends, sent, q, order);
    IncomingKeys(bounds, ranks, sends, sent, keyOf, q);
    assert HasSent(bounds, ranks[q], sends[q], sent[q], q);
  }

  // ------------------------------------------------------------- the exchange of all ranks

  ghost function SenderOf<T>(run: Run<T>): (s: Sender<T>) {
    Sender(run.presentKeys, run.presentMap, run.before)
  }

  ghost function Senders<T>(runs: seq<Run<T>>): (ranks: seq<Sender<T>>)
    ensures |ranks| == |runs| && forall r: nat :: r < |runs| ==> ranks[r] == SenderOf(runs[r])
  {
    seq(|runs|, (r: nat) requires r < |runs| => SenderOf(runs[r]))
  }

  ghost function SendsOf<T>(runs: seq<Run<T>>): (sends: seq<seq<nat>>)
    ensures |sends| == |runs| && forall r: nat :: r < |runs| ==> sends[r] == runs[r].sends
  {
    seq(|runs|, (r: nat) requires r < |runs| => runs[r].sends)
  }

  ghost function SentBy<T>(runs: seq<Run<T>>): (sent: seq<seq<seq<T>>>)
    ensures |sent| == |runs| && forall r: nat :: r < |runs| ==> sent[r] == runs[r].outgoing
  {
    seq(|runs|, (r: nat) requires r < |runs| => runs[r].outgoing)
  }

  ghost predicate AreDistinct(s: seq<nat>) {
    forall j: nat, k: nat :: j < k < |s| ==> s[j] != s[k]
  }

  /** A rank whose particles are at different places of its part of the buffer has distributed them. */
  ghost predicate IsCompleted<T>(run: Run<T>, keyOf: T -> nat) {
    && IsDistributed(run) && IsLabelled(run, keyOf) && AreKeyed(SenderOf(run), keyOf) && AreDistinct(run.presentMap)
    && forall k: nat :: k < |run.presentMap| ==> run.o.start <= run.presentMap[k] < run.o.end
  }

  /** Rank q receives what the others send to it. */
  ghost predicate IsRunOf<T>(bounds: seq<nat>, runs: seq<Run<T>>, keyOf: T -> nat, q: nat)
    requires q < |runs|
  {
    && runs[q].bounds == bounds && runs[q].me == q && IsCompleted(runs[q], keyOf)
    && |runs[q].messages| == |runs| && forall r: nat :: r < |runs| ==> IsBetween(runs, r, q)
  }

  ghost predicate IsBetween<T>(runs: seq<Run<T>>, r: nat, q: nat)
    requires q < |runs| && r < |runs|
  {
    q < |runs[r].outgoing| && r < |runs[q].messages| && runs[q].messages[r] == runs[r].outgoing[q]
  }

  ghost predicate AllDistributed<T>(bounds: seq<nat>, runs: seq<Run<T>>, keyOf: T -> nat) {
    && AreBounds(bounds) && |bounds| == |runs| + 1
    && forall q: nat :: q < |runs| ==> IsRunOf(bounds, runs, keyOf, q)
  }

  lemma MessagesAreUnique<T>(sent: seq<seq<T>>, others: seq<seq<T>>, sends: seq<nat>, me: nat, ordering: seq<nat>,
                             fields: seq<T>)
    requires AreMessages(sent, sends, me, ordering, fields) && AreMessages(others, sends, me, ordering, fields)
    ensures sent == others
  {
    forall q: nat | q < |sent| ensures sent[q] == others[q] {
      assert IsMessage(sent[q], sends, me, ordering, fields, q) && IsMessage(others[q], sends, me, ordering, fields, q);
      forall i: nat | i < |sent[q]| ensures sent[q][i] == others[q][i] {
        assert IsGathered(sent[q][i], ordering, fields, sends[q] + i) &&
               IsGathered(others[q][i], ordering, fields, sends[q] + i);
      }
    }
  }

  /** What rank q has done: `distribute` with its own particles and the messages that the ranks send to it. */
  ghost predicate HasDistributed<T>(bounds: seq<nat>, ranks: seq<Sender<T>>, sends: seq<seq<nat>>,
                                    sent: seq<seq<seq<T>>>, run: Run<T>, keyOf: T -> nat, q: nat)
    requires q < |ranks| == |sends| && forall r: nat :: r < |sent| ==> q < |sent[r]|
  {
    && run.bounds == bounds && run.me == q && IsCompleted(run, keyOf)
    && SenderOf(run) == ranks[q] && run.sends == sends[q] && run.messages == Incoming(sent, q)
  }

  /** When every rank has done so, what the ranks have sent and received fits together. */
  lemma RunsFitTogether<T>(bounds: seq<nat>, ranks: seq<Sender<T>>, sends: seq<seq<nat>>, sent: seq<seq<seq<T>>>,
                           runs: seq<Run<T>>, keyOf: T -> nat)
    requires AreSent(bounds, ranks, sends, sent) && |runs| == |ranks|
    requires forall r: nat :: r < |sent| ==> |sent[r]| == |ranks|
    requires forall q: nat :: q < |runs| ==> HasDistributed(bounds, ranks, sends, sent, runs[q], keyOf, q)
    ensures AllDistributed(bounds, runs, keyOf) && Senders(runs) == ranks && SentBy(runs) == sent
  {
    forall r: nat | r < |runs| ensures runs[r].outgoing == sent[r] {
      assert HasSent(bounds, ranks[r], sends[r], sent[r], r) &&
             HasDistributed(bounds, ranks, sends, sent, runs[r], keyOf, r);
      MessagesAreUnique(runs[r].outgoing, sent[r], sends[r], r, ranks[r].ordering, ranks[r].fields);
    }
    forall q: nat | q < |runs| ensures IsRunOf(bounds, runs, keyOf, q) && SenderOf(runs[q]) == ranks[q] {
      assert HasDistributed(bounds, ranks, sends, sent, runs[q], keyOf, q);
      forall r: nat | r < |runs| ensures IsBetween(runs, r, q) {
        assert Incoming(sent, q)[r] == sent[r][q];
      }
    }
  }

  lemma AllSent<T>(bounds: seq<nat>, runs: seq<Run<T>>, keyOf: T -> nat)
    requires AllDistributed(bounds, runs, keyOf)
    ensures AreSent(bounds, Senders(runs), SendsOf(runs), SentBy(runs))
    ensures forall r: nat :: r < |runs| ==> |runs[r].outgoing| == |runs|
  {
    forall r: nat | r < |runs| ensures HasSent(bounds, SenderOf(runs[r]), runs[r].sends, runs[r].outgoing, r) {
      assert IsRunOf(bounds, runs, keyOf, r);
      forall k: nat | k < |runs[r].presentMap| ensures runs[r].presentMap[k] < |runs[r].before| {
        assert IsKeyed(SenderOf(runs[r]), keyOf, k);
      }
    }
  }

  lemma ReceivedAre<T>(bounds: seq<nat>, runs: seq<Run<T>>, keyOf: T -> nat, q: nat)
    requires AllDistributed(bounds, runs, keyOf) && q < |runs|
    ensures forall r: nat :: r < |runs| ==> q < |SentBy(runs)[r]|
    ensures runs[q].messages == Incoming(SentBy(runs), q)
  {
    AllSent(bounds, runs, keyOf);
    assert IsRunOf(bounds, runs, keyOf, q);
    forall r: nat | r < |runs| ensures runs[q].messages[r] == Incoming(SentBy(runs), q)[r] {
      assert IsBetween(runs, r, q);
    }
  }

  // ------------------------------------------------------------- buffer places of one rank

  ghost predicate IsInEnvelope<T>(run: Run<T>, i: nat) {
    var v := AssignedEnvelope(run.o, run.n); v.0 <= i < v.1
  }

  /** The particles from `postExchangeStart` on that are counted as assigned. */
  ghost predicate IsOwnedAt<T>(run: Run<T>, i: nat)
    requires run.me + 1 < |run.sends|
  {
    var first := FirstOwned(run);
    first <= i < first + SendCount(run.sends, run.me) + run.n
  }

  /** Where the particles of the sorted list come from. */
  lemma EntryIs<T>(run: Run<T>, keyOf: T -> nat, x: nat)
    requires IsCompleted(run, keyOf) && x < |run.e|
    ensures var from := run.o.start - AssignedEnvelope(run.o, run.n).0;
            && from >= 0 && |run.presentMap| == |run.presentKeys| == run.o.end - run.o.start
            && if Within(x, from, from + |run.presentKeys|)
               then run.e[x] == Entry(run.presentKeys[x - from], run.presentMap[x - from])
               else run.e[x].index == AssignedEnvelope(run.o, run.n).0 + x < |run.fields| &&
                    run.e[x].key == keyOf(run.fields[run.e[x].index]) && IsReceivePlace(run, run.e[x].index)
  {
    var v := AssignedEnvelope(run.o, run.n);
    var from := run.o.start - v.0;
    if Within(x, from, from + |run.presentKeys|) {
      assert IsPresentAt(run.e, from, run.presentKeys, run.presentMap, x - from);
    } else {
      assert IsLabelledAt(v.0, keyOf, run.fields, run.e, x);
    }
  }

  ghost predicate IsReceivePlace<T>(run: Run<T>, p: nat) {
    && IsBuffer(run.o) && (run.o.start >= run.n || run.o.size - run.o.end >= run.n)
    && ReceiveStart(run.o, run.n) <= p < ReceiveStart(run.o, run.n) + run.n
  }

  /** Two positions of the sorted list never have the same place. */
  lemma EntriesDiffer<T>(run: Run<T>, keyOf: T -> nat, x: nat, y: nat)
    requires IsCompleted(run, keyOf) && x < |run.e| && y < |run.e| && run.e[x].index == run.e[y].index
    ensures x == y
  {
    EntryIs(run, keyOf, x);
    EntryIs(run, keyOf, y);
  }

  /** Every entry of the list has one position in the arrays after sorting. */
  lemma PositionOf<T>(run: Run<T>, keyOf: T -> nat, x: nat) returns (i: nat)
    requires IsCompleted(run, keyOf) && x < |run.e|
    ensures IsInEnvelope(run, i) && i < |run.map_| && i < |run.keys|
    ensures run.map_[i] == run.e[x].index && run.keys[i] == run.e[x].key
  {
    assert x in run.sorted;
    var j: nat :| j < |run.sorted| && run.sorted[j] == x;
    i := AssignedEnvelope(run.o, run.n).0 + j;
  }

  lemma EntryAt<T>(run: Run<T>, keyOf: T -> nat, i: nat) returns (x: nat)
    requires IsCompleted(run, keyOf) && IsInEnvelope(run, i)
    ensures x < |run.e| && i < |run.map_| && i < |run.keys| && i - AssignedEnvelope(run.o, run.n).0 < |run.sorted|
    ensures run.sorted[i - AssignedEnvelope(run.o, run.n).0] == x
    ensures run.map_[i] == run.e[x].index && run.keys[i] == run.e[x].key
  {
    x := run.sorted[i - AssignedEnvelope(run.o, run.n).0];
  }

  lemma PositionsDiffer<T>(run: Run<T>, keyOf: T -> nat, i: nat, j: nat)
    requires IsCompleted(run, keyOf) && IsInEnvelope(run, i) && IsInEnvelope(run, j)
    ensures i < |run.map_| && j < |run.map_| && (run.map_[i] == run.map_[j] ==> i == j)
  {
    var x := EntryAt(run, keyOf, i);
    var y := EntryAt(run, keyOf, j);
    if run.e[x].index == run.e[y].index {
      EntriesDiffer(run, keyOf, x, y);
      NoneTwice(run.e, run.sorted, i - AssignedEnvelope(run.o, run.n).0, j - AssignedEnvelope(run.o, run.n).0);
    }
  }

  lemma OwnedIsInEnvelope<T>(run: Run<T>, keyOf: T -> nat, i: nat)
    requires IsCompleted(run, keyOf) && run.me + 1 < |run.sends| && IsOwnedAt(run, i)
    ensures IsInEnvelope(run, i)
  {
    SendBounds(run.bounds, run.presentKeys, run.sends);
  }

  // ------------------------------------------------------------- which particle is where

  /** Place p of rank q has particle k of rank r: a present particle stays where it was, a received one is at its
      offset in the message of rank r, which is where the log says. */
  ghost predicate HoldsAt<T>(runs: seq<Run<T>>, q: nat, p: nat, r: nat, k: nat)
    requires q < |runs| && r < |runs|
  {
    if r == q then k < |runs[q].presentMap| && p == runs[q].presentMap[k]
    else exists j: nat :: IsOfMessage(runs[q], runs[r], j, p, k)
  }

  ghost predicate IsOfMessage<T>(receiver: Run<T>, sender: Run<T>, j: nat, p: nat, k: nat) {
    && j < |receiver.log| && receiver.log[j].rank == sender.me < |receiver.messages| && receiver.me < |sender.sends|
    && sender.sends[receiver.me] <= k < sender.sends[receiver.me] + |receiver.messages[sender.me]|
    && p == receiver.log[j].location + (k - sender.sends[receiver.me])
  }

  /** Position i of rank q is that of particle k of rank r, with its key and its field. */
  ghost predicate IsParticleAt<T>(runs: seq<Run<T>>, q: nat, i: nat, r: nat, k: nat)
    requires q < |runs| && r < |runs|
  {
    && i < |runs[q].map_| && i < |runs[q].keys| && k < |runs[r].presentKeys| && k < |runs[r].presentMap|
    && HoldsAt(runs, q, runs[q].map_[i], r, k) && runs[q].keys[i] == runs[r].presentKeys[k]
    && IsSameField(runs[q].fields, runs[q].map_[i], runs[r].before, runs[r].presentMap[k])
  }

  ghost predicate IsSameField<T>(fields: seq<T>, p: nat, before: seq<T>, i: nat) {
    p < |fields| && i < |before| && fields[p] == before[i]
  }

  /** Particle k of rank r belongs to rank q. */
  ghost predicate BelongsTo<T>(bounds: seq<nat>, runs: seq<Run<T>>, r: nat, k: nat, q: nat) {
    && r < |runs| && q < |runs| && q + 1 < |bounds| && k < |runs[r].presentKeys|
    && bounds[q] <= runs[r].presentKeys[k] < bounds[q + 1]
  }

  /** The messages of a rank are in its receive range, where the log says. */
  lemma LogIs<T>(run: Run<T>, keyOf: T -> nat, j: nat)
    requires IsCompleted(run, keyOf) && j < |run.order|
    ensures |run.log| == |run.order| && run.order[j] < |run.messages|
    ensures run.log[j] == LogEntry(run.order[j], ReceiveStart(run.o, run.n) + Arrived(run.order, run.messages, j))
    ensures run.log[j].location + |run.messages[run.order[j]]| <= ReceiveStart(run.o, run.n) + run.n
    ensures IsPlaced(run.fields, run.log[j].location, run.messages[run.order[j]])
  {
    var start := ReceiveStart(run.o, run.n);
    var places := Consecutive(run.order, run.messages, start, |run.order|);
    assert IsNextPlace(run.order, run.messages, start, places, j);
    ArrivedGrows(run.order, run.messages, j, |run.order|);
    assert run.log[j] == LogEntry(run.order[j], places[j]);
  }

  /** A place of a message is in the list that is sorted. */
  lemma EntryOfPlace<T>(run: Run<T>, keyOf: T -> nat, p: nat) returns (x: nat)
    requires IsCompleted(run, keyOf) && IsReceivePlace(run, p)
    ensures x < |run.e| && run.e[x].index == p < |run.fields| && run.e[x].key == keyOf(run.fields[p])
  {
    x := p - AssignedEnvelope(run.o, run.n).0;
    EntryIs(run, keyOf, x);
  }

  lemma StaysHere<T>(run: Run<T>, keyOf: T -> nat, k: nat) returns (x: nat)
    requires IsCompleted(run, keyOf) && k < |run.presentKeys|
    ensures x < |run.e| && k < |run.presentMap| && run.e[x] == Entry(run.presentKeys[k], run.presentMap[k])
    ensures IsSameField(run.fields, run.presentMap[k], run.before, run.presentMap[k])
  {
    x := run.o.start - AssignedEnvelope(run.o, run.n).0 + k;
    EntryIs(run, keyOf, x);
    assert IsKeyed(SenderOf(run), keyOf, k);
  }

  /** Where entry i of the message of rank r is. */
  lemma PlaceInMessage<T>(run: Run<T>, keyOf: T -> nat, r: nat, i: nat) returns (j: nat, p: nat)
    requires IsCompleted(run, keyOf) && r < |run.messages| && i < |run.messages[r]|
    ensures j < |run.log| && run.log[j].rank == r && p == run.log[j].location + i && IsReceivePlace(run, p)
    ensures p < |run.fields| && run.fields[p] == run.messages[r][i]
  {
    assert r in run.order;
    j :| j < |run.order| && run.order[j] == r;
    LogIs(run, keyOf, j);
    p := run.log[j].location + i;
  }

  /** What is at a place of the receive range. */
  lemma MessageAt<T>(run: Run<T>, keyOf: T -> nat, p: nat) returns (j: nat, r: nat, i: nat)
    requires IsCompleted(run, keyOf) && IsReceivePlace(run, p)
    ensures j < |run.log| && run.log[j].rank == r < |run.messages| && i < |run.messages[r]|
    ensures p == run.log[j].location + i
    ensures p < |run.fields| && run.fields[p] == run.messages[r][i]
  {
    j := CoveredByMessage(run.order, run.messages, ReceiveStart(run.o, run.n), |run.order|, p);
    LogIs(run, keyOf, j);
    r, i := run.order[j], p - run.log[j].location;
    assert run.fields[run.log[j].location + i] == run.messages[r][i];
  }

  /** Entry i of a message is the particle at its offset. */
  lemma EntryOfMessage<T>(bounds: seq<nat>, s: Sender<T>, sends: seq<nat>, sent: seq<seq<T>>, keyOf: T -> nat, r: nat,
                          q: nat, k: nat)
    requires AreBounds(bounds) && HasSent(bounds, s, sends, sent, r) && AreKeyed(s, keyOf) && q + 1 < |bounds| && q != r
    requires sends[q] <= k < sends[q] + |sent[q]|
    ensures k < |s.keys| && bounds[q] <= s.keys[k] < bounds[q + 1] && s.ordering[k] < |s.fields|
    ensures sent[q][k - sends[q]] == s.fields[s.ordering[k]] && keyOf(s.fields[s.ordering[k]]) == s.keys[k]
  {
    assert IsMessage(sent[q], sends, r, s.ordering, s.fields, q);
    assert IsGathered(sent[q][k - sends[q]], s.ordering, s.fields, sends[q] + (k - sends[q]));
    assert IsKeyed(s, keyOf, k);
    IsInMessage(bounds, s, sends, sent, r, q, k);
  }

  lemma IsInMessage<T>(bounds: seq<nat>, s: Sender<T>, sends: seq<nat>, sent: seq<seq<T>>, r: nat, q: nat, k: nat)
    requires AreBounds(bounds) && HasSent(bounds, s, sends, sent, r) && q + 1 < |bounds| && q != r && k < |s.keys|
    ensures bounds[q] <= s.keys[k] < bounds[q + 1] <==> sends[q] <= k < sends[q] + |sent[q]|
  {
    assert IsMessage(sent[q], sends, r, s.ordering, s.fields, q);
    SentToOwner(bounds, s.keys, sends, q, k);
  }

  /** A rank and what it has sent. */
  lemma SenderIs<T>(bounds: seq<nat>, runs: seq<Run<T>>, keyOf: T -> nat, r: nat, q: nat)
    requires AllDistributed(bounds, runs, keyOf) && r < |runs| && q < |runs|
    ensures runs[q].me == q && runs[r].me == r && q + 1 < |runs[r].sends| && IsCompleted(runs[q], keyOf)
    ensures HasSent(bounds, SenderOf(runs[r]), runs[r].sends, runs[r].outgoing, r) && AreKeyed(SenderOf(runs[r]), keyOf)
    ensures q < |runs[r].outgoing| && r < |runs[q].messages| && runs[q].messages[r] == runs[r].outgoing[q]
  {
    AllSent(bounds, runs, keyOf);
    assert HasSent(bounds, Senders(runs)[r], SendsOf(runs)[r], SentBy(runs)[r], r);
    assert IsRunOf(bounds, runs, keyOf, r) && IsRunOf(bounds, runs, keyOf, q) && IsBetween(runs, r, q);
  }

  /** A particle that comes from another rank is in the message of that rank. */
  lemma ComesHere<T>(bounds: seq<nat>, runs: seq<Run<T>>, keyOf: T -> nat, q: nat, r: nat, k: nat) returns (x: nat)
    requires AllDistributed(bounds, runs, keyOf) && BelongsTo(bounds, runs, r, k, q) && r != q
    ensures x < |runs[q].e| && runs[q].e[x].key == runs[r].presentKeys[k] && k < |runs[r].presentMap|
    ensures HoldsAt(runs, q, runs[q].e[x].index, r, k)
    ensures IsSameField(runs[q].fields, runs[q].e[x].index, runs[r].before, runs[r].presentMap[k])
  {
    SenderIs(bounds, runs, keyOf, r, q);
    var s, first := SenderOf(runs[r]), runs[r].sends[q];
    IsInMessage(bounds, s, runs[r].sends, runs[r].outgoing, r, q, k);
    EntryOfMessage(bounds, s, runs[r].sends, runs[r].outgoing, keyOf, r, q, k);
    var j, p := PlaceInMessage(runs[q], keyOf, r, k - first);
    assert IsOfMessage(runs[q], runs[r], j, p, k);
    x := EntryOfPlace(runs[q], keyOf, p);
  }

  /** Every particle of the range of rank q, on whichever rank it was, is one that q owns afterwards. */
  lemma OwnerHasParticle<T>(bounds: seq<nat>, runs: seq<Run<T>>, keyOf: T -> nat, q: nat, r: nat, k: nat)
    returns (i: nat)
    requires AllDistributed(bounds, runs, keyOf) && BelongsTo(bounds, runs, r, k, q)
    ensures runs[q].me + 1 < |runs[q].sends| && IsOwnedAt(runs[q], i) && IsParticleAt(runs, q, i, r, k)
  {
    assert IsRunOf(bounds, runs, keyOf, q) && IsRunOf(bounds, runs, keyOf, r);
    var x;
    if r == q { x := StaysHere(runs[q], keyOf, k); } else { x := ComesHere(bounds, runs, keyOf, q, r, k); }
    i := PositionOf(runs[q], keyOf, x);
    OwnedAfterExchange(runs[q], i);
  }

  /** An entry is that of a present particle or of a received one. */
  lemma StaysOrArrives<T>(run: Run<T>, keyOf: T -> nat, x: nat) returns (present: bool, k: nat)
    requires IsCompleted(run, keyOf) && x < |run.e|
    ensures if present then k < |run.presentKeys| == |run.presentMap| &&
            run.e[x] == Entry(run.presentKeys[k], run.presentMap[k]) &&
                            IsSameField(run.fields, run.presentMap[k], run.before, run.presentMap[k])
            else IsReceivePlace(run, run.e[x].index) && run.e[x].index < |run.fields| &&
                 run.e[x].key == keyOf(run.fields[run.e[x].index])
  {
    EntryIs(run, keyOf, x);
    var from := run.o.start - AssignedEnvelope(run.o, run.n).0;
    present, k := Within(x, from, from + |run.presentKeys|), 0;
    if present {
      k := x - from;
      var y := StaysHere(run, keyOf, k);
    }
  }

  lemma OwnedEntry<T>(run: Run<T>, keyOf: T -> nat, i: nat) returns (x: nat)
    requires IsCompleted(run, keyOf) && run.me + 1 < |run.sends| && IsOwnedAt(run, i)
    ensures x < |run.e| && i < |run.map_| && i < |run.keys| && run.me + 1 < |run.bounds|
    ensures run.map_[i] == run.e[x].index && run.keys[i] == run.e[x].key
    ensures run.bounds[run.me] <= run.keys[i] < run.bounds[run.me + 1]
  {
    OwnedIsInEnvelope(run, keyOf, i);
    OwnedAfterExchange(run, i);
    x := EntryAt(run, keyOf, i);
  }

  /** Everything that rank q owns afterwards was on some rank. */
  lemma OwnedComesFrom<T>(bounds: seq<nat>, runs: seq<Run<T>>, keyOf: T -> nat, q: nat, i: nat) returns (r: nat, k: nat)
    requires AllDistributed(bounds, runs, keyOf) && q < |runs|
    requires runs[q].me + 1 < |runs[q].sends| && IsOwnedAt(runs[q], i)
    ensures BelongsTo(bounds, runs, r, k, q) && IsParticleAt(runs, q, i, r, k)
  {
    SenderIs(bounds, runs, keyOf, q, q);
    assert IsRunOf(bounds, runs, keyOf, q);
    var x := OwnedEntry(runs[q], keyOf, i);
    var present;
    present, k := StaysOrArrives(runs[q], keyOf, x);
    r := q;
    if !present { r, k := SourceOf(bounds, runs, keyOf, q, runs[q].e[x].index); }
  }

  /** Which particle is at a place of the receive range. */
  lemma SourceOf<T>(bounds: seq<nat>, runs: seq<Run<T>>, keyOf: T -> nat, q: nat, p: nat) returns (r: nat, k: nat)
    requires AllDistributed(bounds, runs, keyOf) && q < |runs| && IsReceivePlace(runs[q], p)
    ensures r < |runs| && r != q && BelongsTo(bounds, runs, r, k, q) && HoldsAt(runs, q, p, r, k)
    ensures k < |runs[r].presentMap|
    ensures IsSameField(runs[q].fields, p, runs[r].before, runs[r].presentMap[k])
    ensures keyOf(runs[q].fields[p]) == runs[r].presentKeys[k]
  {
    assert IsRunOf(bounds, runs, keyOf, q);
    var j, i;
    j, r, i := MessageAt(runs[q], keyOf, p);
    SenderIs(bounds, runs, keyOf, r, q);
    NothingToOneself(bounds, SenderOf(runs[r]), runs[r].sends, runs[r].outgoing, r);
    k := runs[r].sends[q] + i;
    EntryOfMessage(bounds, SenderOf(runs[r]), runs[r].sends, runs[r].outgoing, keyOf, r, q, k);
    assert IsOfMessage(runs[q], runs[r], j, p, k);
  }

  lemma NothingToOneself<T>(bounds: seq<nat>, s: Sender<T>, sends: seq<nat>, sent: seq<seq<T>>, r: nat)
    requires HasSent(bounds, s, sends, sent, r) && r < |sent|
    ensures sent[r] == []
  {
    assert IsMessage(sent[r], sends, r, s.ordering, s.fields, r);
  }

  /** Messages do not overlap, and there is one of every sender. */
  lemma MessagesDiffer<T>(run: Run<T>, keyOf: T -> nat, j: nat, i: nat, j': nat, i': nat)
    requires IsCompleted(run, keyOf) && j < |run.log| && j' < |run.log|
    requires run.log[j].rank < |run.messages| && i < |run.messages[run.log[j].rank]|
    requires run.log[j'].rank < |run.messages| && i' < |run.messages[run.log[j'].rank]|
    ensures run.log[j].location + i == run.log[j'].location + i' <==> run.log[j].rank == run.log[j'].rank && i == i'
  {
    LogIs(run, keyOf, j);
    LogIs(run, keyOf, j');
    if j < j' { ArrivedGrows(run.order, run.messages, j, j'); }
    if j' < j { ArrivedGrows(run.order, run.messages, j', j); }
  }

  /** A place has one particle, and a particle one place. */
  lemma HeldOnce<T>(bounds: seq<nat>, runs: seq<Run<T>>, keyOf: T -> nat, q: nat, p: nat, r: nat, k: nat, p': nat,
                    r': nat, k': nat)
    requires AllDistributed(bounds, runs, keyOf) && q < |runs| && r < |runs| && r' < |runs|
    requires HoldsAt(runs, q, p, r, k) && HoldsAt(runs, q, p', r', k')
    ensures p == p' <==> r == r' && k == k'
  {
    SenderIs(bounds, runs, keyOf, r, q);
    SenderIs(bounds, runs, keyOf, r', q);
    if r != q && r' != q {
      ReceivedOnce(runs, keyOf, q, p, r, k, p', r', k');
    } else if r != q {
      MessageIsElsewhere(runs, keyOf, q, p, r, k, p', k');
    } else if r' != q {
      MessageIsElsewhere(runs, keyOf, q, p', r', k', p, k);
    }
  }

  lemma ReceivedOnce<T>(runs: seq<Run<T>>, keyOf: T -> nat, q: nat, p: nat, r: nat, k: nat, p': nat, r': nat, k': nat)
    requires q < |runs| && r < |runs| && r' < |runs| && r != q && r' != q && IsCompleted(runs[q], keyOf)
    requires runs[q].me == q && runs[r].me == r && runs[r'].me == r'
    requires HoldsAt(runs, q, p, r, k) && HoldsAt(runs, q, p', r', k')
    ensures p == p' <==> r == r' && k == k'
  {
    var j: nat :| IsOfMessage(runs[q], runs[r], j, p, k);
    var j': nat :| IsOfMessage(runs[q], runs[r'], j', p', k');
    MessagesDiffer(runs[q], keyOf, j, k - runs[r].sends[q], j', k' - runs[r'].sends[q]);
  }

  lemma MessageIsElsewhere<T>(runs: seq<Run<T>>, keyOf: T -> nat, q: nat, p: nat, r: nat, k: nat, p': nat, k': nat)
    requires q < |runs| && r < |runs| && r != q && IsCompleted(runs[q], keyOf)
    requires HoldsAt(runs, q, p, r, k) && HoldsAt(runs, q, p', q, k')
    ensures p != p'
  {
    var j: nat :| IsOfMessage(runs[q], runs[r], j, p, k);
    LogIs(runs[q], keyOf, j);
  }

  /** Owned position i of rank q is that of particle k of rank r. */
  ghost predicate Owns<T>(runs: seq<Run<T>>, q: nat, i: nat, r: nat, k: nat) {
    q < |runs| && r < |runs| && runs[q].me + 1 < |runs[q].sends| && IsOwnedAt(runs[q], i) &&
    IsParticleAt(runs, q, i, r, k)
  }

  /** Particles of rank q after the exchange: those that belong to it, from all ranks, are in the owned part, every one
      at one position; every owned position has one of them; and there are as many as are assigned to the rank. */
  lemma EveryParticleOnce<T>(bounds: seq<nat>, runs: seq<Run<T>>, keyOf: T -> nat, q: nat)
    requires AllDistributed(bounds, runs, keyOf) && q < |runs|
    ensures runs[q].me == q && q + 1 < |runs[q].sends|
    ensures forall r: nat, k: nat :: BelongsTo(bounds, runs, r, k, q) ==> exists i: nat :: Owns(runs, q, i, r, k)
    ensures forall i: nat :: IsOwnedAt(runs[q], i) ==>
      exists r: nat, k: nat :: BelongsTo(bounds, runs, r, k, q) && Owns(runs, q, i, r, k)
    ensures forall i: nat, j: nat, r: nat, k: nat, r': nat, k': nat ::
      Owns(runs, q, i, r, k) && Owns(runs, q, j, r', k') ==> (i == j <==> r == r' && k == k')
    ensures SendCount(runs[q].sends, q) + runs[q].n == NumAssigned(bounds, Senders(runs), q)
  {
    AllSent(bounds, runs, keyOf);
    ReceivedAre(bounds, runs, keyOf, q);
    assert IsRunOf(bounds, runs, keyOf, q);
    AllArrive(bounds, Senders(runs), SendsOf(runs), SentBy(runs), q, runs[q].order);
    forall r: nat, k: nat | BelongsTo(bounds, runs, r, k, q) ensures exists i: nat :: Owns(runs, q, i, r, k) {
      var i := OwnerHasParticle(bounds, runs, keyOf, q, r, k);
      assert Owns(runs, q, i, r, k);
    }
    forall i: nat | IsOwnedAt(runs[q], i)
      ensures exists r: nat, k: nat :: BelongsTo(bounds, runs, r, k, q) && Owns(runs, q, i, r, k)
    {
      var r, k := OwnedComesFrom(bounds, runs, keyOf, q, i);
      assert Owns(runs, q, i, r, k);
    }
    forall i: nat, j: nat, r: nat, k: nat, r': nat, k': nat | Owns(runs, q, i, r, k) && Owns(runs, q, j, r', k')
      ensures i == j <==> r == r' && k == k'
    {
      OwnedOnce(bounds, runs, keyOf, q, i, r, k, j, r', k');
    }
  }

  lemma OwnedOnce<T>(bounds: seq<nat>, runs: seq<Run<T>>, keyOf: T -> nat, q: nat, i: nat, r: nat, k: nat, j: nat,
                     r': nat, k': nat)
    requires AllDistributed(bounds, runs, keyOf) && Owns(runs, q, i, r, k) && Owns(runs, q, j, r', k')
    ensures i == j <==> r == r' && k == k'
  {
    assert IsRunOf(bounds, runs, keyOf, q);
    OwnedIsInEnvelope(runs[q], keyOf, i);
    OwnedIsInEnvelope(runs[q], keyOf, j);
    PositionsDiffer(runs[q], keyOf, i, j);
    HeldOnce(bounds, runs, keyOf, q, runs[q].map_[i], r, k, runs[q].map_[j], r', k');
  }

  // ------------------------------------------------------------- owners

  /** A key below the last boundary belongs to exactly one rank; keys of removed particles belong to none. */
  lemma {:induction false} OneOwner(bounds: seq<nat>, n: nat, key: nat) returns (q: nat)
    requires AreBounds(bounds) && n + 1 <= |bounds| && bounds[0] <= key < bounds[n]
    ensures q < n && bounds[q] <= key < bounds[q + 1]
    ensures forall p: nat :: p + 1 < |bounds| && bounds[p] <= key < bounds[p + 1] ==> p == q
  {
    q := n - 1;
    if key < bounds[n - 1] { q := OneOwner(bounds, n - 1, key); }
    forall p: nat | p + 1 < |bounds| && bounds[p] <= key < bounds[p + 1] ensures p == q {
      BoundsAscend(bounds, p + 1, q);
      BoundsAscend(bounds, q + 1, p);
    }
  }

  lemma BoundsAscend(bounds: seq<nat>, i: nat, j: nat)
    requires AreBounds(bounds)
    ensures i <= j < |bounds| ==> bounds[i] <= bounds[j]
  {
  }

  /** Every particle of every rank that is not removed is owned after the exchange: by one rank, at one position. */
  lemma NoParticleIsLost<T>(bounds: seq<nat>, runs: seq<Run<T>>, keyOf: T -> nat, r: nat, k: nat)
    returns (q: nat, i: nat)
    requires AllDistributed(bounds, runs, keyOf) && r < |runs| && k < |runs[r].presentKeys|
    requires bounds[0] <= runs[r].presentKeys[k] < bounds[|runs|]
    ensures Owns(runs, q, i, r, k)
    ensures forall p: nat, j: nat :: Owns(runs, p, j, r, k) ==> p == q && j == i
  {
    q := OneOwner(bounds, |runs|, runs[r].presentKeys[k]);
    i := OwnerHasParticle(bounds, runs, keyOf, q, r, k);
    forall p: nat, j: nat | Owns(runs, p, j, r, k) ensures p == q && j == i {
      assert IsRunOf(bounds, runs, keyOf, p);
      OwnedIsInEnvelope(runs[p], keyOf, j);
      OwnedAfterExchange(runs[p], j);
      if p == q { OwnedOnce(bounds, runs, keyOf, q, i, r, k, j, r, k); }
    }
  }
}
