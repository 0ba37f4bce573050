/** Whole exchanges: all particles arrive, in any order of delivery, and an exchange can be repeated. */
module ExchangeRuns {
  import opened Counts
  import opened ExactCounts
  import opened ParticleExchange

  // ------------------------------------------------------------- sizes do not depend on the order

  lemma {:induction false} ArrivedWithout<T>(order: seq<nat>, messages: seq<seq<T>>, p: nat, n: nat)
    requires p < n <= |order| && forall k: nat :: k < |order| ==> order[k] < |messages|
    ensures Arrived(order, messages, n) == Arrived(order[..p] + order[p + 1..], messages, n - 1) + |messages[order[p]]|
  {
    var rest := order[..p] + order[p + 1..];
    if n > p + 1 {
      ArrivedWithout(order, messages, p, n - 1);
      assert rest[n - 2] == order[n - 1];
    } else {
      ArrivedSame(order, rest, messages, p);
    }
  }

  lemma {:induction false} ArrivedSame<T>(order: seq<nat>, other: seq<nat>, messages: seq<seq<T>>, n: nat)
    requires n <= |order| && n <= |other| && (forall k: nat :: k < n ==> order[k] == other[k])
    requires (forall k: nat :: k < |order| ==> order[k] < |messages|)
    requires forall k: nat :: k < |other| ==> other[k] < |messages|
    ensures Arrived(order, messages, n) == Arrived(other, messages, n)
  {
    if n > 0 { ArrivedSame(order, other, messages, n - 1); }
  }

  /** An arrival order of the messages of the first m ranks. */
  ghost predicate IsOrderBelow<T>(order: seq<nat>, messages: seq<seq<T>>, m: nat) {
    && m <= |messages|
    && (forall k: nat :: k < |order| ==> order[k] < m && messages[order[k]] != [])
    && (forall j: nat, k: nat :: j < k < |order| ==> order[j] != order[k])
    && forall r: nat :: r < m && messages[r] != [] ==> r in order
  }

  lemma OrderWithout<T>(order: seq<nat>, messages: seq<seq<T>>, m: nat, p: nat)
    requires IsOrderBelow(order, messages, m + 1) && p < |order| && order[p] == m
    ensures IsOrderBelow(order[..p] + order[p + 1..], messages, m)
  {
    var rest := order[..p] + order[p + 1..];
    forall k: nat | k < |rest| ensures rest[k] < m && messages[rest[k]] != [] {
      WithoutAt(order, p, k);
    }
    forall j: nat, k: nat | j < k < |rest| ensures rest[j] != rest[k] {
      WithoutAt(order, p, j);
      WithoutAt(order, p, k);
    }
    forall r: nat | r < m && messages[r] != [] ensures r in rest {
      assert r in order;
      WithoutHas(order, p, r);
    }
  }

  lemma WithoutAt(s: seq<nat>, p: nat, k: nat)
    requires p < |s| && k + 1 < |s|
    ensures (s[..p] + s[p + 1..])[k] == s[if k < p then k else k + 1]
  {
  }

  lemma WithoutHas(s: seq<nat>, p: nat, r: nat)
    requires p < |s| && r in s && r != s[p]
    ensures r in s[..p] + s[p + 1..]
  {
    var k: nat :| k < |s| && s[k] == r;
    WithoutAt(s, p, if k < p then k else k - 1);
  }

  lemma RemoveRank<T>(order: seq<nat>, messages: seq<seq<T>>, m: nat) returns (rest: seq<nat>)
    requires IsOrderBelow(order, messages, m + 1) && messages[m] != []
    ensures IsOrderBelow(rest, messages, m)
    ensures Arrived(order, messages, |order|) == Arrived(rest, messages, |rest|) + |messages[m]|
  {
    assert m in order;
    var p: nat :| p < |order| && order[p] == m;
    OrderWithout(order, messages, m, p);
    ArrivedWithout(order, messages, p, |order|);
    rest := order[..p] + order[p + 1..];
  }

  lemma {:induction false} ArrivedBelow<T>(order: seq<nat>, messages: seq<seq<T>>, m: nat)
    requires IsOrderBelow(order, messages, m)
    ensures Arrived(order, messages, |order|) == Size(messages, m)
    decreases m
  {
    if m > 0 {
      if messages[m - 1] == [] {
        ArrivedBelow(order, messages, m - 1);
      } else {
        var rest := RemoveRank(order, messages, m - 1);
        ArrivedBelow(rest, messages, m - 1);
      }
    }
  }

  /** Whatever the order of arrival, the same amount arrives. */
  lemma ArrivedIsSize<T>(order: seq<nat>, messages: seq<seq<T>>)
    requires IsArrivalOrder(order, messages)
    ensures Arrived(order, messages, |order|) == Size(messages, |messages|)
  {
    ArrivedBelow(order, messages, |messages|);
  }

  // ------------------------------------------------------------- all ranks

  /** What a rank has before the exchange: sorted keys, the buffer index of each, and a field. */
  datatype Sender<T> = Sender(keys: seq<nat>, ordering: seq<nat>, fields: seq<T>)

  ghost predicate IsSender<T>(s: Sender<T>) {
    Sorted(s.keys) && |s.ordering| == |s.keys| && forall k: nat :: k < |s.ordering| ==> s.ordering[k] < |s.fields|
  }

  /** All ranks have sent what the boundaries say. */
  ghost predicate AreSent<T>(bounds: seq<nat>, ranks: seq<Sender<T>>, sends: seq<seq<nat>>, sent: seq<seq<seq<T>>>) {
    && AreBounds(bounds) && |ranks| == |sends| == |sent| == |bounds| - 1
    && forall r: nat :: r < |ranks| ==> HasSent(bounds, ranks[r], sends[r], sent[r], r)
  }

  ghost predicate HasSent<T>(bounds: seq<nat>, s: Sender<T>, sends: seq<nat>, sent: seq<seq<T>>, r: nat) {
    IsSender(s) && AreSendRanges(sends, bounds, s.keys) && AreMessages(sent, sends, r, s.ordering, s.fields)
  }

  /** The messages to rank q, by sender. */
  ghost function Incoming<T>(sent: seq<seq<seq<T>>>, q: nat): (messages: seq<seq<T>>)
    requires forall r: nat :: r < |sent| ==> q < |sent[r]|
  {
    seq(|sent|, (r: nat) requires r < |sent| && q < |sent[r]| => sent[r][q])
  }

  ghost function KeysOf<T>(ranks: seq<Sender<T>>, n: nat): (keys: seq<seq<nat>>)
    requires n <= |ranks|
  {
    seq(n, (r: nat) requires r < |ranks| => ranks[r].keys)
  }

  /** `numAssigned`: the particles of all ranks in the range of rank q. */
  ghost function NumAssigned<T>(bounds: seq<nat>, ranks: seq<Sender<T>>, q: nat): (n: nat)
    requires q + 1 < |bounds|
  {
    CountIn(AllKeys(KeysOf(ranks, |ranks|)), bounds[q], bounds[q + 1])
  }

  lemma IncomingExists<T>(bounds: seq<nat>, ranks: seq<Sender<T>>, sends: seq<seq<nat>>, sent: seq<seq<seq<T>>>, q: nat)
    requires AreSent(bounds, ranks, sends, sent) && q < |ranks|
    ensures forall r: nat :: r < |sent| ==> q < |sent[r]|
  {
    forall r: nat | r < |sent| ensures q < |sent[r]| { assert HasSent(bounds, ranks[r], sends[r], sent[r], r); }
  }

  lemma MessageSize<T>(bounds: seq<nat>, s: Sender<T>, sends: seq<nat>, sent: seq<seq<T>>, r: nat, q: nat)
    requires AreBounds(bounds) && HasSent(bounds, s, sends, sent, r) && q + 1 < |bounds|
    ensures |sent[q]| == if r == q then 0 else CountIn(s.keys, bounds[q], bounds[q + 1])
    ensures SendCount(sends, q) == CountIn(s.keys, bounds[q], bounds[q + 1])
  {
    assert IsMessage(sent[q], sends, r, s.ordering, s.fields, q);
    assert bounds[q] <= bounds[q + 1];
    CountIsDistance(s.keys, bounds[q], bounds[q + 1]);
  }

  /** Particles of the first n ranks between two keys. */
  ghost function TotalIn<T>(ranks: seq<Sender<T>>, n: nat, lo: nat, hi: nat): (sum: nat)
    requires n <= |ranks|
  {
    if n == 0 then 0 else TotalIn(ranks, n - 1, lo, hi) + CountIn(ranks[n - 1].keys, lo, hi)
  }

  lemma {:induction false} TotalIsCount<T>(ranks: seq<Sender<T>>, n: nat, lo: nat, hi: nat)
    requires n <= |ranks|
    ensures CountIn(AllKeys(KeysOf(ranks, n)), lo, hi) == TotalIn(ranks, n, lo, hi)
  {
    if n > 0 {
      TotalIsCount(ranks, n - 1, lo, hi);
      CountOneMore(ranks, n, lo, hi);
    }
  }

  lemma {:induction false} SizesAddUp<T>(ranks: seq<Sender<T>>, messages: seq<seq<T>>, q: nat, own: nat, n: nat,
                                         lo: nat, hi: nat)
    requires n <= |ranks| == |messages|
    requires forall r: nat :: r < n ==> |messages[r]| + (if r == q then own else 0) == CountIn(ranks[r].keys, lo, hi)
    ensures Size(messages, n) + (if q < n then own else 0) == TotalIn(ranks, n, lo, hi)
  {
    if n > 0 { SizesAddUp(ranks, messages, q, own, n - 1, lo, hi); }
  }

  lemma CountOneMore<T>(ranks: seq<Sender<T>>, n: nat, lo: nat, hi: nat)
    requires 0 < n <= |ranks|
    ensures CountIn(AllKeys(KeysOf(ranks, n)), lo, hi) ==
            CountIn(AllKeys(KeysOf(ranks, n - 1)), lo, hi) + CountIn(ranks[n - 1].keys, lo, hi)
  {
    var keys := KeysOf(ranks, n);
    assert keys[..n - 1] == KeysOf(ranks, n - 1);
    CountInBoth(AllKeys(keys[..n - 1]), keys[n - 1], lo, hi);
  }

  /** In any order, exactly the assigned particles that are not present arrive, so that the receiving loop
      of the rank ends with the last message. */
  lemma AllArrive<T>(bounds: seq<nat>, ranks: seq<Sender<T>>, sends: seq<seq<nat>>, sent: seq<seq<seq<T>>>, q: nat,
                     order: seq<nat>)
    requires AreSent(bounds, ranks, sends, sent) && q < |ranks|
    requires (forall r: nat :: r < |sent| ==> q < |sent[r]|) && IsArrivalOrder(order, Incoming(sent, q))
    ensures Arrived(order, Incoming(sent, q), |order|) + SendCount(sends[q], q) == NumAssigned(bounds, ranks, q)
  {
    ArrivedIsSize(order, Incoming(sent, q));
    forall r: nat | r < |ranks|
      ensures |sent[r][q]| +
              (if r == q then SendCount(sends[q], q) else 0) == CountIn(ranks[r].keys, bounds[q], bounds[q + 1])
    {
      assert HasSent(bounds, ranks[r], sends[r], sent[r], r);
      MessageSize(bounds, ranks[r], sends[r], sent[r], r, q);
    }
    SizesAddUp(ranks, Incoming(sent, q), q, SendCount(sends[q], q), |ranks|, bounds[q], bounds[q + 1]);
    TotalIsCount(ranks, |ranks|, bounds[q], bounds[q + 1]);
  }

  // ------------------------------------------------------------- repetition

  ghost predicate HaveSameSizes<T, U>(messages: seq<seq<T>>, others: seq<seq<U>>) {
    |messages| == |others| && forall r: nat :: r < |messages| ==> |messages[r]| == |others[r]|
  }

  /** The logged places of ranks. */
  ghost function LoggedPlaces(log: seq<LogEntry>, order: seq<nat>): (places: seq<nat>)
    ensures |places| == |order|
    ensures forall k: nat :: k < |order| && IsLogged(log, order[k]) ==> places[k] == Lookup(log, order[k])
  {
    seq(|order|, (k: nat) requires k < |order| => if IsLogged(log, order[k]) then Lookup(log, order[k]) else 0)
  }

  /** With the log of an earlier exchange, messages of the same sizes that arrive in any other order fit,
      and land where the message of the same rank landed earlier. */
  lemma ReplayLandsSame<T, U>(messages: seq<seq<T>>, order: seq<nat>, places: seq<nat>, log: seq<LogEntry>, lo: nat,
                              hi: nat, others: seq<seq<U>>, order': seq<nat>)
    requires IsArrivalOrder(order, messages) && IsArrivalOrder(order', others) && HaveSameSizes(messages, others)
    requires ArePlaces([], order, places, messages, lo, hi) && IsLogAfter([], log, order, places, |order|)
    requires hi == lo + Arrived(order, messages, |order|)
    ensures ArePlaces(log, order', LoggedPlaces(log, order'), others, lo, hi)
    ensures hi == lo + Arrived(order', others, |order'|)
    ensures forall j: nat, k: nat :: j < |order| && k < |order'| && order[j] == order'[k] ==>
      places[j] == LoggedPlaces(log, order')[k]
  {
    ReplaySize(messages, order, others, order');
    ReplayBlocks(messages, order, places, log, lo, hi, others, order');
    NoneToReplay(messages, order, others, order');
    forall j: nat, k: nat | j < |order| && k < |order'| && order[j] == order'[k]
      ensures places[j] == LoggedPlaces(log, order')[k]
    {
      ReplayedPlace(messages, order, places, log, others, order', j, k);
    }
  }

  lemma ReplayedPlace<T, U>(messages: seq<seq<T>>, order: seq<nat>, places: seq<nat>, log: seq<LogEntry>,
                            others: seq<seq<U>>, order': seq<nat>, j: nat, k: nat)
    requires IsArrivalOrder(order, messages) && IsArrivalOrder(order', others) && HaveSameSizes(messages, others)
    requires |places| == |order| && IsLogAfter([], log, order, places, |order|)
    requires j < |order| && k < |order'| && order[j] == order'[k]
    ensures places[j] == LoggedPlaces(log, order')[k]
  {
    var i := LoggedAt(messages, order, places, log, others, order', k);
    assert i == j;
  }

  lemma ReplaySize<T, U>(messages: seq<seq<T>>, order: seq<nat>, others: seq<seq<U>>, order': seq<nat>)
    requires IsArrivalOrder(order, messages) && IsArrivalOrder(order', others) && HaveSameSizes(messages, others)
    ensures Arrived(order, messages, |order|) == Arrived(order', others, |order'|)
  {
    ArrivedIsSize(order, messages);
    ArrivedIsSize(order', others);
    SameSizes(messages, others, |messages|);
  }

  lemma ReplayBlocks<T, U>(messages: seq<seq<T>>, order: seq<nat>, places: seq<nat>, log: seq<LogEntry>, lo: nat,
                           hi: nat, others: seq<seq<U>>, order': seq<nat>)
    requires IsArrivalOrder(order, messages) && IsArrivalOrder(order', others) && HaveSameSizes(messages, others)
    requires AreBlocks(places, order, messages, lo, hi) && IsLogOf(log, order, places, |order|)
    ensures AreBlocks(LoggedPlaces(log, order'), order', others, lo, hi)
    ensures forall k: nat :: k < |order'| ==> IsLogged(log, order'[k])
  {
    var places' := LoggedPlaces(log, order');
    forall k: nat | k < |order'| ensures FitsAt(places', order', others, lo, hi, k) && IsLogged(log, order'[k]) {
      var j := LoggedAt(messages, order, places, log, others, order', k);
    }
    forall j: nat, k: nat | j < k < |order'| ensures AreApart(places', order', others, j, k) {
      PlacesApart(messages, order, places, log, lo, hi, others, order', places', j, k);
    }
    assert forall k: nat :: k < |order'| ==> FitsAt(places', order', others, lo, hi, k);
  }

  ghost predicate FitsAt<T>(places: seq<nat>, order: seq<nat>, messages: seq<seq<T>>, lo: nat, hi: nat, k: nat) {
    k < |order| == |places| && order[k] < |messages| && lo <= places[k] && places[k] + |messages[order[k]]| <= hi
  }

  lemma NoneToReplay<T, U>(messages: seq<seq<T>>, order: seq<nat>, others: seq<seq<U>>, order': seq<nat>)
    requires IsArrivalOrder(order, messages) && IsArrivalOrder(order', others) && HaveSameSizes(messages, others)
    ensures order == [] <==> order' == []
  {
    if order' != [] { assert |messages[order'[0]]| == |others[order'[0]]| && order'[0] in order; }
    if order != [] { assert |messages[order[0]]| == |others[order[0]]| && order[0] in order'; }
  }

  lemma PlacesApart<T, U>(messages: seq<seq<T>>, order: seq<nat>, places: seq<nat>, log: seq<LogEntry>, lo: nat,
                          hi: nat, others: seq<seq<U>>, order': seq<nat>, places': seq<nat>, j: nat, k: nat)
    requires IsArrivalOrder(order, messages) && IsArrivalOrder(order', others) && HaveSameSizes(messages, others)
    requires AreBlocks(places, order, messages, lo, hi) && IsLogOf(log, order, places, |order|) && |places'| == |order'|
    requires forall k: nat :: k < |order'| ==> IsLogged(log, order'[k]) && Lookup(log, order'[k]) == places'[k]
    requires j < k < |order'|
    ensures AreApart(places', order', others, j, k)
  {
    var i := LoggedAt(messages, order, places, log, others, order', j);
    var l := LoggedAt(messages, order, places, log, others, order', k);
    assert |messages[order'[j]]| == |others[order'[j]]| && |messages[order'[k]]| == |others[order'[k]]|;
    assert i < l ==> AreApart(places, order, messages, i, l);
    assert l < i ==> AreApart(places, order, messages, l, i);
  }

  lemma LoggedAt<T, U>(messages: seq<seq<T>>, order: seq<nat>, places: seq<nat>, log: seq<LogEntry>,
                       others: seq<seq<U>>, order': seq<nat>, k: nat) returns (j: nat)
    requires IsArrivalOrder(order, messages) && IsArrivalOrder(order', others) && HaveSameSizes(messages, others)
    requires IsLogOf(log, order, places, |order|) && k < |order'|
    ensures j < |order| && order[j] == order'[k] && IsLogged(log, order'[k]) && Lookup(log, order'[k]) == places[j]
  {
    var r := order'[k];
    assert |messages[r]| == |others[r]| && others[r] != [];
    assert r in order;
    j :| j < |order| && order[j] == r;
    assert log[j].rank == r;
    LookupFinds(log, r, 0, j);
  }

  lemma {:induction false} LookupFinds(log: seq<LogEntry>, rank: nat, from: nat, j: nat)
    requires from <= j < |log| && log[j].rank == rank && forall i: nat :: i < |log| && log[i].rank == rank ==> i == j
    ensures LookupFrom(log, rank, from) == log[j].location
    decreases j - from
  {
    if from < j { LookupFinds(log, rank, from + 1, j); }
  }

  lemma {:induction false} SameSizes<T, U>(messages: seq<seq<T>>, others: seq<seq<U>>, n: nat)
    requires HaveSameSizes(messages, others) && n <= |messages|
    ensures Size(messages, n) == Size(others, n)
  {
    if n > 0 { SameSizes(messages, others, n - 1); }
  }
}
