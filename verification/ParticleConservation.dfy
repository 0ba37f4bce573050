/** Conservation of particles in the exchange: afterwards every rank has sorted keys of its own range, and all ranks
    together have as many particles between any two keys as before. Counts that were exact stay exact. */
module ParticleConservation {
  import opened CornerstoneArray
  import opened Counts
  import opened ExactCounts
  import opened StableSorting
  import opened ParticleExchange
  import opened ExchangeRuns
  import opened GlobalAssignment
  import opened ParticleOwnership

  // ------------------------------------------------------------- sets of the same size

  ghost predicate Relates<X(!new), Y(!new)>(xs: set<X>, ys: set<Y>, related: (X, Y) -> bool) {
    && (forall x: X :: x in xs ==> HasRight(x, ys, related)) && (forall y: Y :: y in ys ==> HasLeft(xs, y, related))
    && forall x: X, y: Y, x': X, y': Y ::
         x in xs && x' in xs && y in ys && y' in ys && related(x, y) && related(x', y') ==>
         (x == x' <==> y == y')
  }

  ghost predicate HasRight<X(!new), Y(!new)>(x: X, ys: set<Y>, related: (X, Y) -> bool) {
    exists y: Y :: y in ys && related(x, y)
  }

  ghost predicate HasLeft<X(!new), Y(!new)>(xs: set<X>, y: Y, related: (X, Y) -> bool) {
    exists x: X :: x in xs && related(x, y)
  }

  /** A relation that pairs the elements of two sets one by one shows that they have the same size. */
  lemma {:induction false} PairedSetsHaveSameSize<X(!new), Y(!new)>(xs: set<X>, ys: set<Y>, related: (X, Y) -> bool)
    requires Relates(xs, ys, related)
    ensures |xs| == |ys|
    decreases |xs|
  {
    if xs == {} {
      if y: Y :| y in ys { assert HasLeft(xs, y, related); }
    } else {
      var x: X :| x in xs;
      assert HasRight(x, ys, related);
      var y: Y :| y in ys && related(x, y);
      forall a: X | a in xs - {x} ensures HasRight(a, ys - {y}, related) {
        assert HasRight(a, ys, related);
        var b: Y :| b in ys && related(a, b);
        assert b != y;
      }
      forall b: Y | b in ys - {y} ensures HasLeft(xs - {x}, b, related) {
        assert HasLeft(xs, b, related);
        var a: X :| a in xs && related(a, b);
        assert a != x;
      }
      PairedSetsHaveSameSize(xs - {x}, ys - {y}, related);
    }
  }

  /** Keys of rank r between a and b, as pairs of rank and position; positions count from `offset`. */
  ghost function Positions(r: nat, keys: seq<nat>, offset: nat, a: nat, b: nat): (s: set<(nat, nat)>) {
    set i: nat | offset <= i < offset + |keys| && a <= keys[i - offset] < b :: (r, i)
  }

  lemma {:induction false} CountIsSize(r: nat, keys: seq<nat>, offset: nat, a: nat, b: nat)
    ensures CountIn(keys, a, b) == |Positions(r, keys, offset, a, b)|
    decreases |keys|
  {
    if keys == [] {
      assert Positions(r, keys, offset, a, b) == {};
    } else {
      var rest := Positions(r, keys[1..], offset + 1, a, b);
      CountIsSize(r, keys[1..], offset + 1, a, b);
      FirstPosition(r, keys, offset, a, b);
      assert (r, offset) !in rest;
    }
  }

  lemma FirstPosition(r: nat, keys: seq<nat>, offset: nat, a: nat, b: nat)
    requires keys != []
    ensures Positions(r, keys, offset, a, b) ==
            (if a <= keys[0] < b then {(r, offset)} else {}) + Positions(r, keys[1..], offset + 1, a, b)
  {
    var rest := Positions(r, keys[1..], offset + 1, a, b);
    forall p: (nat, nat) | p in Positions(r, keys, offset, a, b)
      ensures p in (if a <= keys[0] < b then {(r, offset)} else {}) + rest
    {
      if p.1 > offset { assert keys[p.1 - offset] == keys[1..][p.1 - (offset + 1)]; }
    }
    forall p: (nat, nat) | p in rest ensures p in Positions(r, keys, offset, a, b) {
      assert keys[p.1 - offset] == keys[1..][p.1 - (offset + 1)];
    }
  }

  /** Particles of the first n ranks with keys between a and b. */
  ghost function Particles<T>(ranks: seq<Sender<T>>, n: nat, a: nat, b: nat): (s: set<(nat, nat)>)
    requires n <= |ranks|
  {
    set r: nat, k: nat | r < n && k < |ranks[r].keys| && a <= ranks[r].keys[k] < b :: (r, k)
  }

  lemma {:induction false} TotalIsSize<T>(ranks: seq<Sender<T>>, n: nat, a: nat, b: nat)
    requires n <= |ranks|
    ensures TotalIn(ranks, n, a, b) == |Particles(ranks, n, a, b)|
  {
    if n == 0 {
      assert Particles(ranks, n, a, b) == {};
    } else {
      TotalIsSize(ranks, n - 1, a, b);
      CountIsSize(n - 1, ranks[n - 1].keys, 0, a, b);
      OneMoreRank(ranks, n, a, b);
    }
  }

  lemma OneMoreRank<T>(ranks: seq<Sender<T>>, n: nat, a: nat, b: nat)
    requires 0 < n <= |ranks|
    ensures var last := Positions(n - 1, ranks[n - 1].keys, 0, a, b);
            && Particles(ranks, n, a, b) == Particles(ranks, n - 1, a, b) + last
            && Particles(ranks, n - 1, a, b) !! last
  {
    var keys := ranks[n - 1].keys;
    forall x: (nat, nat) | x in Particles(ranks, n, a, b)
      ensures x in Particles(ranks, n - 1, a, b) + Positions(n - 1, keys, 0, a, b)
    {
      if x.0 == n - 1 { assert keys[x.1] == keys[x.1 - 0]; }
    }
    forall x: (nat, nat) | x in Positions(n - 1, keys, 0, a, b) ensures x in Particles(ranks, n, a, b) && x.0 == n - 1 {
      assert keys[x.1] == keys[x.1 - 0];
    }
  }

  // ------------------------------------------------------------- keys after the exchange

  /** What `distribute` returns: the keys of the particles that the rank owns. */
  ghost function OwnedKeys<T>(run: Run<T>): (keys: seq<nat>) {
    if run.me + 1 < |run.sends| then
      var first := FirstOwned(run);
      var count := SendCount(run.sends, run.me) + run.n;
      if first + count <= |run.keys| then run.keys[first..first + count] else []
    else []
  }

  ghost function KeysAfter<T>(runs: seq<Run<T>>): (keys: seq<seq<nat>>)
    ensures |keys| == |runs| && forall q: nat :: q < |runs| ==> keys[q] == OwnedKeys(runs[q])
  {
    seq(|runs|, (q: nat) requires q < |runs| => OwnedKeys(runs[q]))
  }

  lemma OwnedKeysAre<T>(run: Run<T>, keyOf: T -> nat)
    requires IsCompleted(run, keyOf) && run.me + 1 < |run.sends|
    ensures |OwnedKeys(run)| == SendCount(run.sends, run.me) + run.n && FirstOwned(run) + |OwnedKeys(run)| <= |run.keys|
    ensures forall i: nat :: IsOwnedAt(run, i) <==> FirstOwned(run) <= i < FirstOwned(run) + |OwnedKeys(run)|
    ensures forall i: nat :: i < |OwnedKeys(run)| ==> OwnedKeys(run)[i] == run.keys[FirstOwned(run) + i]
  {
    var count := SendCount(run.sends, run.me) + run.n;
    if count > 0 {
      OwnedIsInEnvelope(run, keyOf, FirstOwned(run) + (count - 1));
    } else {
      SendBounds(run.bounds, run.presentKeys, run.sends);
    }
  }

  /** A rank's keys after the exchange are sorted and in its range. */
  lemma OwnedKeysAreSorted<T>(run: Run<T>, keyOf: T -> nat)
    requires IsCompleted(run, keyOf) && run.me + 1 < |run.sends| && run.me + 1 < |run.bounds|
    ensures Counts.Sorted(OwnedKeys(run)) && AreInRange(OwnedKeys(run), run.bounds[run.me], run.bounds[run.me + 1])
  {
    var keys := OwnedKeys(run);
    forall i: nat, j: nat | i < j < |keys| ensures keys[i] <= keys[j] { OwnedKeysAscend(run, keyOf, i, j); }
    forall i: nat | i < |keys|
      ensures run.bounds[run.me] <= keys[i] < run.bounds[run.me + 1] { OwnedKeyIs(run, keyOf, i); }
  }

  lemma OwnedKeysAscend<T>(run: Run<T>, keyOf: T -> nat, i: nat, j: nat)
    requires IsCompleted(run, keyOf) && run.me + 1 < |run.sends| && i < j < |OwnedKeys(run)|
    ensures OwnedKeys(run)[i] <= OwnedKeys(run)[j]
  {
    OwnedKeysAre(run, keyOf);
    KeysAscend(run, keyOf, FirstOwned(run) + i, FirstOwned(run) + j);
  }

  lemma OwnedKeyIs<T>(run: Run<T>, keyOf: T -> nat, i: nat)
    requires IsCompleted(run, keyOf) && run.me + 1 < |run.sends| && i < |OwnedKeys(run)| && run.me + 1 < |run.bounds|
    ensures run.bounds[run.me] <= OwnedKeys(run)[i] < run.bounds[run.me + 1]
  {
    OwnedKeysAre(run, keyOf);
    var x := OwnedEntry(run, keyOf, FirstOwned(run) + i);
  }

  lemma KeysAscend<T>(run: Run<T>, keyOf: T -> nat, i: nat, j: nat)
    requires IsCompleted(run, keyOf) && run.me + 1 < |run.sends| && IsOwnedAt(run, i) && IsOwnedAt(run, j) && i < j
    ensures j < |run.keys| && run.keys[i] <= run.keys[j]
  {
    OwnedIsInEnvelope(run, keyOf, i);
    OwnedIsInEnvelope(run, keyOf, j);
    var x := EntryAt(run, keyOf, i);
    var y := EntryAt(run, keyOf, j);
    assert Precedes(run.e, x, y);
  }

  // ------------------------------------------------------------- conservation

  /** Position p of rank q is that of particle x. */
  ghost predicate IsPositionOf<T>(runs: seq<Run<T>>, q: nat, p: (nat, nat), x: (nat, nat)) {
    p.0 == q && Owns(runs, q, p.1, x.0, x.1)
  }

  /** Between two keys of its range, a rank has afterwards as many particles as all ranks had before. */
  lemma OwnerHasAll<T>(bounds: seq<nat>, runs: seq<Run<T>>, keyOf: T -> nat, q: nat, a: nat, b: nat)
    requires AllDistributed(bounds, runs, keyOf) && q < |runs| && bounds[q] <= a && b <= bounds[q + 1]
    ensures CountIn(OwnedKeys(runs[q]), a, b) == TotalIn(Senders(runs), |runs|, a, b)
  {
    SenderIs(bounds, runs, keyOf, q, q);
    var after := Positions(q, OwnedKeys(runs[q]), FirstOwned(runs[q]), a, b);
    var before := Particles(Senders(runs), |runs|, a, b);
    var related := (p: (nat, nat), x: (nat, nat)) => IsPositionOf(runs, q, p, x);
    PositionsArePaired(bounds, runs, keyOf, q, a, b, after, before, related);
    PairedSetsHaveSameSize(after, before, related);
    CountIsSize(q, OwnedKeys(runs[q]), FirstOwned(runs[q]), a, b);
    TotalIsSize(Senders(runs), |runs|, a, b);
  }

  lemma PositionsArePaired<T>(bounds: seq<nat>, runs: seq<Run<T>>, keyOf: T -> nat, q: nat, a: nat, b: nat,
                              after: set<(nat, nat)>, before: set<(nat, nat)>,
                              related: ((nat, nat), (nat, nat)) -> bool)
    requires AllDistributed(bounds, runs, keyOf) && q < |runs| && bounds[q] <= a && b <= bounds[q + 1]
    requires runs[q].me + 1 < |runs[q].sends| && before == Particles(Senders(runs), |runs|, a, b)
    requires after == Positions(q, OwnedKeys(runs[q]), FirstOwned(runs[q]), a, b)
    requires forall p: (nat, nat), x: (nat, nat) :: related(p, x) <==> IsPositionOf(runs, q, p, x)
    ensures Relates(after, before, related)
  {
    assert IsRunOf(bounds, runs, keyOf, q);
    OwnedKeysAre(runs[q], keyOf);
    forall p: (nat, nat) | p in after ensures HasRight(p, before, related) {
      PositionHasParticle(bounds, runs, keyOf, q, a, b, p.1, before, related);
    }
    forall x: (nat, nat) | x in before ensures HasLeft(after, x, related) {
      ParticleHasPosition(bounds, runs, keyOf, q, a, b, x, after, related);
    }
    forall p: (nat, nat), x: (nat, nat), p': (nat, nat), x': (nat, nat) |
      p in after && p' in after && x in before && x' in before && related(p, x) && related(p', x')
      ensures p == p' <==> x == x'
    {
      OwnedOnce(bounds, runs, keyOf, q, p.1, x.0, x.1, p'.1, x'.0, x'.1);
    }
  }

  lemma PositionHasParticle<T>(bounds: seq<nat>, runs: seq<Run<T>>, keyOf: T -> nat, q: nat, a: nat, b: nat, i: nat,
                               before: set<(nat, nat)>, related: ((nat, nat), (nat, nat)) -> bool)
    requires AllDistributed(bounds, runs, keyOf) && q < |runs| && before == Particles(Senders(runs), |runs|, a, b)
    requires runs[q].me + 1 < |runs[q].sends| && IsOwnedAt(runs[q], i) && i < |runs[q].keys| && a <= runs[q].keys[i] < b
    requires forall p: (nat, nat), x: (nat, nat) :: related(p, x) <==> IsPositionOf(runs, q, p, x)
    ensures HasRight((q, i), before, related)
  {
    var r, k := OwnedComesFrom(bounds, runs, keyOf, q, i);
    assert Owns(runs, q, i, r, k);
    assert (r, k) in before;
    assert related((q, i), (r, k));
  }

  lemma ParticleHasPosition<T>(bounds: seq<nat>, runs: seq<Run<T>>, keyOf: T -> nat, q: nat, a: nat, b: nat,
                               x: (nat, nat), after: set<(nat, nat)>, related: ((nat, nat), (nat, nat)) -> bool)
    requires AllDistributed(bounds, runs, keyOf) && q < |runs| && bounds[q] <= a && b <= bounds[q + 1]
    requires x in Particles(Senders(runs), |runs|, a, b) && runs[q].me + 1 < |runs[q].sends|
    requires after == Positions(q, OwnedKeys(runs[q]), FirstOwned(runs[q]), a, b)
    requires forall p: (nat, nat), x: (nat, nat) :: related(p, x) <==> IsPositionOf(runs, q, p, x)
    ensures HasLeft(after, x, related)
  {
    assert BelongsTo(bounds, runs, x.0, x.1, q);
    var i := OwnerHasParticle(bounds, runs, keyOf, q, x.0, x.1);
    assert IsRunOf(bounds, runs, keyOf, q);
    OwnedKeysAre(runs[q], keyOf);
    assert Owns(runs, q, i, x.0, x.1);
    assert OwnedKeys(runs[q])[i - FirstOwned(runs[q])] == runs[q].keys[i];
    assert (q, i) in after;
    assert related((q, i), x);
  }

  lemma AfterIsAssigned<T>(bounds: seq<nat>, runs: seq<Run<T>>, keyOf: T -> nat)
    requires AllDistributed(bounds, runs, keyOf)
    ensures AreAssigned(KeysAfter(runs), bounds)
    ensures forall q: nat :: q < |runs| ==> Counts.Sorted(KeysAfter(runs)[q])
  {
    forall q: nat | q < |runs|
      ensures AreInRange(KeysAfter(runs)[q], bounds[q], bounds[q + 1]) && Counts.Sorted(KeysAfter(runs)[q])
    {
      SenderIs(bounds, runs, keyOf, q, q);
      assert IsRunOf(bounds, runs, keyOf, q);
      OwnedKeysAreSorted(runs[q], keyOf);
    }
  }

  /** Between two keys of the curve, from the first boundary up to boundary n, all ranks have afterwards as many
      particles as before. */
  lemma {:induction false} SameBelow<T>(bounds: seq<nat>, runs: seq<Run<T>>, keyOf: T -> nat, n: nat, a: nat, b: nat)
    requires AllDistributed(bounds, runs, keyOf) && n <= |runs| && bounds[0] <= a <= b <= bounds[n]
    ensures CountIn(AllKeys(KeysAfter(runs)), a, b) == CountIn(AllKeys(KeysOf(Senders(runs), |runs|)), a, b)
  {
    if n == 0 {
      NothingBetween(AllKeys(KeysAfter(runs)), a, b);
      NothingBetween(AllKeys(KeysOf(Senders(runs), |runs|)), a, b);
    } else {
      var c := if a >= bounds[n - 1] then a else if b <= bounds[n - 1] then b else bounds[n - 1];
      SameInRange(bounds, runs, keyOf, n - 1, c, b);
      if c > a { SameBelow(bounds, runs, keyOf, n - 1, a, c); } else { NothingBetweenBoth(runs, a, c); }
      CountSplits(AllKeys(KeysAfter(runs)), a, c, b);
      CountSplits(AllKeys(KeysOf(Senders(runs), |runs|)), a, c, b);
    }
  }

  lemma NothingBetweenBoth<T>(runs: seq<Run<T>>, a: nat, b: nat)
    requires a >= b
    ensures CountIn(AllKeys(KeysAfter(runs)), a, b) == CountIn(AllKeys(KeysOf(Senders(runs), |runs|)), a, b)
  {
    NothingBetween(AllKeys(KeysAfter(runs)), a, b);
    NothingBetween(AllKeys(KeysOf(Senders(runs), |runs|)), a, b);
  }

  lemma {:induction false} NothingBetween(keys: seq<nat>, a: nat, b: nat)
    requires a >= b
    ensures CountIn(keys, a, b) == 0
    decreases |keys|
  {
    if keys != [] { NothingBetween(keys[1..], a, b); }
  }

  lemma SameInRange<T>(bounds: seq<nat>, runs: seq<Run<T>>, keyOf: T -> nat, q: nat, a: nat, b: nat)
    requires AllDistributed(bounds, runs, keyOf) && q < |runs| && a <= b
    requires (a < b ==> bounds[q] <= a && b <= bounds[q + 1])
    ensures CountIn(AllKeys(KeysAfter(runs)), a, b) == CountIn(AllKeys(KeysOf(Senders(runs), |runs|)), a, b)
  {
    if a == b {
      NothingBetweenBoth(runs, a, b);
    } else {
      AfterIsAssigned(bounds, runs, keyOf);
      LocalCountIsTotal(KeysAfter(runs), bounds, q, a, b);
      OwnerHasAll(bounds, runs, keyOf, q, a, b);
      TotalIsCount(Senders(runs), |runs|, a, b);
    }
  }

  /** The exchange conserves particles, and what was counted before it is still exact after it: the inputs of the
      distributed count of focus trees. */
  lemma CountsStayExact<T>(bounds: seq<nat>, runs: seq<Run<T>>, keyOf: T -> nat, tree: seq<nat>, counts: seq<nat>,
                           maxCount: nat)
    requires AllDistributed(bounds, runs, keyOf) && Ascending(tree)
    requires AreCounts(tree, counts, AllKeys(KeysOf(Senders(runs), |runs|)), maxCount)
    requires forall i: nat :: i < |tree| ==> bounds[0] <= tree[i] <= bounds[|runs|]
    ensures AreAssigned(KeysAfter(runs), bounds) && forall q: nat :: q < |runs| ==> Counts.Sorted(KeysAfter(runs)[q])
    ensures AreCounts(tree, counts, AllKeys(KeysAfter(runs)), maxCount)
  {
    AfterIsAssigned(bounds, runs, keyOf);
    forall i: nat | i < |counts|
      ensures CountIn(AllKeys(KeysAfter(runs)), tree[i], tree[i + 1]) ==
              CountIn(AllKeys(KeysOf(Senders(runs), |runs|)), tree[i], tree[i + 1])
    {
      SameBelow(bounds, runs, keyOf, |runs|, tree[i], tree[i + 1]);
    }
  }
}
