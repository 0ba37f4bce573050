/** Stable sorting of buffer indices by the keys of their particles. */
module StableSorting {

  /** A key and the buffer index of its particle. */
  datatype Entry = Entry(key: nat, index: nat)

  /** Position i comes before position j in a stable order. */
  predicate Precedes(s: seq<Entry>, i: nat, j: nat) {
    i < |s| && j < |s| && (s[i].key < s[j].key || (s[i].key == s[j].key && i < j))
  }

  ghost predicate InOrder(s: seq<Entry>, order: seq<nat>) {
    forall a: nat, b: nat :: a < b < |order| ==> Precedes(s, order[a], order[b])
  }

  /** The first n positions in the order in which `std::stable_sort` puts them. */
  ghost predicate IsStableOrder(s: seq<Entry>, n: nat, order: seq<nat>) {
    && |order| == n <= |s| && InOrder(s, order)
    && (forall k: nat :: k < n ==> order[k] < n)
    && forall i: nat :: i < n ==> i in order
  }

  /** What `std::stable_sort` does, by insertion. */
  method StableSort(s: seq<Entry>) returns (order: seq<nat>)
    ensures IsStableOrder(s, |s|, order)
  {
    order := [];
    for n := 0 to |s|
      invariant IsStableOrder(s, n, order)
    {
      var place := FindPlace(s, n, order);
      InsertKeepsOrder(s, n, order, place);
      order := order[..place] + [n] + order[place..];
    }
  }

  method FindPlace(s: seq<Entry>, n: nat, order: seq<nat>) returns (place: nat)
    requires IsStableOrder(s, n, order) && n < |s|
    ensures place <= n
    ensures forall k: nat :: k < n ==> if k < place then Precedes(s, order[k], n) else Precedes(s, n, order[k])
  {
    place := n;
    while place > 0 && s[n].key < s[order[place - 1]].key
      invariant place <= n
      invariant forall k: nat :: place <= k < n ==> Precedes(s, n, order[k])
    {
      place := place - 1;
    }
    forall k: nat | k < place ensures Precedes(s, order[k], n) {
      if k < place - 1 { assert Precedes(s, order[k], order[place - 1]); }
    }
  }

  lemma InsertKeepsOrder(s: seq<Entry>, n: nat, order: seq<nat>, place: nat)
    requires IsStableOrder(s, n, order) && n < |s| && place <= n
    requires forall k: nat :: k < n ==> if k < place then Precedes(s, order[k], n) else Precedes(s, n, order[k])
    ensures IsStableOrder(s, n + 1, order[..place] + [n] + order[place..])
  {
    var r := order[..place] + [n] + order[place..];
    forall i: nat | i < n + 1 ensures i in r {
      if i < n {
        assert i in order;
        var k: nat :| k < n && order[k] == i;
        assert r[if k < place then k else k + 1] == i;
      } else {
        assert r[place] == n;
      }
    }
  }

  /** Keys and buffer indices side by side. */
  function Zip(keys: seq<nat>, map_: seq<nat>): (e: seq<Entry>)
    requires |keys| == |map_|
    ensures |e| == |keys| && forall i: nat :: i < |e| ==> e[i] == Entry(keys[i], map_[i])
  {
    seq(|keys|, (i: nat) requires i < |keys| && i < |map_| => Entry(keys[i], map_[i]))
  }

  /** Keys and indices from `from` to `to` are the entries of e in stable order. */
  ghost predicate AreSorted(keys: seq<nat>, map_: seq<nat>, from: nat, to: nat, e: seq<Entry>, order: seq<nat>) {
    && from <= to <= |keys| && to <= |map_| && |e| == to - from && IsStableOrder(e, |e|, order)
    && (forall i: nat :: from <= i < to ==> keys[i] == e[order[i - from]].key)
    && forall i: nat :: from <= i < to ==> map_[i] == e[order[i - from]].index
  }

  /** `sortByKey` on a part of both arrays; e is what was there before. */
  method SortByKey(keys: array<nat>, map_: array<nat>, from: nat, to: nat)
    returns (ghost e: seq<Entry>, ghost order: seq<nat>)
    requires keys != map_ && from <= to <= keys.Length && to <= map_.Length
    modifies keys, map_
    ensures e == old(Zip(keys[from..to], map_[from..to])) && AreSorted(keys[..], map_[..], from, to, e, order)
    ensures forall i: nat :: i < keys.Length && !(from <= i < to) ==> keys[i] == old(keys[i])
    ensures forall i: nat :: i < map_.Length && !(from <= i < to) ==> map_[i] == old(map_[i])
  {
    var entries := Zip(keys[from..to], map_[from..to]);
    var sorted := StableSort(entries);
    e, order := entries, sorted;
    StoreBack(keys, map_, from, to, entries, sorted);
  }

  method StoreBack(keys: array<nat>, map_: array<nat>, from: nat, to: nat, e: seq<Entry>, order: seq<nat>)
    requires keys != map_ && from <= to <= keys.Length && to <= map_.Length
    requires |order| == |e| == to - from && forall k: nat :: k < |order| ==> order[k] < |e|
    modifies keys, map_
    ensures forall i: nat :: i < keys.Length ==>
      keys[i] == if from <= i < to then e[order[i - from]].key else old(keys[i])
    ensures forall i: nat :: i < map_.Length ==>
      map_[i] == if from <= i < to then e[order[i - from]].index else old(map_[i])
  {
    for j := 0 to to - from
      invariant forall i: nat :: i < keys.Length ==>
        keys[i] == if from <= i < from + j then e[order[i - from]].key else old(keys[i])
      invariant forall i: nat :: i < map_.Length ==>
        map_[i] == if from <= i < from + j then e[order[i - from]].index else old(map_[i])
    {
      keys[from + j] := e[order[j]].key;
      map_[from + j] := e[order[j]].index;
    }
  }

  // ------------------------------------------------------------- entries that are smaller than all others

  lemma NoneTwice(s: seq<Entry>, order: seq<nat>, a: int, b: int)
    requires InOrder(s, order)
    ensures 0 <= a < |order| && 0 <= b < |order| && order[a] == order[b] ==> a == b
  {
    if 0 <= a < |order| && 0 <= b < |order| {
      assert a < b ==> Precedes(s, order[a], order[b]);
      assert b < a ==> Precedes(s, order[b], order[a]);
    }
  }

  lemma NotBefore(s: seq<Entry>, x: nat, y: nat)
    ensures !(Precedes(s, x, y) && Precedes(s, y, x))
  {
  }

  /** The positions of a part of the list are in order, and all others come later. */
  ghost predicate IsLow(s: seq<Entry>, from: nat, p: nat) {
    && from + p <= |s|
    && (forall x: nat, y: nat :: from <= x < y < from + p ==> Precedes(s, x, y))
    && forall x: nat, y: nat :: from <= x < from + p && y < |s| && !(from <= y < from + p) ==> Precedes(s, x, y)
  }

  /** Position x of the list ends up at x + shift. */
  ghost predicate MovesBy(order: seq<nat>, x: int, shift: int) {
    0 <= x + shift < |order| && order[x + shift] == x
  }

  /** They are the first ones after sorting. */
  lemma {:induction false} LowComeFirst(s: seq<Entry>, order: seq<nat>, from: nat, p: nat, x: nat)
    requires IsStableOrder(s, |s|, order) && IsLow(s, from, p) && from <= x < from + p
    ensures MovesBy(order, x, 0 - from)
    decreases x
  {
    var shift: int := 0 - from;
    forall y: nat | from <= y < x ensures MovesBy(order, y, shift) { LowComeFirst(s, order, from, p, y); }
    assert x in order;
    var j: nat :| j < |order| && order[j] == x;
    var y := order[x - from];
    assert j < x - from ==> MovesBy(order, from + j, shift);
    assert x - from < j ==> Precedes(s, y, x);
    assert from <= y < x ==> MovesBy(order, y, shift);
    NoneTwice(s, order, y - from, x - from);
    NotBefore(s, x, y);
    NotBefore(s, y, y);
  }

  /** The positions of a part of the list are in order, and all others come earlier. */
  ghost predicate IsHigh(s: seq<Entry>, from: nat, p: nat) {
    && from + p <= |s|
    && (forall x: nat, y: nat :: from <= x < y < from + p ==> Precedes(s, x, y))
    && forall x: nat, y: nat :: from <= x < from + p && y < |s| && !(from <= y < from + p) ==> Precedes(s, y, x)
  }

  /** They are the last ones after sorting. */
  lemma {:induction false} HighComeLast(s: seq<Entry>, order: seq<nat>, from: nat, p: nat, x: nat)
    requires IsStableOrder(s, |s|, order) && IsHigh(s, from, p) && from <= x < from + p
    ensures MovesBy(order, x, |s| - p - from)
    decreases from + p - x
  {
    var shift := |s| - p - from;
    forall y: nat | x < y < from + p ensures MovesBy(order, y, shift) { HighComeLast(s, order, from, p, y); }
    assert x in order;
    var j: nat :| j < |order| && order[j] == x;
    var y := order[shift + x];
    assert shift + x < j ==> MovesBy(order, j - shift, shift);
    assert j < shift + x ==> Precedes(s, x, y);
    assert x < y < from + p ==> MovesBy(order, y, shift);
    NoneTwice(s, order, shift + x, shift + y);
    NotBefore(s, x, y);
    NotBefore(s, y, y);
  }
}
