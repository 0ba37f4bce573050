/** Recursive space-filling curves over octants: keys, points, cubes, and continuity.

A curve is given by what it does at one level. Everything else follows from a few laws of that one
level, which Hilbert.dfy proves for the program's tables and bit operations. */
module Curves {
  import opened Keys

  datatype Point = Point(x: nat, y: nat, z: nat)

  function Pow2(n: nat): (p: nat)
    ensures p >= 1
  {
    if n == 0 then 1 else 2 * Pow2(n - 1)
  }

  predicate InCube(p: Point, n: nat) {
    p.x < Pow2(n) && p.y < Pow2(n) && p.z < Pow2(n)
  }

  /** One level: `top` is the octal digit of the octant of a point of n + 1 bits, `inner` the turned
      point within that octant, and `outer` goes back. */
  datatype Level = Level(top: (Point, nat) -> nat, inner: (Point, nat) -> Point, outer: (nat, Point, nat) -> Point)

  ghost predicate SplitsAt(c: Level, p: Point, n: nat) {
    && c.top(p, n) < 8 && InCube(c.inner(p, n), n)
    && c.outer(c.top(p, n), c.inner(p, n), n) == p
  }

  ghost predicate JoinsAt(c: Level, d: nat, q: Point, n: nat) {
    && InCube(c.outer(d, q, n), n + 1)
    && c.top(c.outer(d, q, n), n) == d && c.inner(c.outer(d, q, n), n) == q
  }

  /** The two directions are mutually inverse. */
  ghost predicate IsInvertible(c: Level) {
    && (forall p: Point, n: nat :: InCube(p, n + 1) ==> SplitsAt(c, p, n))
    && forall d: nat, q: Point, n: nat :: d < 8 && InCube(q, n) ==> JoinsAt(c, d, q, n)
  }

  /** Key of a point with coordinates of n bits, from the top bit down. */
  ghost function Encode(c: Level, n: nat, p: Point): (key: nat) {
    if n == 0 then 0 else NthCell(Encode(c, n - 1, c.inner(p, n - 1)), n - 1, c.top(p, n - 1))
  }

  /** Point of the last n octal digits of a key, from the last digit up. */
  ghost function Decode(c: Level, n: nat, key: nat): (p: Point) {
    if n == 0 then Point(0, 0, 0) else c.outer(Digit(key, n - 1), Decode(c, n - 1, key), n - 1)
  }

  lemma {:induction false} DecodeInCube(c: Level, n: nat, key: nat)
    requires IsInvertible(c)
    ensures InCube(Decode(c, n, key), n)
  {
    if n > 0 {
      DecodeInCube(c, n - 1, key);
      assert JoinsAt(c, Digit(key, n - 1), Decode(c, n - 1, key), n - 1);
    }
  }

  // ------------------------------------------------------------- digits of a key

  /** The last n octal digits of a key. */
  function Low(key: nat, n: nat): (r: nat) {
    if n == 0 then 0 else 8 * Low(key / 8, n - 1) + key % 8
  }

  lemma {:induction false} NthTimes8Plus(a: nat, r: nat, h: nat, d: nat)
    ensures NthCell(8 * a + r, h + 1, d) == 8 * NthCell(a, h, d) + r
  {
    if d > 0 { NthTimes8Plus(a, r, h, d - 1); }
  }

  /** Adding a digit in front. */
  lemma {:induction false} LowOneMore(key: nat, n: nat)
    ensures Low(key, n + 1) == NthCell(Low(key, n), n, Digit(key, n))
  {
    if n == 0 {
      NthUnit(0, key % 8);
      assert Low(key, 1) == 8 * Low(key / 8, 0) + key % 8;
    } else {
      LowOneMore(key / 8, n - 1);
      NthTimes8Plus(Low(key / 8, n - 1), key % 8, n - 1, Digit(key, n));
    }
  }

  lemma {:induction false} LowOfSmall(key: nat, n: nat)
    requires key < Pow8(n)
    ensures Low(key, n) == key
  {
    if n > 0 { LowOfSmall(key / 8, n - 1); }
  }

  lemma {:induction false} LowIsSmall(key: nat, n: nat)
    ensures Low(key, n) < Pow8(n)
  {
    if n > 0 { LowIsSmall(key / 8, n - 1); }
  }

  /** The digits of a key with a digit in front. */
  lemma {:induction false} DigitsOfNth(e: nat, h: nat, d: nat, j: nat)
    requires e < Pow8(h) && d < 8 && j <= h
    ensures Digit(NthCell(e, h, d), j) == if j == h then d else Digit(e, j)
  {
    if h == 0 {
      NthUnit(e, d);
    } else {
      NthTimes8Plus(e / 8, e % 8, h - 1, d);
      assert e == 8 * (e / 8) + e % 8;
      if j > 0 { DigitsOfNth(e / 8, h - 1, d, j - 1); }
    }
  }

  /** Decoding depends on the last n digits only. */
  lemma {:induction false} DecodeDigits(c: Level, n: nat, k: nat, l: nat)
    requires forall j: nat :: j < n ==> Digit(k, j) == Digit(l, j)
    ensures Decode(c, n, k) == Decode(c, n, l)
  {
    if n > 0 { DecodeDigits(c, n - 1, k, l); }
  }

  lemma DigitPlusIsSmall(e: nat, h: nat, d: nat)
    requires e < Pow8(h) && d < 8
    ensures NthCell(e, h, d) < Pow8(h + 1)
  {
    NthMonotone(e, h, d, 8);
    EightCells(e, h);
  }

  lemma DigitsInFront(e: nat, h: nat, d: nat)
    requires e < Pow8(h) && d < 8
    ensures Digit(NthCell(e, h, d), h) == d
    ensures forall j: nat :: j < h ==> Digit(NthCell(e, h, d), j) == Digit(e, j)
  {
    DigitsOfNth(e, h, d, h);
    forall j: nat | j < h ensures Digit(NthCell(e, h, d), j) == Digit(e, j) {
      DigitsOfNth(e, h, d, j);
    }
  }

  // ------------------------------------------------------------- mutual inverses

  lemma {:induction false} EncodeIsSmall(c: Level, n: nat, p: Point)
    requires IsInvertible(c) && InCube(p, n)
    ensures Encode(c, n, p) < Pow8(n)
  {
    if n > 0 {
      assert SplitsAt(c, p, n - 1);
      EncodeIsSmall(c, n - 1, c.inner(p, n - 1));
      DigitPlusIsSmall(Encode(c, n - 1, c.inner(p, n - 1)), n - 1, c.top(p, n - 1));
    }
  }

  /** Encoding the point of a key gives the key back. */
  lemma {:induction false} EncodeDecode(c: Level, n: nat, key: nat)
    requires IsInvertible(c)
    ensures Encode(c, n, Decode(c, n, key)) == Low(key, n)
  {
    if n > 0 {
      EncodeDecode(c, n - 1, key);
      LowOneMore(key, n - 1);
      DecodeInCube(c, n - 1, key);
      assert JoinsAt(c, Digit(key, n - 1), Decode(c, n - 1, key), n - 1);
    }
  }

  /** Decoding the key of a point gives the point back. */
  lemma {:induction false} DecodeEncode(c: Level, n: nat, p: Point)
    requires IsInvertible(c) && InCube(p, n)
    ensures Decode(c, n, Encode(c, n, p)) == p
  {
    if n > 0 {
      assert SplitsAt(c, p, n - 1);
      var q, d := c.inner(p, n - 1), c.top(p, n - 1);
      DecodeEncode(c, n - 1, q);
      EncodeIsSmall(c, n - 1, q);
      DigitsInFront(Encode(c, n - 1, q), n - 1, d);
      DecodeDigits(c, n - 1, Encode(c, n, p), Encode(c, n - 1, q));
    }
  }

  // ------------------------------------------------------------- the curve is continuous

  function Apart(a: nat, b: nat): (d: nat) {
    if a < b then b - a else a - b
  }

  /** Manhattan distance. */
  function Distance(p: Point, q: Point): (d: nat) {
    Apart(p.x, q.x) + Apart(p.y, q.y) + Apart(p.z, q.z)
  }

  /** Far end of the x axis. */
  function FarEnd(n: nat): (p: Point) {
    Point(Pow2(n) - 1, 0, 0)
  }

  const ORIGIN: Point := Point(0, 0, 0)

  ghost predicate KeepsDistanceAt(c: Level, d: nat, p: Point, q: Point, n: nat) {
    Distance(c.outer(d, p, n), c.outer(d, q, n)) == Distance(p, q)
  }

  /** In the first octant the curve starts at the origin, in the last it ends at the far end. */
  ghost predicate EndsAt(c: Level, n: nat) {
    c.outer(0, ORIGIN, n) == ORIGIN && c.outer(7, FarEnd(n), n) == FarEnd(n + 1)
  }

  /** The end of the curve in one octant is next to its start in the following octant. */
  ghost predicate ConnectsAt(c: Level, d: nat, n: nat) {
    Distance(c.outer(d, FarEnd(n), n), c.outer(d + 1, ORIGIN, n)) == 1
  }

  ghost predicate IsConnected(c: Level) {
    && (forall d: nat, p: Point, q: Point, n: nat :: d < 8 && InCube(p, n) && InCube(q, n) ==>
        KeepsDistanceAt(c, d, p, q, n))
    && (forall n: nat :: EndsAt(c, n))
    && forall d: nat, n: nat :: d < 7 ==> ConnectsAt(c, d, n)
  }

  /** The last n digits of the key are all equal to d. */
  predicate AllDigits(key: nat, n: nat, d: nat) {
    n == 0 || (key % 8 == d && AllDigits(key / 8, n - 1, d))
  }

  lemma {:induction false} AllDigitsFromTop(key: nat, n: nat, d: nat)
    requires n > 0
    ensures AllDigits(key, n, d) <==> Digit(key, n - 1) == d && AllDigits(key, n - 1, d)
  {
    if n > 1 { AllDigitsFromTop(key / 8, n - 1, d); }
  }

  lemma {:induction false} CurveStart(c: Level, n: nat, key: nat)
    requires IsConnected(c) && AllDigits(key, n, 0)
    ensures Decode(c, n, key) == ORIGIN
  {
    if n > 0 {
      AllDigitsFromTop(key, n, 0);
      CurveStart(c, n - 1, key);
      assert EndsAt(c, n - 1);
    }
  }

  lemma {:induction false} CurveEnd(c: Level, n: nat, key: nat)
    requires IsConnected(c) && AllDigits(key, n, 7)
    ensures Decode(c, n, key) == FarEnd(n)
  {
    if n > 0 {
      AllDigitsFromTop(key, n, 7);
      CurveEnd(c, n - 1, key);
      assert EndsAt(c, n - 1);
    }
  }

  /** Adding one either changes the last n digits only, or turns them from sevens into zeros. */
  lemma {:induction false} DigitsOfNext(key: nat, n: nat)
    ensures if AllDigits(key, n, 7) then AllDigits(key + 1, n, 0) && Shift(key + 1, n) == Shift(key, n) + 1
            else Shift(key + 1, n) == Shift(key, n)
  {
    if n > 0 {
      if key % 8 == 7 {
        DigitsOfNext(key / 8, n - 1);
        assert (key + 1) / 8 == key / 8 + 1;
      } else {
        assert (key + 1) / 8 == key / 8;
      }
    }
  }

  lemma {:induction false} AllSevens(key: nat, n: nat)
    requires AllDigits(key, n, 7)
    ensures Low(key, n) + 1 == Pow8(n)
  {
    if n > 0 { AllSevens(key / 8, n - 1); }
  }

  /** Points of consecutive keys are neighbours. */
  lemma CurveIsContinuous(c: Level, n: nat, key: nat)
    requires IsInvertible(c) && IsConnected(c) && key + 1 < Pow8(n)
    ensures Distance(Decode(c, n, key), Decode(c, n, key + 1)) == 1
  {
    LowOfSmall(key, n);
    if AllDigits(key, n, 7) { AllSevens(key, n); }
    StepIsOne(c, n, key);
  }

  lemma {:induction false} StepIsOne(c: Level, n: nat, key: nat)
    requires IsInvertible(c) && IsConnected(c) && !AllDigits(key, n, 7)
    ensures Distance(Decode(c, n, key), Decode(c, n, key + 1)) == 1
  {
    if n > 0 {
      AllDigitsFromTop(key, n, 7);
      if AllDigits(key, n - 1, 7) {
        StepToNextOctant(c, n - 1, key);
      } else {
        StepIsOne(c, n - 1, key);
        StepWithinOctant(c, n - 1, key);
      }
    }
  }

  lemma StepToNextOctant(c: Level, m: nat, key: nat)
    requires IsConnected(c) && AllDigits(key, m, 7) && Digit(key, m) != 7
    ensures Distance(Decode(c, m + 1, key), Decode(c, m + 1, key + 1)) == 1
  {
    assert AllDigits(key + 1, m, 0) && Digit(key + 1, m) == Digit(key, m) + 1 by { CarryIntoDigit(key, m); }
    CurveEnd(c, m, key);
    CurveStart(c, m, key + 1);
    assert ConnectsAt(c, Digit(key, m), m);
  }

  lemma CarryIntoDigit(key: nat, m: nat)
    requires AllDigits(key, m, 7) && Digit(key, m) != 7
    ensures AllDigits(key + 1, m, 0) && Digit(key + 1, m) == Digit(key, m) + 1
  {
    DigitsOfNext(key, m);
    NextModulo(Shift(key, m));
  }

  lemma NextModulo(s: nat)
    requires s % 8 != 7
    ensures (s + 1) % 8 == s % 8 + 1
  {
  }

  lemma StepWithinOctant(c: Level, m: nat, key: nat)
    requires IsInvertible(c) && IsConnected(c) && !AllDigits(key, m, 7)
    requires Distance(Decode(c, m, key), Decode(c, m, key + 1)) == 1
    ensures Distance(Decode(c, m + 1, key), Decode(c, m + 1, key + 1)) == 1
  {
    DigitsOfNext(key, m);
    DecodeInCube(c, m, key);
    DecodeInCube(c, m, key + 1);
    assert KeepsDistanceAt(c, Digit(key, m), Decode(c, m, key), Decode(c, m, key + 1), m);
  }

  // ------------------------------------------------------------- cells are cubes

  /** Coordinate rounded down to a multiple of 2^h. */
  function Round(x: nat, h: nat): (r: nat) {
    if h == 0 then x else 2 * Round(x / 2, h - 1)
  }

  lemma {:induction false} RoundBounds(x: nat, h: nat)
    ensures Round(x, h) <= x < Round(x, h) + Pow2(h)
  {
    if h > 0 { RoundBounds(x / 2, h - 1); }
  }

  /** The block of size 2^h around a coordinate. */
  lemma {:induction false} RoundIsBlock(x: nat, y: nat, h: nat)
    ensures Round(x, h) <= y < Round(x, h) + Pow2(h) <==> Round(y, h) == Round(x, h)
  {
    if h > 0 { RoundIsBlock(x / 2, y / 2, h - 1); }
  }

  lemma {:induction false} RoundOfSmall(x: nat, h: nat)
    requires x < Pow2(h)
    ensures Round(x, h) == 0
  {
    if h > 0 { RoundOfSmall(x / 2, h - 1); }
  }

  /** Two points lie in the same aligned cube of side 2^h. */
  predicate SameBlock(p: Point, q: Point, h: nat) {
    Round(p.x, h) == Round(q.x, h) && Round(p.y, h) == Round(q.y, h) && Round(p.z, h) == Round(q.z, h)
  }

  ghost predicate KeepsBlocksAt(c: Level, p: Point, q: Point, n: nat, h: nat) {
    SameBlock(p, q, h) <==> c.top(p, n) == c.top(q, n) && SameBlock(c.inner(p, n), c.inner(q, n), h)
  }

  /** Points are in the same small cube exactly if they are in the same octant, and in the same small
      cube within it. */
  ghost predicate KeepsBlocks(c: Level) {
    forall p: Point, q: Point, n: nat, h: nat :: InCube(p, n + 1) && InCube(q, n + 1) && h <= n ==>
      KeepsBlocksAt(c, p, q, n, h)
  }

  lemma {:induction false} SameLeadingDigits(k: nat, l: nat, n: nat, h: nat)
    requires h <= n
    ensures Shift(Low(k, n + 1), h) == Shift(Low(l, n + 1), h) <==>
            Digit(k, n) == Digit(l, n) && Shift(Low(k, n), h) == Shift(Low(l, n), h)
  {
    if h == 0 {
      LowOneMore(k, n);
      LowOneMore(l, n);
      LowIsSmall(k, n);
      LowIsSmall(l, n);
      FrontDigit(Low(k, n), Low(l, n), n, Digit(k, n), Digit(l, n));
    } else {
      SameLeadingDigits(k / 8, l / 8, n - 1, h - 1);
    }
  }

  lemma FrontDigit(a: nat, b: nat, n: nat, d: nat, e: nat)
    requires a < Pow8(n) && b < Pow8(n)
    ensures NthCell(a, n, d) == NthCell(b, n, e) <==> d == e && a == b
  {
    NthShift(a, n, d);
    NthShift(b, n, e);
    if d < e { NthMonotone(0, n, d, e); }
    if e < d { NthMonotone(0, n, e, d); }
  }

  lemma {:induction false} NthShift(a: nat, n: nat, d: nat)
    ensures NthCell(a, n, d) == a + NthCell(0, n, d)
  {
    if d > 0 { NthShift(a, n, d - 1); }
  }

  /** Keys share all but their last h digits exactly if their points are in the same cube of side 2^h. */
  lemma {:induction false} CellsAreCubes(c: Level, n: nat, k: nat, l: nat, h: nat)
    requires IsInvertible(c) && KeepsBlocks(c) && h <= n
    ensures Shift(Low(k, n), h) == Shift(Low(l, n), h) <==> SameBlock(Decode(c, n, k), Decode(c, n, l), h)
    decreases n
  {
    var p, q := Decode(c, n, k), Decode(c, n, l);
    if n == h {
      LowIsSmall(k, n);
      LowIsSmall(l, n);
      ShiftSmall(Low(k, n), h);
      ShiftSmall(Low(l, n), h);
      DecodeInCube(c, n, k);
      DecodeInCube(c, n, l);
      SmallPoints(p, h);
      SmallPoints(q, h);
    } else {
      var m := n - 1;
      CellsAreCubes(c, m, k, l, h);
      SameLeadingDigits(k, l, m, h);
      DecodeInCube(c, m, k);
      DecodeInCube(c, m, l);
      assert JoinsAt(c, Digit(k, m), Decode(c, m, k), m) && JoinsAt(c, Digit(l, m), Decode(c, m, l), m);
      assert KeepsBlocksAt(c, p, q, m, h);
    }
  }

  lemma SmallPoints(p: Point, h: nat)
    requires InCube(p, h)
    ensures Round(p.x, h) == Round(p.y, h) == Round(p.z, h) == 0
  {
    RoundOfSmall(p.x, h);
    RoundOfSmall(p.y, h);
    RoundOfSmall(p.z, h);
  }

  /** The points whose keys lie in a cell are exactly those of the cube around the point of its first key. */
  lemma CubeOfCell(c: Level, n: nat, keyStart: nat, h: nat, p: Point)
    requires IsInvertible(c) && KeepsBlocks(c) && h <= n && keyStart < Pow8(n) && Aligned(keyStart, h) && InCube(p, n)
    ensures keyStart <= Encode(c, n, p) < keyStart + Pow8(h) <==> SameBlock(Decode(c, n, keyStart), p, h)
  {
    var l := Encode(c, n, p);
    EncodeIsSmall(c, n, p);
    DecodeEncode(c, n, p);
    LowOfSmall(keyStart, n);
    LowOfSmall(l, n);
    CellsAreCubes(c, n, keyStart, l, h);
    FloorBounds(keyStart, h);
    FloorBounds(l, h);
    if keyStart <= l < keyStart + Pow8(h) { FloorUnique(l, keyStart, h); }
    if keyStart <= l { FloorMonotone(keyStart, l, h); } else { FloorMonotone(l, keyStart, h); }
  }
}
