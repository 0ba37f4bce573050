/** The three-dimensional Hilbert curve of the program: tables and bit operations of one level. */
module Hilbert {
  import opened Keys
  import opened Curves
  import Separation

  // ------------------------------------------------------------- one level

  /** A coordinate of n bits with all bits inverted. */
  function Invert(x: nat, n: nat, flip: bool): (r: nat)
    requires x < Pow2(n)
    ensures r < Pow2(n)
  {
    if flip then Pow2(n) - 1 - x else x
  }

  function BitOf(b: bool): (n: nat) {
    if b then 1 else 0
  }

  /** Hilbert digit of an octant, by the program's table. */
  function MortonToHilbert(octant: nat): (digit: nat)
    requires octant < 8
    ensures digit < 8
  {
    [0, 1, 3, 2, 7, 6, 4, 5][octant]
  }

  function OctantOf(xi: bool, yi: bool, zi: bool): (octant: nat)
    ensures octant < 8
  {
    4 * BitOf(xi) + 2 * BitOf(yi) + BitOf(zi)
  }

  /** The rotation and reflection that the encoder applies to the rest of the coordinates. */
  function Turn(xi: bool, yi: bool, zi: bool, p: Point, n: nat): (q: Point)
    requires InCube(p, n)
    ensures InCube(q, n)
  {
    var x := Invert(p.x, n, xi && (!yi || zi));
    var y := Invert(p.y, n, (xi && (yi || zi)) || (yi && !zi));
    var z := Invert(p.z, n, (xi && !yi && !zi) || (yi && !zi));
    if zi then Point(y, z, x) else if !yi then Point(z, y, x) else Point(x, y, z)
  }

  /** The rotation and reflection that the decoder applies for a digit with bits a, b, c. */
  function TurnBack(a: bool, b: bool, c: bool, p: Point, n: nat): (q: Point)
    requires InCube(p, n)
    ensures InCube(q, n)
  {
    var r := if b != c then Point(p.z, p.x, p.y)
             else if (!a && !b && !c) || (a && b && c) then Point(p.z, p.y, p.x) else p;
    Point(Invert(r.x, n, a && (b || c)),
          Invert(r.y, n, (a && (!b || !c)) || (!a && b && c)),
          Invert(r.z, n, (a && !b && !c) || (b && c)))
  }

  /** The point in the octant that a digit with bits a, b, c names. */
  function Place(a: bool, b: bool, c: bool, p: Point, n: nat): (q: Point)
    requires InCube(p, n)
    ensures InCube(q, n + 1)
  {
    Point(p.x + (if a then Pow2(n) else 0), p.y + (if a != b then Pow2(n) else 0),
          p.z + (if b != c then Pow2(n) else 0))
  }

  predicate DigitBit(digit: nat, k: nat) {
    if k == 0 then digit % 2 == 1 else DigitBit(digit / 2, k - 1)
  }

  // ------------------------------------------------------------- encoding and decoding

  /** Top bit of a coordinate of n + 1 bits, and the rest. */
  predicate TopBit(x: nat, n: nat) {
    x >= Pow2(n)
  }

  function Rest(x: nat, n: nat): (r: nat)
    ensures x < Pow2(n + 1) ==> r < Pow2(n)
  {
    if TopBit(x, n) then x - Pow2(n) else x
  }

  /** Hilbert digit of the octant that a point of n + 1 bits lies in. */
  function TopDigit(p: Point, n: nat): (digit: nat)
    ensures digit < 8
  {
    MortonToHilbert(OctantOf(TopBit(p.x, n), TopBit(p.y, n), TopBit(p.z, n)))
  }

  /** The point within its octant, turned so that the rest of the curve has the standard orientation. */
  function Inner(p: Point, n: nat): (q: Point)
    requires InCube(p, n + 1)
    ensures InCube(q, n)
  {
    Turn(TopBit(p.x, n), TopBit(p.y, n), TopBit(p.z, n), Point(Rest(p.x, n), Rest(p.y, n), Rest(p.z, n)), n)
  }

  /** The point of n + 1 bits in the octant of a Hilbert digit. */
  function Outer(d: nat, p: Point, n: nat): (q: Point)
    requires InCube(p, n)
    ensures InCube(q, n + 1)
  {
    var a, b, c := DigitBit(d, 2), DigitBit(d, 1), DigitBit(d, 0);
    Place(a, b, c, TurnBack(a, b, c, p, n), n)
  }

  lemma DigitBits(d: nat)
    requires d < 8
    ensures d == 4 * BitOf(DigitBit(d, 2)) + 2 * BitOf(DigitBit(d, 1)) + BitOf(DigitBit(d, 0))
  {
    assert DigitBit(d, 1) == DigitBit(d / 2, 0);
    assert DigitBit(d, 2) == DigitBit(d / 2, 1) == DigitBit(d / 4, 0) by { assert d / 2 / 2 == d / 4; }
  }

  /** The table is the Gray code that the decoder inverts with two exclusive ors. */
  lemma TableIsGray(a: bool, b: bool, c: bool)
    ensures MortonToHilbert(OctantOf(a, a != b, b != c)) == 4 * BitOf(a) + 2 * BitOf(b) + BitOf(c)
  {
  }

  lemma TurnsCancel(a: bool, b: bool, c: bool, p: Point, n: nat)
    requires InCube(p, n)
    ensures Turn(a, a != b, b != c, TurnBack(a, b, c, p, n), n) == p
    ensures TurnBack(a, b, c, Turn(a, a != b, b != c, p, n), n) == p
  {
  }

  lemma PlaceSplits(a: bool, b: bool, c: bool, p: Point, n: nat)
    requires InCube(p, n)
    ensures var q := Place(a, b, c, p, n);
            && TopBit(q.x, n) == a && TopBit(q.y, n) == (a != b) && TopBit(q.z, n) == (b != c)
            && Point(Rest(q.x, n), Rest(q.y, n), Rest(q.z, n)) == p
  {
  }

  /** One level of decoding undoes one level of encoding. */
  lemma OuterOfInner(p: Point, n: nat)
    requires InCube(p, n + 1)
    ensures Outer(TopDigit(p, n), Inner(p, n), n) == p
  {
    var xi, yi, zi := TopBit(p.x, n), TopBit(p.y, n), TopBit(p.z, n);
    var a, b, c := xi, xi != yi, (xi != yi) != zi;
    TableIsGray(a, b, c);
    DigitBits(TopDigit(p, n));
    TurnsCancel(a, b, c, Point(Rest(p.x, n), Rest(p.y, n), Rest(p.z, n)), n);
  }

  /** One level of encoding undoes one level of decoding. */
  lemma InnerOfOuter(d: nat, p: Point, n: nat)
    requires InCube(p, n) && d < 8
    ensures TopDigit(Outer(d, p, n), n) == d && Inner(Outer(d, p, n), n) == p
  {
    var a, b, c := DigitBit(d, 2), DigitBit(d, 1), DigitBit(d, 0);
    DigitBits(d);
    TableIsGray(a, b, c);
    TurnsCancel(a, b, c, p, n);
    PlaceSplits(a, b, c, TurnBack(a, b, c, p, n), n);
  }

  lemma InvertKeepsApart(x: nat, y: nat, n: nat, flip: bool)
    requires x < Pow2(n) && y < Pow2(n)
    ensures Apart(Invert(x, n, flip), Invert(y, n, flip)) == Apart(x, y)
  {
  }

  lemma TurnBackKeepsDistance(a: bool, b: bool, c: bool, p: Point, q: Point, n: nat)
    requires InCube(p, n) && InCube(q, n)
    ensures Distance(TurnBack(a, b, c, p, n), TurnBack(a, b, c, q, n)) == Distance(p, q)
  {
    forall flip: bool
      ensures Apart(Invert(p.x, n, flip), Invert(q.x, n, flip)) == Apart(p.x, q.x)
      ensures Apart(Invert(p.y, n, flip), Invert(q.y, n, flip)) == Apart(p.y, q.y)
      ensures Apart(Invert(p.z, n, flip), Invert(q.z, n, flip)) == Apart(p.z, q.z)
    {
      InvertKeepsApart(p.x, q.x, n, flip);
      InvertKeepsApart(p.y, q.y, n, flip);
      InvertKeepsApart(p.z, q.z, n, flip);
    }
  }

  lemma PlaceKeepsDistance(a: bool, b: bool, c: bool, p: Point, q: Point, n: nat)
    requires InCube(p, n) && InCube(q, n)
    ensures Distance(Place(a, b, c, p, n), Place(a, b, c, q, n)) == Distance(p, q)
  {
  }

  /** Turning and placing keep distances. */
  lemma OuterKeepsDistance(d: nat, p: Point, q: Point, n: nat)
    requires InCube(p, n) && InCube(q, n)
    ensures Distance(Outer(d, p, n), Outer(d, q, n)) == Distance(p, q)
  {
    var a, b, c := DigitBit(d, 2), DigitBit(d, 1), DigitBit(d, 0);
    TurnBackKeepsDistance(a, b, c, p, q, n);
    PlaceKeepsDistance(a, b, c, TurnBack(a, b, c, p, n), TurnBack(a, b, c, q, n), n);
  }

  lemma OctantsConnect(d: nat, n: nat)
    requires d < 7
    ensures Distance(Outer(d, FarEnd(n), n), Outer(d + 1, ORIGIN, n)) == 1
  {
    DigitBits(d);
    DigitBits(d + 1);
  }

  lemma CurveEnds(n: nat)
    ensures Outer(0, ORIGIN, n) == ORIGIN && Outer(7, FarEnd(n), n) == FarEnd(n + 1)
  {
    DigitBits(0);
    DigitBits(7);
  }

  /** One level of the Hilbert curve. Outside the cube the functions are of no interest. */
  ghost const HILBERT: Level := Level(
    TopDigit,
    (p: Point, n: nat) => if InCube(p, n + 1) then Inner(p, n) else p,
    (d: nat, p: Point, n: nat) => if InCube(p, n) then Outer(d, p, n) else p)

  lemma HilbertIsInvertible()
    ensures IsInvertible(HILBERT)
  {
    forall p: Point, n: nat | InCube(p, n + 1) ensures SplitsAt(HILBERT, p, n) {
      OuterOfInner(p, n);
    }
    forall d: nat, q: Point, n: nat | d < 8 && InCube(q, n) ensures JoinsAt(HILBERT, d, q, n) {
      InnerOfOuter(d, q, n);
    }
  }

  lemma HilbertIsConnected()
    ensures IsConnected(HILBERT)
  {
    forall d: nat, p: Point, q: Point, n: nat | d < 8 && InCube(p, n) && InCube(q, n)
      ensures KeepsDistanceAt(HILBERT, d, p, q, n)
    {
      OuterKeepsDistance(d, p, q, n);
    }
    forall n: nat ensures EndsAt(HILBERT, n) {
      CurveEnds(n);
    }
    forall d: nat, n: nat | d < 7 ensures ConnectsAt(HILBERT, d, n) {
      OctantsConnect(d, n);
    }
  }

  // ------------------------------------------------------------- blocks

  lemma {:induction false} RoundOfShifted(x: nat, n: nat, h: nat)
    requires h <= n
    ensures Round(x + Pow2(n), h) == Round(x, h) + Pow2(n)
  {
    if h > 0 { RoundOfShifted(x / 2, n - 1, h - 1); }
  }

  lemma {:induction false} RoundOfInverted(x: nat, n: nat, h: nat)
    requires h <= n && x < Pow2(n)
    ensures Round(Pow2(n) - 1 - x, h) + Round(x, h) + Pow2(h) == Pow2(n)
  {
    if h > 0 { RoundOfInverted(x / 2, n - 1, h - 1); }
  }

  /** Coordinates are in the same block exactly if their top bits and the blocks of the rest agree. */
  lemma RestKeepsBlock(x: nat, y: nat, n: nat, h: nat)
    requires h <= n && x < Pow2(n + 1) && y < Pow2(n + 1)
    ensures Round(x, h) == Round(y, h) <==> TopBit(x, n) == TopBit(y, n) && Round(Rest(x, n), h) == Round(Rest(y, n), h)
  {
    if TopBit(x, n) { RoundOfShifted(Rest(x, n), n, h); }
    if TopBit(y, n) { RoundOfShifted(Rest(y, n), n, h); }
    RoundStaysBelow(Rest(x, n), n, h);
    RoundStaysBelow(Rest(y, n), n, h);
  }

  lemma RoundStaysBelow(x: nat, n: nat, h: nat)
    requires x < Pow2(n)
    ensures Round(x, h) < Pow2(n)
  {
    RoundBounds(x, h);
  }

  lemma InvertKeepsBlock(x: nat, y: nat, n: nat, h: nat, flip: bool)
    requires h <= n && x < Pow2(n) && y < Pow2(n)
    ensures Round(Invert(x, n, flip), h) == Round(Invert(y, n, flip), h) <==> Round(x, h) == Round(y, h)
  {
    RoundOfInverted(x, n, h);
    RoundOfInverted(y, n, h);
  }

  lemma TurnKeepsBlocks(xi: bool, yi: bool, zi: bool, p: Point, q: Point, n: nat, h: nat)
    requires InCube(p, n) && InCube(q, n) && h <= n
    ensures SameBlock(Turn(xi, yi, zi, p, n), Turn(xi, yi, zi, q, n), h) <==> SameBlock(p, q, h)
  {
    InvertKeepsBlock(p.x, q.x, n, h, xi && (!yi || zi));
    InvertKeepsBlock(p.y, q.y, n, h, (xi && (yi || zi)) || (yi && !zi));
    InvertKeepsBlock(p.z, q.z, n, h, (xi && !yi && !zi) || (yi && !zi));
  }

  /** Different octants have different digits. */
  lemma TableIsInjective(a: bool, b: bool, c: bool, d: bool, e: bool, f: bool)
    ensures MortonToHilbert(OctantOf(a, b, c)) == MortonToHilbert(OctantOf(d, e, f)) <==> a == d && b == e && c == f
  {
  }

  lemma HilbertKeepsBlocks()
    ensures KeepsBlocks(HILBERT)
  {
    forall p: Point, q: Point, n: nat, h: nat | InCube(p, n + 1) && InCube(q, n + 1) && h <= n
      ensures KeepsBlocksAt(HILBERT, p, q, n, h)
    {
      LevelKeepsBlocks(p, q, n, h);
    }
  }

  lemma LevelKeepsBlocks(p: Point, q: Point, n: nat, h: nat)
    requires InCube(p, n + 1) && InCube(q, n + 1) && h <= n
    ensures SameBlock(p, q, h) <==> TopDigit(p, n) == TopDigit(q, n) && SameBlock(Inner(p, n), Inner(q, n), h)
  {
    RestKeepsBlock(p.x, q.x, n, h);
    RestKeepsBlock(p.y, q.y, n, h);
    RestKeepsBlock(p.z, q.z, n, h);
    var a, b, c := TopBit(p.x, n), TopBit(p.y, n), TopBit(p.z, n);
    TableIsInjective(a, b, c, TopBit(q.x, n), TopBit(q.y, n), TopBit(q.z, n));
    if TopDigit(p, n) == TopDigit(q, n) {
      TurnKeepsBlocks(a, b, c, Point(Rest(p.x, n), Rest(p.y, n), Rest(p.z, n)),
                      Point(Rest(q.x, n), Rest(q.y, n), Rest(q.z, n)), n, h);
    }
  }

  // ------------------------------------------------------------- the program's loops

  /** `(x >> k) & 1`. */
  predicate BitAt(x: nat, k: nat) {
    if k == 0 then x % 2 == 1 else BitAt(x / 2, k - 1)
  }

  /** The last n bits of a number. */
  function LowBits(x: nat, n: nat): (r: nat)
    ensures r < Pow2(n)
  {
    if n == 0 then 0 else 2 * LowBits(x / 2, n - 1) + x % 2
  }

  function LowPoint(x: nat, y: nat, z: nat, n: nat): (p: Point)
    ensures InCube(p, n)
  {
    Point(LowBits(x, n), LowBits(y, n), LowBits(z, n))
  }

  /** Exclusive or of a 32-bit number with all ones, if the condition holds. */
  function XorAll(x: nat, cond: bool): (r: nat)
    requires x < 0x1_0000_0000
    ensures r < 0x1_0000_0000
  {
    if cond then 0xFFFF_FFFF - x else x
  }

  lemma {:induction false} LowBitsSplit(x: nat, n: nat)
    ensures LowBits(x, n + 1) == LowBits(x, n) + (if BitAt(x, n) then Pow2(n) else 0)
  {
    if n > 0 { LowBitsSplit(x / 2, n - 1); }
  }

  /** The top bit and the rest of the last n + 1 bits. */
  lemma TopOfLowBits(x: nat, n: nat)
    ensures TopBit(LowBits(x, n + 1), n) == BitAt(x, n) && Rest(LowBits(x, n + 1), n) == LowBits(x, n)
  {
    LowBitsSplit(x, n);
  }

  lemma {:induction false} LowBitsOfInverted(x: nat, m: nat, n: nat)
    requires n <= m && x < Pow2(m)
    ensures LowBits(Pow2(m) - 1 - x, n) == Pow2(n) - 1 - LowBits(x, n)
  {
    if n > 0 {
      LowBitsOfInverted(x / 2, m - 1, n - 1);
      HalfOfInverted(x, Pow2(m - 1));
    }
  }

  lemma HalfOfInverted(x: nat, half: nat)
    requires x < 2 * half
    ensures (2 * half - 1 - x) / 2 == half - 1 - x / 2 && (2 * half - 1 - x) % 2 == 1 - x % 2
  {
  }

  lemma WordSize()
    ensures Pow2(32) == 0x1_0000_0000
  {
    assert Pow2(8) == 0x100;
    assert Pow2(16) == 0x1_0000;
    assert Pow2(24) == 0x100_0000;
  }

  /** Inverting a whole register inverts the bits that are still to be read. */
  lemma LowBitsOfXor(x: nat, n: nat, cond: bool)
    requires x < 0x1_0000_0000 && n <= 32
    ensures LowBits(XorAll(x, cond), n) == Invert(LowBits(x, n), n, cond)
  {
    WordSize();
    LowBitsOfInverted(x, 32, n);
  }

  lemma {:induction false} LowBitsOfSmall(x: nat, n: nat)
    requires x < Pow2(n)
    ensures LowBits(x, n) == x
  {
    if n > 0 { LowBitsOfSmall(x / 2, n - 1); }
  }

  /** One pass of the encoding loop: append a digit, and turn the registers. */
  method EncodeStep(px: nat, py: nat, pz: nat, key: nat, level: nat)
    returns (px': nat, py': nat, pz': nat, key': nat)
    requires px < 0x1_0000_0000 && py < 0x1_0000_0000 && pz < 0x1_0000_0000 && level < 32
    ensures px' < 0x1_0000_0000 && py' < 0x1_0000_0000 && pz' < 0x1_0000_0000
    ensures LowPoint(px', py', pz', level) == Inner(LowPoint(px, py, pz, level + 1), level)
    ensures key' == 8 * key + TopDigit(LowPoint(px, py, pz, level + 1), level)
  {
    var xi, yi, zi := BitAt(px, level), BitAt(py, level), BitAt(pz, level);
    TopOfLowBits(px, level);
    TopOfLowBits(py, level);
    TopOfLowBits(pz, level);
    var octant := OctantOf(xi, yi, zi);
    key' := 8 * key + MortonToHilbert(octant);
    LowBitsOfXor(px, level, xi && (!yi || zi));
    LowBitsOfXor(py, level, (xi && (yi || zi)) || (yi && !zi));
    LowBitsOfXor(pz, level, (xi && !yi && !zi) || (yi && !zi));
    px' := XorAll(px, xi && (!yi || zi));
    py' := XorAll(py, (xi && (yi || zi)) || (yi && !zi));
    pz' := XorAll(pz, (xi && !yi && !zi) || (yi && !zi));
    if zi {
      px', py', pz' := py', pz', px';
    } else if !yi {
      px', pz' := pz', px';
    }
  }

  /** What the loop has computed, and what it has left to do, make up the key. */
  ghost predicate IsPartOf(key: nat, p: Point, level: nat, whole: nat) {
    InCube(p, level) && NthCell(Encode(HILBERT, level, p), level, key) == whole
  }

  lemma EncodeOneMore(key: nat, p: Point, level: nat, whole: nat)
    requires IsPartOf(key, p, level + 1, whole)
    ensures IsPartOf(8 * key + TopDigit(p, level), Inner(p, level), level, whole)
  {
    var e, d := Encode(HILBERT, level, Inner(p, level)), TopDigit(p, level);
    assert Encode(HILBERT, level + 1, p) == NthCell(e, level, d);
    NthEight(NthCell(e, level, d), level, key);
    NthAdd(e, level, d, 8 * key);
  }

  /** Hilbert key of a point; L is at most the number of bits of a register. */
  method IHilbert(x: nat, y: nat, z: nat, L: nat) returns (key: nat)
    requires InCube(Point(x, y, z), L) && L <= 32
    ensures key == Encode(HILBERT, L, Point(x, y, z))
  {
    ghost var whole := Encode(HILBERT, L, Point(x, y, z));
    var px, py, pz := x, y, z;
    EncodeStart(x, y, z, L);
    key := 0;
    var level: int := L - 1;
    while level >= 0
      invariant -1 <= level < L
      invariant px < 0x1_0000_0000 && py < 0x1_0000_0000 && pz < 0x1_0000_0000
      invariant IsPartOf(key, LowPoint(px, py, pz, level + 1), level + 1, whole)
    {
      EncodeOneMore(key, LowPoint(px, py, pz, level + 1), level, whole);
      px, py, pz, key := EncodeStep(px, py, pz, key, level);
      level := level - 1;
    }
    EncodeDone(key, LowPoint(px, py, pz, 0), whole);
  }

  lemma EncodeStart(x: nat, y: nat, z: nat, L: nat)
    requires InCube(Point(x, y, z), L) && L <= 32
    ensures x < 0x1_0000_0000 && y < 0x1_0000_0000 && z < 0x1_0000_0000
    ensures IsPartOf(0, LowPoint(x, y, z, L), L, Encode(HILBERT, L, Point(x, y, z)))
  {
    LowBitsOfSmall(x, L);
    LowBitsOfSmall(y, L);
    LowBitsOfSmall(z, L);
    Registers(x, L);
    Registers(y, L);
    Registers(z, L);
  }

  lemma EncodeDone(key: nat, p: Point, whole: nat)
    requires IsPartOf(key, p, 0, whole)
    ensures key == whole
  {
    NthUnit(0, key);
  }

  lemma {:induction false} Registers(x: nat, n: nat)
    requires x < Pow2(n) && n <= 32
    ensures x < 0x1_0000_0000
  {
    WordSize();
    Pow2Monotone(n, 32);
  }

  lemma {:induction false} Pow2Monotone(m: nat, n: nat)
    requires m <= n
    ensures Pow2(m) <= Pow2(n)
    decreases n
  {
    if m < n { Pow2Monotone(m, n - 1); }
  }

  /** Point of a Hilbert key. The exclusive or with a mask of `level` ones inverts the bits found so far. */
  method DecodeHilbert(key: nat, L: nat) returns (p: Point)
    ensures p == Decode(HILBERT, L, key)
  {
    var px: nat, py: nat, pz: nat := 0, 0, 0;
    var level := 0;
    while level < L
      invariant level <= L && InCube(Point(px, py, pz), level)
      invariant Point(px, py, pz) == Decode(HILBERT, level, key)
    {
      var octant := Digit(key, level);
      ghost var before := Point(px, py, pz);
      var xi, yi, zi := DigitBit(octant, 2), DigitBit(octant, 1), DigitBit(octant, 0);
      if yi != zi {
        px, py, pz := pz, px, py;
      } else if (!xi && !yi && !zi) || (xi && yi && zi) {
        px, pz := pz, px;
      }
      px := Invert(px, level, xi && (yi || zi));
      py := Invert(py, level, (xi && (!yi || !zi)) || (!xi && yi && zi));
      pz := Invert(pz, level, (xi && !yi && !zi) || (yi && zi));
      px := px + if xi then Pow2(level) else 0;
      py := py + if xi != yi then Pow2(level) else 0;
      pz := pz + if yi != zi then Pow2(level) else 0;
      assert Point(px, py, pz) == Outer(octant, before, level);
      level := level + 1;
    }
    p := Point(px, py, pz);
  }

  /** The half-open integer box of the cell that starts at a key and has 8^h keys. */
  ghost function CellBox(L: nat, s: nat, h: nat): (box: Separation.Box) {
    var corner := Decode(HILBERT, L, s);
    var ix, iy, iz := Round(corner.x, h), Round(corner.y, h), Round(corner.z, h);
    Separation.Box(ix, ix + Pow2(h), iy, iy + Pow2(h), iz, iz + Pow2(h))
  }

  predicate InBox(p: Point, box: Separation.Box) {
    box.xmin <= p.x < box.xmax && box.ymin <= p.y < box.ymax && box.zmin <= p.z < box.zmax
  }

  /** The box of the cell that starts at keyStart on a level contains exactly the points whose keys are in the cell. */
  method HilbertIBox(keyStart: nat, level: nat, L: nat) returns (box: Separation.Box)
    requires level <= L && keyStart < Pow8(L) && Aligned(keyStart, L - level)
    ensures forall p: Point :: InCube(p, L) ==>
              (InBox(p, box) <==> keyStart <= Encode(HILBERT, L, p) < keyStart + Pow8(L - level))
    ensures box.xmax - box.xmin == box.ymax - box.ymin == box.zmax - box.zmin == Pow2(L - level)
    ensures box == CellBox(L, keyStart, L - level)
  {
    var h := L - level;
    var cubeLength := Pow2(h);
    var corner := DecodeHilbert(keyStart, L);
    var ix, iy, iz := Round(corner.x, h), Round(corner.y, h), Round(corner.z, h);
    box := Separation.Box(ix, ix + cubeLength, iy, iy + cubeLength, iz, iz + cubeLength);
    HilbertIsInvertible();
    HilbertKeepsBlocks();
    forall p: Point | InCube(p, L)
      ensures InBox(p, box) <==> keyStart <= Encode(HILBERT, L, p) < keyStart + Pow8(h)
    {
      CubeOfCell(HILBERT, L, keyStart, h, p);
      RoundIsBlock(corner.x, p.x, h);
      RoundIsBlock(corner.y, p.y, h);
      RoundIsBlock(corner.z, p.z, h);
    }
  }

  lemma {:induction false} RoundNests(x: nat, y: nat, g: nat, h: nat)
    requires g <= h && Round(x, h) == Round(y, h)
    ensures Round(y, h) <= Round(x, g) && Round(x, g) + Pow2(g) <= Round(y, h) + Pow2(h)
    decreases h
  {
    if g == h {
    } else if g == 0 {
      RoundBounds(x, h);
    } else {
      RoundNests(x / 2, y / 2, g - 1, h - 1);
    }
  }

  /** The box of a cell lies in the box of any cell around it, and on the grid. */
  lemma BoxesNest(L: nat, s: nat, g: nat, s': nat, h: nat)
    requires g <= h <= L && Aligned(s', h) && s' <= s < s' + Pow8(h) && s' + Pow8(h) <= Pow8(L)
    ensures Separation.Contains(CellBox(L, s', h), CellBox(L, s, g)) && Separation.IsBox(CellBox(L, s, g), Pow2(L))
  {
    HilbertIsInvertible();
    HilbertKeepsBlocks();
    DecodeInCube(HILBERT, L, s);
    EncodeDecode(HILBERT, L, s);
    LowOfSmall(s, L);
    var p, q := Decode(HILBERT, L, s), Decode(HILBERT, L, s');
    CubeOfCell(HILBERT, L, s', h, p);
    RoundNests(p.x, q.x, g, h);
    RoundNests(p.y, q.y, g, h);
    RoundNests(p.z, q.z, g, h);
    RoundOfSmall(p.x, L);
    RoundOfSmall(p.y, L);
    RoundOfSmall(p.z, L);
    RoundNests(p.x, p.x, g, L);
    RoundNests(p.y, p.y, g, L);
    RoundNests(p.z, p.z, g, L);
  }

  /** Encoding and decoding are mutually inverse, and points of consecutive keys are neighbours. */
  lemma HilbertCurve(n: nat, key: nat, p: Point)
    requires key < Pow8(n) && InCube(p, n)
    ensures Encode(HILBERT, n, Decode(HILBERT, n, key)) == key && InCube(Decode(HILBERT, n, key), n)
    ensures Decode(HILBERT, n, Encode(HILBERT, n, p)) == p && Encode(HILBERT, n, p) < Pow8(n)
    ensures key + 1 < Pow8(n) ==> Distance(Decode(HILBERT, n, key), Decode(HILBERT, n, key + 1)) == 1
  {
    HilbertIsInvertible();
    HilbertIsConnected();
    DecodeInCube(HILBERT, n, key);
    EncodeDecode(HILBERT, n, key);
    LowOfSmall(key, n);
    DecodeEncode(HILBERT, n, p);
    EncodeIsSmall(HILBERT, n, p);
    if key + 1 < Pow8(n) { CurveIsContinuous(HILBERT, n, key); }
  }
}
