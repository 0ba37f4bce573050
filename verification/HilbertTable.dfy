/** Which cubes the keys fill: the Hilbert curve written out for its first two digits. */
module HilbertTable {
  import opened Keys
  import opened Curves
  import opened Hilbert

  /** Corner of the cube that the keys with leading digits d and e fill, in units of its side. The curve starts along
      the x axis; row d lists the eight cubes of octant d in the order of the keys. */
  function Corner(d: nat, e: nat): (p: Point)
    requires d < 8 && e < 8
    ensures p.x < 4 && p.y < 4 && p.z < 4
  {
    var rows := [
      [(0, 0, 0), (1, 0, 0), (1, 1, 0), (0, 1, 0), (0, 1, 1), (1, 1, 1), (1, 0, 1), (0, 0, 1)],
      [(0, 0, 2), (1, 0, 2), (1, 0, 3), (0, 0, 3), (0, 1, 3), (1, 1, 3), (1, 1, 2), (0, 1, 2)],
      [(0, 2, 2), (1, 2, 2), (1, 2, 3), (0, 2, 3), (0, 3, 3), (1, 3, 3), (1, 3, 2), (0, 3, 2)],
      [(0, 3, 1), (0, 3, 0), (0, 2, 0), (0, 2, 1), (1, 2, 1), (1, 2, 0), (1, 3, 0), (1, 3, 1)],
      [(2, 3, 1), (2, 3, 0), (2, 2, 0), (2, 2, 1), (3, 2, 1), (3, 2, 0), (3, 3, 0), (3, 3, 1)],
      [(3, 3, 2), (2, 3, 2), (2, 3, 3), (3, 3, 3), (3, 2, 3), (2, 2, 3), (2, 2, 2), (3, 2, 2)],
      [(3, 1, 2), (2, 1, 2), (2, 1, 3), (3, 1, 3), (3, 0, 3), (2, 0, 3), (2, 0, 2), (3, 0, 2)],
      [(3, 0, 1), (2, 0, 1), (2, 1, 1), (3, 1, 1), (3, 1, 0), (2, 1, 0), (2, 0, 0), (3, 0, 0)]
    ];
    Point(rows[d][e].0, rows[d][e].1, rows[d][e].2)
  }

  /** A coordinate is in part c of four parts of length u. */
  predicate IsInPart(v: nat, c: nat, u: nat) {
    match c
    case 0 => v < u
    case 1 => u <= v < 2 * u
    case 2 => 2 * u <= v < 3 * u
    case _ => c == 3 && 3 * u <= v < 4 * u
  }

  predicate IsInSubcube(p: Point, corner: Point, u: nat) {
    IsInPart(p.x, corner.x, u) && IsInPart(p.y, corner.y, u) && IsInPart(p.z, corner.z, u)
  }

  // ------------------------------------------------------------- one level moves cubes like their corners

  lemma InvertedPart(v: nat, c: nat, m: nat, flip: bool)
    requires c < 2 && IsInPart(v, c, Pow2(m)) && v < Pow2(m + 1)
    ensures Invert(c, 1, flip) < 2 && IsInPart(Invert(v, m + 1, flip), Invert(c, 1, flip), Pow2(m))
  {
    assert Pow2(1) == 2 && Pow2(m + 1) == 2 * Pow2(m);
  }

  lemma PlacedPart(v: nat, c: nat, m: nat, up: bool)
    requires c < 2 && IsInPart(v, c, Pow2(m))
    ensures IsInPart(v + (if up then Pow2(m + 1) else 0), c + (if up then Pow2(1) else 0), Pow2(m))
  {
    assert Pow2(1) == 2 && Pow2(m + 1) == 2 * Pow2(m);
  }

  lemma SubcubeIsMoved(d: nat, p: Point, c: Point, m: nat)
    requires InCube(p, m + 1) && InCube(c, 1) && IsInSubcube(p, c, Pow2(m))
    ensures IsInSubcube(Outer(d, p, m + 1), Outer(d, c, 1), Pow2(m))
  {
    var a, b, e := DigitBit(d, 2), DigitBit(d, 1), DigitBit(d, 0);
    TurnedSubcube(a, b, e, p, c, m);
    PlacedSubcube(a, b, e, TurnBack(a, b, e, p, m + 1), TurnBack(a, b, e, c, 1), m);
  }

  lemma PlacedSubcube(a: bool, b: bool, e: bool, p: Point, c: Point, m: nat)
    requires InCube(p, m + 1) && InCube(c, 1) && IsInSubcube(p, c, Pow2(m))
    ensures IsInSubcube(Place(a, b, e, p, m + 1), Place(a, b, e, c, 1), Pow2(m))
  {
    SmallCorner(c);
    PlacedPart(p.x, c.x, m, a);
    PlacedPart(p.y, c.y, m, a != b);
    PlacedPart(p.z, c.z, m, b != e);
  }

  lemma SmallCorner(c: Point)
    requires InCube(c, 1)
    ensures c.x < 2 && c.y < 2 && c.z < 2
  {
    assert Pow2(1) == 2;
  }

  lemma TurnedSubcube(a: bool, b: bool, e: bool, p: Point, c: Point, m: nat)
    requires InCube(p, m + 1) && InCube(c, 1) && IsInSubcube(p, c, Pow2(m))
    ensures IsInSubcube(TurnBack(a, b, e, p, m + 1), TurnBack(a, b, e, c, 1), Pow2(m))
  {
    assert Pow2(1) == 2;
    forall flip: bool
      ensures IsInPart(Invert(p.x, m + 1, flip), Invert(c.x, 1, flip), Pow2(m))
      ensures IsInPart(Invert(p.y, m + 1, flip), Invert(c.y, 1, flip), Pow2(m))
      ensures IsInPart(Invert(p.z, m + 1, flip), Invert(c.z, 1, flip), Pow2(m))
    {
      InvertedPart(p.x, c.x, m, flip);
      InvertedPart(p.y, c.y, m, flip);
      InvertedPart(p.z, c.z, m, flip);
    }
  }

  lemma FirstSubcube(e: nat, q: Point, m: nat)
    requires e < 8 && InCube(q, m)
    ensures InCube(Outer(e, q, m), m + 1) && InCube(Outer(e, ORIGIN, 0), 1)
    ensures IsInSubcube(Outer(e, q, m), Outer(e, ORIGIN, 0), Pow2(m))
  {
    var a, b, c := DigitBit(e, 2), DigitBit(e, 1), DigitBit(e, 0);
    var r := TurnBack(a, b, c, q, m);
    assert TurnBack(a, b, c, ORIGIN, 0) == ORIGIN;
    assert Pow2(0) == 1;
  }

  /** Two levels of decoding lead to the cube in the table. */
  lemma TwoLevels(d: nat, e: nat, q: Point, r: Point, p: Point, m: nat)
    requires d < 8 && e < 8 && InCube(q, m) && r == Outer(e, q, m) && p == Outer(d, r, m + 1)
    ensures IsInSubcube(p, Corner(d, e), Pow2(m))
  {
    FirstSubcube(e, q, m);
    SubcubeIsMoved(d, r, Outer(e, ORIGIN, 0), m);
    CornerIs(d, e);
  }

  lemma CornerIs(d: nat, e: nat)
    requires d < 8 && e < 8
    ensures InCube(Outer(e, ORIGIN, 0), 1) && Outer(d, Outer(e, ORIGIN, 0), 1) == Corner(d, e)
  {
    DigitBits(d);
    DigitBits(e);
  }

  // ------------------------------------------------------------- keys and cubes

  /** The cubes of different digits do not overlap. */
  lemma SubcubesDiffer(d: nat, e: nat, d': nat, e': nat, p: Point, u: nat)
    requires d < 8 && e < 8 && d' < 8 && e' < 8 && u > 0
    requires IsInSubcube(p, Corner(d, e), u) && IsInSubcube(p, Corner(d', e'), u)
    ensures d == d' && e == e'
  {
    OnePart(p.x, Corner(d, e).x, Corner(d', e').x, u);
    OnePart(p.y, Corner(d, e).y, Corner(d', e').y, u);
    OnePart(p.z, Corner(d, e).z, Corner(d', e').z, u);
    CornersDiffer(d, e, d', e');
  }

  lemma OnePart(v: nat, c: nat, c': nat, u: nat)
    requires u > 0 && IsInPart(v, c, u) && IsInPart(v, c', u)
    ensures c == c'
  {
  }

  lemma CornersDiffer(d: nat, e: nat, d': nat, e': nat)
    requires d < 8 && e < 8 && d' < 8 && e' < 8
    ensures Corner(d, e) == Corner(d', e') ==> d == d' && e == e'
  {
    CornerIs(d, e);
    CornerIs(d', e');
    CornerHasDigits(d, e);
    CornerHasDigits(d', e');
  }

  lemma CornerHasDigits(d: nat, e: nat)
    requires d < 8 && e < 8 && InCube(Outer(e, ORIGIN, 0), 1)
    ensures var p := Outer(d, Outer(e, ORIGIN, 0), 1); TopDigit(p, 1) == d && TopDigit(Inner(p, 1), 0) == e
  {
    assert InCube(ORIGIN, 0);
    InnerOfOuter(e, ORIGIN, 0);
    InnerOfOuter(d, Outer(e, ORIGIN, 0), 1);
  }

  /** The points of a key with leading digits d and e are in the cube of the table. */
  lemma KeyIsInSubcube(m: nat, key: nat)
    ensures IsInSubcube(Decode(HILBERT, m + 2, key), Corner(Digit(key, m + 1), Digit(key, m)), Pow2(m))
  {
    DecodeLevel(m, key);
    DecodeLevel(m + 1, key);
    TwoLevels(Digit(key, m + 1), Digit(key, m), Decode(HILBERT, m, key), Decode(HILBERT, m + 1, key),
              Decode(HILBERT, m + 2, key), m);
  }

  lemma DecodeLevel(m: nat, key: nat)
    ensures InCube(Decode(HILBERT, m, key), m)
    ensures Decode(HILBERT, m + 1, key) == Outer(Digit(key, m), Decode(HILBERT, m, key), m)
  {
    HilbertIsInvertible();
    DecodeInCube(HILBERT, m, key);
  }

  lemma OnlySubcube(d: nat, e: nat, d': nat, e': nat, p: Point, u: nat)
    requires d < 8 && e < 8 && d' < 8 && e' < 8 && u > 0 && IsInSubcube(p, Corner(d', e'), u)
    ensures IsInSubcube(p, Corner(d, e), u) <==> d' == d && e' == e
  {
    if IsInSubcube(p, Corner(d, e), u) { SubcubesDiffer(d, e, d', e', p, u); }
  }

  /** For any number of levels from 2 on, the keys with leading digits d and e are those of the points in the cube that
      the table says. */
  lemma SubcubeOfDigits(m: nat, p: Point, d: nat, e: nat)
    requires InCube(p, m + 2) && d < 8 && e < 8
    ensures var key := Encode(HILBERT, m + 2, p);
            Digit(key, m + 1) == d && Digit(key, m) == e <==> IsInSubcube(p, Corner(d, e), Pow2(m))
  {
    var key := KeyOf(m + 2, p);
    KeyIsInSubcube(m, key);
    OnlySubcube(d, e, Digit(key, m + 1), Digit(key, m), p, Pow2(m));
  }

  lemma KeyOf(n: nat, p: Point) returns (key: nat)
    requires InCube(p, n)
    ensures key == Encode(HILBERT, n, p) && Decode(HILBERT, n, key) == p
  {
    HilbertIsInvertible();
    key := Encode(HILBERT, n, p);
    DecodeEncode(HILBERT, n, p);
  }
}
