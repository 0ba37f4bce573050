/** Separation of integer boxes on a grid that may be periodic, and the mutual acceptance criterion. */
module Separation {

  function Abs(x: int): (a: nat) {
    if x < 0 then -x else x
  }

  function MinOf(x: nat, y: nat): (m: nat) {
    if x <= y then x else y
  }

  /** `pbcDistance`, with the program's division by two, which rounds towards zero. */
  function PbcDistance(x: int, R: nat): (d: int) {
    var half := R / 2;
    var ret := if x <= -half then x + R else x;
    if ret > half then ret - R else ret
  }

  predicate Overlap(a: int, b: int, c: int, d: int) {
    b > c && d > a
  }

  /** `rangeSep`: separation of the ranges [a, b] and [c, d]; R is the period, or 0. */
  function RangeSep(a: int, b: int, c: int, d: int, R: nat): (s: nat) {
    if Overlap(a, b, c, d) then 0
    else MinOf(Abs(PbcDistance(d - a, R)), Abs(PbcDistance(c - b, R)))
  }

  /** Distance of two grid points on a line, or on a circle of circumference R. */
  function PointDistance(p: int, q: int, R: nat): (d: nat) {
    var x := Abs(p - q);
    if R == 0 then x else if x <= R then MinOf(x, R - x) else x
  }

  predicate IsPeriod(R: nat, n: nat) {
    R == 0 || (R == n && R % 2 == 0)
  }

  lemma PbcDistanceIs(x: int, R: nat, n: nat)
    requires IsPeriod(R, n) && -(n as int) <= x <= n
    ensures Abs(PbcDistance(x, R)) == if R == 0 then Abs(x) else MinOf(Abs(x), R - Abs(x))
  {
  }

  lemma NoPointsAreCloser(a: nat, b: nat, c: nat, d: nat, R: nat, n: nat, p: nat, q: nat)
    requires IsPeriod(R, n) && a <= b <= n && c <= d <= n && a <= p <= b && c <= q <= d
    ensures PointDistance(p, q, R) >= RangeSep(a, b, c, d, R)
  {
    PbcDistanceIs(d - a, R, n);
    PbcDistanceIs(c - b, R, n);
  }

  /** The program's separation is the smallest distance between points of the two ranges. */
  lemma RangeSepIsSeparation(a: nat, b: nat, c: nat, d: nat, R: nat, n: nat) returns (p: nat, q: nat)
    requires IsPeriod(R, n) && a <= b <= n && c <= d <= n
    ensures a <= p <= b && c <= q <= d && PointDistance(p, q, R) == RangeSep(a, b, c, d, R)
    ensures forall x: nat, y: nat :: a <= x <= b && c <= y <= d ==> PointDistance(x, y, R) >= RangeSep(a, b, c, d, R)
  {
    PbcDistanceIs(d - a, R, n);
    PbcDistanceIs(c - b, R, n);
    if Overlap(a, b, c, d) {
      p := if a > c then a else c;
      q := p;
    } else if Abs(PbcDistance(d - a, R)) <= Abs(PbcDistance(c - b, R)) {
      p, q := a, d;
    } else {
      p, q := b, c;
    }
    forall x: nat, y: nat | a <= x <= b && c <= y <= d ensures PointDistance(x, y, R) >= RangeSep(a, b, c, d, R) {
      NoPointsAreCloser(a, b, c, d, R, n, x, y);
    }
  }

  lemma DistanceIsSymmetric(p: int, q: int, R: nat)
    ensures PointDistance(p, q, R) == PointDistance(q, p, R)
  {
  }

  /** Ranges that contain other ranges are at most as far apart, in either order. */
  lemma RangeSepShrinks(a: nat, b: nat, c: nat, d: nat, a': nat, b': nat, c': nat, d': nat, R: nat, n: nat)
    requires IsPeriod(R, n) && a' <= a <= b <= b' <= n && c' <= c <= d <= d' <= n
    ensures RangeSep(a', b', c', d', R) <= RangeSep(a, b, c, d, R)
    ensures RangeSep(c', d', a', b', R) <= RangeSep(a, b, c, d, R)
  {
    var p, q := RangeSepIsSeparation(a, b, c, d, R, n);
    NoPointsAreCloser(a', b', c', d', R, n, p, q);
    NoPointsAreCloser(c', d', a', b', R, n, q, p);
    DistanceIsSymmetric(p, q, R);
  }

  // ------------------------------------------------------------- boxes

  datatype Box = Box(xmin: nat, xmax: nat, ymin: nat, ymax: nat, zmin: nat, zmax: nat)

  /** A box on a grid of n points per dimension. */
  predicate IsBox(b: Box, n: nat) {
    b.xmin <= b.xmax <= n && b.ymin <= b.ymax <= n && b.zmin <= b.zmax <= n
  }

  predicate Contains(outer: Box, inner: Box) {
    && outer.xmin <= inner.xmin && inner.xmax <= outer.xmax
    && outer.ymin <= inner.ymin && inner.ymax <= outer.ymax
    && outer.zmin <= inner.zmin && inner.zmax <= outer.zmax
  }

  function MaxOf(x: nat, y: nat): (m: nat) {
    if x >= y then x else y
  }

  function MaxExtent(b: Box): (l: nat) {
    MaxOf(MaxOf(Abs(b.xmax - b.xmin), Abs(b.ymax - b.ymin)), Abs(b.zmax - b.zmin))
  }

  /** Grid of n points per dimension: the separation of ranges in each dimension, and what counts as far,
      the separations in three dimensions against the largest extent. */
  datatype Grid = Grid(n: nat, sepX: (nat, nat, nat, nat) -> nat, sepY: (nat, nat, nat, nat) -> nat,
                       sepZ: (nat, nat, nat, nat) -> nat, far: (nat, nat, nat, nat) -> bool)

  /** Ranges that contain other ranges are at most as far apart, in either order. */
  ghost predicate IsShrinking(sep: (nat, nat, nat, nat) -> nat, n: nat) {
    forall a: nat, b: nat, c: nat, d: nat, a': nat, b': nat, c': nat, d': nat
      {:trigger sep(a, b, c, d), sep(a', b', c', d')} ::
      (a' <= a <= b <= b' <= n && c' <= c <= d <= d' <= n) || (a' <= c <= d <= b' <= n && c' <= a <= b <= d' <= n) ==>
      sep(a', b', c', d') <= sep(a, b, c, d)
  }

  /** What is far stays far when it moves apart or shrinks. */
  ghost predicate IsMonotone(far: (nat, nat, nat, nat) -> bool) {
    forall x: nat, y: nat, z: nat, l: nat, x': nat, y': nat, z': nat, l': nat
      {:trigger far(x, y, z, l), far(x', y', z', l')} ::
      x <= x' && y <= y' && z <= z' && l' <= l && far(x, y, z, l) ==> far(x', y', z', l')
  }

  ghost predicate IsGrid(g: Grid) {
    IsShrinking(g.sepX, g.n) && IsShrinking(g.sepY, g.n) && IsShrinking(g.sepZ, g.n) && IsMonotone(g.far)
  }

  /** `minMacMutualInt`: the boxes are far from each other compared to the larger of them. */
  predicate MinMacMutualInt(a: Box, b: Box, g: Grid) {
    g.far(g.sepX(a.xmin, a.xmax, b.xmin, b.xmax), g.sepY(a.ymin, a.ymax, b.ymin, b.ymax),
          g.sepZ(a.zmin, a.zmax, b.zmin, b.zmax), MaxOf(MaxExtent(a), MaxExtent(b)))
  }

  /** If the criterion fails for two boxes, it fails for all boxes around them, in either order. */
  lemma MacFailureSpreads(a: Box, b: Box, a': Box, b': Box, g: Grid)
    requires IsGrid(g) && IsBox(a, g.n) && IsBox(b, g.n) && IsBox(a', g.n) && IsBox(b', g.n)
    requires Contains(a', a) && Contains(b', b) && !MinMacMutualInt(a, b, g)
    ensures !MinMacMutualInt(a', b', g) && !MinMacMutualInt(b', a', g)
  {
    assert MaxExtent(a) <= MaxExtent(a') && MaxExtent(b) <= MaxExtent(b');
  }

  // ------------------------------------------------------------- the program's notion of far

  function Scaled(s: nat, e: real): (q: real)
    requires e > 0.0
  {
    (s as real / e) * (s as real / e)
  }

  /** The norm of the separations, scaled by an ellipse, exceeds the extent. */
  function EllipseFar(ex: real, ey: real, ez: real): (far: (nat, nat, nat, nat) -> bool)
    requires ex > 0.0 && ey > 0.0 && ez > 0.0
  {
    (x: nat, y: nat, z: nat, l: nat) => Scaled(x, ex) + Scaled(y, ey) + Scaled(z, ez) > l as real * l as real
  }

  lemma SquareGrows(x: real, y: real)
    requires 0.0 <= x <= y
    ensures x * x <= y * y
  {
    assert x * x <= x * y;
    assert x * y <= y * y;
  }

  lemma QuotientGrows(s: real, t: real, e: real)
    requires 0.0 <= s <= t && e > 0.0
    ensures 0.0 <= s / e <= t / e
  {
  }

  lemma ScaledGrows(s: nat, t: nat, e: real)
    requires s <= t && e > 0.0
    ensures Scaled(s, e) <= Scaled(t, e)
  {
    QuotientGrows(s as real, t as real, e);
    SquareGrows(s as real / e, t as real / e);
  }

  lemma EllipseIsMonotone(ex: real, ey: real, ez: real)
    requires ex > 0.0 && ey > 0.0 && ez > 0.0
    ensures IsMonotone(EllipseFar(ex, ey, ez))
  {
    var far := EllipseFar(ex, ey, ez);
    forall x: nat, y: nat, z: nat, l: nat, x': nat, y': nat, z': nat, l': nat |
      x <= x' && y <= y' && z <= z' && l' <= l && far(x, y, z, l)
      ensures far(x', y', z', l')
    {
      ScaledGrows(x, x', ex);
      ScaledGrows(y, y', ey);
      ScaledGrows(z, z', ez);
      SquareGrows(l' as real, l as real);
    }
  }

  /** `minMacMutualInt` with exact numbers: periods px, py, pz, and the ellipse. */
  function MacGrid(n: nat, px: nat, py: nat, pz: nat, ex: real, ey: real, ez: real): (g: Grid)
    requires ex > 0.0 && ey > 0.0 && ez > 0.0
  {
    Grid(n,
         (a: nat, b: nat, c: nat, d: nat) => RangeSep(a, b, c, d, px),
         (a: nat, b: nat, c: nat, d: nat) => RangeSep(a, b, c, d, py),
         (a: nat, b: nat, c: nat, d: nat) => RangeSep(a, b, c, d, pz),
         EllipseFar(ex, ey, ez))
  }

  lemma SeparationIsShrinking(n: nat, R: nat)
    requires IsPeriod(R, n)
    ensures IsShrinking((a: nat, b: nat, c: nat, d: nat) => RangeSep(a, b, c, d, R), n)
  {
    var sep := (a: nat, b: nat, c: nat, d: nat) => RangeSep(a, b, c, d, R);
    forall a: nat, b: nat, c: nat, d: nat, a': nat, b': nat, c': nat, d': nat |
      (a' <= a <= b <= b' <= n && c' <= c <= d <= d' <= n) || (a' <= c <= d <= b' <= n && c' <= a <= b <= d' <= n)
      ensures sep(a', b', c', d') <= sep(a, b, c, d)
    {
      if a' <= a <= b <= b' <= n && c' <= c <= d <= d' <= n {
        RangeSepShrinks(a, b, c, d, a', b', c', d', R, n);
      } else {
        RangeSepShrinks(a, b, c, d, c', d', a', b', R, n);
      }
    }
  }

  lemma MacGridIsGrid(n: nat, px: nat, py: nat, pz: nat, ex: real, ey: real, ez: real)
    requires ex > 0.0 && ey > 0.0 && ez > 0.0 && IsPeriod(px, n) && IsPeriod(py, n) && IsPeriod(pz, n)
    ensures IsGrid(MacGrid(n, px, py, pz, ex, ey, ez))
  {
    SeparationIsShrinking(n, px);
    SeparationIsShrinking(n, py);
    SeparationIsShrinking(n, pz);
    EllipseIsMonotone(ex, ey, ez);
  }

  // ------------------------------------------------------------- what the criterion means for points

  datatype GridPoint = GridPoint(x: nat, y: nat, z: nat)

  predicate InBox(p: GridPoint, b: Box) {
    b.xmin <= p.x <= b.xmax && b.ymin <= p.y <= b.ymax && b.zmin <= p.z <= b.zmax
  }

  /** Periods and axes of the ellipse. */
  datatype Metric = Metric(px: nat, py: nat, pz: nat, ex: real, ey: real, ez: real)

  predicate IsMetric(m: Metric, n: nat) {
    m.ex > 0.0 && m.ey > 0.0 && m.ez > 0.0 && IsPeriod(m.px, n) && IsPeriod(m.py, n) && IsPeriod(m.pz, n)
  }

  function SquaredDistance(p: GridPoint, q: GridPoint, m: Metric): (d: real)
    requires m.ex > 0.0 && m.ey > 0.0 && m.ez > 0.0
  {
    Scaled(PointDistance(p.x, q.x, m.px), m.ex) + Scaled(PointDistance(p.y, q.y, m.py), m.ey) +
    Scaled(PointDistance(p.z, q.z, m.pz), m.ez)
  }

  function Square(l: nat): (s: real) {
    l as real * l as real
  }

  /** Points p and q are further apart than u and v are in any dimension. */
  predicate AreFurther(p: GridPoint, q: GridPoint, u: GridPoint, v: GridPoint, m: Metric)
    requires m.ex > 0.0 && m.ey > 0.0 && m.ez > 0.0
  {
    var d := SquaredDistance(p, q, m);
    d > Square(Abs(u.x - v.x)) && d > Square(Abs(u.y - v.y)) && d > Square(Abs(u.z - v.z))
  }

  /** Points of different boxes are further apart than points of the same box are in any dimension. */
  ghost predicate AreSeparated(a: Box, b: Box, m: Metric)
    requires m.ex > 0.0 && m.ey > 0.0 && m.ez > 0.0
  {
    forall p: GridPoint, q: GridPoint, u: GridPoint, v: GridPoint ::
      InBox(p, a) && InBox(q, b) && ((InBox(u, a) && InBox(v, a)) || (InBox(u, b) && InBox(v, b))) ==>
      AreFurther(p, q, u, v, m)
  }

  function MetricGrid(n: nat, m: Metric): (g: Grid)
    requires m.ex > 0.0 && m.ey > 0.0 && m.ez > 0.0
  {
    MacGrid(n, m.px, m.py, m.pz, m.ex, m.ey, m.ez)
  }

  /** Squared distance by the separations of the ranges. */
  function SquaredSeparation(a: Box, b: Box, m: Metric): (d: real)
    requires m.ex > 0.0 && m.ey > 0.0 && m.ez > 0.0
  {
    Scaled(RangeSep(a.xmin, a.xmax, b.xmin, b.xmax, m.px), m.ex) +
    Scaled(RangeSep(a.ymin, a.ymax, b.ymin, b.ymax, m.py), m.ey) +
    Scaled(RangeSep(a.zmin, a.zmax, b.zmin, b.zmax, m.pz), m.ez)
  }

  lemma NoPointsOfBoxesAreCloser(a: Box, b: Box, m: Metric, n: nat, p: GridPoint, q: GridPoint)
    requires IsMetric(m, n) && IsBox(a, n) && IsBox(b, n) && InBox(p, a) && InBox(q, b)
    ensures SquaredDistance(p, q, m) >= SquaredSeparation(a, b, m)
  {
    NoPointsAreCloser(a.xmin, a.xmax, b.xmin, b.xmax, m.px, n, p.x, q.x);
    NoPointsAreCloser(a.ymin, a.ymax, b.ymin, b.ymax, m.py, n, p.y, q.y);
    NoPointsAreCloser(a.zmin, a.zmax, b.zmin, b.zmax, m.pz, n, p.z, q.z);
    ScaledGrows(RangeSep(a.xmin, a.xmax, b.xmin, b.xmax, m.px), PointDistance(p.x, q.x, m.px), m.ex);
    ScaledGrows(RangeSep(a.ymin, a.ymax, b.ymin, b.ymax, m.py), PointDistance(p.y, q.y, m.py), m.ey);
    ScaledGrows(RangeSep(a.zmin, a.zmax, b.zmin, b.zmax, m.pz), PointDistance(p.z, q.z, m.pz), m.ez);
  }

  /** Some points are as close as the ranges. */
  lemma ClosestPoints(a: Box, b: Box, m: Metric, n: nat) returns (p: GridPoint, q: GridPoint)
    requires IsMetric(m, n) && IsBox(a, n) && IsBox(b, n)
    ensures InBox(p, a) && InBox(q, b)
    ensures SquaredDistance(p, q, m) == SquaredSeparation(a, b, m)
  {
    var px, qx := RangeSepIsSeparation(a.xmin, a.xmax, b.xmin, b.xmax, m.px, n);
    var py, qy := RangeSepIsSeparation(a.ymin, a.ymax, b.ymin, b.ymax, m.py, n);
    var pz, qz := RangeSepIsSeparation(a.zmin, a.zmax, b.zmin, b.zmax, m.pz, n);
    p, q := GridPoint(px, py, pz), GridPoint(qx, qy, qz);
  }

  lemma ExtentsAreSmaller(b: Box, u: GridPoint, v: GridPoint)
    requires InBox(u, b) && InBox(v, b)
    ensures var l := MaxExtent(b); Abs(u.x - v.x) <= l && Abs(u.y - v.y) <= l && Abs(u.z - v.z) <= l
  {
  }

  /** Opposite corners of a box are as far apart as its largest extent in some dimension. */
  lemma CornersAreApart(b: Box, n: nat) returns (u: GridPoint, v: GridPoint)
    requires IsBox(b, n)
    ensures InBox(u, b) && InBox(v, b)
    ensures var l := MaxExtent(b); Abs(u.x - v.x) == l || Abs(u.y - v.y) == l || Abs(u.z - v.z) == l
  {
    u, v := GridPoint(b.xmin, b.ymin, b.zmin), GridPoint(b.xmax, b.ymax, b.zmax);
  }

  lemma SquareIsMonotone(k: nat, l: nat)
    requires k <= l
    ensures Square(k) <= Square(l)
  {
    SquareGrows(k as real, l as real);
  }

  lemma LargestIsEnough(l: nat, p: GridPoint, q: GridPoint, u: GridPoint, v: GridPoint, m: Metric)
    requires m.ex > 0.0 && m.ey > 0.0 && m.ez > 0.0 && SquaredDistance(p, q, m) > Square(l)
    requires Abs(u.x - v.x) <= l && Abs(u.y - v.y) <= l && Abs(u.z - v.z) <= l
    ensures AreFurther(p, q, u, v, m)
  {
    SquareIsMonotone(Abs(u.x - v.x), l);
    SquareIsMonotone(Abs(u.y - v.y), l);
    SquareIsMonotone(Abs(u.z - v.z), l);
  }

  lemma EllipseIs(m: Metric, x: nat, y: nat, z: nat, l: nat)
    requires m.ex > 0.0 && m.ey > 0.0 && m.ez > 0.0
    ensures EllipseFar(m.ex, m.ey, m.ez)(x, y, z, l) <==>
            Scaled(x, m.ex) + Scaled(y, m.ey) + Scaled(z, m.ez) > Square(l)
  {
  }

  lemma MacIsDistance(a: Box, b: Box, m: Metric, n: nat, l: nat)
    requires IsMetric(m, n) && l == MaxOf(MaxExtent(a), MaxExtent(b))
    ensures MinMacMutualInt(a, b, MetricGrid(n, m)) <==> SquaredSeparation(a, b, m) > Square(l)
  {
    EllipseIs(m, RangeSep(a.xmin, a.xmax, b.xmin, b.xmax, m.px), RangeSep(a.ymin, a.ymax, b.ymin, b.ymax, m.py),
              RangeSep(a.zmin, a.zmax, b.zmin, b.zmax, m.pz), l);
  }

  lemma FarIsSeparated(a: Box, b: Box, m: Metric, n: nat, l: nat)
    requires IsMetric(m, n) && IsBox(a, n) && IsBox(b, n) && l == MaxOf(MaxExtent(a), MaxExtent(b))
    requires SquaredSeparation(a, b, m) > Square(l)
    ensures AreSeparated(a, b, m)
  {
    forall p: GridPoint, q: GridPoint, u: GridPoint, v: GridPoint |
      InBox(p, a) && InBox(q, b) && ((InBox(u, a) && InBox(v, a)) || (InBox(u, b) && InBox(v, b)))
      ensures AreFurther(p, q, u, v, m)
    {
      NoPointsOfBoxesAreCloser(a, b, m, n, p, q);
      if InBox(u, a) && InBox(v, a) { ExtentsAreSmaller(a, u, v); } else { ExtentsAreSmaller(b, u, v); }
      LargestIsEnough(l, p, q, u, v, m);
    }
  }

  lemma OneIsLargest(p: GridPoint, q: GridPoint, u: GridPoint, v: GridPoint, m: Metric, l: nat)
    requires m.ex > 0.0 && m.ey > 0.0 && m.ez > 0.0 && AreFurther(p, q, u, v, m)
    requires Abs(u.x - v.x) == l || Abs(u.y - v.y) == l || Abs(u.z - v.z) == l
    ensures SquaredDistance(p, q, m) > Square(l)
  {
  }

  lemma SeparatedIsFar(a: Box, b: Box, m: Metric, n: nat, l: nat)
    requires IsMetric(m, n) && IsBox(a, n) && IsBox(b, n) && AreSeparated(a, b, m)
    requires l == MaxOf(MaxExtent(a), MaxExtent(b))
    ensures SquaredSeparation(a, b, m) > Square(l)
  {
    var p, q := ClosestPoints(a, b, m, n);
    var u, v := CornersAreApart(if MaxExtent(a) >= MaxExtent(b) then a else b, n);
    assert AreFurther(p, q, u, v, m);
    OneIsLargest(p, q, u, v, m, l);
  }

  /** The criterion holds exactly if the boxes are separated: by more than their sides. */
  lemma MacIsSeparation(a: Box, b: Box, m: Metric, n: nat)
    requires IsMetric(m, n) && IsBox(a, n) && IsBox(b, n)
    ensures MinMacMutualInt(a, b, MetricGrid(n, m)) <==> AreSeparated(a, b, m)
  {
    var l := MaxOf(MaxExtent(a), MaxExtent(b));
    MacIsDistance(a, b, m, n, l);
    if AreSeparated(a, b, m) { SeparatedIsFar(a, b, m, n, l); }
    if MinMacMutualInt(a, b, MetricGrid(n, m)) { FarIsSeparated(a, b, m, n, l); }
  }
}
