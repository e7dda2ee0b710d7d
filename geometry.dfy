/** Points, segments and distances of `RouteSnapper` (RouteSnapper.java): a point
    carries Web-Mercator coordinates and, optionally, its WGS-84 coordinates and
    a cached distance to the next route point. */
module Geometry {
  import opened Wrappers

  /** The transcendental functions the Java code takes from `java.lang.Math`,
      supplied from outside and assumed nothing about: the square root, the
      Mercator latitude projection and its inverse, and the haversine
      great-circle distance in metres between (lat1, lon1) and (lat2, lon2). */
  datatype Maths = Maths(
    sqrt: real -> real,
    latToMercatorY: real -> real,
    mercatorYToLat: real -> real,
    haversineM: (real, real, real, real) -> real)

  /** Half the circumference of the Web-Mercator square, in projection units. */
  const MERCATOR_EXTENT: real := 20037508.34

  function LonToMercatorX(lon: real): (x: real)
    ensures lon < 0.0 <==> x < 0.0
    ensures lon == 180.0 ==> x == MERCATOR_EXTENT
  {
    lon * MERCATOR_EXTENT / 180.0
  }

  /** The inverse projection of a longitude: projecting the result gives `x` back. */
  function XToLon(x: real): (lon: real)
    ensures LonToMercatorX(lon) == x
  {
    x / MERCATOR_EXTENT * 180.0
  }

  lemma LonRoundTrip(lon: real)
    ensures XToLon(LonToMercatorX(lon)) == lon
  {
  }

  lemma {:induction false} LonToMercatorXMonotone(lon1: real, lon2: real)
    requires lon1 < lon2
    ensures LonToMercatorX(lon1) < LonToMercatorX(lon2)
  {
    assert LonToMercatorX(lon2) - LonToMercatorX(lon1) == (lon2 - lon1) * (MERCATOR_EXTENT / 180.0);
  }

  /** `RouteSnapper.Point`: `lon`, `lat` memoise the inverse projection,
      `distanceToNext` caches the length of the segment starting here. */
  datatype Point = Point(x: real, y: real, lon: Option<real>, lat: Option<real>, distanceToNext: Option<real>)

  function OfLatLon(m: Maths, lat: real, lon: real, distanceToNext: Option<real>): (p: Point)
    ensures p.x == LonToMercatorX(lon) && p.y == m.latToMercatorY(lat)
    ensures Lon(p) == lon && Lat(m, p) == lat && p.distanceToNext == distanceToNext
    // the memoised longitude is the one the lazy getter would compute from x
    ensures Lon(p) == XToLon(p.x)
  {
    Point(LonToMercatorX(lon), m.latToMercatorY(lat), Some(lon), Some(lat), distanceToNext)
  }

  function OfMercator(x: real, y: real): (p: Point)
    ensures p.x == x && p.y == y && p.distanceToNext.None?
    ensures Lon(p) == XToLon(x)
  {
    Point(x, y, None, None, None)
  }

  function OfMercatorCached(x: real, y: real, distanceToNext: real): (p: Point)
    ensures p.x == x && p.y == y && p.distanceToNext == Some(distanceToNext)
  {
    Point(x, y, None, None, Some(distanceToNext))
  }

  /** `Point.getLon()`: the memoised longitude, otherwise the inverse projection of `x`. */
  function Lon(p: Point): (lon: real)
    ensures p.lon.Some? ==> lon == p.lon.value
    // without a memo, projecting the result gives `x` back
    ensures p.lon.None? ==> LonToMercatorX(lon) == p.x
  {
    match p.lon
    case Some(v) => v
    case None => XToLon(p.x)
  }

  /** `Point.getLat()`: the memoised latitude, otherwise the inverse projection of `y`. */
  function Lat(m: Maths, p: Point): (lat: real)
    ensures p.lat.Some? ==> lat == p.lat.value
    ensures p.lat.None? ==> lat == m.mercatorYToLat(p.y)
  {
    match p.lat
    case Some(v) => v
    case None => m.mercatorYToLat(p.y)
  }

  /** `RouteSnapper.haversineDistanceM(Point, Point)`. */
  function HaversineM(m: Maths, p1: Point, p2: Point): (d: real)
    // points made from latitude and longitude are measured with those, not
    // with their projection's inverse
    ensures p1.lat.Some? && p1.lon.Some? && p2.lat.Some? && p2.lon.Some? ==>
              d == m.haversineM(p1.lat.value, p1.lon.value, p2.lat.value, p2.lon.value)
  {
    m.haversineM(Lat(m, p1), Lon(p1), Lat(m, p2), Lon(p2))
  }

  /** `RouteSnapper.euklideanDistance`: planar distance in projection units. */
  function EuclideanM(m: Maths, p1: Point, p2: Point): (d: real)
    // symmetric, and the root of zero for points at the same place
    ensures d == m.sqrt(Dist2(p2, p1))
    ensures p1.x == p2.x && p1.y == p2.y ==> d == m.sqrt(0.0)
  {
    assert Dist2(p1, p2) == Dist2(p2, p1) by {
      assert Sq(p1.x - p2.x) == Sq(p2.x - p1.x);
      assert Sq(p1.y - p2.y) == Sq(p2.y - p1.y);
    }
    m.sqrt(Dist2(p1, p2))
  }

  /** Squared planar distance. */
  function Dist2(p: Point, q: Point): (d: real)
    ensures d >= 0.0
  {
    SqNonNegative(p.x - q.x);
    SqNonNegative(p.y - q.y);
    Sq(p.x - q.x) + Sq(p.y - q.y)
  }

  datatype Segment = Segment(start: Point, end: Point)

  /** `NearestSegmentResult`. While a route is being scanned, `distance` is the
      SQUARED planar distance (the Java code compares the planar distance itself;
      the square root is monotone, so every comparison comes out the same). */
  datatype NearestSegmentResult = NearestSegmentResult(segment: Segment, nearestPointOnSegment: Point, distance: real)

  /** The point at parameter `t` along `s` (`t == 0` is the start, `t == 1` the end). */
  function PointAt(s: Segment, t: real): Point
  {
    OfMercator(s.start.x + t * Dx(s), s.start.y + t * Dy(s))
  }

  function Dx(s: Segment): real
  {
    s.end.x - s.start.x
  }

  function Dy(s: Segment): real
  {
    s.end.y - s.start.y
  }

  /** Parameter of the point of `s` closest to `p`: the orthogonal projection,
      clamped to the segment; a segment of length zero is its start point. */
  function ClosestParam(s: Segment, p: Point): (t: real)
    ensures 0.0 <= t <= 1.0
  {
    ProjectionParam(p.x - s.start.x, p.y - s.start.y, Dx(s), Dy(s))
  }

  /** Clamped projection parameter of the vector w on the vector d. */
  function ProjectionParam(wx: real, wy: real, dx: real, dy: real): (t: real)
    ensures 0.0 <= t <= 1.0
  {
    var len2 := Sq(dx) + Sq(dy);
    if len2 == 0.0 then 0.0
    else Clamp01(Div(wx * dx + wy * dy, len2))
  }

  function Clamp01(u: real): (t: real)
    ensures 0.0 <= t <= 1.0
  {
    if u < 0.0 then 0.0 else if u > 1.0 then 1.0 else u
  }

  /** `RouteSnapper.calcDistance` (the JTS `DistanceOp` between a segment and a point). */
  function CalcDistance(s: Segment, p: Point): (r: NearestSegmentResult)
    ensures r.segment == s
    ensures r.nearestPointOnSegment == PointAt(s, ClosestParam(s, p))
    ensures r.distance == Dist2(p, r.nearestPointOnSegment) && r.distance >= 0.0
  {
    var q := PointAt(s, ClosestParam(s, p));
    NearestSegmentResult(s, q, Dist2(p, q))
  }

  /** The point `CalcDistance` reports is the closest point of the segment. */
  lemma CalcDistanceIsNearest(s: Segment, p: Point, t: real)
    requires 0.0 <= t <= 1.0
    ensures CalcDistance(s, p).distance <= Dist2(p, PointAt(s, t))
  {
    var wx, wy := p.x - s.start.x, p.y - s.start.y;
    var tc := ClosestParam(s, p);
    DistanceAlong(s, p, t);
    DistanceAlong(s, p, tc);
    ClampedParamMinimises(wx, wy, Dx(s), Dy(s), t, tc);
  }

  lemma DistanceAlong(s: Segment, p: Point, t: real)
    ensures Dist2(p, PointAt(s, t)) == Sq((p.x - s.start.x) - t * Dx(s)) + Sq((p.y - s.start.y) - t * Dy(s))
  {
  }

  function Sq(a: real): real
  {
    a * a
  }

  lemma SqNonNegative(a: real)
    ensures Sq(a) >= 0.0
  {
    if a != 0.0 {
      SqPositive(a);
    }
  }

  lemma SqPositive(a: real)
    requires a != 0.0
    ensures Sq(a) > 0.0
  {
    if a > 0.0 {
      PositiveProduct(a, a);
      assert Sq(a) == Mul(a, a);
    } else {
      PositiveProduct(-a, -a);
      assert Sq(a) == Mul(-a, -a);
    }
  }

  function Div(a: real, b: real): real
    requires b != 0.0
  {
    a / b
  }

  function Mul(a: real, b: real): real
  {
    a * b
  }

  lemma PositiveProduct(a: real, b: real)
    requires a > 0.0 && b > 0.0
    ensures Mul(a, b) > 0.0
  {
  }

  /** f(t) = |w - t d|^2 takes its least value on [0, 1] at the clamped projection of w on d. */
  lemma ClampedParamMinimises(wx: real, wy: real, dx: real, dy: real, t: real, tc: real)
    requires 0.0 <= t <= 1.0
    requires tc == ProjectionParam(wx, wy, dx, dy)
    ensures Sq(wx - tc * dx) + Sq(wy - tc * dy) <= Sq(wx - t * dx) + Sq(wy - t * dy)
  {
    var len2 := Sq(dx) + Sq(dy);
    var g := wx * dx + wy * dy;
    Regroup(wx, wy, dx, dy, t);
    Regroup(wx, wy, dx, dy, tc);
    SqNonNegative(dx);
    SqNonNegative(dy);
    if len2 == 0.0 {
      if dx != 0.0 {
        SqPositive(dx);
      }
      if dy != 0.0 {
        SqPositive(dy);
      }
      assert dx == 0.0 && dy == 0.0;
      assert g == 0.0;
    } else {
      QuadMinimum(len2, g, t, tc);
    }
  }

  /** The squared distance to the point at `t`, less |w|^2. */
  function Quad(len2: real, g: real, t: real): real
  {
    -2.0 * t * g + t * t * len2
  }

  lemma Regroup(wx: real, wy: real, dx: real, dy: real, t: real)
    ensures Sq(wx - t * dx) + Sq(wy - t * dy) == (Sq(wx) + Sq(wy)) + Quad(Sq(dx) + Sq(dy), wx * dx + wy * dy, t)
  {
    Expand(wx, dx, t);
    Expand(wy, dy, t);
  }

  lemma Expand(w: real, d: real, t: real)
    ensures Sq(w - t * d) == Sq(w) - 2.0 * t * (w * d) + t * t * Sq(d)
  {
  }

  lemma QuadMinimum(len2: real, g: real, t: real, tc: real)
    requires 0.0 <= t <= 1.0 && len2 > 0.0
    requires tc == Clamp01(Div(g, len2))
    ensures Quad(len2, g, tc) <= Quad(len2, g, t)
  {
    var a := t - tc;
    var b := len2 * (t + tc) - 2.0 * g;
    Factor(len2, g, t, tc);
    var u := Div(g, len2);
    assert g == u * len2;
    if u < 0.0 {
      assert g < 0.0 && tc == 0.0;
      NonNegativeProduct(a, b);
    } else if u > 1.0 {
      assert g > len2 && tc == 1.0;
      NonPositiveProduct(a, b);
    } else {
      assert tc == u;
      assert b == len2 * a;
      NonNegativeScaledSquare(len2, a);
    }
  }

  lemma Factor(len2: real, g: real, t: real, tc: real)
    ensures Quad(len2, g, t) - Quad(len2, g, tc) == (t - tc) * (len2 * (t + tc) - 2.0 * g)
  {
  }

  lemma NonNegativeProduct(a: real, b: real)
    requires a >= 0.0 && b >= 0.0
    ensures a * b >= 0.0
  {
  }

  lemma NonPositiveProduct(a: real, b: real)
    requires a <= 0.0 && b <= 0.0
    ensures a * b >= 0.0
  {
  }

  lemma NonNegativeScaledSquare(c: real, a: real)
    requires c >= 0.0
    ensures a * (c * a) >= 0.0
  {
    assert a * (c * a) == c * (a * a);
  }
}
