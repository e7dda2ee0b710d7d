/** `RouteSnapper` (RouteSnapper.java): snapping a location onto a polyline
    route, inserting it into the route, and measuring route lengths. */
module RouteSnapper {
  import opened Wrappers
  import opened Geometry
  import opened Lists

  /** A segment closer than 25 m counts as "close enough" ... */
  const NEAR_ENOUGH2: real := 625.0
  /** ... and a later segment farther than 50 m as "moving away": both squared. */
  const MOVING_AWAY2: real := 2500.0

  /** `ReachedWaypointResult`: the nearest segment and the index of its start point. */
  datatype ReachedWaypointResult = ReachedWaypointResult(nearest: NearestSegmentResult, reachedWaypointIdx: int)

  /** What the Java code throws: from `subList(startIdx, size)`,
      `IndexOutOfBoundsException` for a negative start and
      `IllegalArgumentException` for a start beyond the end;
      `NullPointerException` from `requireNonNull` when no segment was examined,
      and `IllegalArgumentException` when the location is too far from the route. */
  datatype SnapError =
    | IndexOutOfBounds
    | StartAfterEnd
    | NoSegment
    | OutOfTolerance(context: Option<string>, location: Point, threshold: real, distance: real)

  /** `RouteSnappingParameter`: the route is the mutable list `insert` adds to. */
  datatype RouteSnappingParameter = RouteSnappingParameter(
    route: MutableList<Point>,
    location: Point,
    context: Option<string>,
    distanceFromRouteThresholdM: Option<real>,
    previouslyReachedWaypointIdx: Option<int>)

  // ---------------------------------------------------------------------------
  // The segment scan of calcReachedWaypointIdx(route, location)
  // ---------------------------------------------------------------------------

  /** The `i`-th segment of the route, from point `i` to point `i + 1`. */
  function SegmentAt(route: seq<Point>, i: int): (s: Segment)
    requires 0 <= i < |route| - 1
    ensures s.start == route[i] && s.end == route[i + 1]
  {
    Segment(route[i], route[i + 1])
  }

  /** Squared planar distance of `loc` from the `i`-th segment. */
  function SegDist2(route: seq<Point>, loc: Point, i: int): (d: real)
    requires 0 <= i < |route| - 1
    ensures d >= 0.0
  {
    CalcDistance(SegmentAt(route, i), loc).distance
  }

  /** The segment the scan holds as nearest after examining segments `0 .. k-1`
      without stopping: the earliest of the closest ones, because a later segment
      replaces the current best only when it is strictly closer. */
  function EarliestNearest(route: seq<Point>, loc: Point, k: int): (j: int)
    requires 1 <= k <= |route| - 1
    ensures 0 <= j < k
    ensures forall i :: 0 <= i < k ==> SegDist2(route, loc, j) <= SegDist2(route, loc, i)
    ensures forall i :: 0 <= i < j ==> SegDist2(route, loc, j) < SegDist2(route, loc, i)
    decreases k
  {
    if k == 1 then 0
    else
      var j := EarliestNearest(route, loc, k - 1);
      if SegDist2(route, loc, k - 1) < SegDist2(route, loc, j) then k - 1 else j
  }

  /** Segment `k` ends the scan: it does not improve on the best so far, the
      best is within 25 m and segment `k` is more than 50 m away. */
  predicate StopsAt(route: seq<Point>, loc: Point, k: int)
    requires 1 <= k < |route| - 1
  {
    var j := EarliestNearest(route, loc, k);
    !(SegDist2(route, loc, k) < SegDist2(route, loc, j))
    && SegDist2(route, loc, j) < NEAR_ENOUGH2
    && SegDist2(route, loc, k) > MOVING_AWAY2
  }

  /** The number of segments whose distance competes for the minimum: the first
      stopping segment at or after `from`, or all segments when none stops. */
  function ScanEnd(route: seq<Point>, loc: Point, from: int): (e: int)
    requires 1 <= from <= |route| - 1
    ensures from <= e <= |route| - 1
    ensures forall k :: from <= k < e ==> !StopsAt(route, loc, k)
    ensures e < |route| - 1 ==> StopsAt(route, loc, e)
    decreases |route| - from
  {
    if from == |route| - 1 || StopsAt(route, loc, from) then from
    else ScanEnd(route, loc, from + 1)
  }

  /** What `calcReachedWaypointIdx(route, location)` returns: the nearest of the
      segments scanned, with its distance recomputed along the great circle. */
  function ReachedWaypoint(m: Maths, route: seq<Point>, loc: Point): (r: Result<ReachedWaypointResult, SnapError>)
    ensures r.Failure? <==> |route| < 2
    ensures r.Failure? ==> r.error == NoSegment
    ensures r.Success? ==> 0 <= r.value.reachedWaypointIdx <= |route| - 2
    ensures r.Success? ==> r.value.nearest.segment == SegmentAt(route, r.value.reachedWaypointIdx)
    // the distance reported is the great-circle one to the point found
    ensures r.Success? ==> r.value.nearest.distance == HaversineM(m, loc, r.value.nearest.nearestPointOnSegment)
  {
    if |route| < 2 then Failure(NoSegment)
    else
      var j := EarliestNearest(route, loc, ScanEnd(route, loc, 1));
      var nearest := CalcDistance(SegmentAt(route, j), loc);
      Success(ReachedWaypointResult(
        NearestSegmentResult(nearest.segment, nearest.nearestPointOnSegment,
                             HaversineM(m, loc, nearest.nearestPointOnSegment)),
        j))
  }

  /** The reported segment is a closest one among all segments the scan examined
      (including the one that stopped it), and no earlier segment is as close. */
  lemma ReachedWaypointIsNearestScanned(m: Maths, route: seq<Point>, loc: Point)
    requires |route| >= 2
    ensures var j := ReachedWaypoint(m, route, loc).value.reachedWaypointIdx;
            var e := ScanEnd(route, loc, 1);
            && (forall i :: 0 <= i <= e && i < |route| - 1 ==> SegDist2(route, loc, j) <= SegDist2(route, loc, i))
            && (forall i :: 0 <= i < j ==> SegDist2(route, loc, j) < SegDist2(route, loc, i))
  {
    var e := ScanEnd(route, loc, 1);
    var j := EarliestNearest(route, loc, e);
    if e < |route| - 1 {
      assert StopsAt(route, loc, e);
    }
  }

  /** The reported nearest point is the point of the reached segment closest to the location. */
  lemma ReachedWaypointPointIsClosest(m: Maths, route: seq<Point>, loc: Point, t: real)
    requires |route| >= 2 && 0.0 <= t <= 1.0
    ensures var r := ReachedWaypoint(m, route, loc).value;
            Dist2(loc, r.nearest.nearestPointOnSegment) <= Dist2(loc, PointAt(r.nearest.segment, t))
  {
    var r := ReachedWaypoint(m, route, loc).value;
    CalcDistanceIsNearest(r.nearest.segment, loc, t);
  }

  /** `calcReachedWaypointIdx(route, location)`: one pass over the segments
      that keeps the strictly closest one and may stop early. */
  method CalcReachedWaypointIdx(m: Maths, route: seq<Point>, loc: Point) returns (r: Result<ReachedWaypointResult, SnapError>)
    ensures r == ReachedWaypoint(m, route, loc)
  {
    var nearestSegment: Option<NearestSegmentResult> := None;  // `Double.MAX_VALUE`: no segment yet
    var reachedWaypoint := -1;
    var i := 0;
    while i < |route| - 1
      invariant i == 0 || 1 <= i <= |route| - 1
      invariant i == 0 ==> nearestSegment.None?
      invariant i > 0 ==> reachedWaypoint == EarliestNearest(route, loc, i)
      invariant i > 0 ==> nearestSegment == Some(CalcDistance(SegmentAt(route, reachedWaypoint), loc))
      invariant forall k :: 1 <= k < i ==> !StopsAt(route, loc, k)
    {
      var segmentDistance := CalcDistance(Segment(route[i], route[i + 1]), loc);
      if nearestSegment.None? || segmentDistance.distance < nearestSegment.value.distance {
        nearestSegment := Some(segmentDistance);
        reachedWaypoint := i;
      } else if nearestSegment.value.distance < NEAR_ENOUGH2 && segmentDistance.distance > MOVING_AWAY2 {
        assert StopsAt(route, loc, i);
        ScanEndIsFirstStop(route, loc, 1, i);
        break;
      }
      i := i + 1;
    }
    if nearestSegment.None? {
      return Failure(NoSegment);
    }
    if i == |route| - 1 {
      ScanEndIsFirstStop(route, loc, 1, i);
    }
    var nearest := nearestSegment.value;
    var correctDistance := HaversineM(m, loc, nearest.nearestPointOnSegment);
    r := Success(ReachedWaypointResult(
      NearestSegmentResult(nearest.segment, nearest.nearestPointOnSegment, correctDistance),
      reachedWaypoint));
  }

  /** The scan ends at the first stopping segment (or after the last segment). */
  lemma {:induction false} ScanEndIsFirstStop(route: seq<Point>, loc: Point, from: int, e: int)
    requires 1 <= from <= e <= |route| - 1
    requires forall k :: from <= k < e ==> !StopsAt(route, loc, k)
    requires e < |route| - 1 ==> StopsAt(route, loc, e)
    ensures ScanEnd(route, loc, from) == e
    decreases e - from
  {
    if from < e {
      assert !StopsAt(route, loc, from);
      ScanEndIsFirstStop(route, loc, from + 1, e);
    }
  }

  /** Once the scan stops early, nothing after the stopping segment matters:
      any route sharing its first `e + 2` points snaps the location the same way. */
  lemma ScanIgnoresRest(m: Maths, route: seq<Point>, other: seq<Point>, loc: Point)
    requires |route| >= 2 && ScanEnd(route, loc, 1) < |route| - 1
    requires var e := ScanEnd(route, loc, 1);
             |other| >= e + 2 && other[..e + 2] == route[..e + 2]
    ensures ReachedWaypoint(m, other, loc) == ReachedWaypoint(m, route, loc)
  {
    var e := ScanEnd(route, loc, 1);
    SegmentsAgree(route, other, e);
    ScanEndAgrees(route, other, loc);
    var j := EarliestNearest(route, loc, e);
    EarliestNearestAgree(route, other, loc, e);
    assert SegmentAt(other, j) == SegmentAt(route, j);
  }

  lemma SegmentsAgree(route: seq<Point>, other: seq<Point>, e: int)
    requires 0 <= e && |route| >= e + 2 && |other| >= e + 2 && other[..e + 2] == route[..e + 2]
    ensures forall i :: 0 <= i <= e ==> SegmentAt(other, i) == SegmentAt(route, i)
  {
    forall i | 0 <= i <= e
      ensures SegmentAt(other, i) == SegmentAt(route, i)
    {
      assert other[..e + 2][i] == route[..e + 2][i];
      assert other[..e + 2][i + 1] == route[..e + 2][i + 1];
    }
  }

  lemma ScanEndAgrees(route: seq<Point>, other: seq<Point>, loc: Point)
    requires |route| >= 2 && ScanEnd(route, loc, 1) < |route| - 1
    requires var e := ScanEnd(route, loc, 1);
             |other| >= e + 2 && forall i :: 0 <= i <= e ==> SegmentAt(other, i) == SegmentAt(route, i)
    ensures ScanEnd(other, loc, 1) == ScanEnd(route, loc, 1)
  {
    var e := ScanEnd(route, loc, 1);
    if e < |other| - 1 {
      StopsAtAgree(route, other, loc, e);
    }
    forall k | 1 <= k < e
      ensures !StopsAt(other, loc, k)
    {
      StopsAtAgree(route, other, loc, k);
    }
    ScanEndIsFirstStop(other, loc, 1, e);
  }

  /** Whether the scan stops at segment `k` depends on segments `0 .. k` only. */
  lemma StopsAtAgree(route: seq<Point>, other: seq<Point>, loc: Point, k: int)
    requires 1 <= k < |route| - 1 && k < |other| - 1
    requires forall i :: 0 <= i <= k ==> SegmentAt(other, i) == SegmentAt(route, i)
    ensures StopsAt(other, loc, k) == StopsAt(route, loc, k)
  {
    EarliestNearestAgree(route, other, loc, k);
    var j := EarliestNearest(route, loc, k);
    assert SegDist2(other, loc, j) == SegDist2(route, loc, j);
    assert SegDist2(other, loc, k) == SegDist2(route, loc, k);
  }

  lemma {:induction false} EarliestNearestAgree(route: seq<Point>, other: seq<Point>, loc: Point, k: int)
    requires 1 <= k <= |route| - 1 && k <= |other| - 1
    requires forall i :: 0 <= i < k ==> SegmentAt(other, i) == SegmentAt(route, i)
    ensures EarliestNearest(other, loc, k) == EarliestNearest(route, loc, k)
    decreases k
  {
    if k > 1 {
      EarliestNearestAgree(route, other, loc, k - 1);
      var j := EarliestNearest(route, loc, k - 1);
      assert SegDist2(other, loc, k - 1) == SegDist2(route, loc, k - 1);
      assert SegDist2(other, loc, j) == SegDist2(route, loc, j);
    }
  }

  // ---------------------------------------------------------------------------
  // calcReachedWaypointIdx(route, location, startIdx) and insert
  // ---------------------------------------------------------------------------

  /** What `calcReachedWaypointIdx(route, location, startIdx)` returns: the scan
      of `route.subList(startIdx, size)`, its index shifted back by `startIdx`. */
  function ReachedWaypointFrom(m: Maths, route: seq<Point>, loc: Point, startIdx: int): (r: Result<ReachedWaypointResult, SnapError>)
    ensures startIdx < 0 <==> r == Failure(IndexOutOfBounds)
    ensures startIdx > |route| <==> r == Failure(StartAfterEnd)
    ensures 0 <= startIdx <= |route| && r.Failure? ==> r.error == NoSegment
    ensures r.Success? <==> 0 <= startIdx <= |route| - 2
    ensures r.Success? ==> startIdx <= r.value.reachedWaypointIdx <= |route| - 2
    ensures r.Success? ==> r.value.nearest.segment == SegmentAt(route, r.value.reachedWaypointIdx)
    ensures r.Success? ==> r.value.nearest.distance == HaversineM(m, loc, r.value.nearest.nearestPointOnSegment)
  {
    if startIdx < 0 then Failure(IndexOutOfBounds)
    else if startIdx > |route| then Failure(StartAfterEnd)
    else
      match ReachedWaypoint(m, route[startIdx..], loc)
      case Failure(e) => Failure(e)
      case Success(res) =>
        Success(res.(reachedWaypointIdx := res.reachedWaypointIdx + startIdx))
  }

  /** Starting at 0 is the plain scan. */
  lemma ReachedWaypointFromZero(m: Maths, route: seq<Point>, loc: Point)
    ensures ReachedWaypointFrom(m, route, loc, 0) == ReachedWaypoint(m, route, loc)
  {
    assert route[0..] == route;
  }

  method CalcReachedWaypointIdxFrom(m: Maths, route: seq<Point>, loc: Point, startIdx: int) returns (r: Result<ReachedWaypointResult, SnapError>)
    ensures r == ReachedWaypointFrom(m, route, loc, startIdx)
  {
    if startIdx < 0 {
      return Failure(IndexOutOfBounds);
    } else if startIdx > |route| {
      return Failure(StartAfterEnd);
    }
    var subList := route[startIdx..];
    r := CalcReachedWaypointIdx(m, subList, loc);
    if r.Success? {
      var result := r.value;
      result := result.(reachedWaypointIdx := result.reachedWaypointIdx + startIdx);
      r := Success(result);
    }
  }

  /** What `insert` returns for a route holding `route`: the reached segment
      from the hint on, unless the distance exceeds the threshold. */
  function InsertOutcome(m: Maths, route: seq<Point>, loc: Point, context: Option<string>,
                         threshold: Option<real>, previous: Option<int>): (r: Result<ReachedWaypointResult, SnapError>)
    ensures r.Success? ==> previous.GetOr(0) <= r.value.reachedWaypointIdx <= |route| - 2
    ensures r.Failure? ==> r.error.OutOfTolerance? || r == ReachedWaypointFrom(m, route, loc, previous.GetOr(0))
    ensures r.Failure? && r.error.OutOfTolerance? ==>
              && threshold == Some(r.error.threshold) && r.error.threshold < r.error.distance
              && r.error.location == loc && r.error.context == context
  {
    var reached :- ReachedWaypointFrom(m, route, loc, previous.GetOr(0));
    if threshold.Some? && threshold.value < reached.nearest.distance then
      Failure(OutOfTolerance(context, loc, threshold.value, reached.nearest.distance))
    else
      Success(reached)
  }

  /** The threshold rejects a location exactly when it is strictly exceeded;
      without a threshold every snapped location is accepted. */
  lemma InsertThreshold(m: Maths, route: seq<Point>, loc: Point, context: Option<string>,
                        threshold: Option<real>, previous: Option<int>)
    requires ReachedWaypointFrom(m, route, loc, previous.GetOr(0)).Success?
    ensures var reached := ReachedWaypointFrom(m, route, loc, previous.GetOr(0)).value;
            var r := InsertOutcome(m, route, loc, context, threshold, previous);
            && (r.Failure? <==> threshold.Some? && threshold.value < reached.nearest.distance)
            && (r.Success? ==> r.value == reached)
            && (r.Failure? ==> r.error == OutOfTolerance(context, loc, threshold.value, reached.nearest.distance))
  {
  }

  /** `insert`: snaps the location and adds it to the route right after the reached waypoint. */
  method Insert(m: Maths, params: RouteSnappingParameter) returns (r: Result<ReachedWaypointResult, SnapError>)
    modifies params.route
    ensures r == InsertOutcome(m, old(params.route.elems), params.location, params.context,
                               params.distanceFromRouteThresholdM, params.previouslyReachedWaypointIdx)
    ensures r.Success? ==> params.route.elems == Splice(old(params.route.elems), r.value.reachedWaypointIdx + 1, params.location)
    ensures r.Failure? ==> params.route.elems == old(params.route.elems)
  {
    var route := params.route;
    var location := params.location;
    var startIdx := params.previouslyReachedWaypointIdx.GetOr(0);
    var reached := CalcReachedWaypointIdxFrom(m, route.elems, location, startIdx);
    if reached.Failure? {
      return reached;
    }
    var res := reached.value;
    if params.distanceFromRouteThresholdM.Some? && params.distanceFromRouteThresholdM.value < res.nearest.distance {
      return Failure(OutOfTolerance(params.context, location, params.distanceFromRouteThresholdM.value, res.nearest.distance));
    }
    route.Add(res.reachedWaypointIdx + 1, location);
    r := reached;
  }

  // ---------------------------------------------------------------------------
  // getLength
  // ---------------------------------------------------------------------------

  /** Length of the step from point `i` to point `i + 1`: the cached
      `distanceToNext` of point `i` when set, otherwise the metric. */
  function StepLength(points: seq<Point>, i: int, dist: (Point, Point) -> real): real
    requires 0 <= i < |points| - 1
  {
    points[i].distanceToNext.GetOr(dist(points[i], points[i + 1]))
  }

  /** `getLength`: the sum of the step lengths. */
  function Length(points: seq<Point>, dist: (Point, Point) -> real): (len: real)
    ensures |points| < 2 ==> len == 0.0
    decreases |points|
  {
    if |points| < 2 then 0.0
    else StepLength(points, 0, dist) + Length(points[1..], dist)
  }

  /** The great-circle metric `RouteSnapper::haversineDistanceM`. */
  function HaversineMetric(m: Maths): (dist: (Point, Point) -> real)
    ensures forall p, q :: dist(p, q) == HaversineM(m, p, q)
  {
    (p, q) => HaversineM(m, p, q)
  }

  /** The planar metric `RouteSnapper::euklideanDistance`. */
  function MercatorMetric(m: Maths): (dist: (Point, Point) -> real)
    ensures forall p, q :: dist(p, q) == EuclideanM(m, p, q)
  {
    (p, q) => EuclideanM(m, p, q)
  }

  /** `getLengthMercatorM`: the route measured step by step in projection units. */
  function LengthMercatorM(m: Maths, points: seq<Point>): (len: real)
    ensures |points| < 2 ==> len == 0.0
    // the last step adds its own length to that of the route before it
    ensures |points| >= 2 ==>
              len == Length(points[..|points| - 1], MercatorMetric(m)) + StepLength(points, |points| - 2, MercatorMetric(m))
  {
    if |points| < 2 then 0.0
    else
      LengthIsSumOfSteps(points, MercatorMetric(m));
      Length(points, MercatorMetric(m))
  }

  /** `getLengthHaversineM`: the route measured step by step in metres. */
  function LengthHaversineM(m: Maths, points: seq<Point>): (len: real)
    ensures |points| < 2 ==> len == 0.0
    ensures |points| >= 2 ==>
              len == Length(points[..|points| - 1], HaversineMetric(m)) + StepLength(points, |points| - 2, HaversineMetric(m))
  {
    if |points| < 2 then 0.0
    else
      LengthIsSumOfSteps(points, HaversineMetric(m));
      Length(points, HaversineMetric(m))
  }

  /** A route whose every step is cached measures the same in metres and in
      projection units. */
  lemma CachedLengthsAgree(m: Maths, points: seq<Point>)
    requires forall i :: 0 <= i < |points| - 1 ==> points[i].distanceToNext.Some?
    ensures LengthHaversineM(m, points) == LengthMercatorM(m, points)
  {
    CachedLengthIgnoresMetric(points, HaversineMetric(m), MercatorMetric(m));
  }

  /** The great-circle length is the first step plus the length of the rest. */
  lemma LengthHaversineMFront(m: Maths, points: seq<Point>)
    requires |points| >= 2
    ensures LengthHaversineM(m, points) == StepLength(points, 0, HaversineMetric(m)) + LengthHaversineM(m, points[1..])
  {
  }

  /** Splitting a route at a shared point splits its length. */
  lemma {:induction false} LengthSplit(points: seq<Point>, k: int, dist: (Point, Point) -> real)
    requires 0 <= k < |points|
    ensures Length(points[..k + 1], dist) + Length(points[k..], dist) == Length(points, dist)
    decreases k
  {
    if k > 0 {
      LengthSplit(points[1..], k - 1, dist);
      assert points[1..][..k] == points[..k + 1][1..];
      assert points[1..][k - 1..] == points[k..];
      assert StepLength(points[..k + 1], 0, dist) == StepLength(points, 0, dist);
    } else {
      assert points[0..] == points;
    }
  }

  /** The step lengths summed one by one. */
  lemma {:induction false} LengthIsSumOfSteps(points: seq<Point>, dist: (Point, Point) -> real)
    requires |points| >= 2
    ensures Length(points, dist) == Length(points[..|points| - 1], dist) + StepLength(points, |points| - 2, dist)
  {
    var n := |points|;
    LengthSplit(points, n - 2, dist);
    assert points[n - 2..][1..] == points[n - 1..];
    assert StepLength(points[n - 2..], 0, dist) == StepLength(points, n - 2, dist);
    assert points[..n - 1] == points[..n - 2 + 1];
  }

  /** A route whose points all carry a cached distance has the same length under every metric. */
  lemma {:induction false} CachedLengthIgnoresMetric(points: seq<Point>, d1: (Point, Point) -> real, d2: (Point, Point) -> real)
    requires forall i :: 0 <= i < |points| - 1 ==> points[i].distanceToNext.Some?
    ensures Length(points, d1) == Length(points, d2)
    decreases |points|
  {
    if |points| >= 2 {
      CachedLengthIgnoresMetric(points[1..], d1, d2);
    }
  }

  /** A step whose start point caches `c` contributes `c`, whatever the metric,
      and the rest of the route is measured as before. */
  lemma {:induction false} CachedStepPreferred(points: seq<Point>, i: int, c: real, dist: (Point, Point) -> real)
    requires 0 <= i < |points| - 1 && points[i].distanceToNext == Some(c)
    ensures Length(points, dist) == Length(points[..i + 1], dist) + c + Length(points[i + 1..], dist)
  {
    LengthSplit(points, i, dist);
    assert points[i..][1..] == points[i + 1..];
    assert StepLength(points[i..], 0, dist) == c;
  }
}
