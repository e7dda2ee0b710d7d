/** `SpeedRecommender` (SpeedRecommender.java): for a cyclist's position on a
    planned route, the next traffic light ahead, the distance to it, its merged
    signal timeline and the speed advice derived from the next usable phase. */
module SpeedRecommender {
  import opened Wrappers
  import opened Geometry
  import opened RouteSnapper
  import opened PlannedRoute

  // ---------------------------------------------------------------------------
  // TrafficLightSignalState
  // ---------------------------------------------------------------------------

  /** `TrafficLightSignalState`, in declaration order. */
  datatype SignalState = Dark | Red | Amber | Green | RedAmber | AmberFlashing | GreenFlashing | Unknown

  /** `values()`: the states in declaration order. */
  function Values(): (vs: seq<SignalState>)
    ensures |vs| == 8
    ensures forall i :: 0 <= i < |vs| ==> Ordinal(vs[i]) == i
  {
    [Dark, Red, Amber, Green, RedAmber, AmberFlashing, GreenFlashing, Unknown]
  }

  /** `ordinal()`. */
  function Ordinal(s: SignalState): (n: nat)
    ensures n < 8
  {
    match s
    case Dark => 0
    case Red => 1
    case Amber => 2
    case Green => 3
    case RedAmber => 4
    case AmberFlashing => 5
    case GreenFlashing => 6
    case Unknown => 7
  }

  /** `get()`: the code the traffic-light data stream uses (9 for unknown). */
  function Code(s: SignalState): (c: int)
    ensures (0 <= c <= 6) || c == 9
    ensures c == 9 <==> s == Unknown
    ensures s != Unknown ==> c == Ordinal(s)
  {
    if s == Unknown then 9 else Ordinal(s)
  }

  /** `get(int)`: 9 is unknown, every other code indexes `values()`, so 7 is
      unknown as well and codes outside `0 .. 7` throw. */
  function FromCode(value: int): (r: Result<SignalState, RecommendError>)
    ensures r.Failure? <==> value < 0 || value == 8 || value > 9
    ensures r.Failure? ==> r.error == IndexOutOfRange
    ensures r.Success? && value != 9 ==> Ordinal(r.value) == value
  {
    if value == 9 then Success(Unknown)
    else if 0 <= value < |Values()| then Success(Values()[value])
    else Failure(IndexOutOfRange)
  }

  /** Every state survives encoding and decoding. */
  lemma CodeRoundTrip(s: SignalState)
    ensures FromCode(Code(s)) == Success(s)
  {
  }

  /** Every code of the data stream decodes to the state that encodes to it. */
  lemma FromCodeRoundTrip(value: int)
    requires 0 <= value <= 6 || value == 9
    ensures FromCode(value).Success? && Code(FromCode(value).value) == value
  {
  }

  // ---------------------------------------------------------------------------
  // Signal timelines
  // ---------------------------------------------------------------------------

  /** `TrafficLightRtDataDto`: a signal state from `phenomenonTime` on, the time
      in nanoseconds since the epoch. */
  datatype RtData = RtData(phenomenonTime: int, result: SignalState)

  const NANOS_PER_SECOND: int := 1_000_000_000

  /** `ChronoUnit.SECONDS.between(start, end)`: whole seconds, truncated toward zero. */
  function SecondsBetween(start: int, end: int): (sec: int)
    ensures sec > 0 <==> end - start >= NANOS_PER_SECOND
    ensures sec >= 0 <==> end - start > -NANOS_PER_SECOND
    ensures end - start >= 0 ==> sec * NANOS_PER_SECOND <= end - start < (sec + 1) * NANOS_PER_SECOND
    ensures end - start < 0 ==> (sec - 1) * NANOS_PER_SECOND < end - start <= sec * NANOS_PER_SECOND
  {
    var d := end - start;
    if d >= 0 then d / NANOS_PER_SECOND else -((-d) / NANOS_PER_SECOND)
  }

  /** `a` may come before `b` in a list sorted by time, ascending or descending. */
  predicate InOrder(a: RtData, b: RtData, descending: bool)
  {
    if descending then a.phenomenonTime >= b.phenomenonTime else a.phenomenonTime <= b.phenomenonTime
  }

  predicate SortedByTime(s: seq<RtData>, descending: bool)
  {
    forall i, j :: 0 <= i < j < |s| ==> InOrder(s[i], s[j], descending)
  }

  /** Inserts `x` in front of the first element it may precede. */
  function InsertByTime(x: RtData, s: seq<RtData>, descending: bool): (r: seq<RtData>)
    requires SortedByTime(s, descending)
    ensures multiset(r) == multiset(s) + multiset{x}
    ensures SortedByTime(r, descending)
    decreases |s|
  {
    if |s| == 0 then [x]
    else if InOrder(x, s[0], descending) then
      assert forall k :: 0 <= k < |s| ==> InOrder(s[0], s[k], descending);
      [x] + s
    else
      var rest := InsertByTime(x, s[1..], descending);
      assert s == [s[0]] + s[1..];
      HeadPrecedesInsertion(x, s, rest, descending);
      [s[0]] + rest
  }

  /** The head of a sorted list may precede whatever is inserted behind it. */
  lemma HeadPrecedesInsertion(x: RtData, s: seq<RtData>, rest: seq<RtData>, descending: bool)
    requires SortedByTime(s, descending) && |s| > 0 && !InOrder(x, s[0], descending)
    requires multiset(rest) == multiset(s[1..]) + multiset{x}
    requires SortedByTime(rest, descending)
    ensures SortedByTime([s[0]] + rest, descending)
  {
    forall k | 0 <= k < |rest|
      ensures InOrder(s[0], rest[k], descending)
    {
      assert rest[k] in multiset(rest);
      if rest[k] != x {
        assert rest[k] in multiset(s[1..]);
        var k' :| 0 <= k' < |s[1..]| && s[1..][k'] == rest[k];
        assert s[k' + 1] == rest[k];
      }
    }
    var r := [s[0]] + rest;
    forall i, j | 0 <= i < j < |r|
      ensures InOrder(r[i], r[j], descending)
    {
      if i > 0 {
        assert r[i] == rest[i - 1] && r[j] == rest[j - 1];
      }
    }
  }

  /** `stream().sorted(byTime)` / `sorted(byTime.reversed())`: a stable sort by time. */
  function SortByTime(s: seq<RtData>, descending: bool): (r: seq<RtData>)
    ensures multiset(r) == multiset(s)
    ensures SortedByTime(r, descending)
    decreases |s|
  {
    if |s| == 0 then []
    else
      assert s == [s[0]] + s[1..];
      InsertByTime(s[0], SortByTime(s[1..], descending), descending)
  }

  // ---------------------------------------------------------------------------
  // calcNecessarySpeed
  // ---------------------------------------------------------------------------

  /** 28 km/h in metres per second. */
  const MAX_SPEED_MS: real := 28.0 / 3.6

  /** `RecommendationData`. */
  datatype RecommendationData = RecommendationData(necessarySpeed: real, nextState: SignalState)

  /** What the stream pipeline makes of one entry: the speed needed to reach the
      light `distanceM` metres away when the entry's phase begins, if the phase
      is red or green, begins at least a whole second from `now`, and the speed
      does not exceed the maximum. */
  function Candidate(distanceM: real, now: int, e: RtData): (r: Option<RecommendationData>)
    // a candidate exactly for a red or green phase at least a whole second
    // ahead that can be reached in time without exceeding the maximum
    ensures r.Some? <==> && (e.result == Red || e.result == Green)
                         && SecondsBetween(now, e.phenomenonTime) > 0
                         && distanceM / (SecondsBetween(now, e.phenomenonTime) as real) <= MAX_SPEED_MS
    // the speed that covers the distance in the whole seconds until the phase
    ensures r.Some? ==> r.value == RecommendationData(distanceM / (SecondsBetween(now, e.phenomenonTime) as real), e.result)
    ensures r.Some? ==> r.value.necessarySpeed <= MAX_SPEED_MS
    ensures r.Some? ==> e.phenomenonTime - now >= NANOS_PER_SECOND
  {
    if e.result != Green && e.result != Red then None
    else
      var timeUntil := SecondsBetween(now, e.phenomenonTime);
      if timeUntil <= 0 then None
      else
        var necessarySpeed := distanceM / (timeUntil as real);
        if necessarySpeed > MAX_SPEED_MS then None
        else Some(RecommendationData(necessarySpeed, e.result))
  }

  /** `filter(Optional::isPresent).findFirst()`: the first entry with a candidate. */
  function FirstCandidate(distanceM: real, now: int, s: seq<RtData>): (i: Option<int>)
    ensures i.Some? ==> 0 <= i.value < |s| && Candidate(distanceM, now, s[i.value]).Some?
    ensures i.Some? ==> forall k :: 0 <= k < i.value ==> Candidate(distanceM, now, s[k]).None?
    ensures i.None? ==> forall k :: 0 <= k < |s| ==> Candidate(distanceM, now, s[k]).None?
    decreases |s|
  {
    if |s| == 0 then None
    else if Candidate(distanceM, now, s[0]).Some? then Some(0)
    else
      match FirstCandidate(distanceM, now, s[1..])
      case None => None
      case Some(i) => Some(i + 1)
  }

  /** `calcNecessarySpeed`: the candidate of the earliest usable entry. */
  function CalcNecessarySpeed(distanceM: real, now: int, tldWithPredictions: seq<RtData>): (r: Option<RecommendationData>)
    // the speed belongs to a red or green phase of the timeline and stays within the maximum
    ensures r.Some? ==> exists e :: e in tldWithPredictions && Candidate(distanceM, now, e) == r
    ensures r.Some? ==> (r.value.nextState == Red || r.value.nextState == Green) && r.value.necessarySpeed <= MAX_SPEED_MS
  {
    var byTimeAsc := SortByTime(tldWithPredictions, false);
    SameMembers(tldWithPredictions, byTimeAsc);
    match FirstCandidate(distanceM, now, byTimeAsc)
    case None => None
    case Some(i) => Candidate(distanceM, now, byTimeAsc[i])
  }

  /** The necessary speed comes from an entry of the timeline that has a candidate,
      and no entry with a candidate begins earlier; there is none exactly when no
      entry has a candidate. It is for a red or green phase and at most 28 km/h. */
  lemma NecessarySpeedIsEarliest(distanceM: real, now: int, tld: seq<RtData>)
    ensures var r := CalcNecessarySpeed(distanceM, now, tld);
            && (r.None? <==> forall e :: e in tld ==> Candidate(distanceM, now, e).None?)
            && (r.Some? ==> (r.value.nextState == Red || r.value.nextState == Green) && r.value.necessarySpeed <= MAX_SPEED_MS)
            && (r.Some? ==> exists e :: e in tld && Candidate(distanceM, now, e) == r
                             && forall e' :: e' in tld && Candidate(distanceM, now, e').Some? ==> e.phenomenonTime <= e'.phenomenonTime)
  {
    var sorted := SortByTime(tld, false);
    SameMembers(tld, sorted);
    match FirstCandidate(distanceM, now, sorted)
    case None =>
    case Some(i) =>
      EarliestCandidate(distanceM, now, sorted, i);
  }

  /** A permutation has the same members. */
  lemma SameMembers(s: seq<RtData>, t: seq<RtData>)
    requires multiset(s) == multiset(t)
    ensures forall e :: e in s <==> e in t
  {
    forall e
      ensures e in s <==> e in t
    {
      assert e in s <==> e in multiset(s);
      assert e in t <==> e in multiset(t);
    }
  }

  /** In a list sorted by ascending time, the first entry with a candidate begins
      no later than any other entry with a candidate. */
  lemma EarliestCandidate(distanceM: real, now: int, sorted: seq<RtData>, i: int)
    requires SortedByTime(sorted, false)
    requires FirstCandidate(distanceM, now, sorted) == Some(i)
    ensures forall e' :: e' in sorted && Candidate(distanceM, now, e').Some? ==> sorted[i].phenomenonTime <= e'.phenomenonTime
  {
    forall e' | e' in sorted && Candidate(distanceM, now, e').Some?
      ensures sorted[i].phenomenonTime <= e'.phenomenonTime
    {
      var k :| 0 <= k < |sorted| && sorted[k] == e';
      if k > i {
        assert InOrder(sorted[i], sorted[k], false);
      }
    }
  }

  // ---------------------------------------------------------------------------
  // getRecommendation
  // ---------------------------------------------------------------------------

  datatype Recommendation = Slower | Keep | Quicker

  /** Errors of the speed-recommendation pipeline: `values()[value]` out of
      range, the route is empty (`subList(1, 0)`), snapping failed, or the next
      phase is neither red nor green (`IllegalStateException`). */
  datatype RecommendError = IndexOutOfRange | EmptyRoute | SnapFailed(cause: SnapError) | IllegalState

  /** `getRecommendation`. */
  function GetRecommendation(currentSpeed: real, rec: RecommendationData): (r: Result<Recommendation, RecommendError>)
    ensures r.Failure? <==> rec.nextState != Green && rec.nextState != Red
    ensures r.Failure? ==> r.error == IllegalState
  {
    var diff := rec.necessarySpeed - currentSpeed;
    if rec.nextState == Green then
      if diff <= 0.0 then Success(Slower)
      else if diff < 1.0 then Success(Keep)
      else Success(Quicker)
    else if rec.nextState == Red then
      if diff <= -1.0 then Success(Keep)
      else Success(Quicker)
    else Failure(IllegalState)
  }

  /** Before a green phase: slower when at least as fast as necessary, keep when
      less than 1 m/s short, quicker otherwise. */
  lemma GreenRecommendation(currentSpeed: real, necessarySpeed: real)
    ensures var r := GetRecommendation(currentSpeed, RecommendationData(necessarySpeed, Green));
            && (r == Success(Slower) <==> currentSpeed >= necessarySpeed)
            && (r == Success(Keep) <==> necessarySpeed - 1.0 < currentSpeed < necessarySpeed)
            && (r == Success(Quicker) <==> currentSpeed <= necessarySpeed - 1.0)
  {
  }

  /** Before a red phase: keep when at least 1 m/s faster than necessary, quicker otherwise. */
  lemma RedRecommendation(currentSpeed: real, necessarySpeed: real)
    ensures var r := GetRecommendation(currentSpeed, RecommendationData(necessarySpeed, Red));
            && (r == Success(Keep) <==> currentSpeed >= necessarySpeed + 1.0)
            && (r == Success(Quicker) <==> currentSpeed < necessarySpeed + 1.0)
  {
  }

  /** How strongly the advice asks to speed up. */
  function Urgency(r: Recommendation): (n: nat)
    ensures n <= 2
  {
    match r
    case Slower => 0
    case Keep => 1
    case Quicker => 2
  }

  /** Riding faster never makes the advice more urgent. */
  lemma RecommendationMonotone(slow: real, fast: real, rec: RecommendationData)
    requires slow <= fast
    requires rec.nextState == Green || rec.nextState == Red
    ensures Urgency(GetRecommendation(fast, rec).value) <= Urgency(GetRecommendation(slow, rec).value)
  {
  }

  /** The recommendation is asked for only with a necessary speed and a positive current speed. */
  function RecommendationFor(currentSpeed: Option<real>, necessarySpeed: Option<RecommendationData>): (r: Result<Option<Recommendation>, RecommendError>)
    ensures r.Success? && r.value.Some? ==> necessarySpeed.Some? && currentSpeed.Some? && currentSpeed.value > 0.0
    ensures necessarySpeed.Some? && currentSpeed.Some? && currentSpeed.value > 0.0 ==>
              r == (match GetRecommendation(currentSpeed.value, necessarySpeed.value)
                    case Success(rec) => Success(Some(rec))
                    case Failure(e) => Failure(e))
  {
    if necessarySpeed.Some? && currentSpeed.Some? && currentSpeed.value > 0.0 then
      var rec :- GetRecommendation(currentSpeed.value, necessarySpeed.value);
      Success(Some(rec))
    else Success(None)
  }

  /** A necessary speed always comes with a red or green phase, so the
      recommendation never throws, and it is present exactly when the gate opens. */
  lemma RecommendationForNecessarySpeed(currentSpeed: Option<real>, distanceM: real, now: int, tld: seq<RtData>)
    ensures var necessary := CalcNecessarySpeed(distanceM, now, tld);
            var r := RecommendationFor(currentSpeed, necessary);
            r.Success? && (r.value.Some? <==> necessary.Some? && currentSpeed.Some? && currentSpeed.value > 0.0)
  {
    NecessarySpeedIsEarliest(distanceM, now, tld);
  }

  // ---------------------------------------------------------------------------
  // RouteLoader.getRoutePoints
  // ---------------------------------------------------------------------------

  /** Point `i` of the loaded route: mapped, and caching the great-circle
      distance to the next point unless it is the last one. */
  function LoadedPoint(m: Maths, route: seq<PlannedRoutePoint>, i: int): (p: Point)
    requires 0 <= i < |route|
    ensures Lat(m, p) == route[i].lat && Lon(p) == route[i].lon
    ensures p.distanceToNext.Some? <==> i < |route| - 1
  {
    var dist := if i < |route| - 1 then Some(HaversineM(m, ToPoint(m, route[i]), ToPoint(m, route[i + 1]))) else None;
    OfLatLon(m, route[i].lat, route[i].lon, dist)
  }

  /** What `getRoutePoints` returns: every point mapped with its cached distance;
      an empty route fails at `subList(1, 0)`. */
  function RoutePoints(m: Maths, route: seq<PlannedRoutePoint>): (r: Result<seq<Point>, RecommendError>)
    ensures r.Failure? <==> |route| == 0
    ensures r.Failure? ==> r.error == EmptyRoute
    ensures r.Success? ==> |r.value| == |route|
  {
    if |route| == 0 then Failure(EmptyRoute)
    else Success(seq(|route|, i requires 0 <= i < |route| => LoadedPoint(m, route, i)))
  }

  /** `getRoutePoints`: maps the points, then sets each one's distance to the next in place. */
  method LoadRoutePoints(m: Maths, route: seq<PlannedRoutePoint>) returns (r: Result<seq<Point>, RecommendError>)
    ensures r == RoutePoints(m, route)
  {
    if |route| == 0 {
      return Failure(EmptyRoute);
    }
    var mapped := new Point[|route|](i requires 0 <= i < |route| => ToPoint(m, route[i]));
    var i := 0;
    while i < mapped.Length - 1
      invariant 0 <= i <= mapped.Length - 1
      invariant forall k :: 0 <= k < i ==> mapped[k] == LoadedPoint(m, route, k)
      invariant forall k :: i <= k < mapped.Length ==> mapped[k] == ToPoint(m, route[k])
    {
      var p := mapped[i];
      mapped[i] := p.(distanceToNext := Some(HaversineM(m, p, mapped[i + 1])));
      i := i + 1;
    }
    assert mapped[..] == RoutePoints(m, route).value;
    r := Success(mapped[..]);
  }

  /** Caching is invisible to the great-circle length: every stretch of the
      loaded route measures what the same stretch of uncached points measures. */
  lemma {:induction false} CachedStretchLength(m: Maths, route: seq<PlannedRoutePoint>, a: int, b: int)
    requires 0 <= a <= b <= |route| && |route| > 0
    ensures LengthHaversineM(m, RoutePoints(m, route).value[a..b]) == LengthHaversineM(m, ToPoints(m, route)[a..b])
    decreases b - a
  {
    if b - a >= 2 {
      var ps := RoutePoints(m, route).value;
      var us := ToPoints(m, route);
      CachedStretchLength(m, route, a + 1, b);
      assert ps[a..b][1..] == ps[a + 1..b];
      assert us[a..b][1..] == us[a + 1..b];
      assert StepLength(ps[a..b], 0, HaversineMetric(m)) == StepLength(us[a..b], 0, HaversineMetric(m));
    }
  }

  // ---------------------------------------------------------------------------
  // snap and calculateSpeedRecommendation
  // ---------------------------------------------------------------------------

  /** `SnappedToDto`. */
  datatype SnappedTo = SnappedTo(lat: real, lon: real, reachedIdx: int)

  function Max(a: int, b: int): int
  {
    if a >= b then a else b
  }

  /** How far `snap` searches back from the previously reached index. */
  const BACKWARD_MARGIN: int := 5

  /** `snap`: the nearest point of the loaded route, searching from five
      waypoints before the previously reached index. */
  function Snap(m: Maths, route: seq<PlannedRoutePoint>, lat: real, lon: real, reachedIdx: int): (r: Result<SnappedTo, RecommendError>)
    ensures r.Success? <==> Max(reachedIdx - BACKWARD_MARGIN, 0) <= |route| - 2
    ensures r.Failure? && |route| == 0 ==> r.error == EmptyRoute
    ensures r.Success? ==> Max(reachedIdx - BACKWARD_MARGIN, 0) <= r.value.reachedIdx <= |route| - 2
    // the snapped point and index are those of the scan of the loaded route
    ensures r.Success? ==>
              var res := ReachedWaypointFrom(m, RoutePoints(m, route).value, OfLatLon(m, lat, lon, None),
                                             Max(reachedIdx - BACKWARD_MARGIN, 0)).value;
              r.value == SnappedTo(Lat(m, res.nearest.nearestPointOnSegment), Lon(res.nearest.nearestPointOnSegment),
                                   res.reachedWaypointIdx)
    // and a failure on a non-empty route is the scan's
    ensures r.Failure? && |route| > 0 ==>
              r.error == SnapFailed(ReachedWaypointFrom(m, RoutePoints(m, route).value, OfLatLon(m, lat, lon, None),
                                                        Max(reachedIdx - BACKWARD_MARGIN, 0)).error)
  {
    var points :- RoutePoints(m, route);
    match ReachedWaypointFrom(m, points, OfLatLon(m, lat, lon, None), Max(reachedIdx - BACKWARD_MARGIN, 0))
    case Failure(e) => Failure(SnapFailed(e))
    case Success(res) =>
      var p := res.nearest.nearestPointOnSegment;
      Success(SnappedTo(Lat(m, p), Lon(p), res.reachedWaypointIdx))
  }

  /** The first traffic-light point at or after `from`. */
  function NextLightIdx(route: seq<PlannedRoutePoint>, from: int): (i: Option<int>)
    requires 0 <= from
    ensures i.Some? ==> from <= i.value < |route| && route[i.value].trafficLightId.Some?
    ensures i.Some? ==> forall k :: from <= k < i.value ==> route[k].trafficLightId.None?
    ensures i.None? ==> forall k :: from <= k < |route| ==> route[k].trafficLightId.None?
    decreases |route| - from
  {
    if from >= |route| then None
    else if route[from].trafficLightId.Some? then Some(from)
    else NextLightIdx(route, from + 1)
  }

  /** `NextTrafficLightDto`: absent fields are `null` in the Java DTO. */
  datatype NextTrafficLight = NextTrafficLight(
    trafficLightId: Option<string>,
    distanceM: Option<real>,
    snappedTo: SnappedTo,
    data: Option<seq<RtData>>,
    necessarySpeed: Option<real>,
    recommendation: Option<Recommendation>)

  /** The traffic-light services: the observations of a data stream, and the
      predictions made for a light from its observations. */
  datatype DataSources = DataSources(
    observations: Option<string> -> seq<RtData>,
    prediction: (Option<string>, seq<RtData>) -> seq<RtData>)

  /** The route from the snapped point to the light: points `reached .. tlIdx`,
      the first replaced by the snapped point. */
  function RelevantPart(m: Maths, points: seq<Point>, snapped: SnappedTo, tlIdx: int): (part: seq<Point>)
    requires 0 <= snapped.reachedIdx < tlIdx < |points|
    ensures |part| == tlIdx - snapped.reachedIdx + 1
    ensures part[0] == OfLatLon(m, snapped.lat, snapped.lon, None)
    ensures part[1..] == points[snapped.reachedIdx + 1..tlIdx + 1]
  {
    points[snapped.reachedIdx..tlIdx + 1][0 := OfLatLon(m, snapped.lat, snapped.lon, None)]
  }

  /** `calculateSpeedRecommendation`, with the clock reading `now` passed in. */
  function CalculateSpeedRecommendation(
    m: Maths, sources: DataSources, notificationDistanceM: real,
    route: seq<PlannedRoutePoint>, lat: real, lon: real, reachedIdx: int,
    currentSpeed: Option<real>, now: int): (r: Result<NextTrafficLight, RecommendError>)
    // fails exactly when snapping fails, and reports where the cyclist was snapped to
    ensures r.Failure? <==> Snap(m, route, lat, lon, reachedIdx).Failure?
    ensures r.Success? ==> r.value.snappedTo == Snap(m, route, lat, lon, reachedIdx).value
  {
    var snapped :- Snap(m, route, lat, lon, reachedIdx);
    match NextLightIdx(route, snapped.reachedIdx + 1)
    case None => Success(NextTrafficLight(None, None, snapped, None, None, None))
    case Some(tlIdx) => ToLight(m, sources, notificationDistanceM, route, snapped, tlIdx, currentSpeed, now)
  }

  /** The distance `calculateSpeedRecommendation` measures from the snapped point to the light. */
  function DistanceToLightM(m: Maths, route: seq<PlannedRoutePoint>, snapped: SnappedTo, tlIdx: int): real
    requires 0 <= snapped.reachedIdx < tlIdx < |route|
  {
    LengthHaversineM(m, RelevantPart(m, RoutePoints(m, route).value, snapped, tlIdx))
  }

  /** The part of `calculateSpeedRecommendation` after the light at `tlIdx` was found. */
  function ToLight(
    m: Maths, sources: DataSources, notificationDistanceM: real,
    route: seq<PlannedRoutePoint>, snapped: SnappedTo, tlIdx: int,
    currentSpeed: Option<real>, now: int): (r: Result<NextTrafficLight, RecommendError>)
    requires 0 <= snapped.reachedIdx < tlIdx < |route|
    // never fails, and reports the light, its distance and the snapped point
    ensures r.Success?
    ensures r.value.trafficLightId == route[tlIdx].trafficLightId && r.value.snappedTo == snapped
    ensures r.value.distanceM == Some(DistanceToLightM(m, route, snapped, tlIdx))
  {
    var distanceM := DistanceToLightM(m, route, snapped, tlIdx);
    var trafficLight := route[tlIdx];
    if distanceM > notificationDistanceM then
      Success(NextTrafficLight(trafficLight.trafficLightId, Some(distanceM), snapped, None, None, None))
    else
      var observations := sources.observations(trafficLight.datastreamId);
      var predictions := sources.prediction(trafficLight.trafficLightId, observations);
      var tldWithPredictions := SortByTime(observations + predictions, true);
      var necessarySpeed := CalcNecessarySpeed(distanceM, now, tldWithPredictions);
      // a necessary speed always comes with a red or green phase, so the
      // recommendation does not throw
      RecommendationForNecessarySpeed(currentSpeed, distanceM, now, tldWithPredictions);
      var recommendation := RecommendationFor(currentSpeed, necessarySpeed).value;
      Success(NextTrafficLight(
        trafficLight.trafficLightId, Some(distanceM), snapped, Some(tldWithPredictions),
        match necessarySpeed case Some(rd) => Some(rd.necessarySpeed) case None => None,
        recommendation))
  }

  /** The distance to the light is the great-circle distance from the snapped
      point to the next waypoint plus the route length from there to the light. */
  lemma DistanceToLightDecomposes(m: Maths, route: seq<PlannedRoutePoint>, snapped: SnappedTo, tlIdx: int)
    requires 0 <= snapped.reachedIdx < tlIdx < |route|
    ensures var uncached := ToPoints(m, route);
            DistanceToLightM(m, route, snapped, tlIdx)
            == HaversineM(m, OfLatLon(m, snapped.lat, snapped.lon, None), uncached[snapped.reachedIdx + 1])
               + LengthHaversineM(m, uncached[snapped.reachedIdx + 1..tlIdx + 1])
  {
    var points := RoutePoints(m, route).value;
    var uncached := ToPoints(m, route);
    var s := OfLatLon(m, snapped.lat, snapped.lon, None);
    var next := snapped.reachedIdx + 1;
    CachedStretchLength(m, route, next, tlIdx + 1);
    assert HaversineM(m, s, points[next]) == HaversineM(m, s, uncached[next]) by {
      assert Lat(m, points[next]) == Lat(m, uncached[next]) && Lon(points[next]) == Lon(uncached[next]);
    }
    FrontDecomposes(m, RelevantPart(m, points, snapped, tlIdx), s, uncached[next..tlIdx + 1]);
  }

  /** A stretch that starts at an uncached point `s` measures the great-circle
      step from `s` plus the rest, whose length and first step any equally
      long stretch `other` shares. */
  lemma FrontDecomposes(m: Maths, part: seq<Point>, s: Point, other: seq<Point>)
    requires |part| >= 2 && part[0] == s && s.distanceToNext.None?
    requires LengthHaversineM(m, part[1..]) == LengthHaversineM(m, other)
    requires |other| >= 1 && HaversineM(m, s, part[1]) == HaversineM(m, s, other[0])
    ensures LengthHaversineM(m, part) == HaversineM(m, s, other[0]) + LengthHaversineM(m, other)
  {
    LengthHaversineMFront(m, part);
  }

  /** Past the light-finding step nothing fails; the light's id and distance are
      reported; farther than the notification distance no timeline is given;
      otherwise the timeline is the observations and predictions together, latest
      first, and advice is given exactly when a necessary speed exists and the
      cyclist is moving. */
  lemma ToLightResult(
    m: Maths, sources: DataSources, notificationDistanceM: real,
    route: seq<PlannedRoutePoint>, snapped: SnappedTo, tlIdx: int,
    currentSpeed: Option<real>, now: int)
    requires 0 <= snapped.reachedIdx < tlIdx < |route|
    ensures var r := ToLight(m, sources, notificationDistanceM, route, snapped, tlIdx, currentSpeed, now);
            var d := DistanceToLightM(m, route, snapped, tlIdx);
            var light := route[tlIdx];
            var observations := sources.observations(light.datastreamId);
            && r.Success?
            && r.value.trafficLightId == light.trafficLightId
            && r.value.distanceM == Some(d)
            && r.value.snappedTo == snapped
            && (r.value.data.None? <==> d > notificationDistanceM)
            && (d > notificationDistanceM ==> r.value.necessarySpeed.None? && r.value.recommendation.None?)
            && (r.value.data.Some? ==>
                  && multiset(r.value.data.value) == multiset(observations + sources.prediction(light.trafficLightId, observations))
                  && SortedByTime(r.value.data.value, true)
                  && r.value.data.value == SortByTime(observations + sources.prediction(light.trafficLightId, observations), true)
                  && r.value.necessarySpeed == (match CalcNecessarySpeed(d, now, r.value.data.value)
                                                  case Some(rd) => Some(rd.necessarySpeed) case None => None)
                  && r.value.recommendation == RecommendationFor(currentSpeed, CalcNecessarySpeed(d, now, r.value.data.value)).value)
            && (r.value.necessarySpeed.Some? ==> r.value.necessarySpeed.value <= MAX_SPEED_MS)
            && (r.value.recommendation.Some? <==> r.value.necessarySpeed.Some? && currentSpeed.Some? && currentSpeed.value > 0.0)
  {
    var d := DistanceToLightM(m, route, snapped, tlIdx);
    var light := route[tlIdx];
    var observations := sources.observations(light.datastreamId);
    var tld := SortByTime(observations + sources.prediction(light.trafficLightId, observations), true);
    RecommendationForNecessarySpeed(currentSpeed, d, now, tld);
    NecessarySpeedIsEarliest(d, now, tld);
  }

  /** The recommendation fails exactly when snapping fails, with its error;
      without a traffic light ahead of the reached index only `snappedTo` is set,
      otherwise the light is the first one ahead. */
  lemma SpeedRecommendationOutcome(
    m: Maths, sources: DataSources, notificationDistanceM: real,
    route: seq<PlannedRoutePoint>, lat: real, lon: real, reachedIdx: int,
    currentSpeed: Option<real>, now: int)
    ensures var r := CalculateSpeedRecommendation(m, sources, notificationDistanceM, route, lat, lon, reachedIdx, currentSpeed, now);
            var s := Snap(m, route, lat, lon, reachedIdx);
            && (r.Failure? <==> s.Failure?)
            && (r.Failure? ==> r.error == s.error)
            && (r.Success? ==>
                  var next := NextLightIdx(route, s.value.reachedIdx + 1);
                  && (next.None? <==> r.value.trafficLightId.None?)
                  && (next.None? ==> r.value == NextTrafficLight(None, None, s.value, None, None, None))
                  && (next.Some? ==> r == ToLight(m, sources, notificationDistanceM, route, s.value, next.value, currentSpeed, now)))
  {
    var s := Snap(m, route, lat, lon, reachedIdx);
    var r := CalculateSpeedRecommendation(m, sources, notificationDistanceM, route, lat, lon, reachedIdx, currentSpeed, now);
    if s.Success? {
      match NextLightIdx(route, s.value.reachedIdx + 1)
      case None =>
        assert r == Success(NextTrafficLight(None, None, s.value, None, None, None));
      case Some(tlIdx) =>
        assert r == ToLight(m, sources, notificationDistanceM, route, s.value, tlIdx, currentSpeed, now);
    }
  }
}
