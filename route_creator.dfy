/** `RouteCreator` (RouteCreator.java): building a planned route from the
    points of a GPX track and the traffic lights along it. */
module RouteCreator {
  import opened Wrappers
  import opened Geometry
  import opened Lists
  import opened RouteSnapper
  import opened PlannedRoute

  /** Where a light goes in the merged route: the index after the segment
      `insert` reaches on the points of the route so far, or its error. */
  function Place(m: Maths, threshold: Option<real>, merged: seq<PlannedRoutePoint>, light: PlannedRoutePoint,
                 previous: Option<int>): (r: Result<int, SnapError>)
    // behind the previous light, and never past the end
    ensures r.Success? ==> 0 <= previous.GetOr(0) < r.value <= |merged| - 1
    ensures r.Failure? ==> InsertOutcome(m, ToPoints(m, merged), ToPoint(m, light), light.trafficLightId, threshold, previous) == Failure(r.error)
  {
    match InsertOutcome(m, ToPoints(m, merged), ToPoint(m, light), light.trafficLightId, threshold, previous)
    case Failure(e) => Failure(e)
    case Success(res) => Success(res.reachedWaypointIdx + 1)
  }

  /** `Place` in terms of what `insert` returns. */
  lemma PlaceOfOutcome(m: Maths, threshold: Option<real>, merged: seq<PlannedRoutePoint>, light: PlannedRoutePoint,
                       previous: Option<int>)
    ensures var outcome := InsertOutcome(m, ToPoints(m, merged), ToPoint(m, light), light.trafficLightId, threshold, previous);
            Place(m, threshold, merged, light, previous)
            == if outcome.Failure? then Failure(outcome.error) else Success(outcome.value.reachedWaypointIdx + 1)
  {
  }

  /** A way of placing lights that puts each one behind the previous light and
      within the route. */
  ghost predicate PlacesWithin(place: (seq<PlannedRoutePoint>, PlannedRoutePoint, Option<int>) -> Result<int, SnapError>)
  {
    forall merged, light, previous :: place(merged, light, previous).Success? ==>
      0 <= previous.GetOr(0) < place(merged, light, previous).value <= |merged|
  }

  /** `Place` for a fixed threshold, as a function of the route so far. */
  function Placement(m: Maths, threshold: Option<real>): (place: (seq<PlannedRoutePoint>, PlannedRoutePoint, Option<int>) -> Result<int, SnapError>)
    ensures PlacesWithin(place)
    ensures forall merged, light, previous :: place(merged, light, previous) == Place(m, threshold, merged, light, previous)
  {
    (merged, light, previous) => Place(m, threshold, merged, light, previous)
  }

  /** The lights inserted one by one into `merged`, each where `place` puts it,
      the search for each starting where the previous one was inserted. The
      first failure ends the merge. */
  function MergeWith(place: (seq<PlannedRoutePoint>, PlannedRoutePoint, Option<int>) -> Result<int, SnapError>,
                     merged: seq<PlannedRoutePoint>, lights: seq<PlannedRoutePoint>, previous: Option<int>)
    : (r: Result<seq<PlannedRoutePoint>, SnapError>)
    requires PlacesWithin(place)
    ensures r.Success? ==> |r.value| == |merged| + |lights|
    decreases |lights|
  {
    if |lights| == 0 then Success(merged)
    else
      match place(merged, lights[0], previous)
      case Failure(e) => Failure(e)
      case Success(idx) => MergeWith(place, Splice(merged, idx, lights[0]), lights[1..], Some(idx))
  }

  /** What `createRouteIntern` computes: the track with the lights merged in. */
  function MergeLights(m: Maths, plainRoute: seq<PlannedRoutePoint>, trafficLights: seq<PlannedRoutePoint>,
                       threshold: Option<real>): (r: Result<seq<PlannedRoutePoint>, SnapError>)
    ensures r.Success? ==> |r.value| == |plainRoute| + |trafficLights|
    // without lights the track is the route
    ensures |trafficLights| == 0 ==> r == Success(plainRoute)
  {
    MergeWith(Placement(m, threshold), plainRoute, trafficLights, None)
  }

  /** One light of the merge, taken from the middle of the list. */
  lemma MergeStep(place: (seq<PlannedRoutePoint>, PlannedRoutePoint, Option<int>) -> Result<int, SnapError>,
                  merged: seq<PlannedRoutePoint>, lights: seq<PlannedRoutePoint>, j: int, previous: Option<int>)
    requires PlacesWithin(place) && 0 <= j < |lights|
    ensures MergeWith(place, merged, lights[j..], previous) ==
              match place(merged, lights[j], previous)
              case Failure(e) => Failure(e)
              case Success(idx) => MergeWith(place, Splice(merged, idx, lights[j]), lights[j + 1..], Some(idx))
  {
    assert lights[j..][0] == lights[j];
    assert lights[j..][1..] == lights[j + 1..];
  }

  /** The merge keeps the track points in order and puts every light behind
      the lights already inserted, so they end up in the order given; `fl`
      marks the lights in the result. */
  lemma {:induction false} MergeKeepsOrder(place: (seq<PlannedRoutePoint>, PlannedRoutePoint, Option<int>) -> Result<int, SnapError>,
                                           merged: seq<PlannedRoutePoint>, flags: seq<bool>,
                                           plain: seq<PlannedRoutePoint>, done: seq<PlannedRoutePoint>,
                                           lights: seq<PlannedRoutePoint>, previous: Option<int>)
    returns (fl: seq<bool>)
    requires PlacesWithin(place)
    requires |flags| == |merged|
    requires Select(merged, flags, false) == plain && Select(merged, flags, true) == done
    requires forall k :: 0 <= k < |flags| && previous.GetOr(-1) < k ==> !flags[k]
    ensures MergeWith(place, merged, lights, previous).Success? ==>
              && |fl| == |MergeWith(place, merged, lights, previous).value|
              && Select(MergeWith(place, merged, lights, previous).value, fl, false) == plain
              && Select(MergeWith(place, merged, lights, previous).value, fl, true) == done + lights
    decreases |lights|
  {
    if |lights| == 0 {
      fl := flags;
      assert done + lights == done;
    } else {
      var light := lights[0];
      var outcome := place(merged, light, previous);
      if outcome.Success? {
        var idx := outcome.value;
        InsertLight(merged, flags, idx, light, plain, done);
        fl := MergeKeepsOrder(place, Splice(merged, idx, light), Splice(flags, idx, true), plain, done + [light],
                              lights[1..], Some(idx));
        assert done + [light] + lights[1..] == done + lights;
      } else {
        fl := flags;
      }
    }
  }

  /** The merged route holds the track points in order and the lights in the
      order given, whatever the geometry. */
  lemma MergedRouteOrder(m: Maths, plainRoute: seq<PlannedRoutePoint>, trafficLights: seq<PlannedRoutePoint>,
                         threshold: Option<real>)
    ensures var r := MergeLights(m, plainRoute, trafficLights, threshold);
            r.Success? ==> exists fl :: && |fl| == |r.value|
                                        && Select(r.value, fl, false) == plainRoute
                                        && Select(r.value, fl, true) == trafficLights
  {
    MergeWithOrder(Placement(m, threshold), plainRoute, trafficLights);
  }

  /** `MergedRouteOrder` for any placement that keeps within the route. */
  lemma MergeWithOrder(place: (seq<PlannedRoutePoint>, PlannedRoutePoint, Option<int>) -> Result<int, SnapError>,
                       plainRoute: seq<PlannedRoutePoint>, trafficLights: seq<PlannedRoutePoint>)
    requires PlacesWithin(place)
    ensures var r := MergeWith(place, plainRoute, trafficLights, None);
            r.Success? ==> exists fl :: && |fl| == |r.value|
                                        && Select(r.value, fl, false) == plainRoute
                                        && Select(r.value, fl, true) == trafficLights
  {
    var flags := seq(|plainRoute|, _ => false);
    NoneSelected(plainRoute, flags, true);
    AllSelected(plainRoute, flags, false);
    var fl := MergeKeepsOrder(place, plainRoute, flags, plainRoute, [], trafficLights, None);
    assert [] + trafficLights == trafficLights;
    var r := MergeWith(place, plainRoute, trafficLights, None);
    if r.Success? {
      assert |fl| == |r.value| && Select(r.value, fl, false) == plainRoute && Select(r.value, fl, true) == trafficLights;
    }
  }

  /** A light goes right after the segment the search from the previous
      light reaches, and only when it lies within the threshold. Inserting it
      fails only when the route so far has no segment to search (which can
      only be the case for the first light), or when the light lies farther
      from the route than the threshold. */
  lemma PlaceCases(m: Maths, threshold: Option<real>, merged: seq<PlannedRoutePoint>, light: PlannedRoutePoint,
                     previous: Option<int>)
    requires previous.Some? ==> 0 <= previous.value <= |merged| - 2
    ensures var r := Place(m, threshold, merged, light, previous);
            r.Failure? ==>
              || (r.error == NoSegment && |merged| < 2 && previous.None?)
              || (&& r.error.OutOfTolerance?
                  && threshold == Some(r.error.threshold) && r.error.threshold < r.error.distance
                  && r.error.location == ToPoint(m, light))
    // without a threshold every light is placed once there is a segment
    ensures threshold.None? && |merged| >= 2 ==> Place(m, threshold, merged, light, previous).Success?
    ensures var r := Place(m, threshold, merged, light, previous);
            var reached := ReachedWaypointFrom(m, ToPoints(m, merged), ToPoint(m, light), previous.GetOr(0));
            r.Success? ==>
              && reached.Success? && r.value == reached.value.reachedWaypointIdx + 1
              && (threshold.Some? ==> reached.value.nearest.distance <= threshold.value)
  {
    var route := ToPoints(m, merged);
    var reached := ReachedWaypointFrom(m, route, ToPoint(m, light), previous.GetOr(0));
    if reached.Success? {
      InsertThreshold(m, route, ToPoint(m, light), light.trafficLightId, threshold, previous);
    }
  }

  /** The merge fails only for a track without a segment or for a light
      farther from the route than the threshold; without a threshold a track
      with a segment always takes every light. */
  lemma {:induction false} MergeFailure(m: Maths, threshold: Option<real>, merged: seq<PlannedRoutePoint>,
                                        lights: seq<PlannedRoutePoint>, previous: Option<int>)
    requires previous.Some? ==> 0 <= previous.value <= |merged| - 2
    ensures var r := MergeWith(Placement(m, threshold), merged, lights, previous);
            r.Failure? ==>
              || (r.error == NoSegment && |merged| < 2 && previous.None?)
              || (&& r.error.OutOfTolerance?
                  && threshold == Some(r.error.threshold) && r.error.threshold < r.error.distance
                  && exists k :: 0 <= k < |lights| && r.error.location == ToPoint(m, lights[k]))
    ensures threshold.None? && |merged| >= 2 ==> MergeWith(Placement(m, threshold), merged, lights, previous).Success?
    decreases |lights|
  {
    if |lights| > 0 {
      var place := Placement(m, threshold);
      PlaceCases(m, threshold, merged, lights[0], previous);
      var placed := place(merged, lights[0], previous);
      if placed.Success? {
        var idx := placed.value;
        MergeFailure(m, threshold, Splice(merged, idx, lights[0]), lights[1..], Some(idx));
        var r := MergeWith(place, merged, lights, previous);
        assert r == MergeWith(place, Splice(merged, idx, lights[0]), lights[1..], Some(idx));
        if r.Failure? && r.error.OutOfTolerance? {
          var k :| 0 <= k < |lights[1..]| && r.error.location == ToPoint(m, lights[1..][k]);
          assert lights[1..][k] == lights[k + 1];
        }
      }
    }
  }

  /** The merge of all lights into the track fails only for a track without a
      segment or for a light farther from the route than the threshold. */
  lemma MergeLightsFailure(m: Maths, plainRoute: seq<PlannedRoutePoint>, trafficLights: seq<PlannedRoutePoint>,
                           threshold: Option<real>)
    ensures var r := MergeLights(m, plainRoute, trafficLights, threshold);
            r.Failure? ==>
              || (r.error == NoSegment && |plainRoute| < 2)
              || (&& r.error.OutOfTolerance?
                  && threshold == Some(r.error.threshold) && r.error.threshold < r.error.distance
                  && exists k :: 0 <= k < |trafficLights| && r.error.location == ToPoint(m, trafficLights[k]))
    ensures threshold.None? && |plainRoute| >= 2 ==> MergeLights(m, plainRoute, trafficLights, threshold).Success?
  {
    MergeFailure(m, threshold, plainRoute, trafficLights, None);
  }

  /** `createRouteIntern`: inserts the lights one by one, each into the snapping
      route (by `insert`) and into the merged route at the same index, the
      search for each starting where the previous one was inserted. What it
      returns is `MergeLights`; `MergedRouteOrder` and `MergeLightsFailure`
      state what that is. */
  method CreateRouteIntern(m: Maths, plainRoute: seq<PlannedRoutePoint>, trafficLights: seq<PlannedRoutePoint>,
                           distanceFromRouteThreshold: Option<real>)
    returns (r: Result<seq<PlannedRoutePoint>, SnapError>)
    ensures r == MergeLights(m, plainRoute, trafficLights, distanceFromRouteThreshold)
  {
    var routePoints := new MutableList<Point>(ToPoints(m, plainRoute));
    var mergedRoute := new MutableList<PlannedRoutePoint>(plainRoute);
    var previouslyReachedWaypoint: Option<int> := None;
    ghost var place := Placement(m, distanceFromRouteThreshold);
    ghost var spec := MergeLights(m, plainRoute, trafficLights, distanceFromRouteThreshold);
    r := Success(plainRoute);

    var j := 0;
    while j < |trafficLights|
      invariant 0 <= j <= |trafficLights|
      invariant routePoints.elems == ToPoints(m, mergedRoute.elems)
      invariant spec == MergeWith(place, mergedRoute.elems, trafficLights[j..], previouslyReachedWaypoint)
      invariant previouslyReachedWaypoint.GetOr(0) >= 0
    {
      var trafficLight := trafficLights[j];
      ghost var before := mergedRoute.elems;
      MergeStep(place, before, trafficLights, j, previouslyReachedWaypoint);
      var result := AddTrafficLight(m, routePoints, mergedRoute, trafficLight, distanceFromRouteThreshold, previouslyReachedWaypoint);
      if result.Failure? {
        r := Failure(result.error);
        break;
      }
      var insertionIdx := result.value.reachedWaypointIdx + 1;
      // keep the read order, even for lights of the same crossing
      previouslyReachedWaypoint := Some(insertionIdx);
      j := j + 1;
    }
    if r.Success? {
      assert trafficLights[j..] == [];
      r := Success(mergedRoute.elems);
    }
  }

  /** One pass of the `createRouteIntern` loop: `insert` the light into the
      snapping route, then add it to the merged route at the same index. */
  method AddTrafficLight(m: Maths, routePoints: MutableList<Point>, mergedRoute: MutableList<PlannedRoutePoint>,
                         trafficLight: PlannedRoutePoint, distanceFromRouteThreshold: Option<real>,
                         previouslyReachedWaypoint: Option<int>)
    returns (result: Result<ReachedWaypointResult, SnapError>)
    requires routePoints.elems == ToPoints(m, mergedRoute.elems)
    modifies routePoints, mergedRoute
    ensures result == InsertOutcome(m, old(routePoints.elems), ToPoint(m, trafficLight), trafficLight.trafficLightId,
                                    distanceFromRouteThreshold, previouslyReachedWaypoint)
    // where the merge puts the light
    ensures Place(m, distanceFromRouteThreshold, old(mergedRoute.elems), trafficLight, previouslyReachedWaypoint)
            == if result.Failure? then Failure(result.error) else Success(result.value.reachedWaypointIdx + 1)
    ensures result.Success? ==>
              && mergedRoute.elems == Splice(old(mergedRoute.elems), result.value.reachedWaypointIdx + 1, trafficLight)
              && routePoints.elems == ToPoints(m, mergedRoute.elems)
    // a light that cannot be placed leaves both routes as they were
    ensures result.Failure? ==> routePoints.elems == old(routePoints.elems) && mergedRoute.elems == old(mergedRoute.elems)
  {
    PlaceOfOutcome(m, distanceFromRouteThreshold, mergedRoute.elems, trafficLight, previouslyReachedWaypoint);
    var params := RouteSnappingParameter(routePoints, ToPoint(m, trafficLight), trafficLight.trafficLightId,
                                         distanceFromRouteThreshold, previouslyReachedWaypoint);
    result := Insert(m, params);
    if result.Success? {
      var insertionIdx := result.value.reachedWaypointIdx + 1;
      SplicePoints(m, mergedRoute.elems, insertionIdx, trafficLight);
      mergedRoute.Add(insertionIdx, trafficLight);
    }
  }

  /** Inserting a light behind every light so far keeps the track points and
      appends the light to the lights. */
  lemma InsertLight(merged: seq<PlannedRoutePoint>, isLight: seq<bool>, idx: nat, light: PlannedRoutePoint,
                    plain: seq<PlannedRoutePoint>, lights: seq<PlannedRoutePoint>)
    requires |isLight| == |merged| && idx <= |merged|
    requires forall k :: idx <= k < |isLight| ==> !isLight[k]
    requires Select(merged, isLight, false) == plain && Select(merged, isLight, true) == lights
    ensures Select(Splice(merged, idx, light), Splice(isLight, idx, true), false) == plain
    ensures Select(Splice(merged, idx, light), Splice(isLight, idx, true), true) == lights + [light]
  {
    SelectSpliceOther(merged, isLight, idx, light, true);
    SelectSpliceLast(merged, isLight, idx, light, true);
  }

  /** Mapping to points commutes with inserting. */
  lemma SplicePoints(m: Maths, s: seq<PlannedRoutePoint>, i: nat, x: PlannedRoutePoint)
    requires i <= |s|
    ensures ToPoints(m, Splice(s, i, x)) == Splice(ToPoints(m, s), i, ToPoint(m, x))
  {
  }

  lemma {:induction false} AllSelected<T>(s: seq<T>, flags: seq<bool>, b: bool)
    requires |flags| == |s|
    requires forall k :: 0 <= k < |s| ==> flags[k] == b
    ensures Select(s, flags, b) == s
    decreases |s|
  {
    if |s| > 0 {
      AllSelected(s[1..], flags[1..], b);
    }
  }

  // ---------------------------------------------------------------------------
  // readGpxFile, after parsing
  // ---------------------------------------------------------------------------

  /** The index of the first occurrence of `x` in `s`. */
  function FirstIndex<T(==, !new)>(s: seq<T>, x: T): (i: int)
    requires x in s
    ensures 0 <= i < |s| && s[i] == x
    ensures forall k :: 0 <= k < i ==> s[k] != x
    decreases |s|
  {
    if s[0] == x then 0 else 1 + FirstIndex(s[1..], x)
  }

  /** `stream().distinct()`: the first occurrence of every element, in order. */
  function Distinct<T(==, !new)>(s: seq<T>): (r: seq<T>)
    ensures forall x :: x in r <==> x in s
    ensures forall i, j :: 0 <= i < j < |r| ==> r[i] != r[j]
    decreases |s|
  {
    if |s| == 0 then []
    else
      var d := Distinct(s[..|s| - 1]);
      assert forall x :: x in s <==> x in s[..|s| - 1] || x == s[|s| - 1] by {
        assert s == s[..|s| - 1] + [s[|s| - 1]];
      }
      if s[|s| - 1] in d then d else d + [s[|s| - 1]]
  }

  /** `distinct()` keeps the order of first occurrences. */
  lemma {:induction false} DistinctKeepsOrder<T(!new)>(s: seq<T>)
    ensures forall i, j :: 0 <= i < j < |Distinct(s)| ==> FirstIndex(s, Distinct(s)[i]) < FirstIndex(s, Distinct(s)[j])
    decreases |s|
  {
    if |s| > 0 {
      var p := s[..|s| - 1];
      var d := Distinct(p);
      DistinctKeepsOrder(p);
      var r := Distinct(s);
      var last := s[|s| - 1];
      assert s == p + [last];
      forall x | x in p
        ensures FirstIndex(s, x) == FirstIndex(p, x)
      {
        FirstIndexOfPrefix(s, |s| - 1, x);
      }
      forall i, j | 0 <= i < j < |r|
        ensures FirstIndex(s, r[i]) < FirstIndex(s, r[j])
      {
        assert r[i] == d[i] && d[i] in d;
        assert FirstIndex(s, r[i]) == FirstIndex(p, d[i]);
        if j < |d| {
          assert r[j] == d[j] && d[j] in d;
          assert FirstIndex(s, r[j]) == FirstIndex(p, d[j]);
          assert FirstIndex(p, d[i]) < FirstIndex(p, d[j]);
        } else {
          assert r[j] == last && last !in p;
        }
      }
    }
  }

  lemma {:induction false} FirstIndexOfPrefix<T(!new)>(s: seq<T>, n: int, x: T)
    requires 0 <= n <= |s| && x in s[..n]
    ensures FirstIndex(s, x) == FirstIndex(s[..n], x)
    decreases n
  {
    if s[0] != x {
      assert s[..n][1..] == s[1..][..n - 1];
      FirstIndexOfPrefix(s[1..], n - 1, x);
    }
  }

  /** Why a GPX document is rejected (`IllegalArgumentException` in both cases). */
  datatype GpxError = MoreThanOneTrack | NoTrackPoints

  /** The checks and the dedupe of `readGpxFile`, given the number of `trk`
      elements and the (lat, lon) attributes of the `trkpt` elements. */
  function ReadGpx(trkCount: nat, trkpts: seq<(real, real)>): (r: Result<seq<PlannedRoutePoint>, GpxError>)
    ensures trkCount > 1 ==> r == Failure(MoreThanOneTrack)
    ensures trkCount <= 1 && |trkpts| == 0 ==> r == Failure(NoTrackPoints)
    ensures r.Success? <==> trkCount <= 1 && |trkpts| > 0
    ensures r.Success? ==> |r.value| > 0
    ensures r.Success? ==> forall i, j :: 0 <= i < j < |r.value| ==> r.value[i] != r.value[j]
    ensures r.Success? ==> forall k :: 0 <= k < |trkpts| ==> Plain(trkpts[k].0, trkpts[k].1) in r.value
    ensures r.Success? ==> forall p :: p in r.value ==> p.trafficLightId.None? && exists k :: 0 <= k < |trkpts| && p == Plain(trkpts[k].0, trkpts[k].1)
    // in the order of first occurrence in the file
    ensures r.Success? ==> r.value == Distinct(seq(|trkpts|, i requires 0 <= i < |trkpts| => Plain(trkpts[i].0, trkpts[i].1)))
  {
    if trkCount > 1 then Failure(MoreThanOneTrack)
    else if |trkpts| == 0 then Failure(NoTrackPoints)
    else
      var points := seq(|trkpts|, i requires 0 <= i < |trkpts| => Plain(trkpts[i].0, trkpts[i].1));
      assert points[0] in points;
      assert forall k :: 0 <= k < |trkpts| ==> Plain(trkpts[k].0, trkpts[k].1) in Distinct(points) by {
        forall k | 0 <= k < |trkpts|
          ensures Plain(trkpts[k].0, trkpts[k].1) in Distinct(points)
        {
          assert points[k] in points;
        }
      }
      Success(Distinct(points))
  }
}
