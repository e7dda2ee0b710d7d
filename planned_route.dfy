/** `PlannedRoutePoint` (PlannedRoutePoint.java): a stored route point; the
    points that stand for a traffic light carry its id and data-stream id. */
module PlannedRoute {
  import opened Wrappers
  import opened Geometry

  /** The persisted entity without its database id and back-reference: two
      points read from a GPX file are equal exactly when these fields are. */
  datatype PlannedRoutePoint = PlannedRoutePoint(
    lat: real,
    lon: real,
    trafficLightId: Option<string>,
    datastreamId: Option<string>)

  /** `new PlannedRoutePoint(lat, lon)`: a plain track point. */
  function Plain(lat: real, lon: real): (p: PlannedRoutePoint)
    ensures p.lat == lat && p.lon == lon
    ensures p.trafficLightId.None? && p.datastreamId.None?
  {
    PlannedRoutePoint(lat, lon, None, None)
  }

  /** `Point.ofLatLon(prp.getLat(), prp.getLon())`: the point to snap with. */
  function ToPoint(m: Maths, prp: PlannedRoutePoint): (p: Point)
    ensures Lat(m, p) == prp.lat && Lon(p) == prp.lon && p.distanceToNext.None?
  {
    OfLatLon(m, prp.lat, prp.lon, None)
  }

  /** The points of a route, one for each route point and in the same order. */
  function ToPoints(m: Maths, route: seq<PlannedRoutePoint>): (ps: seq<Point>)
    ensures |ps| == |route|
    ensures forall i :: 0 <= i < |route| ==> ps[i] == ToPoint(m, route[i])
  {
    seq(|route|, i requires 0 <= i < |route| => ToPoint(m, route[i]))
  }
}
