# Route snapping and speed advice for cyclists, in Dafny

This project models the core of a green-light speed advisory ("GLOSA") back end for cyclists, and of its small traffic-light data proxy.

- **RouteSnapper** snaps a location onto a planned route: a polyline of points in Web-Mercator coordinates. It inserts a location into the route behind the reached waypoint, and measures route lengths. A point may cache the length of the segment that starts at it.
- **SpeedRecommender** snaps the cyclist, finds the next traffic light ahead on the route, and measures the distance to it along the route. It then merges the light's observed and predicted signal phases into one timeline, latest first. From that it derives the speed needed to reach the next red or green phase, and the advice slower / keep / quicker.
- **RouteCreator** merges the track points of a GPX file with the route's traffic lights. It inserts each light behind the previous one, into the snapping route and into the stored route at the same index. It also checks and deduplicates the points read from the GPX file.
- **tld_api_proxy** caches the newest `nvalues` observations of each data stream, newest first. It replaces a cache that is too small for a request and evicts caches.

The model follows the source file by file:

| file | module | form |
|---|---|---|
| `geometry.dfy` | `Geometry` | points, segments, the point-to-segment distance |
| `route_snapper.dfy` | `RouteSnapper` | the scan as a function and as the Java loop |
| `lists.dfy` | `Lists` | `ArrayList.add(index, element)` as a class |
| `planned_route.dfy` | `PlannedRoute` | the stored route point |
| `speed_recommender.dfy` | `SpeedRecommender` | the recommendation pipeline and `RouteLoader` |
| `route_creator.dfy` | `RouteCreator` | the insertion loop and the GPX checks |
| `tld_api_proxy.dfy` | `TldApiProxy` | the observer and the observer map as classes |
| `wrappers.dfy` | `Wrappers` | `Option` and `Result` |

An exception thrown by the Java or JavaScript code becomes a `Failure`. The error datatypes `SnapError`, `RecommendError` and `GpxError` name the exception each failure stands for.

Each loop of the source is a method proved against a specification function: `CalcReachedWaypointIdx` against `ReachedWaypoint`, `LoadRoutePoints` against `RoutePoints`, `CreateRouteIntern` against `MergeLights`, and `DatastreamObserver.OnNewData` against `AfterNewData`. The properties the source promises are proved about those functions.

Distances compared while scanning are squared planar distances. The thresholds 25 and 50 therefore appear as 625 and 2500, which gives the same comparisons because the square root is monotone.

## Model

Paths are relative to the repository root; `RouteSnapper.java`, `SpeedRecommender.java` and `RouteCreator.java` live under `be/src/main/java/com/example/glosa/`.

| member | source | states |
|---|---|---|
| Geometry.LonToMercatorX | be/src/main/java/com/example/glosa/calculation/RouteSnapper.java:229-231 | the projected x has the sign of the longitude, and 180° maps to the edge of the Mercator square |
| Geometry.XToLon | be/src/main/java/com/example/glosa/calculation/RouteSnapper.java:239-241 | projecting the recovered longitude gives x back |
| Geometry.LonRoundTrip | be/src/main/java/com/example/glosa/calculation/RouteSnapper.java:229-241 | xToLon(lonToMercatorX(lon)) == lon |
| Geometry.LonToMercatorXMonotone | be/src/main/java/com/example/glosa/calculation/RouteSnapper.java:229-231 | the projection keeps east-west order strictly |
| Geometry.OfLatLon | be/src/main/java/com/example/glosa/calculation/RouteSnapper.java:55-61 | the point holds the projected coordinates; its lat/lon getters return exactly the given lat/lon, which agree with the inverse projection of x; the cached distance is the given one |
| Geometry.OfMercator | be/src/main/java/com/example/glosa/calculation/RouteSnapper.java:63-65 | a point with the given coordinates, no cached distance, and a longitude recovered from x |
| Geometry.OfMercatorCached | be/src/main/java/com/example/glosa/calculation/RouteSnapper.java:67-69 | a point with the given coordinates that caches the given distance to the next point |
| Geometry.Lon | be/src/main/java/com/example/glosa/calculation/RouteSnapper.java:71-76 | `getLon()`: the memoised longitude when there is one; otherwise a longitude whose projection is x |
| Geometry.Lat | be/src/main/java/com/example/glosa/calculation/RouteSnapper.java:78-83 | `getLat()`: the memoised latitude when there is one; otherwise the inverse projection of y |
| Geometry.HaversineM | be/src/main/java/com/example/glosa/calculation/RouteSnapper.java:250-252 | points made from latitude and longitude are measured with exactly those, not with the inverse projection |
| Geometry.EuclideanM | be/src/main/java/com/example/glosa/calculation/RouteSnapper.java:156-160 | the root of the squared planar distance, symmetric in its two points, and the root of 0 for points at the same place |
| Geometry.Dist2 | be/src/main/java/com/example/glosa/calculation/RouteSnapper.java:156-160 | the squared planar distance is never negative |
| Geometry.ClosestParam | be/src/main/java/com/example/glosa/calculation/RouteSnapper.java:219-227 | the nearest point lies on the segment (parameter within [0, 1]) |
| Geometry.CalcDistance | be/src/main/java/com/example/glosa/calculation/RouteSnapper.java:219-227 | the result names the segment, a point on it, and the squared distance from the location to that point |
| Geometry.CalcDistanceIsNearest | be/src/main/java/com/example/glosa/calculation/RouteSnapper.java:219-227 | no point of the segment is closer to the location than the reported point |
| Geometry.ClampedParamMinimises | be/src/main/java/com/example/glosa/calculation/RouteSnapper.java:219-227 | the clamped orthogonal projection minimises the squared distance over the whole segment, degenerate segments included |
| RouteSnapper.EarliestNearest | be/src/main/java/com/example/glosa/calculation/RouteSnapper.java:195-207 | the best segment after scanning k segments is a closest one among them and the earliest such, because a later one replaces it only when strictly closer |
| RouteSnapper.ScanEnd | be/src/main/java/com/example/glosa/calculation/RouteSnapper.java:197-207 | the scan runs until the first segment that is not closer, with the best closer than 25 and itself farther than 50, or to the end of the route |
| RouteSnapper.ReachedWaypoint | be/src/main/java/com/example/glosa/calculation/RouteSnapper.java:192-217 | fails (the `requireNonNull`) exactly when the route has fewer than two points; otherwise the reached index is a segment of the route, the result names that segment, and the distance reported is the great-circle distance from the location to the point found |
| RouteSnapper.ReachedWaypointIsNearestScanned | be/src/main/java/com/example/glosa/calculation/RouteSnapper.java:197-208 | the reported segment is a closest one among all scanned segments, the stopping one included, and no earlier segment is as close |
| RouteSnapper.ReachedWaypointPointIsClosest | be/src/main/java/com/example/glosa/calculation/RouteSnapper.java:209-216 | the reported point is the point of the reached segment closest to the location |
| RouteSnapper.CalcReachedWaypointIdx | be/src/main/java/com/example/glosa/calculation/RouteSnapper.java:192-217 | the loop with its early `break` computes exactly `ReachedWaypoint` |
| RouteSnapper.ScanEndIsFirstStop | be/src/main/java/com/example/glosa/calculation/RouteSnapper.java:203-206 | a segment at which nothing before stops and which itself stops (or is the last) is where the scan ends |
| RouteSnapper.ScanIgnoresRest | be/src/main/java/com/example/glosa/calculation/RouteSnapper.java:204-205 | after an early stop, the points beyond the stopping segment do not affect the result |
| RouteSnapper.ScanEndAgrees | be/src/main/java/com/example/glosa/calculation/RouteSnapper.java:197-207 | routes that agree up to the stopping segment stop at the same place |
| RouteSnapper.StopsAtAgree | be/src/main/java/com/example/glosa/calculation/RouteSnapper.java:204-205 | whether the scan stops at a segment depends only on the segments up to it |
| RouteSnapper.EarliestNearestAgree | be/src/main/java/com/example/glosa/calculation/RouteSnapper.java:197-203 | the best segment so far depends only on the segments scanned |
| RouteSnapper.ReachedWaypointFrom | be/src/main/java/com/example/glosa/calculation/RouteSnapper.java:184-190 | `subList` fails with `IndexOutOfBoundsException` exactly for a negative start and with `IllegalArgumentException` exactly for a start beyond the size; otherwise the search succeeds exactly when a segment starts at or after the start, the reached index is then shifted back into the whole route, and the distance is the great-circle one |
| RouteSnapper.ReachedWaypointFromZero | be/src/main/java/com/example/glosa/calculation/RouteSnapper.java:184-192 | searching from 0 is the plain search |
| RouteSnapper.CalcReachedWaypointIdxFrom | be/src/main/java/com/example/glosa/calculation/RouteSnapper.java:184-190 | computes exactly `ReachedWaypointFrom` |
| RouteSnapper.InsertOutcome | be/src/main/java/com/example/glosa/calculation/RouteSnapper.java:162-181 | the reached index is at or after the previously reached one; a failure is the search's own or a rejection in which the location, context and threshold are reported and the distance strictly exceeds the threshold |
| RouteSnapper.InsertThreshold | be/src/main/java/com/example/glosa/calculation/RouteSnapper.java:173-178 | a snapped location is rejected exactly when a threshold is given and strictly exceeded |
| RouteSnapper.Insert | be/src/main/java/com/example/glosa/calculation/RouteSnapper.java:162-182 | returns `InsertOutcome` of the old route; on success the location is added right after the reached waypoint, and on failure the route is unchanged |
| RouteSnapper.Length | be/src/main/java/com/example/glosa/calculation/RouteSnapper.java:146-154 | a route with fewer than two points has length 0 |
| RouteSnapper.HaversineMetric | be/src/main/java/com/example/glosa/calculation/RouteSnapper.java:142-143 | the metric of `getLengthHaversineM` is the great-circle distance between the points' lat/lon |
| RouteSnapper.MercatorMetric | be/src/main/java/com/example/glosa/calculation/RouteSnapper.java:138-139 | the metric of `getLengthMercatorM` is the planar distance |
| RouteSnapper.LengthSplit | be/src/main/java/com/example/glosa/calculation/RouteSnapper.java:146-154 | the lengths of two parts of a route sharing one point add up to the length of the route |
| RouteSnapper.LengthIsSumOfSteps | be/src/main/java/com/example/glosa/calculation/RouteSnapper.java:146-154 | the length is the length without the last point plus the last step |
| RouteSnapper.CachedLengthIgnoresMetric | be/src/main/java/com/example/glosa/calculation/RouteSnapper.java:150-151 | when every point caches its distance to the next, the metric is never used |
| RouteSnapper.CachedStepPreferred | be/src/main/java/com/example/glosa/calculation/RouteSnapper.java:150-151 | at any position, a step whose start caches a distance contributes exactly that distance, whatever the metric, and the rest of the route is measured as before |
| RouteSnapper.LengthMercatorM | be/src/main/java/com/example/glosa/calculation/RouteSnapper.java:138-140 | `getLengthMercatorM`: 0 for fewer than two points; otherwise the length without the last point plus the last planar (or cached) step |
| RouteSnapper.LengthHaversineM | be/src/main/java/com/example/glosa/calculation/RouteSnapper.java:142-144 | `getLengthHaversineM`: 0 for fewer than two points; otherwise the length without the last point plus the last great-circle (or cached) step |
| RouteSnapper.CachedLengthsAgree | be/src/main/java/com/example/glosa/calculation/RouteSnapper.java:138-151 | a route whose every step is cached has the same length in metres and in projection units |
| Lists.Splice | be/src/main/java/com/example/glosa/calculation/RouteSnapper.java:180 | positional insertion: the element lands at the index, the elements before it stay, and the ones after shift by one |
| Lists.MutableList.Add | be/src/main/java/com/example/glosa/calculation/RouteSnapper.java:180 | `add(index, element)` splices the element into the list |
| PlannedRoute.Plain | be/src/main/java/com/example/glosa/routing/PlannedRoutePoint.java:41-43 | a track point carries its coordinates and neither a light id nor a data-stream id |
| PlannedRoute.ToPoint | be/src/main/java/com/example/glosa/routing/RouteCreator.java:86 | the snapping point has the route point's lat/lon and no cached distance |
| PlannedRoute.ToPoints | be/src/main/java/com/example/glosa/routing/RouteCreator.java:74-75 | maps every route point, in order |
| SpeedRecommender.Values | be/src/main/java/com/example/glosa/calculation/SpeedRecommender.java:220 | the eight states, in declaration order |
| SpeedRecommender.Code | be/src/main/java/com/example/glosa/calculation/SpeedRecommender.java:228-232 | unknown is 9, every other state its ordinal 0..6 |
| SpeedRecommender.FromCode | be/src/main/java/com/example/glosa/calculation/SpeedRecommender.java:222-226 | 9 is unknown; any other code indexes `values()`, so only codes below 0, 8 and above 9 fail, and 7 also means unknown |
| SpeedRecommender.CodeRoundTrip | be/src/main/java/com/example/glosa/calculation/SpeedRecommender.java:222-232 | every state survives encoding and decoding |
| SpeedRecommender.FromCodeRoundTrip | be/src/main/java/com/example/glosa/calculation/SpeedRecommender.java:222-232 | every code the data stream uses decodes to the state that encodes to it |
| SpeedRecommender.SecondsBetween | be/src/main/java/com/example/glosa/calculation/SpeedRecommender.java:99 | whole seconds, truncated toward zero: positive exactly when at least one second lies ahead |
| SpeedRecommender.InsertByTime | be/src/main/java/com/example/glosa/calculation/SpeedRecommender.java:69-73 | inserting into a list sorted by time keeps it sorted and adds exactly the element |
| SpeedRecommender.SortByTime | be/src/main/java/com/example/glosa/calculation/SpeedRecommender.java:69-73 | `sorted(byTime)` / `sorted(byTime.reversed())`: a permutation of its input, sorted ascending or descending |
| SpeedRecommender.Candidate | be/src/main/java/com/example/glosa/calculation/SpeedRecommender.java:94-110 | an entry gives a candidate exactly when it is red or green, at least one whole second ahead, and reachable at no more than 28 km/h; the candidate is then the distance divided by those whole seconds, with the entry's state |
| SpeedRecommender.CalcNecessarySpeed | be/src/main/java/com/example/glosa/calculation/SpeedRecommender.java:87-112 | a necessary speed is the candidate of some entry of the timeline: a red or green phase, at most 28 km/h |
| SpeedRecommender.FirstCandidate | be/src/main/java/com/example/glosa/calculation/SpeedRecommender.java:111 | `findFirst` after the filter: the first entry that has a candidate, or none when no entry has one |
| SpeedRecommender.NecessarySpeedIsEarliest | be/src/main/java/com/example/glosa/calculation/SpeedRecommender.java:87-112 | there is no necessary speed exactly when no entry qualifies; otherwise it is a red or green phase at most 28 km/h, from a qualifying entry that begins no later than any other qualifying entry |
| SpeedRecommender.SameMembers | be/src/main/java/com/example/glosa/calculation/SpeedRecommender.java:93 | sorting loses and invents no entry |
| SpeedRecommender.EarliestCandidate | be/src/main/java/com/example/glosa/calculation/SpeedRecommender.java:93-111 | in the ascending timeline the first qualifying entry begins no later than any qualifying entry |
| SpeedRecommender.GetRecommendation | be/src/main/java/com/example/glosa/calculation/SpeedRecommender.java:121-148 | throws `IllegalStateException` exactly when the next phase is neither green nor red |
| SpeedRecommender.GreenRecommendation | be/src/main/java/com/example/glosa/calculation/SpeedRecommender.java:128-137 | before green: slower iff at least as fast as necessary, keep iff less than 1 m/s short, quicker iff at least 1 m/s short |
| SpeedRecommender.RedRecommendation | be/src/main/java/com/example/glosa/calculation/SpeedRecommender.java:138-144 | before red: keep iff at least 1 m/s faster than necessary, quicker otherwise |
| SpeedRecommender.RecommendationMonotone | be/src/main/java/com/example/glosa/calculation/SpeedRecommender.java:121-148 | riding faster never makes the advice more urgent |
| SpeedRecommender.RecommendationFor | be/src/main/java/com/example/glosa/calculation/SpeedRecommender.java:76-79 | advice is computed only with a necessary speed and a positive current speed, and always then |
| SpeedRecommender.RecommendationForNecessarySpeed | be/src/main/java/com/example/glosa/calculation/SpeedRecommender.java:75-79 | the advice never throws, and it is given exactly when a necessary speed exists and the current speed is positive |
| SpeedRecommender.LoadedPoint | be/src/main/java/com/example/glosa/calculation/SpeedRecommender.java:171-176 | each loaded point has its route point's lat/lon and caches a distance exactly when it is not the last point |
| SpeedRecommender.RoutePoints | be/src/main/java/com/example/glosa/calculation/SpeedRecommender.java:167-179 | fails exactly for an empty route (`subList(1, 0)`), else one point per route point |
| SpeedRecommender.LoadRoutePoints | be/src/main/java/com/example/glosa/calculation/SpeedRecommender.java:167-179 | the in-place loop over the mapped array computes exactly `RoutePoints` |
| SpeedRecommender.CachedStretchLength | be/src/main/java/com/example/glosa/calculation/SpeedRecommender.java:173-176 | every stretch of the loaded route has the same great-circle length as the same stretch of uncached points |
| SpeedRecommender.Snap | be/src/main/java/com/example/glosa/calculation/SpeedRecommender.java:150-159 | the search starts five waypoints back, not below 0; it succeeds exactly when a segment starts there or later; the snapped point and index are those of `calcReachedWaypointIdx` on the loaded route from that start, and a failure on a non-empty route is that search's failure |
| SpeedRecommender.NextLightIdx | be/src/main/java/com/example/glosa/calculation/SpeedRecommender.java:46-48 | the first traffic-light point at or after the index, or none when no point from there on is a light |
| SpeedRecommender.RelevantPart | be/src/main/java/com/example/glosa/calculation/SpeedRecommender.java:55-56 | the snapped point, followed by the route points after the reached one up to and including the light |
| SpeedRecommender.ToLight | be/src/main/java/com/example/glosa/calculation/SpeedRecommender.java:54-82 | once a light is found nothing fails, and the light's id, the snapped point and the distance along the route to the light are reported |
| SpeedRecommender.CalculateSpeedRecommendation | be/src/main/java/com/example/glosa/calculation/SpeedRecommender.java:39-83 | fails exactly when snapping fails, and otherwise reports the snapped point |
| SpeedRecommender.DistanceToLightDecomposes | be/src/main/java/com/example/glosa/calculation/SpeedRecommender.java:54-57 | the distance to the light is the great-circle distance from the snapped point to the next waypoint plus the route length from there to the light |
| SpeedRecommender.ToLightResult | be/src/main/java/com/example/glosa/calculation/SpeedRecommender.java:54-82 | once a light is found nothing fails; id, distance and snapped point are reported; farther than the notification distance there is no timeline; the timeline is the observations and predictions, latest first (exactly `SortByTime` of them, descending); the reported necessary speed is the one `CalcNecessarySpeed` finds on that timeline and the advice is `RecommendationFor` of it; speed at most 28 km/h; advice given iff a necessary speed exists and the current speed is positive |
| SpeedRecommender.SpeedRecommendationOutcome | be/src/main/java/com/example/glosa/calculation/SpeedRecommender.java:39-83 | fails exactly when snapping fails, with its error; with no light ahead only the snapped point is set; otherwise the first light ahead is reported |
| RouteCreator.Place | be/src/main/java/com/example/glosa/routing/RouteCreator.java:84-93 | where a light goes: behind the previously inserted light and within the route, right after the segment `insert` reaches; a failure is `insert`'s own |
| RouteCreator.MergeWith | be/src/main/java/com/example/glosa/routing/RouteCreator.java:82-98 | the lights inserted one after another, each searched for from where the previous one went; a successful merge has one point per track point and light |
| RouteCreator.MergeLights | be/src/main/java/com/example/glosa/routing/RouteCreator.java:72-104 | what `createRouteIntern` returns; with no lights it is the plain route |
| RouteCreator.MergeStep | be/src/main/java/com/example/glosa/routing/RouteCreator.java:82-98 | one light of the merge taken from the middle of the list: its placement, then the rest from there |
| RouteCreator.MergeKeepsOrder | be/src/main/java/com/example/glosa/routing/RouteCreator.java:93-97 | inserting each light behind the previous one keeps the track points and appends the lights in order |
| RouteCreator.MergedRouteOrder | be/src/main/java/com/example/glosa/routing/RouteCreator.java:72-104 | the merged route has every track point in order and every light in read order, and nothing else |
| RouteCreator.PlaceCases | be/src/main/java/com/example/glosa/routing/RouteCreator.java:84-93 | a placed light goes right after the segment the search from the previous light reaches, and lies within the threshold; placing fails only for a route without a segment before the first light, or for a light, reported by location, farther than the threshold; without a threshold a route with a segment takes every light |
| RouteCreator.MergeFailure | be/src/main/java/com/example/glosa/routing/RouteCreator.java:82-98 | the merge fails only for a track without a segment or for one of the lights, reported by location, farther than the threshold; without a threshold a track with a segment takes every light |
| RouteCreator.MergeLightsFailure | be/src/main/java/com/example/glosa/routing/RouteCreator.java:72-104 | `createRouteIntern` fails only for a track without a segment or for a light, reported by location, farther than the threshold; without a threshold a track with a segment never fails |
| RouteCreator.CreateRouteIntern | be/src/main/java/com/example/glosa/routing/RouteCreator.java:72-104 | the loop over the lights, inserting each into the snapping route and into the merged route, computes exactly `MergeLights` |
| RouteCreator.AddTrafficLight | be/src/main/java/com/example/glosa/routing/RouteCreator.java:84-94 | one pass of the loop: the result is `insert`'s outcome on the old snapping route, which is where `Place` puts the light; on success both routes receive the light at the index after the reached waypoint; on failure both routes are unchanged |
| RouteCreator.InsertLight | be/src/main/java/com/example/glosa/routing/RouteCreator.java:93-97 | inserting a light behind all lights so far keeps the track points and appends the light to the lights |
| RouteCreator.Distinct | be/src/main/java/com/example/glosa/routing/RouteCreator.java:127 | `distinct()`: the same members, with no duplicates |
| RouteCreator.DistinctKeepsOrder | be/src/main/java/com/example/glosa/routing/RouteCreator.java:127 | `distinct()` keeps the order of first occurrences |
| RouteCreator.ReadGpx | be/src/main/java/com/example/glosa/routing/RouteCreator.java:111-130 | more than one track fails, no track points fails, and otherwise the result is non-empty, duplicate-free, and holds exactly the plain points read, in the order of their first occurrence (what `distinct()` keeps) |
| TldApiProxy.AfterNewData | tld_api_proxy/tld_api_proxy.js:71-75 | after `onNewData(d)`, d is in front; at most `nvalues` remain; the rest are the newest of the old values in order, and all of them while there was room |
| TldApiProxy.Feed | tld_api_proxy/tld_api_proxy.js:71-75 | once anything arrived, the buffer is never empty and never holds more than `nvalues` |
| TldApiProxy.FeedKeepsNewest | tld_api_proxy/tld_api_proxy.js:33-38 | after any stream of observations the buffer holds the newest `nvalues` of everything seen, newest first |
| TldApiProxy.LastInFront | tld_api_proxy/tld_api_proxy.js:71-75 | the last observation to arrive is in front |
| TldApiProxy.Front | tld_api_proxy/tld_api_proxy.js:22 | what `getData` returns is a prefix of the buffer, with JavaScript's `slice` for negative counts |
| TldApiProxy.FrontIsFirst | tld_api_proxy/tld_api_proxy.js:20-22 | for a count n >= 0, `getData` returns the first min(n, length) values |
| TldApiProxy.ReplacesAsWritten | tld_api_proxy/tld_api_proxy.js:15 | `observer.nvalues < nvalues` on two query-string counts: the first characters decide whenever they differ, whatever the lengths |
| TldApiProxy.StringLess | tld_api_proxy/tld_api_proxy.js:15 | `<` on strings: a proper prefix is smaller, and nothing is smaller than itself |
| TldApiProxy.QueryStringComparison | tld_api_proxy/index.js:34 | when both counts come from the query string, "9" < "10" is false, and "10" < "9" is true |
| TldApiProxy.DatastreamObserver.constructor | tld_api_proxy/tld_api_proxy.js:38-45 | a new observer for its data stream and count, with an empty buffer |
| TldApiProxy.DatastreamObserver.OnNewData | tld_api_proxy/tld_api_proxy.js:71-75 | the popping loop followed by `unshift` leaves exactly `AfterNewData` of the old buffer |
| TldApiProxy.DatastreamObserver.GetValues | tld_api_proxy/tld_api_proxy.js:47-61 | only an empty buffer is filled, with the answer of the initial request; the buffer is returned |
| TldApiProxy.ObserverRegistry.constructor | tld_api_proxy/tld_api_proxy.js:29 | the observer map starts empty |
| TldApiProxy.ObserverRegistry.Evict | tld_api_proxy/tld_api_proxy.js:85-90 | the observer's data stream is removed from the map, and nothing else changes |
| TldApiProxy.ObserverRegistry.GetData | tld_api_proxy/tld_api_proxy.js:7-23 | the count defaults to 10; an observer is created when none exists; it is replaced exactly when its count is smaller than requested, and reused otherwise; every observer stays filed under its own data stream, and the observers of other data streams and their buffers are unchanged; the result is the front of the chosen observer's buffer |

## Left out

- `java.lang.Math` (square root, logarithm, tangent, arctangent, exponential, and the trigonometry of the haversine formula) is not modelled. The `Maths` parameter supplies these functions, and no property of them is assumed. The latitude projection and the great-circle distance are therefore opaque.
- The JTS `DistanceOp` is not part of this model. Its result for a segment and a point is the clamped orthogonal projection, exact over the reals.
- `double` arithmetic is modelled as exact real arithmetic: rounding and overflow of IEEE 754 are not modelled.
- `Double.MAX_VALUE`, the scan's initial best distance, is modelled as "no best yet": any first segment, however far, beats it.
- `OffsetDateTime.now()` is a parameter (`now`), and times are integer nanoseconds since the epoch: an `OffsetDateTime` is modelled by its instant. `ChronoUnit.SECONDS.between` depends only on the instants. The sort `byTime` (`OffsetDateTime.compareTo`) orders two entries at the same instant with different offsets by their local date-time; the model treats them as equal, so their relative order is not modelled.
- SpeedRecommender.Snap: `reachedIdx - 5` is computed on unbounded integers. The 32-bit wrap-around of the Java `int` for a `reachedIdx` within 5 of `Integer.MIN_VALUE` is not modelled; there the Java search starts at a large positive index and fails.
- The repositories, `@Cacheable` caching and `@Transactional` persistence are not modelled (`findByName`, `save`, `getOrCreate`, `createRoute`, `deleteByName`, `toRoutePoints`). The route is passed in as a sequence of route points.
- XML parsing of the GPX file is not modelled. `ReadGpx` takes the number of `trk` elements and the parsed (lat, lon) attributes. A missing or malformed attribute (`NumberFormatException`) is not modelled.
- The traffic-light services (`getObservations`, `getPrediction`) are function-valued parameters of `DataSources`.
- The lazily memoised `getLat`/`getLon` of `Point` are modelled as the pure functions they memoise. Replacing a `null` memo does not change any later result.
- `PlannedRoutePoint`'s database id and route back-reference are not modelled. New points have a `null` id and the back-reference is excluded from equality, so `distinct()` compares exactly the remaining fields.
- SpeedRecommender.SortByTime: proved to be a sorted permutation. Its stability, which the Java sort also guarantees, is not stated.
- The network, the MQTT subscription, the express server, OpenTelemetry, `shutdown`, and the eviction timers of `tld_api_proxy.js` are not modelled. These are I/O and timers; `initialRequest` is the `initial` parameter of `GetValues`/`GetData`.
- Interleaving of `onNewData` with a pending `getValues` (the `await`) is not modelled: every operation runs to completion.
- TldApiProxy.DatastreamObserver.OnNewData requires `nvalues >= 1`. With `nvalues <= 0` the JavaScript loop pops an empty array forever, which a terminating model cannot express.
- TldApiProxy.StringLess: compares Unicode scalar values where JavaScript compares UTF-16 code units. The two orders differ only for characters outside the Basic Multilingual Plane, which the digit strings of the query never contain.
- TldApiProxy.ObserverRegistry.GetData takes `nvalues` as an integer. JavaScript coerces strings and other values loosely, and only the string comparison of `<` is modelled (see Findings).
- TldApiProxy.ObserverRegistry.Evict: the eviction timer and subscription it cancels are not modelled. Only the map update is.

## Findings

| source | as written | input that shows it | evidently intended | confidence | as-written member | corrected member |
|---|---|---|---|---|---|---|
| tld_api_proxy/tld_api_proxy.js:15 | `observer.nvalues < nvalues` compares two strings lexicographically when both counts come from the `nvalues` query parameter (index.js:34) | `GET /tld/X?nvalues=9` then `GET /tld/X?nvalues=10`: `"9" < "10"` is false, so the 9-value observer is kept and at most 9 values are returned | replace the observer whenever it holds fewer values than requested, comparing numbers | medium (not executed) | TldApiProxy.QueryStringComparison | TldApiProxy.ObserverRegistry.GetData |
