# Netweevil verification

A Dafny model of eleven algorithms of the Netweevil routing service and of the
scripts that prepare its Hong Kong data, with proofs of what each is for.
`dafny verify dfyconfig.toml` checks everything.

Floating-point numbers are reals, and distances are compared as squares wherever
the source takes a root. Distances on the globe, the cosine of a latitude and
profile compilation are parameters: the theorems hold for every value of them.
Loops and objects that the source updates in place are methods and classes
proved against specification functions; pure expressions are functions.

## What is modelled

- **Request profiles** (`JsonMerge`, `ProfileCache`, `ProfileProtocol`,
  `ProfileAnswers`, `ProfileTheorems`). The merge of override documents; the deque of compiled
  profiles; and the protocol around it - HTTP tasks that probe and queue,
  detached leader tasks that compile under a one-permit semaphore, clients that
  go away - as a step relation over any number of requests. Every interleaving is a run. The insertion never looks for
  a duplicate key, so distinct keys, the bound on the length and exact LRU order
  follow only from the invariant over whole runs.
- **Source network** (`Network`, `Cells`, `GapBins`, `Connectors`, `Segments`,
  `ExitSearch`). Union-find with path halving and union by size against walks over the united
  pairs, and the two spatial grids built on it against brute force.
- **Platform join** (`EditDistance`, `ExitSearch`). The two-row Levenshtein
  programme against edit scripts, the unique-match rule and the nearest point.
- **Edges in view** (`Buckets`, `NetworkEdges`, `NetworkIndex`). The node grid and
  the CSR table, as built and as searched, against the set of qualifying edges.
- **Heights** (`Polyline`, `HeightShape`). The polyline codec over 64-bit wrapping
  integers, and the fixed-interval resampler.
- **Geometry** (`TileClip`, `Rings`, `RouteSplit`, `RoutePieces`). Liang-Barsky
  clipping, the even-odd test, and cutting a route line into pieces.
- **Terrain** (`Terrain`). The fill of cells without data and the 24-bit encoding.
- **GTFS** (`Gtfs`, `GtfsMerge`, `GtfsRail`, `GtfsPlatforms`, `GtfsBinding`, `GtfsBuild`). Validation,
  rail subset, the binding of platforms, namespaces and merge.

## Where the code does less than one might expect

- `connectors` is to join all nodes of a station within the gap limits. Its bins are
  102900 units to a degree of longitude, the metric 111320 cos(lat). At a latitude
  the search always does so exactly when 102900 <= 111320 cos(lat); north of about
  22.43 degrees there are two nodes within the limits, on one parallel, for which it
  can only end without a connector (`Connectors.CompleteIffScaleFits`).
- The exit search has the same shape and a wide margin: its answer is always the
  brute-force one exactly when cos(lat) >= 10290 / 111320 (`ExitSearch.RightIffWindowFits`).
- A 64-bit value survives polyline encoding exactly when it lies in [-2^62, 2^62),
  and a list of points exactly when each of its wrapped steps does
  (`Polyline.ValueRoundTripIff`, `Polyline.ListRoundTripIff`).
- Namespacing leaves the empty identifier alone, so two valid feeds merge into an
  invalid one exactly when both use it as a key of the same table
  (`GtfsMerge.MergeValidIff`, `GtfsMerge.EmptyKeysCollide`).
- The rail subset keeps stops by served trip or by prefix, not by parent, so it
  can drop a parent station (`GtfsRail.SubsetValidIff`, `GtfsRail.ParentCanBeDropped`).
- `match_floor_id` accepts a name without its last character before it looks at
  distances: map floor "AB" is answered with "A" although "AC" is as near
  (`EditDistance.ShortenedNameNeedNotBeUnique`). An answer is the only floor at
  distance at most one exactly when no other floor is the map floor or one insertion,
  deletion or replacement away from it (`EditDistance.AnswerIsNear`).
- The point at a distance on a route line is taken from the first edge whose end is no
  more than 1e-9 m before that distance. Strictly inside the line, if that edge ends
  before the distance, or is at most 1e-9 m long and does not end at it, then on some
  line measured to have these vertex distances, one that stands out at the end of that
  edge, the point is not the one at the distance; anywhere else it is so on every line
  (`RouteSplit.ExactIff`). It is never more than 1e-9 m off (`RouteSplit.PointIsAtDistance`).
- The catalogue is keyed by a label made of station code and platform number, and a
  stop's identifier is split after the capitals that follow the prefix. A venue whose
  station code is capitals, a dash and more therefore shares labels with the station
  of those capitals, and if the join has a row of that station, one of its stops is
  placed at the venue's platform (`GtfsPlatforms.ClashTakesOther`). Without such a venue
  and row every stop that the catalogue places gets its own platform, whatever the
  catalogue and the feed; with them not (`GtfsPlatforms.PlacedOwnIff`).

## Model

| member | source | states |
|---|---|---|
| JsonMerge.MergeOverrides | crates/api/src/dynamic_profiles.rs:253-262 | merging entry by entry, with missing entries created as null, yields the recursive merge of the two trees |
| JsonMerge.MergeIdempotent | crates/api/src/dynamic_profiles.rs:251-262 | merging the same override a second time changes nothing, for all pairs of trees |
| JsonMerge.OverrideReplaces | crates/api/src/dynamic_profiles.rs:251-262 | a scalar, null, array or object facing a non-object is readable at its path exactly as the override gives it |
| JsonMerge.UntouchedPathKept | crates/api/src/dynamic_profiles.rs:255-259 | a path that the override does not reach reads as before, value or absence alike |
| JsonMerge.ObjectsMerge | crates/api/src/dynamic_profiles.rs:255-259 | where both sides hold objects the result holds an object with the keys of both |
| JsonMerge.RejectsExactlyUnknownFields | crates/api/src/dynamic_profiles.rs:286-305 | a profile is refused exactly when some object in it, at any depth, has a key that the parsed document lacks there |
| ProfileCache.DynamicProfileCache.Get | crates/api/src/dynamic_profiles.rs:55-62 | finds the first entry of the key and moves it, and nothing else, to the back |
| ProfileCache.DynamicProfileCache.Insert | crates/api/src/dynamic_profiles.rs:64-78 | drops the front only when the length equals the capacity, then appends |
| ProfileCache.DynamicProfileCache.Join | crates/api/src/dynamic_profiles.rs:134-145 | appends the sender to the key's waiters; it leads when there were none |
| ProfileCache.DynamicProfileCache.TakeWaiters | crates/api/src/dynamic_profiles.rs:152-158 | takes all waiters of the key and leaves it absent |
| ProfileCache.RecentOrdered | crates/api/src/dynamic_profiles.rs:55-78 | the reference order of keys is that of their last use |
| ProfileCache.TouchedRefines | crates/api/src/dynamic_profiles.rs:55-62 | a hit keeps the deque equal to the most recently used keys of the log, in order of last use |
| ProfileCache.PushedRefines | crates/api/src/dynamic_profiles.rs:64-78 | so does inserting a key that is absent, whatever was used before |
| ProfileProtocol.StepKeepsInv | crates/api/src/dynamic_profiles.rs:126-218 | each of the sixteen atomic steps, cancellation included, keeps the whole invariant |
| ProfileTheorems.SingleFlight | crates/api/src/dynamic_profiles.rs:134-163 | in every reachable state a key is pending exactly when one live leader task exists for it, no queue is empty, and at most one task holds the permit and compiles |
| ProfileTheorems.EveryWaiterInOnePlace | crates/api/src/dynamic_profiles.rs:134-162 | a waiter is queued, or taken and still to be answered, or has been sent exactly one result, and only one of these |
| ProfileTheorems.FlightsAgree | crates/api/src/dynamic_profiles.rs:147-162 | all members of a flight are sent the same result, an error or an engine for their own key |
| ProfileTheorems.ClientsGetTheirOwnEngine | crates/api/src/dynamic_profiles.rs:147-172 | an engine answered to a client was compiled from a document with the client's key, even when it was evicted meanwhile |
| ProfileTheorems.MissOncePerCompilation | crates/api/src/dynamic_profiles.rs:164-171 | requests answered "miss" belong to different successful compilations, each led by that request |
| ProfileAnswers.WhatAClientGets | crates/api/src/dynamic_profiles.rs:116-172 | over every run: preloaded exactly for a preloaded document; without a flight a hit; in a flight an error exactly when the run has a step at which its leader fails to compile, and otherwise the engine of that flight, "miss" exactly for a leader whose flight compiled |
| ProfileAnswers.BuildIsShared | crates/api/src/dynamic_profiles.rs:147-172 | everyone answered in the flight of a leader that compiled gets the engine of that compilation, made from the leader's document, the leader as "miss" and everyone else as "hit" |
| ProfileAnswers.BuilderGetsMiss | crates/api/src/dynamic_profiles.rs:164-214 | the leader of each successful compilation is, once answered, answered "miss" with the engine of it |
| ProfileAnswers.ProbeMovesHit | crates/api/src/dynamic_profiles.rs:55-62 | a probe that hits moves the first entry of the key to the end, leaves the others in order and answers with its engine; one that misses changes nothing and queues |
| ProfileAnswers.ReprobeMovesHit | crates/api/src/dynamic_profiles.rs:186-188 | so does the leader's second look, which otherwise compiles |
| ProfileTheorems.CacheIsExactLru | crates/api/src/dynamic_profiles.rs:64-78 | keys are distinct, at most capacity many and exactly the most recently used, although insertion never checks for duplicates |
| ProfileTheorems.InsertEvictsLeastRecentlyUsed | crates/api/src/dynamic_profiles.rs:186-214 | an insertion is always of an absent key and evicts the key whose last use is oldest |
| ProfileTheorems.StepDecreasesMeasure | crates/api/src/dynamic_profiles.rs:88-218 | every step but a new arrival strictly decreases a natural number |
| ProfileTheorems.NoDeadlock | crates/api/src/dynamic_profiles.rs:88-218 | until every request is answered or dropped, some step other than an arrival or a cancellation is possible |
| ProfileTheorems.RunsDrain | crates/api/src/dynamic_profiles.rs:88-218 | a run takes at most thirteen steps per request, and one that cannot go on has answered everyone, with nothing pending and the permit back |
| EditDistance.Distance | scripts/build_hong_kong_mtr_platform_join.py:235-248 | the two-row table computes the recursive distance of the whole strings |
| EditDistance.LevIsLeastEditCount | scripts/build_hong_kong_mtr_platform_join.py:235-248 | that distance is the length of the shortest script of insertions, deletions and replacements, and such a script exists |
| EditDistance.LevZero | scripts/build_hong_kong_mtr_platform_join.py:235-248 | it is zero exactly for equal strings |
| EditDistance.LevSymmetric | scripts/build_hong_kong_mtr_platform_join.py:235-248 | it is symmetric |
| EditDistance.LevTriangle | scripts/build_hong_kong_mtr_platform_join.py:235-248 | it obeys the triangle inequality |
| EditDistance.MatchFloorId | scripts/build_hong_kong_mtr_platform_join.py:251-264 | a distance match is returned exactly when no exact or shortened name exists and one floor alone lies within distance one |
| EditDistance.NearIsOneEdit | scripts/build_hong_kong_mtr_platform_join.py:235-248 | a distance of at most one means equality or one insertion, deletion or replacement |
| EditDistance.AnswerIsNear | scripts/build_hong_kong_mtr_platform_join.py:251-264 | every floor answered is the map floor or one edit away; it is the only one at distance at most one exactly when no other floor equals the map floor or is one edit away from it, as for every distance answer |
| EditDistance.ShortenedNameNeedNotBeUnique | scripts/build_hong_kong_mtr_platform_join.py:255-256 | map floor "AB" with network floors "A" and "AC" is answered with "A" although "AC" is one edit away as well |
| Network.UnionFind.constructor | scripts/audit_hong_kong_network.py:59-63 | starts valid, without points or links |
| Network.UnionFind.Node | scripts/audit_hong_kong_network.py:71-78 | returns the node with the point's key, at most a billionth of a degree and a centimetre of height away from it, adding a component of its own only for a new key |
| Network.NearGridHasItsKey | scripts/audit_hong_kong_network.py:42-46 | all points less than half a quantum from one grid point, in longitude, latitude and height, share a node's key |
| Reals.RoundedIsNearest | scripts/audit_hong_kong_network.py:44-45 | no integer is nearer, and halves go away from zero |
| Network.UnionFind.Root | scripts/audit_hong_kong_network.py:80-84 | path halving returns the representative, changes no representative, and takes r rounds only in a class of at least 2^(2r-1) nodes |
| Network.RoundsAreLogarithmic | scripts/audit_hong_kong_network.py:80-84 | hence the loop takes at most log2(size) rounds |
| Network.UnionFind.Union | scripts/audit_hong_kong_network.py:86-93 | keeps parents, sizes and classes consistent with the united pairs and takes one component away exactly when the two were apart |
| Network.UnionStep | scripts/audit_hong_kong_network.py:86-93 | hanging the smaller root below the larger keeps forest, class sizes, rank bound and connectivity |
| Network.MergedExplains | scripts/audit_hong_kong_network.py:86-93 | merged representatives are equal exactly for nodes joined by a walk over the united pairs and the new one |
| Network.Acyclic | scripts/audit_hong_kong_network.py:80-84 | no node but a root is its own ancestor |
| Network.AncestorReachesRep | scripts/audit_hong_kong_network.py:80-84 | following parents from any node reaches its representative, in at most as many steps as the ranks differ |
| Network.RootsAreComponents | scripts/audit_hong_kong_network.py:117-127 | as many nodes as there are different roots can be chosen, pairwise unconnected and between them connected to every node, so counting roots counts components |
| Network.UnionFind.CountComponents | scripts/audit_hong_kong_network.py:127-127 | the reported number is the number of components of all nodes |
| Network.UnionFind.StationReport | scripts/audit_hong_kong_network.py:113-123 | all six figures of a station: its nodes, those shared indoors and outdoors, the components of its nodes and of its platforms, the platform components from which no walk leads outdoors, and the nodes from which none does |
| Network.UnionFind.ReadLine | scripts/audit_hong_kong_network.py:100-108 | the vertices of a line get their nodes in order and consecutive ones are united, nothing else |
| Network.LineIsConnected | scripts/audit_hong_kong_network.py:107-108 | all nodes of a line that was read are connected |
| GapBins.GapTouches | scripts/connect_hong_kong_precision_gaps.py:25-37 | two points within both gap limits lie in touching bins where the longitude scale of the bins is at most the metric one |
| GapBins.MissedPair | scripts/connect_hong_kong_precision_gaps.py:25-37 | on any parallel where it is not, two points within the limits lie two bins apart |
| Connectors.JoinBin | scripts/connect_hong_kong_precision_gaps.py:31-40 | joins the node with every node of a touching bin within the gap; each connector takes exactly one component away |
| Connectors.ConnectStation | scripts/connect_hong_kong_precision_gaps.py:23-41 | afterwards any two nodes of the station within the limits and in touching bins are connected, and every connector joins two such nodes |
| Connectors.FindConnectors | scripts/connect_hong_kong_precision_gaps.py:20-42 | the same over all stations, with no other link added; every connector joins nodes that the links and connectors before it leave unconnected, and there are as many as components lost |
| Connectors.CompleteWhereScaleFits | scripts/connect_hong_kong_precision_gaps.py:20-42 | where the bin scale fits, all nodes of a station within the limits end connected |
| Connectors.CompleteIffScaleFits | scripts/connect_hong_kong_precision_gaps.py:20-42 | at a latitude the search for a station on that parallel always ends with all nodes within the limits connected exactly when the bin scale fits there; otherwise two such nodes exist for which every outcome has no connector |
| Segments.NearestIsNearest | scripts/audit_hong_kong_network.py:161-164 | no point of the segment is nearer than the clamped projection, for degenerate segments too |
| ExitSearch.StationBins | scripts/audit_hong_kong_network.py:137-145 | a cell lists exactly the segments whose bounding box reaches it |
| ExitSearch.GapDecides | scripts/audit_hong_kong_network.py:153-171 | the computed gap is at most 10 m exactly when some point of the segment is |
| ExitSearch.RightIffWindowFits | scripts/audit_hong_kong_network.py:150-171 | at a latitude within_10m is always the brute-force answer exactly when 10 m reach at most two cells there; otherwise an exit and a segment on that parallel, within 10 m of each other, for which the only answer is no segment and false |
| ExitSearch.NearestSegment | scripts/audit_hong_kong_network.py:150-171 | returns a segment that no point of any segment listed around the exit undercuts, in metres of longitude, latitude and, when the exit has one, height; none only when there are none; within_10m is never wrongly true and equals the brute-force answer where 10 m reach at most two cells |
| ExitSearch.HeightsIgnored | scripts/audit_hong_kong_network.py:155-160 | for an exit without a height within_10m does not depend on any height of the segments |
| ExitSearch.NearestPointOnNetwork | scripts/build_hong_kong_mtr_platform_join.py:267-299 | returns a point of some line of the floor that no point of any line undercuts, and none only when there are no points |
| Buckets.Layout | crates/core/src/graph.rs:480-498 | counting, prefix sums and filling list each bucket's items in order, each once |
| NetworkIndex.ShapeOf | crates/core/src/graph.rs:529-563 | the grid starts at the bounds of the nodes, and no node is clamped into it unless it has the largest 32-bit number of rows or columns |
| NetworkIndex.BuildIndex | crates/core/src/graph.rs:471-597 | the built table and grid are well-formed for every list of nodes and edges, and there is a grid unless there is no node |
| NetworkEdges.RowStartIsProduct | crates/api/src/network.rs:423-423 | the cells of a row start at the row times the number of columns |
| NetworkEdges.InsideIsScanned | crates/api/src/network.rs:411-420 | the cell of a node inside the box lies between the clamped corner cells |
| NetworkEdges.WindowIsEnough | crates/api/src/network.rs:419-423 | the scanned cells hold all qualifying edges; an empty window means that there are none |
| NetworkEdges.RowsExact | crates/api/src/network.rs:421-441 | the cells visited list exactly the edges that qualify there, each once |
| NetworkEdges.EdgesInBBox | crates/api/src/network.rs:399-454 | with index or without: distinct qualifying edges, all of them when the limit is not reached, exactly limit many otherwise |
| NetworkEdges.NetworkEdgesInView | crates/api/src/network.rs:84-88 | at most max_edges edges, and truncated exactly when more qualify |
| NetworkEdges.HasReverseEdge | crates/api/src/network.rs:379-395 | true exactly when some edge of the same way runs from the head of the edge back to its start, or when there is no table of out-edges |
| Polyline.EncodePolyline | crates/api/src/height.rs:264-283 | writes zigzag groups of the deltas between rounded positions, latitude first |
| Polyline.DecodePolyline | crates/api/src/height.rs:224-262 | reads values until the input ends, with each of the three errors where the source has it |
| Polyline.ValueRoundTripIff | crates/api/src/height.rs:226-275 | a 64-bit value is read back exactly when it lies in [-2^62, 2^62) |
| Polyline.EncodeDecodeRoundTrip | crates/api/src/height.rs:224-283 | a list whose wrapped steps lie in that range decodes to exactly its quantised positions, and all bytes are in 63..126 |
| Polyline.ListRoundTripIff | crates/api/src/height.rs:224-283 | a list of 64-bit positions is read back exactly when every wrapped step lies in that range |
| Polyline.DecodedIsPrintable | crates/api/src/height.rs:238-240 | a text is decoded only if all its bytes are in 63..126 |
| Polyline.KnownPointEncodes | crates/api/src/height.rs:264-283 | longitude -120.2 and latitude 38.5 at precision 5 are the ten bytes 95 112 126 105 70 126 112 115 124 85 |
| HeightShape.Resample | crates/api/src/height.rs:197-221 | sample k lies at arc length k times the interval along the whole shape, as much of the way along its segment in longitude and in latitude; refused exactly when the whole intervals exceed the limit |
| HeightShape.ResampledIsUnique | crates/api/src/height.rs:197-221 | that description determines the output, over zero-length segments too |
| HeightShape.VertexAtArcLength | crates/api/src/height.rs:200-206 | the sample at the arc length of a vertex that ends a proper segment is that vertex |
| HeightShape.SampleSegment | crates/api/src/height.rs:200-215 | the distance carried into the next segment stays in [0, interval) and the loop ends |
| HeightShape.RequestShape | crates/api/src/height.rs:114-158 | a success is the input or its resampling, on the globe and within the limit; each refusal occurs exactly for its reason |
| HeightShape.AnsweredShapeRoundTrips | crates/api/src/height.rs:185-188 | an answered polyline decodes to positions within half a quantum of every vertex, however long the line |
| HeightShape.EncodedRequestGivesShape | crates/api/src/height.rs:114-158 | for every non-empty shape on the globe within the limit, requesting its encoding at precision 5 or 6 without resampling gives positions whose longitude and latitude are each within half of 10^-precision of it |
| TileClip.ClipSegment | crates/api/src/tiles.rs:140-174 | None exactly when no point of the segment is in the square; otherwise a point of the segment is in it exactly when it lies between the returned points, which come in the direction of the segment |
| TileClip.StretchStaysInside | crates/api/src/tiles.rs:147-173 | every point between the returned ones is in the square |
| Rings.InRing | scripts/export_hong_kong_station_surfaces.py:49-58 | on some edge, or an odd number of edges crosses the ray |
| Rings.CrossesMeans | scripts/export_hong_kong_station_surfaces.py:54-57 | an edge is crossed exactly when one end is above the point, the other is not, and the edge's point at that height is to the right |
| Rings.CloseToEdgeIsContained | scripts/export_hong_kong_station_surfaces.py:39-53 | every point within 1e-9 of any point of any edge is contained |
| Rings.InsideIsContained | scripts/export_hong_kong_station_surfaces.py:49-58 | every point inside a rectangle is contained in it |
| Rings.ClosedRingStraddlesEvenly | scripts/export_hong_kong_station_surfaces.py:28-54 | a closed ring has an even number of edges astride any horizontal line |
| Rings.OutsideBoxIsOutside | scripts/export_hong_kong_station_surfaces.py:39-58 | a point beyond the tolerance of the ring's box, on any side, is outside |
| Rings.RotationInvariant | scripts/export_hong_kong_station_surfaces.py:49-58 | the answer does not depend on the vertex at which a closed ring starts |
| Rings.ReversalInvariant | scripts/export_hong_kong_station_surfaces.py:49-58 | nor on the direction in which it is listed |
| Rings.Contains | scripts/export_hong_kong_station_surfaces.py:61-64 | inside some polygon's outer ring and in none of that polygon's holes |
| RouteSplit.PointIsAtDistance | qgis_plugin/netweevil_qgis/results.py:388-408 | the point returned for a distance is a vertex, or has each coordinate as much of the way along an edge, or at most 1e-9 m beyond its end, as the distance is, within 1e-9 m of that distance from the start |
| RouteSplit.CumulativeSteps | qgis_plugin/netweevil_qgis/results.py:441-460 | from vertex to vertex the distance grows by the measure, or not at all where that is negative |
| RouteSplit.ExactIff | qgis_plugin/netweevil_qgis/results.py:388-408 | for given vertex distances and a distance within the line, the point returned lies at exactly that distance on every line measured to have them, if and only if the distance is not strictly inside with the edge taken ending before it, or being at most 1e-9 m long and not ending at it |
| RouteSplit.MisplacedOnPeak | qgis_plugin/netweevil_qgis/results.py:388-408 | for every other distance a line in the plane with a measure that gives it those vertex distances, on which the point returned is not at the distance |
| RouteSplit.PointIsExact | qgis_plugin/netweevil_qgis/results.py:388-408 | wherever that condition holds the point lies on the line at exactly the distance asked for, for any coordinates |
| RouteSplit.PointAtVertex | qgis_plugin/netweevil_qgis/results.py:388-408 | at the distance of a vertex that ends an edge longer than 1e-9 m the point is that vertex |
| RouteSplit.DedupedKeepsEnds | qgis_plugin/netweevil_qgis/results.py:410-421 | the first point stays, the last is met up to 1e-12, only given points remain and no two neighbours are the same |
| RouteSplit.DedupedShowsAll | qgis_plugin/netweevil_qgis/results.py:410-421 | every given point is met up to 1e-12 by one that is kept |
| RouteSplit.DedupedIdempotent | qgis_plugin/netweevil_qgis/results.py:410-421 | removing repeated points again changes nothing |
| RouteSplit.SliceRouteGeometry | qgis_plugin/netweevil_qgis/results.py:423-435 | a piece is its two cut points around the vertices strictly between, or one point twice when it is at most 1e-9 m |
| RoutePieces.SplitByDistance | qgis_plugin/netweevil_qgis/results.py:437-482 | one piece per length between consecutive cuts, or None for each when there is nothing to cut |
| RoutePieces.CutsPartition | qgis_plugin/netweevil_qgis/results.py:461-481 | the cuts ascend from zero to the whole length, each at the scaled sum of the lengths before it |
| RoutePieces.SplitIsPartition | qgis_plugin/netweevil_qgis/results.py:437-481 | whenever a line is cut at all, its measured distances ascend from zero and its cuts are such a partition |
| RoutePieces.PiecesJoin | qgis_plugin/netweevil_qgis/results.py:423-481 | each piece ends where the next starts, up to 1e-12, or 1e-9 m along the line for a degenerate one |
| RoutePieces.WholeLineCovered | qgis_plugin/netweevil_qgis/results.py:423-481 | the pieces start at the first vertex and end at the last, up to 1e-12, or up to 1e-9 m along the line when the last piece is degenerate |
| RoutePieces.ShownInOrder | qgis_plugin/netweevil_qgis/results.py:430-433 | over all pieces the inner vertices appear in route order, so none appears twice |
| RoutePieces.ShownExactly | qgis_plugin/netweevil_qgis/results.py:423-433 | an inner vertex is added between the cut points of a piece exactly when it is strictly inside the line, on no cut and in no degenerate piece |
| RoutePieces.VertexOnCut | qgis_plugin/netweevil_qgis/results.py:423-481 | a vertex on a cut, after an edge longer than 1e-9 m, starts the piece behind the cut and ends the one before it |
| RoutePieces.EveryVertexMet | qgis_plugin/netweevil_qgis/results.py:437-482 | every vertex of a split line is met by some piece, up to 1e-12 in each coordinate or by the point of a position at most 1e-9 m along the line from it |
| Terrain.FillDisplayNodata | scripts/prepare_hong_kong_terrain.py:44-68 | both errors exactly when the source raises them; every cell takes the height of the closest valid column of the closest populated row, left and upper on ties |
| Terrain.NearestColumn | scripts/prepare_hong_kong_terrain.py:60-63 | the column chosen from the two accumulated rows is the closest valid one and never a sentinel |
| Terrain.ValidCellsUnchanged | scripts/prepare_hong_kong_terrain.py:44-68 | cells with data keep their height |
| Terrain.NodataNeverLeaks | scripts/prepare_hong_kong_terrain.py:44-68 | the output depends on the valid cells alone |
| Terrain.FillIdempotent | scripts/prepare_hong_kong_terrain.py:44-68 | filling again under the same mask changes nothing |
| Terrain.RangeAccepted | scripts/prepare_hong_kong_terrain.py:37-39 | accepted are exactly the heights from -32768 - 1/512 up to, not including, 32768 - 1/512 |
| Terrain.HeightRoundTrip | scripts/prepare_hong_kong_terrain.py:37-41 | the three bytes read back within 1/512 m |
| Terrain.CodeRoundTrip | scripts/prepare_hong_kong_terrain.py:37-41 | every 24-bit code is the code of the height it reads back as |
| Terrain.CodesKeepOrder | scripts/prepare_hong_kong_terrain.py:37-37 | a higher height never gets a lower code |
| Terrain.FilledEncodesIff | scripts/prepare_hong_kong_terrain.py:37-68 | a filled raster encodes exactly when all its valid heights are in range |
| Terrain.PixelsReadBack | scripts/prepare_hong_kong_terrain.py:33-41 | every pixel of an encoded raster reads back within 1/512 m of its height |
| Gtfs.Validate | scripts/build_hong_kong_transit.py:146-166 | raises the first fault in the source's order, and nothing exactly for a feed with distinct keys and sound references |
| GtfsMerge.RowsStayDistinct | scripts/build_hong_kong_transit.py:70-72 | namespacing maps different rows to different rows |
| GtfsMerge.MergeValidIff | scripts/build_hong_kong_transit.py:146-203 | two valid feeds under prefixes of which neither starts the other merge into a valid feed exactly when they share no empty key |
| GtfsMerge.SurfaceAndRailMerge | scripts/build_hong_kong_transit.py:201-203 | the same for the prefixes in use |
| GtfsMerge.IdentifiersApart | scripts/build_hong_kong_transit.py:21-72 | no cell of any of the 17 identifier columns of one feed equals one of the other after namespacing unless both are empty; other cells stay |
| GtfsMerge.EmptyKeysCollide | scripts/build_hong_kong_transit.py:70-72 | a feed that is valid alone and invalid when merged with itself |
| GtfsRail.SubsetValidIff | scripts/build_hong_kong_transit.py:39-67 | the rail subset of a valid feed is valid exactly when every kept stop keeps its parent |
| GtfsRail.ParentCanBeDropped | scripts/build_hong_kong_transit.py:46-58 | a rail stop below a station without a rail prefix loses its parent |
| GtfsRail.OnlyRailTrips | scripts/build_hong_kong_transit.py:41-52 | the trips kept are exactly those on a route of a rail agency |
| GtfsRail.SubsetIsWhatBelongs | scripts/build_hong_kong_transit.py:39-67 | the rail subset of a valid feed has, in each of the twelve tables, exactly the rows that refer to rows of the subset as stated: rail routes, their trips, what these refer to, served or prefixed stops, and transfers and pathways between kept stops |
| GtfsRail.SubsetIdempotent | scripts/build_hong_kong_transit.py:39-67 | cutting a rail subset down again changes nothing, on any feed |
| GtfsPlatforms.ParsedIff | scripts/build_hong_kong_transit.py:100-103 | the pattern captures a station and a number exactly when the identifier is their label, the station all capitals and the number on one line |
| GtfsPlatforms.CataloguePlatforms | scripts/build_hong_kong_transit.py:81-89 | the table holds for each label the last platform of the catalogue whose venue has that station |
| GtfsPlatforms.StationIsLast | scripts/build_hong_kong_transit.py:81 | the station of a venue is that of its last row in the join |
| GtfsPlatforms.ClosestIsHead | scripts/build_hong_kong_transit.py:116-118 | the row chosen is the head of the stable sort by distance and identifier: strictly before the rows ahead of it, no later than any |
| GtfsPlatforms.LessMeans | scripts/build_hong_kong_transit.py:116-117 | identifiers are compared character by character, a shorter one first |
| GtfsPlatforms.PlaceIsSurveyed | scripts/build_hong_kong_transit.py:100-124 | a place is at most 250 m away and that of the last catalogued platform of the stop or, if there is none, of the closest joined platform of its station and line, the first in the stable sort; each error has the reason it states |
| GtfsPlatforms.OwnIffNoneSplits | scripts/build_hong_kong_transit.py:85-89 | whatever the catalogue, the platform looked up for an identifier is that of the station and number it parses to, if and only if no venue has a station code made of capitals, a dash and more on one line |
| GtfsPlatforms.PlacedOwnIff | scripts/build_hong_kong_transit.py:85-123 | whatever the catalogue, the lines and the stop, a stop placed by the catalogue gets the platform of its own station and number, if and only if no venue has such a code whose leading capitals are the station of a row of the join |
| GtfsPlatforms.ClashTakesOther | scripts/build_hong_kong_transit.py:85-123 | for every such venue and row a catalogue and a stop of the row's station that is placed at the platform of the other station |
| GtfsPlatforms.PlacedStays | scripts/build_hong_kong_transit.py:108-126 | a stop that was given its place gets the same coordinates and platform again, if the coordinates of the surveys are read back as written and no joined platform lies on a pole |
| GtfsBinding.StopLines | scripts/build_hong_kong_transit.py:91-94 | the lines of every stop, or a stop time whose trip or route is missing |
| GtfsBinding.LineIsRoute | scripts/build_hong_kong_transit.py:91-94 | with distinct trips the line of a stop time is what follows "MTR-" in the route of its trip, or a route that does not start so |
| GtfsBinding.BindPlatforms | scripts/build_hong_kong_transit.py:80-143 | writes place and platform of every used stop and nothing else, and lists one binding for each; or raises for a missing trip, for a used stop without a place, with the reason, or for a wrong count |
| GtfsBinding.BindingsNameStops | scripts/build_hong_kong_transit.py:125-131 | every binding names a stop of the namespaced feed whose longitude and latitude are those of the binding and whose platform_code is the number in its identifier |
| GtfsBinding.EveryUsedStopBoundOnce | scripts/build_hong_kong_transit.py:90-142 | with distinct stop identifiers every stop at which an "MTR-" trip calls has exactly one binding, and no other stop has one |
| GtfsBinding.BindAgain | scripts/build_hong_kong_transit.py:80-143 | binding the bound feed again succeeds and changes nothing, under the same two conditions on the surveys |
| GtfsBinding.CountAgrees | scripts/build_hong_kong_transit.py:141-142 | with distinct stop identifiers and stop times that refer to them, as in the rail subset of a valid feed, the count is never wrong |
| GtfsBinding.BindingKeepsValidity | scripts/build_hong_kong_transit.py:80-166 | whatever places are bound, the feed stays valid or invalid as it was |
| GtfsBuild.BuildValidIff | scripts/build_hong_kong_transit.py:186-203 | from two valid source feeds, whatever places are bound, the assembled feed passes validation exactly when kept stops keep their parents and no empty key is shared |
| GtfsBuild.Build | scripts/build_hong_kong_transit.py:195-203 | the whole build leaves a valid assembled feed in which every binding names a stop at its place, or fails in the subset, in binding or in validation; from valid sources each failure has the one reason given |

## Left out

- Floating-point rounding, NaN and infinities: numbers are reals, so the checks for finite values are always passed; `hypot`, haversine, cosines and map projections are given values.
- Integer overflow traps: 64-bit polyline arithmetic wraps, as an optimised build does; 32-bit counters of the edge table do not wrap.
- JsonMerge.MergeOverrides: returns the merged tree instead of changing it in place; the order in which an object lists its keys is not modelled.
- ProfileProtocol.StepKeepsInv: every failure of a compilation, of its thread pool or of its blocking task is one step, FailToCompile; a closed semaphore and poisoned locks are not modelled.
- ProfileTheorems.NoDeadlock: says that a step is possible, not that a scheduler takes it.
- Parsing, validation and error texts of `resolve_dynamic_profile` before the key is computed; only the merge and the check for unknown fields are modelled.
- Network.UnionFind.ReadLine: takes a line as given; reading the geopackage, the station, platform and indoor sets it fills and the feature counters are not modelled.
- Network.UnionFind.StationReport: takes the sets of a station as given.
- Connectors.ConnectStation: takes the nodes of a station as a given list, which the source sorts.
- ExitSearch.NearestSegment: takes the segments as pairs of points; the catalogue lookup, the rounded distance and the outdoor flag of the exit are not modelled.
- EditDistance.MatchFloorId: sorting the distances is insertion by distance; the order among equal distances is left open, which the result does not depend on.
- NetworkEdges.EdgesInBBox: the edges are a list without repetition; their order is not stated, and the labelled break is an early return.
- `profile_values` and the properties of an edge: expressions over fields without a search.
- The heights themselves, their rounding and the `range` output of a height request.
- HeightShape.Resample: the distance between two positions is an arbitrary non-negative function.
- RouteSplit.SliceRouteGeometry: coordinates are numbers, and the length of an edge, with or without heights, is an arbitrary function of its two vertices.
- Terrain.FillDisplayNodata: the two accumulations over a row are recursive functions; only two-dimensional rasters are modelled.
- Gtfs.Validate: rows have as many cells as the header, and `int()` is an arbitrary partial function of the cell.
- GtfsRail.SubsetIdempotent: every missing subscript is one KeyError, without the name of the key.
- GtfsBinding.BindPlatforms: the cells of the join and the catalogue are numbers; a column that the rail subset does not ask for is ignored where it is missing instead of raising; the audit rows and features are not modelled.
- NetworkIndex.BuildIndex: a node is identified by its position in the list, and the cosine of a latitude is an arbitrary function.
- The written archive, audits and manifests of the transit build.
- Routing engines, transit search, trip optimisation, trace matching, HTTP handlers, the job registry, the QGIS and browser interfaces, downloads and file formats.
