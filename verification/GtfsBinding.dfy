/** The binding of a rail feed: the stops that heavy rail trips use get their surveyed place, in the feed and in a list
    for the router, and no identifier changes. */
module GtfsBinding {
  import opened Basics
  import opened Reals
  import opened Gtfs
  import opened GtfsMerge
  import GtfsRail
  import opened GtfsPlatforms

  datatype BindError =
    LostTrip(stopTime: Row) | Unbindable(stop: Row, error: PlaceError) | WrongCount(bound: nat, used: nat)

  /** What the router is told about a stop, by its identifier in the merged feed. */
  datatype Binding = Binding(stop: string, spot: Spot, station: string)

  const RAIL := "rail:"

  /** The stops of the trips that belong to a heavy rail line. */
  function UsedStops(feed: Feed): set<string> {
    set r | r in Rows(feed, StopTimes) && TripId in r && StopId in r && "MTR-" <= r[TripId] :: r[StopId]
  }

  predicate IsUsed(r: Row, used: set<string>) { StopId in r && r[StopId] in used }

  // ----- The lines at a stop -----

  function WithoutPrefix(prefix: string, s: string): string { if prefix <= s then s[|prefix|..] else s }

  /** The last of the trips with the identifier. */
  function TripOf(trips: seq<Row>, id: string): (trip: Option<Row>)
    ensures trip.Some? ==> trip.value in trips && TripId in trip.value && trip.value[TripId] == id
    ensures id in Ids(trips, TripId) ==> trip.Some?
  {
    if trips == [] then None
    else
      var front, last := trips[..|trips| - 1], trips[|trips| - 1];
      assert trips == front + [last];
      if TripId in last && last[TripId] == id then Some(last) else TripOf(front, id)
  }

  /** The line of a stop time; None where its trip or the route of that is missing. */
  function LineOf(trips: seq<Row>, r: Row): Option<string> {
    if TripId in r && TripOf(trips, r[TripId]).Some? && RouteId in TripOf(trips, r[TripId]).value then
      Some(WithoutPrefix("MTR-", TripOf(trips, r[TripId]).value[RouteId]))
    else None
  }

  lemma LinesKnown(rail: Feed, r: Row)
    requires SoundStopTime(rail, r) && forall t :: t in Rows(rail, Trips) ==> SoundTrip(rail, t)
    ensures LineOf(Rows(rail, Trips), r).Some?
  {
    assert SoundTrip(rail, TripOf(Rows(rail, Trips), r[TripId]).value);
  }

  /** The line of a stop time is what follows "MTR-" in the route of its trip, or a route that does not start so. */
  lemma LineIsRoute(rail: Feed, r: Row, trip: Row, line: string)
    requires Keyed(rail, Trips, TripId) && trip in rail[Trips] && RouteId in trip
    requires TripId in r && r[TripId] == trip[TripId]
    ensures LineOf(rail[Trips], r) == Some(line) <==>
      trip[RouteId] == "MTR-" + line || (trip[RouteId] == line && !("MTR-" <= line))
  {
    var found := TripOf(rail[Trips], r[TripId]);
    assert r[TripId] in Ids(rail[Trips], TripId);
    GtfsRail.SameKeySameRow(rail, Trips, TripId, found.value, trip);
    assert "MTR-" <= trip[RouteId] ==> trip[RouteId] == "MTR-" + trip[RouteId][4..];
  }

  predicate CallsAt(r: Row, id: string) { StopId in r && r[StopId] == id }

  function LinesAt(trips: seq<Row>, stopTimes: seq<Row>, id: string): set<string> {
    set r | r in stopTimes && CallsAt(r, id) && LineOf(trips, r).Some? :: LineOf(trips, r).value
  }

  function LinesOf(lines: map<string, set<string>>, id: string): set<string> { if id in lines then lines[id] else {} }

  lemma LinesGrow(trips: seq<Row>, stopTimes: seq<Row>, r: Row, id: string)
    requires LineOf(trips, r).Some?
    ensures LinesAt(trips, stopTimes + [r], id)
         == LinesAt(trips, stopTimes, id) + if CallsAt(r, id) then {LineOf(trips, r).value} else {}
  {}

  method StopLines(trips: seq<Row>, stopTimes: seq<Row>) returns (result: Result<map<string, set<string>>, Row>)
    requires AllHave(stopTimes, StopId)
    ensures match result
      case Ok(lines) =>
        (forall r :: r in stopTimes ==> LineOf(trips, r).Some?)
        && forall id :: LinesOf(lines, id) == LinesAt(trips, stopTimes, id)
      case Err(r) => r in stopTimes && LineOf(trips, r).None?
  {
    var lines: map<string, set<string>> := map[];
    for i := 0 to |stopTimes|
      invariant forall r :: r in stopTimes[..i] ==> LineOf(trips, r).Some?
      invariant forall id :: LinesOf(lines, id) == LinesAt(trips, stopTimes[..i], id)
    {
      var r := stopTimes[i];
      if LineOf(trips, r).None? { return Err(r); }
      assert stopTimes[..i + 1] == stopTimes[..i] + [r];
      forall id { LinesGrow(trips, stopTimes[..i], r, id); }
      lines := lines[r[StopId] := LinesOf(lines, r[StopId]) + {LineOf(trips, r).value}];
    }
    assert stopTimes[..|stopTimes|] == stopTimes;
    result := Ok(lines);
  }

  // ----- Writing the places -----

  function PlaceIn(trips: seq<Row>, stopTimes: seq<Row>, sources: Sources, r: Row): Result<Place, PlaceError> {
    PlaceOf(sources, if StopId in r then LinesAt(trips, stopTimes, r[StopId]) else {}, r)
  }

  /** The place of each stop of the feed. */
  function Placing(rail: Feed, sources: Sources): Row -> Result<Place, PlaceError> {
    r => PlaceIn(Rows(rail, Trips), Rows(rail, StopTimes), sources, r)
  }

  type Places = Row -> Result<Place, PlaceError>

  function BoundRow(r: Row, used: set<string>, places: Places, write: real -> string): Row {
    if IsUsed(r, used) && places(r).Ok? then Placed(r, places(r).value, write) else r
  }

  /** A used stop without a surveyed place. */
  predicate Stuck(r: Row, used: set<string>, places: Places) { IsUsed(r, used) && places(r).Err? }

  function CountUsed(rows: seq<Row>, used: set<string>): nat {
    if rows == [] then 0
    else CountUsed(rows[..|rows| - 1], used) + if IsUsed(rows[|rows| - 1], used) then 1 else 0
  }

  /** The rows with the places of the used stops written in. */
  ghost predicate RowsBound(rows: seq<Row>, bound: seq<Row>, used: set<string>, places: Places, write: real -> string) {
    && |bound| == |rows|
    && forall i {:trigger bound[i]} :: 0 <= i < |rows| ==> bound[i] == BoundRow(rows[i], used, places, write)
  }

  /** One binding for every used stop that has a place, in the order of the rows. */
  function BindingsOf(rows: seq<Row>, used: set<string>, places: Places): seq<Binding> {
    if rows == [] then []
    else
      var front, r := BindingsOf(rows[..|rows| - 1], used, places), rows[|rows| - 1];
      if IsUsed(r, used) && places(r).Ok? then
        front + [Binding(RAIL + r[StopId], places(r).value.spot, places(r).value.station)]
      else front
  }

  /** What binding does to the feed, or why it raises. */
  ghost predicate IsBinding(rail: Feed, sources: Sources, result: Result<(Feed, seq<Binding>), BindError>)
    requires Stops in rail
  {
    var used, stops, places := UsedStops(rail), rail[Stops], Placing(rail, sources);
    match result
    case Ok((bound, bindings)) =>
      && (forall r :: r in Rows(rail, StopTimes) ==> LineOf(Rows(rail, Trips), r).Some?)
      && (forall r :: r in stops ==> !Stuck(r, used, places)) && CountUsed(stops, used) == |used|
      && Stops in bound && bound == rail[Stops := bound[Stops]]
      && RowsBound(stops, bound[Stops], used, places, sources.write)
      && bindings == BindingsOf(stops, used, places)
    case Err(LostTrip(r)) => r in Rows(rail, StopTimes) && LineOf(Rows(rail, Trips), r).None?
    case Err(Unbindable(stop, error)) => stop in stops && Stuck(stop, used, places) && places(stop) == Err(error)
    case Err(WrongCount(count, n)) => count == CountUsed(stops, used) != n == |used|
  }

  /** The place of one stop, from the tables made of the surveys. */
  method PlaceStop(sources: Sources, platforms: map<string, Numbered>, rows: map<string, seq<Joined>>,
                   lines: set<string>, stop: Row)
    returns (place: Result<Place, PlaceError>)
    requires forall id :: Lookup(platforms, id) == NumberedAs(sources.joined, sources.catalogue, id)
    requires forall station :: RowsAt(rows, station) == AtStation(sources.joined, station)
    ensures place == PlaceOf(sources, lines, stop)
  {
    if StopId !in stop || Parsed(stop[StopId]).None? { return Err(NotAPlatform); }
    var (station, number) := Parsed(stop[StopId]).value;
    var candidates := OnLines(RowsAt(rows, station), lines);
    if candidates == [] { return Err(NoPlatformFloor); }
    var position := PositionOf(stop, sources.read);
    if position.None? { return Err(NotANumber); }
    var spot := SpotOf(Lookup(platforms, stop[StopId]), candidates, position.value, sources.cosine);
    if Gap2(spot.at, position.value, sources.cosine) > Square(FARTHEST) { return Err(TooFar); }
    place := Ok(Place(station, number, spot));
  }

  /** The rows written, the bindings and their number after the rows in `done`. */
  ghost predicate BoundSoFar(done: seq<Row>, rows: seq<Row>, bindings: seq<Binding>, count: nat, used: set<string>,
                             places: Places, write: real -> string)
  {
    && RowsBound(done, rows, used, places, write) && count == CountUsed(done, used)
    && bindings == BindingsOf(done, used, places) && forall r :: r in done ==> !Stuck(r, used, places)
  }

  lemma BoundMore(done: seq<Row>, rows: seq<Row>, bindings: seq<Binding>, count: nat, used: set<string>,
                  places: Places, write: real -> string, r: Row)
    requires BoundSoFar(done, rows, bindings, count, used, places, write) && !Stuck(r, used, places)
    ensures IsUsed(r, used) ==>
      var place := places(r).value;
      BoundSoFar(done + [r], rows + [Placed(r, place, write)],
                 bindings + [Binding(RAIL + r[StopId], place.spot, place.station)], count + 1, used, places, write)
    ensures !IsUsed(r, used) ==> BoundSoFar(done + [r], rows + [r], bindings, count, used, places, write)
  {
    assert (done + [r])[..|done|] == done;
  }

  /** Writes the place of every used stop into its row and lists it for the router, or raises. */
  method BindPlatforms(rail: Feed, sources: Sources) returns (result: Result<(Feed, seq<Binding>), BindError>)
    requires Stops in rail && AllHave(Rows(rail, StopTimes), StopId)
    ensures IsBinding(rail, sources, result)
  {
    var platforms := CataloguePlatforms(sources.joined, sources.catalogue);
    var rowsAt := RowsByStation(sources.joined);
    var used, stops := UsedStops(rail), rail[Stops];
    var lines := StopLines(Rows(rail, Trips), Rows(rail, StopTimes));
    if lines.Err? { return Err(LostTrip(lines.error)); }
    ghost var places := Placing(rail, sources);
    var rows, bindings, count := [], [], 0;
    for i := 0 to |stops|
      invariant BoundSoFar(stops[..i], rows, bindings, count, used, places, sources.write)
    {
      assert stops[..i + 1] == stops[..i] + [stops[i]];
      var stop := stops[i];
      if IsUsed(stop, used) {
        var place := PlaceStop(sources, platforms, rowsAt, LinesOf(lines.value, stop[StopId]), stop);
        assert place == places(stop);
        if place.Err? { return Err(Unbindable(stop, place.error)); }
        BoundMore(stops[..i], rows, bindings, count, used, places, sources.write, stop);
        count := count + 1;
        rows := rows + [Placed(stop, place.value, sources.write)];
        bindings := bindings + [Binding(RAIL + stop[StopId], place.value.spot, place.value.station)];
      } else {
        BoundMore(stops[..i], rows, bindings, count, used, places, sources.write, stop);
        rows := rows + [stop];
      }
    }
    assert stops[..|stops|] == stops;
    if count != |used| { return Err(WrongCount(count, |used|)); }
    result := Ok((rail[Stops := rows], bindings));
  }

  // ----- The count always agrees where the references are sound -----

  lemma MeetOneMore(used: set<string>, ids: set<string>, id: string)
    requires id !in ids
    ensures |used * (ids + {id})| == |used * ids| + if id in used then 1 else 0
  {
    assert used * (ids + {id}) == used * ids + if id in used then {id} else {};
  }

  lemma FrontDistinct(front: seq<Row>, last: Row)
    requires AllHave(front + [last], StopId) && Distinct(Values(front + [last], StopId))
    ensures AllHave(front, StopId) && Distinct(Values(front, StopId)) && last[StopId] !in Ids(front, StopId)
  {
    var rows := front + [last];
    var all := Values(rows, StopId);
    assert AllHave(front, StopId);
    forall i | 0 <= i < |front| ensures Values(front, StopId)[i] == all[i] && all[i] != last[StopId] {
      assert rows[i] == front[i];
      assert all[|front|] == last[StopId];
    }
    forall r | r in front ensures r[StopId] != last[StopId] {
      var i :| 0 <= i < |front| && front[i] == r;
      assert all[i] == r[StopId];
    }
  }

  lemma {:induction false} CountIsSize(rows: seq<Row>, used: set<string>)
    requires AllHave(rows, StopId) && Distinct(Values(rows, StopId))
    ensures CountUsed(rows, used) == |used * Ids(rows, StopId)|
  {
    if rows == [] {
      assert used * Ids(rows, StopId) == {};
    } else {
      var front, last := rows[..|rows| - 1], rows[|rows| - 1];
      assert rows == front + [last];
      FrontDistinct(front, last);
      CountIsSize(front, used);
      assert Ids(rows, StopId) == Ids(front, StopId) + {last[StopId]};
      MeetOneMore(used, Ids(front, StopId), last[StopId]);
    }
  }

  /** With stops told apart and stop times that refer to them, binding raises only for a stop without a place. */
  lemma CountAgrees(rail: Feed)
    requires Keyed(rail, Stops, StopId) && forall r :: r in Rows(rail, StopTimes) ==> SoundStopTime(rail, r)
    ensures CountUsed(rail[Stops], UsedStops(rail)) == |UsedStops(rail)|
  {
    var used := UsedStops(rail);
    CountIsSize(rail[Stops], used);
    forall id | id in used ensures id in Ids(rail[Stops], StopId) {
      var r :| r in Rows(rail, StopTimes) && TripId in r && StopId in r && r[StopId] == id;
      assert SoundStopTime(rail, r);
    }
    assert used * Ids(rail[Stops], StopId) == used;
  }

  // ----- What the bindings name -----

  predicate BindsRow(b: Binding, r: Row, used: set<string>, places: Places) {
    IsUsed(r, used) && places(r).Ok? && b == Binding(RAIL + r[StopId], places(r).value.spot, places(r).value.station)
  }

  lemma {:induction false} BindingsOfRows(rows: seq<Row>, used: set<string>, places: Places)
    ensures forall b :: b in BindingsOf(rows, used, places) <==> exists r :: r in rows && BindsRow(b, r, used, places)
  {
    if rows != [] {
      var front, last := rows[..|rows| - 1], rows[|rows| - 1];
      BindingsOfRows(front, used, places);
      assert rows == front + [last];
      forall b ensures b in BindingsOf(rows, used, places) <==> exists r :: r in rows && BindsRow(b, r, used, places) {
        if BindsRow(b, last, used, places) { assert last in rows; }
      }
    }
  }

  /** No two bindings are for one stop. */
  ghost predicate OnePerStop(bindings: seq<Binding>) {
    forall i, j :: 0 <= i < j < |bindings| ==> bindings[i].stop != bindings[j].stop
  }

  lemma {:induction false} BindingsDistinct(rows: seq<Row>, used: set<string>, places: Places)
    requires AllHave(rows, StopId) && Distinct(Values(rows, StopId))
    ensures OnePerStop(BindingsOf(rows, used, places))
  {
    if rows != [] {
      var front, last := rows[..|rows| - 1], rows[|rows| - 1];
      assert rows == front + [last];
      FrontDistinct(front, last);
      BindingsDistinct(front, used, places);
      BindingsOfRows(front, used, places);
      var before := BindingsOf(front, used, places);
      forall i | 0 <= i < |before| ensures before[i].stop != RAIL + last[StopId] {
        assert before[i] in before;
        var r :| r in front && BindsRow(before[i], r, used, places);
        assert before[i].stop[|RAIL|..] == r[StopId] && (RAIL + last[StopId])[|RAIL|..] == last[StopId];
      }
    }
  }

  /** The row has the place of the binding and the number of the platform that it is for. */
  predicate HasPlace(r: Row, b: Binding, write: real -> string) {
    var lon, lat, code := Other("stop_lon"), Other("stop_lat"), Other("platform_code");
    && {lon, lat, code} <= r.Keys && r[lon] == write(b.spot.at.lon) && r[lat] == write(b.spot.at.lat)
    && b.stop == "rail:MTR-PLATFORM-" + b.station + "-" + r[code]
  }

  /** The binding is for a stop of the merged feed, which has the place. */
  ghost predicate NamesStop(b: Binding, feed: Feed, write: real -> string) {
    exists r :: r in Rows(feed, Stops) && StopId in r && r[StopId] == b.stop && HasPlace(r, b, write)
  }

  lemma TaggedPlace(r: Row, place: Place, write: real -> string)
    requires StopId in r && r[StopId] != ""
    ensures var q := TaggedRow(RAIL, Placed(r, place, write)); var at := place.spot.at;
      && StopId in q && q[StopId] == RAIL + r[StopId]
      && {Other("stop_lon"), Other("stop_lat"), Other("platform_code")} <= q.Keys
      && q[Other("stop_lon")] == write(at.lon) && q[Other("stop_lat")] == write(at.lat)
      && q[Other("platform_code")] == place.number
  {}

  lemma TaggedLabel(place: Place)
    ensures Label(place.station, place.number) != ""
    ensures RAIL + Label(place.station, place.number) == "rail:MTR-PLATFORM-" + place.station + "-" + place.number
  {
    assert "rail:" + "MTR-PLATFORM-" == "rail:MTR-PLATFORM-";
  }

  lemma RowIsNamed(b: Binding, r: Row, q: Row, used: set<string>, places: Places, write: real -> string)
    requires BindsRow(b, r, used, places) && q == BoundRow(r, used, places, write)
    requires var place := places(r).value; r[StopId] == Label(place.station, place.number)
    ensures StopId in TaggedRow(RAIL, q) && TaggedRow(RAIL, q)[StopId] == b.stop
    ensures HasPlace(TaggedRow(RAIL, q), b, write)
  {
    TaggedPlace(r, places(r).value, write);
    TaggedLabel(places(r).value);
  }

  lemma PlacedHasLabel(rail: Feed, sources: Sources, r: Row)
    requires Placing(rail, sources)(r).Ok?
    ensures var place := Placing(rail, sources)(r).value;
      StopId in r && r[StopId] == Label(place.station, place.number)
  {
    var place := Placing(rail, sources)(r).value;
    ParsedIff(r[StopId], place.station, place.number);
  }

  /** Every binding names a stop of the namespaced feed, at the place written there. */
  lemma BindingsNameStops(rail: Feed, sources: Sources, bound: Feed, bindings: seq<Binding>, b: Binding)
    requires Stops in rail && IsBinding(rail, sources, Ok((bound, bindings))) && b in bindings
    ensures NamesStop(b, Namespaced(bound, RAIL), sources.write)
  {
    var used, stops, places := UsedStops(rail), rail[Stops], Placing(rail, sources);
    BindingsOfRows(stops, used, places);
    var r :| r in stops && BindsRow(b, r, used, places);
    var i :| 0 <= i < |stops| && stops[i] == r;
    PlacedHasLabel(rail, sources, r);
    RowIsNamed(b, r, bound[Stops][i], used, places, sources.write);
    assert Namespaced(bound, RAIL)[Stops][i] in Rows(Namespaced(bound, RAIL), Stops);
  }

  lemma AllMet(used: set<string>, ids: set<string>)
    requires |used * ids| == |used|
    ensures used <= ids
  {
    assert used == used * ids + (used - ids);
    assert used - ids == {};
  }

  lemma BoundStops(rows: seq<Row>, used: set<string>, places: Places, id: string)
    requires used <= Ids(rows, StopId) && forall r :: r in rows ==> !Stuck(r, used, places)
    ensures id in used <==> exists b :: b in BindingsOf(rows, used, places) && b.stop == RAIL + id
  {
    BindingsOfRows(rows, used, places);
    if id in used {
      var r :| r in rows && StopId in r && r[StopId] == id;
      assert BindsRow(Binding(RAIL + id, places(r).value.spot, places(r).value.station), r, used, places);
    }
    if b :| b in BindingsOf(rows, used, places) && b.stop == RAIL + id {
      var r :| r in rows && BindsRow(b, r, used, places);
      assert b.stop[|RAIL|..] == r[StopId] == id;
    }
  }

  /** Some trip of a heavy rail line calls at the stop. */
  ghost predicate Served(rail: Feed, id: string) {
    exists r :: r in Rows(rail, StopTimes) && StopId in r && r[StopId] == id && TripId in r && "MTR-" <= r[TripId]
  }

  /** Every stop at which a heavy rail trip calls has exactly one binding, and no other stop has one. */
  lemma EveryUsedStopBoundOnce(rail: Feed, sources: Sources, bound: Feed, bindings: seq<Binding>)
    requires Keyed(rail, Stops, StopId) && IsBinding(rail, sources, Ok((bound, bindings)))
    ensures OnePerStop(bindings)
    ensures forall id :: Served(rail, id) <==> exists b :: b in bindings && b.stop == "rail:" + id
  {
    var used, stops, places := UsedStops(rail), rail[Stops], Placing(rail, sources);
    BindingsDistinct(stops, used, places);
    CountIsSize(stops, used);
    AllMet(used, Ids(stops, StopId));
    forall id ensures Served(rail, id) <==> exists b :: b in bindings && b.stop == "rail:" + id {
      BoundStops(stops, used, places, id);
      assert Served(rail, id) <==> id in used;
    }
  }

  // ----- Binding again -----

  lemma {:induction false} SameCount(rows: seq<Row>, bound: seq<Row>, used: set<string>)
    requires |rows| == |bound| && forall i :: 0 <= i < |rows| ==> (IsUsed(rows[i], used) <==> IsUsed(bound[i], used))
    ensures CountUsed(rows, used) == CountUsed(bound, used)
  {
    if rows != [] { SameCount(rows[..|rows| - 1], bound[..|bound| - 1], used); }
  }

  /** A row that has been bound is bound to the place where it is. */
  ghost predicate Settled(r: Row, used: set<string>, places: Places, write: real -> string) {
    !Stuck(r, used, places) && BoundRow(r, used, places, write) == r
  }

  lemma BoundRowSettles(trips: seq<Row>, stopTimes: seq<Row>, sources: Sources, r: Row, used: set<string>,
                        places: Places)
    requires ReadsBack(sources) && OffPoles(sources)
    requires forall q :: places(q) == PlaceIn(trips, stopTimes, sources, q)
    requires !Stuck(r, used, places)
    ensures Settled(BoundRow(r, used, places, sources.write), used, places, sources.write)
    ensures IsUsed(BoundRow(r, used, places, sources.write), used) <==> IsUsed(r, used)
  {
    if IsUsed(r, used) {
      var place := places(r).value;
      PlacedStays(sources, LinesAt(trips, stopTimes, r[StopId]), r, place);
      assert Placed(r, place, sources.write)[StopId] == r[StopId];
    }
  }

  /** The feed that binding leaves is the one that binding it again leaves. */
  lemma BindAgain(rail: Feed, sources: Sources, bound: Feed, bindings: seq<Binding>) returns (again: seq<Binding>)
    requires ReadsBack(sources) && OffPoles(sources)
    requires Stops in rail && IsBinding(rail, sources, Ok((bound, bindings)))
    ensures Stops in bound && IsBinding(bound, sources, Ok((bound, again)))
  {
    var used, rows, stops := UsedStops(rail), rail[Stops], bound[Stops];
    var before, places := Placing(rail, sources), Placing(bound, sources);
    var trips, stopTimes := Rows(rail, Trips), Rows(rail, StopTimes);
    assert Rows(bound, Trips) == trips && Rows(bound, StopTimes) == stopTimes;
    forall i | 0 <= i < |rows|
      ensures Settled(stops[i], used, places, sources.write) && (IsUsed(stops[i], used) <==> IsUsed(rows[i], used))
    {
      assert rows[i] in rows && before(rows[i]) == places(rows[i]);
      BoundRowSettles(trips, stopTimes, sources, rows[i], used, places);
    }
    SameCount(rows, stops, used);
    forall r | r in stops ensures !Stuck(r, used, places) {
      var i :| 0 <= i < |stops| && stops[i] == r;
    }
    again := BindingsOf(stops, used, places);
    assert RowsBound(stops, stops, used, places, sources.write);
    assert bound == bound[Stops := stops];
  }

  // ----- Binding changes no identifier -----

  ghost predicate SameIdentifiers(r: Row, q: Row) {
    forall c: Column {:trigger c in q} :: c.IsId() ==> (c in r <==> c in q) && (c in r ==> r[c] == q[c])
  }

  /** The feeds differ only outside the identifiers of stops. */
  ghost predicate Rebound(rail: Feed, bound: Feed) {
    && Stops in rail && Stops in bound && bound == rail[Stops := bound[Stops]]
    && |bound[Stops]| == |rail[Stops]|
    && forall i {:trigger bound[Stops][i]} :: 0 <= i < |rail[Stops]| ==>
         SameIdentifiers(rail[Stops][i], bound[Stops][i])
  }

  lemma BoundIsRebound(rail: Feed, bound: Feed, used: set<string>, places: Places, write: real -> string)
    requires Stops in rail && Stops in bound && bound == rail[Stops := bound[Stops]]
    requires RowsBound(rail[Stops], bound[Stops], used, places, write)
    ensures Rebound(rail, bound)
  {}

  lemma SameIds(a: seq<Row>, b: seq<Row>, c: Column)
    requires |a| == |b| && c.IsId() && forall i {:trigger b[i]} :: 0 <= i < |a| ==> SameIdentifiers(a[i], b[i])
    ensures Ids(a, c) == Ids(b, c)
    ensures AllHave(a, c) <==> AllHave(b, c)
    ensures AllHave(a, c) ==> Values(a, c) == Values(b, c)
  {
    forall v | v in Ids(a, c) ensures v in Ids(b, c) {
      var r :| r in a && c in r && r[c] == v;
      var i :| 0 <= i < |a| && a[i] == r;
      assert b[i] in b && c in b[i];
    }
    forall v | v in Ids(b, c) ensures v in Ids(a, c) {
      var r :| r in b && c in r && r[c] == v;
      var i :| 0 <= i < |b| && b[i] == r;
      assert a[i] in a;
    }
    if AllHave(a, c) {
      forall r | r in b ensures c in r {
        var i :| 0 <= i < |b| && b[i] == r;
        assert a[i] in a;
      }
    }
    if AllHave(b, c) {
      forall r | r in a ensures c in r {
        var i :| 0 <= i < |a| && a[i] == r;
        assert b[i] in b && c in b[i];
      }
    }
    if AllHave(a, c) {
      forall i | 0 <= i < |a| ensures Values(a, c)[i] == Values(b, c)[i] {
        assert a[i] in a && b[i] in b && c in b[i];
      }
    }
  }

  /** Every identifier column of every table holds the same identifiers. */
  lemma ReboundIds(rail: Feed, bound: Feed, t: Table, c: Column)
    requires Rebound(rail, bound) && c.IsId()
    ensures Ids(Rows(bound, t), c) == Ids(Rows(rail, t), c)
    ensures Keyed(bound, t, c) <==> Keyed(rail, t, c)
  {
    if t == Stops { SameIds(rail[Stops], bound[Stops], c); }
  }

  lemma ReboundParents(rail: Feed, bound: Feed)
    requires Rebound(rail, bound)
    ensures (forall r :: r in Rows(bound, Stops) ==> SoundParent(bound, r))
       <==> (forall r :: r in Rows(rail, Stops) ==> SoundParent(rail, r))
  {
    var a, b := rail[Stops], bound[Stops];
    ReboundIds(rail, bound, Stops, StopId);
    forall i | 0 <= i < |a| ensures SoundParent(bound, b[i]) <==> SoundParent(rail, a[i]) {
      assert ParentStation in a[i] <==> ParentStation in b[i];
    }
    if forall r :: r in b ==> SoundParent(bound, r) {
      forall r | r in a ensures SoundParent(rail, r) {
        var i :| 0 <= i < |a| && a[i] == r;
        assert b[i] in b;
      }
    }
    if forall r :: r in a ==> SoundParent(rail, r) {
      forall r | r in b ensures SoundParent(bound, r) {
        var i :| 0 <= i < |b| && b[i] == r;
        assert a[i] in a;
      }
    }
  }

  lemma ReboundReferences(rail: Feed, bound: Feed, seconds: Reader)
    requires Rebound(rail, bound)
    ensures forall r :: SoundTrip(bound, r) <==> SoundTrip(rail, r)
    ensures forall r :: SoundStopTime(bound, r) <==> SoundStopTime(rail, r)
    ensures forall r :: SoundFrequency(bound, seconds, r) <==> SoundFrequency(rail, seconds, r)
  {
    ReboundIds(rail, bound, Stops, StopId);
  }

  /** Binding a feed leaves it valid or invalid as it was, with the same empty keys. */
  lemma BindingKeepsValidity(rail: Feed, bound: Feed, seconds: Reader)
    requires Rebound(rail, bound)
    ensures ValidFeed(bound, seconds) <==> ValidFeed(rail, seconds)
    ensures forall surface :: SharesEmptyKey(surface, bound) <==> SharesEmptyKey(surface, rail)
  {
    ReboundIds(rail, bound, Stops, StopId);
    ReboundIds(rail, bound, Trips, TripId);
    ReboundIds(rail, bound, Routes, RouteId);
    ReboundParents(rail, bound);
    ReboundReferences(rail, bound, seconds);
  }
}
