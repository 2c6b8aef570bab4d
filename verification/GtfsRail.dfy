/** The rail subset of a feed: heavy and light rail routes with everything they refer to, and when cutting a valid feed
    down leaves a valid feed. */
module GtfsRail {
  import opened Basics
  import opened Gtfs

  /** The identifiers that decide which rows stay. */
  datatype Kept = Kept(
    routes: set<string>, trips: set<string>, services: set<string>, shapes: set<string>,
    agencies: set<string>, stops: set<string>, levels: set<string>)

  predicate RailAgency(r: Row) { AgencyId in r && r[AgencyId] in {"MTRR", "LR"} }

  predicate RailStop(id: string) { "MTR-" <= id || "LR" <= id }

  function Where(rows: seq<Row>, keep: Row -> bool): (kept: seq<Row>)
    ensures forall r :: r in kept <==> r in rows && keep(r)
  {
    if rows == [] then []
    else
      assert rows == [rows[0]] + rows[1..];
      (if keep(rows[0]) then [rows[0]] else []) + Where(rows[1..], keep)
  }

  /** Values of one column in the rows whose other column names one of the given identifiers. */
  function IdsWhere(rows: seq<Row>, c: Column, ref: Column, ids: set<string>): set<string> {
    set r | r in rows && Names(r, ref, ids) && c in r :: r[c]
  }

  function RailRoutes(feed: Feed): set<string> {
    set r | r in Rows(feed, Routes) && RailAgency(r) && RouteId in r :: r[RouteId]
  }

  function RailTrips(feed: Feed): set<string> { IdsWhere(Rows(feed, Trips), TripId, RouteId, RailRoutes(feed)) }

  function PrefixedStops(feed: Feed): set<string> {
    set r | r in Rows(feed, Stops) && StopId in r && RailStop(r[StopId]) :: r[StopId]
  }

  function RailStops(feed: Feed, trips: set<string>): set<string> {
    IdsWhere(Rows(feed, StopTimes), StopId, TripId, trips) + PrefixedStops(feed)
  }

  function KeptFrom(feed: Feed, routes: set<string>, trips: set<string>, stops: set<string>): Kept {
    Kept(routes, trips,
      IdsWhere(Rows(feed, Trips), ServiceId, TripId, trips),
      IdsWhere(Rows(feed, Trips), ShapeId, TripId, trips),
      IdsWhere(Rows(feed, Routes), AgencyId, RouteId, routes),
      stops,
      IdsWhere(Rows(feed, Stops), LevelId, StopId, stops))
  }

  function KeptOf(feed: Feed): Kept {
    KeptFrom(feed, RailRoutes(feed), RailTrips(feed), RailStops(feed, RailTrips(feed)))
  }

  /** Absent and empty cells pass; others must name a kept identifier. */
  predicate EmptyOrNames(r: Row, c: Column, ids: set<string>) { Filled(r, c) ==> r[c] in ids }

  predicate Keeps(kept: Kept, t: Table, r: Row) {
    match t
    case Routes => Names(r, RouteId, kept.routes)
    case Trips => Names(r, TripId, kept.trips)
    case StopTimes => Names(r, TripId, kept.trips)
    case Frequencies => Names(r, TripId, kept.trips)
    case Calendar => Names(r, ServiceId, kept.services)
    case CalendarDates => Names(r, ServiceId, kept.services)
    case Shapes => Names(r, ShapeId, kept.shapes)
    case Agency => Names(r, AgencyId, kept.agencies)
    case Stops => Names(r, StopId, kept.stops)
    case Levels => Names(r, LevelId, kept.levels)
    case Transfers =>
      && Names(r, FromStopId, kept.stops) && Names(r, ToStopId, kept.stops)
      && EmptyOrNames(r, FromRouteId, kept.routes) && EmptyOrNames(r, ToRouteId, kept.routes)
      && EmptyOrNames(r, FromTripId, kept.trips) && EmptyOrNames(r, ToTripId, kept.trips)
    case Pathways => Names(r, FromStopId, kept.stops) && Names(r, ToStopId, kept.stops)
  }

  function KeepTest(kept: Kept, t: Table): Row -> bool { r => Keeps(kept, t, r) }

  /** Every column that the subset asks of a row is there; otherwise it raises KeyError. */
  predicate Subscriptable(feed: Feed) {
    var kept := KeptOf(feed);
    && {Routes, Trips, StopTimes, Stops} <= feed.Keys
    && AllHave(feed[Routes], RouteId)
    && (forall r :: r in feed[Routes] && Names(r, RouteId, kept.routes) ==> AgencyId in r)
    && AllHave(feed[Trips], RouteId) && AllHave(feed[Trips], TripId)
    && (forall r :: r in feed[Trips] && Names(r, TripId, kept.trips) ==> ServiceId in r)
    && AllHave(feed[StopTimes], TripId)
    && (forall r :: r in feed[StopTimes] && Names(r, TripId, kept.trips) ==> StopId in r)
    && AllHave(feed[Stops], StopId)
    && AllHave(Rows(feed, Frequencies), TripId)
    && AllHave(Rows(feed, Calendar), ServiceId) && AllHave(Rows(feed, CalendarDates), ServiceId)
    && AllHave(Rows(feed, Shapes), ShapeId) && AllHave(Rows(feed, Agency), AgencyId)
    && AllHave(Rows(feed, Levels), LevelId) && AllHave(Rows(feed, Pathways), FromStopId)
    && forall r :: r in Rows(feed, Pathways) && Names(r, FromStopId, kept.stops) ==> ToStopId in r
  }

  function Subset(feed: Feed, kept: Kept): Feed {
    map t | t in feed :: Where(feed[t], KeepTest(kept, t))
  }

  /** The subset, unless some row lacks a column that is asked of it. */
  function RailSubset(feed: Feed): Result<Feed, Fault> {
    if Subscriptable(feed) then Ok(Subset(feed, KeptOf(feed))) else Err(KeyError)
  }

  // ----- The subset keeps rows, in order, and only rows -----

  lemma {:induction false} WhereValues(rows: seq<Row>, keep: Row -> bool, c: Column)
    requires AllHave(rows, c) && Distinct(Values(rows, c))
    ensures AllHave(Where(rows, keep), c) && Distinct(Values(Where(rows, keep), c))
    ensures forall v :: v in Values(Where(rows, keep), c) ==> v in Values(rows, c)
  {
    if rows != [] {
      var rest, all := rows[1..], Values(rows, c);
      assert rows == [rows[0]] + rest;
      assert all == [rows[0][c]] + Values(rest, c);
      assert Distinct(Values(rest, c)) && all[0] !in Values(rest, c) by {
        forall i, j | 0 <= i < j < |rest| ensures Values(rest, c)[i] != Values(rest, c)[j] {
          assert all[i + 1] != all[j + 1];
        }
        forall i | 0 <= i < |rest| ensures Values(rest, c)[i] != all[0] {
          assert all[0] != all[i + 1];
        }
      }
      WhereValues(rest, keep, c);
      if keep(rows[0]) {
        assert Where(rows, keep) == [rows[0]] + Where(rest, keep);
        assert Where(rows, keep)[1..] == Where(rest, keep);
      } else {
        assert Where(rows, keep) == Where(rest, keep);
      }
    }
  }

  lemma SubsetKeyed(feed: Feed, kept: Kept, t: Table, c: Column)
    requires Keyed(feed, t, c)
    ensures Keyed(Subset(feed, kept), t, c)
  {
    WhereValues(feed[t], KeepTest(kept, t), c);
  }

  // ----- References -----

  lemma SameKeySameRow(feed: Feed, t: Table, c: Column, r: Row, s: Row)
    requires Keyed(feed, t, c) && r in feed[t] && s in feed[t] && r[c] == s[c]
    ensures r == s
  {
    var i :| 0 <= i < |feed[t]| && feed[t][i] == r;
    var j :| 0 <= j < |feed[t]| && feed[t][j] == s;
    assert Values(feed[t], c)[i] == Values(feed[t], c)[j];
  }

  /** A kept trip runs on a kept route. */
  lemma KeptTripsRunOnKeptRoutes(feed: Feed, seconds: Reader, r: Row)
    requires ValidFeed(feed, seconds) && r in Rows(feed, Trips) && Names(r, TripId, RailTrips(feed))
    ensures Names(r, RouteId, RailRoutes(feed))
  {
    var s :| s in Rows(feed, Trips) && Names(s, RouteId, RailRoutes(feed)) && TripId in s && s[TripId] == r[TripId];
    SameKeySameRow(feed, Trips, TripId, r, s);
  }

  /** A target of the whole feed that the filter keeps is a target of the subset. */
  lemma TargetKept(feed: Feed, kept: Kept, r: Row, c: Column, t: Table, d: Column)
    requires Names(r, c, Ids(Rows(feed, t), d))
    requires forall s :: s in Rows(feed, t) && d in s && s[d] == r[c] ==> Keeps(kept, t, s)
    ensures Names(r, c, Ids(Rows(Subset(feed, kept), t), d))
  {
    var s :| s in Rows(feed, t) && d in s && s[d] == r[c];
    assert s in Rows(Subset(feed, kept), t);
  }

  lemma TripStillSound(feed: Feed, kept: Kept, r: Row)
    requires SoundTrip(feed, r) && Names(r, RouteId, kept.routes) && Names(r, ServiceId, kept.services)
    ensures SoundTrip(Subset(feed, kept), r)
  {
    TargetKept(feed, kept, r, RouteId, Routes, RouteId);
    if Names(r, ServiceId, Ids(Rows(feed, Calendar), ServiceId)) {
      TargetKept(feed, kept, r, ServiceId, Calendar, ServiceId);
    } else {
      TargetKept(feed, kept, r, ServiceId, CalendarDates, ServiceId);
    }
  }

  lemma KeptTripRefersToKept(feed: Feed, seconds: Reader, r: Row)
    requires ValidFeed(feed, seconds) && r in Rows(feed, Trips) && Keeps(KeptOf(feed), Trips, r)
    ensures SoundTrip(feed, r)
    ensures Names(r, RouteId, KeptOf(feed).routes) && Names(r, ServiceId, KeptOf(feed).services)
  {
    assert SoundTrip(feed, r);
    KeptTripsRunOnKeptRoutes(feed, seconds, r);
  }

  lemma StopTimeStillSound(feed: Feed, kept: Kept, r: Row)
    requires SoundStopTime(feed, r) && Names(r, StopId, kept.stops) && Names(r, TripId, kept.trips)
    ensures SoundStopTime(Subset(feed, kept), r)
  {
    TargetKept(feed, kept, r, StopId, Stops, StopId);
    TargetKept(feed, kept, r, TripId, Trips, TripId);
  }

  lemma KeptStopTimeRefersToKept(feed: Feed, seconds: Reader, r: Row)
    requires ValidFeed(feed, seconds) && r in Rows(feed, StopTimes) && Keeps(KeptOf(feed), StopTimes, r)
    ensures SoundStopTime(feed, r)
    ensures Names(r, StopId, KeptOf(feed).stops) && Names(r, TripId, KeptOf(feed).trips)
  {
    assert SoundStopTime(feed, r);
    assert r[StopId] in IdsWhere(Rows(feed, StopTimes), StopId, TripId, RailTrips(feed));
  }

  lemma FrequencyStillSound(feed: Feed, seconds: Reader, r: Row)
    requires ValidFeed(feed, seconds) && r in Rows(feed, Frequencies) && Keeps(KeptOf(feed), Frequencies, r)
    ensures SoundFrequency(Subset(feed, KeptOf(feed)), seconds, r)
  {
    assert SoundFrequency(feed, seconds, r);
    TargetKept(feed, KeptOf(feed), r, TripId, Trips, TripId);
  }

  /** Every stop that stays and names a parent names one that stays. */
  ghost predicate ParentsStay(feed: Feed) {
    forall r :: r in Rows(feed, Stops) && Names(r, StopId, KeptOf(feed).stops) ==>
      EmptyOrNames(r, ParentStation, KeptOf(feed).stops)
  }

  lemma SubsetReferences(feed: Feed, seconds: Reader)
    requires ValidFeed(feed, seconds)
    ensures var sub := Subset(feed, KeptOf(feed));
      && (forall r :: r in Rows(sub, Trips) ==> SoundTrip(sub, r))
      && (forall r :: r in Rows(sub, StopTimes) ==> SoundStopTime(sub, r))
      && (forall r :: r in Rows(sub, Frequencies) ==> SoundFrequency(sub, seconds, r))
      && ((forall r :: r in Rows(sub, Stops) ==> SoundParent(sub, r)) <==> ParentsStay(feed))
  {
    var kept := KeptOf(feed);
    var sub := Subset(feed, kept);
    forall r | r in Rows(sub, Trips) ensures SoundTrip(sub, r) {
      KeptTripRefersToKept(feed, seconds, r);
      TripStillSound(feed, kept, r);
    }
    forall r | r in Rows(sub, StopTimes) ensures SoundStopTime(sub, r) {
      KeptStopTimeRefersToKept(feed, seconds, r);
      StopTimeStillSound(feed, kept, r);
    }
    forall r | r in Rows(sub, Frequencies) ensures SoundFrequency(sub, seconds, r) {
      FrequencyStillSound(feed, seconds, r);
    }
    forall r | r in Rows(feed, Stops)
      ensures SoundParent(sub, r) <==> EmptyOrNames(r, ParentStation, kept.stops)
    {
    }
  }

  lemma SubsetSound(feed: Feed, seconds: Reader)
    requires ValidFeed(feed, seconds)
    ensures SoundRows(Subset(feed, KeptOf(feed)), seconds) <==> ParentsStay(feed)
  {
    SubsetReferences(feed, seconds);
  }

  /** A valid feed cut down to rail is valid exactly when every kept stop keeps its parent station. */
  lemma SubsetValidIff(feed: Feed, seconds: Reader)
    requires ValidFeed(feed, seconds) && RailSubset(feed).Ok?
    ensures ValidFeed(RailSubset(feed).value, seconds) <==> ParentsStay(feed)
  {
    var kept := KeptOf(feed);
    SubsetSound(feed, seconds);
    SubsetKeyed(feed, kept, Stops, StopId);
    SubsetKeyed(feed, kept, Trips, TripId);
    SubsetKeyed(feed, kept, Routes, RouteId);
  }

  /** One stop below one station, and no service. */
  function OrphanFeed(child: Row, station: Row): Feed {
    map[Stops := [child, station], Trips := [], Routes := [], StopTimes := []]
  }

  predicate ChildOf(child: Row, station: Row) {
    && Filled(station, StopId) && ParentStation !in station
    && StopId in child && Filled(child, ParentStation)
    && child[ParentStation] == station[StopId] != child[StopId]
  }

  lemma OrphanFeedKept(child: Row, station: Row)
    requires ChildOf(child, station) && RailStop(child[StopId]) && !RailStop(station[StopId])
    ensures Subscriptable(OrphanFeed(child, station)) && !ParentsStay(OrphanFeed(child, station))
  {
    var feed := OrphanFeed(child, station);
    assert child in Rows(feed, Stops);
    assert child[StopId] in RailStops(feed, RailTrips(feed));
    assert station[StopId] !in RailStops(feed, RailTrips(feed)) by {
      forall r | r in Rows(feed, Stops) ensures r == child || r == station {}
    }
  }

  /** A rail stop below a station whose identifier has no rail prefix loses its parent. */
  lemma ParentCanBeDropped(child: Row, station: Row, seconds: Reader)
    requires ChildOf(child, station) && RailStop(child[StopId]) && !RailStop(station[StopId])
    ensures ValidFeed(OrphanFeed(child, station), seconds) && RailSubset(OrphanFeed(child, station)).Ok?
    ensures !ValidFeed(RailSubset(OrphanFeed(child, station)).value, seconds)
  {
    OrphanFeedKept(child, station);
    SubsetValidIff(OrphanFeed(child, station), seconds);
  }

  /** In a valid feed the trips that stay are exactly those on a route of a rail agency. */
  lemma OnlyRailTrips(feed: Feed, seconds: Reader, r: Row, route: Row)
    requires ValidFeed(feed, seconds) && r in Rows(feed, Trips)
    requires route in Rows(feed, Routes) && route[RouteId] == r[RouteId]
    ensures Keeps(KeptOf(feed), Trips, r) <==> RailAgency(route)
  {
    assert SoundTrip(feed, r);
    if Keeps(KeptOf(feed), Trips, r) {
      KeptTripsRunOnKeptRoutes(feed, seconds, r);
      var s :| s in Rows(feed, Routes) && RailAgency(s) && RouteId in s && s[RouteId] == r[RouteId];
      SameKeySameRow(feed, Routes, RouteId, s, route);
    }
  }

  // ----- Cutting twice -----

  lemma SameRailRoutes(feed: Feed)
    ensures RailRoutes(Subset(feed, KeptOf(feed))) == RailRoutes(feed)
  {
  }

  lemma SameRailTrips(feed: Feed)
    ensures RailTrips(Subset(feed, KeptOf(feed))) == RailTrips(feed)
  {
    SameRailRoutes(feed);
  }

  lemma SameRailStops(feed: Feed)
    ensures RailStops(Subset(feed, KeptOf(feed)), RailTrips(feed)) == RailStops(feed, RailTrips(feed))
  {
  }

  lemma SameKeptFrom(feed: Feed, kept: Kept)
    requires kept == KeptFrom(feed, kept.routes, kept.trips, kept.stops)
    ensures KeptFrom(Subset(feed, kept), kept.routes, kept.trips, kept.stops) == kept
  {
  }

  lemma SameKept(feed: Feed)
    ensures KeptOf(Subset(feed, KeptOf(feed))) == KeptOf(feed)
  {
    SameRailRoutes(feed);
    SameRailTrips(feed);
    SameRailStops(feed);
    SameKeptFrom(feed, KeptOf(feed));
  }

  lemma {:induction false} WhereAll(rows: seq<Row>, keep: Row -> bool)
    requires forall r :: r in rows ==> keep(r)
    ensures Where(rows, keep) == rows
  {
    if rows != [] {
      assert rows == [rows[0]] + rows[1..];
      WhereAll(rows[1..], keep);
    }
  }

  lemma SubsetTwice(feed: Feed, kept: Kept)
    ensures Subset(Subset(feed, kept), kept) == Subset(feed, kept)
  {
    var sub := Subset(feed, kept);
    forall t | t in feed ensures Where(sub[t], KeepTest(kept, t)) == sub[t] {
      WhereAll(sub[t], KeepTest(kept, t));
    }
  }

  lemma StillSubscriptable(feed: Feed)
    requires Subscriptable(feed)
    ensures Subscriptable(Subset(feed, KeptOf(feed)))
  {
    var kept := KeptOf(feed);
    var sub := Subset(feed, kept);
    SameKept(feed);
    assert sub.Keys == feed.Keys;
    forall t, r | r in Rows(sub, t) ensures r in Rows(feed, t) {
    }
  }

  /** Cutting a rail subset down again changes nothing, on any feed. */
  lemma SubsetIdempotent(feed: Feed)
    requires RailSubset(feed).Ok?
    ensures RailSubset(RailSubset(feed).value) == RailSubset(feed)
  {
    SameKept(feed);
    StillSubscriptable(feed);
    SubsetTwice(feed, KeptOf(feed));
  }

  // ----- what the subset is, in its own terms -----

  /** Whether the row belongs to a rail subset, by the other rows of the subset: rail routes, their trips and what
      trips, routes and stops refer to, stops that are served or have a rail prefix, and links between these. */
  predicate Belongs(sub: Feed, t: Table, r: Row) {
    var stops := Ids(Rows(sub, Stops), StopId);
    var routes, trips := Ids(Rows(sub, Routes), RouteId), Ids(Rows(sub, Trips), TripId);
    match t
    case Routes => AgencyId in r && r[AgencyId] in {"MTRR", "LR"}
    case Trips => Names(r, RouteId, routes)
    case StopTimes => Names(r, TripId, trips)
    case Frequencies => Names(r, TripId, trips)
    case Calendar => Names(r, ServiceId, Ids(Rows(sub, Trips), ServiceId))
    case CalendarDates => Names(r, ServiceId, Ids(Rows(sub, Trips), ServiceId))
    case Shapes => Names(r, ShapeId, Ids(Rows(sub, Trips), ShapeId))
    case Agency => Names(r, AgencyId, Ids(Rows(sub, Routes), AgencyId))
    case Stops =>
      StopId in r && ("MTR-" <= r[StopId] || "LR" <= r[StopId] || r[StopId] in Ids(Rows(sub, StopTimes), StopId))
    case Levels => Names(r, LevelId, Ids(Rows(sub, Stops), LevelId))
    case Transfers =>
      && Names(r, FromStopId, stops) && Names(r, ToStopId, stops)
      && (Filled(r, FromRouteId) ==> r[FromRouteId] in routes) && (Filled(r, ToRouteId) ==> r[ToRouteId] in routes)
      && (Filled(r, FromTripId) ==> r[FromTripId] in trips) && (Filled(r, ToTripId) ==> r[ToTripId] in trips)
    case Pathways => Names(r, FromStopId, stops) && Names(r, ToStopId, stops)
  }

  lemma WhereIds(feed: Feed, kept: Kept, t: Table, c: Column, ref: Column, ids: set<string>)
    requires forall r :: r in Rows(feed, t) ==> (Keeps(kept, t, r) <==> Names(r, ref, ids))
    ensures IdsWhere(Rows(feed, t), c, ref, ids) == Ids(Rows(Subset(feed, kept), t), c)
  {
    var rows, kept' := Rows(feed, t), Rows(Subset(feed, kept), t);
    forall v | v in IdsWhere(rows, c, ref, ids) ensures v in Ids(kept', c) {
      var r :| r in rows && Names(r, ref, ids) && c in r && r[c] == v;
      assert r in kept';
    }
    forall v | v in Ids(kept', c) ensures v in IdsWhere(rows, c, ref, ids) {
      var r :| r in kept' && c in r && r[c] == v;
      assert r in rows;
    }
  }

  lemma OwnIds(rows: seq<Row>, c: Column, ids: set<string>)
    requires ids <= Ids(rows, c)
    ensures IdsWhere(rows, c, c, ids) == ids
  {
    forall v | v in ids ensures v in IdsWhere(rows, c, c, ids) {
      var r :| r in rows && c in r && r[c] == v;
    }
  }

  lemma RailStopsExist(feed: Feed, seconds: Reader)
    requires ValidFeed(feed, seconds)
    ensures KeptOf(feed).stops <= Ids(Rows(feed, Stops), StopId)
  {
    forall r | r in Rows(feed, StopTimes) ensures Names(r, StopId, Ids(Rows(feed, Stops), StopId)) {
      assert SoundStopTime(feed, r);
    }
  }

  /** The identifiers kept are those of the rows that stay. */
  lemma KeptKeys(feed: Feed, seconds: Reader)
    requires ValidFeed(feed, seconds)
    ensures var kept := KeptOf(feed); var sub := Subset(feed, kept);
      && kept.routes == Ids(Rows(sub, Routes), RouteId) && kept.trips == Ids(Rows(sub, Trips), TripId)
      && kept.stops == Ids(Rows(sub, Stops), StopId)
  {
    var kept := KeptOf(feed);
    RailStopsExist(feed, seconds);
    OwnIds(Rows(feed, Routes), RouteId, kept.routes);
    OwnIds(Rows(feed, Trips), TripId, kept.trips);
    OwnIds(Rows(feed, Stops), StopId, kept.stops);
    WhereIds(feed, kept, Routes, RouteId, RouteId, kept.routes);
    WhereIds(feed, kept, Trips, TripId, TripId, kept.trips);
    WhereIds(feed, kept, Stops, StopId, StopId, kept.stops);
  }

  /** What the kept rows refer to. */
  lemma KeptReferences(feed: Feed)
    ensures var kept := KeptOf(feed); var sub := Subset(feed, kept);
      && kept.services == Ids(Rows(sub, Trips), ServiceId) && kept.shapes == Ids(Rows(sub, Trips), ShapeId)
      && kept.agencies == Ids(Rows(sub, Routes), AgencyId) && kept.levels == Ids(Rows(sub, Stops), LevelId)
      && IdsWhere(Rows(feed, StopTimes), StopId, TripId, kept.trips) == Ids(Rows(sub, StopTimes), StopId)
  {
    var kept := KeptOf(feed);
    WhereIds(feed, kept, Trips, ServiceId, TripId, kept.trips);
    WhereIds(feed, kept, Trips, ShapeId, TripId, kept.trips);
    WhereIds(feed, kept, Routes, AgencyId, RouteId, kept.routes);
    WhereIds(feed, kept, Stops, LevelId, StopId, kept.stops);
    WhereIds(feed, kept, StopTimes, StopId, TripId, kept.trips);
  }

  lemma RailRouteIs(feed: Feed, seconds: Reader, r: Row)
    requires ValidFeed(feed, seconds) && r in Rows(feed, Routes)
    ensures Names(r, RouteId, RailRoutes(feed)) <==> AgencyId in r && r[AgencyId] in {"MTRR", "LR"}
  {
    if Names(r, RouteId, RailRoutes(feed)) {
      var s :| s in Rows(feed, Routes) && RailAgency(s) && RouteId in s && s[RouteId] == r[RouteId];
      SameKeySameRow(feed, Routes, RouteId, r, s);
    }
  }

  lemma RailTripIs(feed: Feed, seconds: Reader, r: Row)
    requires ValidFeed(feed, seconds) && r in Rows(feed, Trips)
    ensures Names(r, TripId, RailTrips(feed)) <==> Names(r, RouteId, RailRoutes(feed))
  {
    if Names(r, TripId, RailTrips(feed)) { KeptTripsRunOnKeptRoutes(feed, seconds, r); }
  }

  lemma RailStopIs(feed: Feed, r: Row)
    requires r in Rows(feed, Stops)
    ensures Names(r, StopId, KeptOf(feed).stops) <==>
      StopId in r && ("MTR-" <= r[StopId] || "LR" <= r[StopId]
                      || r[StopId] in IdsWhere(Rows(feed, StopTimes), StopId, TripId, KeptOf(feed).trips))
  {}

  /** Where the kept identifiers are those of the subset, the filter of the other tables is what belongs. */
  lemma FilterIsBelonging(kept: Kept, sub: Feed, t: Table, r: Row)
    requires kept.routes == Ids(Rows(sub, Routes), RouteId) && kept.trips == Ids(Rows(sub, Trips), TripId)
    requires kept.stops == Ids(Rows(sub, Stops), StopId) && kept.levels == Ids(Rows(sub, Stops), LevelId)
    requires kept.services == Ids(Rows(sub, Trips), ServiceId) && kept.shapes == Ids(Rows(sub, Trips), ShapeId)
    requires kept.agencies == Ids(Rows(sub, Routes), AgencyId)
    requires !t.Routes? && !t.Trips? && !t.Stops?
    ensures Keeps(kept, t, r) <==> Belongs(sub, t, r)
  {}

  lemma KeptRowBelongs(feed: Feed, seconds: Reader, t: Table, r: Row)
    requires ValidFeed(feed, seconds) && r in Rows(feed, t)
    ensures Keeps(KeptOf(feed), t, r) <==> Belongs(Subset(feed, KeptOf(feed)), t, r)
  {
    KeptKeys(feed, seconds);
    KeptReferences(feed);
    match t
    case Routes => RailRouteIs(feed, seconds, r);
    case Trips => RailTripIs(feed, seconds, r);
    case Stops => RailStopIs(feed, r);
    case _ => FilterIsBelonging(KeptOf(feed), Subset(feed, KeptOf(feed)), t, r);
  }

  /** The rail subset of a valid feed has exactly the rows that belong to it. */
  lemma SubsetIsWhatBelongs(feed: Feed, seconds: Reader, t: Table, r: Row)
    requires ValidFeed(feed, seconds) && RailSubset(feed).Ok?
    ensures var sub := RailSubset(feed).value;
      r in Rows(sub, t) <==> r in Rows(feed, t) && Belongs(sub, t, r)
  {
    if r in Rows(feed, t) { KeptRowBelongs(feed, seconds, t, r); }
  }
}
