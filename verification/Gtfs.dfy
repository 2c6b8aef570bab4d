/** Transit feeds as tables of rows, and the validation of their keys and references. A row has a cell for each column
    of its header. */
module Gtfs {
  import opened Basics

  datatype Table =
    Agency | Stops | Routes | Trips | StopTimes | Calendar | CalendarDates
    | Frequencies | Shapes | Transfers | Levels | Pathways

  const TABLES := {Agency, Stops, Routes, Trips, StopTimes, Calendar, CalendarDates,
                   Frequencies, Shapes, Transfers, Levels, Pathways}

  /** The identifier columns by name, the headway, and every other column. */
  datatype Column =
    AgencyId | StopId | ParentStation | RouteId | TripId | ServiceId | ShapeId | LevelId | PathwayId
    | BlockId | ZoneId | FromStopId | ToStopId | FromRouteId | ToRouteId | FromTripId | ToTripId
    | HeadwaySecs | Other(name: string)
  {
    /** Membership in ID_FIELDS. */
    predicate IsId() { !HeadwaySecs? && !Other? }
  }

  type Row = map<Column, string>

  type Feed = map<Table, seq<Row>>

  /** int() of a cell; None where int() raises ValueError. */
  type Reader = string -> Option<int>

  function Rows(feed: Feed, t: Table): seq<Row> { if t in feed then feed[t] else [] }

  function Ids(rows: seq<Row>, c: Column): set<string> {
    set r | r in rows && c in r :: r[c]
  }

  /** The cell is there and names one of the given identifiers. */
  predicate Names(r: Row, c: Column, ids: set<string>) { c in r && r[c] in ids }

  predicate Filled(r: Row, c: Column) { c in r && r[c] != "" }

  predicate AllHave(rows: seq<Row>, c: Column) { forall r :: r in rows ==> c in r }

  /** One column of a table, row by row. */
  function Values(rows: seq<Row>, c: Column): (values: seq<string>)
    requires AllHave(rows, c)
    ensures |values| == |rows|
    ensures forall i {:trigger values[i]} :: 0 <= i < |rows| ==> values[i] == rows[i][c]
  {
    if rows == [] then []
    else
      assert rows[0] in rows;
      [rows[0][c]] + Values(rows[1..], c)
  }

  function Members(values: seq<string>): set<string> { set v | v in values }

  // ----- What a valid feed is -----

  /** The table is there, every row has the column, and no value occurs twice. */
  ghost predicate Keyed(feed: Feed, t: Table, c: Column) {
    t in feed && AllHave(feed[t], c) && Distinct(Values(feed[t], c))
  }

  function Services(feed: Feed): set<string> {
    Ids(Rows(feed, Calendar), ServiceId) + Ids(Rows(feed, CalendarDates), ServiceId)
  }

  predicate SoundTrip(feed: Feed, r: Row) {
    && Names(r, RouteId, Ids(Rows(feed, Routes), RouteId))
    && (Names(r, ServiceId, Ids(Rows(feed, Calendar), ServiceId))
        || Names(r, ServiceId, Ids(Rows(feed, CalendarDates), ServiceId)))
  }

  predicate SoundStopTime(feed: Feed, r: Row) {
    && Names(r, StopId, Ids(Rows(feed, Stops), StopId))
    && Names(r, TripId, Ids(Rows(feed, Trips), TripId))
  }

  predicate SoundParent(feed: Feed, r: Row) {
    ParentStation in r && r[ParentStation] != "" ==> Names(r, ParentStation, Ids(Rows(feed, Stops), StopId))
  }

  predicate SoundFrequency(feed: Feed, seconds: Reader, r: Row) {
    && Names(r, TripId, Ids(Rows(feed, Trips), TripId))
    && HeadwaySecs in r && seconds(r[HeadwaySecs]).Some? && seconds(r[HeadwaySecs]).value > 0
  }

  /** Everything that validation asks of a feed except that keys do not repeat. */
  ghost predicate SoundRows(feed: Feed, seconds: Reader) {
    && AllHave(Rows(feed, Calendar), ServiceId) && AllHave(Rows(feed, CalendarDates), ServiceId)
    && (forall r :: r in Rows(feed, Trips) ==> SoundTrip(feed, r))
    && (forall r :: r in Rows(feed, StopTimes) ==> SoundStopTime(feed, r))
    && (forall r :: r in Rows(feed, Stops) ==> SoundParent(feed, r))
    && forall r :: r in Rows(feed, Frequencies) ==> SoundFrequency(feed, seconds, r)
  }

  ghost predicate ValidFeed(feed: Feed, seconds: Reader) {
    && Keyed(feed, Stops, StopId) && Keyed(feed, Trips, TripId) && Keyed(feed, Routes, RouteId)
    && StopTimes in feed && SoundRows(feed, seconds)
  }

  // ----- The checking pass -----

  datatype Fault =
    KeyError | DuplicateId(key: Column) | MissingRouteOrCalendar(row: Row) | MissingStopOrTrip(row: Row)
    | MissingParent(row: Row) | InvalidFrequency(row: Row) | NotAnInteger(cell: string)

  function CheckTrip(feed: Feed, r: Row): Option<Fault> {
    if RouteId !in r then Some(KeyError)
    else if r[RouteId] !in Ids(Rows(feed, Routes), RouteId) then Some(MissingRouteOrCalendar(r))
    else if ServiceId !in r then Some(KeyError)
    else if r[ServiceId] !in Services(feed) then Some(MissingRouteOrCalendar(r))
    else None
  }

  function CheckStopTime(feed: Feed, r: Row): Option<Fault> {
    if StopId !in r then Some(KeyError)
    else if r[StopId] !in Ids(Rows(feed, Stops), StopId) then Some(MissingStopOrTrip(r))
    else if TripId !in r then Some(KeyError)
    else if r[TripId] !in Ids(Rows(feed, Trips), TripId) then Some(MissingStopOrTrip(r))
    else None
  }

  function CheckParent(feed: Feed, r: Row): Option<Fault> {
    if Filled(r, ParentStation) && r[ParentStation] !in Ids(Rows(feed, Stops), StopId) then Some(MissingParent(r))
    else None
  }

  function CheckFrequency(feed: Feed, seconds: Reader, r: Row): Option<Fault> {
    if TripId !in r then Some(KeyError)
    else if r[TripId] !in Ids(Rows(feed, Trips), TripId) then Some(InvalidFrequency(r))
    else if HeadwaySecs !in r then Some(KeyError)
    else
      match seconds(r[HeadwaySecs])
      case None => Some(NotAnInteger(r[HeadwaySecs]))
      case Some(n) => if n <= 0 then Some(InvalidFrequency(r)) else None
  }

  function CheckService(r: Row): Option<Fault> {
    if ServiceId !in r then Some(KeyError) else None
  }

  function TripCheck(feed: Feed): Row -> Option<Fault> { r => CheckTrip(feed, r) }

  function StopTimeCheck(feed: Feed): Row -> Option<Fault> { r => CheckStopTime(feed, r) }

  function ParentCheck(feed: Feed): Row -> Option<Fault> { r => CheckParent(feed, r) }

  function FrequencyCheck(feed: Feed, seconds: Reader): Row -> Option<Fault> { r => CheckFrequency(feed, seconds, r) }

  /** What the first failing row raises. */
  function FirstFault(rows: seq<Row>, check: Row -> Option<Fault>): (f: Option<Fault>)
    ensures f.None? <==> forall r :: r in rows ==> check(r).None?
  {
    if rows == [] then None
    else if check(rows[0]).Some? then check(rows[0])
    else
      assert rows == [rows[0]] + rows[1..];
      FirstFault(rows[1..], check)
  }

  function KeyFault(feed: Feed, t: Table, c: Column): Option<Fault> {
    if t !in feed || !AllHave(feed[t], c) then Some(KeyError)
    else if |Values(feed[t], c)| != |Members(Values(feed[t], c))| then Some(DuplicateId(c))
    else None
  }

  function OrElse(first: Option<Fault>, second: Option<Fault>): Option<Fault> {
    if first.Some? then first else second
  }

  /** The checks in the order in which they are made. */
  function Verdict(feed: Feed, seconds: Reader): Option<Fault> {
    OrElse(KeyFault(feed, Stops, StopId),
    OrElse(KeyFault(feed, Trips, TripId),
    OrElse(KeyFault(feed, Routes, RouteId),
    OrElse(FirstFault(Rows(feed, Calendar), CheckService),
    OrElse(FirstFault(Rows(feed, CalendarDates), CheckService),
    OrElse(FirstFault(Rows(feed, Trips), TripCheck(feed)),
    OrElse(if StopTimes in feed then None else Some(KeyError),
    OrElse(FirstFault(Rows(feed, StopTimes), StopTimeCheck(feed)),
    OrElse(FirstFault(Rows(feed, Stops), ParentCheck(feed)),
      FirstFault(Rows(feed, Frequencies), FrequencyCheck(feed, seconds)))))))))))
  }

  method Scan(rows: seq<Row>, check: Row -> Option<Fault>) returns (fault: Option<Fault>)
    ensures fault == FirstFault(rows, check)
  {
    var i := 0;
    while i < |rows|
      invariant 0 <= i <= |rows| && FirstFault(rows, check) == FirstFault(rows[i..], check)
    {
      fault := check(rows[i]);
      if fault.Some? { return; }
      assert rows[i..][1..] == rows[i + 1..];
      i := i + 1;
    }
    fault := None;
  }

  /** len(values) == len(set(values)) exactly when no value repeats. */
  lemma {:induction false} SetSize(s: seq<string>)
    ensures |Members(s)| <= |s|
    ensures |Members(s)| == |s| <==> Distinct(s)
  {
    if s == [] {
      assert Members(s) == {};
    } else {
      var front, v := s[..|s| - 1], s[|s| - 1];
      SetSize(front);
      assert s == front + [v];
      assert Members(s) == Members(front) + {v};
      assert Distinct(s) <==> Distinct(front) && v !in front by {
        if v in front {
          var i :| 0 <= i < |front| && front[i] == v;
          assert s[i] == s[|s| - 1];
        }
        if Distinct(s) {
          forall i, j | 0 <= i < j < |front| ensures front[i] != front[j] {
            assert s[i] != s[j];
          }
        }
      }
    }
  }

  lemma KeyFaultIffKeyed(feed: Feed, t: Table, c: Column)
    ensures KeyFault(feed, t, c).None? <==> Keyed(feed, t, c)
  {
    if t in feed && AllHave(feed[t], c) {
      SetSize(Values(feed[t], c));
    }
  }

  lemma TripsChecked(feed: Feed)
    ensures FirstFault(Rows(feed, Trips), TripCheck(feed)).None? <==>
            forall r :: r in Rows(feed, Trips) ==> SoundTrip(feed, r)
  {
    forall r ensures TripCheck(feed)(r).None? <==> SoundTrip(feed, r) {}
  }

  lemma StopTimesChecked(feed: Feed)
    ensures FirstFault(Rows(feed, StopTimes), StopTimeCheck(feed)).None? <==>
            forall r :: r in Rows(feed, StopTimes) ==> SoundStopTime(feed, r)
  {
    forall r ensures StopTimeCheck(feed)(r).None? <==> SoundStopTime(feed, r) {}
  }

  lemma ParentsChecked(feed: Feed)
    ensures FirstFault(Rows(feed, Stops), ParentCheck(feed)).None? <==>
            forall r :: r in Rows(feed, Stops) ==> SoundParent(feed, r)
  {
    forall r ensures ParentCheck(feed)(r).None? <==> SoundParent(feed, r) {}
  }

  lemma FrequenciesChecked(feed: Feed, seconds: Reader)
    ensures FirstFault(Rows(feed, Frequencies), FrequencyCheck(feed, seconds)).None? <==>
            forall r :: r in Rows(feed, Frequencies) ==> SoundFrequency(feed, seconds, r)
  {
    forall r ensures FrequencyCheck(feed, seconds)(r).None? <==> SoundFrequency(feed, seconds, r) {}
  }

  /** The pass raises nothing exactly for the valid feeds. */
  lemma AcceptsExactlyValid(feed: Feed, seconds: Reader)
    ensures Verdict(feed, seconds).None? <==> ValidFeed(feed, seconds)
  {
    KeyFaultIffKeyed(feed, Stops, StopId);
    KeyFaultIffKeyed(feed, Trips, TripId);
    KeyFaultIffKeyed(feed, Routes, RouteId);
    TripsChecked(feed);
    StopTimesChecked(feed);
    ParentsChecked(feed);
    FrequenciesChecked(feed, seconds);
  }

  /** Raises the first fault, or returns. */
  method Validate(feed: Feed, seconds: Reader) returns (fault: Option<Fault>)
    ensures fault == Verdict(feed, seconds)
    ensures fault.None? <==> ValidFeed(feed, seconds)
  {
    AcceptsExactlyValid(feed, seconds);
    fault := KeyFault(feed, Stops, StopId);
    if fault.Some? { return; }
    fault := KeyFault(feed, Trips, TripId);
    if fault.Some? { return; }
    fault := KeyFault(feed, Routes, RouteId);
    if fault.Some? { return; }
    fault := Scan(Rows(feed, Calendar), CheckService);
    if fault.Some? { return; }
    fault := Scan(Rows(feed, CalendarDates), CheckService);
    if fault.Some? { return; }
    fault := Scan(feed[Trips], TripCheck(feed));
    if fault.Some? { return; }
    if StopTimes !in feed { return Some(KeyError); }
    fault := Scan(feed[StopTimes], StopTimeCheck(feed));
    if fault.Some? { return; }
    fault := Scan(feed[Stops], ParentCheck(feed));
    if fault.Some? { return; }
    fault := Scan(Rows(feed, Frequencies), FrequencyCheck(feed, seconds));
  }
}
