/** Namespaces and merge: when two valid feeds, each under its own prefix, make one valid feed. */
module GtfsMerge {
  import opened Basics
  import opened Gtfs

  /** Non-empty identifiers get the prefix; empty cells stay empty. */
  function Tagged(prefix: string, cell: string): string {
    if cell == "" then "" else prefix + cell
  }

  function TaggedRow(prefix: string, r: Row): Row {
    map c | c in r :: if c.IsId() then Tagged(prefix, r[c]) else r[c]
  }

  function TaggedRows(prefix: string, rows: seq<Row>): (tagged: seq<Row>)
    ensures |tagged| == |rows|
    ensures forall i {:trigger tagged[i]} {:trigger rows[i]} ::
              0 <= i < |rows| ==> tagged[i] == TaggedRow(prefix, rows[i])
  {
    seq(|rows|, i requires 0 <= i < |rows| => TaggedRow(prefix, rows[i]))
  }

  function Namespaced(feed: Feed, prefix: string): Feed {
    map t | t in feed :: TaggedRows(prefix, feed[t])
  }

  /** Every table of either feed, the first feed's rows first. */
  function Merged(first: Feed, second: Feed): Feed {
    map t | t in TABLES :: Rows(first, t) + Rows(second, t)
  }

  /** Neither prefix starts the other, so no tagged cell of one is a tagged cell of the other. */
  predicate Apart(p: string, q: string) { !(p <= q) && !(q <= p) }

  lemma TaggedInjective(p: string, v: string, w: string)
    requires p != "" && Tagged(p, v) == Tagged(p, w)
    ensures v == w
  {
    assert (p + v)[|p|..] == v && (p + w)[|p|..] == w;
    assert |p + v| > 0 && |p + w| > 0;
  }

  lemma CommonPrefix(p: string, q: string, v: string, w: string)
    requires p + v == q + w
    ensures !Apart(p, q)
  {
    if |p| <= |q| {
      assert p == (p + v)[..|p|] == (q + w)[..|p|] == q[..|p|];
    } else {
      assert q == (q + w)[..|q|] == (p + v)[..|q|] == p[..|q|];
    }
  }

  lemma TaggedDisjoint(p: string, q: string, v: string, w: string)
    requires Apart(p, q)
    ensures Tagged(p, v) == Tagged(q, w) <==> v == "" && w == ""
  {
    if p + v == q + w { CommonPrefix(p, q, v, w); }
    assert p != "" && q != "" && |p + v| > 0 && |q + w| > 0;
  }

  /** Namespacing loses nothing: rows that differ still differ. */
  lemma RowsStayDistinct(p: string, r: Row, s: Row)
    requires p != "" && TaggedRow(p, r) == TaggedRow(p, s)
    ensures r == s
  {
    assert r.Keys == TaggedRow(p, r).Keys && s.Keys == TaggedRow(p, s).Keys;
    forall c | c in r ensures r[c] == s[c] {
      assert TaggedRow(p, r)[c] == TaggedRow(p, s)[c];
      if c.IsId() { TaggedInjective(p, r[c], s[c]); }
    }
  }

  const ID_COLUMNS := {AgencyId, StopId, ParentStation, RouteId, TripId, ServiceId, ShapeId, LevelId, PathwayId,
                       BlockId, ZoneId, FromStopId, ToStopId, FromRouteId, ToRouteId, FromTripId, ToTripId}

  lemma IdColumn(c: Column)
    ensures c in ID_COLUMNS <==> c.IsId()
  {}

  /** No identifier of either kind is shared by a row of the surface feed and one of the rail feed, whatever the tables
      and columns, shapes, blocks and zones among them; what is no identifier is as it was. */
  lemma IdentifiersApart(r: Row, s: Row, c: Column, d: Column)
    ensures c in ID_COLUMNS && d in ID_COLUMNS && c in r && d in s ==>
      (TaggedRow("td:", r)[c] == TaggedRow("rail:", s)[d] <==> r[c] == "" && s[d] == "")
    ensures c !in ID_COLUMNS && c in r ==> TaggedRow("td:", r)[c] == r[c]
    ensures d !in ID_COLUMNS && d in s ==> TaggedRow("rail:", s)[d] == s[d]
  {
    assert "td:"[0] == 't' && "rail:"[0] == 'r';
    IdColumn(c);
    IdColumn(d);
    if c.IsId() && d.IsId() && c in r && d in s { TaggedDisjoint("td:", "rail:", r[c], s[d]); }
  }

  // ----- The values of one identifier column -----

  function TaggedCells(p: string, cells: seq<string>): (tagged: seq<string>)
    ensures |tagged| == |cells|
    ensures forall i {:trigger tagged[i]} :: 0 <= i < |cells| ==> tagged[i] == Tagged(p, cells[i])
  {
    seq(|cells|, i requires 0 <= i < |cells| => Tagged(p, cells[i]))
  }

  lemma DistinctParts(a: seq<string>, b: seq<string>)
    requires Distinct(a) && Distinct(b)
    ensures Distinct(a + b) <==> forall i, j :: 0 <= i < |a| && 0 <= j < |b| ==> a[i] != b[j]
  {
    var s := a + b;
    if Distinct(s) {
      forall i, j | 0 <= i < |a| && 0 <= j < |b| ensures a[i] != b[j] {
        assert s[i] == a[i] && s[|a| + j] == b[j];
      }
    }
  }

  /** Identifiers of both feeds side by side repeat nothing unless both have the empty one. */
  lemma DistinctSum(p: string, q: string, v: seq<string>, w: seq<string>)
    requires Apart(p, q) && Distinct(v) && Distinct(w)
    ensures Distinct(TaggedCells(p, v) + TaggedCells(q, w)) <==> !("" in v && "" in w)
  {
    assert p != "" && q != "";
    var left, right := TaggedCells(p, v), TaggedCells(q, w);
    forall i, j | 0 <= i < j < |v| ensures left[i] != left[j] {
      if left[i] == left[j] { TaggedInjective(p, v[i], v[j]); }
    }
    forall i, j | 0 <= i < j < |w| ensures right[i] != right[j] {
      if right[i] == right[j] { TaggedInjective(q, w[i], w[j]); }
    }
    forall i, j | 0 <= i < |v| && 0 <= j < |w| ensures left[i] == right[j] <==> v[i] == "" && w[j] == "" {
      TaggedDisjoint(p, q, v[i], w[j]);
    }
    DistinctParts(left, right);
    if "" in v && "" in w {
      var i :| 0 <= i < |v| && v[i] == "";
      var j :| 0 <= j < |w| && w[j] == "";
      assert left[i] == right[j];
    }
  }

  /** The merged table of two namespaced feeds. */
  function Joint(a: Feed, p: string, b: Feed, q: string): Feed {
    Merged(Namespaced(a, p), Namespaced(b, q))
  }

  lemma JointRows(a: Feed, p: string, b: Feed, q: string, t: Table)
    ensures t in Joint(a, p, b, q)
    ensures Joint(a, p, b, q)[t] == TaggedRows(p, Rows(a, t)) + TaggedRows(q, Rows(b, t))
  {
    if t !in a { assert TaggedRows(p, []) == []; }
    if t !in b { assert TaggedRows(q, []) == []; }
  }

  ghost predicate HasEmpty(feed: Feed, t: Table, c: Column) { "" in Ids(Rows(feed, t), c) }

  lemma EmptyValue(rows: seq<Row>, c: Column)
    requires AllHave(rows, c)
    ensures "" in Ids(rows, c) <==> "" in Values(rows, c)
  {
    if "" in Values(rows, c) {
      var i :| 0 <= i < |rows| && Values(rows, c)[i] == "";
      assert rows[i] in rows;
    }
    if "" in Ids(rows, c) {
      var r :| r in rows && r[c] == "";
      var i :| 0 <= i < |rows| && rows[i] == r;
      assert Values(rows, c)[i] == "";
    }
  }

  lemma JointValues(p: string, a: seq<Row>, q: string, b: seq<Row>, c: Column)
    requires c.IsId() && AllHave(a, c) && AllHave(b, c)
    ensures AllHave(TaggedRows(p, a) + TaggedRows(q, b), c)
    ensures Values(TaggedRows(p, a) + TaggedRows(q, b), c)
            == TaggedCells(p, Values(a, c)) + TaggedCells(q, Values(b, c))
  {
  }

  lemma JointKeyedRows(p: string, a: seq<Row>, q: string, b: seq<Row>, c: Column)
    requires Apart(p, q) && c.IsId() && AllHave(a, c) && AllHave(b, c)
    requires Distinct(Values(a, c)) && Distinct(Values(b, c))
    ensures AllHave(TaggedRows(p, a) + TaggedRows(q, b), c)
    ensures Distinct(Values(TaggedRows(p, a) + TaggedRows(q, b), c)) <==> !("" in Ids(a, c) && "" in Ids(b, c))
  {
    JointValues(p, a, q, b, c);
    EmptyValue(a, c);
    EmptyValue(b, c);
    DistinctSum(p, q, Values(a, c), Values(b, c));
  }

  lemma MergedKeyed(a: Feed, p: string, b: Feed, q: string, merged: Feed, t: Table, c: Column)
    requires Apart(p, q) && c.IsId()
    requires Keyed(a, t, c) && Keyed(b, t, c)
    requires t in merged && merged[t] == TaggedRows(p, Rows(a, t)) + TaggedRows(q, Rows(b, t))
    ensures Keyed(merged, t, c) <==> !(HasEmpty(a, t, c) && HasEmpty(b, t, c))
  {
    JointKeyedRows(p, a[t], q, b[t], c);
  }

  lemma JointKeyed(a: Feed, p: string, b: Feed, q: string, t: Table, c: Column)
    requires Apart(p, q) && c.IsId()
    requires Keyed(a, t, c) && Keyed(b, t, c)
    ensures Keyed(Joint(a, p, b, q), t, c) <==> !(HasEmpty(a, t, c) && HasEmpty(b, t, c))
  {
    JointRows(a, p, b, q, t);
    MergedKeyed(a, p, b, q, Joint(a, p, b, q), t, c);
  }

  // ----- References -----

  /** One feed's part of the merged feed. */
  ghost predicate PartOf(a: Feed, p: string, merged: Feed) {
    forall t {:trigger Rows(merged, t)} :: forall r {:trigger TaggedRow(p, r)} ::
      r in Rows(a, t) ==> TaggedRow(p, r) in Rows(merged, t)
  }

  lemma PartsOfJoint(a: Feed, p: string, b: Feed, q: string)
    ensures PartOf(a, p, Joint(a, p, b, q)) && PartOf(b, q, Joint(a, p, b, q))
  {
    forall t, r | r in Rows(a, t) ensures TaggedRow(p, r) in Rows(Joint(a, p, b, q), t) {
      JointRows(a, p, b, q, t);
      var i :| 0 <= i < |Rows(a, t)| && Rows(a, t)[i] == r;
      assert TaggedRows(p, Rows(a, t))[i] == TaggedRow(p, r);
    }
    forall t, r | r in Rows(b, t) ensures TaggedRow(q, r) in Rows(Joint(a, p, b, q), t) {
      JointRows(a, p, b, q, t);
      var i :| 0 <= i < |Rows(b, t)| && Rows(b, t)[i] == r;
      assert TaggedRows(q, Rows(b, t))[i] == TaggedRow(q, r);
    }
  }

  /** A reference that finds its target in a feed still finds it after the merge. */
  lemma ReferenceKept(a: Feed, p: string, merged: Feed, r: Row, c: Column, t: Table, d: Column)
    requires PartOf(a, p, merged) && c.IsId() && d.IsId()
    requires Names(r, c, Ids(Rows(a, t), d))
    ensures Names(TaggedRow(p, r), c, Ids(Rows(merged, t), d))
  {
    var s :| s in Rows(a, t) && d in s && s[d] == r[c];
    assert TaggedRow(p, s) in Rows(merged, t);
    assert TaggedRow(p, s)[d] == TaggedRow(p, r)[c];
  }

  lemma TripKept(a: Feed, p: string, merged: Feed, r: Row)
    requires PartOf(a, p, merged) && SoundTrip(a, r)
    ensures SoundTrip(merged, TaggedRow(p, r))
  {
    ReferenceKept(a, p, merged, r, RouteId, Routes, RouteId);
    if Names(r, ServiceId, Ids(Rows(a, Calendar), ServiceId)) {
      ReferenceKept(a, p, merged, r, ServiceId, Calendar, ServiceId);
    } else {
      ReferenceKept(a, p, merged, r, ServiceId, CalendarDates, ServiceId);
    }
  }

  lemma StopTimeKept(a: Feed, p: string, merged: Feed, r: Row)
    requires PartOf(a, p, merged) && SoundStopTime(a, r)
    ensures SoundStopTime(merged, TaggedRow(p, r))
  {
    ReferenceKept(a, p, merged, r, StopId, Stops, StopId);
    ReferenceKept(a, p, merged, r, TripId, Trips, TripId);
  }

  lemma ParentKept(a: Feed, p: string, merged: Feed, r: Row)
    requires PartOf(a, p, merged) && SoundParent(a, r)
    ensures SoundParent(merged, TaggedRow(p, r))
  {
    if Filled(r, ParentStation) {
      ReferenceKept(a, p, merged, r, ParentStation, Stops, StopId);
    }
  }

  lemma FrequencyKept(a: Feed, p: string, merged: Feed, seconds: Reader, r: Row)
    requires PartOf(a, p, merged) && SoundFrequency(a, seconds, r)
    ensures SoundFrequency(merged, seconds, TaggedRow(p, r))
  {
    ReferenceKept(a, p, merged, r, TripId, Trips, TripId);
  }

  lemma SumOrigin(p: string, a: seq<Row>, q: string, b: seq<Row>, r: Row) returns (fromFirst: bool, s: Row)
    requires r in TaggedRows(p, a) + TaggedRows(q, b)
    ensures fromFirst ==> s in a && r == TaggedRow(p, s)
    ensures !fromFirst ==> s in b && r == TaggedRow(q, s)
  {
    var merged := TaggedRows(p, a) + TaggedRows(q, b);
    var i :| 0 <= i < |merged| && merged[i] == r;
    fromFirst := i < |a|;
    s := if fromFirst then a[i] else b[i - |a|];
  }

  /** Every row of the merged table comes from a row of one of the feeds. */
  lemma JointOrigin(a: Feed, p: string, b: Feed, q: string, t: Table, r: Row) returns (fromFirst: bool, s: Row)
    requires r in Rows(Joint(a, p, b, q), t)
    ensures fromFirst ==> s in Rows(a, t) && r == TaggedRow(p, s)
    ensures !fromFirst ==> s in Rows(b, t) && r == TaggedRow(q, s)
  {
    JointRows(a, p, b, q, t);
    fromFirst, s := SumOrigin(p, Rows(a, t), q, Rows(b, t), r);
  }

  lemma JointReferences(a: Feed, p: string, b: Feed, q: string, seconds: Reader)
    requires SoundRows(a, seconds) && SoundRows(b, seconds)
    ensures SoundRows(Joint(a, p, b, q), seconds)
  {
    var merged := Joint(a, p, b, q);
    PartsOfJoint(a, p, b, q);
    forall t, r | t in {Calendar, CalendarDates} && r in Rows(merged, t) ensures ServiceId in r {
      var fromFirst, s := JointOrigin(a, p, b, q, t, r);
    }
    forall r | r in Rows(merged, Trips) ensures SoundTrip(merged, r) {
      var fromFirst, s := JointOrigin(a, p, b, q, Trips, r);
      if fromFirst { TripKept(a, p, merged, s); } else { TripKept(b, q, merged, s); }
    }
    forall r | r in Rows(merged, StopTimes) ensures SoundStopTime(merged, r) {
      var fromFirst, s := JointOrigin(a, p, b, q, StopTimes, r);
      if fromFirst { StopTimeKept(a, p, merged, s); } else { StopTimeKept(b, q, merged, s); }
    }
    forall r | r in Rows(merged, Stops) ensures SoundParent(merged, r) {
      var fromFirst, s := JointOrigin(a, p, b, q, Stops, r);
      if fromFirst { ParentKept(a, p, merged, s); } else { ParentKept(b, q, merged, s); }
    }
    forall r | r in Rows(merged, Frequencies) ensures SoundFrequency(merged, seconds, r) {
      var fromFirst, s := JointOrigin(a, p, b, q, Frequencies, r);
      if fromFirst { FrequencyKept(a, p, merged, seconds, s); } else { FrequencyKept(b, q, merged, seconds, s); }
    }
  }

  /** Two valid feeds share an empty identifier in some key column. */
  ghost predicate SharesEmptyKey(a: Feed, b: Feed) {
    || (HasEmpty(a, Stops, StopId) && HasEmpty(b, Stops, StopId))
    || (HasEmpty(a, Trips, TripId) && HasEmpty(b, Trips, TripId))
    || (HasEmpty(a, Routes, RouteId) && HasEmpty(b, Routes, RouteId))
  }

  /** Valid feeds under prefixes of which neither starts the other merge into a valid feed, unless both use the empty
      string as key of the same table: the one identifier that namespacing leaves alone. */
  lemma MergeValidIff(a: Feed, p: string, b: Feed, q: string, seconds: Reader)
    requires Apart(p, q)
    requires ValidFeed(a, seconds) && ValidFeed(b, seconds)
    ensures ValidFeed(Joint(a, p, b, q), seconds) <==> !SharesEmptyKey(a, b)
  {
    JointReferences(a, p, b, q, seconds);
    JointKeyed(a, p, b, q, Stops, StopId);
    JointKeyed(a, p, b, q, Trips, TripId);
    JointKeyed(a, p, b, q, Routes, RouteId);
    JointRows(a, p, b, q, StopTimes);
  }

  lemma SurfaceAndRailMerge(surface: Feed, rail: Feed, seconds: Reader)
    requires ValidFeed(surface, seconds) && ValidFeed(rail, seconds)
    ensures ValidFeed(Merged(Namespaced(surface, "td:"), Namespaced(rail, "rail:")), seconds)
            <==> !SharesEmptyKey(surface, rail)
  {
    assert "td:"[0] == 't' && "rail:"[0] == 'r';
    MergeValidIff(surface, "td:", rail, "rail:", seconds);
  }

  /** A feed whose one stop has an empty identifier: valid alone, not twice. */
  function EmptyStopFeed(): Feed {
    map[Stops := [map[StopId := ""]], Trips := [], Routes := [], StopTimes := []]
  }

  lemma EmptyKeysCollide(seconds: Reader)
    ensures ValidFeed(EmptyStopFeed(), seconds)
    ensures !ValidFeed(Merged(Namespaced(EmptyStopFeed(), "td:"), Namespaced(EmptyStopFeed(), "rail:")), seconds)
  {
    var feed := EmptyStopFeed();
    assert map[StopId := ""] in Rows(feed, Stops);
    assert HasEmpty(feed, Stops, StopId);
    SurfaceAndRailMerge(feed, feed, seconds);
  }
}
