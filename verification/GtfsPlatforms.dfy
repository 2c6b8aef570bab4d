/** The surveyed place of a platform stop: that of the numbered platform in the catalogue, or else of the closest
    platform joined to the same station and line, at most 250 metres from where the feed has it. */
module GtfsPlatforms {
  import opened Basics
  import opened Reals
  import opened Cells
  import opened Gtfs

  datatype Position = Position(lon: real, lat: real)

  datatype Spot = Spot(at: Position, z: real)

  /** A row of the platform join. */
  datatype Joined = Joined(venue: string, station: string, line: string, id: string, spot: Spot)

  /** A platform of the catalogue. */
  datatype Numbered = Numbered(venue: string, number: string, spot: Spot)

  /** The two surveys, how numbers are read and written, and the cosine of a latitude in degrees. */
  datatype Sources = Sources(joined: seq<Joined>, catalogue: seq<Numbered>, read: string -> Option<real>,
                             write: real -> string, cosine: real -> real)

  const LON := Other("stop_lon")
  const LAT := Other("stop_lat")
  const PLATFORM := Other("platform_code")

  const FARTHEST := 250.0

  // ----- Identifiers of platform stops -----

  const PREFIX := "MTR-PLATFORM-"

  function Label(station: string, number: string): string { "MTR-PLATFORM-" + station + "-" + number }

  predicate Capital(c: char) { 'A' <= c <= 'Z' }

  predicate Capitals(s: string) { s != "" && forall i :: 0 <= i < |s| ==> Capital(s[i]) }

  predicate OneLine(s: string) { s != "" && '\n' !in s }

  /** How many capitals the text starts with. */
  function Leading(s: string): (n: nat)
    ensures n <= |s| && (forall i :: 0 <= i < n ==> Capital(s[i])) && (n < |s| ==> !Capital(s[n]))
  {
    if s == "" || !Capital(s[0]) then 0 else 1 + Leading(s[1..])
  }

  /** Station and number, as the pattern for platform stops captures them. */
  function Parsed(id: string): Option<(string, string)> {
    if !(PREFIX <= id) then None
    else
      var rest := id[|PREFIX|..];
      var n := Leading(rest);
      if 0 < n < |rest| && rest[n] == '-' && OneLine(rest[n + 1..]) then Some((rest[..n], rest[n + 1..])) else None
  }

  lemma {:induction false} LeadingSum(s: string, t: string)
    requires t != "" && !Capital(t[0])
    ensures Leading(s + t) == Leading(s)
  {
    if s == "" {
      assert s + t == t;
    } else {
      LeadingSum(s[1..], t);
      assert (s + t)[1..] == s[1..] + t;
    }
  }

  lemma LabelParses(station: string, number: string)
    requires Capitals(station) && OneLine(number)
    ensures Parsed(Label(station, number)) == Some((station, number))
  {
    var id := Label(station, number);
    var rest := station + ("-" + number);
    assert id == PREFIX + rest && id[|PREFIX|..] == rest;
    LeadingSum(station, "-" + number);
    assert rest[..|station|] == station && rest[|station| + 1..] == number;
  }

  /** The pattern captures exactly one station of capitals and one number on one line. */
  lemma ParsedIff(id: string, station: string, number: string)
    ensures Parsed(id) == Some((station, number))
            <==> id == Label(station, number) && Capitals(station) && OneLine(number)
  {
    if Parsed(id) == Some((station, number)) {
      var rest := id[|PREFIX|..];
      assert id == PREFIX + rest && rest == station + "-" + number;
      assert id == Label(station, number);
    }
    if id == Label(station, number) && Capitals(station) && OneLine(number) {
      LabelParses(station, number);
    }
  }

  // ----- Catalogue and join -----

  /** The station of a venue; the last row of the join decides. */
  function StationOf(joined: seq<Joined>, venue: string): Option<string> {
    if joined == [] then None
    else
      var last := joined[|joined| - 1];
      if last.venue == venue then Some(last.station) else StationOf(joined[..|joined| - 1], venue)
  }

  /** The last row of the venue gives its station; without a row it has none. */
  lemma {:induction false} StationIsLast(joined: seq<Joined>, venue: string, i: nat)
    requires i < |joined| && joined[i].venue == venue
    requires forall k :: i < k < |joined| ==> joined[k].venue != venue
    ensures StationOf(joined, venue) == Some(joined[i].station)
  {
    if i + 1 < |joined| { StationIsLast(joined[..|joined| - 1], venue, i); }
  }

  /** The stop that a platform of the catalogue stands for, if its venue has a station. */
  function LabelOf(joined: seq<Joined>, n: Numbered): Option<string> {
    var station := StationOf(joined, n.venue);
    if station.Some? && station.value != "" then Some(Label(station.value, n.number)) else None
  }

  /** The last platform of the catalogue that stands for the stop. */
  function NumberedAs(joined: seq<Joined>, catalogue: seq<Numbered>, id: string): (n: Option<Numbered>)
    ensures n.Some? ==> n.value in catalogue && LabelOf(joined, n.value) == Some(id)
    ensures n.None? ==> forall m :: m in catalogue ==> LabelOf(joined, m) != Some(id)
  {
    if catalogue == [] then None
    else
      var front, last := catalogue[..|catalogue| - 1], catalogue[|catalogue| - 1];
      assert catalogue == front + [last];
      if LabelOf(joined, last) == Some(id) then Some(last) else NumberedAs(joined, front, id)
  }

  function Lookup<K, V>(m: map<K, V>, k: K): Option<V> { if k in m then Some(m[k]) else None }

  method CataloguePlatforms(joined: seq<Joined>, catalogue: seq<Numbered>) returns (platforms: map<string, Numbered>)
    ensures forall id :: Lookup(platforms, id) == NumberedAs(joined, catalogue, id)
  {
    platforms := map[];
    for i := 0 to |catalogue|
      invariant forall id :: Lookup(platforms, id) == NumberedAs(joined, catalogue[..i], id)
    {
      assert catalogue[..i + 1][..i] == catalogue[..i];
      var station := StationOf(joined, catalogue[i].venue);
      if station.Some? && station.value != "" {
        platforms := platforms[Label(station.value, catalogue[i].number) := catalogue[i]];
      }
    }
    assert catalogue[..|catalogue|] == catalogue;
  }

  function AtStation(joined: seq<Joined>, station: string): seq<Joined> {
    if joined == [] then []
    else
      var last := joined[|joined| - 1];
      AtStation(joined[..|joined| - 1], station) + if last.station == station then [last] else []
  }

  function RowsAt(rows: map<string, seq<Joined>>, station: string): seq<Joined> {
    if station in rows then rows[station] else []
  }

  method RowsByStation(joined: seq<Joined>) returns (rows: map<string, seq<Joined>>)
    ensures forall station :: RowsAt(rows, station) == AtStation(joined, station)
  {
    rows := map[];
    for i := 0 to |joined|
      invariant forall station :: RowsAt(rows, station) == AtStation(joined[..i], station)
    {
      assert joined[..i + 1][..i] == joined[..i];
      var station := joined[i].station;
      rows := rows[station := RowsAt(rows, station) + [joined[i]]];
    }
    assert joined[..|joined|] == joined;
  }

  function OnLines(rows: seq<Joined>, lines: set<string>): seq<Joined> {
    if rows == [] then []
    else
      var last := rows[|rows| - 1];
      OnLines(rows[..|rows| - 1], lines) + if last.line in lines then [last] else []
  }

  function Candidates(joined: seq<Joined>, station: string, lines: set<string>): seq<Joined> {
    OnLines(AtStation(joined, station), lines)
  }

  lemma {:induction false} AtStationMembers(joined: seq<Joined>, station: string)
    ensures forall j :: j in AtStation(joined, station) <==> j in joined && j.station == station
  {
    if joined != [] {
      var front, last := joined[..|joined| - 1], joined[|joined| - 1];
      AtStationMembers(front, station);
      assert joined == front + [last];
    }
  }

  lemma {:induction false} OnLinesMembers(rows: seq<Joined>, lines: set<string>)
    ensures forall j :: j in OnLines(rows, lines) <==> j in rows && j.line in lines
  {
    if rows != [] {
      var front, last := rows[..|rows| - 1], rows[|rows| - 1];
      OnLinesMembers(front, lines);
      assert rows == front + [last];
    }
  }

  // ----- The closest of several -----

  function Gap2(a: Position, b: Position, cosine: real -> real): real {
    Square((a.lon - b.lon) * METRES_PER_DEGREE * cosine(a.lat)) + Square((a.lat - b.lat) * METRES_PER_DEGREE)
  }

  lemma ZeroFactor(x: real, y: real)
    requires Product(x, y) == 0.0 && y != 0.0
    ensures x == 0.0
  {
    assert x == x * y / y;
  }

  lemma GapIsZero(a: Position, b: Position, cosine: real -> real)
    ensures a == b ==> Gap2(a, b, cosine) == 0.0
    ensures cosine(a.lat) != 0.0 && Gap2(a, b, cosine) <= 0.0 ==> a == b
  {
    var x, y := (a.lon - b.lon) * METRES_PER_DEGREE * cosine(a.lat), (a.lat - b.lat) * METRES_PER_DEGREE;
    SquareSign(x);
    SquareSign(y);
    if cosine(a.lat) != 0.0 && x == 0.0 {
      ZeroFactor((a.lon - b.lon) * METRES_PER_DEGREE, cosine(a.lat));
    }
  }

  /** The order of texts by their characters. */
  predicate Less(a: string, b: string) {
    if b == "" then false
    else if a == "" then true
    else if a[0] != b[0] then a[0] < b[0]
    else Less(a[1..], b[1..])
  }

  /** Sorted earlier: closer to the stop, or as close with the lesser identifier. */
  predicate Before(a: Joined, b: Joined, at: Position, cosine: real -> real) {
    var x, y := Gap2(at, a.spot.at, cosine), Gap2(at, b.spot.at, cosine);
    x < y || (x == y && Less(a.id, b.id))
  }

  /** Head of the stable sort. */
  function Closest(rows: seq<Joined>, at: Position, cosine: real -> real): (closest: Joined)
    requires rows != []
    ensures closest in rows
  {
    var last := rows[|rows| - 1];
    if |rows| == 1 then last
    else
      var closest := Closest(rows[..|rows| - 1], at, cosine);
      if Before(last, closest, at, cosine) then last else closest
  }

  lemma {:induction false} LessThrough(a: string, b: string, c: string)
    requires Less(a, b) && !Less(c, b)
    ensures Less(a, c) && !Less(c, a)
  {
    if a != "" && c != "" && a[0] == b[0] == c[0] {
      LessThrough(a[1..], b[1..], c[1..]);
    }
  }

  /** The texts agree up to some place, and there the first one ends or has the lesser character. */
  ghost predicate LessAt(a: string, b: string, k: nat) {
    k <= |a| && k < |b| && a[..k] == b[..k] && (k == |a| || a[k] < b[k])
  }

  lemma AgreeAtFirst(a: string, b: string, k: nat)
    requires k <= |a| && k <= |b| && a[..k] == b[..k]
    ensures k > 0 ==> a[0] == b[0]
  {
    if k > 0 { assert a[..k][0] == b[..k][0]; }
  }

  lemma {:induction false} LessMeans(a: string, b: string)
    ensures Less(a, b) <==> exists k: nat :: LessAt(a, b, k)
  {
    if a == "" || b == "" || a[0] != b[0] {
      if Less(a, b) { assert LessAt(a, b, 0); }
      forall k: nat | LessAt(a, b, k) ensures k == 0 {
        AgreeAtFirst(a, b, k);
      }
    } else {
      LessMeans(a[1..], b[1..]);
      if k: nat :| LessAt(a[1..], b[1..], k) {
        assert a[..k + 1] == [a[0]] + a[1..][..k] && b[..k + 1] == [b[0]] + b[1..][..k];
        assert LessAt(a, b, k + 1);
      }
      if k: nat :| LessAt(a, b, k) {
        assert k > 0;
        assert a[1..][..k - 1] == a[..k][1..] && b[1..][..k - 1] == b[..k][1..];
        assert LessAt(a[1..], b[1..], k - 1);
      }
    }
  }

  /** rows[i] sorts strictly before the rows ahead of it and no later than those behind it. */
  ghost predicate HeadOfSort(rows: seq<Joined>, i: nat, at: Position, cosine: real -> real)
    requires i < |rows|
  {
    && (forall j :: 0 <= j < i ==> Before(rows[i], rows[j], at, cosine))
    && (forall j :: 0 <= j < |rows| ==> !Before(rows[j], rows[i], at, cosine))
  }

  lemma BeforeThrough(a: Joined, b: Joined, c: Joined, at: Position, cosine: real -> real)
    requires Before(a, b, at, cosine) && !Before(c, b, at, cosine)
    ensures Before(a, c, at, cosine) && !Before(c, a, at, cosine)
  {
    if Less(a.id, b.id) && !Less(c.id, b.id) { LessThrough(a.id, b.id, c.id); }
  }

  lemma {:induction false} LessItself(a: string)
    ensures !Less(a, a)
  {
    if a != "" { LessItself(a[1..]); }
  }

  /** A stable sort by distance and identifier starts with the closest row. */
  lemma {:induction false} ClosestIsHead(rows: seq<Joined>, at: Position, cosine: real -> real) returns (i: nat)
    requires rows != []
    ensures i < |rows| && rows[i] == Closest(rows, at, cosine) && HeadOfSort(rows, i, at, cosine)
  {
    var n := |rows| - 1;
    var front, last := rows[..n], rows[n];
    LessItself(last.id);
    if n == 0 {
      i := 0;
    } else {
      i := ClosestIsHead(front, at, cosine);
      if Before(last, front[i], at, cosine) {
        forall j | 0 <= j < n ensures Before(last, rows[j], at, cosine) && !Before(rows[j], last, at, cosine) {
          assert front[j] == rows[j];
          BeforeThrough(last, front[i], front[j], at, cosine);
        }
        i := n;
      } else {
        assert forall j :: 0 <= j < n ==> front[j] == rows[j];
      }
    }
  }

  // ----- The place of a stop -----

  datatype Place = Place(station: string, number: string, spot: Spot)

  datatype PlaceError = NotAPlatform | NoPlatformFloor | NotANumber | TooFar

  /** Where the feed has the stop; None where float() raises. */
  function PositionOf(stop: Row, read: string -> Option<real>): Option<Position> {
    if LON in stop && LAT in stop && read(stop[LON]).Some? && read(stop[LAT]).Some? then
      Some(Position(read(stop[LON]).value, read(stop[LAT]).value))
    else None
  }

  function SpotOf(numbered: Option<Numbered>, candidates: seq<Joined>, at: Position, cosine: real -> real): Spot
    requires candidates != []
  {
    if numbered.Some? then numbered.value.spot else Closest(candidates, at, cosine).spot
  }

  function PlaceOf(sources: Sources, lines: set<string>, stop: Row): Result<Place, PlaceError> {
    if StopId !in stop || Parsed(stop[StopId]).None? then Err(NotAPlatform)
    else
      var (station, number) := Parsed(stop[StopId]).value;
      var candidates := Candidates(sources.joined, station, lines);
      if candidates == [] then Err(NoPlatformFloor)
      else if PositionOf(stop, sources.read).None? then Err(NotANumber)
      else
        var at := PositionOf(stop, sources.read).value;
        var spot := SpotOf(NumberedAs(sources.joined, sources.catalogue, stop[StopId]), candidates, at, sources.cosine);
        if Gap2(spot.at, at, sources.cosine) > Square(FARTHEST) then Err(TooFar) else Ok(Place(station, number, spot))
  }

  /** The platform at place i of the catalogue stands for the stop and none behind it does. */
  ghost predicate LastFor(joined: seq<Joined>, catalogue: seq<Numbered>, id: string, i: nat)
    requires i < |catalogue|
  {
    && LabelOf(joined, catalogue[i]) == Some(id)
    && forall k :: i < k < |catalogue| ==> LabelOf(joined, catalogue[k]) != Some(id)
  }

  /** The spot is that of the last platform of the catalogue that stands for the stop. */
  ghost predicate FromCatalogue(sources: Sources, id: string, spot: Spot) {
    exists i :: 0 <= i < |sources.catalogue| && LastFor(sources.joined, sources.catalogue, id, i)
      && sources.catalogue[i].spot == spot
  }

  lemma {:induction false} NumberedIsLast(joined: seq<Joined>, catalogue: seq<Numbered>, id: string) returns (i: nat)
    requires NumberedAs(joined, catalogue, id).Some?
    ensures i < |catalogue| && LastFor(joined, catalogue, id, i)
    ensures catalogue[i] == NumberedAs(joined, catalogue, id).value
  {
    var n := |catalogue| - 1;
    if LabelOf(joined, catalogue[n]) == Some(id) {
      i := n;
    } else {
      i := NumberedIsLast(joined, catalogue[..n], id);
      assert forall k :: 0 <= k < n ==> catalogue[..n][k] == catalogue[k];
    }
  }

  predicate Serves(j: Joined, station: string, lines: set<string>) { j.station == station && j.line in lines }

  /** The squared distance in metres, at the latitude of the first position. */
  function Metres2(a: Position, b: Position, cosine: real -> real): real {
    Square((a.lon - b.lon) * 111320.0 * cosine(a.lat)) + Square((a.lat - b.lat) * 111320.0)
  }

  ghost predicate Nearest(sources: Sources, station: string, lines: set<string>, at: Position, j: Joined) {
    && j in sources.joined && Serves(j, station, lines)
    && forall k :: k in sources.joined && Serves(k, station, lines) ==>
         Metres2(at, j.spot.at, sources.cosine) <= Metres2(at, k.spot.at, sources.cosine)
  }

  lemma GapIsMetres(a: Position, b: Position, cosine: real -> real)
    ensures Gap2(a, b, cosine) == Metres2(a, b, cosine)
  {}

  /** The spot is that of the row that a stable sort by distance and identifier puts first among those of the join for
      the same station and line; none of these is closer to the stop. */
  ghost predicate FromJoin(sources: Sources, station: string, lines: set<string>, at: Position, spot: Spot) {
    var candidates := Candidates(sources.joined, station, lines);
    exists i :: 0 <= i < |candidates| && HeadOfSort(candidates, i, at, sources.cosine) && candidates[i].spot == spot
      && Nearest(sources, station, lines, at, candidates[i])
  }

  ghost predicate HasFloor(sources: Sources, station: string, lines: set<string>) {
    exists j :: j in sources.joined && Serves(j, station, lines)
  }

  lemma CandidatesServe(sources: Sources, station: string, lines: set<string>)
    ensures forall j :: j in Candidates(sources.joined, station, lines)
                        <==> j in sources.joined && Serves(j, station, lines)
    ensures Candidates(sources.joined, station, lines) != [] <==> HasFloor(sources, station, lines)
  {
    AtStationMembers(sources.joined, station);
    OnLinesMembers(AtStation(sources.joined, station), lines);
    var candidates := Candidates(sources.joined, station, lines);
    if candidates != [] { assert candidates[0] in candidates; }
  }

  lemma ClosestFromJoin(sources: Sources, station: string, lines: set<string>, at: Position)
    requires Candidates(sources.joined, station, lines) != []
    ensures var candidates := Candidates(sources.joined, station, lines);
      FromJoin(sources, station, lines, at, Closest(candidates, at, sources.cosine).spot)
  {
    var candidates := Candidates(sources.joined, station, lines);
    CandidatesServe(sources, station, lines);
    var i := ClosestIsHead(candidates, at, sources.cosine);
    forall k | k in candidates
      ensures Metres2(at, candidates[i].spot.at, sources.cosine) <= Metres2(at, k.spot.at, sources.cosine)
    {
      GapIsMetres(at, candidates[i].spot.at, sources.cosine);
      GapIsMetres(at, k.spot.at, sources.cosine);
      var j :| 0 <= j < |candidates| && candidates[j] == k;
    }
    assert Nearest(sources, station, lines, at, candidates[i]);
  }

  /** The spot of the last catalogued platform of the stop or, if there is none, of the first joined one. */
  ghost predicate SpotFor(sources: Sources, id: string, station: string, lines: set<string>, at: Position, spot: Spot) {
    || FromCatalogue(sources, id, spot)
    || ((forall other :: !FromCatalogue(sources, id, other)) && FromJoin(sources, station, lines, at, spot))
  }

  lemma SpotIsFor(sources: Sources, id: string, station: string, lines: set<string>, at: Position)
    requires Candidates(sources.joined, station, lines) != []
    ensures var numbered := NumberedAs(sources.joined, sources.catalogue, id);
      var candidates := Candidates(sources.joined, station, lines);
      SpotFor(sources, id, station, lines, at, SpotOf(numbered, candidates, at, sources.cosine))
  {
    ClosestFromJoin(sources, station, lines, at);
    if NumberedAs(sources.joined, sources.catalogue, id).Some? {
      var i := NumberedIsLast(sources.joined, sources.catalogue, id);
    }
  }

  /** The identifier is the label of that station and number. */
  predicate Identifies(stop: Row, station: string, number: string) {
    StopId in stop && stop[StopId] == Label(station, number) && Capitals(station) && OneLine(number)
  }

  /** The stop is that of a platform with a floor in the join, found at the spot. */
  ghost predicate FoundAt(sources: Sources, lines: set<string>, stop: Row, place: Place) {
    && Identifies(stop, place.station, place.number) && HasFloor(sources, place.station, lines)
    && PositionOf(stop, sources.read).Some?
    && SpotFor(sources, stop[StopId], place.station, lines, PositionOf(stop, sources.read).value, place.spot)
  }

  predicate InReach(sources: Sources, stop: Row, spot: Spot)
    requires PositionOf(stop, sources.read).Some?
  {
    Metres2(spot.at, PositionOf(stop, sources.read).value, sources.cosine) <= 62500.0
  }

  /** What the place of a stop is, and why there may be none. */
  ghost predicate Surveyed(sources: Sources, lines: set<string>, stop: Row, result: Result<Place, PlaceError>) {
    match result
    case Ok(place) => FoundAt(sources, lines, stop, place) && InReach(sources, stop, place.spot)
    case Err(NotAPlatform) => forall station, number :: !Identifies(stop, station, number)
    case Err(NoPlatformFloor) =>
      exists station, number :: Identifies(stop, station, number) && !HasFloor(sources, station, lines)
    case Err(NotANumber) => PositionOf(stop, sources.read).None?
    case Err(TooFar) => exists place :: FoundAt(sources, lines, stop, place) && !InReach(sources, stop, place.spot)
  }

  lemma NotParsed(stop: Row)
    requires StopId in stop && Parsed(stop[StopId]).None?
    ensures forall station, number :: !Identifies(stop, station, number)
  {
    forall station, number ensures !Identifies(stop, station, number) {
      ParsedIff(stop[StopId], station, number);
    }
  }

  /** Every result for a stop is the one that the surveys call for. */
  lemma PlaceIsSurveyed(sources: Sources, lines: set<string>, stop: Row)
    ensures Surveyed(sources, lines, stop, PlaceOf(sources, lines, stop))
  {
    if StopId in stop {
      if Parsed(stop[StopId]).None? {
        NotParsed(stop);
      } else {
        var (station, number) := Parsed(stop[StopId]).value;
        ParsedIff(stop[StopId], station, number);
        assert Identifies(stop, station, number);
        CandidatesServe(sources, station, lines);
        var candidates := Candidates(sources.joined, station, lines);
        if candidates != [] && PositionOf(stop, sources.read).Some? {
          var at := PositionOf(stop, sources.read).value;
          var numbered := NumberedAs(sources.joined, sources.catalogue, stop[StopId]);
          var spot := SpotOf(numbered, candidates, at, sources.cosine);
          SpotIsFor(sources, stop[StopId], station, lines, at);
          assert FoundAt(sources, lines, stop, Place(station, number, spot));
          GapIsMetres(spot.at, at, sources.cosine);
        }
      }
    }
  }

  // ----- Whose platform the catalogue gives -----

  /** The code starts like the code of another station, up to a dash. */
  predicate Splits(station: string) {
    var n := Leading(station);
    0 < n < |station| && station[n] == '-' && '\n' !in station[n + 1..]
  }

  lemma LabelReads(station: string, number: string)
    ensures Splits(station) && '\n' !in number ==>
      var n := Leading(station);
      Parsed(Label(station, number)) == Some((station[..n], station[n + 1..] + "-" + number))
    ensures Splits(station) && '\n' in number ==> Parsed(Label(station, number)).None?
    ensures !Splits(station) && Parsed(Label(station, number)).Some? ==>
      Parsed(Label(station, number)) == Some((station, number))
  {
    var rest, n := station + ("-" + number), Leading(station);
    var id := Label(station, number);
    assert id == PREFIX + rest && id[|PREFIX|..] == rest;
    LeadingSum(station, "-" + number);
    if n < |station| {
      assert rest[..n] == station[..n] && rest[n + 1..] == station[n + 1..] + "-" + number;
      assert station[n] == rest[n];
      assert OneLine(rest[n + 1..]) ==> '\n' !in station[n + 1..];
    } else {
      assert rest[..n] == station && rest[n + 1..] == number;
    }
  }

  predicate IsNumbered(joined: seq<Joined>, n: Numbered, station: string, number: string) {
    StationOf(joined, n.venue) == Some(station) && n.number == number
  }

  /** Whatever the catalogue, the platform that it gives for a stop is the stop's own. */
  ghost predicate AlwaysOwn(joined: seq<Joined>) {
    forall catalogue, id, station, number ::
      Parsed(id) == Some((station, number)) && NumberedAs(joined, catalogue, id).Some? ==>
        IsNumbered(joined, NumberedAs(joined, catalogue, id).value, station, number)
  }

  /** No venue belongs to a station whose code splits. */
  ghost predicate NoneSplits(joined: seq<Joined>) {
    forall venue :: StationOf(joined, venue).Some? ==> !Splits(StationOf(joined, venue).value)
  }

  lemma OwnWhereNoneSplits(joined: seq<Joined>, n: Numbered, id: string, station: string, number: string)
    requires NoneSplits(joined) && LabelOf(joined, n) == Some(id) && Parsed(id) == Some((station, number))
    ensures IsNumbered(joined, n, station, number)
  {
    LabelReads(StationOf(joined, n.venue).value, n.number);
  }

  /** A stop of another station for which the catalogue gives the platform of the venue. */
  lemma SplitTakesOther(joined: seq<Joined>, venue: string, spot: Spot)
    requires StationOf(joined, venue).Some? && Splits(StationOf(joined, venue).value)
    ensures !AlwaysOwn(joined)
  {
    var code := StationOf(joined, venue).value;
    var n := Numbered(venue, "1", spot);
    LabelReads(code, "1");
    var id := Label(code, "1");
    assert NumberedAs(joined, [n], id) == Some(n);
    var (station, number) := Parsed(id).value;
    assert station != code;
  }

  /** The platform catalogued for a stop is always that of its own station and number exactly when no station code of
      the join splits. */
  lemma OwnIffNoneSplits(joined: seq<Joined>)
    ensures AlwaysOwn(joined) <==> NoneSplits(joined)
  {
    if NoneSplits(joined) {
      forall catalogue, id, station, number |
        Parsed(id) == Some((station, number)) && NumberedAs(joined, catalogue, id).Some?
        ensures IsNumbered(joined, NumberedAs(joined, catalogue, id).value, station, number)
      {
        OwnWhereNoneSplits(joined, NumberedAs(joined, catalogue, id).value, id, station, number);
      }
    } else {
      var venue :| StationOf(joined, venue).Some? && Splits(StationOf(joined, venue).value);
      SplitTakesOther(joined, venue, Spot(Position(0.0, 0.0), 0.0));
    }
  }

  predicate PlacedOwn(sources: Sources, lines: set<string>, stop: Row) {
    PlaceOf(sources, lines, stop).Ok? ==>
      var place := PlaceOf(sources, lines, stop).value;
      var numbered := NumberedAs(sources.joined, sources.catalogue, stop[StopId]);
      numbered.Some? ==> IsNumbered(sources.joined, numbered.value, place.station, place.number)
  }

  /** Whatever the catalogue and the feed, a stop placed by the catalogue gets its own platform. */
  ghost predicate AlwaysPlacedOwn(joined: seq<Joined>) {
    forall sources: Sources, lines, stop | sources.joined == joined :: PlacedOwn(sources, lines, stop)
  }

  /** The venue has a station whose code splits and starts with the code of the station of the row. */
  predicate Clash(joined: seq<Joined>, venue: string, j: Joined) {
    var station := StationOf(joined, venue);
    j in joined && station.Some? && Splits(station.value) && j.station == station.value[..Leading(station.value)]
  }

  lemma OwnWithoutClash(sources: Sources, lines: set<string>, stop: Row)
    requires forall venue, j :: !Clash(sources.joined, venue, j)
    ensures PlacedOwn(sources, lines, stop)
  {
    if PlaceOf(sources, lines, stop).Ok? {
      var place := PlaceOf(sources, lines, stop).value;
      var numbered := NumberedAs(sources.joined, sources.catalogue, stop[StopId]);
      if numbered.Some? {
        var code := StationOf(sources.joined, numbered.value.venue).value;
        LabelReads(code, numbered.value.number);
        CandidatesServe(sources, place.station, lines);
        var j :| j in sources.joined && Serves(j, place.station, lines);
        assert !Clash(sources.joined, numbered.value.venue, j);
      }
    }
  }

  /** A stop of the station of j that is placed at the catalogued platform of another station. */
  lemma ClashTakesOther(joined: seq<Joined>, venue: string, j: Joined)
    returns (sources: Sources, lines: set<string>, stop: Row)
    requires Clash(joined, venue, j)
    ensures sources.joined == joined && PlaceOf(sources, lines, stop).Ok?
    ensures PlaceOf(sources, lines, stop).value.station == j.station
    ensures var numbered := NumberedAs(joined, sources.catalogue, stop[StopId]);
      numbered.Some? && StationOf(joined, numbered.value.venue) != Some(j.station) && !PlacedOwn(sources, lines, stop)
  {
    var code := StationOf(joined, venue).value;
    var n := Numbered(venue, "1", Spot(Position(0.0, 0.0), 0.0));
    sources := Sources(joined, [n], s => Some(0.0), x => "0", x => 1.0);
    lines, stop := {j.line}, map[StopId := Label(code, "1"), LON := "0", LAT := "0"];
    LabelReads(code, "1");
    CandidatesServe(sources, j.station, lines);
    assert Serves(j, j.station, lines);
    assert NumberedAs(joined, [n], Label(code, "1")) == Some(n);
    GapIsZero(n.spot.at, n.spot.at, sources.cosine);
    assert PositionOf(stop, sources.read) == Some(n.spot.at);
  }

  /** A stop placed by the catalogue always gets the platform of its own station and number exactly when no venue has a
      splitting station code that starts with the code of a station in the join. */
  lemma PlacedOwnIff(joined: seq<Joined>)
    ensures AlwaysPlacedOwn(joined) <==> forall venue, j :: !Clash(joined, venue, j)
  {
    if venue, j :| Clash(joined, venue, j) {
      var sources, lines, stop := ClashTakesOther(joined, venue, j);
    } else {
      forall sources: Sources, lines, stop | sources.joined == joined ensures PlacedOwn(sources, lines, stop) {
        OwnWithoutClash(sources, lines, stop);
      }
    }
  }

  // ----- Placing a stop again -----

  /** The texts written for the position are read back as its numbers. */
  predicate ReadBackAt(sources: Sources, at: Position) {
    sources.read(sources.write(at.lon)) == Some(at.lon) && sources.read(sources.write(at.lat)) == Some(at.lat)
  }

  /** Every surveyed position is read back as written. */
  ghost predicate ReadsBack(sources: Sources) {
    && (forall j :: j in sources.joined ==> ReadBackAt(sources, j.spot.at))
    && forall n :: n in sources.catalogue ==> ReadBackAt(sources, n.spot.at)
  }

  /** No joined platform lies on a pole. */
  ghost predicate OffPoles(sources: Sources) {
    forall j :: j in sources.joined ==> sources.cosine(j.spot.at.lat) != 0.0
  }

  lemma SpotAgain(sources: Sources, station: string, lines: set<string>, id: string, at: Position)
    requires OffPoles(sources) && Candidates(sources.joined, station, lines) != []
    ensures var numbered := NumberedAs(sources.joined, sources.catalogue, id);
      var candidates := Candidates(sources.joined, station, lines);
      var there := SpotOf(numbered, candidates, at, sources.cosine).at;
      SpotOf(numbered, candidates, there, sources.cosine).at == there
  {
    var candidates := Candidates(sources.joined, station, lines);
    CandidatesServe(sources, station, lines);
    var first := Closest(candidates, at, sources.cosine);
    var i := ClosestIsHead(candidates, first.spot.at, sources.cosine);
    var j :| 0 <= j < |candidates| && candidates[j] == first;
    GapIsZero(first.spot.at, first.spot.at, sources.cosine);
    GapIsZero(first.spot.at, candidates[i].spot.at, sources.cosine);
  }

  /** The stop with its place written in. */
  function Placed(stop: Row, place: Place, write: real -> string): Row {
    stop[LON := write(place.spot.at.lon)][LAT := write(place.spot.at.lat)][PLATFORM := place.number]
  }

  lemma PlaceReadsBack(sources: Sources, lines: set<string>, stop: Row, place: Place)
    requires ReadsBack(sources) && PlaceOf(sources, lines, stop) == Ok(place)
    ensures PositionOf(Placed(stop, place, sources.write), sources.read) == Some(place.spot.at)
  {
    CandidatesServe(sources, place.station, lines);
    assert ReadBackAt(sources, place.spot.at);
  }

  lemma PlacedTwice(stop: Row, place: Place, again: Place, write: real -> string)
    requires again.spot.at == place.spot.at && again.number == place.number
    ensures Placed(Placed(stop, place, write), again, write) == Placed(stop, place, write)
  {}

  /** A stop that has been placed is placed where it is. */
  lemma PlacedStays(sources: Sources, lines: set<string>, stop: Row, place: Place)
    requires ReadsBack(sources) && OffPoles(sources) && PlaceOf(sources, lines, stop) == Ok(place)
    ensures var placed := Placed(stop, place, sources.write); var again := PlaceOf(sources, lines, placed);
      again.Ok? && Placed(placed, again.value, sources.write) == placed
  {
    var placed := Placed(stop, place, sources.write);
    assert placed[StopId] == stop[StopId];
    var at := PositionOf(stop, sources.read).value;
    var there := place.spot.at;
    assert PositionOf(placed, sources.read) == Some(there) by {
      PlaceReadsBack(sources, lines, stop, place);
    }
    SpotAgain(sources, place.station, lines, stop[StopId], at);
    GapIsZero(there, there, sources.cosine);
    var again := PlaceOf(sources, lines, placed);
    assert again.Ok? && again.value.spot.at == there && again.value.number == place.number;
    PlacedTwice(stop, place, again.value, sources.write);
  }
}
