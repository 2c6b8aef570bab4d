/** Which surveyed exits lie within ten metres of a segment of their own station, found through a grid of bins, and
    the nearest point of a platform's floor network. */
module ExitSearch {
  import opened Basics
  import opened Reals
  import opened Segments
  import opened Cells
  import Network

  type Point = Network.Point

  const BIN_SIZE := 50.0

  datatype Segment = Segment(a: Point, b: Point)

  datatype Cell = Cell(x: int, y: int)

  type Bins = map<Cell, seq<Segment>>

  /** A surveyed exit, with a height when the catalogue has one. */
  datatype Exit = Exit(lon: real, lat: real, z: Option<real>)

  function CellX(lon: real): int { (lon * BIN_METRES_PER_LON / BIN_SIZE).Floor }

  function CellY(lat: real): int { (lat * BIN_METRES_PER_LAT / BIN_SIZE).Floor }

  /** The cells that the segment's bounding box reaches. */
  predicate Covers(s: Segment, cell: Cell) {
    && CellX(Min(s.a.lon, s.b.lon)) <= cell.x <= CellX(Max(s.a.lon, s.b.lon))
    && CellY(Min(s.a.lat, s.b.lat)) <= cell.y <= CellY(Max(s.a.lat, s.b.lat))
  }

  function BinAt(bins: Bins, cell: Cell): seq<Segment> { if cell in bins then bins[cell] else [] }

  /** The bins list exactly the segments that reach each cell. */
  ghost predicate Indexes(bins: Bins, segments: seq<Segment>) {
    forall cell, s :: s in BinAt(bins, cell) <==> s in segments && Covers(s, cell)
  }

  /** Adds a segment to every cell that its bounding box reaches. */
  method Register(bins: Bins, s: Segment) returns (bins': Bins)
    ensures forall cell :: BinAt(bins', cell) == BinAt(bins, cell) + if Covers(s, cell) then [s] else []
  {
    bins' := bins;
    var x0, x1 := CellX(Min(s.a.lon, s.b.lon)), CellX(Max(s.a.lon, s.b.lon));
    var y0, y1 := CellY(Min(s.a.lat, s.b.lat)), CellY(Max(s.a.lat, s.b.lat));
    for gx := x0 to x1 + 1
      invariant forall cell ::
        BinAt(bins', cell) == BinAt(bins, cell) + if x0 <= cell.x < gx && y0 <= cell.y <= y1 then [s] else []
    {
      for gy := y0 to y1 + 1
        invariant forall cell ::
          BinAt(bins', cell) == BinAt(bins, cell)
            + if (x0 <= cell.x < gx && y0 <= cell.y <= y1) || (cell.x == gx && y0 <= cell.y < gy) then [s] else []
      {
        bins' := bins'[Cell(gx, gy) := BinAt(bins', Cell(gx, gy)) + [s]];
      }
    }
  }

  method StationBins(segments: seq<Segment>) returns (bins: Bins)
    ensures Indexes(bins, segments)
  {
    bins := map[];
    for i := 0 to |segments|
      invariant Indexes(bins, segments[..i])
    {
      var s := segments[i];
      ghost var before := bins;
      bins := Register(bins, s);
      assert segments[..i + 1] == segments[..i] + [s];
      forall cell, t ensures t in BinAt(bins, cell) <==> t in segments[..i + 1] && Covers(t, cell) {
        assert t in BinAt(before, cell) <==> t in segments[..i] && Covers(t, cell);
      }
    }
    assert segments[..|segments|] == segments;
  }

  /** A point in metres from the exit, by the exit's own latitude; an exit without a height ignores heights. */
  function Local(p: Point, exit: Exit, cosine: real): Vector {
    Vector((p.lon - exit.lon) * (METRES_PER_DEGREE * cosine),
           (p.lat - exit.lat) * METRES_PER_DEGREE,
           if exit.z.Some? then p.z - exit.z.value else 0.0)
  }

  /** The squared distance from the exit to the segment, as computed: at the clamped projection. */
  function Gap2(s: Segment, exit: Exit, cosine: real): real {
    var a, b := Local(s.a, exit, cosine), Local(s.b, exit, cosine);
    At(a, b, Nearest(a, b)).Square()
  }

  /** The point a fraction `t` along the segment. */
  function Along(s: Segment, t: real): Point {
    Network.Point(s.a.lon + t * (s.b.lon - s.a.lon), s.a.lat + t * (s.b.lat - s.a.lat), s.a.z + t * (s.b.z - s.a.z))
  }

  /** The squared distance from the exit in metres: in longitude, in latitude and, when the exit has one, in height. */
  function Metres2(p: Point, exit: Exit, cosine: real): real {
    Square((p.lon - exit.lon) * 111320.0 * cosine) + Square((p.lat - exit.lat) * 111320.0)
    + match exit.z
      case None => 0.0
      case Some(z) => Square(p.z - z)
  }

  predicate PointWithin10m(s: Segment, t: real, exit: Exit, cosine: real) {
    0.0 <= t <= 1.0 && Metres2(Along(s, t), exit, cosine) <= 100.0
  }

  /** Some point of some segment lies within ten metres of the exit: what the binned search has to decide. */
  ghost predicate SomePointWithin10m(segments: seq<Segment>, exit: Exit, cosine: real) {
    exists s, t :: s in segments && PointWithin10m(s, t, exit, cosine)
  }

  /** The bins searched around the exit reach ten metres to each side. */
  predicate WindowFits(cosine: real) { 10290.0 <= 111320.0 * cosine }

  lemma AxisAlong(a: real, b: real, t: real, e: real, m: real)
    ensures (a + t * (b - a) - e) * m == (a - e) * m + t * ((b - e) * m - (a - e) * m)
  {
    assert (a + t * (b - a) - e) * m == (a - e) * m + t * (b - a) * m;
    assert (b - e) * m - (a - e) * m == (b - a) * m;
    assert t * (b - a) * m == t * ((b - a) * m);
  }

  lemma LocalAlong(s: Segment, t: real, exit: Exit, cosine: real)
    ensures Local(Along(s, t), exit, cosine) == At(Local(s.a, exit, cosine), Local(s.b, exit, cosine), t)
  {
    AxisAlong(s.a.lon, s.b.lon, t, exit.lon, METRES_PER_DEGREE * cosine);
    AxisAlong(s.a.lat, s.b.lat, t, exit.lat, METRES_PER_DEGREE);
    if exit.z.Some? { AxisAlong(s.a.z, s.b.z, t, exit.z.value, 1.0); }
  }

  lemma LocalIsMetres(p: Point, exit: Exit, cosine: real)
    ensures Local(p, exit, cosine).Square() == Metres2(p, exit, cosine)
  {
    assert (p.lon - exit.lon) * (METRES_PER_DEGREE * cosine) == (p.lon - exit.lon) * 111320.0 * cosine;
  }

  /** The computed gap is the distance of a point of the segment that no other undercuts. */
  lemma GapIsLeast(s: Segment, exit: Exit, cosine: real) returns (t0: real)
    ensures 0.0 <= t0 <= 1.0 && Gap2(s, exit, cosine) == Metres2(Along(s, t0), exit, cosine)
    ensures forall t :: 0.0 <= t <= 1.0 ==> Gap2(s, exit, cosine) <= Metres2(Along(s, t), exit, cosine)
  {
    var a, b := Local(s.a, exit, cosine), Local(s.b, exit, cosine);
    t0 := Nearest(a, b);
    LocalAlong(s, t0, exit, cosine);
    LocalIsMetres(Along(s, t0), exit, cosine);
    forall t | 0.0 <= t <= 1.0 ensures Gap2(s, exit, cosine) <= Metres2(Along(s, t), exit, cosine) {
      LocalAlong(s, t, exit, cosine);
      LocalIsMetres(Along(s, t), exit, cosine);
      NearestIsNearest(a, b, t);
    }
  }

  /** The clamped projection decides whether any point of the segment is within ten metres. */
  lemma GapDecides(s: Segment, exit: Exit, cosine: real)
    ensures Gap2(s, exit, cosine) <= 100.0 <==> exists t :: PointWithin10m(s, t, exit, cosine)
  {
    var t0 := GapIsLeast(s, exit, cosine);
    if Gap2(s, exit, cosine) <= 100.0 {
      assert PointWithin10m(s, t0, exit, cosine);
    }
  }

  predicate InWindow(cell: Cell, exit: Exit) {
    Distance(cell.x, CellX(exit.lon)) <= 2 && Distance(cell.y, CellY(exit.lat)) <= 2
  }

  /** The segment is listed in some cell of the search window. */
  ghost predicate SeenFrom(s: Segment, exit: Exit) {
    exists cell :: Covers(s, cell) && InWindow(cell, exit)
  }

  lemma CellReach(d: real, bin: real, metres: real)
    requires 0.0 <= 10.0 * bin <= 2.0 * BIN_SIZE * metres && -10.0 <= d * metres <= 10.0
    ensures -2.0 <= d * bin / BIN_SIZE <= 2.0
  {
    if d >= 0.0 {
      NonNegativeProduct(d, 10.0 * metres - bin);
      assert d * (10.0 * metres - bin) == 10.0 * (d * metres) - d * bin;
      NonNegativeProduct(d, bin);
    } else {
      NonNegativeProduct(-d, 10.0 * metres - bin);
      assert -d * (10.0 * metres - bin) == -10.0 * (d * metres) + d * bin;
      NonNegativeProduct(-d, bin);
      assert -d * bin == -(d * bin);
    }
  }

  lemma WindowHolds(u: real, v: real, bin: real, metres: real)
    requires 0.0 <= 10.0 * bin <= 2.0 * BIN_SIZE * metres && -10.0 <= (u - v) * metres <= 10.0
    ensures Distance((u * bin / BIN_SIZE).Floor, (v * bin / BIN_SIZE).Floor) <= 2
  {
    CellReach(u - v, bin, metres);
    assert (u - v) * bin == u * bin - v * bin;
    CellsApart(u * bin / BIN_SIZE, v * bin / BIN_SIZE, 2);
  }

  lemma AlongIsCovered(s: Segment, t: real)
    requires 0.0 <= t <= 1.0
    ensures Covers(s, Cell(CellX(Along(s, t).lon), CellY(Along(s, t).lat)))
  {
    Convex(s.a.lon, s.b.lon, t, Min(s.a.lon, s.b.lon), Max(s.a.lon, s.b.lon));
    Convex(s.a.lat, s.b.lat, t, Min(s.a.lat, s.b.lat), Max(s.a.lat, s.b.lat));
  }

  lemma CloseInLongitude(p: Point, exit: Exit, cosine: real)
    requires WindowFits(cosine) && -10.0 <= (p.lon - exit.lon) * (METRES_PER_DEGREE * cosine) <= 10.0
    ensures Distance(CellX(p.lon), CellX(exit.lon)) <= 2
  {
    WindowHolds(p.lon, exit.lon, BIN_METRES_PER_LON, METRES_PER_DEGREE * cosine);
  }

  lemma CloseIsInWindow(p: Point, exit: Exit, cosine: real)
    requires WindowFits(cosine) && Metres2(p, exit, cosine) <= 100.0
    ensures InWindow(Cell(CellX(p.lon), CellY(p.lat)), exit)
  {
    LocalIsMetres(p, exit, cosine);
    CloseInLongitude(p, exit, cosine);
  }

  /** A segment with a point within ten metres reaches a cell in the search window. */
  lemma CloseSegmentIsInWindow(s: Segment, t: real, exit: Exit, cosine: real)
    requires WindowFits(cosine) && PointWithin10m(s, t, exit, cosine)
    ensures SeenFrom(s, exit)
  {
    AlongIsCovered(s, t);
    CloseIsInWindow(Along(s, t), exit, cosine);
  }

  /** Three less r cells of 10290 r metres to the degree, for r below one, are at most ten metres. */
  lemma ShortCells(r: real, cell: real)
    requires 0.0 <= r < 1.0 && cell == BIN_SIZE / BIN_METRES_PER_LON
    ensures Square((r * cell - 3.0 * cell) * (r * 10290.0)) <= 100.0
  {
    var x := (r * cell - 3.0 * cell) * (r * 10290.0);
    assert r * cell - 3.0 * cell == (r - 3.0) * cell;
    assert x == ((r - 3.0) * r) * (cell * 10290.0) && cell * 10290.0 == 5.0;
    assert (r - 3.0) * r == -Product(3.0 - r, r);
    assert Product(3.0 - r, r) == 2.0 - Product(1.0 - r, 2.0 - r);
    NonNegativeProduct(1.0 - r, 2.0 - r);
    NonNegativeProduct(3.0 - r, r);
    SquareAtMost(-x, 10.0);
    assert Square(-x) == Square(x);
  }

  /** One vertex on the exit's own parallel, r cells east of the meridian where the exit lies three: less than ten
      metres apart when a cell is short, yet out of the window. */
  lemma MissedBeyondWindow(lat: real, cosine: real) returns (s: Segment, exit: Exit)
    requires cosine >= 0.0 && !WindowFits(cosine)
    ensures exit.lat == lat && s.a.lat == lat && s.b.lat == lat
    ensures PointWithin10m(s, 0.0, exit, cosine) && !SeenFrom(s, exit)
  {
    var m := METRES_PER_DEGREE * cosine;
    var r := m / 10290.0;
    assert 0.0 <= r < 1.0 && m == r * 10290.0;
    var cell := BIN_SIZE / BIN_METRES_PER_LON;
    var p := Network.Point(r * cell, lat, 0.0);
    s, exit := Segment(p, p), Exit(3.0 * cell, lat, None);
    assert CellX(exit.lon) == 3 by { assert exit.lon * BIN_METRES_PER_LON / BIN_SIZE == 3.0; }
    assert CellX(p.lon) == 0 by { assert p.lon * BIN_METRES_PER_LON / BIN_SIZE == r; }
    assert Along(s, 0.0) == p;
    ShortCells(r, cell);
    assert Local(p, exit, cosine) == Vector((r * cell - 3.0 * cell) * (r * 10290.0), 0.0, 0.0);
    LocalIsMetres(p, exit, cosine);
  }

  /** The segments listed in the 25 cells around the exit. */
  method Candidates(bins: Bins, exit: Exit) returns (candidates: seq<Segment>)
    ensures forall s :: s in candidates <==> exists cell :: InWindow(cell, exit) && s in BinAt(bins, cell)
  {
    candidates := [];
    var x, y := CellX(exit.lon), CellY(exit.lat);
    for dx := -2 to 3
      invariant forall s :: s in candidates <==>
                  exists cell :: InWindow(cell, exit) && cell.x < x + dx && s in BinAt(bins, cell)
    {
      for dy := -2 to 3
        invariant forall s :: s in candidates <==>
                    exists cell :: InWindow(cell, exit) && s in BinAt(bins, cell)
                                   && (cell.x < x + dx || (cell.x == x + dx && cell.y < y + dy))
      {
        ghost var before := candidates;
        var here := Cell(x + dx, y + dy);
        candidates := candidates + BinAt(bins, here);
        forall s ensures s in candidates <==>
          exists cell :: InWindow(cell, exit) && s in BinAt(bins, cell)
                         && (cell.x < x + dx || (cell.x == x + dx && cell.y < y + dy + 1))
        {
          if s in BinAt(bins, here) { assert InWindow(here, exit); }
          if cell :| InWindow(cell, exit) && s in BinAt(bins, cell)
                     && (cell.x < x + dx || (cell.x == x + dx && cell.y < y + dy + 1)) {
            assert cell == here || s in before;
          }
        }
      }
    }
  }

  /** The nearest of the segments listed around the exit, if any, and whether it is within ten metres. */
  ghost predicate IsAnswer(segments: seq<Segment>, exit: Exit, cosine: real, best: Option<Segment>, within: bool) {
    && (best.None? <==> forall s :: s in segments ==> !SeenFrom(s, exit))
    && (best.Some? ==>
          && best.value in segments && SeenFrom(best.value, exit)
          && forall s :: s in segments && SeenFrom(s, exit) ==> Gap2(best.value, exit, cosine) <= Gap2(s, exit, cosine))
    && (within <==> best.Some? && Gap2(best.value, exit, cosine) <= 100.0)
  }

  /** The answer is never wrongly true, and right wherever the window reaches ten metres. */
  lemma AnswerIsRight(segments: seq<Segment>, exit: Exit, cosine: real, best: Option<Segment>, within: bool)
    requires IsAnswer(segments, exit, cosine, best, within)
    ensures within ==> SomePointWithin10m(segments, exit, cosine)
    ensures WindowFits(cosine) ==> (within <==> SomePointWithin10m(segments, exit, cosine))
  {
    if within {
      GapDecides(best.value, exit, cosine);
    }
    if WindowFits(cosine) && SomePointWithin10m(segments, exit, cosine) {
      var s, t :| s in segments && PointWithin10m(s, t, exit, cosine);
      CloseSegmentIsInWindow(s, t, exit, cosine);
      GapDecides(s, exit, cosine);
    }
  }

  /** No point of a segment listed around the exit is nearer than some point of the best one. */
  ghost predicate NoneNearer(segments: seq<Segment>, exit: Exit, cosine: real, best: Segment) {
    exists t0 :: 0.0 <= t0 <= 1.0 && forall s, t :: s in segments && SeenFrom(s, exit) && 0.0 <= t <= 1.0 ==>
      Metres2(Along(best, t0), exit, cosine) <= Metres2(Along(s, t), exit, cosine)
  }

  lemma BestIsNearest(segments: seq<Segment>, exit: Exit, cosine: real, best: Option<Segment>, within: bool)
    requires IsAnswer(segments, exit, cosine, best, within) && best.Some?
    ensures NoneNearer(segments, exit, cosine, best.value)
  {
    var t0 := GapIsLeast(best.value, exit, cosine);
    forall s, t | s in segments && SeenFrom(s, exit) && 0.0 <= t <= 1.0
      ensures Metres2(Along(best.value, t0), exit, cosine) <= Metres2(Along(s, t), exit, cosine)
    {
      var u := GapIsLeast(s, exit, cosine);
    }
  }

  /** The segments differ in nothing but heights. */
  predicate SamePlan(s: Segment, r: Segment) {
    s.a.lon == r.a.lon && s.a.lat == r.a.lat && s.b.lon == r.b.lon && s.b.lat == r.b.lat
  }

  lemma SamePlanSame(s: Segment, r: Segment, exit: Exit, cosine: real)
    requires SamePlan(s, r) && exit.z.None?
    ensures SeenFrom(s, exit) <==> SeenFrom(r, exit)
    ensures Gap2(s, exit, cosine) == Gap2(r, exit, cosine)
  {
    assert forall cell :: Covers(s, cell) <==> Covers(r, cell);
    assert Local(s.a, exit, cosine) == Local(r.a, exit, cosine) && Local(s.b, exit, cosine) == Local(r.b, exit, cosine);
  }

  /** For an exit without a height the answer does not depend on any height of the segments. */
  lemma HeightsIgnored(segments: seq<Segment>, others: seq<Segment>, exit: Exit, cosine: real,
                       best: Option<Segment>, within: bool, best': Option<Segment>, within': bool)
    requires |segments| == |others| && forall i :: 0 <= i < |others| ==> SamePlan(segments[i], others[i])
    requires IsAnswer(segments, exit, cosine, best, within) && IsAnswer(others, exit, cosine, best', within')
    requires exit.z.None?
    ensures within == within'
  {
    forall i | 0 <= i < |others|
      ensures SeenFrom(segments[i], exit) <==> SeenFrom(others[i], exit)
      ensures Gap2(segments[i], exit, cosine) == Gap2(others[i], exit, cosine)
    {
      SamePlanSame(segments[i], others[i], exit, cosine);
    }
    if within {
      var i :| 0 <= i < |segments| && segments[i] == best.value;
      assert others[i] in others;
    }
    if within' {
      var i :| 0 <= i < |others| && others[i] == best'.value;
      assert segments[i] in segments;
    }
  }

  ghost predicate AlwaysRight(lat: real, cosine: real) {
    forall segments, exit: Exit, best, within ::
      exit.lat == lat && IsAnswer(segments, exit, cosine, best, within) ==>
        (within <==> SomePointWithin10m(segments, exit, cosine))
  }

  /** On the parallel and within ten metres, yet every answer for that segment alone names none. */
  ghost predicate MissedFrom(s: Segment, exit: Exit, lat: real, cosine: real) {
    && exit.lat == lat && s.a.lat == lat && s.b.lat == lat && PointWithin10m(s, 0.0, exit, cosine)
    && IsAnswer([s], exit, cosine, None, false)
    && forall best, within :: IsAnswer([s], exit, cosine, best, within) ==> best.None? && !within
  }

  /** At a latitude with the given cosine the answer is always the brute-force one exactly when the window reaches ten
      metres there; otherwise some exit has a segment within ten metres and no nearest segment at all. */
  lemma RightIffWindowFits(lat: real, cosine: real)
    requires cosine >= 0.0
    ensures AlwaysRight(lat, cosine) <==> WindowFits(cosine)
    ensures !WindowFits(cosine) ==> exists s, exit :: MissedFrom(s, exit, lat, cosine)
  {
    if WindowFits(cosine) {
      forall segments, exit: Exit, best, within | exit.lat == lat && IsAnswer(segments, exit, cosine, best, within)
        ensures within <==> SomePointWithin10m(segments, exit, cosine)
      {
        AnswerIsRight(segments, exit, cosine, best, within);
      }
    } else {
      var s, exit := MissedBeyondWindow(lat, cosine);
      assert s in [s] && MissedFrom(s, exit, lat, cosine);
    }
  }

  /** The station segment nearest to the exit among those found, and whether it is within ten metres. As long as the
      search window reaches ten metres, that is exactly whether any point of any segment of the station is. */
  method NearestSegment(bins: Bins, ghost segments: seq<Segment>, exit: Exit, cosine: real)
    returns (best: Option<Segment>, within: bool)
    requires Indexes(bins, segments)
    ensures IsAnswer(segments, exit, cosine, best, within)
    ensures best.Some? ==> NoneNearer(segments, exit, cosine, best.value)
    ensures within ==> SomePointWithin10m(segments, exit, cosine)
    ensures WindowFits(cosine) ==> (within <==> SomePointWithin10m(segments, exit, cosine))
  {
    var candidates := Candidates(bins, exit);
    forall s ensures s in candidates <==> s in segments && SeenFrom(s, exit) {}
    best := None;
    for i := 0 to |candidates|
      invariant best.Some? <==> i > 0
      invariant best.Some? ==> best.value in candidates
      invariant forall j :: 0 <= j < i ==> Gap2(best.value, exit, cosine) <= Gap2(candidates[j], exit, cosine)
    {
      if best.None? || Gap2(candidates[i], exit, cosine) < Gap2(best.value, exit, cosine) {
        best := Some(candidates[i]);
      }
    }
    within := best.Some? && Gap2(best.value, exit, cosine) <= 100.0;
    AnswerIsRight(segments, exit, cosine, best, within);
    if best.Some? { BestIsNearest(segments, exit, cosine, best, within); }
  }

  // ----- the nearest point of a floor's network -----

  /** A straight piece of an edge's line; a line of one point is a piece from the point to itself. */
  datatype Piece = Piece(edge: nat, a: Vector, b: Vector)

  datatype Found = Found(distance2: real, edge: nat, p: Vector)

  function SegmentPieces(edge: nat, line: seq<Vector>, n: nat): seq<Piece>
    requires n < |line|
  {
    if n == 0 then [] else SegmentPieces(edge, line, n - 1) + [Piece(edge, line[n - 1], line[n])]
  }

  function LinePieces(edge: nat, line: seq<Vector>): seq<Piece> {
    if |line| == 1 then [Piece(edge, line[0], line[0])]
    else if |line| == 0 then []
    else SegmentPieces(edge, line, |line| - 1)
  }

  function EdgePieces(edge: nat, lines: seq<seq<Vector>>): seq<Piece> {
    if lines == [] then []
    else EdgePieces(edge, lines[..|lines| - 1]) + LinePieces(edge, lines[|lines| - 1])
  }

  function AllPieces(edges: seq<seq<seq<Vector>>>): seq<Piece> {
    if edges == [] then []
    else AllPieces(edges[..|edges| - 1]) + EdgePieces(|edges| - 1, edges[|edges| - 1])
  }

  /** The horizontal offset of a point from (x, y). */
  function Offset(p: Vector, x: real, y: real): Vector { Vector(p.x - x, p.y - y, 0.0) }

  /** The squared distance on the map, heights apart. */
  function Plan2(p: Vector, x: real, y: real): real { Square(p.x - x) + Square(p.y - y) }

  lemma OffsetIsPlan(p: Vector, x: real, y: real)
    ensures Offset(p, x, y).Square() == Plan2(p, x, y)
  {}

  /** Nothing when there are no pieces; otherwise a point of one of them, with its squared horizontal distance, that no
      point of any piece undercuts. */
  ghost predicate IsNearest(best: Option<Found>, pieces: seq<Piece>, x: real, y: real) {
    && (best.None? <==> pieces == [])
    && (best.Some? ==>
          && best.value.distance2 == Plan2(best.value.p, x, y)
          && (exists i, t :: 0 <= i < |pieces| && 0.0 <= t <= 1.0 && pieces[i].edge == best.value.edge
                             && best.value.p == At(pieces[i].a, pieces[i].b, t))
          && forall i, t :: 0 <= i < |pieces| && 0.0 <= t <= 1.0 ==>
               best.value.distance2 <= Plan2(At(pieces[i].a, pieces[i].b, t), x, y))
  }

  lemma OffsetAlong(a: Vector, b: Vector, t: real, x: real, y: real)
    ensures Offset(At(a, b, t), x, y) == At(Offset(a, x, y), Offset(b, x, y), t)
  {
    assert t * ((b.x - x) - (a.x - x)) == t * (b.x - a.x);
    assert t * ((b.y - y) - (a.y - y)) == t * (b.y - a.y);
  }

  /** The clamped projection of (x, y) on a piece, kept when strictly nearer than the best so far. */
  method Consider(best: Option<Found>, ghost pieces: seq<Piece>, piece: Piece, x: real, y: real)
    returns (better: Option<Found>)
    requires IsNearest(best, pieces, x, y)
    ensures IsNearest(better, pieces + [piece], x, y)
  {
    var a, b := Offset(piece.a, x, y), Offset(piece.b, x, y);
    var fraction := Nearest(a, b);
    var p := At(piece.a, piece.b, fraction);
    var candidate := Found(Offset(p, x, y).Square(), piece.edge, p);
    ghost var all := pieces + [piece];
    OffsetIsPlan(p, x, y);
    forall t | 0.0 <= t <= 1.0 ensures candidate.distance2 <= Plan2(At(piece.a, piece.b, t), x, y) {
      OffsetIsPlan(At(piece.a, piece.b, t), x, y);
      OffsetAlong(piece.a, piece.b, t, x, y);
      OffsetAlong(piece.a, piece.b, fraction, x, y);
      NearestIsNearest(a, b, t);
    }
    if best.None? || candidate.distance2 < best.value.distance2 {
      better := Some(candidate);
      assert all[|pieces|] == piece;
    } else {
      better := best;
      ghost var i, t :| 0 <= i < |pieces| && 0.0 <= t <= 1.0 && pieces[i].edge == best.value.edge
                  && best.value.p == At(pieces[i].a, pieces[i].b, t);
      assert all[i] == pieces[i];
    }
  }

  method ConsiderLine(best: Option<Found>, ghost seen: seq<Piece>, e: nat, line: seq<Vector>, x: real, y: real)
    returns (better: Option<Found>)
    requires IsNearest(best, seen, x, y)
    ensures IsNearest(better, seen + LinePieces(e, line), x, y)
  {
    better := best;
    assert seen + [] == seen;
    if |line| == 1 {
      better := Consider(better, seen, Piece(e, line[0], line[0]), x, y);
      return;
    }
    if line == [] {
      return;
    }
    for i := 1 to |line|
      invariant IsNearest(better, seen + SegmentPieces(e, line, i - 1), x, y)
    {
      ghost var earlier := seen + SegmentPieces(e, line, i - 1);
      var piece := Piece(e, line[i - 1], line[i]);
      assert earlier + [piece] == seen + SegmentPieces(e, line, i);
      better := Consider(better, earlier, piece, x, y);
    }
  }

  lemma EdgePiecesStep(seen: seq<Piece>, e: nat, lines: seq<seq<Vector>>, l: nat)
    requires l < |lines|
    ensures (seen + EdgePieces(e, lines[..l])) + LinePieces(e, lines[l]) == seen + EdgePieces(e, lines[..l + 1])
  {
    assert lines[..l + 1][..l] == lines[..l];
  }

  method ConsiderEdge(best: Option<Found>, ghost seen: seq<Piece>, e: nat, lines: seq<seq<Vector>>, x: real, y: real)
    returns (better: Option<Found>)
    requires IsNearest(best, seen, x, y)
    ensures IsNearest(better, seen + EdgePieces(e, lines), x, y)
  {
    better := best;
    assert seen + [] == seen;
    for l := 0 to |lines|
      invariant IsNearest(better, seen + EdgePieces(e, lines[..l]), x, y)
    {
      EdgePiecesStep(seen, e, lines, l);
      better := ConsiderLine(better, seen + EdgePieces(e, lines[..l]), e, lines[l], x, y);
    }
    assert lines[..|lines|] == lines;
  }

  /** The point of the floor's edges nearest to (x, y) on the map, or nothing when they have no points. */
  method NearestPointOnNetwork(x: real, y: real, edges: seq<seq<seq<Vector>>>) returns (best: Option<Found>)
    ensures IsNearest(best, AllPieces(edges), x, y)
  {
    best := None;
    for e := 0 to |edges|
      invariant IsNearest(best, AllPieces(edges[..e]), x, y)
    {
      best := ConsiderEdge(best, AllPieces(edges[..e]), e, edges[e], x, y);
      assert edges[..e + 1][..e] == edges[..e];
    }
    assert edges[..|edges|] == edges;
  }
}
