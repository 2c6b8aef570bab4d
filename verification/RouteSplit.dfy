/** One piece of a route line: the point at a distance along the line, the removal of repeated points, and the slice
    between two distances. The distance between two vertices is an arbitrary function. */
module RouteSplit {
  import opened Basics
  import opened Reals

  type Point = seq<real>

  /** Positions along the line closer than this are taken as one, in metres. */
  const STEP := 0.000000001

  /** Coordinates closer than this are taken as one. */
  const SAME := 0.000000000001

  function AtLeastZero(x: real): real { if x < 0.0 then 0.0 else x }

  ghost predicate Ascending(cum: seq<real>) {
    forall i, j :: 0 <= i <= j < |cum| ==> cum[i] <= cum[j]
  }

  /** The distances of at least two vertices from the start. */
  ghost predicate Measured(cum: seq<real>) { |cum| >= 2 && cum[0] == 0.0 && Ascending(cum) }

  /** A line of at least two vertices with the distance of each from the start. */
  ghost predicate Line(coords: seq<Point>, cum: seq<real>) {
    |coords| == |cum| && Measured(cum)
  }

  function Last<T>(s: seq<T>): T
    requires |s| > 0
  {
    s[|s| - 1]
  }

  // ----- Distances from the start -----

  function Cumulative(coords: seq<Point>, measure: (Point, Point) -> real): (cum: seq<real>)
    requires |coords| > 0
    ensures |cum| == |coords| && cum[0] == 0.0 && Ascending(cum)
  {
    var n := |coords|;
    if n == 1 then [0.0]
    else
      var before := Cumulative(coords[..n - 1], measure);
      before + [before[n - 2] + AtLeastZero(measure(coords[n - 2], coords[n - 1]))]
  }

  /** From vertex to vertex the distance grows by the measure, or not at all where that is negative. */
  lemma {:induction false} CumulativeSteps(coords: seq<Point>, measure: (Point, Point) -> real, k: nat)
    requires 0 < k < |coords|
    ensures var step := Cumulative(coords, measure)[k] - Cumulative(coords, measure)[k - 1];
      var length := measure(coords[k - 1], coords[k]);
      (length >= 0.0 ==> step == length) && (length < 0.0 ==> step == 0.0)
  {
    if k + 1 < |coords| { CumulativeSteps(coords[..|coords| - 1], measure, k); }
  }

  method MeasureLine(coords: seq<Point>, measure: (Point, Point) -> real) returns (cum: seq<real>)
    requires |coords| > 0
    ensures cum == Cumulative(coords, measure)
  {
    cum := [0.0];
    for i := 1 to |coords|
      invariant cum == Cumulative(coords[..i], measure)
    {
      cum := cum + [cum[i - 1] + AtLeastZero(measure(coords[i - 1], coords[i]))];
      assert coords[..i + 1][..i] == coords[..i];
    }
    assert coords[..|coords|] == coords;
  }

  // ----- The point at a distance -----

  function Between(a: Point, b: Point, ratio: real): Point {
    seq(if |a| < |b| then |a| else |b|,
        i requires 0 <= i < |a| && i < |b| => a[i] + (b[i] - a[i]) * ratio)
  }

  /** What the edge that starts at vertex i answers. */
  function OnEdge(coords: seq<Point>, cum: seq<real>, d: real, i: nat): Point
    requires |coords| == |cum| && i + 1 < |cum|
  {
    if cum[i + 1] - cum[i] <= STEP then coords[i + 1]
    else Between(coords[i], coords[i + 1], (d - cum[i]) / (cum[i + 1] - cum[i]))
  }

  function PointFrom(coords: seq<Point>, cum: seq<real>, d: real, i: nat): Point
    requires |coords| == |cum| && i < |cum|
    decreases |cum| - i
  {
    if i + 1 == |cum| then Last(coords)
    else if d <= cum[i + 1] + STEP then OnEdge(coords, cum, d, i)
    else PointFrom(coords, cum, d, i + 1)
  }

  function PointAt(coords: seq<Point>, cum: seq<real>, d: real): Point
    requires |coords| == |cum| > 0
  {
    if d <= 0.0 then coords[0]
    else if d >= Last(cum) then Last(coords)
    else PointFrom(coords, cum, d, 0)
  }

  method PointAtDistance(coords: seq<Point>, cum: seq<real>, d: real) returns (p: Point)
    requires |coords| == |cum| > 0
    ensures p == PointAt(coords, cum, d)
  {
    if d <= 0.0 { return coords[0]; }
    if d >= cum[|cum| - 1] { return coords[|coords| - 1]; }
    for i := 0 to |cum| - 1
      invariant PointAt(coords, cum, d) == PointFrom(coords, cum, d, i)
    {
      if d <= cum[i + 1] + STEP {
        if cum[i + 1] - cum[i] <= STEP { return coords[i + 1]; }
        return Between(coords[i], coords[i + 1], (d - cum[i]) / (cum[i + 1] - cum[i]));
      }
    }
    return coords[|coords| - 1];
  }

  /** p has the coordinates that both points have, each as far from a towards b as the part is of the length. */
  ghost predicate InProportion(a: Point, b: Point, part: real, length: real, p: Point) {
    && (|p| == |a| <= |b| || |p| == |b| <= |a|)
    && forall j :: 0 <= j < |p| ==> Proportional(p[j] - a[j], b[j] - a[j], part, length)
  }

  /** p lies on the edge of vertex i, or on its line, at the distance `at` from the start of the whole line: it is an
      end of the edge, or each coordinate is as much of the way along as `at` is of the edge's stretch of distance. */
  ghost predicate Lies(coords: seq<Point>, cum: seq<real>, i: nat, at: real, p: Point)
    requires |coords| == |cum| && i + 1 < |cum|
  {
    || (at == cum[i] && p == coords[i]) || (at == cum[i + 1] && p == coords[i + 1])
    || (cum[i] < cum[i + 1] && InProportion(coords[i], coords[i + 1], at - cum[i], cum[i + 1] - cum[i], p))
  }

  /** p lies on some edge or at most a billionth of a metre past its end, and as close to the distance asked for. */
  ghost predicate LiesAt(coords: seq<Point>, cum: seq<real>, d: real, p: Point)
    requires |coords| == |cum|
  {
    exists i: nat, at: real ::
      && i + 1 < |cum| && Lies(coords, cum, i, at, p)
      && cum[i] <= at <= cum[i + 1] + 0.000000001 && -0.000000001 <= at - d <= 0.000000001
  }

  /** The search for d stops at the edge of vertex i. */
  predicate Takes(cum: seq<real>, d: real, i: nat) {
    i + 1 < |cum| && (i == 0 || cum[i] + 0.000000001 < d) && d <= cum[i + 1] + 0.000000001
  }

  lemma {:induction false} EdgeTaken(coords: seq<Point>, cum: seq<real>, d: real, from: nat) returns (i: nat)
    requires |coords| == |cum| && from + 1 < |cum|
    requires d < Last(cum) && (from == 0 || cum[from] + 0.000000001 < d)
    ensures Takes(cum, d, i) && PointFrom(coords, cum, d, from) == OnEdge(coords, cum, d, i)
    decreases |cum| - from
  {
    if d <= cum[from + 1] + STEP {
      i := from;
    } else {
      i := EdgeTaken(coords, cum, d, from + 1);
    }
  }

  lemma OneEdgeTaken(cum: seq<real>, d: real, i: nat, j: nat)
    requires Ascending(cum) && Takes(cum, d, i) && Takes(cum, d, j)
    ensures i == j
  {}

  lemma BetweenInProportion(a: Point, b: Point, part: real, length: real)
    requires length > 0.0
    ensures InProportion(a, b, part, length, Between(a, b, part / length))
  {
    var p := Between(a, b, part / length);
    forall j | 0 <= j < |p| ensures Proportional(p[j] - a[j], b[j] - a[j], part, length) {
      ProportionalFraction(b[j] - a[j], part, length);
    }
  }

  lemma EdgeAnswers(coords: seq<Point>, cum: seq<real>, d: real, i: nat)
    requires Line(coords, cum) && 0.0 < d && Takes(cum, d, i)
    ensures LiesAt(coords, cum, d, OnEdge(coords, cum, d, i))
  {
    var length := cum[i + 1] - cum[i];
    if length <= STEP {
      assert Lies(coords, cum, i, cum[i + 1], coords[i + 1]);
    } else {
      BetweenInProportion(coords[i], coords[i + 1], d - cum[i], length);
      assert Lies(coords, cum, i, d, OnEdge(coords, cum, d, i));
    }
  }

  /** The answer is on the line, at the asked distance up to STEP. */
  lemma PointIsAtDistance(coords: seq<Point>, cum: seq<real>, d: real)
    requires Line(coords, cum) && 0.0 <= d <= Last(cum)
    ensures LiesAt(coords, cum, d, PointAt(coords, cum, d))
  {
    var n := |cum|;
    if d <= 0.0 {
      assert Lies(coords, cum, 0, 0.0, coords[0]);
    } else if d >= Last(cum) {
      assert Lies(coords, cum, n - 2, cum[n - 1], coords[n - 1]);
    } else {
      var i := EdgeTaken(coords, cum, d, 0);
      EdgeAnswers(coords, cum, d, i);
    }
  }

  // ----- When the point is exact -----

  /** p lies on some edge at exactly the distance asked for. */
  ghost predicate LiesExactlyAt(coords: seq<Point>, cum: seq<real>, d: real, p: Point)
    requires |coords| == |cum|
  {
    exists i: nat :: i + 1 < |cum| && Lies(coords, cum, i, d, p) && cum[i] <= d <= cum[i + 1]
  }

  /** The edge taken ends before d, or is too short to be divided and does not end at d. */
  predicate EndsElsewhere(cum: seq<real>, d: real, i: nat)
    requires i + 1 < |cum|
  {
    if cum[i + 1] - cum[i] <= 0.000000001 then d != cum[i + 1] else d > cum[i + 1]
  }

  /** Strictly inside the line, and the edge at which the search stops ends elsewhere. */
  predicate Misplaced(cum: seq<real>, d: real) {
    |cum| > 0 && 0.0 < d < Last(cum) && exists i :: 0 <= i < |cum| && Takes(cum, d, i) && EndsElsewhere(cum, d, i)
  }

  lemma EdgeIsExact(coords: seq<Point>, cum: seq<real>, d: real, i: nat)
    requires Line(coords, cum) && 0.0 < d && Takes(cum, d, i) && !EndsElsewhere(cum, d, i)
    ensures LiesExactlyAt(coords, cum, d, OnEdge(coords, cum, d, i))
  {
    var length := cum[i + 1] - cum[i];
    if length > STEP { BetweenInProportion(coords[i], coords[i + 1], d - cum[i], length); }
    assert Lies(coords, cum, i, d, OnEdge(coords, cum, d, i));
  }

  /** The answer lies on the line, exactly at the asked distance, unless that is misplaced. */
  lemma PointIsExact(coords: seq<Point>, cum: seq<real>, d: real)
    requires Line(coords, cum) && 0.0 <= d <= Last(cum) && !Misplaced(cum, d)
    ensures LiesExactlyAt(coords, cum, d, PointAt(coords, cum, d))
  {
    var n := |cum|;
    if d <= 0.0 {
      assert Lies(coords, cum, 0, d, coords[0]) && cum[0] <= d <= cum[1];
    } else if d >= Last(cum) {
      assert Lies(coords, cum, n - 2, d, coords[n - 1]) && cum[n - 2] <= d <= cum[n - 1];
    } else {
      var i := EdgeTaken(coords, cum, d, 0);
      EdgeIsExact(coords, cum, d, i);
    }
  }

  /** A line that goes north by one from vertex to vertex, all at longitude 0 but vertex k, which is at 1. */
  function Peak(n: nat, k: nat): seq<Point> { seq(n, i => [if i == k then 1.0 else 0.0, i as real]) }

  function Mark(cum: seq<real>, p: Point): real {
    if |p| == 2 && 0 <= p[1].Floor < |cum| then cum[p[1].Floor] else 0.0
  }

  /** A measure under which the vertices of the line have the given distances. */
  function Spacing(cum: seq<real>): (Point, Point) -> real { (p, q) => Mark(cum, q) - Mark(cum, p) }

  lemma {:induction false} PeakIsMeasured(cum: seq<real>, k: nat, n: nat)
    requires Measured(cum) && 0 < n <= |cum|
    ensures Cumulative(Peak(|cum|, k)[..n], Spacing(cum)) == cum[..n]
  {
    var coords := Peak(|cum|, k)[..n];
    if n > 1 {
      PeakIsMeasured(cum, k, n - 1);
      assert coords[..n - 1] == Peak(|cum|, k)[..n - 1];
      assert Spacing(cum)(coords[n - 2], coords[n - 1]) == cum[n - 1] - cum[n - 2];
      assert cum[n - 2] <= cum[n - 1];
      assert cum[..n] == cum[..n - 1] + [cum[n - 1]];
    }
  }

  /** Going out by 1 over the length, only its end is out by 1. */
  lemma WayOut(x: real, part: real, length: real)
    requires Proportional(x, 1.0, part, length) && part <= length && length > 0.0 && x >= 1.0
    ensures x == 1.0 && part == length
  {
    assert x * length == part;
    if x > 1.0 { LessTimes(1.0, x, length); }
  }

  /** Coming back by 1 over the length, only its start is not back. */
  lemma WayBack(x: real, part: real, length: real)
    requires Proportional(x, -1.0, part, length) && part >= 0.0 && length > 0.0 && x >= 0.0
    ensures x == 0.0 && part == 0.0
  {
    assert x * length == -part;
    if x > 0.0 { LessTimes(0.0, x, length); }
  }

  lemma NoWay(x: real, part: real, length: real)
    requires Proportional(x, 0.0, part, length) && length > 0.0
    ensures x == 0.0
  {
    assert x * length == 0.0;
    if x > 0.0 { LessTimes(0.0, x, length); }
    if x < 0.0 { LessTimes(x, 0.0, length); }
  }

  /** The only point of the line as far out as its peak is the peak. */
  lemma OnlyPeakIsFar(cum: seq<real>, k: nat, i: nat, at: real, p: Point)
    requires i + 1 < |cum| && k < |cum| && cum[i] <= at <= cum[i + 1] && |p| > 0 && p[0] >= 1.0
    requires Lies(Peak(|cum|, k), cum, i, at, p)
    ensures p[0] == 1.0 && at == cum[k]
  {
    var a, b := Peak(|cum|, k)[i], Peak(|cum|, k)[i + 1];
    if p != a && p != b {
      var part, length := at - cum[i], cum[i + 1] - cum[i];
      if i + 1 == k {
        WayOut(p[0], part, length);
      } else if i == k {
        WayBack(p[0] - 1.0, part, length);
      } else {
        NoWay(p[0], part, length);
      }
    }
  }

  /** What the edge that leads to the peak answers. */
  lemma PeakAnswer(cum: seq<real>, d: real, i: nat) returns (p: Point)
    requires i + 1 < |cum| && EndsElsewhere(cum, d, i)
    ensures OnEdge(Peak(|cum|, i + 1), cum, d, i) == p && |p| > 0
    ensures p[0] > 1.0 || (p[0] == 1.0 && d != cum[i + 1])
  {
    var length := cum[i + 1] - cum[i];
    p := OnEdge(Peak(|cum|, i + 1), cum, d, i);
    if length > STEP {
      var ratio := (d - cum[i]) / length;
      assert Product(ratio, length) == d - cum[i];
      if ratio < 1.0 { LessTimes(ratio, 1.0, length); }
      assert p[0] == ratio;
    }
  }

  lemma PeakMisses(cum: seq<real>, d: real, i: nat)
    requires Measured(cum) && 0.0 < d < Last(cum) && Takes(cum, d, i) && EndsElsewhere(cum, d, i)
    ensures var coords := Peak(|cum|, i + 1); !LiesExactlyAt(coords, cum, d, PointAt(coords, cum, d))
  {
    var coords := Peak(|cum|, i + 1);
    var j := EdgeTaken(coords, cum, d, 0);
    OneEdgeTaken(cum, d, i, j);
    var p := PeakAnswer(cum, d, i);
    forall e: nat | e + 1 < |cum| && cum[e] <= d <= cum[e + 1] ensures !Lies(coords, cum, e, d, p) {
      if Lies(coords, cum, e, d, p) { OnlyPeakIsFar(cum, i + 1, e, d, p); }
    }
  }

  /** The line that peaks where the edge taken ends has the given distances under some measure, and no point of it at
      the distance asked for is the answer. */
  lemma MisplacedOnPeak(cum: seq<real>, d: real) returns (coords: seq<Point>, measure: (Point, Point) -> real)
    requires Measured(cum) && Misplaced(cum, d)
    ensures |coords| == |cum| && Cumulative(coords, measure) == cum
    ensures !LiesExactlyAt(coords, cum, d, PointAt(coords, cum, d))
  {
    var i :| 0 <= i < |cum| && Takes(cum, d, i) && EndsElsewhere(cum, d, i);
    coords, measure := Peak(|cum|, i + 1), Spacing(cum);
    PeakIsMeasured(cum, i + 1, |cum|);
    assert coords[..|cum|] == coords && cum[..|cum|] == cum;
    PeakMisses(cum, d, i);
  }

  /** On every line that is measured to have these distances the answer is exactly at the asked one. */
  ghost predicate AlwaysExact(cum: seq<real>, d: real) {
    forall coords, measure | |coords| == |cum| > 0 && Cumulative(coords, measure) == cum ::
      LiesExactlyAt(coords, cum, d, PointAt(coords, cum, d))
  }

  /** The answer is always exactly at the asked distance exactly when that is not misplaced. */
  lemma ExactIff(cum: seq<real>, d: real)
    requires Measured(cum) && 0.0 <= d <= Last(cum)
    ensures AlwaysExact(cum, d) <==> !Misplaced(cum, d)
  {
    if Misplaced(cum, d) {
      var coords, measure := MisplacedOnPeak(cum, d);
    } else {
      forall coords, measure | |coords| == |cum| > 0 && Cumulative(coords, measure) == cum
        ensures LiesExactlyAt(coords, cum, d, PointAt(coords, cum, d))
      {
        PointIsExact(coords, cum, d);
      }
    }
  }

  // ----- The point at a vertex -----

  lemma {:induction false} SearchFindsVertex(coords: seq<Point>, cum: seq<real>, i: nat, from: nat)
    requires Line(coords, cum) && from < i < |cum|
    requires cum[i - 1] + 0.000000001 < cum[i] && |coords[i]| <= |coords[i - 1]|
    ensures PointFrom(coords, cum, cum[i], from) == coords[i]
    decreases i - from
  {
    if from + 1 < i {
      assert cum[from + 1] <= cum[i - 1];
      SearchFindsVertex(coords, cum, i, from + 1);
    } else {
      var length := cum[i] - cum[i - 1];
      RatioOfSame(length);
      assert Between(coords[i - 1], coords[i], 1.0) == coords[i];
    }
  }

  /** At the distance of a vertex that ends a proper edge the answer is that vertex. */
  lemma PointAtVertex(coords: seq<Point>, cum: seq<real>, i: nat)
    requires Line(coords, cum) && 0 < i < |cum|
    requires cum[i - 1] + 0.000000001 < cum[i] && |coords[i]| <= |coords[i - 1]|
    requires i + 1 < |cum| ==> cum[i] < Last(cum)
    ensures PointAt(coords, cum, cum[i]) == coords[i]
  {
    assert cum[0] <= cum[i - 1];
    SearchFindsVertex(coords, cum, i, 0);
  }

  // ----- Removing repeated points -----

  /** The same coordinates, up to a millionth of a millionth each. */
  predicate Near(a: Point, b: Point) {
    |a| == |b| && forall i :: 0 <= i < |a| ==> -0.000000000001 <= a[i] - b[i] <= 0.000000000001
  }

  /** The test that the removal of repeated points makes. */
  predicate Differ(a: Point, b: Point) {
    |a| != |b| || exists i :: 0 <= i < |a| && i < |b| && Abs(a[i] - b[i]) > SAME
  }

  lemma DifferIffNotNear(a: Point, b: Point)
    ensures Differ(a, b) <==> !Near(a, b)
  {}

  function Deduped(s: seq<Point>): (r: seq<Point>)
    ensures s == [] <==> r == []
  {
    if |s| <= 1 then s
    else
      var front := Deduped(s[..|s| - 1]);
      if Near(Last(front), Last(s)) then front else front + [Last(s)]
  }

  method DedupeCoordinates(s: seq<Point>) returns (r: seq<Point>)
    ensures r == Deduped(s)
  {
    if |s| == 0 { return s; }
    r := [s[0]];
    for i := 1 to |s|
      invariant r == Deduped(s[..i])
    {
      assert s[..i + 1][..i] == s[..i];
      DifferIffNotNear(r[|r| - 1], s[i]);
      if Differ(r[|r| - 1], s[i]) { r := r + [s[i]]; }
    }
    assert s[..|s|] == s;
  }

  lemma NearItself(p: Point)
    ensures Near(p, p)
  {
  }

  /** The first point stays, the last is met up to SAME, and no two neighbours are the same. */
  lemma {:induction false} DedupedKeepsEnds(s: seq<Point>)
    requires |s| > 0
    ensures Deduped(s)[0] == s[0] && Near(Last(Deduped(s)), Last(s))
    ensures forall i :: 0 < i < |Deduped(s)| ==> !Near(Deduped(s)[i - 1], Deduped(s)[i])
    ensures forall p :: p in Deduped(s) ==> p in s
  {
    NearItself(Last(s));
    if |s| > 1 {
      var front := s[..|s| - 1];
      DedupedKeepsEnds(front);
      assert forall p :: p in front ==> p in s;
    }
  }

  lemma {:induction false} DedupedUnchanged(s: seq<Point>)
    requires forall i :: 0 < i < |s| ==> !Near(s[i - 1], s[i])
    ensures Deduped(s) == s
  {
    if |s| > 1 {
      var front := s[..|s| - 1];
      DedupedUnchanged(front);
      assert !Near(s[|s| - 2], s[|s| - 1]);
      assert s == front + [Last(s)];
    }
  }

  /** Some point of s is p, up to SAME in each coordinate. */
  ghost predicate Shows(s: seq<Point>, p: Point) {
    exists q {:trigger q in s} :: q in s && Near(q, p)
  }

  /** Every given point is met by a kept one. */
  lemma {:induction false} DedupedShowsAll(s: seq<Point>, p: Point)
    requires p in s
    ensures Shows(Deduped(s), p)
  {
    var front := s[..|s| - 1];
    assert s == front + [Last(s)];
    DedupedKeepsEnds(s);
    if p != Last(s) {
      DedupedShowsAll(front, p);
      assert forall q :: q in Deduped(front) ==> q in Deduped(s);
    } else {
      assert Last(Deduped(s)) in Deduped(s);
    }
  }

  lemma DedupedIdempotent(s: seq<Point>)
    ensures Deduped(Deduped(s)) == Deduped(s)
  {
    if |s| > 0 {
      DedupedKeepsEnds(s);
      DedupedUnchanged(Deduped(s));
    }
  }

  // ----- One piece -----

  /** Inner vertices from number i on that lie strictly between the two distances. */
  function Inner(cum: seq<real>, start: real, end: real, i: nat): (s: seq<nat>)
    ensures forall k :: k in s <==> i <= k && k + 1 < |cum| && start < cum[k] < end
    ensures forall a, b :: 0 <= a < b < |s| ==> s[a] < s[b]
    decreases |cum| - i
  {
    if i + 1 >= |cum| then []
    else
      var rest := Inner(cum, start, end, i + 1);
      if start < cum[i] < end then
        assert forall b :: 0 <= b < |rest| ==> rest[b] in rest;
        [i] + rest
      else rest
  }

  function Vertices(coords: seq<Point>, at: seq<nat>): (s: seq<Point>)
    requires forall k :: k in at ==> k < |coords|
  {
    seq(|at|, j requires 0 <= j < |at| => assert at[j] in at; coords[at[j]])
  }

  /** The piece before repeated points are removed. */
  function Raw(coords: seq<Point>, cum: seq<real>, start: real, end: real): seq<Point>
    requires |coords| == |cum| > 0
  {
    [PointAt(coords, cum, start)] + Vertices(coords, Inner(cum, start, end, 1)) + [PointAt(coords, cum, end)]
  }

  /** A piece no longer than STEP degenerates to one point. */
  predicate Degenerate(start: real, end: real) { end <= start + STEP }

  function Slice(coords: seq<Point>, cum: seq<real>, start: real, end: real): seq<Point>
    requires |coords| == |cum| > 0
  {
    if Degenerate(start, end) then [PointAt(coords, cum, start), PointAt(coords, cum, start)]
    else Deduped(Raw(coords, cum, start, end))
  }

  lemma VerticesStep(coords: seq<Point>, cum: seq<real>, start: real, end: real, i: nat)
    requires |coords| == |cum| && 1 <= i < |coords| - 1
    ensures var now := Vertices(coords, Inner(cum, start, end, i));
            var later := Vertices(coords, Inner(cum, start, end, i + 1));
            now == if start < cum[i] < end then [coords[i]] + later else later
  {}

  /** The collected points and the ones still to come make up the goal. */
  ghost predicate Collected(goal: seq<Point>, sliced: seq<Point>, coords: seq<Point>, at: seq<nat>)
    requires forall k :: k in at ==> k < |coords|
  {
    goal == sliced + Vertices(coords, at)
  }

  lemma CollectedStep(goal: seq<Point>, sliced: seq<Point>, coords: seq<Point>, cum: seq<real>,
                      start: real, end: real, i: nat)
    requires |coords| == |cum| && 1 <= i < |coords| - 1
    requires Collected(goal, sliced, coords, Inner(cum, start, end, i))
    ensures Collected(goal, if start < cum[i] < end then sliced + [coords[i]] else sliced,
                      coords, Inner(cum, start, end, i + 1))
  {
    VerticesStep(coords, cum, start, end, i);
    var later := Vertices(coords, Inner(cum, start, end, i + 1));
    if start < cum[i] < end {
      assert sliced + ([coords[i]] + later) == sliced + [coords[i]] + later;
    }
  }

  method AddInner(coords: seq<Point>, cum: seq<real>, start: real, end: real, first: Point)
    returns (sliced: seq<Point>)
    requires |coords| == |cum|
    ensures sliced == [first] + Vertices(coords, Inner(cum, start, end, 1))
  {
    sliced := [first];
    ghost var goal := [first] + Vertices(coords, Inner(cum, start, end, 1));
    var i := 1;
    while i < |coords| - 1
      invariant 1 <= i
      invariant Collected(goal, sliced, coords, Inner(cum, start, end, i))
    {
      CollectedStep(goal, sliced, coords, cum, start, end, i);
      if start < cum[i] < end {
        sliced := sliced + [coords[i]];
      }
      i := i + 1;
    }
    assert Inner(cum, start, end, i) == [];
  }

  method SliceRouteGeometry(coords: seq<Point>, cum: seq<real>, start: real, end: real)
    returns (piece: Option<seq<Point>>)
    requires |coords| == |cum|
    ensures piece == if coords == [] then None else Some(Slice(coords, cum, start, end))
  {
    if |coords| == 0 { return None; }
    var first := PointAtDistance(coords, cum, start);
    if end <= start + STEP { return Some([first, first]); }
    var sliced := AddInner(coords, cum, start, end, first);
    var last := PointAtDistance(coords, cum, end);
    var deduped := DedupeCoordinates(sliced + [last]);
    piece := Some(deduped);
  }
}
