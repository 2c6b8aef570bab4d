/** The positions a height request samples: its points or decoded polyline, resampled at even distances along the
    shape. Distances between positions are given by `metres`, any non-negative function. */
module HeightShape {
  import opened Basics
  import opened Reals
  import opened Polyline

  const MAX_HEIGHT_POINTS := 20000
  const MIN_RESAMPLE_DISTANCE_M := 1.0

  type Metres = (Position, Position) -> real

  ghost predicate NonNegative(metres: Metres) {
    forall a, b :: metres(a, b) >= 0.0
  }

  /** `k` times `interval`. */
  function Times(k: nat, interval: real): real {
    if k == 0 then 0.0 else Times(k - 1, interval) + interval
  }

  lemma {:induction false} TimesIsProduct(k: nat, interval: real)
    ensures Times(k, interval) == k as real * interval
  {
    if k > 0 { TimesIsProduct(k - 1, interval); }
  }

  lemma {:induction false} TimesMonotone(j: nat, k: nat, interval: real)
    requires interval > 0.0 && j <= k
    ensures Times(j, interval) <= Times(k, interval)
  {
    if j < k { TimesMonotone(j, k - 1, interval); }
  }

  /** The arc length of the shape up to its vertex `i`. */
  function ArcLength(shape: seq<Position>, metres: Metres, i: nat): real
    requires i < |shape|
  {
    if i == 0 then 0.0 else ArcLength(shape, metres, i - 1) + metres(shape[i - 1], shape[i])
  }

  function Total(shape: seq<Position>, metres: Metres): real
    requires shape != []
  {
    ArcLength(shape, metres, |shape| - 1)
  }

  function Interpolated(a: Position, b: Position, t: real): Position {
    Position(a.lon + (b.lon - a.lon) * t, a.lat + (b.lat - a.lat) * t)
  }

  /** `p` lies on the segment that ends at vertex `i`, at arc length `s` along the whole shape: as much of the way from
      the vertex before, in longitude and in latitude, as `s` is of the segment's stretch of arc length. */
  predicate OnSegment(shape: seq<Position>, metres: Metres, s: real, p: Position, i: nat)
    requires 0 < i < |shape|
  {
    var a, b, start, end := shape[i - 1], shape[i], ArcLength(shape, metres, i - 1), ArcLength(shape, metres, i);
    && start < s <= end
    && Proportional(p.lon - a.lon, b.lon - a.lon, s - start, end - start)
    && Proportional(p.lat - a.lat, b.lat - a.lat, s - start, end - start)
  }

  /** `p` is the point of the shape at arc length `s`. */
  ghost predicate AtArcLength(shape: seq<Position>, metres: Metres, s: real, p: Position)
    requires shape != []
  {
    (s == 0.0 && p == shape[0]) || exists i :: 0 < i < |shape| && OnSegment(shape, metres, s, p, i)
  }

  /** How many whole intervals fit in the shape. */
  function WholeIntervals(total: real, interval: real): int
    requires interval > 0.0
  {
    (total / interval).Floor
  }

  lemma WholeIntervalsIs(total: real, interval: real, k: nat)
    requires interval > 0.0 && Times(k, interval) <= total < Times(k + 1, interval)
    ensures WholeIntervals(total, interval) == k
  {
    TimesIsProduct(k, interval);
    TimesIsProduct(k + 1, interval);
    QuotientWithin(total, interval, k as real);
  }

  /** The samples so far: sample `k` at arc length `k` intervals. */
  ghost predicate Samples(shape: seq<Position>, metres: Metres, interval: real, output: seq<Position>)
    requires shape != []
  {
    output != [] && forall k :: 0 <= k < |output| ==> AtArcLength(shape, metres, Times(k, interval), output[k])
  }

  lemma InterpolatedIsProportional(a: Position, b: Position, along: real, length: real)
    requires length > 0.0
    ensures var p := Interpolated(a, b, along / length);
      && Proportional(p.lon - a.lon, b.lon - a.lon, along, length)
      && Proportional(p.lat - a.lat, b.lat - a.lat, along, length)
  {
    ProportionalFraction(b.lon - a.lon, along, length);
    ProportionalFraction(b.lat - a.lat, along, length);
  }

  lemma SampleStep(shape: seq<Position>, metres: Metres, interval: real, output: seq<Position>, i: nat, along: real)
    requires 0 < i < |shape| && Samples(shape, metres, interval, output)
    requires along == Times(|output|, interval) - ArcLength(shape, metres, i - 1)
    requires 0.0 < along <= metres(shape[i - 1], shape[i])
    ensures Samples(shape, metres, interval,
                    output + [Interpolated(shape[i - 1], shape[i], along / metres(shape[i - 1], shape[i]))])
  {
    var p := Interpolated(shape[i - 1], shape[i], along / metres(shape[i - 1], shape[i]));
    var s := Times(|output|, interval);
    assert ArcLength(shape, metres, i) - ArcLength(shape, metres, i - 1) == metres(shape[i - 1], shape[i]);
    InterpolatedIsProportional(shape[i - 1], shape[i], along, metres(shape[i - 1], shape[i]));
    assert OnSegment(shape, metres, s, p, i);
    var more := output + [p];
    forall k | 0 <= k < |more| ensures AtArcLength(shape, metres, Times(k, interval), more[k]) {
      if k < |output| { assert more[k] == output[k]; }
    }
  }

  lemma Archimedean(length: real, interval: real) returns (n: nat)
    requires interval > 0.0 && length >= 0.0
    ensures Times(n, interval) >= length
  {
    var q := length / interval;
    assert q * interval == length;
    if q < 0.0 { LessTimes(q, 0.0, interval); }
    n := q.Floor + 1;
    TimesIsProduct(n, interval);
    AtMostTimes(q, n as real, interval);
  }

  /** A resampled shape: one sample per whole interval from the start, and the shape's own end unless the last sample
      already is it, or is within a micrometre before it. */
  ghost predicate Resampled(shape: seq<Position>, metres: Metres, interval: real, output: seq<Position>)
    requires shape != [] && interval > 0.0
  {
    var n, last := WholeIntervals(Total(shape, metres), interval) + 1, shape[|shape| - 1];
    && 1 <= n <= |output| <= n + 1
    && Samples(shape, metres, interval, output[..n])
    && (|output| == n + 1 ==> output[n] == last)
    && (|output| == n + 1 <==>
          output[n - 1] != last && (Total(shape, metres) - Times(n - 1, interval) > 0.000001 || n == 1))
  }

  /** The shape has more samples than the limit, counting the start, and at least one beyond the start. */
  ghost predicate TooManySamples(shape: seq<Position>, metres: Metres, interval: real, limit: nat)
    requires shape != [] && interval > 0.0
  {
    var n := WholeIntervals(Total(shape, metres), interval) + 1;
    n > limit && n > 1
  }

  lemma WithinBudget(k: nat, budget: nat, interval: real, bound: real)
    requires interval > 0.0 && Times(k, interval) <= bound <= Times(budget, interval)
    ensures k <= budget
  {
    if k > budget { TimesMonotone(budget + 1, k, interval); }
  }

  /** The next sample is due `along` metres into segment `i`; the last one lies before its end. */
  ghost predicate Sampling(shape: seq<Position>, metres: Metres, interval: real, i: nat, output: seq<Position>,
                           along: real)
    requires 0 < i < |shape|
  {
    && Samples(shape, metres, interval, output)
    && along == Times(|output|, interval) - ArcLength(shape, metres, i - 1)
    && 0.0 < along <= metres(shape[i - 1], shape[i]) + interval
  }

  method PushSample(shape: seq<Position>, metres: Metres, interval: real, i: nat, output: seq<Position>,
                    along: real, length: real, ghost budget: nat)
    returns (more: seq<Position>)
    requires interval > 0.0 && 0 < i < |shape| && Sampling(shape, metres, interval, i, output, along)
    requires along <= length == metres(shape[i - 1], shape[i])
    requires ArcLength(shape, metres, i) <= Times(budget, interval)
    ensures Sampling(shape, metres, interval, i, more, along + interval) && |more| == |output| + 1
    ensures Times(|more| - 1, interval) <= ArcLength(shape, metres, i) && |output| <= budget
  {
    SampleStep(shape, metres, interval, output, i, along);
    WithinBudget(|output|, budget, interval, ArcLength(shape, metres, i));
    var t := along / length;
    more := output + [Interpolated(shape[i - 1], shape[i], t)];
  }

  /** The last sample lies `carried` metres, less than an interval, before vertex `i`. */
  ghost predicate Carried(shape: seq<Position>, metres: Metres, interval: real, i: nat, output: seq<Position>,
                          carried: real)
    requires i < |shape|
  {
    && Samples(shape, metres, interval, output)
    && 0.0 <= carried < interval
    && carried == ArcLength(shape, metres, i) - Times(|output| - 1, interval)
  }

  lemma {:induction false} ArcLengthNonNegative(shape: seq<Position>, metres: Metres, i: nat)
    requires NonNegative(metres) && i < |shape|
    ensures ArcLength(shape, metres, i) >= 0.0
  {
    if i > 0 { ArcLengthNonNegative(shape, metres, i - 1); }
  }

  /** Samples along one segment, `carried` metres after the last sample, or gives up when there are too many. */
  method SampleSegment(shape: seq<Position>, metres: Metres, interval: real, limit: nat, i: nat,
                       output: seq<Position>, carried: real)
    returns (more: seq<Position>, carried': real, tooMany: bool)
    requires NonNegative(metres) && interval > 0.0 && 0 < i < |shape|
    requires Carried(shape, metres, interval, i - 1, output, carried)
    requires |output| <= limit || |output| == 1
    ensures !tooMany ==> Carried(shape, metres, interval, i, more, carried') && (|more| <= limit || |more| == 1)
    ensures tooMany ==> |more| > limit && |more| > 1 && Times(|more| - 1, interval) <= ArcLength(shape, metres, i)
  {
    var length := metres(shape[i - 1], shape[i]);
    var along := interval - carried;
    more := output;
    ArcLengthNonNegative(shape, metres, i);
    ghost var budget := Archimedean(ArcLength(shape, metres, i), interval);
    while along <= length
      invariant Sampling(shape, metres, interval, i, more, along)
      invariant |more| <= limit || |more| == 1
      decreases budget - |more|
    {
      more := PushSample(shape, metres, interval, i, more, along, length, budget);
      if |more| > limit {
        return more, 0.0, true;
      }
      along := along + interval;
    }
    carried' := length - (along - interval);
    tooMany := false;
  }

  lemma {:induction false} ArcLengthMonotone(shape: seq<Position>, metres: Metres, i: nat, j: nat)
    requires NonNegative(metres) && i <= j < |shape|
    ensures ArcLength(shape, metres, i) <= ArcLength(shape, metres, j)
  {
    if i < j { ArcLengthMonotone(shape, metres, i, j - 1); }
  }

  /** Adds the shape's last point, unless the samples already end there or less than a micrometre before it. */
  method Closed(shape: seq<Position>, metres: Metres, interval: real, samples: seq<Position>, carried: real)
    returns (output: seq<Position>)
    requires interval > 0.0 && shape != [] && Carried(shape, metres, interval, |shape| - 1, samples, carried)
    ensures Resampled(shape, metres, interval, output)
    ensures WholeIntervals(Total(shape, metres), interval) == |samples| - 1
  {
    WholeIntervalsIs(Total(shape, metres), interval, |samples| - 1);
    var last := shape[|shape| - 1];
    output := samples;
    if output[|output| - 1] != last && (carried > 0.000001 || |output| == 1) {
      output := output + [last];
    }
    assert output[..|samples|] == samples;
  }

  lemma AtLeastIntervals(total: real, interval: real, k: nat)
    requires interval > 0.0 && Times(k, interval) <= total
    ensures WholeIntervals(total, interval) >= k
  {
    TimesIsProduct(k, interval);
    QuotientAtLeast(total, interval, k as real);
  }

  /** Points every interval along the shape from its start, plus its last point; fails exactly when there are more
      samples than the limit. */
  method Resample(shape: seq<Position>, metres: Metres, interval: real, limit: nat) returns (r: Option<seq<Position>>)
    requires NonNegative(metres) && interval > 0.0 && shape != []
    ensures r.None? <==> TooManySamples(shape, metres, interval, limit)
    ensures r.Some? ==> Resampled(shape, metres, interval, r.value)
  {
    var output, carried := [shape[0]], 0.0;
    assert Samples(shape, metres, interval, output);
    for i := 1 to |shape|
      invariant Carried(shape, metres, interval, i - 1, output, carried)
      invariant |output| <= limit || |output| == 1
    {
      var tooMany: bool;
      output, carried, tooMany := SampleSegment(shape, metres, interval, limit, i, output, carried);
      if tooMany {
        ArcLengthMonotone(shape, metres, i, |shape| - 1);
        AtLeastIntervals(Total(shape, metres), interval, |output| - 1);
        return None;
      }
    }
    output := Closed(shape, metres, interval, output, carried);
    r := Some(output);
  }

  // ----- the request -----

  datatype Request = Request(points: seq<Position>, encoded: Option<seq<nat>>, precision: nat,
                             resampleMetres: Option<real>)

  datatype ShapeError =
    | BothGiven
    | NeitherGiven
    | BadPrecision
    | BadPolyline(error: DecodeError)
    | EmptyShape
    | OffGlobe
    | IntervalTooSmall
    | TooManyPositions

  function Dequantise(q: Quantised, precision: nat): Position
    requires Scale(precision) > 0.0
  {
    Position(q.lon as real / Scale(precision), q.lat as real / Scale(precision))
  }

  lemma {:induction false} ScalePositive(precision: nat)
    ensures Scale(precision) > 0.0
  {
    if precision > 0 { ScalePositive(precision - 1); }
  }

  function DequantiseAll(qs: seq<Quantised>, precision: nat): seq<Position> {
    ScalePositive(precision);
    seq(|qs|, i requires 0 <= i < |qs| => Dequantise(qs[i], precision))
  }

  /** The positions a request names, before any resampling. */
  function InputShape(request: Request): Result<seq<Position>, ShapeError> {
    if request.encoded.Some? then
      if request.points != [] then Err(BothGiven)
      else if !(5 <= request.precision <= 6) then Err(BadPrecision)
      else match Decoded(request.encoded.value, 0, 0)
        case Err(error) => Err(BadPolyline(error))
        case Ok(qs) => Ok(DequantiseAll(qs, request.precision))
    else if request.points == [] then Err(NeitherGiven)
    else Ok(request.points)
  }

  predicate AllOnGlobe(shape: seq<Position>) {
    forall i :: 0 <= i < |shape| ==> -180.0 <= shape[i].lon <= 180.0 && -90.0 <= shape[i].lat <= 90.0
  }

  lemma SegmentOrder(shape: seq<Position>, metres: Metres, s: real, i: nat, j: nat)
    requires NonNegative(metres) && 0 < i < |shape| && j < |shape|
    requires ArcLength(shape, metres, i - 1) < s <= ArcLength(shape, metres, j)
    ensures i <= j && s > 0.0
  {
    ArcLengthNonNegative(shape, metres, i - 1);
    if j <= i - 1 { ArcLengthMonotone(shape, metres, j, i - 1); }
  }

  lemma OneSegment(shape: seq<Position>, metres: Metres, s: real, p: Position, q: Position, i: nat, j: nat)
    requires NonNegative(metres) && 0 < i < |shape| && 0 < j < |shape|
    requires OnSegment(shape, metres, s, p, i) && OnSegment(shape, metres, s, q, j)
    ensures p == q && s > 0.0
  {
    SegmentOrder(shape, metres, s, i, j);
    SegmentOrder(shape, metres, s, j, i);
    var a, b, start := shape[i - 1], shape[i], ArcLength(shape, metres, i - 1);
    var length := ArcLength(shape, metres, i) - start;
    ProportionalOnce(p.lon - a.lon, q.lon - a.lon, b.lon - a.lon, s - start, length);
    ProportionalOnce(p.lat - a.lat, q.lat - a.lat, b.lat - a.lat, s - start, length);
  }

  lemma PointIsUnique(shape: seq<Position>, metres: Metres, s: real, p: Position, q: Position)
    requires NonNegative(metres) && shape != []
    requires AtArcLength(shape, metres, s, p) && AtArcLength(shape, metres, s, q)
    ensures p == q
  {
    if i :| 0 < i < |shape| && OnSegment(shape, metres, s, p, i) {
      OneSegment(shape, metres, s, p, p, i, i);
      var j :| 0 < j < |shape| && OnSegment(shape, metres, s, q, j);
      OneSegment(shape, metres, s, p, q, i, j);
    } else if j :| 0 < j < |shape| && OnSegment(shape, metres, s, q, j) {
      OneSegment(shape, metres, s, q, q, j, j);
    }
  }

  /** The point at the arc length of a vertex that ends a proper segment is that vertex. */
  lemma VertexAtArcLength(shape: seq<Position>, metres: Metres, i: nat, p: Position)
    requires NonNegative(metres) && 0 < i < |shape| && metres(shape[i - 1], shape[i]) > 0.0
    requires AtArcLength(shape, metres, ArcLength(shape, metres, i), p)
    ensures p == shape[i]
  {
    assert OnSegment(shape, metres, ArcLength(shape, metres, i), shape[i], i);
    PointIsUnique(shape, metres, ArcLength(shape, metres, i), p, shape[i]);
  }

  /** The resampling of a shape is fully determined, position by position. */
  lemma ResampledIsUnique(shape: seq<Position>, metres: Metres, interval: real, output: seq<Position>,
                          other: seq<Position>)
    requires NonNegative(metres) && shape != [] && interval > 0.0
    requires Resampled(shape, metres, interval, output) && Resampled(shape, metres, interval, other)
    ensures output == other
  {
    var n := WholeIntervals(Total(shape, metres), interval) + 1;
    forall k | 0 <= k < n ensures output[k] == other[k] {
      assert output[..n][k] == output[k] && other[..n][k] == other[k];
      PointIsUnique(shape, metres, Times(k, interval), output[k], other[k]);
    }
  }

  /** The request asks for more positions than are accepted. */
  ghost predicate TooMany(shape: seq<Position>, metres: Metres, resampleMetres: Option<real>)
    requires shape != []
  {
    match resampleMetres
    case None => |shape| > 20000
    case Some(interval) =>
      interval > 0.0 && (TooManySamples(shape, metres, interval, 20000)
                         || exists output :: Resampled(shape, metres, interval, output) && |output| > 20000)
  }

  lemma SampleOnGlobe(shape: seq<Position>, metres: Metres, s: real, p: Position)
    requires shape != [] && AllOnGlobe(shape) && AtArcLength(shape, metres, s, p)
    ensures OnGlobe(p)
  {
    if i :| 0 < i < |shape| && OnSegment(shape, metres, s, p, i) {
      var start, end := ArcLength(shape, metres, i - 1), ArcLength(shape, metres, i);
      ProportionalWithin(shape[i - 1].lon, shape[i].lon, p.lon, s - start, end - start, -180.0, 180.0);
      ProportionalWithin(shape[i - 1].lat, shape[i].lat, p.lat, s - start, end - start, -90.0, 90.0);
    }
  }

  lemma ResampledOnGlobe(shape: seq<Position>, metres: Metres, interval: real, output: seq<Position>)
    requires shape != [] && interval > 0.0 && AllOnGlobe(shape) && Resampled(shape, metres, interval, output)
    ensures AllOnGlobe(output)
  {
    var n := WholeIntervals(Total(shape, metres), interval) + 1;
    forall k | 0 <= k < |output| ensures OnGlobe(output[k]) {
      if k < n {
        assert output[..n][k] == output[k];
        SampleOnGlobe(shape, metres, Times(k, interval), output[k]);
      }
    }
  }

  ghost predicate RefusedRightly(shape: seq<Position>, interval: Option<real>, metres: Metres,
                                 r: Result<(seq<Position>, bool), ShapeError>)
  {
    && (r == Err(EmptyShape) <==> shape == [])
    && (r == Err(OffGlobe) <==> shape != [] && !AllOnGlobe(shape))
    && (r == Err(IntervalTooSmall) <==>
          shape != [] && AllOnGlobe(shape) && interval.Some? && interval.value < 1.0)
    && (r == Err(TooManyPositions) <==>
          shape != [] && AllOnGlobe(shape) && (interval.Some? ==> interval.value >= 1.0)
          && TooMany(shape, metres, interval))
    && (r.Err? ==> r.error in {EmptyShape, OffGlobe, IntervalTooSmall, TooManyPositions})
  }

  /** What each result says of the request. A success holds between one position and the limit, all on the globe, and is
      the input or its resampling; every refusal names its reason. */
  ghost predicate Answers(request: Request, metres: Metres, r: Result<(seq<Position>, bool), ShapeError>) {
    && (InputShape(request).Err? ==> r == Err(InputShape(request).error))
    && (InputShape(request).Ok? ==> RefusedRightly(InputShape(request).value, request.resampleMetres, metres, r))
    && (r.Ok? ==>
          && InputShape(request).Ok? && InputShape(request).value != [] && AllOnGlobe(InputShape(request).value)
          && 1 <= |r.value.0| <= 20000 && AllOnGlobe(r.value.0)
          && r.value.1 == request.encoded.Some?
          && match request.resampleMetres
             case None => r.value.0 == InputShape(request).value
             case Some(interval) => interval >= 1.0
                                    && Resampled(InputShape(request).value, metres, interval, r.value.0))
  }

  /** The positions to sample and whether the input was an encoded polyline. */
  method RequestShape(request: Request, metres: Metres) returns (r: Result<(seq<Position>, bool), ShapeError>)
    requires NonNegative(metres)
    ensures Answers(request, metres, r)
  {
    var shape: seq<Position>;
    if request.encoded.Some? {
      if request.points != [] { return Err(BothGiven); }
      if !(5 <= request.precision <= 6) { return Err(BadPrecision); }
      var decoded := DecodePolyline(request.encoded.value);
      if decoded.Err? { return Err(BadPolyline(decoded.error)); }
      shape := DequantiseAll(decoded.value, request.precision);
    } else {
      if request.points == [] { return Err(NeitherGiven); }
      shape := request.points;
    }
    if shape == [] { return Err(EmptyShape); }
    for i := 0 to |shape|
      invariant forall j :: 0 <= j < i ==> OnGlobe(shape[j])
    {
      if !OnGlobe(shape[i]) { return Err(OffGlobe); }
    }
    var positions := shape;
    if request.resampleMetres.Some? {
      var interval := request.resampleMetres.value;
      if interval < MIN_RESAMPLE_DISTANCE_M { return Err(IntervalTooSmall); }
      var resampled := Resample(shape, metres, interval, MAX_HEIGHT_POINTS);
      if resampled.None? { return Err(TooManyPositions); }
      positions := resampled.value;
      forall other | Resampled(shape, metres, interval, other) ensures other == positions {
        ResampledIsUnique(shape, metres, interval, positions, other);
      }
      ResampledOnGlobe(shape, metres, interval, positions);
    }
    if |positions| > MAX_HEIGHT_POINTS { return Err(TooManyPositions); }
    r := Ok((positions, request.encoded.Some?));
  }

  /** Five or six decimal digits keep the quanta small. */
  lemma ScaleOfPrecision(precision: nat)
    requires 5 <= precision <= 6
    ensures Scale(precision) == if precision == 5 then 100000.0 else 1000000.0
  {
    assert Scale(3) == 1000.0;
    assert Scale(5) == 100000.0;
  }

  predicate Small(q: Quantised) {
    -180000000 <= q.lat <= 180000000 && -180000000 <= q.lon <= 180000000
  }

  lemma {:induction false} SmallDeltasFit(points: seq<Quantised>, previous: Quantised)
    requires forall i :: 0 <= i < |points| ==> Small(points[i])
    requires Small(previous)
    ensures DeltasFit(points, previous)
    decreases |points|
  {
    if points != [] { SmallDeltasFit(points[1..], points[0]); }
  }

  predicate HalfQuantum(x: real, q: int, scale: real) { -0.5 <= q as real - x * scale <= 0.5 }

  predicate WithinHalfQuantum(p: Position, q: Quantised, scale: real) {
    HalfQuantum(p.lat, q.lat, scale) && HalfQuantum(p.lon, q.lon, scale)
  }

  lemma CoordinateQuantised(x: real, scale: real)
    requires 0.0 < scale <= 1000000.0 && -180.0 <= x <= 180.0
    ensures -180000000 <= QuantiseCoordinate(x, scale) <= 180000000
    ensures HalfQuantum(x, QuantiseCoordinate(x, scale), scale)
  {
    QuantumBound(x, scale);
  }

  lemma PositionQuantised(p: Position, precision: nat)
    requires OnGlobe(p) && 0.0 < Scale(precision) <= 1000000.0
    ensures Small(Quantise(p, precision)) && WithinHalfQuantum(p, Quantise(p, precision), Scale(precision))
  {
    CoordinateQuantised(p.lat, Scale(precision));
    CoordinateQuantised(p.lon, Scale(precision));
  }

  /** Any shape that a request can be answered with re-encodes without loss beyond rounding: decoding gives its
      quantised points, each within half a quantum of the position it came from, however long the line is. */
  lemma AnsweredShapeRoundTrips(shape: seq<Position>, precision: nat)
    requires AllOnGlobe(shape) && 5 <= precision <= 6
    ensures var qs := QuantiseAll(shape, precision);
      && Decoded(Bytes(Encoded(qs, Origin)), 0, 0) == Ok(qs)
      && forall i :: 0 <= i < |shape| ==> WithinHalfQuantum(shape[i], qs[i], Scale(precision))
  {
    var qs, scale := QuantiseAll(shape, precision), Scale(precision);
    ScaleOfPrecision(precision);
    forall i | 0 <= i < |shape| ensures Small(qs[i]) && WithinHalfQuantum(shape[i], qs[i], scale) {
      PositionQuantised(shape[i], precision);
    }
    SmallDeltasFit(qs, Origin);
    EncodeDecodeRoundTrip(qs);
  }

  // ----- in degrees -----

  /** Within half of the last decimal digit. */
  predicate SameDigits(x: real, y: real, precision: nat) {
    var half := if precision == 5 then 0.000005 else 0.0000005;
    -half <= x - y <= half
  }

  predicate SamePosition(p: Position, q: Position, precision: nat) {
    SameDigits(p.lon, q.lon, precision) && SameDigits(p.lat, q.lat, precision)
  }

  /** A coordinate comes back within half of the fifth digit, and no farther out than a whole bound. */
  lemma FiveDigitsBack(x: real, bound: int)
    requires -(bound as real) <= x <= bound as real && 0 < bound <= 180
    ensures var back := QuantiseCoordinate(x, 100000.0) as real / 100000.0;
      -(bound as real) <= back <= bound as real && SameDigits(back, x, 5)
  {
    CoordinateQuantised(x, 100000.0);
    var q := QuantiseCoordinate(x, 100000.0);
    assert -100000 * bound <= q <= 100000 * bound;
  }

  lemma SixDigitsBack(x: real, bound: int)
    requires -(bound as real) <= x <= bound as real && 0 < bound <= 180
    ensures var back := QuantiseCoordinate(x, 1000000.0) as real / 1000000.0;
      -(bound as real) <= back <= bound as real && SameDigits(back, x, 6)
  {
    CoordinateQuantised(x, 1000000.0);
    var q := QuantiseCoordinate(x, 1000000.0);
    assert -1000000 * bound <= q <= 1000000 * bound;
  }

  /** A coordinate written and read back at a scale. */
  function Back(x: real, scale: real): real
    requires scale > 0.0
  {
    QuantiseCoordinate(x, scale) as real / scale
  }

  /** Comes back within half of the last digit, and no farther out than a whole bound. */
  predicate ComesBack(x: real, y: real, precision: nat, bound: int) {
    -(bound as real) <= y <= bound as real && SameDigits(y, x, precision)
  }

  lemma CoordinateBack(x: real, precision: nat, bound: int, scale: real)
    requires 5 <= precision <= 6 && -(bound as real) <= x <= bound as real && 0 < bound <= 180
    requires scale == if precision == 5 then 100000.0 else 1000000.0
    ensures ComesBack(x, Back(x, scale), precision, bound)
  {
    if precision == 5 { FiveDigitsBack(x, bound); } else { SixDigitsBack(x, bound); }
  }

  lemma PositionIsBack(p: Position, precision: nat, scale: real)
    requires scale == Scale(precision) && scale > 0.0
    ensures Dequantise(Quantise(p, precision), precision) == Position(Back(p.lon, scale), Back(p.lat, scale))
  {}

  lemma PositionBack(p: Position, precision: nat, back: Position)
    requires OnGlobe(p) && 5 <= precision <= 6 && Scale(precision) > 0.0
    requires back == Dequantise(Quantise(p, precision), precision)
    ensures OnGlobe(back) && SamePosition(back, p, precision)
  {
    var scale := Scale(precision);
    ScaleOfPrecision(precision);
    PositionIsBack(p, precision, scale);
    CoordinateBack(p.lon, precision, 180, scale);
    CoordinateBack(p.lat, precision, 90, scale);
  }

  /** The request for a shape in its encoded form, as it stands. */
  function EncodedRequest(shape: seq<Position>, precision: nat): Request {
    Request([], Some(Bytes(Encoded(QuantiseAll(shape, precision), Origin))), precision, None)
  }

  /** Requesting the encoding of any shape within the limit, without resampling, gives back the shape to the last
      decimal digit. */
  lemma EncodedRequestGivesShape(shape: seq<Position>, precision: nat, metres: Metres,
                                 r: Result<(seq<Position>, bool), ShapeError>)
    requires 1 <= |shape| <= 20000 && AllOnGlobe(shape) && 5 <= precision <= 6
    requires Answers(EncodedRequest(shape, precision), metres, r)
    ensures r.Ok? && r.value.1 && |r.value.0| == |shape|
    ensures forall i :: 0 <= i < |shape| ==> SamePosition(r.value.0[i], shape[i], precision)
  {
    var qs := QuantiseAll(shape, precision);
    AnsweredShapeRoundTrips(shape, precision);
    assert InputShape(EncodedRequest(shape, precision)) == Ok(DequantiseAll(qs, precision));
    var decoded := DequantiseAll(qs, precision);
    ScaleOfPrecision(precision);
    forall i | 0 <= i < |shape| ensures OnGlobe(decoded[i]) && SamePosition(decoded[i], shape[i], precision) {
      PositionBack(shape[i], precision, decoded[i]);
    }
    assert AllOnGlobe(decoded);
  }
}
