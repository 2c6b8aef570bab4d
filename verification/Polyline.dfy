/** The encoded-polyline codec: zigzag 64-bit deltas in five-bit groups. */
module Polyline {
  import opened Basics
  import opened Reals

  const TWO62 := 0x4000_0000_0000_0000
  const TWO63 := 0x8000_0000_0000_0000
  const TWO64 := 0x1_0000_0000_0000_0000

  datatype Position = Position(lon: real, lat: real)

  /** Coordinates rounded to whole quanta. */
  datatype Quantised = Quantised(lat: int, lon: int)

  datatype DecodeError = EndsInsideValue | InvalidCharacter | OddNumberOfValues

  /** Two's complement wrap-around of 64-bit arithmetic. */
  function Wrap64(x: int): (w: int)
    ensures -TWO63 <= w < TWO63
    ensures -TWO63 <= x < TWO63 ==> w == x
  {
    (x + TWO63) % TWO64 - TWO63
  }

  predicate Int64(x: int) { -TWO63 <= x < TWO63 }

  /** A shift left by one, complemented for negative values. */
  function Zigzag(v: int): int {
    var shifted := Wrap64(2 * v);
    if v < 0 then -shifted - 1 else shifted
  }

  function Unzigzag(r: int): int {
    if r % 2 == 1 then -(r / 2) - 1 else r / 2
  }

  /** The characters pushed for a zigzagged value: five bits at a time while the value is at least 32, then its low
      byte, offset by 63. */
  function Groups(z: int): (codes: seq<nat>)
    decreases z
  {
    if z >= 32 then [32 + z % 32 + 63] + Groups(z / 32) else [(z % 256 + 63) % 256]
  }

  /** A character below 256 in UTF-8. */
  function Utf8(code: nat): seq<nat> {
    if code < 128 then [code] else [0xC0 + code / 64, 0x80 + code % 64]
  }

  function Bytes(codes: seq<nat>): seq<nat> {
    if codes == [] then [] else Utf8(codes[0]) + Bytes(codes[1..])
  }

  method PushValue(value: int, output: seq<nat>) returns (pushed: seq<nat>)
    ensures pushed == output + Groups(Zigzag(value))
  {
    pushed := output;
    var v := if value < 0 then -Wrap64(2 * value) - 1 else Wrap64(2 * value);
    while v >= 0x20
      invariant pushed + Groups(v) == output + Groups(Zigzag(value))
    {
      assert pushed + Groups(v) == (pushed + [32 + v % 32 + 63]) + Groups(v / 32);
      pushed := pushed + [32 + v % 32 + 63];
      v := v / 32;
    }
    pushed := pushed + [(v % 256 + 63) % 256];
  }

  function Pow32(k: nat): nat { if k == 0 then 1 else 32 * Pow32(k - 1) }

  datatype Next = End | Value(v: int, rest: seq<nat>) | Bad(error: DecodeError)

  /** Reads one value: `result` holds the groups so far, `k` of them. */
  function ReadValue(bytes: seq<nat>, result: int, k: nat): (next: Next)
    ensures next.Value? ==> |next.rest| < |bytes|
    decreases bytes
  {
    if bytes == [] then if k == 0 then End else Bad(EndsInsideValue)
    else if !(63 <= bytes[0] <= 126) || 5 * k > 60 then Bad(InvalidCharacter)
    else
      var chunk := bytes[0] - 63;
      var result' := Wrap64(result + (chunk % 32) * Pow32(k));
      if chunk < 32 then Value(Unzigzag(result'), bytes[1..])
      else ReadValue(bytes[1..], result', k + 1)
  }

  /** Reads values two by two into points until the bytes end. */
  function Decoded(bytes: seq<nat>, lat: int, lon: int): Result<seq<Quantised>, DecodeError>
    decreases |bytes|
  {
    match ReadValue(bytes, 0, 0)
    case End => Ok([])
    case Bad(error) => Err(error)
    case Value(deltaLat, afterLat) =>
      match ReadValue(afterLat, 0, 0)
      case End => Err(OddNumberOfValues)
      case Bad(error) => Err(error)
      case Value(deltaLon, rest) =>
        var q := Quantised(Wrap64(lat + deltaLat), Wrap64(lon + deltaLon));
        match Decoded(rest, q.lat, q.lon)
        case Err(error) => Err(error)
        case Ok(qs) => Ok([q] + qs)
  }

  method NextValue(bytes: seq<nat>, pos: nat) returns (next: Next, pos': nat)
    requires pos <= |bytes|
    ensures next == ReadValue(bytes[pos..], 0, 0)
    ensures next.Value? ==> pos < pos' <= |bytes| && next.rest == bytes[pos'..]
  {
    var result, shift, k := 0, 0, 0;
    var scale := 1;
    pos' := pos;
    while true
      invariant pos <= pos' <= |bytes| && k == pos' - pos && shift == 5 * k && scale == Pow32(k)
      invariant ReadValue(bytes[pos..], 0, 0) == ReadValue(bytes[pos'..], result, k)
      decreases |bytes| - pos'
    {
      if pos' == |bytes| {
        return if shift == 0 then End else Bad(EndsInsideValue), pos';
      }
      var byte := bytes[pos'];
      if !(63 <= byte <= 126) || shift > 60 {
        return Bad(InvalidCharacter), pos';
      }
      assert bytes[pos'..][1..] == bytes[pos' + 1..];
      var chunk := byte - 63;
      result := Wrap64(result + (chunk % 32) * scale);
      shift, k, scale, pos' := shift + 5, k + 1, 32 * scale, pos' + 1;
      if chunk < 0x20 {
        return Value(Unzigzag(result), bytes[pos'..]), pos';
      }
    }
  }

  function Prepended(points: seq<Quantised>, r: Result<seq<Quantised>, DecodeError>)
    : Result<seq<Quantised>, DecodeError>
  {
    match r
    case Ok(qs) => Ok(points + qs)
    case Err(error) => Err(error)
  }

  lemma PrependedNothing(r: Result<seq<Quantised>, DecodeError>)
    ensures Prepended([], r) == r
  {
    if r.Ok? { assert [] + r.value == r.value; }
  }

  /** A point that has been read joins the points before it. */
  lemma PointJoins(bytes: seq<nat>, lat: int, lon: int, points: seq<Quantised>, first: Next, second: Next)
    requires first == ReadValue(bytes, 0, 0) && first.Value? && second == ReadValue(first.rest, 0, 0) && second.Value?
    ensures var q := Quantised(Wrap64(lat + first.v), Wrap64(lon + second.v));
      Prepended(points, Decoded(bytes, lat, lon)) == Prepended(points + [q], Decoded(second.rest, q.lat, q.lon))
  {
    var q := Quantised(Wrap64(lat + first.v), Wrap64(lon + second.v));
    var rest := Decoded(second.rest, q.lat, q.lon);
    if rest.Ok? { assert points + ([q] + rest.value) == (points + [q]) + rest.value; }
  }

  method DecodePolyline(bytes: seq<nat>) returns (r: Result<seq<Quantised>, DecodeError>)
    ensures r == Decoded(bytes, 0, 0)
  {
    var lat, lon, pos := 0, 0, 0;
    var points: seq<Quantised> := [];
    assert bytes[0..] == bytes;
    PrependedNothing(Decoded(bytes, 0, 0));
    while true
      invariant pos <= |bytes|
      invariant Decoded(bytes, 0, 0) == Prepended(points, Decoded(bytes[pos..], lat, lon))
      decreases |bytes| - pos
    {
      var deltaLat, afterLat := NextValue(bytes, pos);
      if deltaLat.End? {
        assert points + [] == points;
        return Ok(points);
      }
      if deltaLat.Bad? {
        return Err(deltaLat.error);
      }
      var deltaLon, afterLon := NextValue(bytes, afterLat);
      if deltaLon.End? {
        return Err(OddNumberOfValues);
      }
      if deltaLon.Bad? {
        return Err(deltaLon.error);
      }
      PointJoins(bytes[pos..], lat, lon, points, deltaLat, deltaLon);
      lat, lon := Wrap64(lat + deltaLat.v), Wrap64(lon + deltaLon.v);
      points := points + [Quantised(lat, lon)];
      pos := afterLon;
    }
  }

  // ----- round trips -----

  predicate InRange(v: int) { -TWO62 <= v < TWO62 }

  lemma ZigzagRoundTrip(v: int)
    requires InRange(v)
    ensures 0 <= Zigzag(v) < TWO63 && Unzigzag(Zigzag(v)) == v
  {}

  lemma {:induction false} GroupsArePrintable(z: int)
    requires z >= 0
    ensures forall i :: 0 <= i < |Groups(z)| ==> 63 <= Groups(z)[i] <= 126
    decreases z
  {
    if z >= 32 { GroupsArePrintable(z / 32); }
  }

  lemma {:induction false} PrintableBytes(codes: seq<nat>)
    requires forall i :: 0 <= i < |codes| ==> codes[i] < 128
    ensures Bytes(codes) == codes
  {
    if codes != [] { PrintableBytes(codes[1..]); }
  }

  lemma SplitGroups(z: nat, p: nat)
    ensures (z % 32) * p + (z / 32) * (32 * p) == z * p
  {
    assert z == 32 * (z / 32) + z % 32;
    assert z * p == (32 * (z / 32)) * p + (z % 32) * p;
    assert (32 * (z / 32)) * p == (z / 32) * (32 * p);
  }

  lemma {:induction false} Pow32Monotone(j: nat, k: nat)
    requires j <= k
    ensures Pow32(j) <= Pow32(k)
  {
    if j < k { Pow32Monotone(j, k - 1); }
  }

  lemma Pow32OfThirteen()
    ensures Pow32(13) > TWO63
  {
    assert Pow32(4) == 0x10_0000;
    assert Pow32(8) == 0x100_0000_0000;
    assert Pow32(12) == 0x1000_0000_0000_0000;
  }

  lemma ProductAtLeast(z: nat, p: nat, m: nat)
    requires z >= m
    ensures z * p >= m * p
  {
    assert (z - m) * p >= 0;
    assert (z - m) * p == z * p - m * p;
  }

  lemma GroupStep(z: nat, next: nat, low: nat)
    requires z == 32 * next + low && low < 32 && next > 0
    ensures Groups(z) == [95 + low] + Groups(next)
  {}

  /** One more group, after which more follow. */
  lemma ReadContinues(low: nat, tail: seq<nat>, result: int, k: nat, sum: int)
    requires low < 32 && k <= 12 && sum == result + low * Pow32(k) && Int64(sum)
    ensures ReadValue([95 + low] + tail, result, k) == ReadValue(tail, sum, k + 1)
  {
    var bytes := [95 + low] + tail;
    assert bytes[1..] == tail && bytes[0] - 63 == 32 + low;
    assert (32 + low) % 32 == low;
  }

  /** The last group. */
  lemma ReadEnds(low: nat, tail: seq<nat>, result: int, k: nat, sum: int)
    requires low < 32 && k <= 12 && sum == result + low * Pow32(k) && Int64(sum)
    ensures ReadValue([63 + low] + tail, result, k) == Value(Unzigzag(sum), tail)
  {
    var bytes := [63 + low] + tail;
    assert bytes[1..] == tail && bytes[0] - 63 == low;
    assert low % 32 == low;
  }

  lemma RoomForMore(z: nat, result: nat, k: nat)
    requires z >= 32 && result + z * Pow32(k) < TWO63
    ensures k + 1 <= 12
  {
    ProductAtLeast(z, Pow32(k), 32);
    if k + 1 > 12 {
      Pow32OfThirteen();
      Pow32Monotone(13, k + 1);
    }
  }

  lemma NonNegative(x: nat, y: nat)
    ensures x * y >= 0
  {}

  /** Taking the lowest group off moves its share from the value to the result. */
  lemma GroupMoves(z: nat, result: nat, k: nat)
    ensures (z % 32) * Pow32(k) >= 0 && (z / 32) * Pow32(k + 1) >= 0
    ensures result + (z % 32) * Pow32(k) + (z / 32) * Pow32(k + 1) == result + z * Pow32(k)
  {
    SplitGroups(z, Pow32(k));
    NonNegative(z % 32, Pow32(k));
    NonNegative(z / 32, Pow32(k + 1));
  }

  lemma MoveGroup(z: nat, result: nat, k: nat, total: nat) returns (sum: nat)
    requires z >= 32 && k <= 12 && total == result + z * Pow32(k) && total < TWO63
    ensures k + 1 <= 12 && sum == result + (z % 32) * Pow32(k) && sum < TWO63
    ensures total == sum + (z / 32) * Pow32(k + 1)
  {
    RoomForMore(z, result, k);
    GroupMoves(z, result, k);
    sum := result + (z % 32) * Pow32(k);
  }

  lemma FirstOfGroups(z: nat, next: nat, low: nat, rest: seq<nat>)
    requires z == 32 * next + low && low < 32 && next > 0
    ensures Groups(z) + rest == [95 + low] + (Groups(next) + rest)
  {
    GroupStep(z, next, low);
  }

  lemma ReadLow(z: nat, next: nat, low: nat, result: int, k: nat, rest: seq<nat>, sum: int)
    requires z == 32 * next + low && low < 32 && next > 0
    requires k <= 12 && sum == result + low * Pow32(k) && Int64(sum)
    ensures ReadValue(Groups(z) + rest, result, k) == ReadValue(Groups(next) + rest, sum, k + 1)
  {
    FirstOfGroups(z, next, low, rest);
    ReadContinues(low, Groups(next) + rest, result, k, sum);
  }

  lemma ReadLast(z: nat, result: int, k: nat, total: int, rest: seq<nat>)
    requires z < 32 && k <= 12 && total == result + z * Pow32(k) && Int64(total)
    ensures ReadValue(Groups(z) + rest, result, k) == Value(Unzigzag(total), rest)
  {
    assert Groups(z) == [63 + z];
    ReadEnds(z, rest, result, k, total);
  }

  /** Reading back the groups of a value that fits in 63 bits, on top of the groups already read. */
  lemma {:induction false} ReadGroups(z: nat, result: nat, k: nat, total: nat, rest: seq<nat>)
    requires k <= 12 && total == result + z * Pow32(k) && total < TWO63
    ensures ReadValue(Groups(z) + rest, result, k) == Value(Unzigzag(total), rest)
    decreases z
  {
    if z >= 32 {
      var sum := MoveGroup(z, result, k, total);
      ReadGroups(z / 32, sum, k + 1, total, rest);
      ReadLow(z, z / 32, z % 32, result, k, rest, sum);
    } else {
      ReadLast(z, result, k, total, rest);
    }
  }

  lemma ValueRoundTrip(v: int, rest: seq<nat>)
    requires InRange(v)
    ensures Bytes(Groups(Zigzag(v))) == Groups(Zigzag(v))
    ensures ReadValue(Groups(Zigzag(v)) + rest, 0, 0) == Value(v, rest)
  {
    ZigzagRoundTrip(v);
    GroupsArePrintable(Zigzag(v));
    PrintableBytes(Groups(Zigzag(v)));
    assert Pow32(0) == 1;
    ReadGroups(Zigzag(v), 0, 0, Zigzag(v), rest);
  }

  lemma OneCharacterIsSmall(code: nat)
    requires code < 256
    ensures var next := ReadValue(Utf8(code), 0, 0); next.Value? ==> -16 <= next.v < 16
  {
    var bytes := Utf8(code);
    if code < 128 {
      assert bytes[1..] == [];
      assert Pow32(0) == 1;
      assert ReadValue([], Wrap64(((code - 63) % 32) * 1), 1) == Bad(EndsInsideValue);
    }
  }

  /** A 64-bit value survives encoding and decoding exactly when it lies in [-2^62, 2^62): beyond that the doubled
      value overflows to a single character, which can only stand for a small value or nothing at all. */
  lemma ValueRoundTripIff(v: int)
    requires Int64(v)
    ensures ReadValue(Bytes(Groups(Zigzag(v))), 0, 0) == Value(v, []) <==> InRange(v)
  {
    if InRange(v) {
      ValueRoundTrip(v, []);
      assert Groups(Zigzag(v)) + [] == Groups(Zigzag(v));
    } else {
      assert Zigzag(v) < 0;
      var code := (Zigzag(v) % 256 + 63) % 256;
      assert Groups(Zigzag(v)) == [code];
      assert Bytes([code]) == Utf8(code) + Bytes([]);
      OneCharacterIsSmall(code);
    }
  }

  function Deltas(q: Quantised, previous: Quantised): Quantised {
    Quantised(Wrap64(q.lat - previous.lat), Wrap64(q.lon - previous.lon))
  }

  /** Latitude first. */
  function PointGroups(d: Quantised): seq<nat> {
    Groups(Zigzag(d.lat)) + Groups(Zigzag(d.lon))
  }

  /** The characters for quantised points after `previous`. */
  function Encoded(points: seq<Quantised>, previous: Quantised): seq<nat>
    decreases |points|
  {
    if points == [] then []
    else
      PointGroups(Deltas(points[0], previous)) + Encoded(points[1..], points[0])
  }

  /** Both differences, as they are written, can be read back. */
  predicate Fits(d: Quantised) { InRange(d.lat) && InRange(d.lon) }

  /** Every wrapped step from one point to the next, the first one from `previous`, fits. */
  ghost predicate DeltasFit(points: seq<Quantised>, previous: Quantised)
    decreases |points|
  {
    points == [] || (Fits(Deltas(points[0], previous)) && DeltasFit(points[1..], points[0]))
  }

  predicate InInt64(q: Quantised) { Int64(q.lat) && Int64(q.lon) }

  lemma {:induction false} EncodedIsPrintable(points: seq<Quantised>, previous: Quantised)
    requires DeltasFit(points, previous)
    ensures forall i :: 0 <= i < |Encoded(points, previous)| ==> 63 <= Encoded(points, previous)[i] <= 126
    decreases |points|
  {
    if points != [] {
      EncodedIsPrintable(points[1..], points[0]);
      var d := Deltas(points[0], previous);
      GroupsArePrintable(Zigzag(d.lat));
      GroupsArePrintable(Zigzag(d.lon));
    }
  }

  lemma ReadPoint(d: Quantised, rest: seq<nat>, lat: int, lon: int)
    requires Fits(d)
    ensures var q := Quantised(Wrap64(lat + d.lat), Wrap64(lon + d.lon));
      Decoded(PointGroups(d) + rest, lat, lon) == Prepended([q], Decoded(rest, q.lat, q.lon))
  {
    var first, second := Groups(Zigzag(d.lat)), Groups(Zigzag(d.lon));
    assert PointGroups(d) + rest == first + (second + rest);
    ValueRoundTrip(d.lat, second + rest);
    ValueRoundTrip(d.lon, rest);
  }

  lemma DeltaRestores(q: Quantised, previous: Quantised)
    requires InInt64(q) && InInt64(previous) && Fits(Deltas(q, previous))
    ensures var d := Deltas(q, previous);
      Wrap64(previous.lat + d.lat) == q.lat && Wrap64(previous.lon + d.lon) == q.lon
  {}

  lemma ReadBack(q: Quantised, previous: Quantised, tail: seq<nat>, points: seq<Quantised>)
    requires InInt64(q) && InInt64(previous) && Fits(Deltas(q, previous))
    requires Decoded(tail, q.lat, q.lon) == Ok(points)
    ensures Decoded(PointGroups(Deltas(q, previous)) + tail, previous.lat, previous.lon) == Ok([q] + points)
  {
    DeltaRestores(q, previous);
    ReadPoint(Deltas(q, previous), tail, previous.lat, previous.lon);
  }

  /** Decoding what was encoded gives back exactly the quantised points. */
  lemma {:induction false} RoundTripFrom(points: seq<Quantised>, previous: Quantised)
    requires DeltasFit(points, previous) && InInt64(previous)
    requires forall i :: 0 <= i < |points| ==> InInt64(points[i])
    ensures Decoded(Encoded(points, previous), previous.lat, previous.lon) == Ok(points)
    decreases |points|
  {
    if points != [] {
      RoundTripFrom(points[1..], points[0]);
      ReadBack(points[0], previous, Encoded(points[1..], points[0]), points[1..]);
      assert points == [points[0]] + points[1..];
    }
  }

  const Origin := Quantised(0, 0)

  /** The whole codec: what is written is printable ASCII, so its bytes are its characters, and reading it back gives
      the quantised points, however many. */
  lemma EncodeDecodeRoundTrip(points: seq<Quantised>)
    requires DeltasFit(points, Origin) && forall i :: 0 <= i < |points| ==> InInt64(points[i])
    ensures Bytes(Encoded(points, Origin)) == Encoded(points, Origin)
    ensures forall b :: b in Bytes(Encoded(points, Origin)) ==> 63 <= b <= 126
    ensures Decoded(Bytes(Encoded(points, Origin)), 0, 0) == Ok(points)
  {
    EncodedIsPrintable(points, Origin);
    PrintableBytes(Encoded(points, Origin));
    RoundTripFrom(points, Origin);
  }

  /** Every value that is read lies in the range that can be read. */
  lemma {:induction false} ReadIsInRange(bytes: seq<nat>, result: int, k: nat)
    requires Int64(result)
    ensures ReadValue(bytes, result, k).Value? ==> InRange(ReadValue(bytes, result, k).v)
    decreases bytes
  {
    if bytes != [] && 63 <= bytes[0] <= 126 && 5 * k <= 60 {
      var chunk := bytes[0] - 63;
      var result' := Wrap64(result + (chunk % 32) * Pow32(k));
      if chunk >= 32 { ReadIsInRange(bytes[1..], result', k + 1); }
    }
  }

  lemma WrappedStep(x: int, d: int)
    requires Int64(x) && Int64(d)
    ensures Wrap64(Wrap64(x + d) - x) == d
  {
    assert Wrap64(x + d) == if x + d < -TWO63 then x + d + TWO64 else if x + d >= TWO63 then x + d - TWO64 else x + d;
  }

  lemma ReadDeltaFits(q: Quantised, lat: int, lon: int, deltaLat: int, deltaLon: int)
    requires Int64(lat) && Int64(lon) && InRange(deltaLat) && InRange(deltaLon)
    requires q == Quantised(Wrap64(lat + deltaLat), Wrap64(lon + deltaLon))
    ensures Fits(Deltas(q, Quantised(lat, lon)))
  {
    WrappedStep(lat, deltaLat);
    WrappedStep(lon, deltaLon);
  }

  /** Whatever is read, the wrapped steps between the points all fit. */
  lemma {:induction false} DecodedDeltasFit(bytes: seq<nat>, lat: int, lon: int)
    requires Int64(lat) && Int64(lon) && Decoded(bytes, lat, lon).Ok?
    ensures DeltasFit(Decoded(bytes, lat, lon).value, Quantised(lat, lon))
    decreases |bytes|
  {
    match ReadValue(bytes, 0, 0)
    case End =>
    case Value(deltaLat, afterLat) =>
      var next := ReadValue(afterLat, 0, 0);
      ReadIsInRange(bytes, 0, 0);
      ReadIsInRange(afterLat, 0, 0);
      var q := Quantised(Wrap64(lat + deltaLat), Wrap64(lon + next.v));
      ReadDeltaFits(q, lat, lon, deltaLat, next.v);
      DecodedDeltasFit(next.rest, q.lat, q.lon);
      var qs := Decoded(next.rest, q.lat, q.lon).value;
      assert ([q] + qs)[1..] == qs;
  }

  /** A list of 64-bit points is read back exactly when each of its wrapped steps lies in [-2^62, 2^62). */
  lemma ListRoundTripIff(points: seq<Quantised>)
    requires forall i :: 0 <= i < |points| ==> InInt64(points[i])
    ensures Decoded(Bytes(Encoded(points, Origin)), 0, 0) == Ok(points) <==> DeltasFit(points, Origin)
  {
    if DeltasFit(points, Origin) {
      EncodeDecodeRoundTrip(points);
    }
    if Decoded(Bytes(Encoded(points, Origin)), 0, 0) == Ok(points) {
      DecodedDeltasFit(Bytes(Encoded(points, Origin)), 0, 0);
    }
  }

  predicate Printable(bytes: seq<nat>) { forall i :: 0 <= i < |bytes| ==> 63 <= bytes[i] <= 126 }

  lemma {:induction false} ReadPrintable(bytes: seq<nat>, result: int, k: nat)
    ensures var next := ReadValue(bytes, result, k);
      && (next.Value? && Printable(next.rest) ==> Printable(bytes))
      && (next.End? ==> bytes == [])
    decreases bytes
  {
    if bytes != [] && 63 <= bytes[0] <= 126 && 5 * k <= 60 {
      var chunk := bytes[0] - 63;
      if chunk >= 32 { ReadPrintable(bytes[1..], Wrap64(result + (chunk % 32) * Pow32(k)), k + 1); }
      assert Printable(bytes[1..]) ==> Printable(bytes);
    }
  }

  /** A text is decoded only if all its characters are those that encoding writes. */
  lemma {:induction false} DecodedIsPrintable(bytes: seq<nat>, lat: int, lon: int)
    requires Decoded(bytes, lat, lon).Ok?
    ensures Printable(bytes)
    decreases |bytes|
  {
    ReadPrintable(bytes, 0, 0);
    var first := ReadValue(bytes, 0, 0);
    if first.Value? {
      ReadPrintable(first.rest, 0, 0);
      var second := ReadValue(first.rest, 0, 0);
      DecodedIsPrintable(second.rest, Wrap64(lat + first.v), Wrap64(lon + second.v));
    }
  }

  // ----- positions in degrees -----

  /** A float cast to a 64-bit integer saturates. */
  function Saturated(x: int): (r: int)
    ensures Int64(r) && (Int64(x) ==> r == x)
  {
    if x < -TWO63 then -TWO63 else if x >= TWO63 then TWO63 - 1 else x
  }

  function Scale(precision: nat): real { if precision == 0 then 1.0 else 10.0 * Scale(precision - 1) }

  function QuantiseCoordinate(x: real, scale: real): int { Saturated(Rounded(x * scale)) }

  function Quantise(p: Position, precision: nat): Quantised {
    Quantised(QuantiseCoordinate(p.lat, Scale(precision)), QuantiseCoordinate(p.lon, Scale(precision)))
  }

  function QuantiseAll(points: seq<Position>, precision: nat): (qs: seq<Quantised>)
    ensures |qs| == |points|
  {
    seq(|points|, i requires 0 <= i < |points| => Quantise(points[i], precision))
  }

  lemma EncodedStep(all: seq<Quantised>, i: nat, previous: Quantised, output: seq<nat>)
    requires i < |all|
    ensures output + Encoded(all[i..], previous)
         == (output + PointGroups(Deltas(all[i], previous))) + Encoded(all[i + 1..], all[i])
  {
    assert all[i..][0] == all[i] && all[i..][1..] == all[i + 1..];
  }

  method PushPoint(current: Quantised, previous: Quantised, before: seq<nat>) returns (output: seq<nat>)
    ensures output == before + PointGroups(Deltas(current, previous))
  {
    output := PushValue(Wrap64(current.lat - previous.lat), before);
    output := PushValue(Wrap64(current.lon - previous.lon), output);
  }

  method EncodePolyline(points: seq<Position>, precision: nat) returns (output: seq<nat>)
    ensures output == Encoded(QuantiseAll(points, precision), Origin)
  {
    output := [];
    var previous := Origin;
    ghost var all := QuantiseAll(points, precision);
    assert all[0..] == all;
    for i := 0 to |points|
      invariant Encoded(all, Origin) == output + Encoded(all[i..], previous)
    {
      var current := Quantise(points[i], precision);
      EncodedStep(all, i, previous, output);
      output := PushPoint(current, previous, output);
      previous := current;
    }
    assert output + [] == output;
  }

  /** A longitude and latitude on the globe. */
  predicate OnGlobe(p: Position) { -180.0 <= p.lon <= 180.0 && -90.0 <= p.lat <= 90.0 }

  lemma QuantumBound(x: real, scale: real)
    requires 0.0 < scale <= 1000000.0 && -180.0 <= x <= 180.0
    ensures -180000000 <= Rounded(x * scale) <= 180000000
    ensures -0.5 <= Rounded(x * scale) as real - x * scale <= 0.5
  {
    var y := x * scale;
    NonNegativeProduct(180.0 - x, scale);
    NonNegativeProduct(x + 180.0, scale);
    assert (180.0 - x) * scale == 180.0 * scale - y && (x + 180.0) * scale == y + 180.0 * scale;
    assert -180000000.0 <= y <= 180000000.0;
  }

  lemma KnownLatitude()
    ensures Groups(7700000) == [95, 112, 126, 105, 70]
  {
    GroupStep(7700000, 240625, 0);
    GroupStep(240625, 7519, 17);
    GroupStep(7519, 234, 31);
    GroupStep(234, 7, 10);
  }

  lemma KnownLongitude()
    ensures Groups(24039999) == [126, 112, 115, 124, 85]
  {
    GroupStep(24039999, 751249, 31);
    GroupStep(751249, 23476, 17);
    GroupStep(23476, 733, 20);
    GroupStep(733, 22, 29);
  }

  /** Longitude -120.2 and latitude 38.5 at five digits are the text "_p~iF~ps|U". */
  lemma KnownPointEncodes()
    ensures Encoded(QuantiseAll([Position(-120.2, 38.5)], 5), Origin)
         == [95, 112, 126, 105, 70, 126, 112, 115, 124, 85]
  {
    KnownLatitude();
    KnownLongitude();
    assert Scale(3) == 1000.0;
    assert Scale(5) == 100000.0;
    var q := Quantised(3850000, -12020000);
    assert QuantiseAll([Position(-120.2, 38.5)], 5) == [q];
    assert Zigzag(q.lat) == 7700000 && Zigzag(q.lon) == 24039999;
    assert Encoded([q], Origin) == PointGroups(q) + Encoded([], q);
  }
}
