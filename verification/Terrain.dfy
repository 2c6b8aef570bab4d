/** Rasters of heights: cells without data take the height of the closest valid cell, then every height becomes three
    Terrarium bytes. */
module Terrain {
  import opened Basics
  import opened Reals

  /** A two-dimensional array; the width matters even where there is no row. */
  datatype Grid<T> = Grid(width: nat, rows: seq<seq<T>>)

  ghost predicate Rectangular<T>(g: Grid<T>) {
    forall y {:trigger g.rows[y]} :: 0 <= y < |g.rows| ==> |g.rows[y]| == g.width
  }

  datatype FillError = ShapeMismatch | NoValidSample

  // ----- What closest means -----

  ghost predicate Beats(x: int, k: int, j: int) {
    Distance(x, k) < Distance(x, j) || (Distance(x, k) == Distance(x, j) && k <= j)
  }

  /** k is the true flag closest to x, the lower one of two as close. */
  ghost predicate Closest(flags: seq<bool>, x: int, k: int) {
    && 0 <= k < |flags| && flags[k]
    && (forall j {:trigger flags[j]} :: 0 <= j < |flags| && flags[j] ==> Beats(x, k, j))
  }

  lemma ClosestIsUnique(flags: seq<bool>, x: int, k: int, j: int)
    requires Closest(flags, x, k) && Closest(flags, x, j)
    ensures k == j
  {
    assert Beats(x, k, j) && Beats(x, j, k);
  }

  predicate HasTrue(flags: seq<bool>) {
    exists j :: 0 <= j < |flags| && flags[j]
  }

  function Populated(valid: seq<seq<bool>>): (flags: seq<bool>)
    ensures |flags| == |valid|
    ensures forall y :: 0 <= y < |valid| ==> flags[y] == HasTrue(valid[y])
  {
    seq(|valid|, y requires 0 <= y < |valid| => HasTrue(valid[y]))
  }

  // ----- One row: running maximum from the left, running minimum from the right -----

  /** The last valid column at or before x, or minus the width. */
  function LeftOf(valid: seq<bool>, x: nat): (k: int)
    requires x < |valid|
    ensures k == -|valid| || (0 <= k <= x && valid[k])
    ensures forall j :: 0 <= j <= x && valid[j] ==> j <= k
  {
    var here := if valid[x] then x else -|valid|;
    if x == 0 then here
    else
      var before := LeftOf(valid, x - 1);
      if before < here then here else before
  }

  /** The first valid column at or after x, or twice the width. */
  function RightOf(valid: seq<bool>, x: nat): (k: int)
    requires x < |valid|
    ensures k == 2 * |valid| || (x <= k < |valid| && valid[k])
    ensures forall j :: x <= j < |valid| && valid[j] ==> k <= j
    decreases |valid| - x
  {
    var here := if valid[x] then x else 2 * |valid|;
    if x == |valid| - 1 then here
    else
      var after := RightOf(valid, x + 1);
      if here < after then here else after
  }

  lemma NeverSentinel(valid: seq<bool>, x: nat, left: int, right: int)
    requires x < |valid| && HasTrue(valid)
    requires left == LeftOf(valid, x) && right == RightOf(valid, x)
    ensures x - left <= right - x ==> 0 <= left < |valid| && valid[left]
    ensures x - left > right - x ==> 0 <= right < |valid| && valid[right]
  {
    var j :| 0 <= j < |valid| && valid[j];
    if j <= x { assert j <= left; } else { assert right <= j; }
  }

  /** The column whose value x takes: a valid one, never a sentinel. */
  function NearestColumn(valid: seq<bool>, x: nat): (k: int)
    requires x < |valid| && HasTrue(valid)
    ensures Closest(valid, x, k)
  {
    var left := LeftOf(valid, x);
    var right := RightOf(valid, x);
    var k := if x - left <= right - x then left else right;
    assert 0 <= k < |valid| && valid[k] by { NeverSentinel(valid, x, left, right); }
    assert forall j {:trigger valid[j]} :: 0 <= j < |valid| && valid[j] ==> Beats(x, k, j) by {
      forall j | 0 <= j < |valid| && valid[j] ensures Beats(x, k, j) {
        if j <= x { assert j <= left; } else { assert right <= j; }
      }
    }
    k
  }

  function FillRow(row: seq<real>, valid: seq<bool>): (filled: seq<real>)
    requires |row| == |valid| && HasTrue(valid)
    ensures |filled| == |row|
  {
    seq(|row|, x requires 0 <= x < |row| => row[NearestColumn(valid, x)])
  }

  // ----- All rows -----

  /** Indices of the true flags, in order. */
  function Indices(flags: seq<bool>, from: nat): (s: seq<nat>)
    requires from <= |flags|
    ensures forall i :: 0 <= i < |s| ==> from <= s[i] < |flags| && flags[s[i]]
    ensures forall y :: from <= y < |flags| && flags[y] ==> y in s
    ensures forall i, j :: 0 <= i < j < |s| ==> s[i] < s[j]
    decreases |flags| - from
  {
    if from == |flags| then []
    else
      var rest := Indices(flags, from + 1);
      if flags[from] then [from] + rest else rest
  }

  /** First entry of an ascending list closest to y. */
  method NearestEntry(s: seq<nat>, y: nat) returns (k: nat)
    requires |s| > 0
    requires forall i, j :: 0 <= i < j < |s| ==> s[i] < s[j]
    ensures k in s && forall j :: j in s ==> Beats(y, k, j)
  {
    k := s[0];
    for i := 1 to |s|
      invariant k in s[..i]
      invariant forall j :: 0 <= j < i ==> Beats(y, k, s[j])
    {
      if Distance(y, s[i]) < Distance(y, k) { k := s[i]; }
    }
  }

  /** Cell (x, y) of the output is the height at the closest valid column of the closest populated row. */
  ghost predicate CellFilled(heights: seq<seq<real>>, valid: seq<seq<bool>>, y: nat, x: nat, h: real) {
    exists r, c {:trigger Closest(Populated(valid), y, r), Closest(valid[r], x, c)} ::
      && Closest(Populated(valid), y, r) && Closest(valid[r], x, c)
      && r < |heights| && c < |heights[r]| && h == heights[r][c]
  }

  ghost predicate RowFilled(heights: seq<seq<real>>, valid: seq<seq<bool>>, width: nat, y: nat, row: seq<real>) {
    && |row| == width
    && forall x {:trigger row[x]} :: 0 <= x < width ==> CellFilled(heights, valid, y, x, row[x])
  }

  ghost predicate Filled(heights: Grid<real>, valid: Grid<bool>, output: Grid<real>) {
    && output.width == heights.width && |output.rows| == |heights.rows|
    && forall y {:trigger output.rows[y]} :: 0 <= y < |output.rows| ==>
      RowFilled(heights.rows, valid.rows, heights.width, y, output.rows[y])
  }

  lemma PopulatedIsItsOwnClosest(flags: seq<bool>, y: nat)
    requires y < |flags| && flags[y]
    ensures Closest(flags, y, y)
  {}

  /** A populated row is filled from its own valid cells. */
  lemma OwnRowFilled(heights: seq<seq<real>>, valid: seq<seq<bool>>, width: nat, y: nat, row: seq<real>)
    requires y < |heights| && y < |valid| && HasTrue(valid[y])
    requires |heights[y]| == width && |valid[y]| == width
    requires row == FillRow(heights[y], valid[y])
    ensures RowFilled(heights, valid, width, y, row)
  {
    PopulatedIsItsOwnClosest(Populated(valid), y);
    forall x | 0 <= x < width ensures CellFilled(heights, valid, y, x, row[x]) {
      assert Closest(valid[y], x, NearestColumn(valid[y], x));
    }
  }

  /** Filling a row whose cells are all valid changes nothing. */
  lemma FullRowUnchanged(row: seq<real>, valid: seq<bool>)
    requires |row| == |valid| && HasTrue(valid)
    requires forall x :: 0 <= x < |valid| ==> valid[x]
    ensures FillRow(row, valid) == row
  {
    forall x | 0 <= x < |row| ensures FillRow(row, valid)[x] == row[x] {
      assert Closest(valid, x, x);
      ClosestIsUnique(valid, x, NearestColumn(valid, x), x);
    }
  }

  /** A row copied from the closest populated row is filled too. */
  lemma CopiedRowFilled(heights: seq<seq<real>>, valid: seq<seq<bool>>, width: nat, y: nat, r: nat, row: seq<real>)
    requires r < |valid| && Populated(valid)[r] && Closest(Populated(valid), y, r)
    requires RowFilled(heights, valid, width, r, row)
    ensures RowFilled(heights, valid, width, y, row)
  {
    PopulatedIsItsOwnClosest(Populated(valid), r);
    forall x | 0 <= x < width ensures CellFilled(heights, valid, y, x, row[x]) {
      assert CellFilled(heights, valid, r, x, row[x]);
      var s, c :| && Closest(Populated(valid), r, s) && Closest(valid[s], x, c)
                  && s < |heights| && c < |heights[s]| && row[x] == heights[s][c];
      ClosestIsUnique(Populated(valid), r, r, s);
    }
  }

  ghost predicate RowReady(heights: Grid<real>, valid: Grid<bool>, output: seq<seq<real>>, y: nat)
    requires y < |output|
  {
    RowFilled(heights.rows, valid.rows, heights.width, y, output[y])
  }

  /** The listed rows are filled. */
  ghost predicate RowsReady(heights: Grid<real>, valid: Grid<bool>, output: seq<seq<real>>, listed: seq<nat>) {
    && |output| == |heights.rows|
    && forall i {:trigger listed[i]} :: 0 <= i < |listed| ==>
      listed[i] < |output| && RowReady(heights, valid, output, listed[i])
  }

  /** First pass: every populated row from its own valid cells. */
  method FillPopulated(heights: Grid<real>, valid: Grid<bool>, populated: seq<nat>) returns (output: seq<seq<real>>)
    requires Rectangular(heights) && Rectangular(valid)
    requires heights.width == valid.width && |heights.rows| == |valid.rows|
    requires forall i :: 0 <= i < |populated| ==> populated[i] < |valid.rows| && HasTrue(valid.rows[populated[i]])
    requires forall i, j :: 0 <= i < j < |populated| ==> populated[i] < populated[j]
    ensures RowsReady(heights, valid, output, populated)
  {
    output := heights.rows;
    for i := 0 to |populated|
      invariant |output| == |heights.rows|
      invariant forall k :: i <= k < |populated| ==> output[populated[k]] == heights.rows[populated[k]]
      invariant RowsReady(heights, valid, output, populated[..i])
    {
      var y := populated[i];
      var row := output[y];
      if !(forall x :: 0 <= x < |valid.rows[y]| ==> valid.rows[y][x]) {
        row := FillRow(output[y], valid.rows[y]);
      } else {
        FullRowUnchanged(output[y], valid.rows[y]);
      }
      OwnRowFilled(heights.rows, valid.rows, heights.width, y, row);
      output := output[y := row];
      assert populated[..i + 1] == populated[..i] + [y];
    }
    assert populated[..|populated|] == populated;
  }

  /** The rows without a valid cell, in order. */
  function Missing(flags: seq<bool>): (s: seq<nat>)
    ensures forall i :: 0 <= i < |s| ==> s[i] < |flags| && !flags[s[i]]
    ensures forall y :: 0 <= y < |flags| && !flags[y] ==> y in s
  {
    Indices(seq(|flags|, y requires 0 <= y < |flags| => !flags[y]), 0)
  }

  lemma NearestEntryIsClosest(flags: seq<bool>, populated: seq<nat>, y: nat, r: nat)
    requires populated == Indices(flags, 0)
    requires r in populated && forall j :: j in populated ==> Beats(y, r, j)
    ensures Closest(flags, y, r)
  {}

  lemma ReadyRowCopied(heights: Grid<real>, valid: Grid<bool>, output: seq<seq<real>>, listed: seq<nat>, y: nat, r: nat)
    requires RowsReady(heights, valid, output, listed)
    requires r < |output| && RowReady(heights, valid, output, r) && y < |output|
    requires |valid.rows| == |output| && Closest(Populated(valid.rows), y, r)
    ensures RowsReady(heights, valid, output[y := output[r]], listed + [y])
  {
    CopiedRowFilled(heights.rows, valid.rows, heights.width, y, r, output[r]);
    forall i | 0 <= i < |listed + [y]|
      ensures (listed + [y])[i] < |output| && RowReady(heights, valid, output[y := output[r]], (listed + [y])[i])
    {
      if i < |listed| {
        assert RowReady(heights, valid, output, listed[i]);
      }
    }
  }

  lemma ReadyRowFound(heights: Grid<real>, valid: Grid<bool>, output: seq<seq<real>>, listed: seq<nat>, y: nat)
    requires RowsReady(heights, valid, output, listed) && y in listed
    ensures y < |output| && RowReady(heights, valid, output, y)
  {
    var i :| 0 <= i < |listed| && listed[i] == y;
  }

  lemma MissingRowReady(heights: Grid<real>, valid: Grid<bool>, output: seq<seq<real>>, populated: seq<nat>,
                        missing: seq<nat>, i: nat, r: nat)
    requires |heights.rows| == |valid.rows| && i < |missing| && missing[i] < |valid.rows|
    requires populated == Indices(Populated(valid.rows), 0)
    requires r in populated && forall j :: j in populated ==> Beats(missing[i], r, j)
    requires RowsReady(heights, valid, output, populated + missing[..i])
    ensures r < |output| && missing[i] < |output|
    ensures RowsReady(heights, valid, output[missing[i] := output[r]], populated + missing[..i + 1])
  {
    NearestEntryIsClosest(Populated(valid.rows), populated, missing[i], r);
    ReadyRowFound(heights, valid, output, populated + missing[..i], r);
    ReadyRowCopied(heights, valid, output, populated + missing[..i], missing[i], r);
    assert populated + missing[..i] + [missing[i]] == populated + missing[..i + 1];
  }

  /** Second pass: every row without a valid cell from the closest populated row. */
  method FillMissing(heights: Grid<real>, valid: Grid<bool>, first: seq<seq<real>>, populated: seq<nat>)
    returns (output: seq<seq<real>>)
    requires |heights.rows| == |valid.rows|
    requires |populated| > 0 && populated == Indices(Populated(valid.rows), 0)
    requires RowsReady(heights, valid, first, populated)
    ensures RowsReady(heights, valid, output, populated + Missing(Populated(valid.rows)))
  {
    var missing := Missing(Populated(valid.rows));
    output := first;
    assert populated + missing[..0] == populated;
    for i := 0 to |missing|
      invariant RowsReady(heights, valid, output, populated + missing[..i])
    {
      var y := missing[i];
      var r := NearestEntry(populated, y);
      MissingRowReady(heights, valid, output, populated, missing, i, r);
      output := output[y := output[r]];
    }
    assert missing[..|missing|] == missing;
  }

  /** Fills a raster, or tells which of its two demands the input misses. Every cell of a filled raster holds the height
      of the closest valid column of the closest populated row, lower indices first. */
  method FillDisplayNodata(heights: Grid<real>, valid: Grid<bool>) returns (result: Result<Grid<real>, FillError>)
    requires Rectangular(heights) && Rectangular(valid)
    ensures result == Err(ShapeMismatch) <==> heights.width != valid.width || |heights.rows| != |valid.rows|
    ensures result == Err(NoValidSample) <==> result != Err(ShapeMismatch) && !HasTrue(Populated(valid.rows))
    ensures result.Ok? ==> Filled(heights, valid, result.value)
  {
    if heights.width != valid.width || |heights.rows| != |valid.rows| {
      return Err(ShapeMismatch);
    }
    var flags := Populated(valid.rows);
    if !HasTrue(flags) {
      return Err(NoValidSample);
    }
    var populated := Indices(flags, 0);
    var first := FillPopulated(heights, valid, populated);
    var output := FillMissing(heights, valid, first, populated);
    result := Ok(Grid(heights.width, output));
    forall y | 0 <= y < |output| ensures RowFilled(heights.rows, valid.rows, heights.width, y, output[y]) {
      assert flags[y] || y in Missing(flags);
      ReadyRowFound(heights, valid, output, populated + Missing(flags), y);
    }
  }

  // ----- What the fill means for its caller -----

  /** The two masks agree in shape and the two rasters on every valid cell. */
  ghost predicate AgreeOnValid(a: seq<seq<real>>, b: seq<seq<real>>, valid: seq<seq<bool>>) {
    && |a| == |b| == |valid|
    && (forall y {:trigger valid[y]} :: 0 <= y < |valid| ==> |a[y]| == |b[y]| == |valid[y]|)
    && (forall y, x {:trigger valid[y][x]} ::
          0 <= y < |valid| && 0 <= x < |valid[y]| && valid[y][x] ==> a[y][x] == b[y][x])
  }

  lemma CellDetermined(a: seq<seq<real>>, b: seq<seq<real>>, valid: seq<seq<bool>>, y: nat, x: nat, h: real, g: real)
    requires AgreeOnValid(a, b, valid)
    requires CellFilled(a, valid, y, x, h) && CellFilled(b, valid, y, x, g)
    ensures h == g
  {
    var r, c :| && Closest(Populated(valid), y, r) && Closest(valid[r], x, c)
                && r < |a| && c < |a[r]| && h == a[r][c];
    var s, d :| && Closest(Populated(valid), y, s) && Closest(valid[s], x, d)
                && s < |b| && d < |b[s]| && g == b[s][d];
    ClosestIsUnique(Populated(valid), y, r, s);
    ClosestIsUnique(valid[r], x, c, d);
    assert valid[r][c];
  }

  /** What a raster holds in its invalid cells never reaches the output. */
  lemma NodataNeverLeaks(a: Grid<real>, b: Grid<real>, valid: Grid<bool>, outA: Grid<real>, outB: Grid<real>)
    requires a.width == b.width == valid.width && AgreeOnValid(a.rows, b.rows, valid.rows)
    requires Filled(a, valid, outA) && Filled(b, valid, outB)
    ensures outA == outB
  {
    forall y | 0 <= y < |outA.rows| ensures outA.rows[y] == outB.rows[y] {
      assert RowFilled(a.rows, valid.rows, a.width, y, outA.rows[y]);
      assert RowFilled(b.rows, valid.rows, b.width, y, outB.rows[y]);
      forall x | 0 <= x < a.width ensures outA.rows[y][x] == outB.rows[y][x] {
        CellDetermined(a.rows, b.rows, valid.rows, y, x, outA.rows[y][x], outB.rows[y][x]);
      }
    }
  }

  lemma ValidCellKept(heights: seq<seq<real>>, valid: seq<seq<bool>>, y: nat, x: nat, h: real)
    requires y < |valid| && x < |valid[y]| && valid[y][x]
    requires CellFilled(heights, valid, y, x, h)
    ensures y < |heights| && x < |heights[y]| && h == heights[y][x]
  {
    PopulatedIsItsOwnClosest(Populated(valid), y);
    PopulatedIsItsOwnClosest(valid[y], x);
    var r, c :| && Closest(Populated(valid), y, r) && Closest(valid[r], x, c)
                && r < |heights| && c < |heights[r]| && h == heights[r][c];
    ClosestIsUnique(Populated(valid), y, r, y);
    ClosestIsUnique(valid[y], x, c, x);
  }

  /** Cells that hold data keep their height. */
  lemma ValidCellsUnchanged(heights: Grid<real>, valid: Grid<bool>, output: Grid<real>)
    requires Rectangular(heights) && Rectangular(valid)
    requires heights.width == valid.width && |heights.rows| == |valid.rows|
    requires Filled(heights, valid, output)
    ensures AgreeOnValid(heights.rows, output.rows, valid.rows)
  {
    forall y, x | 0 <= y < |valid.rows| && 0 <= x < |valid.rows[y]| && valid.rows[y][x]
      ensures heights.rows[y][x] == output.rows[y][x]
    {
      assert RowFilled(heights.rows, valid.rows, heights.width, y, output.rows[y]);
      ValidCellKept(heights.rows, valid.rows, y, x, output.rows[y][x]);
    }
    forall y | 0 <= y < |valid.rows|
      ensures |heights.rows[y]| == |output.rows[y]| == |valid.rows[y]|
    {
      assert RowFilled(heights.rows, valid.rows, heights.width, y, output.rows[y]);
    }
  }

  /** Filling what is already filled, under the same mask, changes nothing. */
  lemma FillIdempotent(heights: Grid<real>, valid: Grid<bool>, once: Grid<real>, twice: Grid<real>)
    requires Rectangular(heights) && Rectangular(valid)
    requires heights.width == valid.width && |heights.rows| == |valid.rows|
    requires Filled(heights, valid, once) && Filled(once, valid, twice)
    ensures once == twice
  {
    ValidCellsUnchanged(heights, valid, once);
    NodataNeverLeaks(heights, once, valid, once, twice);
  }

  // ----- Terrarium bytes -----

  const MAX_CODE := 16777215

  /** Nearest integer, halves to the even one. */
  function Rint(x: real): int {
    var low := x.Floor;
    var rest := x - low as real;
    if rest < 0.5 || (rest == 0.5 && low % 2 == 0) then low else low + 1
  }

  function CodeOf(height: real): int { Rint((height + 32768.0) * 256.0) }

  datatype Rgb = Rgb(red: int, green: int, blue: int)

  function BytesOf(code: int): Rgb {
    Rgb(code / 65536 % 256, code / 256 % 256, code % 256)
  }

  predicate InRange(height: real) { 0 <= CodeOf(height) <= MAX_CODE }

  predicate AllInRange(heights: seq<seq<real>>) {
    forall y, x {:trigger heights[y][x]} :: 0 <= y < |heights| && 0 <= x < |heights[y]| ==> InRange(heights[y][x])
  }

  function EncodeRow(row: seq<real>): seq<Rgb> {
    seq(|row|, x requires 0 <= x < |row| => BytesOf(CodeOf(row[x])))
  }

  datatype EncodeError = OutsideTerrariumRange

  function TerrariumEncode(heights: seq<seq<real>>): Result<seq<seq<Rgb>>, EncodeError> {
    if !AllInRange(heights) then Err(OutsideTerrariumRange)
    else Ok(seq(|heights|, y requires 0 <= y < |heights| => EncodeRow(heights[y])))
  }

  /** The height a Terrarium reader computes from the three bytes. */
  function Decoded(p: Rgb): real {
    p.red as real * 256.0 + p.green as real + p.blue as real / 256.0 - 32768.0
  }

  lemma BytesRoundTrip(code: int)
    requires 0 <= code <= MAX_CODE
    ensures Decoded(BytesOf(code)) == code as real / 256.0 - 32768.0
    ensures var p := BytesOf(code); 0 <= p.red < 256 && 0 <= p.green < 256 && 0 <= p.blue < 256
  {
    var p := BytesOf(code);
    assert code == p.red * 65536 + p.green * 256 + p.blue;
    assert code as real == p.red as real * 65536.0 + p.green as real * 256.0 + p.blue as real;
  }

  /** Accepted are exactly the heights from -32768 m - 1/512 m up to, not including, 32768 m - 1/512 m. */
  lemma RangeAccepted(height: real)
    ensures InRange(height) <==> -32768.0 - 1.0 / 512.0 <= height < 32768.0 - 1.0 / 512.0
  {
    var x := (height + 32768.0) * 256.0;
    assert x < -0.5 ==> Rint(x) < 0;
    assert x >= 16777215.5 ==> Rint(x) > MAX_CODE;
    assert -0.5 <= x < 16777215.5 ==> 0 <= Rint(x) <= MAX_CODE;
  }

  /** Bytes read back as within 1/512 m, and every byte triple is read back as itself. */
  lemma HeightRoundTrip(height: real)
    requires InRange(height)
    ensures Abs(Decoded(BytesOf(CodeOf(height))) - height) <= 1.0 / 512.0
  {
    BytesRoundTrip(CodeOf(height));
    var x := (height + 32768.0) * 256.0;
    assert Abs(Rint(x) as real - x) <= 0.5;
  }

  lemma CodeRoundTrip(code: int)
    requires 0 <= code <= MAX_CODE
    ensures CodeOf(Decoded(BytesOf(code))) == code
  {
    BytesRoundTrip(code);
    assert (Decoded(BytesOf(code)) + 32768.0) * 256.0 == code as real;
  }

  /** Higher ground never gets a lower code. */
  lemma CodesKeepOrder(low: real, high: real)
    requires low <= high
    ensures CodeOf(low) <= CodeOf(high)
  {
    var x, y := (low + 32768.0) * 256.0, (high + 32768.0) * 256.0;
    assert x.Floor <= y.Floor;
  }

  // ----- The two steps together -----

  ghost predicate ValidInRange(heights: seq<seq<real>>, valid: seq<seq<bool>>)
    requires |heights| == |valid|
  {
    forall y, x {:trigger valid[y][x]} :: 0 <= y < |valid| && 0 <= x < |valid[y]| && valid[y][x] ==>
      x < |heights[y]| && InRange(heights[y][x])
  }

  lemma FilledCellInRange(heights: seq<seq<real>>, valid: seq<seq<bool>>, y: nat, x: nat, h: real)
    requires |heights| == |valid| && ValidInRange(heights, valid)
    requires CellFilled(heights, valid, y, x, h)
    ensures InRange(h)
  {
    var r, c :| && Closest(Populated(valid), y, r) && Closest(valid[r], x, c)
                && r < |heights| && c < |heights[r]| && h == heights[r][c];
    assert valid[r][c];
  }

  /** A filled raster encodes exactly when its valid heights do: neither the nodata value nor the filling can make the
      encoder refuse. */
  lemma FilledEncodesIff(heights: Grid<real>, valid: Grid<bool>, output: Grid<real>)
    requires Rectangular(heights) && Rectangular(valid)
    requires heights.width == valid.width && |heights.rows| == |valid.rows|
    requires Filled(heights, valid, output)
    ensures TerrariumEncode(output.rows).Ok? <==> ValidInRange(heights.rows, valid.rows)
  {
    ValidCellsUnchanged(heights, valid, output);
    if ValidInRange(heights.rows, valid.rows) {
      forall y, x | 0 <= y < |output.rows| && 0 <= x < |output.rows[y]| ensures InRange(output.rows[y][x]) {
        assert RowFilled(heights.rows, valid.rows, heights.width, y, output.rows[y]);
        FilledCellInRange(heights.rows, valid.rows, y, x, output.rows[y][x]);
      }
    }
    if AllInRange(output.rows) {
      forall y, x | 0 <= y < |valid.rows| && 0 <= x < |valid.rows[y]| && valid.rows[y][x]
        ensures x < |heights.rows[y]| && InRange(heights.rows[y][x])
      {
        assert InRange(output.rows[y][x]);
      }
    }
  }

  /** Every pixel of an encoded raster reads back within 1/512 m of its height. */
  lemma PixelsReadBack(heights: seq<seq<real>>, y: nat, x: nat)
    requires TerrariumEncode(heights).Ok? && y < |heights| && x < |heights[y]|
    ensures var pixels := TerrariumEncode(heights).value;
            && |pixels| == |heights| && |pixels[y]| == |heights[y]|
            && Abs(Decoded(pixels[y][x]) - heights[y][x]) <= 1.0 / 512.0
  {
    HeightRoundTrip(heights[y][x]);
  }
}
