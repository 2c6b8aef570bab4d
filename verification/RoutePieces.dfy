/** A route line cut into one piece per segment: the cut positions, and pieces that are contiguous, in order, and
    between them meet every vertex. */
module RoutePieces {
  import opened Basics
  import opened Reals
  import opened RouteSplit

  /** Sum of the first k lengths, negative ones counting as zero. */
  function Prefix(lengths: seq<real>, k: nat): (sum: real)
    requires k <= |lengths|
    ensures sum >= 0.0
  {
    if k == 0 then 0.0 else Prefix(lengths, k - 1) + AtLeastZero(lengths[k - 1])
  }

  /** Where piece k starts; piece k ends where piece k + 1 starts. */
  function CutAt(total: real, scale: real, lengths: seq<real>, k: nat): real
    requires k <= |lengths|
  {
    if k == 0 then 0.0
    else if k == |lengths| then total
    else Min(total, CutAt(total, scale, lengths, k - 1) + Product(AtLeastZero(lengths[k - 1]), scale))
  }

  function Cuts(total: real, scale: real, lengths: seq<real>): (cuts: seq<real>)
    ensures |cuts| == |lengths| + 1
    ensures forall k :: 0 <= k <= |lengths| ==> cuts[k] == CutAt(total, scale, lengths, k)
  {
    seq(|lengths| + 1, k requires 0 <= k <= |lengths| => CutAt(total, scale, lengths, k))
  }

  function PieceBetween(coords: seq<Point>, cum: seq<real>, cuts: seq<real>, k: nat): seq<Point>
    requires |coords| == |cum| > 0 && k + 1 < |cuts|
  {
    Slice(coords, cum, cuts[k], cuts[k + 1])
  }

  /** Nothing to cut, or nothing to cut it by. */
  predicate Unsplittable(coords: seq<Point>, measure: (Point, Point) -> real, lengths: seq<real>) {
    || |coords| < 2 || lengths == []
    || Last(Cumulative(coords, measure)) <= 0.0 || Prefix(lengths, |lengths|) <= 0.0
  }

  method SumLengths(lengths: seq<real>) returns (sum: real)
    ensures sum == Prefix(lengths, |lengths|)
  {
    sum := 0.0;
    for k := 0 to |lengths|
      invariant sum == Prefix(lengths, k)
    {
      sum := sum + AtLeastZero(lengths[k]);
    }
  }

  method CutPieces(coords: seq<Point>, cum: seq<real>, lengths: seq<real>, total: real, scale: real)
    returns (pieces: seq<Option<seq<Point>>>)
    requires |coords| == |cum| > 0
    ensures |pieces| == |lengths|
    ensures var cuts := Cuts(total, scale, lengths);
      forall k :: 0 <= k < |lengths| ==> pieces[k] == Some(PieceBetween(coords, cum, cuts, k))
  {
    pieces := [];
    var start := 0.0;
    ghost var cuts := Cuts(total, scale, lengths);
    for k := 0 to |lengths|
      invariant |pieces| == k && start == cuts[k]
      invariant forall j :: 0 <= j < k ==> pieces[j] == Some(PieceBetween(coords, cum, cuts, j))
    {
      var scaled := AtLeastZero(lengths[k]) * scale;
      var end := if k == |lengths| - 1 then total else Min(total, start + scaled);
      var piece := SliceRouteGeometry(coords, cum, start, end);
      pieces := pieces + [piece];
      start := end;
    }
  }

  /** Where the line is cut. */
  function LineCuts(cum: seq<real>, lengths: seq<real>): seq<real>
    requires |cum| > 0 && Prefix(lengths, |lengths|) > 0.0
  {
    Cuts(Last(cum), Last(cum) / Prefix(lengths, |lengths|), lengths)
  }

  ghost predicate IsSplit(coords: seq<Point>, measure: (Point, Point) -> real, lengths: seq<real>,
                          pieces: seq<Option<seq<Point>>>)
  {
    && |pieces| == |lengths|
    && if Unsplittable(coords, measure, lengths) then forall k :: 0 <= k < |pieces| ==> pieces[k] == None
       else
         var cum := Cumulative(coords, measure);
         forall k :: 0 <= k < |pieces| ==> pieces[k] == Some(PieceBetween(coords, cum, LineCuts(cum, lengths), k))
  }

  /** One piece per length, or None for each. */
  method SplitByDistance(coords: seq<Point>, measure: (Point, Point) -> real, lengths: seq<real>)
    returns (pieces: seq<Option<seq<Point>>>)
    ensures IsSplit(coords, measure, lengths, pieces)
  {
    var nothing := seq(|lengths|, k => None);
    if |coords| < 2 || |lengths| == 0 { return nothing; }
    var cum := MeasureLine(coords, measure);
    var total := cum[|cum| - 1];
    var sum := SumLengths(lengths);
    if total <= 0.0 || sum <= 0.0 { return nothing; }
    pieces := CutPieces(coords, cum, lengths, total, total / sum);
  }

  // ----- The cuts are proportional -----

  lemma {:induction false} PrefixAscends(lengths: seq<real>, j: nat, k: nat)
    requires j <= k <= |lengths|
    ensures Prefix(lengths, j) <= Prefix(lengths, k)
  {
    if j < k { PrefixAscends(lengths, j, k - 1); }
  }

  /** One step of the running cut never meets the minimum. */
  lemma StepBelowTotal(before: real, length: real, sum: real, scale: real)
    requires before + length <= sum && scale >= 0.0
    ensures Min(Product(sum, scale), Product(before, scale) + Product(length, scale)) == Product(before + length, scale)
  {
    assert Product(before + length, scale) == Product(before, scale) + Product(length, scale);
    NonNegativeProduct(sum - (before + length), scale);
    assert Product(sum - (before + length), scale) == Product(sum, scale) - Product(before + length, scale);
  }

  /** Cut k lies at the scaled sum of the first k lengths: neither the minimum nor the special case of the last piece
      ever moves a cut. */
  lemma {:induction false} CutIsProportional(total: real, scale: real, lengths: seq<real>, k: nat)
    requires k <= |lengths| && scale >= 0.0
    requires total == Product(Prefix(lengths, |lengths|), scale)
    ensures CutAt(total, scale, lengths, k) == Product(Prefix(lengths, k), scale)
  {
    if k == 0 {
      assert Product(0.0, scale) == 0.0;
    } else if k < |lengths| {
      CutIsProportional(total, scale, lengths, k - 1);
      PrefixAscends(lengths, k, |lengths|);
      StepBelowTotal(Prefix(lengths, k - 1), AtLeastZero(lengths[k - 1]), Prefix(lengths, |lengths|), scale);
    }
  }

  /** The cuts of a line that can be cut: from zero to its whole length, never going back. */
  ghost predicate Partition(cuts: seq<real>, total: real) {
    |cuts| >= 2 && cuts[0] == 0.0 && Last(cuts) == total && Ascending(cuts)
  }

  lemma ScaleIsExact(total: real, sum: real) returns (scale: real)
    requires total > 0.0 && sum > 0.0
    ensures scale == total / sum && scale >= 0.0 && Product(sum, scale) == total
  {
    scale := total / sum;
    assert Product(sum, scale) == total;
    assert Product(sum, -scale) == -Product(sum, scale);
    if scale < 0.0 { PositiveProduct(sum, -scale); }
  }

  lemma CutsAscend(total: real, scale: real, lengths: seq<real>, j: nat, k: nat)
    requires j <= k <= |lengths| && scale >= 0.0
    requires total == Product(Prefix(lengths, |lengths|), scale)
    ensures CutAt(total, scale, lengths, j) <= CutAt(total, scale, lengths, k)
  {
    CutIsProportional(total, scale, lengths, j);
    CutIsProportional(total, scale, lengths, k);
    PrefixAscends(lengths, j, k);
    NonNegativeProduct(Prefix(lengths, k) - Prefix(lengths, j), scale);
    assert Product(Prefix(lengths, k) - Prefix(lengths, j), scale)
        == Product(Prefix(lengths, k), scale) - Product(Prefix(lengths, j), scale);
  }

  lemma CutsPartition(total: real, lengths: seq<real>)
    requires total > 0.0 && |lengths| > 0 && Prefix(lengths, |lengths|) > 0.0
    ensures var scale := total / Prefix(lengths, |lengths|);
            var cuts := Cuts(total, scale, lengths);
            && Partition(cuts, total)
            && forall k :: 0 <= k < |cuts| ==> cuts[k] == Product(Prefix(lengths, k), scale)
  {
    var scale := ScaleIsExact(total, Prefix(lengths, |lengths|));
    var cuts := Cuts(total, scale, lengths);
    forall k | 0 <= k < |cuts| ensures cuts[k] == Product(Prefix(lengths, k), scale) {
      CutIsProportional(total, scale, lengths, k);
    }
    forall j, k | 0 <= j <= k < |cuts| ensures cuts[j] <= cuts[k] {
      CutsAscend(total, scale, lengths, j, k);
    }
  }

  /** What SplitByDistance cuts is a line, and its cuts run from its start to its end. */
  lemma SplitIsPartition(coords: seq<Point>, measure: (Point, Point) -> real, lengths: seq<real>)
    requires !Unsplittable(coords, measure, lengths)
    ensures var cum := Cumulative(coords, measure);
            && Line(coords, cum) && Last(cum) > 0.0
            && Partition(LineCuts(cum, lengths), Last(cum))
  {
    CutsPartition(Last(Cumulative(coords, measure)), lengths);
  }

  // ----- The pieces follow each other -----

  lemma PieceEnds(coords: seq<Point>, cum: seq<real>, cuts: seq<real>, k: nat)
    requires |coords| == |cum| > 0 && k + 1 < |cuts|
    ensures var piece := PieceBetween(coords, cum, cuts, k);
      && |piece| > 0 && piece[0] == PointAt(coords, cum, cuts[k])
      && if Degenerate(cuts[k], cuts[k + 1]) then Last(piece) == PointAt(coords, cum, cuts[k])
         else Near(Last(piece), PointAt(coords, cum, cuts[k + 1]))
  {
    DedupedKeepsEnds(Raw(coords, cum, cuts[k], cuts[k + 1]));
  }

  /** A piece ends, up to SAME in each coordinate, where the next one starts; after a piece of at most STEP the two
      are the points of two positions at most STEP apart. */
  lemma PiecesJoin(coords: seq<Point>, cum: seq<real>, cuts: seq<real>, k: nat)
    requires Line(coords, cum) && Partition(cuts, Last(cum)) && k + 2 < |cuts|
    ensures var piece, next := PieceBetween(coords, cum, cuts, k), PieceBetween(coords, cum, cuts, k + 1);
      && |piece| > 0 && |next| > 0 && LiesAt(coords, cum, cuts[k + 1], next[0])
      && if Degenerate(cuts[k], cuts[k + 1])
         then LiesAt(coords, cum, cuts[k], Last(piece)) && 0.0 <= cuts[k + 1] - cuts[k] <= 0.000000001
         else Near(Last(piece), next[0])
  {
    PieceEnds(coords, cum, cuts, k);
    PieceEnds(coords, cum, cuts, k + 1);
    assert cuts[0] <= cuts[k] <= cuts[k + 1] <= cuts[|cuts| - 1];
    PointIsAtDistance(coords, cum, cuts[k]);
    PointIsAtDistance(coords, cum, cuts[k + 1]);
  }

  /** The first piece starts at the first vertex, the last ends at the last one. */
  lemma WholeLineCovered(coords: seq<Point>, cum: seq<real>, cuts: seq<real>)
    requires Line(coords, cum) && Last(cum) > 0.0 && Partition(cuts, Last(cum))
    ensures var n := |cuts| - 1;
      && PieceBetween(coords, cum, cuts, 0) != [] && PieceBetween(coords, cum, cuts, 0)[0] == coords[0]
      && PieceBetween(coords, cum, cuts, n - 1) != []
      && if Degenerate(cuts[n - 1], cuts[n]) && cuts[n - 1] < cuts[n]
         then LiesAt(coords, cum, cuts[n - 1], Last(PieceBetween(coords, cum, cuts, n - 1)))
              && Last(cum) - cuts[n - 1] <= 0.000000001
         else Near(Last(PieceBetween(coords, cum, cuts, n - 1)), Last(coords))
  {
    PieceEnds(coords, cum, cuts, 0);
    PieceEnds(coords, cum, cuts, |cuts| - 2);
    assert cuts[0] <= cuts[|cuts| - 2] <= cuts[|cuts| - 1];
    PointIsAtDistance(coords, cum, cuts[|cuts| - 2]);
    NearItself(Last(coords));
  }

  // ----- Every inner vertex in one piece -----

  /** The inner vertices that piece k shows, before repeated points are removed. */
  function Shown(cum: seq<real>, cuts: seq<real>, k: nat): seq<nat>
    requires k + 1 < |cuts|
  {
    if Degenerate(cuts[k], cuts[k + 1]) then [] else Inner(cum, cuts[k], cuts[k + 1], 1)
  }

  /** The inner vertices of the first k pieces, one piece after the other. */
  function AllShown(cum: seq<real>, cuts: seq<real>, k: nat): seq<nat>
    requires k < |cuts|
  {
    if k == 0 then [] else AllShown(cum, cuts, k - 1) + Shown(cum, cuts, k - 1)
  }

  lemma ShownIsInPiece(coords: seq<Point>, cum: seq<real>, cuts: seq<real>, k: nat)
    requires |coords| == |cum| > 0 && k + 1 < |cuts|
    ensures forall i :: i in Shown(cum, cuts, k) ==> i < |coords|
    ensures !Degenerate(cuts[k], cuts[k + 1]) ==>
      PieceBetween(coords, cum, cuts, k) ==
      Deduped([PointAt(coords, cum, cuts[k])] + Vertices(coords, Shown(cum, cuts, k))
              + [PointAt(coords, cum, cuts[k + 1])])
  {}

  predicate InPiece(cum: seq<real>, cuts: seq<real>, k: nat, i: nat)
    requires i < |cum| && k + 1 < |cuts|
  {
    cuts[k] < cum[i] < cuts[k + 1] && !Degenerate(cuts[k], cuts[k + 1])
  }

  lemma IncreasingParts(s: seq<nat>, t: seq<nat>)
    requires forall a, b :: 0 <= a < b < |s| ==> s[a] < s[b]
    requires forall a, b :: 0 <= a < b < |t| ==> t[a] < t[b]
    requires forall a, b :: 0 <= a < |s| && 0 <= b < |t| ==> s[a] < t[b]
    ensures forall a, b :: 0 <= a < b < |s + t| ==> (s + t)[a] < (s + t)[b]
  {}

  /** Route order across pieces, hence no vertex in two of them. */
  lemma {:induction false} ShownInOrder(cum: seq<real>, cuts: seq<real>, k: nat)
    requires Ascending(cum) && Ascending(cuts) && k < |cuts|
    ensures forall i :: i in AllShown(cum, cuts, k) ==> 1 <= i && i + 1 < |cum| && cum[i] < cuts[k]
    ensures forall a, b :: 0 <= a < b < |AllShown(cum, cuts, k)| ==>
              AllShown(cum, cuts, k)[a] < AllShown(cum, cuts, k)[b]
  {
    if k > 0 {
      var before, here := AllShown(cum, cuts, k - 1), Shown(cum, cuts, k - 1);
      ShownInOrder(cum, cuts, k - 1);
      forall a, b | 0 <= a < |before| && 0 <= b < |here| ensures before[a] < here[b] {
        assert before[a] in before && here[b] in here;
        assert cum[before[a]] < cuts[k - 1] < cum[here[b]];
      }
      IncreasingParts(before, here);
      forall i | i in before + here ensures 1 <= i && i + 1 < |cum| && cum[i] < cuts[k] {
        assert i in before || i in here;
        assert cuts[k - 1] <= cuts[k];
      }
    }
  }

  lemma ShownIsInPieceOf(cum: seq<real>, cuts: seq<real>, k: nat, i: nat)
    requires k + 1 < |cuts| && 1 <= i && i + 1 < |cum|
    ensures i in Shown(cum, cuts, k) <==> InPiece(cum, cuts, k, i)
  {}

  ghost predicate InSomePiece(cum: seq<real>, cuts: seq<real>, k: nat, i: nat)
    requires i < |cum| && k < |cuts|
  {
    exists j: nat :: j < k && InPiece(cum, cuts, j, i)
  }

  lemma SomePieceStep(cum: seq<real>, cuts: seq<real>, k: nat, i: nat)
    requires i < |cum| && k + 1 < |cuts|
    ensures InSomePiece(cum, cuts, k + 1, i) <==> InSomePiece(cum, cuts, k, i) || InPiece(cum, cuts, k, i)
  {
    if InSomePiece(cum, cuts, k + 1, i) {
      var j: nat :| j < k + 1 && InPiece(cum, cuts, j, i);
    }
    if InSomePiece(cum, cuts, k, i) {
      var j: nat :| j < k && InPiece(cum, cuts, j, i);
      assert j < k + 1;
    }
  }

  lemma AllShownStep(cum: seq<real>, cuts: seq<real>, k: nat, i: nat)
    requires k + 1 < |cuts|
    ensures i in AllShown(cum, cuts, k + 1) <==> i in AllShown(cum, cuts, k) || i in Shown(cum, cuts, k)
  {}

  lemma NoPieceYet(cum: seq<real>, cuts: seq<real>, i: nat)
    requires i < |cum| && |cuts| > 0
    ensures i !in AllShown(cum, cuts, 0) && !InSomePiece(cum, cuts, 0, i)
  {}

  lemma {:induction false} ShownIff(cum: seq<real>, cuts: seq<real>, k: nat, i: nat)
    requires k < |cuts| && 1 <= i && i + 1 < |cum|
    ensures i in AllShown(cum, cuts, k) <==> InSomePiece(cum, cuts, k, i)
  {
    if k == 0 {
      NoPieceYet(cum, cuts, i);
    } else {
      var l := k - 1;
      ShownIff(cum, cuts, l, i);
      AllShownStep(cum, cuts, l, i);
      ShownIsInPieceOf(cum, cuts, l, i);
      SomePieceStep(cum, cuts, l, i);
    }
  }

  /** A position between zero and the last cut, on no cut, lies strictly inside some piece. */
  lemma {:induction false} FindPiece(cuts: seq<real>, k: nat, x: real) returns (j: nat)
    requires k < |cuts| && cuts[0] < x < cuts[k]
    requires forall m :: 0 <= m <= k ==> cuts[m] != x
    ensures j < k && cuts[j] < x < cuts[j + 1]
  {
    if cuts[k - 1] < x {
      j := k - 1;
    } else {
      j := FindPiece(cuts, k - 1, x);
    }
  }

  lemma PieceOrder(cuts: seq<real>, x: real, j: nat, l: nat)
    requires Ascending(cuts) && j < |cuts| && l + 1 < |cuts| && cuts[j] < x < cuts[l + 1]
    ensures j <= l
  {}

  /** Exactly the inner vertices strictly between the ends of the line that are on no cut and in no piece of at most
      STEP are shown. */
  lemma ShownExactly(cum: seq<real>, cuts: seq<real>, i: nat)
    requires |cum| >= 2 && Ascending(cum) && Partition(cuts, Last(cum)) && 1 <= i && i + 1 < |cum|
    ensures i in AllShown(cum, cuts, |cuts| - 1) <==>
      && 0.0 < cum[i] < Last(cum)
      && (forall m :: 0 <= m < |cuts| ==> cuts[m] != cum[i])
      && (forall j: nat :: j + 1 < |cuts| && cuts[j] < cum[i] < cuts[j + 1] ==> !Degenerate(cuts[j], cuts[j + 1]))
  {
    var n := |cuts| - 1;
    ShownIff(cum, cuts, n, i);
    if i in AllShown(cum, cuts, n) {
      var j: nat :| j < n && InPiece(cum, cuts, j, i);
      assert cuts[0] <= cuts[j] < cum[i] < cuts[j + 1] <= cuts[n];
      forall m | 0 <= m < |cuts| ensures cuts[m] != cum[i] {
        assert if m <= j then cuts[m] <= cuts[j] else cuts[j + 1] <= cuts[m];
      }
      forall l: nat | l + 1 < |cuts| && cuts[l] < cum[i] < cuts[l + 1] ensures l == j {
        PieceOrder(cuts, cum[i], j, l);
        PieceOrder(cuts, cum[i], l, j);
      }
    } else if 0.0 < cum[i] < Last(cum) && forall m :: 0 <= m < |cuts| ==> cuts[m] != cum[i] {
      var j := FindPiece(cuts, n, cum[i]);
      assert !InPiece(cum, cuts, j, i);
    }
  }

  // ----- Every vertex met by some piece -----

  /** The piece has the point of some position at most STEP along the line from x. */
  ghost predicate MeetsAlong(coords: seq<Point>, cum: seq<real>, piece: seq<Point>, x: real)
    requires |coords| == |cum| > 0
  {
    exists d :: 0.0 <= d <= Last(cum) && -0.000000001 <= d - x <= 0.000000001 && Shows(piece, PointAt(coords, cum, d))
  }

  ghost predicate Meets(coords: seq<Point>, cum: seq<real>, piece: seq<Point>, i: nat)
    requires |coords| == |cum| && i < |cum|
  {
    Shows(piece, coords[i]) || MeetsAlong(coords, cum, piece, cum[i])
  }

  ghost predicate MetBySome(coords: seq<Point>, cum: seq<real>, pieces: seq<Option<seq<Point>>>, i: nat)
    requires |coords| == |cum| && i < |cum|
  {
    exists k: nat :: k < |pieces| && pieces[k].Some? && Meets(coords, cum, pieces[k].value, i)
  }

  lemma {:induction false} FindStretch(cuts: seq<real>, k: nat, x: real) returns (j: nat)
    requires k + 1 < |cuts| && cuts[0] <= x <= cuts[k + 1]
    ensures j <= k && cuts[j] <= x <= cuts[j + 1]
  {
    if cuts[k] <= x {
      j := k;
    } else {
      j := FindStretch(cuts, k - 1, x);
    }
  }

  lemma VertexInRaw(coords: seq<Point>, at: seq<nat>, first: Point, last: Point, i: nat)
    requires (forall k :: k in at ==> k < |coords|) && i in at
    ensures coords[i] in [first] + Vertices(coords, at) + [last]
  {
    var j :| 0 <= j < |at| && at[j] == i;
    assert Vertices(coords, at)[j] == coords[i];
  }

  /** A piece that is not degenerate shows every vertex strictly between its cuts. */
  lemma InnerVertexShown(coords: seq<Point>, cum: seq<real>, cuts: seq<real>, k: nat, i: nat)
    requires Line(coords, cum) && Partition(cuts, Last(cum)) && k + 1 < |cuts| && i < |cum|
    requires InPiece(cum, cuts, k, i)
    ensures Shows(PieceBetween(coords, cum, cuts, k), coords[i])
  {
    assert cuts[0] <= cuts[k] < cum[i] < cuts[k + 1] <= Last(cuts);
    ShownIsInPiece(coords, cum, cuts, k);
    ShownIsInPieceOf(cum, cuts, k, i);
    var shown := Shown(cum, cuts, k);
    var first, last := PointAt(coords, cum, cuts[k]), PointAt(coords, cum, cuts[k + 1]);
    VertexInRaw(coords, shown, first, last, i);
    DedupedShowsAll([first] + Vertices(coords, shown) + [last], coords[i]);
  }

  /** A piece meets the points of both its cuts, a degenerate one that of the first. */
  lemma CutsMet(coords: seq<Point>, cum: seq<real>, cuts: seq<real>, k: nat)
    requires |coords| == |cum| > 0 && k + 1 < |cuts|
    ensures Shows(PieceBetween(coords, cum, cuts, k), PointAt(coords, cum, cuts[k]))
    ensures !Degenerate(cuts[k], cuts[k + 1]) ==>
      Shows(PieceBetween(coords, cum, cuts, k), PointAt(coords, cum, cuts[k + 1]))
  {
    PieceEnds(coords, cum, cuts, k);
    NearItself(PointAt(coords, cum, cuts[k]));
    var piece := PieceBetween(coords, cum, cuts, k);
    assert piece[0] in piece && Last(piece) in piece;
  }

  lemma PieceMeets(coords: seq<Point>, cum: seq<real>, cuts: seq<real>, k: nat, i: nat)
    requires Line(coords, cum) && Partition(cuts, Last(cum)) && k + 1 < |cuts| && i < |cum|
    requires cuts[k] <= cum[i] <= cuts[k + 1]
    ensures Meets(coords, cum, PieceBetween(coords, cum, cuts, k), i)
  {
    assert cuts[0] <= cuts[k] <= cuts[k + 1] <= Last(cuts);
    CutsMet(coords, cum, cuts, k);
    if InPiece(cum, cuts, k, i) {
      InnerVertexShown(coords, cum, cuts, k, i);
    } else if cum[i] == cuts[k + 1] && !Degenerate(cuts[k], cuts[k + 1]) {
      assert cuts[k + 1] - cum[i] == 0.0;
    } else {
      assert -0.000000001 <= cuts[k] - cum[i] <= 0.0;
    }
  }

  /** No vertex of the line is lost: some piece has it up to SAME in each coordinate, or has the point of a position
      at most STEP along the line from it. */
  lemma EveryVertexMet(coords: seq<Point>, measure: (Point, Point) -> real, lengths: seq<real>,
                       pieces: seq<Option<seq<Point>>>, i: nat)
    requires IsSplit(coords, measure, lengths, pieces) && !Unsplittable(coords, measure, lengths)
    requires i < |coords|
    ensures MetBySome(coords, Cumulative(coords, measure), pieces, i)
  {
    var cum := Cumulative(coords, measure);
    var cuts := LineCuts(cum, lengths);
    SplitIsPartition(coords, measure, lengths);
    assert cum[0] <= cum[i] <= cum[|cum| - 1];
    var k := FindStretch(cuts, |cuts| - 2, cum[i]);
    PieceMeets(coords, cum, cuts, k, i);
    assert pieces[k] == Some(PieceBetween(coords, cum, cuts, k));
  }

  /** A vertex at a cut, after a proper edge, starts the piece behind the cut and ends the one before it. */
  lemma VertexOnCut(coords: seq<Point>, cum: seq<real>, cuts: seq<real>, k: nat, i: nat)
    requires Line(coords, cum) && Partition(cuts, Last(cum))
    requires 0 < k && k + 1 < |cuts| && 0 < i && i + 1 < |cum| && cuts[k] == cum[i] < Last(cum)
    requires cum[i - 1] + 0.000000001 < cum[i] && |coords[i]| <= |coords[i - 1]|
    ensures PieceBetween(coords, cum, cuts, k) != [] && PieceBetween(coords, cum, cuts, k)[0] == coords[i]
    ensures !Degenerate(cuts[k - 1], cuts[k]) ==>
      PieceBetween(coords, cum, cuts, k - 1) != [] && Near(Last(PieceBetween(coords, cum, cuts, k - 1)), coords[i])
  {
    PointAtVertex(coords, cum, i);
    PieceEnds(coords, cum, cuts, k - 1);
    PieceEnds(coords, cum, cuts, k);
  }
}
