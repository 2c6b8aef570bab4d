/** Clipping a segment to a tile's square, by narrowing the parameter interval one side at a time. */
module TileClip {
  import opened Basics
  import opened Reals

  datatype Point = Point(x: real, y: real)

  /** The half-line of parameters `t` with p * t <= q. */
  datatype Side = Side(p: real, q: real)
  {
    predicate Admits(t: real) { p * t <= q }
  }

  function At(a: Point, b: Point, t: real): Point {
    Point(a.x + t * (b.x - a.x), a.y + t * (b.y - a.y))
  }

  predicate InSquare(p: Point, low: real, high: real) {
    low <= p.x <= high && low <= p.y <= high
  }

  /** Left, right, bottom and top. */
  function Sides(a: Point, b: Point, low: real, high: real): seq<Side> {
    var dx, dy := b.x - a.x, b.y - a.y;
    [Side(-dx, a.x - low), Side(dx, high - a.x), Side(-dy, a.y - low), Side(dy, high - a.y)]
  }

  ghost predicate AllAdmit(sides: seq<Side>, t: real) {
    forall i :: 0 <= i < |sides| ==> sides[i].Admits(t)
  }

  lemma AxisSides(x: real, d: real, low: real, high: real, t: real)
    ensures Side(-d, x - low).Admits(t) <==> low <= x + t * d
    ensures Side(d, high - x).Admits(t) <==> x + t * d <= high
  {
    assert -d * t == -(t * d) && d * t == t * d;
  }

  lemma SidesAreSquare(a: Point, b: Point, low: real, high: real, t: real)
    ensures AllAdmit(Sides(a, b, low, high), t) <==> InSquare(At(a, b, t), low, high)
  {
    var dx, dy := b.x - a.x, b.y - a.y;
    var s := Sides(a, b, low, high);
    AxisSides(a.x, dx, low, high, t);
    AxisSides(a.y, dy, low, high, t);
    assert AllAdmit(s, t) <==> s[0].Admits(t) && s[1].Admits(t) && s[2].Admits(t) && s[3].Admits(t);
  }

  /** A side admits the parameters on one side of q / p, or all of them, or none. */
  lemma SideIsHalfLine(side: Side, t: real)
    ensures side.p < 0.0 ==> (side.Admits(t) <==> side.q / side.p <= t)
    ensures side.p > 0.0 ==> (side.Admits(t) <==> t <= side.q / side.p)
    ensures side.p == 0.0 ==> (side.Admits(t) <==> side.q >= 0.0)
  {
    if side.p > 0.0 {
      var bound := side.q / side.p;
      assert side.p * bound == side.q;
      if t <= bound { AtMostTimes(t, bound, side.p); } else { LessTimes(bound, t, side.p); }
    } else if side.p < 0.0 {
      var bound, size := side.q / side.p, -side.p;
      assert side.p * bound == side.q;
      assert side.p * t == -(t * size) && side.p * bound == -(bound * size);
      if bound <= t { AtMostTimes(bound, t, size); } else { LessTimes(t, bound, size); }
    }
  }

  /** The parameters in [0, 1] that the sides admit are those from t0 to t1. */
  ghost predicate Narrowed(sides: seq<Side>, t0: real, t1: real) {
    0.0 <= t0 && t1 <= 1.0 && forall t :: 0.0 <= t <= 1.0 && AllAdmit(sides, t) <==> t0 <= t <= t1
  }

  lemma AdmitsOneMore(sides: seq<Side>, side: Side, t: real)
    ensures AllAdmit(sides + [side], t) <==> AllAdmit(sides, t) && side.Admits(t)
  {
    var all := sides + [side];
    if AllAdmit(all, t) {
      forall i | 0 <= i < |sides| ensures sides[i].Admits(t) { assert all[i].Admits(t); }
      assert all[|sides|].Admits(t);
    }
  }

  lemma NarrowStep(sides: seq<Side>, side: Side, t0: real, t1: real)
    requires Narrowed(sides, t0, t1) && side.p != 0.0
    ensures var bound := side.q / side.p;
      if side.p < 0.0 then Narrowed(sides + [side], if t0 < bound then bound else t0, t1)
      else Narrowed(sides + [side], t0, if bound < t1 then bound else t1)
  {
    forall t ensures AllAdmit(sides + [side], t) <==> AllAdmit(sides, t) && side.Admits(t) {
      AdmitsOneMore(sides, side, t);
    }
    forall t { SideIsHalfLine(side, t); }
  }

  /** A side parallel to the segment admits every parameter or none. */
  lemma FlatStep(sides: seq<Side>, side: Side, t0: real, t1: real)
    requires Narrowed(sides, t0, t1) && side.p == 0.0
    ensures side.q >= 0.0 ==> Narrowed(sides + [side], t0, t1)
    ensures side.q < 0.0 ==> forall t :: !AllAdmit(sides + [side], t)
  {
    forall t ensures AllAdmit(sides + [side], t) <==> AllAdmit(sides, t) && side.q >= 0.0 {
      AdmitsOneMore(sides, side, t);
      SideIsHalfLine(side, t);
    }
  }

  /** `w` lies on the stretch from `u` to `v`. */
  ghost predicate Between(u: Point, v: Point, w: Point) {
    exists s :: 0.0 <= s <= 1.0 && w == At(u, v, s)
  }

  lemma AxisComposes(a: real, d: real, t0: real, t1: real, s: real)
    ensures a + t0 * d + s * ((a + t1 * d) - (a + t0 * d)) == a + (t0 + s * (t1 - t0)) * d
  {
    var w := s * (t1 - t0);
    assert (a + t1 * d) - (a + t0 * d) == (t1 - t0) * d;
    assert s * ((t1 - t0) * d) == w * d;
    assert (t0 + w) * d == t0 * d + w * d;
  }

  lemma AtComposes(a: Point, b: Point, t0: real, t1: real, s: real)
    ensures At(At(a, b, t0), At(a, b, t1), s) == At(a, b, t0 + s * (t1 - t0))
  {
    AxisComposes(a.x, b.x - a.x, t0, t1, s);
    AxisComposes(a.y, b.y - a.y, t0, t1, s);
  }

  lemma FractionOf(t0: real, t1: real, t: real) returns (s: real)
    requires t0 <= t <= t1 && t0 < t1
    ensures 0.0 <= s <= 1.0 && t0 + s * (t1 - t0) == t
  {
    s := (t - t0) / (t1 - t0);
    assert s * (t1 - t0) == t - t0;
    FractionInUnit(t - t0, t1 - t0);
  }

  /** A point of the segment lies between the ends at t0 and t1 exactly when it is the point of a parameter between. */
  lemma BetweenEnds(a: Point, b: Point, t0: real, t1: real, t: real)
    requires t0 <= t <= t1
    ensures Between(At(a, b, t0), At(a, b, t1), At(a, b, t))
  {
    if t0 == t1 {
      AtComposes(a, b, t0, t1, 0.0);
      assert At(a, b, t) == At(At(a, b, t0), At(a, b, t1), 0.0);
    } else {
      var s := FractionOf(t0, t1, t);
      AtComposes(a, b, t0, t1, s);
      assert At(a, b, t) == At(At(a, b, t0), At(a, b, t1), s);
    }
  }

  lemma InBetween(t0: real, t1: real, s: real) returns (t: real)
    requires 0.0 <= s <= 1.0 && t0 <= t1
    ensures t == t0 + s * (t1 - t0) && t0 <= t <= t1
  {
    AtMostTimes(0.0, s, t1 - t0);
    AtMostTimes(s, 1.0, t1 - t0);
    t := t0 + s * (t1 - t0);
  }

  lemma StretchStaysInside(a: Point, b: Point, low: real, high: real, t0: real, t1: real, w: Point)
    requires Narrowed(Sides(a, b, low, high), t0, t1) && t0 <= t1
    requires Between(At(a, b, t0), At(a, b, t1), w)
    ensures InSquare(w, low, high)
  {
    var s :| 0.0 <= s <= 1.0 && w == At(At(a, b, t0), At(a, b, t1), s);
    var t := InBetween(t0, t1, s);
    AtComposes(a, b, t0, t1, s);
    SidesAreSquare(a, b, low, high, t);
  }

  lemma MissesWhenEmpty(a: Point, b: Point, low: real, high: real, i: nat)
    requires i <= 4 && forall t :: 0.0 <= t <= 1.0 ==> !AllAdmit(Sides(a, b, low, high)[..i], t)
    ensures forall t :: 0.0 <= t <= 1.0 ==> !InSquare(At(a, b, t), low, high)
  {
    var sides := Sides(a, b, low, high);
    forall t | 0.0 <= t <= 1.0 ensures !InSquare(At(a, b, t), low, high) {
      SidesAreSquare(a, b, low, high, t);
      assert !AllAdmit(sides[..i], t);
    }
  }

  /** Two points of the segment, the first no farther from its start than the second. */
  ghost predicate InOrder(a: Point, b: Point, first: Point, second: Point) {
    exists t0, t1 :: 0.0 <= t0 <= t1 <= 1.0 && first == At(a, b, t0) && second == At(a, b, t1)
  }

  /** The stretch of the segment inside the square, in the segment's direction: nothing exactly when the segment misses
      it, and otherwise two points such that a point of the segment is inside exactly when it lies between them. */
  method ClipSegment(a: Point, b: Point, low: real, high: real) returns (r: Option<(Point, Point)>)
    ensures r.None? <==> forall t :: 0.0 <= t <= 1.0 ==> !InSquare(At(a, b, t), low, high)
    ensures r.Some? ==> forall t :: 0.0 <= t <= 1.0 ==>
      (InSquare(At(a, b, t), low, high) <==> Between(r.value.0, r.value.1, At(a, b, t)))
    ensures r.Some? ==> InOrder(a, b, r.value.0, r.value.1)
  {
    var sides := Sides(a, b, low, high);
    var t0, t1 := 0.0, 1.0;
    for i := 0 to 4
      invariant Narrowed(sides[..i], t0, t1) && t0 <= t1
    {
      var side := sides[i];
      assert sides[..i + 1] == sides[..i] + [side];
      if side.p == 0.0 {
        FlatStep(sides[..i], side, t0, t1);
        if side.q < 0.0 {
          MissesWhenEmpty(a, b, low, high, i + 1);
          return None;
        }
        continue;
      }
      NarrowStep(sides[..i], side, t0, t1);
      var t := side.q / side.p;
      if side.p < 0.0 {
        t0 := if t0 < t then t else t0;
      } else {
        t1 := if t < t1 then t else t1;
      }
      if t0 > t1 {
        MissesWhenEmpty(a, b, low, high, i + 1);
        return None;
      }
    }
    assert sides[..4] == sides;
    var p, q := At(a, b, t0), At(a, b, t1);
    forall t | 0.0 <= t <= 1.0 ensures InSquare(At(a, b, t), low, high) <==> Between(p, q, At(a, b, t)) {
      SidesAreSquare(a, b, low, high, t);
      if t0 <= t <= t1 { BetweenEnds(a, b, t0, t1, t); }
      if Between(p, q, At(a, b, t)) { StretchStaysInside(a, b, low, high, t0, t1, At(a, b, t)); }
    }
    SidesAreSquare(a, b, low, high, t0);
    r := Some((p, q));
  }
}
