/** Even-odd containment of a point in polygon rings, with a tolerance along the edges. */
module Rings {
  import opened Reals

  datatype Point = Point(x: real, y: real)

  const TOLERANCE := 0.000000001

  /** Within the tolerance of the segment, squares standing for lengths. */
  predicate OnSegment(p: Point, a: Point, b: Point) {
    var dx, dy := b.x - a.x, b.y - a.y;
    if Square(dx) + Square(dy) == 0.0 then
      Square(p.x - a.x) + Square(p.y - a.y) <= Square(TOLERANCE)
    else
      && Square((p.x - a.x) * dy - (p.y - a.y) * dx) <= Square(TOLERANCE) * (Square(dx) + Square(dy))
      && Min(a.x, b.x) - TOLERANCE <= p.x <= Max(a.x, b.x) + TOLERANCE
      && Min(a.y, b.y) - TOLERANCE <= p.y <= Max(a.y, b.y) + TOLERANCE
  }

  /** The edge's ends lie on different sides of the point's horizontal line. */
  predicate Straddles(y: real, a: Point, b: Point) { (a.y > y) != (b.y > y) }

  /** Where the edge's line meets the horizontal line. */
  function CrossingX(y: real, a: Point, b: Point): real
    requires Straddles(y, a, b)
  {
    a.x + (y - a.y) * (b.x - a.x) / (b.y - a.y)
  }

  /** The edge crosses the horizontal ray from the point to the right. */
  predicate Crosses(p: Point, a: Point, b: Point) {
    Straddles(p.y, a, b) && p.x < CrossingX(p.y, a, b)
  }

  datatype Edge = Edge(a: Point, b: Point)

  /** The edges of a ring given by its vertices. */
  function Edges(ring: seq<Point>): (edges: seq<Edge>)
    ensures |edges| == if ring == [] then 0 else |ring| - 1
  {
    seq(if ring == [] then 0 else |ring| - 1,
        i requires 0 <= i < |ring| - 1 => Edge(ring[i], ring[i + 1]))
  }

  function CountWhere(edges: seq<Edge>, test: Edge -> bool): nat {
    if edges == [] then 0
    else CountWhere(edges[..|edges| - 1], test) + if test(edges[|edges| - 1]) then 1 else 0
  }

  ghost predicate SomeWhere(edges: seq<Edge>, test: Edge -> bool) {
    exists i :: 0 <= i < |edges| && test(edges[i])
  }

  function CrossTest(p: Point): Edge -> bool { (e: Edge) => Crosses(p, e.a, e.b) }

  function StraddleTest(y: real): Edge -> bool { (e: Edge) => Straddles(y, e.a, e.b) }

  function OnTest(p: Point): Edge -> bool { (e: Edge) => OnSegment(p, e.a, e.b) }

  function CountCrossings(p: Point, edges: seq<Edge>): nat { CountWhere(edges, CrossTest(p)) }

  function CountStraddles(y: real, edges: seq<Edge>): nat { CountWhere(edges, StraddleTest(y)) }

  ghost predicate OnBoundary(p: Point, edges: seq<Edge>) { SomeWhere(edges, OnTest(p)) }

  /** Even-odd containment: on an edge, or an odd number of crossings. */
  ghost predicate Contained(p: Point, edges: seq<Edge>) {
    OnBoundary(p, edges) || CountCrossings(p, edges) % 2 == 1
  }

  lemma CountStep(edges: seq<Edge>, n: nat, test: Edge -> bool)
    requires n < |edges|
    ensures CountWhere(edges[..n + 1], test) == CountWhere(edges[..n], test) + if test(edges[n]) then 1 else 0
  {
    assert edges[..n + 1][..n] == edges[..n];
  }

  lemma SomeStep(edges: seq<Edge>, n: nat, test: Edge -> bool)
    requires n < |edges|
    ensures SomeWhere(edges[..n + 1], test) <==> SomeWhere(edges[..n], test) || test(edges[n])
    ensures test(edges[n]) ==> SomeWhere(edges, test)
  {
    var more := edges[..n + 1];
    if i :| 0 <= i < n && test(edges[..n][i]) { assert more[i] == edges[..n][i]; }
    if test(edges[n]) { assert more[n] == edges[n]; }
    if i :| 0 <= i <= n && test(more[i]) { assert i < n ==> edges[..n][i] == more[i]; }
  }

  method CheckCrossing(p: Point, a: Point, b: Point) returns (crosses: bool)
    ensures crosses <==> Crosses(p, a, b)
  {
    crosses := false;
    if (a.y > p.y) != (b.y > p.y) {
      var crossing := a.x + (p.y - a.y) * (b.x - a.x) / (b.y - a.y);
      crosses := p.x < crossing;
    }
  }

  /** None of the first n edges is on, and `inside` is the parity of those that cross. */
  ghost predicate SoFar(edges: seq<Edge>, n: nat, inside: bool, on: Edge -> bool, crosses: Edge -> bool)
    requires n <= |edges|
  {
    (inside <==> CountWhere(edges[..n], crosses) % 2 == 1) && !SomeWhere(edges[..n], on)
  }

  lemma SoFarStep(edges: seq<Edge>, n: nat, inside: bool, on: Edge -> bool, crosses: Edge -> bool)
    requires n < |edges| && SoFar(edges, n, inside, on, crosses)
    ensures on(edges[n]) ==> SomeWhere(edges, on)
    ensures !on(edges[n]) ==> SoFar(edges, n + 1, if crosses(edges[n]) then !inside else inside, on, crosses)
  {
    CountStep(edges, n, crosses);
    SomeStep(edges, n, on);
  }

  method InRing(p: Point, ring: seq<Point>) returns (inside: bool)
    ensures inside <==> Contained(p, Edges(ring))
  {
    inside := false;
    var edges := Edges(ring);
    for i := 0 to |edges|
      invariant SoFar(edges, i, inside, OnTest(p), CrossTest(p))
    {
      var a, b := ring[i], ring[i + 1];
      var on := OnSegment(p, a, b);
      var crosses := CheckCrossing(p, a, b);
      SoFarStep(edges, i, inside, OnTest(p), CrossTest(p));
      if on { return true; }
      if crosses { inside := !inside; }
    }
    assert edges[..|edges|] == edges;
  }

  /** A ring whose last vertex repeats its first, as required of every ring before it is used. */
  predicate Closed(ring: seq<Point>) { |ring| >= 4 && ring[0] == ring[|ring| - 1] }

  // ----- parity -----

  lemma {:induction false} StraddleParity(y: real, ring: seq<Point>, n: nat)
    requires n < |ring|
    ensures CountStraddles(y, Edges(ring)[..n]) % 2 == if (ring[0].y > y) != (ring[n].y > y) then 1 else 0
  {
    if n > 0 {
      StraddleParity(y, ring, n - 1);
      assert Edges(ring)[..n][..n - 1] == Edges(ring)[..n - 1];
    }
  }

  /** A closed ring straddles every horizontal line an even number of times. */
  lemma ClosedRingStraddlesEvenly(y: real, ring: seq<Point>)
    requires Closed(ring)
    ensures CountStraddles(y, Edges(ring)) % 2 == 0
  {
    StraddleParity(y, ring, |ring| - 1);
    assert Edges(ring)[..|ring| - 1] == Edges(ring);
  }

  lemma SameFraction(t: real, u: real, h: real)
    requires h != 0.0 && Product(t, h) == Product(u, h)
    ensures t == u
  {
    var size := Abs(h);
    assert t * size == u * size;
    if t < u { LessTimes(t, u, size); }
    if u < t { LessTimes(u, t, size); }
  }

  /** How far along the edge it meets the horizontal line. */
  lemma CrossingFraction(y: real, a: Point, b: Point) returns (u: real)
    requires Straddles(y, a, b)
    ensures 0.0 <= u <= 1.0 && u * (b.y - a.y) == y - a.y
    ensures CrossingX(y, a, b) == a.x + u * (b.x - a.x)
  {
    var h := b.y - a.y;
    u := (y - a.y) / h;
    assert u * h == y - a.y;
    if h > 0.0 {
      FractionInUnit(y - a.y, h);
    } else {
      FractionInUnit(a.y - y, -h);
      assert (a.y - y) / -h == u;
    }
    QuotientTimes(y - a.y, b.x - a.x, h);
  }

  /** The point of the edge at the fraction t. */
  function Along(a: Point, b: Point, t: real): Point { Point(a.x + t * (b.x - a.x), a.y + t * (b.y - a.y)) }

  /** The edge meets the horizontal line at one fraction. */
  lemma OneFraction(y: real, a: Point, b: Point, u: real, t: real)
    requires a.y != b.y && u * (b.y - a.y) == y - a.y
    ensures Along(a, b, t).y == y <==> t == u
  {
    var h := b.y - a.y;
    assert Along(a, b, t).y == a.y + Product(t, h) && Product(u, h) == y - a.y;
    if Product(t, h) == Product(u, h) { SameFraction(t, u, h); }
  }

  /** An edge is crossed exactly when one end is above the point and the other not, and its point at the height of the
      point is farther right. */
  lemma CrossesMeans(p: Point, a: Point, b: Point)
    ensures Crosses(p, a, b) <==>
      && (a.y > p.y) != (b.y > p.y)
      && exists t :: 0.0 <= t <= 1.0 && Along(a, b, t).y == p.y && p.x < Along(a, b, t).x
  {
    if Straddles(p.y, a, b) {
      var u := CrossingFraction(p.y, a, b);
      forall t ensures Along(a, b, t).y == p.y <==> t == u {
        OneFraction(p.y, a, b, u, t);
      }
      assert Along(a, b, u).x == CrossingX(p.y, a, b);
    }
  }

  /** Every vertex lies in the box. */
  ghost predicate Within(ring: seq<Point>, x0: real, x1: real, y0: real, y1: real) {
    forall i :: 0 <= i < |ring| ==> x0 <= ring[i].x <= x1 && y0 <= ring[i].y <= y1
  }

  predicate FarOutside(p: Point, x0: real, x1: real, y0: real, y1: real) {
    p.x < x0 - 0.000000001 || p.x > x1 + 0.000000001 || p.y < y0 - 0.000000001 || p.y > y1 + 0.000000001
  }

  lemma CrossesWithin(p: Point, e: Edge, x0: real, x1: real)
    requires x0 <= e.a.x <= x1 && x0 <= e.b.x <= x1
    ensures p.x < x0 ==> (Crosses(p, e.a, e.b) <==> Straddles(p.y, e.a, e.b))
    ensures p.x > x1 ==> !Crosses(p, e.a, e.b)
  {
    if Straddles(p.y, e.a, e.b) {
      var u := CrossingFraction(p.y, e.a, e.b);
      Convex(e.a.x, e.b.x, u, x0, x1);
    }
  }

  ghost predicate EdgesWithin(edges: seq<Edge>, x0: real, x1: real, y0: real, y1: real) {
    forall i :: 0 <= i < |edges| ==>
      && x0 <= edges[i].a.x <= x1 && x0 <= edges[i].b.x <= x1
      && y0 <= edges[i].a.y <= y1 && y0 <= edges[i].b.y <= y1
  }

  /** Left of the box every straddling edge is crossed; on the other three sides none is. */
  lemma {:induction false} CrossingsOutside(p: Point, edges: seq<Edge>, x0: real, x1: real, y0: real, y1: real)
    requires EdgesWithin(edges, x0, x1, y0, y1)
    ensures p.x < x0 ==> CountCrossings(p, edges) == CountStraddles(p.y, edges)
    ensures p.x > x1 || p.y < y0 || p.y > y1 ==> CountCrossings(p, edges) == 0
  {
    if edges != [] {
      CrossingsOutside(p, edges[..|edges| - 1], x0, x1, y0, y1);
      CrossesWithin(p, edges[|edges| - 1], x0, x1);
    }
  }

  lemma BeyondTolerance(u: real, v: real)
    requires u > TOLERANCE || u < -TOLERANCE
    ensures Square(u) + Square(v) > Square(TOLERANCE) && Square(v) + Square(u) > Square(TOLERANCE)
  {
    SquareSign(v);
    var m := Abs(u);
    LessTimes(TOLERANCE, m, TOLERANCE);
    LessTimes(TOLERANCE, m, m);
    assert Square(u) == m * m;
  }

  lemma NotOnSegment(p: Point, a: Point, b: Point, x0: real, x1: real, y0: real, y1: real)
    requires x0 <= a.x <= x1 && x0 <= b.x <= x1 && y0 <= a.y <= y1 && y0 <= b.y <= y1
    requires FarOutside(p, x0, x1, y0, y1)
    ensures !OnSegment(p, a, b)
  {
    if p.x - a.x > TOLERANCE || p.x - a.x < -TOLERANCE { BeyondTolerance(p.x - a.x, p.y - a.y); }
    if p.y - a.y > TOLERANCE || p.y - a.y < -TOLERANCE { BeyondTolerance(p.y - a.y, p.x - a.x); }
  }

  /** A point beyond the tolerance outside a closed ring's bounding box, on any of the four sides, is outside it. */
  lemma OutsideBoxIsOutside(p: Point, ring: seq<Point>, x0: real, x1: real, y0: real, y1: real)
    requires Closed(ring) && Within(ring, x0, x1, y0, y1) && FarOutside(p, x0, x1, y0, y1)
    ensures !Contained(p, Edges(ring))
  {
    var edges := Edges(ring);
    forall i | 0 <= i < |edges| ensures !OnSegment(p, edges[i].a, edges[i].b) {
      NotOnSegment(p, edges[i].a, edges[i].b, x0, x1, y0, y1);
    }
    CrossingsOutside(p, edges, x0, x1, y0, y1);
    ClosedRingStraddlesEvenly(p.y, ring);
  }

  lemma NoLength(dx: real, dy: real)
    requires Square(dx) + Square(dy) == 0.0
    ensures dx == 0.0 && dy == 0.0
  {
    SquareSign(dx);
    SquareSign(dy);
  }

  // ----- what is contained -----

  lemma SquareOfProduct(x: real, y: real)
    ensures Square(x * y) == Square(x) * Square(y)
  {
    assert (x * y) * (x * y) == ((x * x) * y) * y == (x * x) * (y * y);
  }

  lemma SquareOfSum(x: real, y: real)
    ensures Square(x + y) == Square(x) + 2.0 * (x * y) + Square(y)
    ensures Square(x - y) == Square(x) - 2.0 * (x * y) + Square(y)
  {}

  lemma Distribute(a: real, b: real, c: real, d: real)
    ensures (a + b) * (c + d) == a * c + a * d + b * c + b * d
  {
    assert (a + b) * (c + d) == a * (c + d) + b * (c + d);
  }

  lemma Swapped(u: real, v: real, x: real, y: real)
    ensures (u * y) * (v * x) == (u * x) * (v * y)
  {
    assert (u * y) * (v * x) == ((u * y) * v) * x == ((u * v) * y) * x == ((u * v) * x) * y == ((u * x) * v) * y;
  }

  /** The squares of the cross and the inner product add up to the product of the squared lengths. */
  lemma CrossAndDot(u: real, v: real, dx: real, dy: real)
    ensures Square(u * dy - v * dx) + Square(u * dx + v * dy) == (Square(u) + Square(v)) * (Square(dx) + Square(dy))
  {
    SquareOfSum(u * dy, v * dx);
    SquareOfSum(u * dx, v * dy);
    Swapped(u, v, dx, dy);
    SquareOfProduct(u, dy);
    SquareOfProduct(v, dx);
    SquareOfProduct(u, dx);
    SquareOfProduct(v, dy);
    Distribute(Square(u), Square(v), Square(dx), Square(dy));
  }

  lemma CrossIsShort(u: real, v: real, dx: real, dy: real, bound: real)
    requires Square(u) + Square(v) <= bound
    ensures Square(u * dy - v * dx) <= bound * (Square(dx) + Square(dy))
  {
    CrossAndDot(u, v, dx, dy);
    SquareSign(u * dx + v * dy);
    SquareSign(dx);
    SquareSign(dy);
    AtMostTimes(Square(u) + Square(v), bound, Square(dx) + Square(dy));
  }

  lemma ShortEachWay(u: real, v: real)
    requires Square(u) + Square(v) <= Square(TOLERANCE)
    ensures -TOLERANCE <= u <= TOLERANCE && -TOLERANCE <= v <= TOLERANCE
  {
    if u > TOLERANCE || u < -TOLERANCE { BeyondTolerance(u, v); }
    if v > TOLERANCE || v < -TOLERANCE { BeyondTolerance(v, u); }
  }

  /** At most a billionth away. */
  predicate Close(p: Point, q: Point) { Square(p.x - q.x) + Square(p.y - q.y) <= 0.000000001 * 0.000000001 }

  /** Moving along the edge does not change the cross product with it. */
  lemma SameCross(x: real, y: real, dx: real, dy: real, t: real, u: real, v: real)
    requires u == x - t * dx && v == y - t * dy
    ensures x * dy - y * dx == u * dy - v * dx
  {
    assert u * dy == x * dy - (t * dx) * dy;
    assert v * dx == y * dx - (t * dy) * dx;
    assert (t * dx) * dy == t * (dx * dy) == (t * dy) * dx;
  }

  lemma CloseOnAxis(x: real, a: real, b: real, t: real)
    requires 0.0 <= t <= 1.0 && -TOLERANCE <= x - (a + t * (b - a)) <= TOLERANCE
    ensures Min(a, b) - TOLERANCE <= x <= Max(a, b) + TOLERANCE
  {
    Convex(a, b, t, Min(a, b), Max(a, b));
  }

  lemma CloseIsInBox(p: Point, a: Point, b: Point, t: real)
    requires 0.0 <= t <= 1.0 && Close(p, Along(a, b, t))
    ensures Min(a.x, b.x) - TOLERANCE <= p.x <= Max(a.x, b.x) + TOLERANCE
    ensures Min(a.y, b.y) - TOLERANCE <= p.y <= Max(a.y, b.y) + TOLERANCE
  {
    var q := Along(a, b, t);
    ShortEachWay(p.x - q.x, p.y - q.y);
    CloseOnAxis(p.x, a.x, b.x, t);
    CloseOnAxis(p.y, a.y, b.y, t);
  }

  lemma CloseIsBeside(p: Point, a: Point, b: Point, t: real)
    requires Close(p, Along(a, b, t))
    ensures var dx, dy := b.x - a.x, b.y - a.y;
      Square((p.x - a.x) * dy - (p.y - a.y) * dx) <= Square(TOLERANCE) * (Square(dx) + Square(dy))
  {
    var q, dx, dy := Along(a, b, t), b.x - a.x, b.y - a.y;
    SameCross(p.x - a.x, p.y - a.y, dx, dy, t, p.x - q.x, p.y - q.y);
    CrossIsShort(p.x - q.x, p.y - q.y, dx, dy, Square(TOLERANCE));
  }

  lemma CloseToEdgeIsOn(p: Point, a: Point, b: Point, t: real)
    requires 0.0 <= t <= 1.0 && Close(p, Along(a, b, t))
    ensures OnSegment(p, a, b)
  {
    CloseIsInBox(p, a, b, t);
    CloseIsBeside(p, a, b, t);
    var dx, dy := b.x - a.x, b.y - a.y;
    if Square(dx) + Square(dy) == 0.0 {
      NoLength(dx, dy);
      assert Along(a, b, t) == a;
    }
  }

  /** Every point within a billionth of some point of some edge is contained, the points of the edges themselves among
      them. */
  lemma CloseToEdgeIsContained(p: Point, ring: seq<Point>, i: nat, t: real)
    requires i + 1 < |ring| && 0.0 <= t <= 1.0 && Close(p, Along(ring[i], ring[i + 1], t))
    ensures Contained(p, Edges(ring))
  {
    CloseToEdgeIsOn(p, ring[i], ring[i + 1], t);
    assert Edges(ring)[i] == Edge(ring[i], ring[i + 1]);
  }

  function Rectangle(x0: real, x1: real, y0: real, y1: real): seq<Point> {
    [Point(x0, y0), Point(x1, y0), Point(x1, y1), Point(x0, y1), Point(x0, y0)]
  }

  lemma UprightEdge(p: Point, x: real, y0: real, y1: real)
    requires y0 <= p.y < y1
    ensures Crosses(p, Point(x, y0), Point(x, y1)) <==> p.x < x
    ensures Crosses(p, Point(x, y1), Point(x, y0)) <==> p.x < x
  {
    assert 0.0 / (y1 - y0) == 0.0 && 0.0 / (y0 - y1) == 0.0;
    assert (p.y - y0) * 0.0 == 0.0 && (p.y - y1) * 0.0 == 0.0;
  }

  /** A point inside a rectangle is contained. */
  lemma InsideIsContained(p: Point, x0: real, x1: real, y0: real, y1: real)
    requires x0 < p.x < x1 && y0 < p.y < y1
    ensures Contained(p, Edges(Rectangle(x0, x1, y0, y1)))
  {
    var e := Edges(Rectangle(x0, x1, y0, y1));
    UprightEdge(p, x1, y0, y1);
    UprightEdge(p, x0, y0, y1);
    assert e[..0] == [] && e[..4] == e;
    CountStep(e, 0, CrossTest(p));
    CountStep(e, 1, CrossTest(p));
    CountStep(e, 2, CrossTest(p));
    CountStep(e, 3, CrossTest(p));
  }

  // ----- the choice of first vertex and of direction does not matter -----

  lemma {:induction false} CountConcat(a: seq<Edge>, b: seq<Edge>, test: Edge -> bool)
    ensures CountWhere(a + b, test) == CountWhere(a, test) + CountWhere(b, test)
  {
    if b == [] {
      assert a + b == a;
    } else {
      assert (a + b)[..|a + b| - 1] == a + b[..|b| - 1];
      CountConcat(a, b[..|b| - 1], test);
    }
  }

  lemma SomeConcat(a: seq<Edge>, b: seq<Edge>, test: Edge -> bool)
    ensures SomeWhere(a + b, test) <==> SomeWhere(a, test) || SomeWhere(b, test)
  {
    var all := a + b;
    if i :| 0 <= i < |a| && test(a[i]) { assert all[i] == a[i]; }
    if i :| 0 <= i < |b| && test(b[i]) { assert all[|a| + i] == b[i]; }
  }

  /** The same closed ring, starting one vertex later. */
  function Rotated(ring: seq<Point>): seq<Point>
    requires |ring| >= 2
  {
    ring[1..] + [ring[1]]
  }

  function RotatedBy(ring: seq<Point>, k: nat): (r: seq<Point>)
    requires |ring| >= 2
    ensures |r| == |ring|
  {
    if k == 0 then ring else Rotated(RotatedBy(ring, k - 1))
  }

  lemma RotatedWhere(first: Edge, rest: seq<Edge>, test: Edge -> bool)
    ensures CountWhere(rest + [first], test) == CountWhere([first] + rest, test)
    ensures SomeWhere(rest + [first], test) <==> SomeWhere([first] + rest, test)
  {
    CountConcat([first], rest, test);
    CountConcat(rest, [first], test);
    SomeConcat([first], rest, test);
    SomeConcat(rest, [first], test);
  }

  lemma RotateOnce(p: Point, ring: seq<Point>)
    requires Closed(ring)
    ensures Closed(Rotated(ring))
    ensures Contained(p, Edges(Rotated(ring))) <==> Contained(p, Edges(ring))
  {
    var e, e' := Edges(ring), Edges(Rotated(ring));
    assert e == [e[0]] + e[1..];
    assert e' == e[1..] + [e[0]];
    RotatedWhere(e[0], e[1..], CrossTest(p));
    RotatedWhere(e[0], e[1..], OnTest(p));
  }

  /** The answer is the same whichever vertex the ring starts at. */
  lemma {:induction false} RotationInvariant(p: Point, ring: seq<Point>, k: nat)
    requires Closed(ring)
    ensures Closed(RotatedBy(ring, k))
    ensures Contained(p, Edges(RotatedBy(ring, k))) <==> Contained(p, Edges(ring))
  {
    if k > 0 {
      RotationInvariant(p, ring, k - 1);
      RotateOnce(p, RotatedBy(ring, k - 1));
    }
  }

  lemma FractionsAddUp(u: real, v: real, h: real, d: real, part: real)
    requires h != 0.0 && Product(u, h) == part && Product(v, h) == h - part
    ensures u * d + v * d == d
  {
    assert Product(u + v, h) == Product(u, h) + Product(v, h);
    SameFraction(u + v, 1.0, h);
    assert (u + v) * d == u * d + v * d;
  }

  lemma CrossesFlipped(p: Point, a: Point, b: Point)
    ensures Crosses(p, a, b) <==> Crosses(p, b, a)
  {
    if Straddles(p.y, a, b) {
      var u := CrossingFraction(p.y, a, b);
      var v := CrossingFraction(p.y, b, a);
      var h, d := b.y - a.y, b.x - a.x;
      assert a.y - b.y == -h && v * -h == -(v * h);
      assert v * h == b.y - p.y;
      FractionsAddUp(u, v, h, d, p.y - a.y);
      assert v * (a.x - b.x) == -(v * d);
    }
  }

  /** The cross product with the edge turned round, from its other end. */
  lemma CrossFlipped(x: real, y: real, dx: real, dy: real)
    ensures (x - dx) * -dy - (y - dy) * -dx == -(x * dy - y * dx)
  {
    assert (x - dx) * -dy == -(x * dy) + dx * dy;
    assert (y - dy) * -dx == -(y * dx) + dy * dx;
  }

  lemma SquareOfNegated(x: real)
    ensures Square(-x) == Square(x)
  {}

  lemma OnSegmentFlipped(p: Point, a: Point, b: Point)
    ensures OnSegment(p, a, b) <==> OnSegment(p, b, a)
  {
    var dx, dy := b.x - a.x, b.y - a.y;
    SquareOfNegated(dx);
    SquareOfNegated(dy);
    if Square(dx) + Square(dy) == 0.0 {
      NoLength(dx, dy);
    } else {
      CrossFlipped(p.x - a.x, p.y - a.y, dx, dy);
      SquareOfNegated((p.x - a.x) * dy - (p.y - a.y) * dx);
      assert p.x - a.x - dx == p.x - b.x && p.y - a.y - dy == p.y - b.y;
    }
  }

  function FlippedEdge(e: Edge): Edge { Edge(e.b, e.a) }

  function Flipped(edges: seq<Edge>): (r: seq<Edge>)
    ensures |r| == |edges|
  {
    if edges == [] then [] else [FlippedEdge(edges[|edges| - 1])] + Flipped(edges[..|edges| - 1])
  }

  lemma CountOne(e: Edge, test: Edge -> bool)
    ensures CountWhere([e], test) == if test(e) then 1 else 0
    ensures SomeWhere([e], test) <==> test(e)
  {
    assert [e][..0] == [] && [e][0] == e;
  }

  /** A test that does not mind the direction of an edge counts the same either way. */
  lemma {:induction false} FlippedWhere(edges: seq<Edge>, test: Edge -> bool)
    requires forall e :: test(FlippedEdge(e)) <==> test(e)
    ensures CountWhere(Flipped(edges), test) == CountWhere(edges, test)
    ensures SomeWhere(Flipped(edges), test) <==> SomeWhere(edges, test)
  {
    if edges != [] {
      var init, last := edges[..|edges| - 1], edges[|edges| - 1];
      FlippedWhere(init, test);
      CountConcat([FlippedEdge(last)], Flipped(init), test);
      SomeConcat([FlippedEdge(last)], Flipped(init), test);
      SomeConcat(init, [last], test);
      CountOne(FlippedEdge(last), test);
      CountOne(last, test);
      assert edges == init + [last];
    }
  }

  lemma FlippedContained(p: Point, edges: seq<Edge>)
    ensures Contained(p, Flipped(edges)) <==> Contained(p, edges)
  {
    forall e ensures CrossTest(p)(FlippedEdge(e)) <==> CrossTest(p)(e) {
      CrossesFlipped(p, e.a, e.b);
    }
    forall e ensures OnTest(p)(FlippedEdge(e)) <==> OnTest(p)(e) {
      OnSegmentFlipped(p, e.a, e.b);
    }
    FlippedWhere(edges, CrossTest(p));
    FlippedWhere(edges, OnTest(p));
  }

  function Reversed(ring: seq<Point>): (r: seq<Point>)
    ensures |r| == |ring|
  {
    seq(|ring|, i requires 0 <= i < |ring| => ring[|ring| - 1 - i])
  }

  lemma {:induction false} FlippedAt(edges: seq<Edge>, i: nat)
    requires i < |edges|
    ensures Flipped(edges)[i] == Edge(edges[|edges| - 1 - i].b, edges[|edges| - 1 - i].a)
  {
    if i > 0 { FlippedAt(edges[..|edges| - 1], i - 1); }
  }

  /** The answer is the same whichever way round the ring runs. */
  lemma ReversalInvariant(p: Point, ring: seq<Point>)
    ensures Contained(p, Edges(Reversed(ring))) <==> Contained(p, Edges(ring))
  {
    var e := Edges(ring);
    forall i | 0 <= i < |e| ensures Edges(Reversed(ring))[i] == Flipped(e)[i] {
      FlippedAt(e, i);
    }
    assert Edges(Reversed(ring)) == Flipped(e);
    FlippedContained(p, e);
  }

  // ----- polygons with holes -----

  /** An outer ring followed by holes. */
  type Polygon = r: seq<seq<Point>> | r != [] witness [[]]

  ghost predicate InPolygon(p: Point, polygon: Polygon) {
    && Contained(p, Edges(polygon[0]))
    && forall h :: 1 <= h < |polygon| ==> !Contained(p, Edges(polygon[h]))
  }

  method Contains(p: Point, polygons: seq<Polygon>) returns (inside: bool)
    ensures inside <==> exists i :: 0 <= i < |polygons| && InPolygon(p, polygons[i])
  {
    for i := 0 to |polygons|
      invariant forall j :: 0 <= j < i ==> !InPolygon(p, polygons[j])
    {
      var polygon := polygons[i];
      var outer := InRing(p, polygon[0]);
      if outer {
        var inHole := false;
        for h := 1 to |polygon|
          invariant inHole <==> exists g :: 1 <= g < h && Contained(p, Edges(polygon[g]))
        {
          var hole := InRing(p, polygon[h]);
          inHole := inHole || hole;
        }
        if !inHole {
          return true;
        }
      }
    }
    inside := false;
  }
}
