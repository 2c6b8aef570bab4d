/** The nearest point of a line segment: the clamped projection used by the exit audit and the platform join. */
module Segments {
  import opened Reals

  datatype Vector = Vector(x: real, y: real, z: real)
  {
    function Minus(v: Vector): Vector { Vector(x - v.x, y - v.y, z - v.z) }

    function Dot(v: Vector): real { x * v.x + y * v.y + z * v.z }

    function Square(): real { Dot(this) }
  }

  /** The point a fraction `t` of the way from `a` to `b`. */
  function At(a: Vector, b: Vector, t: real): Vector {
    Vector(a.x + t * (b.x - a.x), a.y + t * (b.y - a.y), a.z + t * (b.z - a.z))
  }

  function Clamped(t: real): real { if t < 0.0 then 0.0 else if t > 1.0 then 1.0 else t }

  function NearestFraction(dot: real, length2: real): (t: real)
    ensures 0.0 <= t <= 1.0
  {
    if length2 == 0.0 then 0.0 else Clamped(-dot / length2)
  }

  /** Where on the segment the clamped projection of the origin falls. */
  function Nearest(a: Vector, b: Vector): (t: real)
    ensures 0.0 <= t <= 1.0
  {
    var delta := b.Minus(a);
    NearestFraction(a.Dot(delta), delta.Square())
  }

  function Quadratic(dot: real, len2: real, t: real): real { 2.0 * t * dot + t * t * len2 }

  /** The squared distance as a quadratic in the fraction. */
  lemma SquareAlong(a: Vector, b: Vector, t: real)
    ensures At(a, b, t).Square() == a.Square() + Quadratic(a.Dot(b.Minus(a)), b.Minus(a).Square(), t)
  {
    var d := b.Minus(a);
    assert 2.0 * t * a.Dot(d) == 2.0 * t * (a.x * d.x) + 2.0 * t * (a.y * d.y) + 2.0 * t * (a.z * d.z);
    assert t * t * d.Square() == t * t * (d.x * d.x) + t * t * (d.y * d.y) + t * t * (d.z * d.z);
  }

  lemma SumOfSquares(x: real, y: real, z: real)
    requires x != 0.0 || y != 0.0 || z != 0.0
    ensures Square(x) + Square(y) + Square(z) > 0.0
  {
    SquareSign(x);
    SquareSign(y);
    SquareSign(z);
  }

  lemma SquareOfNonZero(d: Vector)
    requires d != Vector(0.0, 0.0, 0.0)
    ensures d.Square() > 0.0
  {
    SumOfSquares(d.x, d.y, d.z);
    assert d.Square() == Square(d.x) + Square(d.y) + Square(d.z);
  }

  /** A quadratic with non-negative leading coefficient is least, on [0, 1], at the clamped vertex. */
  lemma ClampedVertexIsLeast(dot: real, len2: real, t: real)
    requires len2 > 0.0 && 0.0 <= t <= 1.0
    ensures Quadratic(dot, len2, Clamped(-dot / len2)) <= Quadratic(dot, len2, t)
  {
    var g := -dot / len2;
    var f := Clamped(g);
    assert dot == -(g * len2);
    if g < 0.0 {
      NonNegativeProduct(t, t - 2.0 * g);
    } else if g > 1.0 {
      NonNegativeProduct(1.0 - t, 2.0 * g - t - 1.0);
    } else {
      SquareSign(t - g);
    }
    NonNegativeProduct(len2, (t - f) * (t + f - 2.0 * g));
  }

  lemma ScalarQuadratic(dot: real, len2: real, t: real)
    requires 0.0 <= t <= 1.0 && len2 >= 0.0 && (len2 == 0.0 ==> dot == 0.0)
    ensures Quadratic(dot, len2, NearestFraction(dot, len2)) <= Quadratic(dot, len2, t)
  {
    if len2 > 0.0 { ClampedVertexIsLeast(dot, len2, t); }
  }

  lemma SegmentQuadratic(a: Vector, delta: Vector, t: real)
    requires 0.0 <= t <= 1.0
    ensures Quadratic(a.Dot(delta), delta.Square(), NearestFraction(a.Dot(delta), delta.Square()))
         <= Quadratic(a.Dot(delta), delta.Square(), t)
  {
    if delta == Vector(0.0, 0.0, 0.0) {
      ScalarQuadratic(0.0, 0.0, t);
    } else {
      SquareOfNonZero(delta);
      ScalarQuadratic(a.Dot(delta), delta.Square(), t);
    }
  }

  /** No point of the segment is closer to the origin than the clamped projection. */
  lemma NearestIsNearest(a: Vector, b: Vector, t: real)
    requires 0.0 <= t <= 1.0
    ensures At(a, b, Nearest(a, b)).Square() <= At(a, b, t).Square()
  {
    var delta := b.Minus(a);
    SquareAlong(a, b, t);
    SquareAlong(a, b, Nearest(a, b));
    SegmentQuadratic(a, delta, t);
  }
}
