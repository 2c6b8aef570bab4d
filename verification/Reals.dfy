/** Facts about products of reals, and rounding, shared by the geometric models. */
module Reals {

  function Abs(x: real): real { if x < 0.0 then -x else x }

  function Min(a: real, b: real): real { if b < a then b else a }

  function Max(a: real, b: real): real { if a < b then b else a }

  function Square(x: real): real { x * x }

  /** Nearest integer, halves away from zero. */
  function Rounded(x: real): int {
    if x >= 0.0 then (x + 0.5).Floor else -((0.5 - x).Floor)
  }

  /** No integer is nearer, and of two that are as near it is the one farther from zero. */
  lemma RoundedIsNearest(x: real)
    ensures -0.5 <= Rounded(x) as real - x <= 0.5
    ensures x >= 0.0 ==> Rounded(x) as real - x > -0.5
    ensures x <= 0.0 ==> Rounded(x) as real - x < 0.5
  {}

  function Product(x: real, y: real): real { x * y }

  lemma PositiveProduct(x: real, y: real)
    requires x > 0.0 && y > 0.0
    ensures Product(x, y) > 0.0
  {}

  lemma NonNegativeProduct(x: real, y: real)
    requires x >= 0.0 && y >= 0.0
    ensures Product(x, y) >= 0.0
  {}

  lemma SquareSign(x: real)
    ensures Square(x) >= 0.0 && (x != 0.0 ==> Square(x) > 0.0)
  {
    if x > 0.0 {
      PositiveProduct(x, x);
    } else if x < 0.0 {
      PositiveProduct(-x, -x);
      assert Product(-x, -x) == Square(x);
    }
  }

  lemma SquareAtMost(x: real, bound: real)
    requires 0.0 <= x <= bound
    ensures Square(x) <= Square(bound)
  {
    NonNegativeProduct(bound - x, bound);
    NonNegativeProduct(bound - x, x);
    assert Product(bound - x, bound) + Product(bound - x, x) == Square(bound) - Square(x);
  }

  lemma LessTimes(x: real, y: real, d: real)
    requires x < y && d > 0.0
    ensures x * d < y * d
  {
    PositiveProduct(y - x, d);
    assert Product(y - x, d) == y * d - x * d;
  }

  lemma AtMostTimes(x: real, y: real, d: real)
    requires x <= y && d >= 0.0
    ensures x * d <= y * d
  {
    NonNegativeProduct(y - x, d);
    assert Product(y - x, d) == y * d - x * d;
  }

  /** A point between two others stays within any bounds of both. */
  lemma Convex(a: real, b: real, t: real, low: real, high: real)
    requires low <= a <= high && low <= b <= high && 0.0 <= t <= 1.0
    ensures low <= a + t * (b - a) <= high
  {
    var d := Abs(b - a);
    NonNegativeProduct(t, d);
    NonNegativeProduct(1.0 - t, d);
    assert Product(1.0 - t, d) == d - Product(t, d);
    assert t * (b - a) == if b >= a then Product(t, d) else -Product(t, d);
  }

  /** A quotient of magnitudes lies in [0, 1]. */
  lemma FractionInUnit(x: real, d: real)
    requires 0.0 <= x <= d && d > 0.0
    ensures 0.0 <= x / d <= 1.0
  {
    var q := x / d;
    assert q * d == x;
    if q < 0.0 { LessTimes(q, 0.0, d); }
    if q > 1.0 { LessTimes(1.0, q, d); }
  }

  lemma QuotientWithin(total: real, interval: real, k: real)
    requires interval > 0.0 && k * interval <= total < (k + 1.0) * interval
    ensures k <= total / interval < k + 1.0
  {
    var q := total / interval;
    assert q * interval == total;
    if q < k { LessTimes(q, k, interval); }
    if q >= k + 1.0 { AtMostTimes(k + 1.0, q, interval); }
  }

  lemma QuotientAtLeast(total: real, interval: real, k: real)
    requires interval > 0.0 && k * interval <= total
    ensures k <= total / interval
  {
    var q := total / interval;
    assert q * interval == total;
    if q < k { LessTimes(q, k, interval); }
  }

  lemma QuotientTimes(x: real, d: real, h: real)
    requires h != 0.0
    ensures x * d / h == (x / h) * d
  {
    var u := x / h;
    assert u * h == x;
    assert (u * d) * h == x * d;
  }

  lemma QuotientMonotone(x: real, y: real, d: real)
    requires x <= y && d > 0.0
    ensures x / d <= y / d
  {}

  lemma RatioOfSame(x: real)
    requires x > 0.0
    ensures x / x == 1.0
  {
    var q := x / x;
    assert q * x == x;
    if q < 1.0 { LessTimes(q, 1.0, x); }
    if q > 1.0 { LessTimes(1.0, q, x); }
  }

  /** x is as much of the whole as the part is of the length. */
  predicate Proportional(x: real, whole: real, part: real, length: real) { x * length == whole * part }

  lemma ProportionalFraction(whole: real, part: real, length: real)
    requires length > 0.0
    ensures Proportional(whole * (part / length), whole, part, length)
  {
    var t := part / length;
    assert t * length == part;
    assert (whole * t) * length == whole * (t * length);
  }

  lemma ProportionalOnce(x: real, y: real, whole: real, part: real, length: real)
    requires Proportional(x, whole, part, length) && Proportional(y, whole, part, length) && length > 0.0
    ensures x == y
  {
    if x < y { LessTimes(x, y, length); }
    if y < x { LessTimes(y, x, length); }
  }

  /** What is proportionally between two bounded values is bounded. */
  lemma ProportionalWithin(a: real, b: real, x: real, part: real, length: real, low: real, high: real)
    requires Proportional(x - a, b - a, part, length) && 0.0 <= part <= length && length > 0.0
    requires low <= a <= high && low <= b <= high
    ensures low <= x <= high
  {
    var t := part / length;
    FractionInUnit(part, length);
    ProportionalFraction(b - a, part, length);
    ProportionalOnce(x - a, (b - a) * t, b - a, part, length);
    Convex(a, b, t, low, high);
    assert (b - a) * t == t * (b - a);
  }
}
