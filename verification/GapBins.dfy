/** The bins of the connector search: which pairs of nearby points share one of the 27 bins searched. */
module GapBins {
  import opened Basics
  import opened Network
  import opened Reals
  import opened Cells

  datatype BinKey = BinKey(x: int, y: int, z: int)

  function BinOf(p: Point): BinKey {
    BinKey((p.lon * BIN_METRES_PER_LON / 0.01).Floor, (p.lat * BIN_METRES_PER_LAT / 0.01).Floor, (p.z / 0.001).Floor)
  }

  function Neighbour(key: BinKey, dx: int, dy: int, dz: int): BinKey {
    BinKey(key.x + dx, key.y + dy, key.z + dz)
  }

  /** At most a centimetre apart horizontally and a millimetre vertically, where `cosine` is that of the first
      point's latitude. */
  predicate WithinGap(node: Point, other: Point, cosine: real) {
    && Square((node.lon - other.lon) * 111320.0 * cosine) + Square((node.lat - other.lat) * 111320.0) <= 0.0001
    && -0.001 <= node.z - other.z <= 0.001
  }

  /** The test that the search makes of a pair. */
  method CheckGap(node: Point, other: Point, cosine: real) returns (near: bool)
    ensures near <==> WithinGap(node, other, cosine)
  {
    var dlon, dlat := (node.lon - other.lon) * METRES_PER_DEGREE * cosine, (node.lat - other.lat) * METRES_PER_DEGREE;
    var horizontal2 := Square(dlon) + Square(dlat);
    if horizontal2 > Square(0.01) || Abs(node.z - other.z) > 0.001 { return false; }
    near := true;
  }

  predicate Touching(a: BinKey, b: BinKey) {
    Distance(a.x, b.x) <= 1 && Distance(a.y, b.y) <= 1 && Distance(a.z, b.z) <= 1
  }

  /** The search compares the pair and finds it near. */
  predicate Found(node: Point, other: Point, cosine: real) {
    WithinGap(node, other, cosine) && Touching(BinOf(node), BinOf(other))
  }

  /** A bin spans at least a metric centimetre from east to west: it is no finer than the limit of the search. */
  predicate BinScaleFits(cosine: real) { 102900.0 <= 111320.0 * cosine }

  lemma SquareGrows(a: real, b: real)
    requires a > b >= 0.0
    ensures Square(a) > Square(b)
  {
    var d := a - b;
    PositiveProduct(d, d);
    SquareSign(b);
    assert Square(a) == (b + d) * (b + d) == b * b + 2.0 * (b * d) + d * d;
    NonNegativeProduct(b, d);
  }

  lemma SquareBound(x: real, bound: real)
    requires bound >= 0.0 && Square(x) <= Square(bound)
    ensures Abs(x) <= bound
  {
    assert Square(Abs(x)) == Square(x);
    if Abs(x) > bound {
      SquareGrows(Abs(x), bound);
    }
  }

  lemma GapTouches(node: Point, other: Point, cosine: real)
    requires BinScaleFits(cosine) && WithinGap(node, other, cosine)
    ensures Touching(BinOf(node), BinOf(other))
  {
    var dlon, dlat := node.lon - other.lon, node.lat - other.lat;
    SquareSign(dlon * METRES_PER_DEGREE * cosine);
    SquareSign(dlat * METRES_PER_DEGREE);
    SquareBound(dlon * METRES_PER_DEGREE * cosine, 0.01);
    SquareBound(dlat * METRES_PER_DEGREE, 0.01);
    assert dlon * METRES_PER_DEGREE * cosine == dlon * (METRES_PER_DEGREE * cosine);
    CellsApart(node.lon * BIN_METRES_PER_LON / 0.01, other.lon * BIN_METRES_PER_LON / 0.01, 1);
    CellsApart(node.lat * BIN_METRES_PER_LAT / 0.01, other.lat * BIN_METRES_PER_LAT / 0.01, 1);
    CellsApart(node.z / 0.001, other.z / 0.001, 1);
  }

  /** Two points on the parallel at `lat` within the gap, two bins apart: d centibins, 1 < d <= 2, whose metric distance
      d * k centimetres is at most one. */
  lemma MissedPair(lat: real, cosine: real) returns (node: Point, other: Point)
    requires cosine >= 0.0 && !BinScaleFits(cosine)
    ensures node.lat == lat && other.lat == lat && node.lon > other.lon >= 0.0
    ensures WithinGap(node, other, cosine) && !Touching(BinOf(node), BinOf(other))
  {
    var k := METRES_PER_DEGREE * cosine / BIN_METRES_PER_LON;
    var d := 2.0 - k;
    node := Point(0.02 / BIN_METRES_PER_LON, lat, 0.0);
    other := Point((2.0 - d) * 0.01 / BIN_METRES_PER_LON, lat, 0.0);
    assert 0.0 <= k < 1.0;
    SquareSign(1.0 - k);
    assert d * k == 1.0 - Square(1.0 - k);
    NonNegativeProduct(d, k);
    assert (node.lon - other.lon) * METRES_PER_DEGREE * cosine == d * k * 0.01;
    SquareAtMost(d * k * 0.01, 0.01);
    assert BinOf(node).x == 2;
    assert other.lon * BIN_METRES_PER_LON / 0.01 == k;
    assert BinOf(other).x == 0;
  }
}
