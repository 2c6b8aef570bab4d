/** The node grid and the node-to-edge table as they are built: well-formed for every network. */
module NetworkIndex {
  import opened Basics
  import opened Reals
  import opened NetworkEdges
  import Cells
  import Buckets

  // ----- the shape of the grid -----

  const TARGET_CELL_SPAN_M := 750.0

  /** The smallest step of a 64-bit float above one. */
  const EPSILON := 0.0000000000000002220446049250313

  const MAX_U32: nat := 4294967295

  /** What a cell spans in degrees of latitude, and of longitude at the given cosine. */
  const CELL_HEIGHT := Max(TARGET_CELL_SPAN_M / Cells.METRES_PER_DEGREE, EPSILON)

  function CellWidth(cosine: real): (width: real)
    ensures width > 0.0
  {
    Max(TARGET_CELL_SPAN_M / (Cells.METRES_PER_DEGREE * Max(Abs(cosine), 0.2)), EPSILON)
  }

  /** A float cast to 32 bits, plus one; both saturate. */
  function CellCount(span: real, cell: real): (n: nat)
    requires cell > 0.0
    ensures 0 < n <= MAX_U32
    ensures n < MAX_U32 ==> (span / cell).Floor < n
  {
    var whole := (span / cell).Floor;
    if whole >= MAX_U32 then MAX_U32 else if whole < 0 then 1 else whole + 1
  }

  ghost predicate Bounds(nodes: seq<Node>, minLon: real, minLat: real, maxLon: real, maxLat: real) {
    && (forall i :: 0 <= i < |nodes| ==> minLon <= nodes[i].lon <= maxLon && minLat <= nodes[i].lat <= maxLat)
    && (exists i :: 0 <= i < |nodes| && nodes[i].lon == minLon)
    && (exists i :: 0 <= i < |nodes| && nodes[i].lon == maxLon)
    && (exists i :: 0 <= i < |nodes| && nodes[i].lat == minLat)
    && exists i :: 0 <= i < |nodes| && nodes[i].lat == maxLat
  }

  lemma BoundsOneMore(nodes: seq<Node>, n: Node, minLon: real, minLat: real, maxLon: real, maxLat: real)
    requires Bounds(nodes, minLon, minLat, maxLon, maxLat)
    ensures Bounds(nodes + [n], Min(minLon, n.lon), Min(minLat, n.lat), Max(maxLon, n.lon), Max(maxLat, n.lat))
  {
    var all := nodes + [n];
    assert all[|nodes|] == n;
    var w :| 0 <= w < |nodes| && nodes[w].lon == minLon;
    var e :| 0 <= e < |nodes| && nodes[e].lon == maxLon;
    var s :| 0 <= s < |nodes| && nodes[s].lat == minLat;
    var t :| 0 <= t < |nodes| && nodes[t].lat == maxLat;
    assert all[w] == nodes[w] && all[e] == nodes[e] && all[s] == nodes[s] && all[t] == nodes[t];
  }

  method BoundsOf(nodes: seq<Node>) returns (minLon: real, minLat: real, maxLon: real, maxLat: real)
    requires nodes != []
    ensures Bounds(nodes, minLon, minLat, maxLon, maxLat)
  {
    minLon, minLat, maxLon, maxLat := nodes[0].lon, nodes[0].lat, nodes[0].lon, nodes[0].lat;
    for i := 1 to |nodes|
      invariant Bounds(nodes[..i], minLon, minLat, maxLon, maxLat)
    {
      BoundsOneMore(nodes[..i], nodes[i], minLon, minLat, maxLon, maxLat);
      assert nodes[..i + 1] == nodes[..i] + [nodes[i]];
      minLon, minLat := Min(minLon, nodes[i].lon), Min(minLat, nodes[i].lat);
      maxLon, maxLat := Max(maxLon, nodes[i].lon), Max(maxLat, nodes[i].lat);
    }
    assert nodes[..|nodes|] == nodes;
  }

  /** The node's cell before it is clamped into the grid. */
  ghost predicate Unclamped(g: Grid, n: Node)
    requires g.width > 0.0 && g.height > 0.0
  {
    0 <= ((n.lon - g.minLon) / g.width).Floor < g.columns && 0 <= ((n.lat - g.minLat) / g.height).Floor < g.rows
  }

  lemma QuotientsOrdered(x: real, span: real, cell: real)
    requires 0.0 <= x <= span && cell > 0.0
    ensures 0 <= (x / cell).Floor <= (span / cell).Floor
  {
    QuotientMonotone(0.0, x, cell);
    QuotientMonotone(x, span, cell);
  }

  /** A grid of about 750 m cells over the bounds of the nodes; only a grid at the 32-bit limit clamps a node. */
  method ShapeOf(nodes: seq<Node>, cosine: real -> real) returns (shape: Grid)
    requires nodes != []
    ensures shape.width > 0.0 && shape.height > 0.0 && shape.columns > 0 && shape.rows > 0
    ensures exists maxLon, maxLat :: Bounds(nodes, shape.minLon, shape.minLat, maxLon, maxLat)
    ensures shape.columns < MAX_U32 && shape.rows < MAX_U32 ==> forall n :: n in nodes ==> Unclamped(shape, n)
  {
    var minLon, minLat, maxLon, maxLat := BoundsOf(nodes);
    var width := CellWidth(cosine((minLat + maxLat) / 2.0));
    shape := Grid(minLon, minLat, CellCount(maxLon - minLon, width), CellCount(maxLat - minLat, CELL_HEIGHT),
                  width, CELL_HEIGHT, [], []);
    forall n | n in nodes && shape.columns < MAX_U32 && shape.rows < MAX_U32 ensures Unclamped(shape, n) {
      QuotientsOrdered(n.lon - minLon, maxLon - minLon, width);
      QuotientsOrdered(n.lat - minLat, maxLat - minLat, CELL_HEIGHT);
    }
  }

  // ----- the layout of nodes and edges -----

  function CellIndex(g: Grid, n: Node): nat
    requires g.width > 0.0 && g.height > 0.0 && g.columns > 0 && g.rows > 0
  {
    RowStart(g.columns, RowOf(g, n.lat)) + ColumnOf(g, n.lon)
  }

  lemma LaidLists(bucket: seq<nat>, count: nat, first: seq<nat>, order: seq<nat>, b: nat)
    requires Buckets.Laid(bucket, count, first, order) && b < count
    ensures first[b] <= first[b + 1] <= |order| && Lists(order[first[b]..first[b + 1]], ItemSet(bucket, b))
  {
    Buckets.ItemsOfMembers(bucket, b, |bucket|);
  }

  lemma BuiltTableOk(t: Topology)
    requires Buckets.Laid(t.from, |t.nodes|, t.firstOut, t.edgeOrder)
    ensures HasOutTable(t) && OutTableOk(t)
  {
    forall n | 0 <= n < |t.nodes| ensures OutRangeOk(t, n) && Lists(OutEdges(t, n), EdgesFrom(t, n)) {
      LaidLists(t.from, |t.nodes|, t.firstOut, t.edgeOrder, n);
    }
  }

  lemma BuiltShapeOk(g: Grid, bucket: seq<nat>, first: seq<nat>)
    requires Buckets.Laid(bucket, |g.cells|, first, g.nodeIds)
    requires forall c {:trigger g.cells[c]} :: 0 <= c < |g.cells| ==>
               g.cells[c] == GridCell(first[c], first[c + 1] - first[c])
    ensures forall c :: 0 <= c < |g.cells| ==> g.cells[c].start + g.cells[c].len <= |g.nodeIds|
  {
    forall c | 0 <= c < |g.cells| ensures g.cells[c].start + g.cells[c].len == first[c + 1] <= |g.nodeIds| {
      assert first[c] <= first[c + 1];
    }
  }

  lemma BuiltBucketLists(g: Grid, cellOf: seq<nat>, first: seq<nat>, c: nat)
    requires Buckets.Laid(cellOf, |g.cells|, first, g.nodeIds) && c < |g.cells|
    requires first[c] <= first[c + 1] && g.cells[c] == GridCell(first[c], first[c + 1] - first[c])
    ensures g.cells[c].start + g.cells[c].len <= |g.nodeIds|
    ensures Lists(g.nodeIds[g.cells[c].start..g.cells[c].start + g.cells[c].len], ItemSet(cellOf, c))
  {
    var start, end := first[c], first[c + 1];
    assert g.cells[c].start == start && start + g.cells[c].len == end;
    LaidLists(cellOf, |g.cells|, first, g.nodeIds, c);
  }

  lemma BuiltCellLists(g: Grid, cellOf: seq<nat>, first: seq<nat>, row: nat, col: nat)
    requires GridShapeOk(g) && row < g.rows && col < g.columns
    requires Buckets.Laid(cellOf, |g.cells|, first, g.nodeIds)
    requires forall c {:trigger g.cells[c]} :: 0 <= c < |g.cells| ==>
               g.cells[c] == GridCell(first[c], first[c + 1] - first[c])
    ensures Lists(CellNodes(g, row, col), ItemSet(cellOf, RowStart(g.columns, row) + col))
  {
    var c := RowStart(g.columns, row) + col;
    CellInRange(g.rows, g.columns, row, col);
    assert first[c] <= first[c + 1];
    BuiltBucketLists(g, cellOf, first, c);
  }

  lemma SameCell(columns: nat, row: nat, col: nat, row': nat, col': nat)
    requires col < columns && col' < columns && RowStart(columns, row) + col == RowStart(columns, row') + col'
    ensures row == row' && col == col'
  {
    if row < row' {
      CellInRange(row', columns, row, col);
    } else if row' < row {
      CellInRange(row, columns, row', col');
    }
  }

  lemma CellMembers(g: Grid, nodes: seq<Node>, cellOf: seq<nat>, row: nat, col: nat)
    requires GridShapeOk(g) && |cellOf| == |nodes| && row < g.rows && col < g.columns
    requires forall i :: 0 <= i < |nodes| ==> cellOf[i] == CellIndex(g, nodes[i])
    ensures NodesIn(g, nodes, row, col) == ItemSet(cellOf, RowStart(g.columns, row) + col)
  {
    forall i | 0 <= i < |nodes| && cellOf[i] == RowStart(g.columns, row) + col
      ensures RowOf(g, nodes[i].lat) == row && ColumnOf(g, nodes[i].lon) == col
    {
      SameCell(g.columns, row, col, RowOf(g, nodes[i].lat), ColumnOf(g, nodes[i].lon));
    }
  }

  lemma BuiltGridOk(g: Grid, nodes: seq<Node>, cellOf: seq<nat>, first: seq<nat>)
    requires g.columns > 0 && g.rows > 0 && g.width > 0.0 && g.height > 0.0
    requires |cellOf| == |nodes|
    requires forall i :: 0 <= i < |nodes| ==> cellOf[i] == CellIndex(g, nodes[i])
    requires Buckets.Laid(cellOf, RowStart(g.columns, g.rows), first, g.nodeIds)
    requires |g.cells| == RowStart(g.columns, g.rows)
    requires forall c {:trigger g.cells[c]} :: 0 <= c < |g.cells| ==>
               g.cells[c] == GridCell(first[c], first[c + 1] - first[c])
    ensures GridOk(g, nodes)
  {
    BuiltShapeOk(g, cellOf, first);
    forall row, col | 0 <= row < g.rows && 0 <= col < g.columns
      ensures Lists(CellNodes(g, row, col), NodesIn(g, nodes, row, col))
    {
      BuiltCellLists(g, cellOf, first, row, col);
      CellMembers(g, nodes, cellOf, row, col);
    }
  }

  method CellIndexes(nodes: seq<Node>, shape: Grid) returns (cellOf: seq<nat>)
    requires shape.width > 0.0 && shape.height > 0.0 && shape.columns > 0 && shape.rows > 0
    ensures |cellOf| == |nodes|
    ensures forall i :: 0 <= i < |nodes| ==> cellOf[i] == CellIndex(shape, nodes[i])
    ensures forall i :: 0 <= i < |nodes| ==> cellOf[i] < RowStart(shape.columns, shape.rows)
  {
    cellOf := [];
    var count := RowStart(shape.columns, shape.rows);
    for i := 0 to |nodes|
      invariant |cellOf| == i
      invariant forall j :: 0 <= j < i ==> cellOf[j] == CellIndex(shape, nodes[j]) && cellOf[j] < count
    {
      CellInRange(shape.rows, shape.columns, RowOf(shape, nodes[i].lat), ColumnOf(shape, nodes[i].lon));
      cellOf := cellOf + [CellIndex(shape, nodes[i])];
    }
  }

  method CellTable(first: seq<nat>, count: nat) returns (cells: seq<GridCell>)
    requires |first| == count + 1 && forall c :: 0 <= c < count ==> first[c] <= first[c + 1]
    ensures |cells| == count
    ensures forall c {:trigger cells[c]} :: 0 <= c < count ==> cells[c] == GridCell(first[c], first[c + 1] - first[c])
  {
    cells := [];
    for c := 0 to count
      invariant |cells| == c
      invariant forall d :: 0 <= d < c ==> cells[d] == GridCell(first[d], first[d + 1] - first[d])
    {
      cells := cells + [GridCell(first[c], first[c + 1] - first[c])];
    }
  }

  method BuildGrid(nodes: seq<Node>, shape: Grid) returns (g: Grid)
    requires shape.width > 0.0 && shape.height > 0.0 && shape.columns > 0 && shape.rows > 0
    ensures GridOk(g, nodes)
    ensures g.columns == shape.columns && g.rows == shape.rows
  {
    var cellOf := CellIndexes(nodes, shape);
    var count := RowStart(shape.columns, shape.rows);
    var first, nodeIds := Buckets.Layout(cellOf, count);
    var cells := CellTable(first, count);
    g := shape.(cells := cells, nodeIds := nodeIds);
    BuiltGridOk(g, nodes, cellOf, first);
  }

  /** Lays out the edges by start node and the nodes by grid cell; the result is well formed, and indexed unless the
      network is empty. */
  method BuildIndex(nodes: seq<Node>, from: seq<nat>, cosine: real -> real) returns (t: Topology)
    requires forall e :: 0 <= e < |from| ==> from[e] < |nodes|
    ensures t.nodes == nodes && t.from == from && WellFormed(t) && HasOutTable(t)
    ensures nodes != [] ==> Indexed(t)
  {
    var firstOut, edgeOrder := Buckets.Layout(from, |nodes|);
    t := Topology(nodes, from, firstOut, edgeOrder, None);
    BuiltTableOk(t);
    if nodes != [] {
      var shape := ShapeOf(nodes, cosine);
      var g := BuildGrid(nodes, shape);
      t := t.(grid := Some(g));
      BuiltTableOk(t);
    }
  }
}
