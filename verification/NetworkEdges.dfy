/** The edges that start inside a bounding box, found through the node grid and the node-to-edge table, against a scan
    of every edge. */
module NetworkEdges {
  import opened Basics
  import opened Reals

  datatype Node = Node(lon: real, lat: real)

  datatype BBox = BBox(west: real, south: real, east: real, north: real)

  datatype GridCell = GridCell(start: nat, len: nat)

  datatype Grid = Grid(minLon: real, minLat: real, columns: nat, rows: nat, width: real, height: real,
                       cells: seq<GridCell>, nodeIds: seq<nat>)

  /** `from` gives each edge's start node; `firstOut` and `edgeOrder` list the edges by start node. */
  datatype Topology = Topology(nodes: seq<Node>, from: seq<nat>, firstOut: seq<nat>, edgeOrder: seq<nat>,
                               grid: Option<Grid>)

  predicate Inside(n: Node, b: BBox) {
    b.west <= n.lon <= b.east && b.south <= n.lat <= b.north
  }

  function Clamp(x: int, high: nat): (r: nat)
    requires high > 0
    ensures r < high
  {
    if x < 0 then 0 else if x >= high then high - 1 else x
  }

  function ColumnOf(g: Grid, lon: real): nat
    requires g.columns > 0 && g.width > 0.0
  {
    Clamp(((lon - g.minLon) / g.width).Floor, g.columns)
  }

  function RowOf(g: Grid, lat: real): nat
    requires g.rows > 0 && g.height > 0.0
  {
    Clamp(((lat - g.minLat) / g.height).Floor, g.rows)
  }

  predicate HasOutTable(t: Topology) { |t.firstOut| == |t.nodes| + 1 }

  predicate HasGrid(t: Topology) { t.grid.Some? && t.grid.value.columns > 0 && t.grid.value.rows > 0 }

  /** `s` lists exactly the members of `members`, each once. */
  ghost predicate Lists(s: seq<nat>, members: set<nat>) {
    Distinct(s) && forall e: nat :: e in s <==> e in members
  }

  predicate OutRangeOk(t: Topology, n: nat)
    requires HasOutTable(t) && n < |t.nodes|
  {
    t.firstOut[n] <= t.firstOut[n + 1] <= |t.edgeOrder|
  }

  function OutEdges(t: Topology, n: nat): seq<nat>
    requires HasOutTable(t) && n < |t.nodes| && OutRangeOk(t, n)
  {
    t.edgeOrder[t.firstOut[n]..t.firstOut[n + 1]]
  }

  function ItemSet(bucket: seq<nat>, b: nat): set<nat> {
    set i | 0 <= i < |bucket| && bucket[i] == b
  }

  function EdgesFrom(t: Topology, n: nat): set<nat> { ItemSet(t.from, n) }

  /** Each node's stretch of the table lists exactly the edges that start at it. */
  ghost predicate OutTableOk(t: Topology)
    requires HasOutTable(t)
  {
    forall n {:trigger OutRangeOk(t, n)} :: 0 <= n < |t.nodes| ==>
      OutRangeOk(t, n) && Lists(OutEdges(t, n), EdgesFrom(t, n))
  }

  /** `row * columns`, where the row's cells start. */
  function RowStart(columns: nat, row: nat): nat {
    if row == 0 then 0 else RowStart(columns, row - 1) + columns
  }

  predicate GridShapeOk(g: Grid) {
    && g.columns > 0 && g.rows > 0 && g.width > 0.0 && g.height > 0.0
    && |g.cells| == RowStart(g.columns, g.rows)
    && forall c :: 0 <= c < |g.cells| ==> g.cells[c].start + g.cells[c].len <= |g.nodeIds|
  }

  lemma {:induction false} RowStartIsProduct(columns: nat, row: nat)
    ensures RowStart(columns, row) == row * columns
  {
    if row > 0 { RowStartIsProduct(columns, row - 1); }
  }

  lemma {:induction false} CellInRange(rows: nat, columns: nat, row: nat, col: nat)
    requires row < rows && col < columns
    ensures RowStart(columns, row) + col < RowStart(columns, rows)
  {
    if row + 1 < rows { CellInRange(rows - 1, columns, row, col); }
  }

  function CellNodes(g: Grid, row: nat, col: nat): seq<nat>
    requires GridShapeOk(g) && row < g.rows && col < g.columns
  {
    CellInRange(g.rows, g.columns, row, col);
    var cell := g.cells[RowStart(g.columns, row) + col];
    g.nodeIds[cell.start..cell.start + cell.len]
  }

  function NodesIn(g: Grid, nodes: seq<Node>, row: nat, col: nat): set<nat>
    requires GridShapeOk(g)
  {
    set n | 0 <= n < |nodes| && RowOf(g, nodes[n].lat) == row && ColumnOf(g, nodes[n].lon) == col
  }

  ghost predicate NodeIdsOk(g: Grid, nodes: seq<Node>) {
    forall i :: 0 <= i < |g.nodeIds| ==> g.nodeIds[i] < |nodes|
  }

  /** Each cell lists exactly the nodes that fall into it. */
  ghost predicate GridOk(g: Grid, nodes: seq<Node>) {
    && GridShapeOk(g)
    && NodeIdsOk(g, nodes)
    && forall row, col :: 0 <= row < g.rows && 0 <= col < g.columns ==>
         Lists(CellNodes(g, row, col), NodesIn(g, nodes, row, col))
  }

  ghost predicate WellFormed(t: Topology) {
    && (forall e :: 0 <= e < |t.from| ==> t.from[e] < |t.nodes|)
    && (HasOutTable(t) ==> OutTableOk(t))
    && (HasGrid(t) ==> GridOk(t.grid.value, t.nodes))
  }

  /** The start of the edge is neither west, east, south nor north of the box. */
  predicate StartsWithin(t: Topology, b: BBox, e: nat)
    requires e < |t.from| && t.from[e] < |t.nodes|
  {
    var n := t.nodes[t.from[e]];
    !(n.lon < b.west) && !(n.lon > b.east) && !(n.lat < b.south) && !(n.lat > b.north)
  }

  /** The edges that start inside the box. */
  function Qualifying(t: Topology, b: BBox): set<nat> {
    set e | 0 <= e < |t.from| && t.from[e] < |t.nodes| && StartsWithin(t, b, e)
  }

  // ----- the order in which the index is walked -----

  ghost predicate Indexed(t: Topology) {
    WellFormed(t) && HasOutTable(t) && HasGrid(t)
  }

  /** Every stretch of the tables is in range: what walking them takes for granted. */
  ghost predicate TableWalkable(t: Topology) {
    HasOutTable(t) && forall n :: 0 <= n < |t.nodes| ==> OutRangeOk(t, n)
  }

  ghost predicate Walkable(t: Topology) {
    TableWalkable(t) && HasGrid(t) && GridShapeOk(t.grid.value) && NodeIdsOk(t.grid.value, t.nodes)
  }

  lemma IndexedIsWalkable(t: Topology)
    requires Indexed(t)
    ensures Walkable(t)
  {}

  ghost predicate NodesOk(t: Topology, ids: seq<nat>) {
    forall i :: 0 <= i < |ids| ==> ids[i] < |t.nodes|
  }

  ghost function EdgesOfNode(t: Topology, b: BBox, n: nat): seq<nat>
    requires TableWalkable(t) && n < |t.nodes|
  {
    if Inside(t.nodes[n], b) then OutEdges(t, n) else []
  }

  ghost function EdgesOfNodes(t: Topology, b: BBox, ids: seq<nat>): seq<nat>
    requires TableWalkable(t) && NodesOk(t, ids)
  {
    if ids == [] then [] else EdgesOfNodes(t, b, ids[..|ids| - 1]) + EdgesOfNode(t, b, ids[|ids| - 1])
  }

  lemma CellNodesOk(t: Topology, row: nat, col: nat)
    requires Walkable(t) && row < t.grid.value.rows && col < t.grid.value.columns
    ensures NodesOk(t, CellNodes(t.grid.value, row, col))
  {
    var g := t.grid.value;
    CellInRange(g.rows, g.columns, row, col);
    var start, ids := g.cells[RowStart(g.columns, row) + col].start, CellNodes(g, row, col);
    forall i | 0 <= i < |ids| ensures ids[i] < |t.nodes| {
      assert ids[i] == g.nodeIds[start + i];
    }
  }

  ghost function EdgesOfCell(t: Topology, b: BBox, row: nat, col: nat): seq<nat>
    requires Walkable(t) && row < t.grid.value.rows && col < t.grid.value.columns
  {
    CellNodesOk(t, row, col);
    EdgesOfNodes(t, b, CellNodes(t.grid.value, row, col))
  }

  /** What a cell contributes, by row and column. */
  type CellReader = (nat, nat) -> seq<nat>

  ghost predicate Reads(cell: CellReader, t: Topology, b: BBox)
    requires Walkable(t)
  {
    forall row: nat, col: nat {:trigger EdgesOfCell(t, b, row, col)} ::
      row < t.grid.value.rows && col < t.grid.value.columns ==> cell(row, col) == EdgesOfCell(t, b, row, col)
  }

  ghost function RowOfCells(cell: CellReader, row: nat, col0: nat, col1: nat): seq<nat>
    requires col0 <= col1
    decreases col1
  {
    if col0 == col1 then [] else RowOfCells(cell, row, col0, col1 - 1) + cell(row, col1 - 1)
  }

  ghost function RowsOfCells(cell: CellReader, row0: nat, row1: nat, col0: nat, col1: nat): seq<nat>
    requires row0 <= row1 && col0 <= col1
    decreases row1
  {
    if row0 == row1 then []
    else RowsOfCells(cell, row0, row1 - 1, col0, col1) + RowOfCells(cell, row1 - 1, col0, col1)
  }

  lemma ListsConcat(s: seq<nat>, u: seq<nat>, a: set<nat>, b: set<nat>)
    requires Lists(s, a) && Lists(u, b) && a !! b
    ensures Lists(s + u, a + b)
  {
    var all := s + u;
    forall i, j | 0 <= i < j < |all| ensures all[i] != all[j] {
      if i < |s| <= j {
        assert s[i] in a && u[j - |s|] in b;
      }
    }
  }

  /** The qualifying edges that start at one of the nodes. */
  function QualifyingAt(t: Topology, b: BBox, ids: seq<nat>): set<nat> {
    set e | e in Qualifying(t, b) && t.from[e] in ids
  }

  function EdgeRow(t: Topology, e: nat): nat
    requires HasGrid(t) && GridShapeOk(t.grid.value) && e < |t.from| && t.from[e] < |t.nodes|
  {
    RowOf(t.grid.value, t.nodes[t.from[e]].lat)
  }

  function EdgeColumn(t: Topology, e: nat): nat
    requires HasGrid(t) && GridShapeOk(t.grid.value) && e < |t.from| && t.from[e] < |t.nodes|
  {
    ColumnOf(t.grid.value, t.nodes[t.from[e]].lon)
  }

  /** The qualifying edges whose start nodes fall into the given rows and columns. */
  function QualifyingIn(t: Topology, b: BBox, row0: nat, row1: nat, col0: nat, col1: nat): set<nat>
    requires HasGrid(t) && GridShapeOk(t.grid.value)
  {
    set e | e in Qualifying(t, b) && row0 <= EdgeRow(t, e) < row1 && col0 <= EdgeColumn(t, e) < col1
  }

  lemma {:induction false} EdgesOfNodesExact(t: Topology, b: BBox, ids: seq<nat>)
    requires TableWalkable(t) && OutTableOk(t) && Distinct(ids) && NodesOk(t, ids)
    ensures Lists(EdgesOfNodes(t, b, ids), QualifyingAt(t, b, ids))
  {
    if ids != [] {
      var init, n := ids[..|ids| - 1], ids[|ids| - 1];
      EdgesOfNodesExact(t, b, init);
      assert ids == init + [n] && n !in init;
      assert OutRangeOk(t, n);
      if Inside(t.nodes[n], b) {
        ListsConcat(EdgesOfNodes(t, b, init), OutEdges(t, n), QualifyingAt(t, b, init), EdgesFrom(t, n));
        assert QualifyingAt(t, b, ids) == QualifyingAt(t, b, init) + EdgesFrom(t, n);
      } else {
        assert QualifyingAt(t, b, ids) == QualifyingAt(t, b, init);
        assert EdgesOfNodes(t, b, ids) == EdgesOfNodes(t, b, init);
      }
    }
  }

  lemma CellExact(t: Topology, b: BBox, row: nat, col: nat)
    requires Walkable(t) && Indexed(t) && row < t.grid.value.rows && col < t.grid.value.columns
    ensures Lists(EdgesOfCell(t, b, row, col), QualifyingIn(t, b, row, row + 1, col, col + 1))
  {
    var g := t.grid.value;
    var ids := CellNodes(g, row, col);
    CellNodesOk(t, row, col);
    EdgesOfNodesExact(t, b, ids);
    assert QualifyingAt(t, b, ids) == QualifyingIn(t, b, row, row + 1, col, col + 1) by {
      forall e | e in Qualifying(t, b) ensures t.from[e] in ids <==> EdgeRow(t, e) == row && EdgeColumn(t, e) == col {
        assert t.from[e] in ids <==> t.from[e] in NodesIn(g, t.nodes, row, col);
      }
    }
  }

  /** Every cell contributes exactly the qualifying edges of its row and column. */
  ghost predicate CellsExact(cell: CellReader, t: Topology, b: BBox)
    requires Walkable(t)
  {
    forall row: nat, col: nat {:trigger cell(row, col)} ::
      row < t.grid.value.rows && col < t.grid.value.columns ==>
        Lists(cell(row, col), QualifyingIn(t, b, row, row + 1, col, col + 1))
  }

  lemma {:induction false} RowExact(cell: CellReader, t: Topology, b: BBox, row: nat, col0: nat, col1: nat)
    requires Walkable(t) && CellsExact(cell, t, b) && row < t.grid.value.rows && col0 <= col1 <= t.grid.value.columns
    ensures Lists(RowOfCells(cell, row, col0, col1), QualifyingIn(t, b, row, row + 1, col0, col1))
    decreases col1
  {
    if col0 < col1 {
      var c := col1 - 1;
      RowExact(cell, t, b, row, col0, c);
      var left, here := QualifyingIn(t, b, row, row + 1, col0, c), QualifyingIn(t, b, row, row + 1, c, col1);
      ListsConcat(RowOfCells(cell, row, col0, c), cell(row, c), left, here);
      assert QualifyingIn(t, b, row, row + 1, col0, col1) == left + here;
    }
  }

  lemma {:induction false} RowsExact(cell: CellReader, t: Topology, b: BBox, row0: nat, row1: nat, col0: nat, col1: nat)
    requires Walkable(t) && CellsExact(cell, t, b)
    requires row0 <= row1 <= t.grid.value.rows && col0 <= col1 <= t.grid.value.columns
    ensures Lists(RowsOfCells(cell, row0, row1, col0, col1), QualifyingIn(t, b, row0, row1, col0, col1))
    decreases row1
  {
    if row0 < row1 {
      var r := row1 - 1;
      RowsExact(cell, t, b, row0, r, col0, col1);
      RowExact(cell, t, b, r, col0, col1);
      var below, here := QualifyingIn(t, b, row0, r, col0, col1), QualifyingIn(t, b, r, row1, col0, col1);
      ListsConcat(RowsOfCells(cell, row0, r, col0, col1), RowOfCells(cell, r, col0, col1), below, here);
      assert QualifyingIn(t, b, row0, row1, col0, col1) == below + here;
    }
  }

  /** A node inside the box falls into a cell between those of the box's corners. */
  lemma InsideIsScanned(g: Grid, n: Node, b: BBox)
    requires GridShapeOk(g) && Inside(n, b)
    ensures ColumnOf(g, b.west) <= ColumnOf(g, n.lon) <= ColumnOf(g, b.east)
    ensures RowOf(g, b.south) <= RowOf(g, n.lat) <= RowOf(g, b.north)
  {
    QuotientMonotone(b.west - g.minLon, n.lon - g.minLon, g.width);
    QuotientMonotone(n.lon - g.minLon, b.east - g.minLon, g.width);
    QuotientMonotone(b.south - g.minLat, n.lat - g.minLat, g.height);
    QuotientMonotone(n.lat - g.minLat, b.north - g.minLat, g.height);
  }

  /** The window of cells walked for a box holds every edge that starts inside it. */
  lemma WindowIsEnough(t: Topology, b: BBox)
    requires Indexed(t)
    ensures var g := t.grid.value;
      ColumnOf(g, b.west) <= ColumnOf(g, b.east) && RowOf(g, b.south) <= RowOf(g, b.north) ==>
        QualifyingIn(t, b, RowOf(g, b.south), RowOf(g, b.north) + 1, ColumnOf(g, b.west), ColumnOf(g, b.east) + 1)
        == Qualifying(t, b)
    ensures var g := t.grid.value;
      ColumnOf(g, b.west) > ColumnOf(g, b.east) || RowOf(g, b.south) > RowOf(g, b.north) ==> Qualifying(t, b) == {}
  {
    var g := t.grid.value;
    forall e | e in Qualifying(t, b)
      ensures RowOf(g, b.south) <= EdgeRow(t, e) <= RowOf(g, b.north)
      ensures ColumnOf(g, b.west) <= EdgeColumn(t, e) <= ColumnOf(g, b.east)
    {
      InsideIsScanned(g, t.nodes[t.from[e]], b);
    }
  }

  // ----- the lookup -----

  /** The limit as the loops observe it: an edge is taken before the limit is looked at. */
  function Limit(maxEdges: nat): nat { if maxEdges == 0 then 1 else maxEdges }

  function Take(edges: seq<nat>, limit: nat): seq<nat> {
    if |edges| <= limit then edges else edges[..limit]
  }

  lemma TakeTwice(a: seq<nat>, b: seq<nat>, limit: nat)
    ensures Take(Take(a, limit) + b, limit) == Take(a + b, limit)
    ensures |a| >= limit ==> Take(a + b, limit) == Take(a, limit)
  {}

  lemma {:induction false} ListsCardinality(s: seq<nat>, members: set<nat>)
    requires Lists(s, members)
    ensures |s| == |members|
    decreases |s|
  {
    if s == [] {
      assert members == {};
    } else {
      var last := s[|s| - 1];
      var init := s[..|s| - 1];
      assert s == init + [last];
      ListsCardinality(init, members - {last});
    }
  }

  /** What a lookup with a limit must return: distinct members, all of them or as many as the limit. */
  ghost predicate IsLimited(edges: seq<nat>, members: set<nat>, limit: nat) {
    && Distinct(edges)
    && (forall e :: e in edges ==> e in members)
    && |edges| == if |members| <= limit then |members| else limit
  }

  lemma TakeIsLimited(edges: seq<nat>, members: set<nat>, limit: nat)
    requires Lists(edges, members)
    ensures IsLimited(Take(edges, limit), members, limit)
  {
    ListsCardinality(edges, members);
  }

  /** Appends edges one by one until the limit is met. */
  method PushEdges(edges: seq<nat>, more: seq<nat>, maxEdges: nat) returns (pushed: seq<nat>, full: bool)
    requires |edges| < Limit(maxEdges)
    ensures pushed == Take(edges + more, Limit(maxEdges))
    ensures full <==> |edges + more| >= Limit(maxEdges)
  {
    pushed := edges;
    for i := 0 to |more|
      invariant pushed == edges + more[..i] && |pushed| < Limit(maxEdges)
    {
      pushed := pushed + [more[i]];
      if |pushed| >= maxEdges {
        assert edges + more == pushed + more[i + 1..];
        return pushed, true;
      }
    }
    full := false;
  }

  method ScanNode(t: Topology, b: BBox, n: nat, edges: seq<nat>, maxEdges: nat)
    returns (scanned: seq<nat>, full: bool)
    requires TableWalkable(t) && n < |t.nodes| && |edges| < Limit(maxEdges)
    ensures scanned == Take(edges + EdgesOfNode(t, b, n), Limit(maxEdges))
    ensures full <==> |edges + EdgesOfNode(t, b, n)| >= Limit(maxEdges)
  {
    if !Inside(t.nodes[n], b) {
      assert edges + [] == edges;
      return edges, false;
    }
    scanned, full := PushEdges(edges, OutEdges(t, n), maxEdges);
  }

  lemma {:induction false} NodesPrefix(t: Topology, b: BBox, ids: seq<nat>, i: nat)
    requires TableWalkable(t) && NodesOk(t, ids) && i <= |ids|
    ensures EdgesOfNodes(t, b, ids[..i]) <= EdgesOfNodes(t, b, ids)
    decreases |ids|
  {
    if i == |ids| {
      assert ids[..i] == ids;
    } else {
      var init := ids[..|ids| - 1];
      assert init[..i] == ids[..i];
      NodesPrefix(t, b, init, i);
    }
  }

  /** A full prefix decides the result. */
  lemma PrefixDecides(part: seq<nat>, all: seq<nat>, limit: nat)
    requires part <= all && |part| >= limit
    ensures Take(all, limit) == Take(part, limit)
  {
    assert all == part + all[|part|..];
    TakeTwice(part, all[|part|..], limit);
  }

  /** The edges of a cell's nodes that lie inside the box. */
  method ScanNodes(t: Topology, b: BBox, ids: seq<nat>, edges: seq<nat>, maxEdges: nat)
    returns (scanned: seq<nat>, full: bool)
    requires TableWalkable(t) && NodesOk(t, ids) && |edges| < Limit(maxEdges)
    ensures scanned == Take(edges + EdgesOfNodes(t, b, ids), Limit(maxEdges))
    ensures full <==> |edges + EdgesOfNodes(t, b, ids)| >= Limit(maxEdges)
  {
    scanned := edges;
    assert edges + [] == edges;
    for i := 0 to |ids|
      invariant scanned == edges + EdgesOfNodes(t, b, ids[..i]) && |scanned| < Limit(maxEdges)
    {
      ghost var before := scanned;
      scanned, full := ScanNode(t, b, ids[i], scanned, maxEdges);
      assert ids[..i + 1][..i] == ids[..i];
      ghost var upTo := edges + EdgesOfNodes(t, b, ids[..i + 1]);
      assert before + EdgesOfNode(t, b, ids[i]) == upTo;
      if full {
        NodesPrefix(t, b, ids, i + 1);
        PrefixDecides(upTo, edges + EdgesOfNodes(t, b, ids), Limit(maxEdges));
        return;
      }
    }
    assert ids[..|ids|] == ids;
    full := false;
  }

  lemma {:induction false} RowPrefix(cell: CellReader, row: nat, col0: nat, col: nat, col1: nat)
    requires col0 <= col <= col1
    ensures RowOfCells(cell, row, col0, col) <= RowOfCells(cell, row, col0, col1)
    decreases col1
  {
    if col < col1 { RowPrefix(cell, row, col0, col, col1 - 1); }
  }

  lemma RowExtends(cell: CellReader, row: nat, col0: nat, col: nat, col1: nat, edges: seq<nat>)
    requires col0 <= col < col1
    ensures (edges + RowOfCells(cell, row, col0, col)) + cell(row, col) == edges + RowOfCells(cell, row, col0, col + 1)
    ensures edges + RowOfCells(cell, row, col0, col + 1) <= edges + RowOfCells(cell, row, col0, col1)
  {
    RowPrefix(cell, row, col0, col + 1, col1);
  }

  lemma {:induction false} RowsPrefix(cell: CellReader, row0: nat, row: nat, row1: nat, col0: nat, col1: nat)
    requires row0 <= row <= row1 && col0 <= col1
    ensures RowsOfCells(cell, row0, row, col0, col1) <= RowsOfCells(cell, row0, row1, col0, col1)
    decreases row1
  {
    if row < row1 { RowsPrefix(cell, row0, row, row1 - 1, col0, col1); }
  }

  method ScanCell(t: Topology, b: BBox, row: nat, col: nat, edges: seq<nat>, maxEdges: nat, ghost cell: CellReader)
    returns (scanned: seq<nat>, full: bool)
    requires Walkable(t) && Reads(cell, t, b) && row < t.grid.value.rows && col < t.grid.value.columns
    requires |edges| < Limit(maxEdges)
    ensures scanned == Take(edges + cell(row, col), Limit(maxEdges))
    ensures full <==> |edges + cell(row, col)| >= Limit(maxEdges)
  {
    CellNodesOk(t, row, col);
    assert cell(row, col) == EdgesOfCell(t, b, row, col);
    scanned, full := ScanNodes(t, b, CellNodes(t.grid.value, row, col), edges, maxEdges);
  }

  method ScanRow(t: Topology, b: BBox, row: nat, col0: nat, col1: nat, edges: seq<nat>, maxEdges: nat,
                 ghost cell: CellReader)
    returns (scanned: seq<nat>, full: bool)
    requires Walkable(t) && Reads(cell, t, b) && row < t.grid.value.rows && col0 <= col1 <= t.grid.value.columns
    requires |edges| < Limit(maxEdges)
    ensures scanned == Take(edges + RowOfCells(cell, row, col0, col1), Limit(maxEdges))
    ensures full <==> |edges + RowOfCells(cell, row, col0, col1)| >= Limit(maxEdges)
  {
    scanned := edges;
    assert edges + [] == edges;
    for col := col0 to col1
      invariant scanned == edges + RowOfCells(cell, row, col0, col) && |scanned| < Limit(maxEdges)
    {
      RowExtends(cell, row, col0, col, col1, edges);
      scanned, full := ScanCell(t, b, row, col, scanned, maxEdges, cell);
      if full {
        PrefixDecides(edges + RowOfCells(cell, row, col0, col + 1), edges + RowOfCells(cell, row, col0, col1),
                      Limit(maxEdges));
        return;
      }
    }
    full := false;
  }

  method ScanRows(t: Topology, b: BBox, row0: nat, row1: nat, col0: nat, col1: nat, maxEdges: nat,
                  ghost cell: CellReader)
    returns (edges: seq<nat>)
    requires Walkable(t) && Reads(cell, t, b)
    requires row0 <= row1 <= t.grid.value.rows && col0 <= col1 <= t.grid.value.columns
    ensures edges == Take(RowsOfCells(cell, row0, row1, col0, col1), Limit(maxEdges))
  {
    edges := [];
    for row := row0 to row1
      invariant edges == RowsOfCells(cell, row0, row, col0, col1) && |edges| < Limit(maxEdges)
    {
      var full: bool;
      ghost var before := edges;
      edges, full := ScanRow(t, b, row, col0, col1, edges, maxEdges, cell);
      ghost var upTo := RowsOfCells(cell, row0, row + 1, col0, col1);
      assert before + RowOfCells(cell, row, col0, col1) == upTo;
      if full {
        RowsPrefix(cell, row0, row + 1, row1, col0, col1);
        PrefixDecides(upTo, RowsOfCells(cell, row0, row1, col0, col1), Limit(maxEdges));
        return;
      }
    }
  }

  ghost function CellReaderOf(t: Topology, b: BBox): (cell: CellReader)
    requires Walkable(t)
    ensures Reads(cell, t, b)
  {
    (row: nat, col: nat) =>
      if row < t.grid.value.rows && col < t.grid.value.columns then EdgesOfCell(t, b, row, col) else []
  }

  lemma ReaderIsExact(t: Topology, b: BBox, cell: CellReader)
    requires Walkable(t) && Indexed(t) && Reads(cell, t, b)
    ensures CellsExact(cell, t, b)
  {
    forall row: nat, col: nat | row < t.grid.value.rows && col < t.grid.value.columns
      ensures Lists(cell(row, col), QualifyingIn(t, b, row, row + 1, col, col + 1))
    {
      CellExact(t, b, row, col);
    }
  }

  /** The walk over any window of cells that holds all qualifying edges. */
  lemma RowsTaken(cell: CellReader, t: Topology, b: BBox, limit: nat, row0: nat, row1: nat, col0: nat, col1: nat)
    requires limit > 0 && Walkable(t) && CellsExact(cell, t, b)
    requires row0 <= row1 <= t.grid.value.rows && col0 <= col1 <= t.grid.value.columns
    requires QualifyingIn(t, b, row0, row1, col0, col1) == Qualifying(t, b)
    ensures IsLimited(Take(RowsOfCells(cell, row0, row1, col0, col1), limit), Qualifying(t, b), limit)
  {
    RowsExact(cell, t, b, row0, row1, col0, col1);
    TakeIsLimited(RowsOfCells(cell, row0, row1, col0, col1), Qualifying(t, b), limit);
  }

  lemma NothingTaken(members: set<nat>, limit: nat)
    requires members == {} && limit > 0
    ensures IsLimited([], members, limit)
  {}

  lemma CellsKnown(t: Topology, b: BBox) returns (cell: CellReader)
    requires Indexed(t)
    ensures Walkable(t) && Reads(cell, t, b) && CellsExact(cell, t, b)
  {
    IndexedIsWalkable(t);
    cell := CellReaderOf(t, b);
    ReaderIsExact(t, b, cell);
  }

  /** The rows and columns of cells to walk, the last ones excluded; None when the box is turned round. */
  method WindowOf(t: Topology, b: BBox) returns (window: Option<(nat, nat, nat, nat)>)
    requires Indexed(t)
    ensures window.None? ==> Qualifying(t, b) == {}
    ensures match window
      case None => true
      case Some((row0, row1, col0, col1)) =>
        && row0 <= row1 <= t.grid.value.rows && col0 <= col1 <= t.grid.value.columns
        && QualifyingIn(t, b, row0, row1, col0, col1) == Qualifying(t, b)
  {
    WindowIsEnough(t, b);
    var g := t.grid.value;
    var colStart, colEnd := ColumnOf(g, b.west), ColumnOf(g, b.east);
    var rowStart, rowEnd := RowOf(g, b.south), RowOf(g, b.north);
    window := if colStart > colEnd || rowStart > rowEnd then None
              else Some((rowStart, rowEnd + 1, colStart, colEnd + 1));
  }

  method ScanIndex(t: Topology, b: BBox, maxEdges: nat) returns (edges: seq<nat>)
    requires Indexed(t)
    ensures IsLimited(edges, Qualifying(t, b), Limit(maxEdges))
  {
    ghost var cell := CellsKnown(t, b);
    var window := WindowOf(t, b);
    if window.None? {
      NothingTaken(Qualifying(t, b), Limit(maxEdges));
      return [];
    }
    var (row0, row1, col0, col1) := window.value;
    RowsTaken(cell, t, b, Limit(maxEdges), row0, row1, col0, col1);
    edges := ScanRows(t, b, row0, row1, col0, col1, maxEdges, cell);
  }

  lemma {:induction false} SubsetCardinality(a: set<nat>, b: set<nat>)
    requires a <= b
    ensures |a| <= |b|
  {
    assert b == a + (b - a);
  }

  /** The qualifying edges among the first n. */
  function QualifyingBelow(t: Topology, b: BBox, n: nat): set<nat> { set i | i in Qualifying(t, b) && i < n }

  lemma OneMoreQualifying(t: Topology, b: BBox, e: nat, edges: seq<nat>)
    requires e < |t.from| && t.from[e] < |t.nodes| && Lists(edges, QualifyingBelow(t, b, e))
    ensures var more := if Inside(t.nodes[t.from[e]], b) then edges + [e] else edges;
      Lists(more, QualifyingBelow(t, b, e + 1))
  {
    assert QualifyingBelow(t, b, e + 1) == QualifyingBelow(t, b, e) + if e in Qualifying(t, b) then {e} else {};
    assert e !in edges;
  }

  lemma LimitReached(t: Topology, b: BBox, n: nat, edges: seq<nat>, limit: nat)
    requires Lists(edges, QualifyingBelow(t, b, n)) && (|edges| == limit || (n == |t.from| && |edges| < limit))
    ensures IsLimited(edges, Qualifying(t, b), limit)
  {
    ListsCardinality(edges, QualifyingBelow(t, b, n));
    SubsetCardinality(QualifyingBelow(t, b, n), Qualifying(t, b));
    assert n == |t.from| ==> QualifyingBelow(t, b, n) == Qualifying(t, b);
  }

  /** Every edge in turn. */
  method ScanEdges(t: Topology, b: BBox, maxEdges: nat) returns (edges: seq<nat>)
    requires forall e :: 0 <= e < |t.from| ==> t.from[e] < |t.nodes|
    ensures IsLimited(edges, Qualifying(t, b), Limit(maxEdges))
  {
    edges := [];
    for e := 0 to |t.from|
      invariant Lists(edges, QualifyingBelow(t, b, e)) && |edges| < Limit(maxEdges)
    {
      OneMoreQualifying(t, b, e, edges);
      if Inside(t.nodes[t.from[e]], b) {
        edges := edges + [e];
        if |edges| >= maxEdges {
          LimitReached(t, b, e + 1, edges, Limit(maxEdges));
          return;
        }
      }
    }
    LimitReached(t, b, |t.from|, edges, Limit(maxEdges));
  }

  /** The edges whose start node lies inside the box, each once, up to the limit; the index and the full scan agree. */
  method EdgesInBBox(t: Topology, b: BBox, maxEdges: nat) returns (edges: seq<nat>)
    requires WellFormed(t)
    ensures IsLimited(edges, Qualifying(t, b), Limit(maxEdges))
  {
    if HasOutTable(t) && HasGrid(t) {
      edges := ScanIndex(t, b, maxEdges);
    } else {
      edges := ScanEdges(t, b, maxEdges);
    }
  }

  /** The handler asks for one edge more than it will show, to learn whether there are more. */
  method NetworkEdgesInView(t: Topology, b: BBox, requested: nat) returns (edges: seq<nat>, truncated: bool)
    requires WellFormed(t)
    ensures var maxEdges := if requested < 1 then 1 else if requested > 200000 then 200000 else requested;
      && IsLimited(edges, Qualifying(t, b), maxEdges)
      && (truncated <==> |Qualifying(t, b)| > maxEdges)
  {
    var maxEdges := if requested < 1 then 1 else if requested > 200000 then 200000 else requested;
    edges := EdgesInBBox(t, b, maxEdges + 1);
    truncated := |edges| > maxEdges;
    if |edges| > maxEdges {
      edges := edges[..maxEdges];
    }
  }

  // ----- edges that run back -----

  /** Where each edge ends and which source way it is of. */
  datatype Ends = Ends(to: seq<nat>, way: seq<int>)

  predicate EndsOk(t: Topology, ends: Ends) {
    |ends.to| == |ends.way| == |t.from| && forall e :: 0 <= e < |t.from| ==> ends.to[e] < |t.nodes|
  }

  /** The other edge is of the same way and leads from the head of this one to its start. */
  predicate RunsBack(t: Topology, ends: Ends, edge: nat, other: nat)
    requires EndsOk(t, ends) && edge < |t.from| && other < |t.from|
  {
    t.from[other] == ends.to[edge] && ends.to[other] == t.from[edge] && ends.way[other] == ends.way[edge]
  }

  /** Whether some edge of the whole network runs back, found among those that start at the head; without a table of
      these the answer is always yes. */
  method HasReverseEdge(t: Topology, ends: Ends, edge: nat) returns (reverse: bool)
    requires WellFormed(t) && EndsOk(t, ends) && edge < |t.from|
    ensures reverse <==> !HasOutTable(t) || exists other :: 0 <= other < |t.from| && RunsBack(t, ends, edge, other)
  {
    if !HasOutTable(t) { return true; }
    assert OutRangeOk(t, ends.to[edge]);
    var out := OutEdges(t, ends.to[edge]);
    assert forall other: nat :: other in out <==> other in EdgesFrom(t, ends.to[edge]);
    for i := 0 to |out|
      invariant forall j :: 0 <= j < i ==> out[j] < |t.from| && !RunsBack(t, ends, edge, out[j])
    {
      assert out[i] in out;
      if ends.to[out[i]] == t.from[edge] && ends.way[out[i]] == ends.way[edge] {
        assert RunsBack(t, ends, edge, out[i]);
        return true;
      }
    }
    forall other | 0 <= other < |t.from| ensures !RunsBack(t, ends, edge, other) {
      if t.from[other] == ends.to[edge] { assert other in out; }
    }
    reverse := false;
  }
}
