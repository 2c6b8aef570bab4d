/** Weak connectivity of the pedestrian source geometry: vertices deduplicated by a quantised coordinate key and
    joined by a union-find with path halving and union by size. */
module Network {
  import opened Basics
  import opened Reals

  datatype Point = Point(lon: real, lat: real, z: real)

  datatype PointKey = PointKey(x: int, y: int, z: int)

  type Link = (nat, nat)

  function CoordinateKey(p: Point): PointKey {
    PointKey(Rounded(p.lon / 0.000000001), Rounded(p.lat / 0.000000001), Rounded(p.z / 0.01))
  }

  /** At most a billionth of a degree apart each way and a centimetre in height. */
  predicate OneQuantumApart(p: Point, q: Point) {
    && -0.000000001 <= p.lon - q.lon <= 0.000000001 && -0.000000001 <= p.lat - q.lat <= 0.000000001
    && -0.01 <= p.z - q.z <= 0.01
  }

  lemma SameKeyIsClose(p: Point, q: Point)
    requires CoordinateKey(p) == CoordinateKey(q)
    ensures OneQuantumApart(p, q)
  {
    RoundedIsNearest(p.lon / 0.000000001);
    RoundedIsNearest(q.lon / 0.000000001);
    RoundedIsNearest(p.lat / 0.000000001);
    RoundedIsNearest(q.lat / 0.000000001);
    RoundedIsNearest(p.z / 0.01);
    RoundedIsNearest(q.z / 0.01);
  }

  /** Points less than half a quantum from the same grid point share its key. */
  lemma NearGridHasItsKey(p: Point, x: int, y: int, z: int)
    requires -0.0000000005 < p.lon - x as real * 0.000000001 < 0.0000000005
    requires -0.0000000005 < p.lat - y as real * 0.000000001 < 0.0000000005
    requires -0.005 < p.z - z as real * 0.01 < 0.005
    ensures CoordinateKey(p) == PointKey(x, y, z)
  {
    RoundedIsNearest(p.lon / 0.000000001);
    RoundedIsNearest(p.lat / 0.000000001);
    RoundedIsNearest(p.z / 0.01);
  }

  // ----- the equivalence generated by a list of united pairs -----

  predicate Adjacent(links: seq<Link>, a: nat, b: nat) {
    (a, b) in links || (b, a) in links
  }

  ghost predicate Walk(links: seq<Link>, walk: seq<nat>, a: nat, b: nat) {
    && walk != [] && walk[0] == a && walk[|walk| - 1] == b
    && forall i :: 0 <= i < |walk| - 1 ==> Adjacent(links, walk[i], walk[i + 1])
  }

  /** Some walk along united pairs, in either direction, leads from `a` to `b`. */
  ghost predicate Connected(links: seq<Link>, a: nat, b: nat) {
    exists walk :: Walk(links, walk, a, b)
  }

  lemma ConnectedSelf(links: seq<Link>, a: nat)
    ensures Connected(links, a, a)
  {
    assert Walk(links, [a], a, a);
  }

  lemma ConnectedLink(links: seq<Link>, a: nat, b: nat)
    requires Adjacent(links, a, b)
    ensures Connected(links, a, b)
  {
    assert Walk(links, [a, b], a, b);
  }

  lemma ConnectedSymmetric(links: seq<Link>, a: nat, b: nat)
    requires Connected(links, a, b)
    ensures Connected(links, b, a)
  {
    var walk :| Walk(links, walk, a, b);
    var back := seq(|walk|, i requires 0 <= i < |walk| => walk[|walk| - 1 - i]);
    forall i | 0 <= i < |back| - 1 ensures Adjacent(links, back[i], back[i + 1]) {
      assert Adjacent(links, walk[|walk| - 2 - i], walk[|walk| - 1 - i]);
    }
    assert Walk(links, back, b, a);
  }

  lemma ConnectedTransitive(links: seq<Link>, a: nat, b: nat, c: nat)
    requires Connected(links, a, b) && Connected(links, b, c)
    ensures Connected(links, a, c)
  {
    var w1 :| Walk(links, w1, a, b);
    var w2 :| Walk(links, w2, b, c);
    var w := w1 + w2[1..];
    forall i | 0 <= i < |w| - 1 ensures Adjacent(links, w[i], w[i + 1]) {
      if i >= |w1| - 1 {
        assert w[i] == w2[i - |w1| + 1] && w[i + 1] == w2[i - |w1| + 2];
      }
    }
    assert Walk(links, w, a, c);
  }

  lemma ConnectedMore(links: seq<Link>, more: seq<Link>, a: nat, b: nat)
    requires Connected(links, a, b)
    ensures Connected(links + more, a, b)
  {
    var walk :| Walk(links, walk, a, b);
    assert Walk(links + more, walk, a, b);
  }

  // ----- forests -----

  /** Each element has a representative that its parent shares and that is its own parent, and `rank` rises along
      every parent pointer: the pointers form a forest whose roots are the representatives. */
  ghost predicate Forest(parent: seq<nat>, rep: seq<nat>, rank: seq<nat>) {
    && |rep| == |parent| && |rank| == |parent|
    && (forall i {:trigger rep[i]} :: 0 <= i < |parent| ==>
          rep[i] < |parent| && rep[rep[i]] == rep[i] && rank[i] <= rank[rep[i]])
    && (forall i {:trigger parent[i]} :: 0 <= i < |parent| ==>
          && parent[i] < |parent|
          && rep[parent[i]] == rep[i]
          && (parent[i] == i <==> rep[i] == i)
          && (parent[i] != i ==> rank[i] < rank[parent[i]]))
  }

  /** The element reached by following `k` parent pointers. */
  function Ancestor(parent: seq<nat>, i: nat, k: nat): nat
    requires i < |parent| && forall j :: 0 <= j < |parent| ==> parent[j] < |parent|
    ensures Ancestor(parent, i, k) < |parent|
    decreases k
  {
    if k == 0 then i else Ancestor(parent, parent[i], k - 1)
  }

  lemma {:induction false} AncestorRank(parent: seq<nat>, rep: seq<nat>, rank: seq<nat>, i: nat, k: nat)
    requires Forest(parent, rep, rank) && i < |parent|
    ensures var a := Ancestor(parent, i, k);
      rep[a] == rep[i] && (parent[i] != i && k > 0 ==> rank[i] < rank[a]) && rank[i] <= rank[a]
    decreases k
  {
    if k > 0 {
      AncestorRank(parent, rep, rank, parent[i], k - 1);
    }
  }

  /** No parent pointers lead back to where they started, except at a root. */
  lemma Acyclic(parent: seq<nat>, rep: seq<nat>, rank: seq<nat>, i: nat, k: nat)
    requires Forest(parent, rep, rank) && i < |parent| && k > 0
    requires Ancestor(parent, i, k) == i
    ensures parent[i] == i
  {
    AncestorRank(parent, rep, rank, i, k);
  }

  /** Following parent pointers reaches the representative in as many steps as the ranks allow. */
  lemma {:induction false} AncestorReachesRep(parent: seq<nat>, rep: seq<nat>, rank: seq<nat>, i: nat)
    requires Forest(parent, rep, rank) && i < |parent|
    ensures exists k: nat :: k <= rank[rep[i]] - rank[i] && Ancestor(parent, i, k) == rep[i]
    decreases rank[rep[i]] - rank[i]
  {
    if parent[i] == i {
      assert Ancestor(parent, i, 0) == rep[i];
    } else {
      AncestorReachesRep(parent, rep, rank, parent[i]);
      var k: nat :| k <= rank[rep[parent[i]]] - rank[parent[i]] && Ancestor(parent, parent[i], k) == rep[parent[i]];
      assert Ancestor(parent, i, k + 1) == rep[i];
    }
  }

  /** Pointing a node at its grandparent leaves the same forest of representatives, and the grandparent's rank is
      higher by two unless it is already the root. */
  lemma HalvingStep(parent: seq<nat>, rep: seq<nat>, rank: seq<nat>, i: nat)
    requires Forest(parent, rep, rank) && i < |parent| && parent[i] != i
    ensures var g := parent[parent[i]]; var parent' := parent[i := g];
      && Forest(parent', rep, rank)
      && rep[g] == rep[i]
      && rank[i] + (if parent'[g] == g then 1 else 2) <= rank[g] <= rank[rep[i]]
  {
    var p := parent[i];
    var g := parent[p];
    assert rep[p] == rep[i] && rank[i] < rank[p];
    assert rep[g] == rep[i] && (g != p ==> rank[p] < rank[g]);
    if rank[i] + 1 == rank[g] {
      assert g == p;
    }
  }

  function Pow2(n: nat): nat { if n == 0 then 1 else 2 * Pow2(n - 1) }

  lemma {:induction false} Pow2Monotone(m: nat, n: nat)
    requires m <= n
    ensures Pow2(m) <= Pow2(n)
  {
    if m < n { Pow2Monotone(m, n - 1); }
  }

  /** The elements with representative `r`. */
  function ClassOf(rep: seq<nat>, r: nat): set<nat> {
    set i | 0 <= i < |rep| && rep[i] == r
  }

  // ----- representatives against connectivity -----

  /** Equal representatives are exactly the pairs connected by the links. */
  ghost predicate Explains(rep: seq<nat>, links: seq<Link>) {
    && (forall l :: l in links ==> l.0 < |rep| && l.1 < |rep|)
    && forall a, b {:trigger Connected(links, a, b)} :: 0 <= a < |rep| && 0 <= b < |rep| ==>
         (rep[a] == rep[b] <==> Connected(links, a, b))
  }

  /** A labelling that is equal across every link is equal along every walk. */
  lemma {:induction false} WalkKeepsLabel(mark: seq<nat>, links: seq<Link>, walk: seq<nat>, a: nat, b: nat)
    requires forall l :: l in links ==> l.0 < |mark| && l.1 < |mark| && mark[l.0] == mark[l.1]
    requires Walk(links, walk, a, b)
    requires a < |mark|
    ensures b < |mark| && mark[a] == mark[b]
    decreases |walk|
  {
    if |walk| > 1 {
      assert Adjacent(links, walk[0], walk[1]);
      WalkKeepsLabel(mark, links, walk[1..], walk[1], b);
    }
  }

  function Merged(rep: seq<nat>, winner: nat, loser: nat): (r: seq<nat>)
    ensures |r| == |rep|
  {
    seq(|rep|, i requires 0 <= i < |rep| => if rep[i] == loser then winner else rep[i])
  }

  lemma MergedConnects(rep: seq<nat>, links: seq<Link>, a: nat, b: nat, x: nat, y: nat)
    requires Explains(rep, links) && a < |rep| && b < |rep| && x < |rep| && y < |rep|
    requires rep[x] == rep[y] || {rep[x], rep[y]} == {rep[a], rep[b]}
    ensures Connected(links + [(a, b)], x, y)
  {
    var links' := links + [(a, b)];
    ConnectedLink(links', a, b);
    if rep[x] == rep[y] {
      ConnectedMore(links, [(a, b)], x, y);
    } else {
      var (u, v) := if rep[x] == rep[a] then (a, b) else (b, a);
      ConnectedSymmetric(links', a, b);
      ConnectedMore(links, [(a, b)], x, u);
      ConnectedMore(links, [(a, b)], v, y);
      ConnectedTransitive(links', x, u, v);
      ConnectedTransitive(links', x, v, y);
    }
  }

  /** Merging the classes of two elements explains one more link between them. */
  lemma MergedExplains(rep: seq<nat>, links: seq<Link>, a: nat, b: nat, winner: nat, loser: nat)
    requires Explains(rep, links) && a < |rep| && b < |rep|
    requires {winner, loser} == {rep[a], rep[b]}
    ensures Explains(Merged(rep, winner, loser), links + [(a, b)])
  {
    var rep', links' := Merged(rep, winner, loser), links + [(a, b)];
    forall l | l in links' ensures l.0 < |rep'| && l.1 < |rep'| && rep'[l.0] == rep'[l.1] {
      if l in links { ConnectedLink(links, l.0, l.1); }
    }
    ConnectedLink(links', a, b);
    forall x, y | 0 <= x < |rep| && 0 <= y < |rep|
      ensures rep'[x] == rep'[y] <==> Connected(links', x, y)
    {
      if Connected(links', x, y) {
        var walk :| Walk(links', walk, x, y);
        WalkKeepsLabel(rep', links', walk, x, y);
      }
      if rep'[x] == rep'[y] {
        MergedConnects(rep, links, a, b, x, y);
      }
    }
  }

  lemma {:induction false} WalkStaysWithin(n: nat, links: seq<Link>, walk: seq<nat>, a: nat, b: nat)
    requires forall l :: l in links ==> l.0 < n && l.1 < n
    requires Walk(links, walk, a, b) && a < n
    ensures b < n
    decreases |walk|
  {
    if |walk| > 1 {
      assert Adjacent(links, walk[0], walk[1]);
      WalkStaysWithin(n, links, walk[1..], walk[1], b);
    }
  }

  /** A new element is connected to nothing but itself. */
  lemma ExtendedExplains(rep: seq<nat>, links: seq<Link>)
    requires Explains(rep, links)
    requires forall i :: 0 <= i < |rep| ==> rep[i] < |rep|
    ensures Explains(rep + [|rep|], links)
  {
    var n := |rep|;
    forall x | 0 <= x < n ensures !Connected(links, x, n) && !Connected(links, n, x) {
      if Connected(links, n, x) { ConnectedSymmetric(links, n, x); }
      if Connected(links, x, n) {
        var walk :| Walk(links, walk, x, n);
        WalkStaysWithin(n, links, walk, x, n);
      }
    }
    ConnectedSelf(links, n);
  }

  /** The roots: one element of each class. */
  function Roots(rep: seq<nat>): set<nat> {
    set i | 0 <= i < |rep| && rep[i] == i
  }

  function ComponentCount(rep: seq<nat>): nat { |Roots(rep)| }

  /** The sizes kept at the roots count their classes and bound the ranks. */
  ghost predicate SizesOk(rep: seq<nat>, rank: seq<nat>, size: seq<nat>) {
    && |rank| == |rep| && |size| == |rep|
    && forall r {:trigger size[r]} :: 0 <= r < |rep| && rep[r] == r ==>
         size[r] == |ClassOf(rep, r)| && Pow2(rank[r]) <= size[r]
  }

  lemma ExtendedSizes(rep: seq<nat>, rank: seq<nat>, size: seq<nat>)
    requires SizesOk(rep, rank, size)
    requires forall i :: 0 <= i < |rep| ==> rep[i] < |rep|
    ensures SizesOk(rep + [|rep|], rank + [0], size + [1])
  {
    var n := |rep|;
    assert ClassOf(rep + [n], n) == {n};
    forall r | 0 <= r < n ensures ClassOf(rep + [n], r) == ClassOf(rep, r) {}
  }

  lemma UnionSizes(rep: seq<nat>, rank: seq<nat>, size: seq<nat>, winner: nat, loser: nat)
    requires SizesOk(rep, rank, size)
    requires winner < |rep| && loser < |rep| && rep[winner] == winner && rep[loser] == loser && winner != loser
    requires size[winner] >= size[loser]
    ensures SizesOk(Merged(rep, winner, loser), rank[winner := NatMax(rank[winner], rank[loser] + 1)],
                    size[winner := size[winner] + size[loser]])
    ensures Roots(Merged(rep, winner, loser)) == Roots(rep) - {loser}
  {
    var rep' := Merged(rep, winner, loser);
    var both := ClassOf(rep, winner) + ClassOf(rep, loser);
    assert ClassOf(rep, winner) !! ClassOf(rep, loser);
    assert ClassOf(rep', winner) == both;
    forall r | 0 <= r < |rep| && r != winner && r != loser ensures ClassOf(rep', r) == ClassOf(rep, r) {}
  }

  ghost predicate Consistent(parent: seq<nat>, rep: seq<nat>, rank: seq<nat>, size: seq<nat>, links: seq<Link>) {
    Forest(parent, rep, rank) && SizesOk(rep, rank, size) && Explains(rep, links)
  }

  /** Hanging the smaller of two trees under the root of the other. */
  lemma UnionStep(parent: seq<nat>, rep: seq<nat>, rank: seq<nat>, size: seq<nat>, links: seq<Link>,
                  a: nat, b: nat, winner: nat, loser: nat)
    requires Consistent(parent, rep, rank, size, links)
    requires a < |rep| && b < |rep| && {winner, loser} == {rep[a], rep[b]} && winner != loser
    requires size[winner] >= size[loser]
    ensures Consistent(parent[loser := winner], Merged(rep, winner, loser),
                       rank[winner := NatMax(rank[winner], rank[loser] + 1)],
                       size[winner := size[winner] + size[loser]], links + [(a, b)])
    ensures ComponentCount(Merged(rep, winner, loser)) == ComponentCount(rep) - 1
  {
    assert rep[rep[a]] == rep[a] && rep[rep[b]] == rep[b];
    MergedExplains(rep, links, a, b, winner, loser);
    UnionSizes(rep, rank, size, winner, loser);
    assert loser in Roots(rep);
  }

  /** The fields after one more link between two classes. */
  lemma UnionOutcome(parent: seq<nat>, rep: seq<nat>, rank: seq<nat>, size: seq<nat>, links: seq<Link>,
                     a: nat, b: nat, winner: nat, loser: nat)
    returns (parent': seq<nat>, size': seq<nat>, rep': seq<nat>, rank': seq<nat>, links': seq<Link>)
    requires Consistent(parent, rep, rank, size, links)
    requires a < |rep| && b < |rep| && {winner, loser} == {rep[a], rep[b]} && winner != loser
    requires size[winner] >= size[loser]
    ensures parent' == parent[loser := winner] && size' == size[winner := size[winner] + size[loser]]
    ensures |parent'| == |parent| && links' == links + [(a, b)]
    ensures Consistent(parent', rep', rank', size', links') && ComponentCount(rep') == ComponentCount(rep) - 1
  {
    UnionStep(parent, rep, rank, size, links, a, b, winner, loser);
    parent', size' := parent[loser := winner], size[winner := size[winner] + size[loser]];
    rep', rank' := Merged(rep, winner, loser), rank[winner := NatMax(rank[winner], rank[loser] + 1)];
    links' := links + [(a, b)];
  }

  lemma RedundantUnion(rep: seq<nat>, links: seq<Link>, a: nat, b: nat)
    requires Explains(rep, links) && a < |rep| && b < |rep| && rep[a] == rep[b]
    ensures Explains(rep, links + [(a, b)])
  {
    MergedExplains(rep, links, a, b, rep[a], rep[a]);
    assert Merged(rep, rep[a], rep[a]) == rep;
  }

  /** Every vertex is registered under its own key and nothing else is. */
  ghost predicate IdsOk(ids: map<PointKey, nat>, points: seq<Point>) {
    && (forall k :: k in ids ==> ids[k] < |points| && CoordinateKey(points[ids[k]]) == k)
    && (forall i :: 0 <= i < |points| ==> CoordinateKey(points[i]) in ids && ids[CoordinateKey(points[i])] == i)
  }

  /** No walk leads from `n` to any of the outdoor vertices. */
  ghost predicate CutOff(links: seq<Link>, outdoor: set<nat>, n: nat) {
    forall o :: o in outdoor ==> !Connected(links, n, o)
  }

  ghost function CutOffNodes(links: seq<Link>, nodes: set<nat>, outdoor: set<nat>): set<nat> {
    set n | n in nodes && CutOff(links, outdoor, n)
  }

  ghost predicate Within(nodes: set<nat>, n: nat) {
    forall i :: i in nodes ==> i < n
  }

  function AllNodes(n: nat): (nodes: set<nat>)
    ensures forall i: nat :: i in nodes <==> i < n
  {
    if n == 0 then {} else AllNodes(n - 1) + {n - 1}
  }

  function Representatives(rep: seq<nat>, nodes: set<nat>): set<nat>
    requires Within(nodes, |rep|)
  {
    set n | n in nodes :: rep[n]
  }

  lemma CutOffByRoots(rep: seq<nat>, links: seq<Link>, outdoor: set<nat>, n: nat)
    requires Explains(rep, links) && n < |rep| && Within(outdoor, |rep|)
    ensures CutOff(links, outdoor, n) <==> rep[n] !in Representatives(rep, outdoor)
  {}

  /** The chosen nodes stand for the components that the nodes lie in: pairwise unconnected, and every node connected to
      one of them. */
  ghost predicate StandsFor(links: seq<Link>, nodes: set<nat>, chosen: set<nat>) {
    && chosen <= nodes
    && (forall c, d :: c in chosen && d in chosen && Connected(links, c, d) ==> c == d)
    && forall n :: n in nodes ==> exists c :: c in chosen && Connected(links, n, c)
  }

  /** The nodes lie in `count` components. */
  ghost predicate Counts(links: seq<Link>, nodes: set<nat>, count: nat) {
    exists chosen :: StandsFor(links, nodes, chosen) && |chosen| == count
  }

  ghost predicate AllApart(rep: seq<nat>, chosen: set<nat>)
    requires Within(chosen, |rep|)
  {
    forall c, d :: c in chosen && d in chosen && rep[c] == rep[d] ==> c == d
  }

  lemma ChooseOneMore(rep: seq<nat>, chosen: set<nat>, n: nat)
    requires Within(chosen, |rep|) && n < |rep| && AllApart(rep, chosen) && rep[n] !in Representatives(rep, chosen)
    ensures Within(chosen + {n}, |rep|) && AllApart(rep, chosen + {n}) && |chosen + {n}| == |chosen| + 1
    ensures Representatives(rep, chosen + {n}) == Representatives(rep, chosen) + {rep[n]}
  {
    assert forall c :: c in chosen ==> rep[c] in Representatives(rep, chosen);
  }

  lemma {:induction false} ChooseNodes(rep: seq<nat>, nodes: set<nat>) returns (chosen: set<nat>)
    requires Within(nodes, |rep|)
    ensures chosen <= nodes && |chosen| == |Representatives(rep, nodes)|
    ensures AllApart(rep, chosen)
    ensures Representatives(rep, chosen) == Representatives(rep, nodes)
    decreases nodes
  {
    if nodes == {} {
      chosen := {};
    } else {
      var n :| n in nodes;
      var fewer := nodes - {n};
      chosen := ChooseNodes(rep, fewer);
      assert Representatives(rep, nodes) == Representatives(rep, fewer) + {rep[n]};
      if rep[n] in Representatives(rep, fewer) {
        assert Representatives(rep, nodes) == Representatives(rep, fewer);
      } else {
        ChooseOneMore(rep, chosen, n);
        chosen := chosen + {n};
      }
    }
  }

  /** Counting representatives counts components. */
  lemma RootsAreComponents(rep: seq<nat>, links: seq<Link>, nodes: set<nat>)
    requires Explains(rep, links) && Within(nodes, |rep|)
    ensures Counts(links, nodes, |Representatives(rep, nodes)|)
  {
    var chosen := ChooseNodes(rep, nodes);
    forall n | n in nodes ensures exists c :: c in chosen && Connected(links, n, c) {
      assert rep[n] in Representatives(rep, chosen);
      var c :| c in chosen && rep[c] == rep[n];
      assert Connected(links, n, c);
    }
    assert StandsFor(links, nodes, chosen);
  }

  lemma RootsOfCutOff(rep: seq<nat>, links: seq<Link>, nodes: set<nat>, outdoor: set<nat>)
    requires Explains(rep, links) && Within(nodes, |rep|) && Within(outdoor, |rep|)
    ensures Counts(links, CutOffNodes(links, nodes, outdoor),
                   |Representatives(rep, nodes) - Representatives(rep, outdoor)|)
  {
    var cut := CutOffNodes(links, nodes, outdoor);
    forall n | n in nodes ensures n in cut <==> rep[n] !in Representatives(rep, outdoor) {
      CutOffByRoots(rep, links, outdoor, n);
    }
    assert Representatives(rep, cut) == Representatives(rep, nodes) - Representatives(rep, outdoor);
    RootsAreComponents(rep, links, cut);
  }

  lemma RootsAreRepresentatives(parent: seq<nat>, rep: seq<nat>, rank: seq<nat>)
    requires Forest(parent, rep, rank)
    ensures Roots(rep) == set i | 0 <= i < |rep| :: rep[i]
  {
    forall r | r in Roots(rep) ensures r in set i | 0 <= i < |rep| :: rep[i] { assert rep[r] == r; }
  }

  /** The links along the segments of a line. */
  function LineLinks(nodes: seq<nat>): seq<Link> {
    if |nodes| < 2 then [] else LineLinks(nodes[..|nodes| - 1]) + [(nodes[|nodes| - 2], nodes[|nodes| - 1])]
  }

  lemma LineLinksStep(nodes: seq<nat>, i: nat)
    requires 0 < i < |nodes|
    ensures LineLinks(nodes[..i + 1]) == LineLinks(nodes[..i]) + [(nodes[i - 1], nodes[i])]
  {
    assert nodes[..i + 1][..i] == nodes[..i];
  }

  /** What the audit reports of a station. */
  datatype StationFigures = StationFigures(
    nodes: nat, components: nat, sharedOutdoorVertices: nat, platformComponents: nat,
    platformComponentsWithoutOutdoor: nat, nodesWithoutOutdoor: nat)

  /** `nodes` are the vertices of the points, one for one. */
  ghost predicate VerticesOf(points: seq<Point>, nodes: seq<nat>, line: seq<Point>) {
    && |nodes| == |line|
    && forall i :: 0 <= i < |nodes| ==>
         && nodes[i] < |points| && CoordinateKey(points[nodes[i]]) == CoordinateKey(line[i])
         && OneQuantumApart(points[nodes[i]], line[i])
  }

  ghost predicate IsReport(figures: StationFigures, links: seq<Link>, nodes: set<nat>, platforms: set<nat>,
                           indoor: set<nat>, outdoor: set<nat>)
  {
    && figures.nodes == |nodes| && figures.sharedOutdoorVertices == |nodes * (indoor * outdoor)|
    && Counts(links, nodes, figures.components)
    && Counts(links, platforms, figures.platformComponents)
    && Counts(links, CutOffNodes(links, platforms, outdoor), figures.platformComponentsWithoutOutdoor)
    && figures.nodesWithoutOutdoor == |CutOffNodes(links, nodes, outdoor)|
  }

  lemma StationCounts(rep: seq<nat>, links: seq<Link>, nodes: set<nat>, platforms: set<nat>, outdoor: set<nat>)
    requires Explains(rep, links)
    requires Within(nodes, |rep|) && Within(platforms, |rep|) && Within(outdoor, |rep|)
    ensures Counts(links, nodes, |Representatives(rep, nodes)|)
    ensures Counts(links, platforms, |Representatives(rep, platforms)|)
    ensures Counts(links, CutOffNodes(links, platforms, outdoor),
                   |Representatives(rep, platforms) - Representatives(rep, outdoor)|)
  {
    RootsAreComponents(rep, links, nodes);
    RootsAreComponents(rep, links, platforms);
    RootsOfCutOff(rep, links, platforms, outdoor);
  }

  /** The vertices of a source network and their weak components. */
  class UnionFind {
    var ids: map<PointKey, nat>
    var parent: seq<nat>
    var size: seq<nat>
    var points: seq<Point>
    /** The representatives, ranks and united pairs exist only for the proof. */
    ghost var rep: seq<nat>
    ghost var rank: seq<nat>
    ghost var links: seq<Link>

    ghost predicate Valid()
      reads this
    {
      && Consistent(parent, rep, rank, size, links)
      && |points| == |parent|
      && IdsOk(ids, points)
    }

    constructor ()
      ensures Valid() && parent == [] && links == []
    {
      ids, parent, size, points := map[], [], [], [];
      rep, rank, links := [], [], [];
    }

    /** The vertex of a point: points with one key share a vertex, others never do. */
    method Node(point: Point) returns (node: nat)
      requires Valid()
      modifies this
      ensures Valid() && links == old(links)
      ensures node < |points| && CoordinateKey(points[node]) == CoordinateKey(point)
      ensures OneQuantumApart(points[node], point)
      ensures if CoordinateKey(point) in old(ids)
              then points == old(points) && rep == old(rep)
              else points == old(points) + [point] && rep == old(rep) + [node]
    {
      var key := CoordinateKey(point);
      if key !in ids {
        ExtendedExplains(rep, links);
        ExtendedSizes(rep, rank, size);
        ids := ids[key := |parent|];
        rep, rank := rep + [|parent|], rank + [0];
        parent := parent + [|parent|];
        size := size + [1];
        points := points + [point];
      }
      node := ids[key];
      SameKeyIsClose(points[node], point);
    }

    /** The representative, found in few steps: a loop of k > 0 rounds means a class of at least 2^(2k - 1). Only
        parent pointers change, and no representative does. */
    method Root(node: nat) returns (root: nat, ghost rounds: nat)
      requires Valid() && node < |parent|
      modifies this`parent
      ensures Valid() && |parent| == |old(parent)|
      ensures root == rep[node] && parent[root] == root
      ensures rounds > 0 ==> Pow2(2 * rounds - 1) <= size[root]
    {
      root, rounds := node, 0;
      while root != parent[root]
        invariant Forest(parent, rep, rank) && |parent| == |old(parent)|
        invariant root < |parent| && rep[root] == rep[node] && rank[root] <= rank[rep[node]]
        invariant 2 * rounds <= rank[root] - rank[node] + if parent[root] == root then 1 else 0
        decreases rank[rep[node]] - rank[root]
      {
        HalvingStep(parent, rep, rank, root);
        parent := parent[root := parent[parent[root]]];
        root := parent[root];
        rounds := rounds + 1;
      }
      if rounds > 0 {
        Pow2Monotone(2 * rounds - 1, rank[root]);
      }
    }

    /** The smaller root becomes a child of the larger one. */
    method Hang(winner: nat, loser: nat, ghost a: nat, ghost b: nat)
      requires Consistent(parent, rep, rank, size, links) && a < |rep| && b < |rep|
      requires {winner, loser} == {rep[a], rep[b]} && winner != loser
      requires size[winner] >= size[loser]
      modifies this`parent, this`size, this`rep, this`rank, this`links
      ensures Consistent(parent, rep, rank, size, links)
      ensures |parent| == |old(parent)|
      ensures links == old(links) + [(a, b)]
      ensures ComponentCount(rep) == ComponentCount(old(rep)) - 1
    {
      ghost var parent', size', rep', rank', links' :=
        UnionOutcome(parent, rep, rank, size, links, a, b, winner, loser);
      parent, size := parent[loser := winner], size[winner := size[winner] + size[loser]];
      rep, rank, links := rep', rank', links';
    }

    /** Joins the classes of two vertices: connectivity becomes that of one more link, and the number of classes
        drops by one exactly when they were different. */
    method Union(a: nat, b: nat)
      requires Valid() && a < |parent| && b < |parent|
      modifies this`parent, this`size, this`rep, this`rank, this`links
      ensures Valid()
      ensures |parent| == |old(parent)|
      ensures links == old(links) + [(a, b)]
      ensures ComponentCount(rep) == ComponentCount(old(rep)) - if old(rep[a] == rep[b]) then 0 else 1
    {
      var x, _ := Root(a);
      var y, _ := Root(b);
      if x == y {
        RedundantUnion(rep, links, a, b);
        links := links + [(a, b)];
        return;
      }
      if size[x] < size[y] {
        x, y := y, x;
      }
      Hang(x, y, a, b);
    }

    /** The representatives of a set of vertices. */
    method RootsOf(nodes: set<nat>) returns (roots: set<nat>)
      requires Valid() && Within(nodes, |parent|)
      modifies this`parent
      ensures Valid() && |parent| == |old(parent)|
      ensures roots == Representatives(rep, nodes)
    {
      roots := {};
      var todo := nodes;
      while todo != {}
        invariant Valid() && |parent| == |old(parent)|
        invariant todo <= nodes
        invariant roots == Representatives(rep, nodes - todo)
      {
        var n :| n in todo;
        var r, _ := Root(n);
        roots := roots + {r};
        todo := todo - {n};
      }
      assert nodes - todo == nodes;
    }

    /** The reported number of components of the whole network. */
    method CountComponents() returns (count: nat)
      requires Valid()
      modifies this`parent
      ensures Valid() && |parent| == |old(parent)|
      ensures count == ComponentCount(rep) && Counts(links, AllNodes(|parent|), count)
    {
      var roots: set<nat> := {};
      for n := 0 to |parent|
        invariant Valid() && |parent| == |old(parent)|
        invariant roots == set i | 0 <= i < n :: rep[i]
      {
        var r, _ := Root(n);
        roots := roots + {r};
      }
      RootsAreRepresentatives(parent, rep, rank);
      assert roots == Representatives(rep, AllNodes(|rep|));
      RootsAreComponents(rep, links, AllNodes(|rep|));
      count := |roots|;
    }

    /** How many of the vertices no walk joins to an outdoor vertex. */
    method CountCutOff(nodes: set<nat>, outdoor: set<nat>, outdoorRoots: set<nat>) returns (count: nat)
      requires Valid() && Within(nodes, |parent|) && Within(outdoor, |parent|)
      requires outdoorRoots == Representatives(rep, outdoor)
      modifies this`parent
      ensures Valid() && |parent| == |old(parent)|
      ensures count == |CutOffNodes(links, nodes, outdoor)|
    {
      count := 0;
      ghost var counted: set<nat> := {};
      var todo := nodes;
      while todo != {}
        invariant Valid() && |parent| == |old(parent)|
        invariant todo <= nodes
        invariant counted == CutOffNodes(links, nodes - todo, outdoor)
        invariant count == |counted|
      {
        var n :| n in todo;
        var r, _ := Root(n);
        CutOffByRoots(rep, links, outdoor, n);
        if r !in outdoorRoots {
          count := count + 1;
          counted := counted + {n};
        }
        todo := todo - {n};
      }
      assert counted == CutOffNodes(links, nodes, outdoor);
    }

    /** The figures of one station: its vertices, the outdoor ones among them, and its components and those of its
        platforms, with and without a walk to an outdoor vertex. */
    method StationReport(nodes: set<nat>, platforms: set<nat>, indoor: set<nat>, outdoor: set<nat>)
      returns (figures: StationFigures)
      requires Valid() && Within(nodes, |parent|) && Within(platforms, |parent|) && Within(outdoor, |parent|)
      modifies this`parent
      ensures Valid() && |parent| == |old(parent)|
      ensures IsReport(figures, links, nodes, platforms, indoor, outdoor)
    {
      var outdoorRoots := RootsOf(outdoor);
      var shared := indoor * outdoor;
      var roots := RootsOf(nodes);
      var platformRoots := RootsOf(platforms);
      var withoutOutdoor := CountCutOff(nodes, outdoor, outdoorRoots);
      StationCounts(rep, links, nodes, platforms, outdoor);
      figures := StationFigures(|nodes|, |roots|, |nodes * shared|, |platformRoots|, |platformRoots - outdoorRoots|,
                                withoutOutdoor);
    }

    /** The vertices of a line's points. */
    method NodesOf(line: seq<Point>) returns (nodes: seq<nat>)
      requires Valid()
      modifies this
      ensures Valid() && links == old(links) && old(points) <= points
      ensures VerticesOf(points, nodes, line)
    {
      nodes := [];
      for i := 0 to |line|
        invariant Valid() && links == old(links) && old(points) <= points
        invariant VerticesOf(points, nodes, line[..i])
      {
        var n := Node(line[i]);
        nodes := nodes + [n];
        assert line[..i + 1] == line[..i] + [line[i]];
      }
      assert line[..|line|] == line;
    }

    /** Links consecutive vertices of a line. */
    method LinkNodes(nodes: seq<nat>)
      requires Valid() && forall i :: 0 <= i < |nodes| ==> nodes[i] < |parent|
      modifies this`parent, this`size, this`rep, this`rank, this`links
      ensures Valid() && |parent| == |old(parent)|
      ensures links == old(links) + LineLinks(nodes)
    {
      if |nodes| < 2 { return; }
      for i := 1 to |nodes|
        invariant Valid() && |parent| == |old(parent)|
        invariant links == old(links) + LineLinks(nodes[..i])
      {
        LineLinksStep(nodes, i);
        Union(nodes[i - 1], nodes[i]);
      }
      assert nodes[..|nodes|] == nodes;
    }

    /** Adds a source line: its vertices, and a link along each of its segments. */
    method ReadLine(line: seq<Point>) returns (nodes: seq<nat>)
      requires Valid()
      modifies this
      ensures Valid() && old(points) <= points
      ensures VerticesOf(points, nodes, line)
      ensures links == old(links) + LineLinks(nodes)
    {
      nodes := NodesOf(line);
      LinkNodes(nodes);
    }
  }

  /** The vertices of one line are connected to each other. */
  lemma {:induction false} LineIsConnected(links: seq<Link>, nodes: seq<nat>, i: nat, j: nat)
    requires i <= j < |nodes|
    requires forall l :: l in LineLinks(nodes) ==> l in links
    ensures Connected(links, nodes[i], nodes[j])
    decreases |nodes|
  {
    if i == j {
      ConnectedSelf(links, nodes[i]);
    } else {
      var init := nodes[..|nodes| - 1];
      LineIsConnected(links, init, i, if j < |init| then j else |init| - 1);
      if j == |init| {
        assert (nodes[j - 1], nodes[j]) in LineLinks(nodes);
        ConnectedLink(links, nodes[j - 1], nodes[j]);
        ConnectedTransitive(links, nodes[i], nodes[j - 1], nodes[j]);
      }
    }
  }

  /** Why the loop of `Root` is short: its rounds are at most the base-two logarithm of the class. */
  lemma RoundsAreLogarithmic(rounds: nat, size: nat)
    requires size > 0 && (rounds > 0 ==> Pow2(2 * rounds - 1) <= size)
    ensures Pow2(rounds) <= size
  {
    if rounds > 0 { Pow2Monotone(rounds, 2 * rounds - 1); }
  }
}
