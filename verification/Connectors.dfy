/** Centimetre-scale connectors between nodes of one station, found through a grid of bins and joined in the
    network's union-find. */
module Connectors {
  import opened GapBins
  import opened Network

  type Bins = map<BinKey, seq<nat>>

  /** A station and its nodes in ascending order. */
  datatype Station = Station(code: string, nodes: seq<nat>)

  datatype Connector = Connector(station: string, other: nat, node: nat)

  function BinAt(bins: Bins, key: BinKey): seq<nat> {
    if key in bins then bins[key] else []
  }

  function Pairs(connectors: seq<Connector>): seq<Link> {
    seq(|connectors|, i requires 0 <= i < |connectors| => (connectors[i].node, connectors[i].other))
  }

  lemma PairsAppend(a: seq<Connector>, b: seq<Connector>)
    ensures Pairs(a + b) == Pairs(a) + Pairs(b)
  {}

  /** Each connector joins two nodes that the links and the connectors before it leave unconnected. */
  ghost predicate EachNeeded(links0: seq<Link>, added: seq<Connector>) {
    forall k :: 0 <= k < |added| ==> !Connected(links0 + Pairs(added[..k]), added[k].node, added[k].other)
  }

  lemma NeededAppend(links0: seq<Link>, a: seq<Connector>, b: seq<Connector>)
    requires EachNeeded(links0, a) && EachNeeded(links0 + Pairs(a), b)
    ensures EachNeeded(links0, a + b)
  {
    var c := a + b;
    forall k | 0 <= k < |c| ensures !Connected(links0 + Pairs(c[..k]), c[k].node, c[k].other) {
      if k < |a| {
        assert c[..k] == a[..k];
      } else {
        assert c[..k] == a + b[..k - |a|];
        PairsAppend(a, b[..k - |a|]);
        assert links0 + Pairs(c[..k]) == links0 + Pairs(a) + Pairs(b[..k - |a|]);
      }
    }
  }

  lemma NeededOne(links0: seq<Link>, added: seq<Connector>, c: Connector)
    requires EachNeeded(links0, added) && !Connected(links0 + Pairs(added), c.node, c.other)
    ensures EachNeeded(links0, added + [c])
  {
    assert links0 + Pairs(added) + Pairs([]) == links0 + Pairs(added);
    NeededAppend(links0, added, [c]);
  }

  lemma ConnectedThrough(before: seq<Link>, after: seq<Link>, a: nat, b: nat)
    requires before <= after && Connected(before, a, b)
    ensures Connected(after, a, b)
  {
    ConnectedMore(before, after[|before|..], a, b);
    assert after == before + after[|before|..];
  }

  ghost predicate InRange(nodes: seq<nat>, n: nat) {
    forall i :: 0 <= i < |nodes| ==> nodes[i] < n
  }

  /** Every node among `others` that the search finds near `node` is connected to it. */
  ghost predicate NearJoined(links: seq<Link>, points: seq<Point>, node: nat, others: seq<nat>, cosine: real)
    requires node < |points| && InRange(others, |points|)
  {
    forall i :: 0 <= i < |others| && Found(points[node], points[others[i]], cosine) ==>
      Connected(links, node, others[i])
  }

  lemma NearStaysJoined(before: seq<Link>, after: seq<Link>, points: seq<Point>, node: nat, others: seq<nat>,
                        cosine: real)
    requires node < |points| && InRange(others, |points|)
    requires before <= after && NearJoined(before, points, node, others, cosine)
    ensures NearJoined(after, points, node, others, cosine)
  {
    forall i | 0 <= i < |others| && Found(points[node], points[others[i]], cosine)
      ensures Connected(after, node, others[i])
    {
      ConnectedThrough(before, after, node, others[i]);
    }
  }

  /** The connector joins `node` to a near node from `others`. */
  predicate Sound(c: Connector, station: string, points: seq<Point>, node: nat, others: seq<nat>, cosine: real) {
    && c.station == station && c.node == node && c.other in others && c.other != node
    && c.node < |points| && c.other < |points| && Found(points[node], points[c.other], cosine)
  }

  ghost predicate AllTouch(points: seq<Point>, node: nat, others: seq<nat>)
    requires node < |points| && InRange(others, |points|)
  {
    forall i :: 0 <= i < |others| ==> Touching(BinOf(points[node]), BinOf(points[others[i]]))
  }

  /** The first nodes of the bin are done: `added` are the new links, each took one component away. */
  ghost predicate BinProgress(network: UnionFind, points: seq<Point>, links0: seq<Link>, count0: nat, station: string,
                              node: nat, others: seq<nat>, done: seq<nat>, cosine: real, added: seq<Connector>)
    requires node < |points| && InRange(done, |points|)
    reads network
  {
    && network.Valid() && network.points == points
    && network.links == links0 + Pairs(added)
    && ComponentCount(network.rep) + |added| == count0
    && EachNeeded(links0, added)
    && (forall c :: c in added ==> Sound(c, station, points, node, others, cosine))
    && NearJoined(network.links, points, node, done, cosine)
  }

  /** Joins `node` to one node of a touching bin when that is near and not yet connected. */
  method JoinOne(network: UnionFind, station: string, node: nat, others: seq<nat>, ghost done: seq<nat>, other: nat,
                 cosine: real, added: seq<Connector>,
                 ghost points: seq<Point>, ghost links0: seq<Link>, ghost count0: nat)
    returns (more: seq<Connector>)
    requires node < |points| && InRange(done, |points|) && other < |points| && other in others
    requires BinProgress(network, points, links0, count0, station, node, others, done, cosine, added)
    requires Touching(BinOf(points[node]), BinOf(points[other]))
    modifies network`parent, network`size, network`rep, network`rank, network`links
    ensures InRange(done + [other], |points|)
    ensures BinProgress(network, points, links0, count0, station, node, others, done + [other], cosine, more)
  {
    more := added;
    var a, _ := network.Root(node);
    var b, _ := network.Root(other);
    var near := CheckGap(network.points[node], network.points[other], cosine);
    if a != b && near {
      ghost var before := network.links;
      more := added + [Connector(station, other, node)];
      network.Union(node, other);
      PairsAppend(added, [Connector(station, other, node)]);
      NeededOne(links0, added, Connector(station, other, node));
      NearStaysJoined(before, network.links, points, node, done, cosine);
      ConnectedLink(network.links, node, other);
    }
  }

  /** Joins `node` to the nodes of one touching bin that are near it and not yet connected to it. */
  method JoinBin(network: UnionFind, station: string, node: nat, others: seq<nat>, cosine: real)
    returns (added: seq<Connector>)
    requires network.Valid() && node < |network.points| && InRange(others, |network.points|)
    requires AllTouch(network.points, node, others)
    modifies network`parent, network`size, network`rep, network`rank, network`links
    ensures network.Valid()
    ensures network.links == old(network.links) + Pairs(added)
    ensures ComponentCount(network.rep) + |added| == ComponentCount(old(network.rep))
    ensures EachNeeded(old(network.links), added)
    ensures forall c :: c in added ==> Sound(c, station, network.points, node, others, cosine)
    ensures NearJoined(network.links, network.points, node, others, cosine)
  {
    added := [];
    ghost var points, links0, count0 := network.points, network.links, ComponentCount(network.rep);
    for i := 0 to |others|
      invariant network.points == points
      invariant BinProgress(network, points, links0, count0, station, node, others, others[..i], cosine, added)
    {
      assert others[..i + 1] == others[..i] + [others[i]];
      added := JoinOne(network, station, node, others, others[..i], others[i], cosine, added, points, links0, count0);
    }
    assert others[..|others|] == others;
  }

  predicate Belongs(n: nat, key: BinKey, points: seq<Point>, seen: seq<nat>) {
    n in seen && n < |points| && BinOf(points[n]) == key
  }

  /** The bins hold the nodes seen so far, each under its own key. */
  ghost predicate BinsOk(bins: Bins, points: seq<Point>, seen: seq<nat>) {
    && InRange(seen, |points|)
    && (forall key, i :: 0 <= i < |BinAt(bins, key)| ==> Belongs(BinAt(bins, key)[i], key, points, seen))
    && forall i :: 0 <= i < |seen| ==> seen[i] in BinAt(bins, BinOf(points[seen[i]]))
  }

  ghost predicate BinsJoined(links: seq<Link>, points: seq<Point>, node: nat, bins: Bins, seen: seq<nat>,
                             keys: set<BinKey>, cosine: real)
    requires node < |points| && BinsOk(bins, points, seen)
  {
    forall key :: key in keys ==>
      InRange(BinAt(bins, key), |points|) && NearJoined(links, points, node, BinAt(bins, key), cosine)
  }

  ghost predicate Around(key: BinKey, keys: set<BinKey>) {
    forall dx, dy, dz :: -1 <= dx <= 1 && -1 <= dy <= 1 && -1 <= dz <= 1 ==> Neighbour(key, dx, dy, dz) in keys
  }

  lemma AroundIsEnough(links: seq<Link>, points: seq<Point>, node: nat, bins: Bins, seen: seq<nat>,
                       keys: set<BinKey>, cosine: real)
    requires node < |points| && BinsOk(bins, points, seen) && BinsJoined(links, points, node, bins, seen, keys, cosine)
    requires Around(BinOf(points[node]), keys)
    ensures NearJoined(links, points, node, seen, cosine)
  {
    forall i | 0 <= i < |seen| && Found(points[node], points[seen[i]], cosine)
      ensures Connected(links, node, seen[i])
    {
      var a, b := BinOf(points[node]), BinOf(points[seen[i]]);
      assert b == Neighbour(a, b.x - a.x, b.y - a.y, b.z - a.z);
      var at :| 0 <= at < |BinAt(bins, b)| && BinAt(bins, b)[at] == seen[i];
    }
  }

  /** The connectors `added` since the links were `links0` and the components `count0` are exactly the new links,
      each took one component away, and the bins with the given keys are done. */
  ghost predicate Progress(network: UnionFind, points: seq<Point>, links0: seq<Link>, count0: nat, station: string,
                           node: nat, bins: Bins, seen: seq<nat>, cosine: real,
                           added: seq<Connector>, keys: set<BinKey>)
    reads network
  {
    && network.Valid() && network.points == points && node < |points| && BinsOk(bins, points, seen)
    && network.links == links0 + Pairs(added)
    && ComponentCount(network.rep) + |added| == count0
    && EachNeeded(links0, added)
    && (forall c :: c in added ==> Sound(c, station, points, node, seen, cosine))
    && BinsJoined(network.links, points, node, bins, seen, keys, cosine)
  }

  lemma BinsStayJoined(before: seq<Link>, after: seq<Link>, points: seq<Point>, node: nat, bins: Bins, seen: seq<nat>,
                       keys: set<BinKey>, cosine: real)
    requires node < |points| && BinsOk(bins, points, seen) && before <= after
    requires BinsJoined(before, points, node, bins, seen, keys, cosine)
    ensures BinsJoined(after, points, node, bins, seen, keys, cosine)
  {
    forall key | key in keys
      ensures InRange(BinAt(bins, key), |points|) && NearJoined(after, points, node, BinAt(bins, key), cosine)
    {
      NearStaysJoined(before, after, points, node, BinAt(bins, key), cosine);
    }
  }

  method JoinOneBin(network: UnionFind, station: string, node: nat, bins: Bins, ghost seen: seq<nat>, cosine: real,
                    near: BinKey, added: seq<Connector>, ghost keys: set<BinKey>,
                    ghost links0: seq<Link>, ghost count0: nat)
    returns (more: seq<Connector>)
    requires Progress(network, network.points, links0, count0, station, node, bins, seen, cosine, added, keys)
    requires Touching(BinOf(network.points[node]), near)
    modifies network`parent, network`size, network`rep, network`rank, network`links
    ensures Progress(network, network.points, links0, count0, station, node, bins, seen, cosine, more, keys + {near})
  {
    ghost var before, points := network.links, network.points;
    var joined := JoinBin(network, station, node, BinAt(bins, near), cosine);
    BinsStayJoined(before, network.links, points, node, bins, seen, keys, cosine);
    PairsAppend(added, joined);
    NeededAppend(links0, added, joined);
    forall c | c in joined ensures Sound(c, station, points, node, seen, cosine) {
      assert Sound(c, station, points, node, BinAt(bins, near), cosine);
    }
    more := added + joined;
  }

  /** Joins `node` to the nodes of three bins above each other. */
  method JoinColumn(network: UnionFind, station: string, node: nat, bins: Bins, ghost seen: seq<nat>, cosine: real,
                    dx: int, dy: int, added: seq<Connector>, ghost keys: set<BinKey>,
                    ghost links0: seq<Link>, ghost count0: nat)
    returns (more: seq<Connector>, ghost keys': set<BinKey>)
    requires -1 <= dx <= 1 && -1 <= dy <= 1
    requires Progress(network, network.points, links0, count0, station, node, bins, seen, cosine, added, keys)
    modifies network`parent, network`size, network`rep, network`rank, network`links
    ensures Progress(network, network.points, links0, count0, station, node, bins, seen, cosine, more, keys')
    ensures keys <= keys'
    ensures forall z :: -1 <= z < 2 ==> Neighbour(BinOf(network.points[node]), dx, dy, z) in keys'
  {
    more, keys' := added, keys;
    ghost var points := network.points;
    var key := BinOf(network.points[node]);
    for dz := -1 to 2
      invariant Progress(network, points, links0, count0, station, node, bins, seen, cosine, more, keys')
      invariant keys <= keys'
      invariant forall z :: -1 <= z < dz ==> Neighbour(key, dx, dy, z) in keys'
    {
      var near := Neighbour(key, dx, dy, dz);
      more := JoinOneBin(network, station, node, bins, seen, cosine, near, more, keys', links0, count0);
      keys' := keys' + {near};
    }
  }

  /** Joins `node` to the nodes of the 27 bins around its own. */
  method JoinAround(network: UnionFind, station: string, node: nat, bins: Bins, ghost seen: seq<nat>, cosine: real)
    returns (added: seq<Connector>)
    requires network.Valid() && node < |network.points| && BinsOk(bins, network.points, seen)
    modifies network`parent, network`size, network`rep, network`rank, network`links
    ensures network.Valid()
    ensures network.links == old(network.links) + Pairs(added)
    ensures ComponentCount(network.rep) + |added| == ComponentCount(old(network.rep))
    ensures EachNeeded(old(network.links), added)
    ensures forall c :: c in added ==> Sound(c, station, network.points, node, seen, cosine)
    ensures NearJoined(network.links, network.points, node, seen, cosine)
  {
    added := [];
    ghost var points, links0, count0 := network.points, network.links, ComponentCount(network.rep);
    ghost var keys: set<BinKey> := {};
    var key := BinOf(network.points[node]);
    for dx := -1 to 2
      invariant Progress(network, points, links0, count0, station, node, bins, seen, cosine, added, keys)
      invariant forall x, y, z :: -1 <= x < dx && -1 <= y < 2 && -1 <= z < 2 ==> Neighbour(key, x, y, z) in keys
    {
      ghost var outer := keys;
      for dy := -1 to 2
        invariant Progress(network, points, links0, count0, station, node, bins, seen, cosine, added, keys)
        invariant outer <= keys
        invariant forall y, z :: -1 <= y < dy && -1 <= z < 2 ==> Neighbour(key, dx, y, z) in keys
      {
        ghost var before := keys;
        added, keys := JoinColumn(network, station, node, bins, seen, cosine, dx, dy, added, keys, links0, count0);
        assert BinOf(network.points[node]) == key;
        forall y, z | -1 <= y < dy + 1 && -1 <= z < 2 ensures Neighbour(key, dx, y, z) in keys {
          assert y < dy ==> Neighbour(key, dx, y, z) in before;
        }
      }
    }
    assert Around(key, keys);
    AroundIsEnough(network.links, points, node, bins, seen, keys, cosine);
  }

  ghost predicate NearPairJoined(links: seq<Link>, p: Point, q: Point, a: nat, b: nat, cosine: real) {
    Found(p, q, cosine) ==> Connected(links, a, b)
  }

  /** Every two nodes of the list that the search finds near are connected. */
  ghost predicate StationJoined(links: seq<Link>, points: seq<Point>, nodes: seq<nat>, cosine: real -> real)
    requires InRange(nodes, |points|)
  {
    forall i, j :: 0 <= i < j < |nodes| ==>
      NearPairJoined(links, points[nodes[j]], points[nodes[i]], nodes[j], nodes[i], cosine(points[nodes[j]].lat))
  }

  lemma StationStaysJoined(before: seq<Link>, after: seq<Link>, points: seq<Point>, nodes: seq<nat>,
                           cosine: real -> real)
    requires InRange(nodes, |points|) && before <= after && StationJoined(before, points, nodes, cosine)
    ensures StationJoined(after, points, nodes, cosine)
  {
    forall i, j | 0 <= i < j < |nodes|
      ensures NearPairJoined(after, points[nodes[j]], points[nodes[i]], nodes[j], nodes[i],
                             cosine(points[nodes[j]].lat))
    {
      assert NearPairJoined(before, points[nodes[j]], points[nodes[i]], nodes[j], nodes[i],
                            cosine(points[nodes[j]].lat));
      if Connected(before, nodes[j], nodes[i]) {
        ConnectedThrough(before, after, nodes[j], nodes[i]);
      }
    }
  }

  lemma BinsGrow(bins: Bins, points: seq<Point>, seen: seq<nat>, node: nat)
    requires BinsOk(bins, points, seen) && node < |points|
    ensures var key := BinOf(points[node]); BinsOk(bins[key := BinAt(bins, key) + [node]], points, seen + [node])
  {
    var key := BinOf(points[node]);
    var bins', seen' := bins[key := BinAt(bins, key) + [node]], seen + [node];
    forall k, i | 0 <= i < |BinAt(bins', k)| ensures Belongs(BinAt(bins', k)[i], k, points, seen') {
      if k != key || i < |BinAt(bins, key)| { assert Belongs(BinAt(bins, k)[i], k, points, seen); }
    }
    forall i | 0 <= i < |seen'| ensures seen'[i] in BinAt(bins', BinOf(points[seen'[i]])) {
      if i < |seen| { assert seen[i] in BinAt(bins, BinOf(points[seen[i]])); }
    }
  }

  /** A connector between two nodes of the station that the search finds near, by the latitude of the second. */
  ghost predicate SoundIn(c: Connector, station: Station, points: seq<Point>, cosine: real -> real) {
    && c.station == station.code && c.node in station.nodes && c.other in station.nodes && c.other != c.node
    && c.node < |points| && c.other < |points| && Found(points[c.node], points[c.other], cosine(points[c.node].lat))
  }

  ghost predicate AllSoundIn(added: seq<Connector>, station: Station, points: seq<Point>, cosine: real -> real) {
    forall c :: c in added ==> SoundIn(c, station, points, cosine)
  }

  /** The nodes seen so far are binned, their near pairs connected, and the connectors added sound. */
  ghost predicate NodesDone(points: seq<Point>, links: seq<Link>, station: Station, cosine: real -> real,
                            seen: seq<nat>, bins: Bins, added: seq<Connector>)
  {
    && InRange(station.nodes, |points|) && AllSoundIn(added, station, points, cosine)
    && BinsOk(bins, points, seen) && StationJoined(links, points, seen, cosine)
  }

  /** The first `n` nodes of the station are binned and their near pairs connected by the connectors `added`. */
  ghost predicate StationProgress(network: UnionFind, points: seq<Point>, links0: seq<Link>, count0: nat,
                                  station: Station, cosine: real -> real, n: nat, bins: Bins, added: seq<Connector>)
    requires n <= |station.nodes|
    reads network
  {
    && network.Valid() && network.points == points
    && network.links == links0 + Pairs(added)
    && ComponentCount(network.rep) + |added| == count0
    && EachNeeded(links0, added)
    && NodesDone(points, network.links, station, cosine, station.nodes[..n], bins, added)
  }

  lemma NodeDone(points: seq<Point>, before: seq<Link>, links: seq<Link>, station: Station, cosine: real -> real,
                 n: nat, bins: Bins, added: seq<Connector>, joined: seq<Connector>)
    requires n < |station.nodes| && before <= links
    requires NodesDone(points, before, station, cosine, station.nodes[..n], bins, added)
    requires var node := station.nodes[n]; forall c :: c in joined ==>
               Sound(c, station.code, points, node, station.nodes[..n], cosine(points[node].lat))
    requires NearJoined(links, points, station.nodes[n], station.nodes[..n], cosine(points[station.nodes[n]].lat))
    ensures var node := station.nodes[n]; var key := BinOf(points[node]);
      NodesDone(points, links, station, cosine, station.nodes[..n + 1], bins[key := BinAt(bins, key) + [node]],
                added + joined)
  {
    var node, seen := station.nodes[n], station.nodes[..n];
    assert station.nodes[..n + 1] == seen + [node];
    StationStaysJoined(before, links, points, seen, cosine);
    BinsGrow(bins, points, seen, node);
  }

  method ConnectNode(network: UnionFind, station: Station, cosine: real -> real, n: nat, bins: Bins,
                     added: seq<Connector>, ghost links0: seq<Link>, ghost count0: nat)
    returns (bins': Bins, more: seq<Connector>)
    requires n < |station.nodes|
    requires StationProgress(network, network.points, links0, count0, station, cosine, n, bins, added)
    modifies network`parent, network`size, network`rep, network`rank, network`links
    ensures StationProgress(network, network.points, links0, count0, station, cosine, n + 1, bins', more)
  {
    var node := station.nodes[n];
    ghost var before := network.links;
    var joined := JoinAround(network, station.code, node, bins, station.nodes[..n], cosine(network.points[node].lat));
    NodeDone(network.points, before, network.links, station, cosine, n, bins, added, joined);
    PairsAppend(added, joined);
    NeededAppend(links0, added, joined);
    var key := BinOf(network.points[node]);
    bins' := bins[key := BinAt(bins, key) + [node]];
    more := added + joined;
  }

  /** What the search for one station leaves behind, given the links there before. */
  ghost predicate Outcome(points: seq<Point>, links0: seq<Link>, station: Station, added: seq<Connector>,
                          cosine: real -> real)
  {
    && InRange(station.nodes, |points|)
    && AllSoundIn(added, station, points, cosine)
    && StationJoined(links0 + Pairs(added), points, station.nodes, cosine)
  }

  method ConnectStation(network: UnionFind, station: Station, cosine: real -> real) returns (added: seq<Connector>)
    requires network.Valid() && InRange(station.nodes, |network.points|)
    modifies network`parent, network`size, network`rep, network`rank, network`links
    ensures network.Valid()
    ensures network.links == old(network.links) + Pairs(added)
    ensures ComponentCount(network.rep) + |added| == ComponentCount(old(network.rep))
    ensures EachNeeded(old(network.links), added)
    ensures Outcome(network.points, old(network.links), station, added, cosine)
  {
    added := [];
    var bins: Bins := map[];
    ghost var points, links0, count0 := network.points, network.links, ComponentCount(network.rep);
    for n := 0 to |station.nodes|
      invariant StationProgress(network, points, links0, count0, station, cosine, n, bins, added)
    {
      bins, added := ConnectNode(network, station, cosine, n, bins, added, links0, count0);
    }
    assert station.nodes[..|station.nodes|] == station.nodes;
  }

  /** All stations. Each connector joins two nodes of one station within the gap that were not connected before it, no
      other link is added, and afterwards all nodes of a station within the gap are connected wherever the bin
      scale fits. */
  method FindConnectors(network: UnionFind, stations: seq<Station>, cosine: real -> real)
    returns (result: seq<Connector>)
    requires network.Valid() && forall s :: 0 <= s < |stations| ==> InRange(stations[s].nodes, |network.points|)
    modifies network`parent, network`size, network`rep, network`rank, network`links
    ensures network.Valid()
    ensures network.links == old(network.links) + Pairs(result)
    ensures ComponentCount(network.rep) + |result| == ComponentCount(old(network.rep))
    ensures EachNeeded(old(network.links), result)
    ensures forall c :: c in result ==>
              exists s :: 0 <= s < |stations| && SoundIn(c, stations[s], network.points, cosine)
    ensures forall s :: 0 <= s < |stations| ==> StationJoined(network.links, network.points, stations[s].nodes, cosine)
  {
    result := [];
    ghost var points := network.points;
    for n := 0 to |stations|
      invariant network.Valid() && network.points == points
      invariant network.links == old(network.links) + Pairs(result)
      invariant ComponentCount(network.rep) + |result| == ComponentCount(old(network.rep))
      invariant EachNeeded(old(network.links), result)
      invariant forall c :: c in result ==> exists s :: 0 <= s < n && SoundIn(c, stations[s], points, cosine)
      invariant forall s :: 0 <= s < n ==> StationJoined(network.links, points, stations[s].nodes, cosine)
    {
      ghost var before := network.links;
      var added := ConnectStation(network, stations[n], cosine);
      forall s | 0 <= s < n ensures StationJoined(network.links, points, stations[s].nodes, cosine) {
        StationStaysJoined(before, network.links, points, stations[s].nodes, cosine);
      }
      PairsAppend(result, added);
      NeededAppend(old(network.links), result, added);
      forall c | c in result + added ensures exists s :: 0 <= s <= n && SoundIn(c, stations[s], points, cosine) {
        if c in result {
          var s :| 0 <= s < n && SoundIn(c, stations[s], points, cosine);
        } else {
          assert SoundIn(c, stations[n], points, cosine);
        }
      }
      result := result + added;
    }
  }

  // ----- when the outcome is complete -----

  ghost predicate NearConnected(points: seq<Point>, links: seq<Link>, a: nat, b: nat, cosine: real -> real)
    requires a < |points| && b < |points|
  {
    WithinGap(points[a], points[b], cosine(points[a].lat)) ==> Connected(links, a, b)
  }

  /** What the connectors are for: every two nodes of the station within the gap are connected. */
  ghost predicate AllNearConnected(points: seq<Point>, links: seq<Link>, nodes: seq<nat>, cosine: real -> real)
    requires InRange(nodes, |points|)
  {
    forall i, j :: 0 <= i < j < |nodes| ==> NearConnected(points, links, nodes[j], nodes[i], cosine)
  }

  /** Complete for every station at whose latitudes the bin scale fits. */
  lemma CompleteWhereScaleFits(points: seq<Point>, links0: seq<Link>, station: Station, added: seq<Connector>,
                               cosine: real -> real)
    requires Outcome(points, links0, station, added, cosine)
    requires forall i :: 0 <= i < |station.nodes| ==> BinScaleFits(cosine(points[station.nodes[i]].lat))
    ensures AllNearConnected(points, links0 + Pairs(added), station.nodes, cosine)
  {
    var nodes, links := station.nodes, links0 + Pairs(added);
    forall i, j | 0 <= i < j < |nodes| ensures NearConnected(points, links, nodes[j], nodes[i], cosine) {
      var p, q, c := points[nodes[j]], points[nodes[i]], cosine(points[nodes[j]].lat);
      assert NearPairJoined(links, p, q, nodes[j], nodes[i], c);
      if WithinGap(p, q, c) { GapTouches(p, q, c); }
    }
  }

  lemma NothingConnects(a: nat, b: nat)
    requires Connected([], a, b)
    ensures a == b
  {
    var walk :| Walk([], walk, a, b);
    assert |walk| > 1 ==> Adjacent([], walk[0], walk[1]);
  }

  /** A station of two nodes. */
  function PairStation(): Station { Station("", [0, 1]) }

  lemma PairOutcomeTouches(node: Point, other: Point, added: seq<Connector>, cosine: real -> real)
    requires Outcome([other, node], [], PairStation(), added, cosine) && added != []
    ensures Touching(BinOf(node), BinOf(other))
  {
    assert SoundIn(added[0], PairStation(), [other, node], cosine);
  }

  /** Whatever the search does for two points within the gap that share no searched bin, it adds no connector and
      leaves them unconnected. */
  lemma MissedOutcome(node: Point, other: Point, added: seq<Connector>, cosine: real -> real)
    requires !Touching(BinOf(node), BinOf(other))
    requires Outcome([other, node], [], PairStation(), added, cosine)
    ensures added == [] && !Connected(Pairs(added), 1, 0)
  {
    if added != [] { PairOutcomeTouches(node, other, added, cosine); }
    if Connected([], 1, 0) { NothingConnects(1, 0); }
    assert Pairs([]) == [];
  }

  /** The points of the station all lie on the parallel at `lat`. */
  ghost predicate OnParallel(points: seq<Point>, lat: real) {
    forall i :: 0 <= i < |points| ==> points[i].lat == lat
  }

  ghost predicate AlwaysComplete(lat: real, cosine: real -> real) {
    forall points, links0, station, added ::
      OnParallel(points, lat) && Outcome(points, links0, station, added, cosine) ==>
        AllNearConnected(points, links0 + Pairs(added), station.nodes, cosine)
  }

  /** On the parallel and within the gap; some outcome exists, and every outcome adds nothing and connects nothing. */
  ghost predicate MissedBySearch(node: Point, other: Point, lat: real, cosine: real -> real) {
    && node.lat == lat && other.lat == lat && WithinGap(node, other, cosine(lat))
    && Outcome([other, node], [], PairStation(), [], cosine)
    && forall added :: Outcome([other, node], [], PairStation(), added, cosine) ==>
         added == [] && !Connected(Pairs(added), 1, 0)
  }

  lemma MissedOutcomeExists(node: Point, other: Point, lat: real, cosine: real -> real)
    requires node.lat == lat && other.lat == lat && WithinGap(node, other, cosine(lat))
    requires !Touching(BinOf(node), BinOf(other))
    ensures MissedBySearch(node, other, lat, cosine) && !AlwaysComplete(lat, cosine)
  {
    var points, links: seq<Link> := [other, node], [];
    assert links + Pairs([]) == [];
    assert Outcome(points, [], PairStation(), [], cosine);
    forall added | Outcome(points, [], PairStation(), added, cosine)
      ensures added == [] && !Connected(Pairs(added), 1, 0)
    {
      MissedOutcome(node, other, added, cosine);
    }
    assert OnParallel(points, lat);
    assert !NearConnected(points, [] + Pairs([]), 1, 0, cosine);
    var nodes := PairStation().nodes;
    assert nodes[1] == 1 && nodes[0] == 0;
    assert !AllNearConnected(points, [] + Pairs([]), nodes, cosine);
  }

  /** The promise of the connectors, at a latitude: the search for a station on that parallel always leaves all its
      near nodes connected exactly when the bin scale fits there. Where it does not, a station of two nodes is left
      with no connector, and there is nothing else that the search could do with it. */
  lemma CompleteIffScaleFits(lat: real, cosine: real -> real)
    requires cosine(lat) >= 0.0
    ensures AlwaysComplete(lat, cosine) <==> BinScaleFits(cosine(lat))
    ensures !BinScaleFits(cosine(lat)) ==> exists node, other :: MissedBySearch(node, other, lat, cosine)
  {
    if BinScaleFits(cosine(lat)) {
      forall points, links0, station, added |
        OnParallel(points, lat) && Outcome(points, links0, station, added, cosine)
        ensures AllNearConnected(points, links0 + Pairs(added), station.nodes, cosine)
      {
        CompleteWhereScaleFits(points, links0, station, added, cosine);
      }
    } else {
      var node, other := MissedPair(lat, cosine(lat));
      MissedOutcomeExists(node, other, lat, cosine);
    }
  }
}
