/** The repository layer (main/repositories/subway_repository.py): turning
    fetched routes into per-route stop lists and those into the connectivity
    graph. The transit API is given as two functions. */
module SubwayRepository {
  import opened SubwayModels

  /** The route types asked for: 0 is light rail, 1 is heavy rail. */
  const SubwayRouteTypes: seq<int> := [0, 1]

  /** Route `r` lists both `a` and `b`, and they are different names. */
  predicate Serves(rs: RouteStops, r: RouteId, a: StopName, b: StopName)
  {
    r in rs && a != b && a in StopNames(rs[r]) && b in StopNames(rs[r])
  }

  predicate Distinct<T(==)>(s: seq<T>)
  {
    forall i, j :: 0 <= i < j < |s| ==> s[i] != s[j]
  }

  /** The connections of stop `owner`: one per neighbour, never `owner`
      itself, each with a non-empty route list without repetitions. */
  predicate ConnectionsWellFormed(conns: seq<StopConnection>, owner: StopName)
  {
    && (forall i, j :: 0 <= i < j < |conns| ==> conns[i].stop != conns[j].stop)
    && (forall k :: 0 <= k < |conns| ==>
          conns[k].stop != owner && conns[k].routes != [] && Distinct(conns[k].routes))
  }

  /** Every key has at least one connection and every connection list is well formed. */
  predicate WellFormed(g: Graph)
  {
    forall a :: a in g ==> g[a] != [] && ConnectionsWellFormed(g[a], a)
  }

  /** `g` is the connectivity graph of `rs`: well formed, and `a` reaches `b`
      on route `r` exactly when `r` lists both of these distinct names. */
  ghost predicate IsConnectivityGraphOf(g: Graph, rs: RouteStops)
  {
    WellFormed(g) && forall a, b, r :: Linked(g, a, b, r) <==> Serves(rs, r, a, b)
  }

  /** `conns'` is the neighbour table `conns` of stop `owner` after
      `connections[b].add(r)`: still well formed and non-empty, linking to `b`
      on `r` and to everything it linked to before, and nothing else. Known
      neighbours keep their places; a new neighbour is appended at the end
      with `[r]`, exactly when `b` was not a neighbour yet. */
  ghost predicate AddedTo(conns: seq<StopConnection>, owner: StopName, b: StopName, r: RouteId,
                          conns': seq<StopConnection>)
  {
    && ConnectionsWellFormed(conns', owner) && conns' != []
    && (forall c, x :: Connects(conns', c, x) <==> Connects(conns, c, x) || (c == b && x == r))
    && |conns| <= |conns'| <= |conns| + 1
    && (forall k :: 0 <= k < |conns| ==> conns'[k].stop == conns[k].stop)
    && (|conns'| == |conns| + 1 <==> forall k :: 0 <= k < |conns| ==> conns[k].stop != b)
    && (|conns'| == |conns| + 1 ==> conns'[|conns|] == StopConnection(b, [r]))
  }

  /** `connections[b].add(r)` on one stop's insertion-ordered neighbour table:
      a known neighbour gains `r` in place, a new one is appended at the end. */
  function AddToConnections(conns: seq<StopConnection>, owner: StopName, b: StopName, r: RouteId)
    : (conns': seq<StopConnection>)
    requires ConnectionsWellFormed(conns, owner) && b != owner
    ensures AddedTo(conns, owner, b, r, conns')
    decreases |conns|
  {
    if conns == [] then
      AddToEmpty(owner, b, r);
      [StopConnection(b, [r])]
    else if conns[0].stop == b then
      var head := StopConnection(b, if r in conns[0].routes then conns[0].routes else conns[0].routes + [r]);
      AddToHead(conns, owner, b, r, head);
      [head] + conns[1..]
    else
      var tail := AddToConnections(conns[1..], owner, b, r);
      AddBehindHead(conns, owner, b, r, tail);
      [conns[0]] + tail
  }

  lemma AddToEmpty(owner: StopName, b: StopName, r: RouteId)
    requires b != owner
    ensures AddedTo([], owner, b, r, [StopConnection(b, [r])])
  {
    var single := [StopConnection(b, [r])];
    assert single[0].stop == b && r in single[0].routes;
  }

  lemma AddToHead(conns: seq<StopConnection>, owner: StopName, b: StopName, r: RouteId, head: StopConnection)
    requires ConnectionsWellFormed(conns, owner) && b != owner && conns != [] && conns[0].stop == b
    requires head == StopConnection(b, if r in conns[0].routes then conns[0].routes else conns[0].routes + [r])
    ensures AddedTo(conns, owner, b, r, [head] + conns[1..])
  {
    assert conns == [conns[0]] + conns[1..];
    ConnectsConsAll(conns[0], conns[1..]);
    ConnectsConsAll(head, conns[1..]);
    WellFormedCons(head, conns[1..], owner);
  }

  lemma AddBehindHead(conns: seq<StopConnection>, owner: StopName, b: StopName, r: RouteId, tail: seq<StopConnection>)
    requires ConnectionsWellFormed(conns, owner) && b != owner && conns != [] && conns[0].stop != b
    requires AddedTo(conns[1..], owner, b, r, tail)
    ensures AddedTo(conns, owner, b, r, [conns[0]] + tail)
  {
    assert conns == [conns[0]] + conns[1..];
    ConnectsConsAll(conns[0], conns[1..]);
    ConnectsConsAll(conns[0], tail);
    WellFormedCons(conns[0], tail, owner);
  }

  lemma ConnectsConsAll(head: StopConnection, tail: seq<StopConnection>)
    ensures forall c, x :: Connects([head] + tail, c, x) <==> (head.stop == c && x in head.routes) || Connects(tail, c, x)
  {
    forall c, x { ConnectsCons(head, tail, c, x); }
  }

  lemma WellFormedCons(head: StopConnection, tail: seq<StopConnection>, owner: StopName)
    requires ConnectionsWellFormed(tail, owner)
    requires head.stop != owner && head.routes != [] && Distinct(head.routes)
    requires forall k :: 0 <= k < |tail| ==> tail[k].stop != head.stop
    ensures ConnectionsWellFormed([head] + tail, owner)
  {
    var s := [head] + tail;
    forall i, j | 0 <= i < j < |s| ensures s[i].stop != s[j].stop {
      assert s[j] == tail[j - 1];
      if i > 0 { assert s[i] == tail[i - 1]; }
    }
  }

  lemma ConnectsCons(head: StopConnection, tail: seq<StopConnection>, c: StopName, x: RouteId)
    ensures Connects([head] + tail, c, x) <==> (head.stop == c && x in head.routes) || Connects(tail, c, x)
  {
    var s := [head] + tail;
    if Connects(tail, c, x) {
      var k :| 0 <= k < |tail| && tail[k].stop == c && x in tail[k].routes;
      assert s[k + 1] == tail[k];
    }
    if head.stop == c && x in head.routes {
      assert s[0] == head;
    }
    if Connects(s, c, x) {
      var k :| 0 <= k < |s| && s[k].stop == c && x in s[k].routes;
      if k > 0 { assert tail[k - 1] == s[k]; }
    }
  }

  /** `subway_map[a][b].add(r)` on the whole builder state. */
  function AddRoute(g: Graph, a: StopName, b: StopName, r: RouteId): (g': Graph)
    requires WellFormed(g) && a != b
    ensures WellFormed(g') && g'.Keys == g.Keys + {a}
    ensures forall x, y, z :: Linked(g', x, y, z) <==> Linked(g, x, y, z) || (x == a && y == b && z == r)
  {
    g[a := AddToConnections(if a in g then g[a] else [], a, b, r)]
  }

  /** Some ordered pair of positions (x, y) before (i, j), in the order the
      two nested loops visit them, names `a` and then `b`, with a != b. */
  ghost predicate PairSeen(stops: seq<ConnectedStop>, i: int, j: int, a: StopName, b: StopName)
  {
    a != b &&
    exists x, y :: 0 <= x < |stops| && 0 <= y < |stops| && (x < i || (x == i && y < j)) &&
                   stops[x].stopName == a && stops[y].stopName == b
  }

  lemma PairSeenStep(stops: seq<ConnectedStop>, i: int, j: int, a: StopName, b: StopName)
    requires 0 <= i < |stops| && 0 <= j < |stops|
    ensures PairSeen(stops, i, j + 1, a, b) <==>
            PairSeen(stops, i, j, a, b) || (a == stops[i].stopName && b == stops[j].stopName && a != b)
  {
  }

  lemma PairSeenRow(stops: seq<ConnectedStop>, i: int, a: StopName, b: StopName)
    requires 0 <= i < |stops|
    ensures PairSeen(stops, i, |stops|, a, b) <==> PairSeen(stops, i + 1, 0, a, b)
  {
  }

  lemma PairSeenAll(stops: seq<ConnectedStop>, a: StopName, b: StopName)
    ensures PairSeen(stops, |stops|, 0, a, b) <==> a != b && a in StopNames(stops) && b in StopNames(stops)
  {
    if a != b && a in StopNames(stops) && b in StopNames(stops) {
      var x :| 0 <= x < |stops| && StopNames(stops)[x] == a;
      var y :| 0 <= y < |stops| && StopNames(stops)[y] == b;
      assert stops[x].stopName == a && stops[y].stopName == b;
    }
    if PairSeen(stops, |stops|, 0, a, b) {
      var x, y :| 0 <= x < |stops| && 0 <= y < |stops| && stops[x].stopName == a && stops[y].stopName == b;
      assert StopNames(stops)[x] == a && StopNames(stops)[y] == b;
    }
  }

  /** `_build_connectivity_graph`: for every route, every ordered pair of
      distinct names on it gets the route added to its edge. */
  method BuildConnectivityGraph(rs: RouteStops) returns (g: Graph)
    ensures IsConnectivityGraphOf(g, rs)
    ensures forall a, k :: a in g && 0 <= k < |g[a]| ==> g[a][k].stop != a
  {
    g := map[];
    var remaining := rs.Keys;
    while remaining != {}
      invariant remaining <= rs.Keys
      invariant WellFormed(g)
      invariant forall a, b, r :: Linked(g, a, b, r) <==> Serves(rs, r, a, b) && r !in remaining
      decreases |remaining|
    {
      var routeId :| routeId in remaining;
      var stops := rs[routeId];
      for i := 0 to |stops|
        invariant WellFormed(g)
        invariant forall a, b, r :: Linked(g, a, b, r) <==>
                    (Serves(rs, r, a, b) && r !in remaining) || (r == routeId && PairSeen(stops, i, 0, a, b))
      {
        for j := 0 to |stops|
          invariant WellFormed(g)
          invariant forall a, b, r :: Linked(g, a, b, r) <==>
                      (Serves(rs, r, a, b) && r !in remaining) || (r == routeId && PairSeen(stops, i, j, a, b))
        {
          forall a, b ensures PairSeen(stops, i, j + 1, a, b) <==>
              PairSeen(stops, i, j, a, b) || (a == stops[i].stopName && b == stops[j].stopName && a != b) {
            PairSeenStep(stops, i, j, a, b);
          }
          if stops[i].stopName != stops[j].stopName {
            g := AddRoute(g, stops[i].stopName, stops[j].stopName, routeId);
          }
        }
        forall a, b ensures PairSeen(stops, i, |stops|, a, b) <==> PairSeen(stops, i + 1, 0, a, b) {
          PairSeenRow(stops, i, a, b);
        }
      }
      forall a, b ensures PairSeen(stops, |stops|, 0, a, b) <==> Serves(rs, routeId, a, b) {
        PairSeenAll(stops, a, b);
      }
      remaining := remaining - {routeId};
    }
  }

  /** `_fetch_stops`: one entry per fetched route id, holding the fetched stop
      names in their order, each tagged with that one route id. */
  method FetchStops(routes: seq<Route>, fetchStops: RouteId -> seq<StopName>) returns (rs: RouteStops)
    ensures rs.Keys == set k | 0 <= k < |routes| :: routes[k].id
    ensures forall id :: id in rs ==> StopNames(rs[id]) == fetchStops(id)
    ensures forall id, k :: id in rs && 0 <= k < |rs[id]| ==> rs[id][k].routeNames == [id]
  {
    rs := map[];
    for i := 0 to |routes|
      invariant rs.Keys == set k | 0 <= k < i :: routes[k].id
      invariant forall id :: id in rs ==> StopNames(rs[id]) == fetchStops(id)
      invariant forall id, k :: id in rs && 0 <= k < |rs[id]| ==> rs[id][k].routeNames == [id]
    {
      var route := routes[i];
      var names := fetchStops(route.id);
      rs := rs[route.id := seq(|names|, k requires 0 <= k < |names| => ConnectedStop(names[k], [route.id]))];
    }
  }

  /** `load_subway_data`: fetch the subway routes, their stops, and build the
      graph from exactly those stop lists. */
  method LoadSubwayData(fetchRoutes: seq<int> -> seq<Route>, fetchStops: RouteId -> seq<StopName>)
    returns (data: SubwayData)
    ensures data.routes == fetchRoutes(SubwayRouteTypes)
    ensures data.routeStops.Keys == set k | 0 <= k < |data.routes| :: data.routes[k].id
    ensures forall id :: id in data.routeStops ==> StopNames(data.routeStops[id]) == fetchStops(id)
    ensures forall id, k :: id in data.routeStops && 0 <= k < |data.routeStops[id]| ==> data.routeStops[id][k].routeNames == [id]
    ensures IsConnectivityGraphOf(data.subwayGraph, data.routeStops)
    ensures data.routes == [] ==> data.routeStops == map[] && data.subwayGraph == map[]
  {
    var routes := fetchRoutes(SubwayRouteTypes);
    var routeStops := FetchStops(routes, fetchStops);
    var graph := BuildConnectivityGraph(routeStops);
    data := SubwayData(routes, routeStops, graph);
    if routes == [] {
      assert routeStops.Keys == {};
      EmptyInputEmptyGraph(graph, routeStops);
    }
  }

  // ---------------------------------------------------------------------
  // Properties of any connectivity graph

  /** The route list on the edge a -> b is exactly the routes listing both. */
  lemma EdgeRoutesExact(g: Graph, rs: RouteStops, a: StopName, k: nat)
    requires IsConnectivityGraphOf(g, rs)
    requires a in g && k < |g[a]|
    ensures forall r :: r in g[a][k].routes <==> Serves(rs, r, a, g[a][k].stop)
  {
    var b := g[a][k].stop;
    forall r | Serves(rs, r, a, b) ensures r in g[a][k].routes {
      assert Linked(g, a, b, r);
      var k' :| 0 <= k' < |g[a]| && g[a][k'].stop == b && r in g[a][k'].routes;
      assert ConnectionsWellFormed(g[a], a);
      assert k' == k;
    }
    forall r | r in g[a][k].routes ensures Serves(rs, r, a, b) {
      assert Linked(g, a, b, r);
    }
  }

  /** Symmetry: the edge a -> b has a twin b -> a carrying the same routes. */
  lemma Symmetric(g: Graph, rs: RouteStops, a: StopName, k: nat)
    requires IsConnectivityGraphOf(g, rs)
    requires a in g && k < |g[a]|
    ensures g[a][k].stop in g
    ensures exists k' :: 0 <= k' < |g[g[a][k].stop]| && g[g[a][k].stop][k'].stop == a &&
                         forall r :: r in g[g[a][k].stop][k'].routes <==> r in g[a][k].routes
  {
    var b := g[a][k].stop;
    var r0 := g[a][k].routes[0];
    assert Linked(g, a, b, r0);
    assert Serves(rs, r0, b, a);
    assert Linked(g, b, a, r0);
    var k' :| 0 <= k' < |g[b]| && g[b][k'].stop == a && r0 in g[b][k'].routes;
    EdgeRoutesExact(g, rs, a, k);
    EdgeRoutesExact(g, rs, b, k');
    assert forall r :: Serves(rs, r, a, b) <==> Serves(rs, r, b, a);
  }

  /** The distinct stop names of a stop list. */
  function DistinctNames(stops: seq<ConnectedStop>): set<StopName>
  {
    set n | n in StopNames(stops)
  }

  /** The graph's keys are exactly the names listed by some route that lists
      at least two distinct names. */
  lemma KeysExact(g: Graph, rs: RouteStops, a: StopName)
    requires IsConnectivityGraphOf(g, rs)
    ensures a in g <==> exists r :: r in rs && a in StopNames(rs[r]) && |DistinctNames(rs[r])| >= 2
  {
    if a in g {
      var c := g[a][0];
      assert Linked(g, a, c.stop, c.routes[0]);
      var r := c.routes[0];
      assert {a, c.stop} <= DistinctNames(rs[r]);
      assert |{a, c.stop}| == 2;
      SubsetCardinality({a, c.stop}, DistinctNames(rs[r]));
    }
    if exists r :: r in rs && a in StopNames(rs[r]) && |DistinctNames(rs[r])| >= 2 {
      var r :| r in rs && a in StopNames(rs[r]) && |DistinctNames(rs[r])| >= 2;
      var names := DistinctNames(rs[r]);
      var b := OtherElement(names, a);
      assert Serves(rs, r, a, b);
      assert Linked(g, a, b, r);
    }
  }

  /** A set with at least two elements has one other than `a`. */
  ghost function OtherElement<T>(s: set<T>, a: T): (b: T)
    requires |s| >= 2
    ensures b in s && b != a
  {
    assert s - {a} != {} by {
      if s - {a} == {} { SubsetCardinality(s, {a}); }
    }
    var b :| b in s - {a}; b
  }

  /** Empty input gives an empty graph. */
  lemma EmptyInputEmptyGraph(g: Graph, rs: RouteStops)
    requires IsConnectivityGraphOf(g, rs) && rs == map[]
    ensures g == map[]
  {
    if a :| a in g {
      assert Linked(g, a, g[a][0].stop, g[a][0].routes[0]);
    }
  }

  /** A route whose list names a single stop (possibly many times) adds no key. */
  lemma SingleNameRouteAddsNothing(g: Graph, rs: RouteStops, a: StopName)
    requires IsConnectivityGraphOf(g, rs)
    requires forall r :: r in rs && a in StopNames(rs[r]) ==> DistinctNames(rs[r]) == {a}
    ensures a !in g
  {
    KeysExact(g, rs, a);
  }
}
