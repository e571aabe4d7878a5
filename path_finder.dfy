/** Question three of the service (main/services.py:137-190): a breadth-first
    search over the connectivity graph from one stop to another, which tries
    the routes of each edge in route-continuity order and reports the first
    path it dequeues at the end stop. */
module PathFinder {
  import opened SubwayModels
  import opened RouteOrder
  import SubwayRepository

  /** A queue entry `(current_stop, stops_path, routes_path)`: the stops before
      `current` and the routes ridden between them. */
  datatype Entry = Entry(current: StopName, stopsPath: seq<StopName>, routesPath: seq<RouteId>)

  /** What the search ends with: one of the two failed lookups, the path it
      found (stops from start to end, and one route per hop), or no path. */
  datatype PathResult =
    | StartNotFound
    | EndNotFound
    | Found(stops: seq<StopName>, routes: seq<RouteId>)
    | NoPath

  /** One reported line `from --[route]--> to`. */
  datatype Hop = Hop(from: StopName, route: RouteId, to: StopName)

  /** The Python return value: `[]` after a failed lookup, otherwise `None`. */
  datatype Returned = EmptyList | NoneValue

  /** `stops` and `routes` walk the graph: one more stop than routes, and
      each route connects the stops on either side of it. */
  ghost predicate IsRoutePath(g: Graph, stops: seq<StopName>, routes: seq<RouteId>)
  {
    |stops| == |routes| + 1 &&
    forall i :: 0 <= i < |routes| ==> Linked(g, stops[i], stops[i + 1], routes[i])
  }

  ghost predicate IsPathBetween(g: Graph, a: StopName, b: StopName, stops: seq<StopName>, routes: seq<RouteId>)
  {
    IsRoutePath(g, stops, routes) && stops[0] == a && stops[|stops| - 1] == b
  }

  ghost predicate Reachable(g: Graph, a: StopName, b: StopName)
  {
    exists stops, routes :: IsPathBetween(g, a, b, stops, routes)
  }

  /** Every stop the search can ever hold: the keys and their neighbours. */
  ghost function Nodes(g: Graph): set<StopName>
  {
    g.Keys + set a, k | a in g && 0 <= k < |g[a]| :: g[a][k].stop
  }

  /** `subway_map.get(current_stop, [])`. */
  function Connections(g: Graph, s: StopName): (conns: seq<StopConnection>)
    ensures s !in g ==> conns == []
  {
    if s in g then g[s] else []
  }

  /** The connections looked up for `s` lead exactly along the edges of the graph out of `s`. */
  lemma ConnectionsLinked(g: Graph, s: StopName)
    ensures forall w, r :: Connects(Connections(g, s), w, r) <==> Linked(g, s, w, r)
  {
  }

  /** `routes_path[-1] if routes_path else None`. */
  function LastRoute(routes: seq<RouteId>): (last: Option<RouteId>)
    ensures last.Some? <==> routes != []
    ensures last.Some? ==> routes == routes[..|routes| - 1] + [last.value]
  {
    if routes == [] then None else Some(routes[|routes| - 1])
  }

  function HopCount(e: Entry): nat
  {
    |e.routesPath|
  }

  /** The entries appended for one connection of `e.current`, one per route
      in route-continuity order. */
  function EntriesFor(e: Entry, c: StopConnection): (entries: seq<Entry>)
    ensures |entries| == |c.routes|
    ensures forall m :: 0 <= m < |entries| ==>
              && entries[m].current == c.stop && entries[m].stopsPath == e.stopsPath + [e.current]
              && HopCount(entries[m]) == HopCount(e) + 1 && entries[m].routesPath[|e.routesPath|] in c.routes
  {
    var order := ContinuityOrder(c.routes, LastRoute(e.routesPath));
    assert |multiset(order)| == |multiset(c.routes)|;
    assert forall m :: 0 <= m < |order| ==> order[m] in multiset(c.routes);
    EntriesAlong(e, c.stop, order)
  }

  /** One entry for `next` per route of `order`, in that order. */
  function EntriesAlong(e: Entry, next: StopName, order: seq<RouteId>): (entries: seq<Entry>)
    ensures |entries| == |order|
    ensures forall m :: 0 <= m < |order| ==>
              && entries[m].current == next && entries[m].stopsPath == e.stopsPath + [e.current]
              && HopCount(entries[m]) == HopCount(e) + 1 && entries[m].routesPath[|e.routesPath|] == order[m]
  {
    seq(|order|, m requires 0 <= m < |order| => Entry(next, e.stopsPath + [e.current], e.routesPath + [order[m]]))
  }

  /** Everything appended when `e` is expanded, connection by connection. */
  function Expansion(e: Entry, conns: seq<StopConnection>): (added: seq<Entry>)
    ensures forall x :: x in added ==> x.stopsPath == e.stopsPath + [e.current] && HopCount(x) == HopCount(e) + 1
    decreases |conns|
  {
    if conns == [] then [] else Expansion(e, conns[..|conns| - 1]) + EntriesFor(e, conns[|conns| - 1])
  }

  /** The search loop as a recursive function: dequeue, test for the end
      stop, skip a visited stop, otherwise mark it and enqueue its
      neighbours. */
  function Search(g: Graph, stop: StopName, queue: seq<Entry>, visited: set<StopName>): (res: PathResult)
    ensures res.Found? || res.NoPath?
    decreases |Nodes(g) - visited|, |queue|
  {
    if queue == [] then NoPath
    else
      var e := queue[0];
      if e.current == stop then Found(e.stopsPath + [e.current], e.routesPath)
      else if e.current in visited then Search(g, stop, queue[1..], visited)
      else
        ExpansionShrinks(g, e, visited);
        Search(g, stop, queue[1..] + Expansion(e, Connections(g, e.current)), visited + {e.current})
  }

  /** The lookups, then the search from the start stop with nothing visited. */
  function PathSearch(g: Graph, start: StopName, stop: StopName): (res: PathResult)
    ensures res.StartNotFound? <==> start !in g
    ensures res.EndNotFound? <==> start in g && stop !in g
  {
    if start !in g then StartNotFound
    else if stop !in g then EndNotFound
    else Search(g, stop, [Entry(start, [], [])], {})
  }

  /** Expanding an unvisited stop either uses up one of the graph's stops,
      or the stop is unknown and nothing is enqueued. */
  lemma ExpansionShrinks(g: Graph, e: Entry, visited: set<StopName>)
    requires e.current !in visited
    ensures || |Nodes(g) - (visited + {e.current})| < |Nodes(g) - visited|
            || (Nodes(g) - (visited + {e.current}) == Nodes(g) - visited && Expansion(e, Connections(g, e.current)) == [])
  {
    MarkOne(Nodes(g), visited, e.current);
  }

  /** Marking `x` leaves fewer unmarked elements of `all` when `x` is one of them. */
  lemma MarkOne<T>(all: set<T>, marked: set<T>, x: T)
    requires x !in marked
    ensures x in all ==> |all - (marked + {x})| < |all - marked|
    ensures x !in all ==> all - (marked + {x}) == all - marked
  {
    if x in all {
      assert all - (marked + {x}) == (all - marked) - {x};
    }
  }

  // ---------------------------------------------------------------------
  // The search method

  /** `log_path_for_stops` up to its report: the lookups in order, then the
      FIFO loop over `path_traveled` with the `visited` set. */
  method FindPath(g: Graph, start: StopName, stop: StopName) returns (res: PathResult)
    ensures res == PathSearch(g, start, stop)
    ensures res == StartNotFound <==> start !in g
    ensures res == EndNotFound <==> start in g && stop !in g
  {
    if start !in g {
      return StartNotFound;
    }
    if stop !in g {
      return EndNotFound;
    }
    var visited: set<StopName> := {};
    var queue := [Entry(start, [], [])];
    while queue != []
      invariant Search(g, stop, queue, visited) == PathSearch(g, start, stop)
      decreases |Nodes(g) - visited|, |queue|
    {
      ghost var before, seen := queue, visited;
      var e := queue[0];
      queue := queue[1..];
      if e.current == stop {
        return Found(e.stopsPath + [e.current], e.routesPath);
      }
      if e.current in visited {
        continue;
      }
      ExpansionShrinks(g, e, visited);
      visited := visited + {e.current};
      var conns := Connections(g, e.current);
      queue := EnqueueNeighbours(queue, e, conns);
      assert Search(g, stop, before, seen) == Search(g, stop, queue, visited);
    }
    return NoPath;
  }

  /** The `for connection` loop and the `for route` loop inside it: append
      one entry per neighbour and route, routes in continuity order. */
  method EnqueueNeighbours(queue: seq<Entry>, e: Entry, conns: seq<StopConnection>) returns (queue': seq<Entry>)
    ensures queue' == queue + Expansion(e, conns)
  {
    queue' := queue;
    for k := 0 to |conns|
      invariant queue' == queue + Expansion(e, conns[..k])
    {
      var currentRoute := LastRoute(e.routesPath);
      var sortedRoutes := ContinuityOrder(conns[k].routes, currentRoute);
      queue' := EnqueueRoutes(queue', e, conns[k].stop, sortedRoutes);
      assert EntriesAlong(e, conns[k].stop, sortedRoutes) == EntriesFor(e, conns[k]);
      ExpansionSnoc(e, conns, k);
      AppendAssoc(queue, Expansion(e, conns[..k]), EntriesFor(e, conns[k]));
    }
    assert conns[..|conns|] == conns;
  }

  /** The `for route in sorted_routes` loop: one entry per route, in order. */
  method EnqueueRoutes(queue: seq<Entry>, e: Entry, next: StopName, order: seq<RouteId>) returns (queue': seq<Entry>)
    ensures queue' == queue + EntriesAlong(e, next, order)
  {
    queue' := queue;
    for m := 0 to |order|
      invariant queue' == queue + EntriesAlong(e, next, order[..m])
    {
      EntriesAlongSnoc(e, next, order, m);
      queue' := queue' + [Entry(next, e.stopsPath + [e.current], e.routesPath + [order[m]])];
    }
    assert order[..|order|] == order;
  }

  lemma AppendAssoc<T>(a: seq<T>, b: seq<T>, c: seq<T>)
    ensures a + (b + c) == (a + b) + c
  {
  }

  lemma EntriesAlongSnoc(e: Entry, next: StopName, order: seq<RouteId>, m: nat)
    requires m < |order|
    ensures EntriesAlong(e, next, order[..m + 1]) ==
            EntriesAlong(e, next, order[..m]) + [Entry(next, e.stopsPath + [e.current], e.routesPath + [order[m]])]
  {
  }

  lemma ExpansionSnoc(e: Entry, conns: seq<StopConnection>, k: nat)
    requires k < |conns|
    ensures Expansion(e, conns[..k + 1]) == Expansion(e, conns[..k]) + EntriesFor(e, conns[k])
  {
    assert conns[..k + 1][..k] == conns[..k];
  }

  /** `log_path_for_stops` as a whole: the value it returns and the hops it
      reports. */
  method LogPathForStops(g: Graph, start: StopName, stop: StopName) returns (returned: Returned, hops: seq<Hop>)
    ensures returned == EmptyList <==> start !in g || stop !in g
    ensures hops == ReportedHops(PathSearch(g, start, stop))
    ensures start == stop ==> hops == []
    ensures hops != [] ==> hops[0].from == start && hops[|hops| - 1].to == stop
    ensures forall i :: 0 <= i < |hops| ==> Linked(g, hops[i].from, hops[i].to, hops[i].route)
    ensures forall i :: 0 <= i < |hops| - 1 ==> hops[i].to == hops[i + 1].from
    ensures forall stops, routes :: hops != [] && IsPathBetween(g, start, stop, stops, routes) ==> |hops| <= |routes|
    ensures start in g && stop in g && start != stop ==> (hops != [] <==> Reachable(g, start, stop))
    ensures SubwayRepository.WellFormed(g) ==>
              forall i :: 0 < i < |hops| && Linked(g, hops[i].from, hops[i].to, hops[i - 1].route) ==>
                hops[i].route == hops[i - 1].route
  {
    ReportedHopsCorrect(g, start, stop);
    if SubwayRepository.WellFormed(g) {
      ReportedHopsStayOnRoute(g, start, stop);
    }
    var res := FindPath(g, start, stop);
    if res == StartNotFound || res == EndNotFound {
      return EmptyList, [];
    }
    if res.Found? {
      FoundShape(g, start, stop);
    }
    hops := ReportHops(res);
    returned := NoneValue;
  }

  /** The report loop: one hop per pair of consecutive stops of a found path. */
  method ReportHops(res: PathResult) returns (hops: seq<Hop>)
    requires res.Found? ==> |res.stops| == |res.routes| + 1
    ensures hops == ReportedHops(res)
  {
    hops := [];
    if res.Found? && res.routes != [] && res.stops != [] {
      var n := |res.stops| - 1;
      for i := 0 to n
        invariant hops == ReportedHops(res)[..i]
      {
        hops := hops + [Hop(res.stops[i], res.routes[i], res.stops[i + 1])];
      }
    }
  }

  /** The lines the report prints for a search result: one per hop of a
      found path with at least one hop, none otherwise. */
  function ReportedHops(res: PathResult): (hops: seq<Hop>)
    ensures !res.Found? ==> hops == []
    ensures hops != [] ==> res.Found? && res.stops != [] && hops[0].from == res.stops[0] && hops[|hops| - 1].to == res.stops[|res.stops| - 1]
    ensures forall i :: 0 <= i < |hops| - 1 ==> hops[i].to == hops[i + 1].from
    ensures res.Found? ==> |hops| <= |res.routes|
  {
    if res.Found? && res.routes != [] && res.stops != [] && |res.stops| - 1 <= |res.routes| then
      seq(|res.stops| - 1, i requires 0 <= i < |res.stops| - 1 => Hop(res.stops[i], res.routes[i], res.stops[i + 1]))
    else
      []
  }

  lemma FoundShape(g: Graph, start: StopName, stop: StopName)
    requires PathSearch(g, start, stop).Found?
    ensures |PathSearch(g, start, stop).stops| == |PathSearch(g, start, stop).routes| + 1
  {
    PathSearchCorrect(g, start, stop);
  }

  /** The reported hops chain from `start` to `stop` along edges of the graph,
      there are no more of them than any path has, and there are some exactly
      when the two stops differ and are connected. */
  lemma ReportedHopsCorrect(g: Graph, start: StopName, stop: StopName)
    ensures var hops := ReportedHops(PathSearch(g, start, stop));
      && (start == stop ==> hops == [])
      && (hops != [] ==> hops[0].from == start && hops[|hops| - 1].to == stop)
      && (forall i :: 0 <= i < |hops| ==> Linked(g, hops[i].from, hops[i].to, hops[i].route))
      && (forall i :: 0 <= i < |hops| - 1 ==> hops[i].to == hops[i + 1].from)
      && (forall stops, routes :: hops != [] && IsPathBetween(g, start, stop, stops, routes) ==> |hops| <= |routes|)
      && (start in g && stop in g && start != stop ==> (hops != [] <==> Reachable(g, start, stop)))
  {
    var res := PathSearch(g, start, stop);
    var hops := ReportedHops(res);
    if start in g && stop in g {
      PathSearchCorrect(g, start, stop);
      if start == stop {
        SameStopFound(g, start);
      }
      if res.Found? {
        assert IsPathBetween(g, start, stop, res.stops, res.routes);
        forall i | 0 <= i < |hops| ensures Linked(g, hops[i].from, hops[i].to, hops[i].route) {
          assert Linked(g, res.stops[i], res.stops[i + 1], res.routes[i]);
        }
        if start != stop {
          assert res.routes != [];
        }
      }
    }
  }

  // ---------------------------------------------------------------------
  // What the search promises

  /** A found path leads from `start` to `stop` and no path has fewer hops;
      no path found means `stop` cannot be reached. */
  ghost predicate Answers(g: Graph, start: StopName, stop: StopName, res: PathResult)
  {
    && (res.Found? || res.NoPath?)
    && (res.Found? ==>
          && IsPathBetween(g, start, stop, res.stops, res.routes)
          && forall stops, routes :: IsPathBetween(g, start, stop, stops, routes) ==> |res.routes| <= |routes|)
    && (res.NoPath? ==> !Reachable(g, start, stop))
  }

  /** Start and end the same: the first dequeued entry matches, with no hops. */
  lemma SameStopFound(g: Graph, s: StopName)
    requires s in g
    ensures PathSearch(g, s, s) == Found([s], [])
  {
  }

  lemma PathSearchCorrect(g: Graph, start: StopName, stop: StopName)
    requires start in g && stop in g
    ensures Answers(g, start, stop, PathSearch(g, start, stop))
  {
    var init := Entry(start, [], []);
    var noDepth: map<StopName, nat> := map[];
    assert noDepth.Keys == {};
    assert IsPathBetween(g, start, start, init.stopsPath + [init.current], init.routesPath);
    assert SearchState(g, start, stop, [init], noDepth);
    SearchCorrect(g, start, stop, [init], noDepth);
  }

  // ---------------------------------------------------------------------
  // The breadth-first invariant. `depth` maps each visited stop to the hop
  // count of the entry that expanded it.

  /** `e` holds a path from `start` to its current stop. */
  ghost predicate EntryValid(g: Graph, start: StopName, e: Entry)
  {
    |e.stopsPath| == |e.routesPath| &&
    IsPathBetween(g, start, e.current, e.stopsPath + [e.current], e.routesPath)
  }

  ghost predicate QueueValid(g: Graph, start: StopName, q: seq<Entry>)
  {
    forall i :: 0 <= i < |q| ==> EntryValid(g, start, q[i]) && q[i].current in Nodes(g)
  }

  /** Hop counts never fall along the queue and span at most two values. */
  ghost predicate QueueLevels(q: seq<Entry>)
  {
    forall i, j :: 0 <= i < j < |q| ==> HopCount(q[i]) <= HopCount(q[j]) <= HopCount(q[i]) + 1
  }

  /** A visited stop was expanded at its distance from `start`. */
  ghost predicate DepthsMinimal(g: Graph, start: StopName, depth: map<StopName, nat>)
  {
    forall v, stops, routes :: v in depth && IsPathBetween(g, start, v, stops, routes) ==> depth[v] <= |routes|
  }

  /** Every edge out of the visited region has an entry for its far end, at
      most one hop deeper than the stop it leaves. */
  ghost predicate FrontierCovered(g: Graph, q: seq<Entry>, depth: map<StopName, nat>)
  {
    forall v, w, r :: v in depth && w !in depth && Linked(g, v, w, r) ==>
      exists i :: 0 <= i < |q| && q[i].current == w && HopCount(q[i]) <= depth[v] + 1
  }

  /** The start has been expanded, or nothing has happened yet. */
  ghost predicate Started(g: Graph, start: StopName, stop: StopName, q: seq<Entry>, depth: map<StopName, nat>)
  {
    && start in g && stop !in depth && depth.Keys <= Nodes(g)
    && (start in depth || (q == [Entry(start, [], [])] && depth == map[]))
  }

  ghost predicate SearchState(g: Graph, start: StopName, stop: StopName, q: seq<Entry>, depth: map<StopName, nat>)
  {
    && Started(g, start, stop, q, depth)
    && QueueValid(g, start, q)
    && QueueLevels(q)
    && DepthsMinimal(g, start, depth)
    && FrontierCovered(g, q, depth)
  }

  lemma {:induction false} SearchCorrect(g: Graph, start: StopName, stop: StopName, q: seq<Entry>,
                                         depth: map<StopName, nat>)
    requires SearchState(g, start, stop, q, depth)
    ensures Answers(g, start, stop, Search(g, stop, q, depth.Keys))
    decreases |Nodes(g) - depth.Keys|, |q|
  {
    if q == [] {
      EmptyQueueAnswers(g, start, stop, q, depth);
    } else {
      var e := q[0];
      if e.current == stop {
        GoalAnswers(g, start, stop, q, depth);
      } else if e.current in depth {
        SkipPreserves(g, start, stop, q, depth);
        SearchCorrect(g, start, stop, q[1..], depth);
      } else {
        var q', depth' := ExpandStep(g, start, stop, q, depth);
        SearchCorrect(g, start, stop, q', depth');
      }
    }
  }

  /** One expansion: the state after it satisfies the invariant, the search
      goes on from it, and it has marked one more of the graph's stops or
      enqueued nothing. */
  lemma ExpandStep(g: Graph, start: StopName, stop: StopName, q: seq<Entry>, depth: map<StopName, nat>)
    returns (q': seq<Entry>, depth': map<StopName, nat>)
    requires SearchState(g, start, stop, q, depth) && q != []
    requires q[0].current != stop && q[0].current !in depth
    ensures SearchState(g, start, stop, q', depth')
    ensures Search(g, stop, q', depth'.Keys) == Search(g, stop, q, depth.Keys)
    ensures || |Nodes(g) - depth'.Keys| < |Nodes(g) - depth.Keys|
            || (|Nodes(g) - depth'.Keys| == |Nodes(g) - depth.Keys| && |q'| < |q|)
  {
    var e := q[0];
    var v := e.current;
    ExpandPreserves(g, start, stop, q, depth);
    q', depth' := q[1..] + Expansion(e, Connections(g, v)), depth[v := HopCount(e)];
    assert depth'.Keys == depth.Keys + {v};
    ExpansionShrinks(g, e, depth.Keys);
  }

  /** An empty queue means the end stop cannot be reached. */
  lemma EmptyQueueAnswers(g: Graph, start: StopName, stop: StopName, q: seq<Entry>, depth: map<StopName, nat>)
    requires SearchState(g, start, stop, q, depth) && q == []
    ensures Answers(g, start, stop, NoPath)
  {
    NoShortcut(g, start, stop, q, depth, stop);
  }

  /** The head of the queue at the end stop holds a shortest path. */
  lemma GoalAnswers(g: Graph, start: StopName, stop: StopName, q: seq<Entry>, depth: map<StopName, nat>)
    requires SearchState(g, start, stop, q, depth) && q != [] && q[0].current == stop
    ensures Answers(g, start, stop, Found(q[0].stopsPath + [q[0].current], q[0].routesPath))
  {
    NoShortcut(g, start, stop, q, depth, stop);
    assert EntryValid(g, start, q[0]);
  }

  /** No unvisited stop is nearer to `start` than the head of the queue. */
  lemma NoShortcut(g: Graph, start: StopName, stop: StopName, q: seq<Entry>, depth: map<StopName, nat>,
                   x: StopName)
    requires SearchState(g, start, stop, q, depth) && x !in depth
    ensures forall stops, routes :: IsPathBetween(g, start, x, stops, routes) ==>
              q != [] && HopCount(q[0]) <= |routes|
  {
    forall stops, routes | IsPathBetween(g, start, x, stops, routes)
      ensures q != [] && HopCount(q[0]) <= |routes|
    {
      NoShortcutAlong(g, start, stop, q, depth, x, stops, routes);
    }
  }

  lemma {:induction false} NoShortcutAlong(g: Graph, start: StopName, stop: StopName, q: seq<Entry>,
                                           depth: map<StopName, nat>, x: StopName,
                                           stops: seq<StopName>, routes: seq<RouteId>)
    requires SearchState(g, start, stop, q, depth)
    requires IsPathBetween(g, start, x, stops, routes) && x !in depth
    ensures q != [] && HopCount(q[0]) <= |routes|
    decreases |routes|
  {
    var n := |routes|;
    if n > 0 {
      var p := stops[n - 1];
      var prefix, prefixRoutes := stops[..n], routes[..n - 1];
      assert IsPathBetween(g, start, p, prefix, prefixRoutes) by {
        forall i | 0 <= i < |prefixRoutes|
          ensures Linked(g, prefix[i], prefix[i + 1], prefixRoutes[i])
        {
          assert Linked(g, stops[i], stops[i + 1], routes[i]);
        }
      }
      assert Linked(g, p, stops[n], routes[n - 1]);
      if p in depth {
        assert depth[p] <= n - 1;
        var i :| 0 <= i < |q| && q[i].current == stops[n] && HopCount(q[i]) <= depth[p] + 1;
        assert HopCount(q[0]) <= HopCount(q[i]) by {
          if i > 0 { assert HopCount(q[0]) <= HopCount(q[i]); }
        }
      } else {
        NoShortcutAlong(g, start, stop, q, depth, p, prefix, prefixRoutes);
      }
    }
  }

  lemma SkipPreserves(g: Graph, start: StopName, stop: StopName, q: seq<Entry>, depth: map<StopName, nat>)
    requires SearchState(g, start, stop, q, depth) && q != [] && q[0].current in depth
    ensures SearchState(g, start, stop, q[1..], depth)
  {
    forall v, w, r | v in depth && w !in depth && Linked(g, v, w, r)
      ensures exists i :: 0 <= i < |q[1..]| && q[1..][i].current == w && HopCount(q[1..][i]) <= depth[v] + 1
    {
      var i :| 0 <= i < |q| && q[i].current == w && HopCount(q[i]) <= depth[v] + 1;
      assert q[1..][i - 1] == q[i];
    }
  }

  lemma ExpandPreserves(g: Graph, start: StopName, stop: StopName, q: seq<Entry>, depth: map<StopName, nat>)
    requires SearchState(g, start, stop, q, depth) && q != []
    requires q[0].current != stop && q[0].current !in depth
    ensures SearchState(g, start, stop, q[1..] + Expansion(q[0], Connections(g, q[0].current)),
                        depth[q[0].current := HopCount(q[0])])
  {
    var e := q[0];
    var v := e.current;
    var conns := Connections(g, v);
    var added := Expansion(e, conns);
    var q' := q[1..] + added;
    var depth' := depth[v := HopCount(e)];
    ExpansionSound(e, conns);
    ExpansionComplete(e, conns);
    ExpandValid(g, start, q, conns, added);
    ExpandLevels(q, added);
    NoShortcut(g, start, stop, q, depth, v);
    assert DepthsMinimal(g, start, depth');
    ExpandFrontier(g, q, depth, added);
  }

  lemma ExpandValid(g: Graph, start: StopName, q: seq<Entry>, conns: seq<StopConnection>, added: seq<Entry>)
    requires QueueValid(g, start, q) && q != []
    requires conns == Connections(g, q[0].current)
    requires forall x :: x in added ==> StepEntry(q[0], conns, x)
    ensures QueueValid(g, start, q[1..] + added)
  {
    var e := q[0];
    var q' := q[1..] + added;
    forall i | 0 <= i < |q'| ensures EntryValid(g, start, q'[i]) && q'[i].current in Nodes(g) {
      if i < |q| - 1 {
        assert q'[i] == q[i + 1];
      } else {
        var x := q'[i];
        assert x in added;
        var r := x.routesPath[|e.routesPath|];
        var k :| 0 <= k < |conns| && conns[k].stop == x.current && r in conns[k].routes;
        assert e.current in g && conns == g[e.current];
        assert x.current in Nodes(g);
        ExtendEntry(g, start, e, x.current, r);
      }
    }
  }

  /** Riding route `r` from the stop of a valid entry gives a valid entry. */
  lemma ExtendEntry(g: Graph, start: StopName, e: Entry, w: StopName, r: RouteId)
    requires EntryValid(g, start, e) && Linked(g, e.current, w, r)
    ensures EntryValid(g, start, Entry(w, e.stopsPath + [e.current], e.routesPath + [r]))
  {
    var stops := e.stopsPath + [e.current];
    var stops' := stops + [w];
    var routes' := e.routesPath + [r];
    forall i | 0 <= i < |routes'| ensures Linked(g, stops'[i], stops'[i + 1], routes'[i]) {
      if i < |e.routesPath| {
        assert stops'[i] == stops[i] && stops'[i + 1] == stops[i + 1] && routes'[i] == e.routesPath[i];
      }
    }
  }

  lemma ExpandLevels(q: seq<Entry>, added: seq<Entry>)
    requires QueueLevels(q) && q != []
    requires forall x :: x in added ==> HopCount(x) == HopCount(q[0]) + 1
    ensures QueueLevels(q[1..] + added)
  {
    var q' := q[1..] + added;
    forall i, j | 0 <= i < j < |q'| ensures HopCount(q'[i]) <= HopCount(q'[j]) <= HopCount(q'[i]) + 1 {
      if j < |q| - 1 {
        assert q'[i] == q[i + 1] && q'[j] == q[j + 1];
      } else if i < |q| - 1 {
        assert q'[i] == q[i + 1] && q'[j] in added;
        assert HopCount(q[0]) <= HopCount(q[i + 1]);
      } else {
        assert q'[i] in added && q'[j] in added;
      }
    }
  }

  lemma ExpandFrontier(g: Graph, q: seq<Entry>, depth: map<StopName, nat>, added: seq<Entry>)
    requires FrontierCovered(g, q, depth) && q != [] && q[0].current !in depth
    requires forall w, r :: Linked(g, q[0].current, w, r) ==>
               Entry(w, q[0].stopsPath + [q[0].current], q[0].routesPath + [r]) in added
    ensures FrontierCovered(g, q[1..] + added, depth[q[0].current := HopCount(q[0])])
  {
    var e := q[0];
    var v := e.current;
    var q' := q[1..] + added;
    var depth' := depth[v := HopCount(e)];
    forall u, w, r | u in depth' && w !in depth' && Linked(g, u, w, r)
      ensures exists i :: 0 <= i < |q'| && q'[i].current == w && HopCount(q'[i]) <= depth'[u] + 1
    {
      if u == v {
        var x := Entry(w, e.stopsPath + [e.current], e.routesPath + [r]);
        var i :| 0 <= i < |added| && added[i] == x;
        assert q'[|q| - 1 + i] == x;
      } else {
        var i :| 0 <= i < |q| && q[i].current == w && HopCount(q[i]) <= depth[u] + 1;
        assert q'[i - 1] == q[i];
      }
    }
  }

  // ---------------------------------------------------------------------
  // What one expansion enqueues

  /** `x` is `e` extended by one hop along a connection in `conns`. */
  ghost predicate StepEntry(e: Entry, conns: seq<StopConnection>, x: Entry)
  {
    && x.stopsPath == e.stopsPath + [e.current]
    && |x.routesPath| == |e.routesPath| + 1
    && x.routesPath == e.routesPath + [x.routesPath[|e.routesPath|]]
    && Connects(conns, x.current, x.routesPath[|e.routesPath|])
  }

  /** Expanding `e` enqueues only one-hop extensions of it along its connections. */
  lemma {:induction false} ExpansionSound(e: Entry, conns: seq<StopConnection>)
    ensures forall x :: x in Expansion(e, conns) ==> StepEntry(e, conns, x) && HopCount(x) == HopCount(e) + 1
    decreases |conns|
  {
    if conns != [] {
      var init, c := conns[..|conns| - 1], conns[|conns| - 1];
      assert conns == init + [c];
      ExpansionSound(e, init);
      var entries := EntriesFor(e, c);
      var order := ContinuityOrder(c.routes, LastRoute(e.routesPath));
      forall x | x in Expansion(e, conns) ensures StepEntry(e, conns, x) && HopCount(x) == HopCount(e) + 1 {
        if x in Expansion(e, init) {
          assert StepEntry(e, init, x);
          ConnectsSnoc(init, c, x.current, x.routesPath[|e.routesPath|]);
        } else {
          var m :| 0 <= m < |entries| && entries[m] == x;
          assert order[m] in multiset(c.routes);
          ConnectsSnoc(init, c, x.current, order[m]);
        }
      }
    }
  }

  /** Expanding `e` enqueues an entry for every (neighbour, route) pair of its connections. */
  lemma {:induction false} ExpansionComplete(e: Entry, conns: seq<StopConnection>)
    ensures forall w, r :: Connects(conns, w, r) ==> Entry(w, e.stopsPath + [e.current], e.routesPath + [r]) in Expansion(e, conns)
    decreases |conns|
  {
    if conns != [] {
      var init, c := conns[..|conns| - 1], conns[|conns| - 1];
      assert conns == init + [c];
      ExpansionComplete(e, init);
      var entries := EntriesFor(e, c);
      var order := ContinuityOrder(c.routes, LastRoute(e.routesPath));
      forall w, r | Connects(conns, w, r)
        ensures Entry(w, e.stopsPath + [e.current], e.routesPath + [r]) in Expansion(e, conns)
      {
        ConnectsSnoc(init, c, w, r);
        if !Connects(init, w, r) {
          assert r in multiset(order);
          var m :| 0 <= m < |order| && order[m] == r;
          assert entries[m] == Entry(w, e.stopsPath + [e.current], e.routesPath + [r]);
        }
      }
    }
  }

  lemma ConnectsSnoc(init: seq<StopConnection>, c: StopConnection, w: StopName, r: RouteId)
    ensures Connects(init + [c], w, r) <==> Connects(init, w, r) || (c.stop == w && r in c.routes)
  {
    var s := init + [c];
    if Connects(init, w, r) {
      var k :| 0 <= k < |init| && init[k].stop == w && r in init[k].routes;
      assert s[k] == init[k];
    }
    if c.stop == w && r in c.routes {
      assert s[|init|] == c;
    }
    if Connects(s, w, r) {
      var k :| 0 <= k < |s| && s[k].stop == w && r in s[k].routes;
      if k < |init| { assert init[k] == s[k]; }
    }
  }

  /** When the edge carries the route `e` arrived by, the first entry for it
      rides on along that route. */
  lemma EntriesArrivalFirst(e: Entry, c: StopConnection)
    requires LastRoute(e.routesPath).Some? && LastRoute(e.routesPath).value in c.routes
    ensures EntriesFor(e, c) != []
    ensures EntriesFor(e, c)[0].routesPath == e.routesPath + [LastRoute(e.routesPath).value]
  {
    ArrivalRouteFirst(c.routes, LastRoute(e.routesPath));
  }

  /** After any entry that does not ride on, the entries for one connection
      take the other routes in ascending order. */
  lemma EntriesTieBreak(e: Entry, c: StopConnection, i: nat, j: nat)
    requires i < j < |EntriesFor(e, c)|
    ensures var ri, rj := EntriesFor(e, c)[i].routesPath[|e.routesPath|], EntriesFor(e, c)[j].routesPath[|e.routesPath|];
            !Arrival(ri, LastRoute(e.routesPath)) ==> !Arrival(rj, LastRoute(e.routesPath)) && LexLe(ri, rj)
  {
    var current := LastRoute(e.routesPath);
    var order := ContinuityOrder(c.routes, current);
    if !Arrival(order[i], current) {
      OthersAscending(c.routes, current, i, j);
    }
  }

  // ---------------------------------------------------------------------
  // Route continuity along the found path. Every stop on the found path is
  // reached by the first entry ever enqueued for it, so each hop rides the
  // route tried first from the stop before it.

  /** `conns[idx]` is the first connection to `w` that carries a route, the
      one whose entries for `w` an expansion appends first. */
  ghost predicate FirstConnectionTo(conns: seq<StopConnection>, w: StopName, idx: int)
  {
    && 0 <= idx < |conns| && conns[idx].stop == w && conns[idx].routes != []
    && forall k :: 0 <= k < idx ==> !(conns[k].stop == w && conns[k].routes != [])
  }

  /** `r` is the route tried first towards `w` after arriving by `current`:
      the head of the continuity order of the first connection to `w`. */
  ghost predicate PreferredStep(conns: seq<StopConnection>, w: StopName, current: Option<RouteId>, r: RouteId)
  {
    exists idx :: FirstConnectionTo(conns, w, idx) && r == ContinuityOrder(conns[idx].routes, current)[0]
  }

  /** Every hop of the path rides the route tried first from the stop before
      it, given the route of the hop before. */
  ghost predicate KeepsRoute(g: Graph, stops: seq<StopName>, routes: seq<RouteId>)
  {
    |stops| == |routes| + 1 &&
    forall k :: 0 <= k < |routes| ==>
      PreferredStep(Connections(g, stops[k]), stops[k + 1], LastRoute(routes[..k]), routes[k])
  }

  /** `q[i]` is the first entry of `q` at its stop. */
  ghost predicate FirstAt(q: seq<Entry>, i: int)
  {
    0 <= i < |q| && forall j :: 0 <= j < i ==> q[j].current != q[i].current
  }

  /** The first entry queued for each unvisited stop holds a path that keeps
      to the preferred routes. */
  ghost predicate FirstEntriesKeepRoute(g: Graph, q: seq<Entry>, visited: set<StopName>)
  {
    forall i :: FirstAt(q, i) && q[i].current !in visited ==>
      KeepsRoute(g, q[i].stopsPath + [q[i].current], q[i].routesPath)
  }

  /** The path the search finds keeps to the preferred route at every hop. */
  lemma FoundKeepsRoute(g: Graph, start: StopName, stop: StopName)
    requires PathSearch(g, start, stop).Found?
    ensures KeepsRoute(g, PathSearch(g, start, stop).stops, PathSearch(g, start, stop).routes)
  {
    var init := Entry(start, [], []);
    assert FirstEntriesKeepRoute(g, [init], {}) by {
      assert KeepsRoute(g, init.stopsPath + [init.current], init.routesPath);
    }
    SearchKeepsRoute(g, stop, [init], {});
  }

  lemma {:induction false} SearchKeepsRoute(g: Graph, stop: StopName, q: seq<Entry>, visited: set<StopName>)
    requires stop !in visited && FirstEntriesKeepRoute(g, q, visited)
    ensures var res := Search(g, stop, q, visited); res.Found? ==> KeepsRoute(g, res.stops, res.routes)
    decreases |Nodes(g) - visited|, |q|
  {
    if q != [] {
      var e := q[0];
      assert FirstAt(q, 0);
      if e.current != stop {
        if e.current in visited {
          SkipKeepsRoute(g, q, visited);
          SearchKeepsRoute(g, stop, q[1..], visited);
        } else {
          ExpandKeepsRoute(g, q, visited);
          ExpansionShrinks(g, e, visited);
          SearchKeepsRoute(g, stop, q[1..] + Expansion(e, Connections(g, e.current)), visited + {e.current});
        }
      }
    }
  }

  lemma SkipKeepsRoute(g: Graph, q: seq<Entry>, visited: set<StopName>)
    requires FirstEntriesKeepRoute(g, q, visited) && q != [] && q[0].current in visited
    ensures FirstEntriesKeepRoute(g, q[1..], visited)
  {
    forall i | FirstAt(q[1..], i) && q[1..][i].current !in visited
      ensures KeepsRoute(g, q[1..][i].stopsPath + [q[1..][i].current], q[1..][i].routesPath)
    {
      assert q[1..][i] == q[i + 1];
      assert FirstAt(q, i + 1) by {
        forall j | 0 <= j < i + 1 ensures q[j].current != q[i + 1].current {
          if j > 0 { assert q[j] == q[1..][j - 1]; }
        }
      }
    }
  }

  lemma ExpandKeepsRoute(g: Graph, q: seq<Entry>, visited: set<StopName>)
    requires FirstEntriesKeepRoute(g, q, visited) && q != [] && q[0].current !in visited
    ensures FirstEntriesKeepRoute(g, q[1..] + Expansion(q[0], Connections(g, q[0].current)), visited + {q[0].current})
  {
    var e := q[0];
    var conns := Connections(g, e.current);
    var added := Expansion(e, conns);
    var q' := q[1..] + added;
    var visited' := visited + {e.current};
    assert FirstAt(q, 0);
    forall i | FirstAt(q', i) && q'[i].current !in visited'
      ensures KeepsRoute(g, q'[i].stopsPath + [q'[i].current], q'[i].routesPath)
    {
      if i < |q| - 1 {
        FirstAtAfterHead(q, added, i);
      } else {
        FirstAtBack(q[1..], added, i);
        ExpansionFirst(e, conns, i - (|q| - 1));
        KeepsRouteSnoc(g, e, q'[i]);
      }
    }
  }

  /** An entry first at its stop after the head is dequeued was first before,
      unless it shares the head's stop. */
  lemma FirstAtAfterHead(q: seq<Entry>, added: seq<Entry>, i: nat)
    requires q != [] && i < |q| - 1 && FirstAt(q[1..] + added, i)
    requires q[0].current != (q[1..] + added)[i].current
    ensures (q[1..] + added)[i] == q[i + 1] && FirstAt(q, i + 1)
  {
    var q' := q[1..] + added;
    forall j | 0 <= j < i + 1 ensures q[j].current != q[i + 1].current {
      if j > 0 { assert q[j] == q'[j - 1]; }
    }
  }

  /** An entry of the back part first in the whole queue is first in the back part. */
  lemma FirstAtBack(front: seq<Entry>, back: seq<Entry>, i: nat)
    requires |front| <= i && FirstAt(front + back, i)
    ensures (front + back)[i] == back[i - |front|] && FirstAt(back, i - |front|)
  {
    var m := i - |front|;
    forall j | 0 <= j < m ensures back[j].current != back[m].current {
      assert back[j] == (front + back)[|front| + j];
    }
  }

  /** An entry of the front part first in the whole queue is first in the front part. */
  lemma FirstAtFront(front: seq<Entry>, back: seq<Entry>, i: nat)
    requires i < |front| && FirstAt(front + back, i)
    ensures (front + back)[i] == front[i] && FirstAt(front, i)
  {
    forall j | 0 <= j < i ensures front[j].current != front[i].current {
      assert front[j] == (front + back)[j];
    }
  }

  /** Riding on from a path that keeps to the preferred routes along the
      preferred step keeps to them. */
  lemma KeepsRouteSnoc(g: Graph, e: Entry, x: Entry)
    requires KeepsRoute(g, e.stopsPath + [e.current], e.routesPath)
    requires x.stopsPath == e.stopsPath + [e.current] && |x.routesPath| == |e.routesPath| + 1
    requires x.routesPath == e.routesPath + [x.routesPath[|e.routesPath|]]
    requires PreferredStep(Connections(g, e.current), x.current, LastRoute(e.routesPath), x.routesPath[|e.routesPath|])
    ensures KeepsRoute(g, x.stopsPath + [x.current], x.routesPath)
  {
    var stops := e.stopsPath + [e.current];
    var stops' := x.stopsPath + [x.current];
    var routes' := x.routesPath;
    forall k | 0 <= k < |routes'|
      ensures PreferredStep(Connections(g, stops'[k]), stops'[k + 1], LastRoute(routes'[..k]), routes'[k])
    {
      if k < |e.routesPath| {
        assert stops'[k] == stops[k] && stops'[k + 1] == stops[k + 1];
        assert routes'[..k] == e.routesPath[..k] && routes'[k] == e.routesPath[k];
      } else {
        assert stops'[k] == e.current && stops'[k + 1] == x.current && routes'[..k] == e.routesPath;
      }
    }
  }

  /** `x` extends `e` by one hop, taking the preferred step along `conns`. */
  ghost predicate PreferredExtension(e: Entry, conns: seq<StopConnection>, x: Entry)
  {
    && x.stopsPath == e.stopsPath + [e.current] && |x.routesPath| == |e.routesPath| + 1
    && x.routesPath == e.routesPath + [x.routesPath[|e.routesPath|]]
    && PreferredStep(conns, x.current, LastRoute(e.routesPath), x.routesPath[|e.routesPath|])
  }

  /** The first entry an expansion appends for a stop takes the preferred
      step towards it. */
  lemma {:induction false} ExpansionFirst(e: Entry, conns: seq<StopConnection>, m: nat)
    requires FirstAt(Expansion(e, conns), m)
    ensures PreferredExtension(e, conns, Expansion(e, conns)[m])
    decreases |conns|
  {
    var init, c := conns[..|conns| - 1], conns[|conns| - 1];
    var front, entries := Expansion(e, init), EntriesFor(e, c);
    assert conns == init + [c];
    ExpansionLast(e, init, c);
    if m < |front| {
      FirstAtFront(front, entries, m);
      ExpansionFirst(e, init, m);
      PreferredExtensionSnoc(e, init, c, front[m]);
    } else {
      ExpansionFirstNew(e, init, c, m);
    }
  }

  lemma ExpansionLast(e: Entry, init: seq<StopConnection>, c: StopConnection)
    ensures Expansion(e, init + [c]) == Expansion(e, init) + EntriesFor(e, c)
  {
    assert (init + [c])[..|init|] == init;
  }

  /** A preferred step stays preferred when a connection is appended. */
  lemma PreferredExtensionSnoc(e: Entry, init: seq<StopConnection>, c: StopConnection, x: Entry)
    requires PreferredExtension(e, init, x)
    ensures PreferredExtension(e, init + [c], x)
  {
    var conns := init + [c];
    var w, current, r := x.current, LastRoute(e.routesPath), x.routesPath[|e.routesPath|];
    var idx :| FirstConnectionTo(init, w, idx) && r == ContinuityOrder(init[idx].routes, current)[0];
    assert conns[idx] == init[idx];
    assert FirstConnectionTo(conns, w, idx) by {
      forall k | 0 <= k < idx ensures !(conns[k].stop == w && conns[k].routes != []) {
        assert conns[k] == init[k];
      }
    }
  }

  /** The first entry for a stop that only the last connection leads to is
      the head of that connection's continuity order. */
  lemma ExpansionFirstNew(e: Entry, init: seq<StopConnection>, c: StopConnection, m: nat)
    requires |Expansion(e, init)| <= m && FirstAt(Expansion(e, init) + EntriesFor(e, c), m)
    ensures PreferredExtension(e, init + [c], (Expansion(e, init) + EntriesFor(e, c))[m])
  {
    var front := Expansion(e, init);
    var all := front + EntriesFor(e, c);
    var conns := init + [c];
    var order := ContinuityOrder(c.routes, LastRoute(e.routesPath));
    assert all[|front|] == EntriesFor(e, c)[0];
    assert m == |front|;
    assert |order| == |c.routes| by {
      assert |multiset(order)| == |multiset(c.routes)|;
    }
    ExpansionComplete(e, init);
    forall k | 0 <= k < |init| && conns[k].routes != [] ensures conns[k].stop != c.stop {
      var r := conns[k].routes[0];
      assert init[k] == conns[k];
      assert Connects(init, conns[k].stop, r);
      var y := Entry(conns[k].stop, e.stopsPath + [e.current], e.routesPath + [r]);
      var j :| 0 <= j < |front| && front[j] == y;
      assert all[j] == y;
    }
    assert conns[|init|] == c;
    assert FirstConnectionTo(conns, c.stop, |init|);
  }

  /** On a graph with one connection per neighbour: whenever the next edge of
      the reported path carries the route the path is on, the path stays on
      that route. */
  lemma ReportedHopsStayOnRoute(g: Graph, start: StopName, stop: StopName)
    requires SubwayRepository.WellFormed(g)
    ensures var hops := ReportedHops(PathSearch(g, start, stop));
      forall i :: 0 < i < |hops| && Linked(g, hops[i].from, hops[i].to, hops[i - 1].route) ==>
        hops[i].route == hops[i - 1].route
  {
    var res := PathSearch(g, start, stop);
    var hops := ReportedHops(res);
    if hops != [] {
      FoundShape(g, start, stop);
      FoundKeepsRoute(g, start, stop);
      forall i | 0 < i < |hops| && Linked(g, hops[i].from, hops[i].to, hops[i - 1].route)
        ensures hops[i].route == hops[i - 1].route
      {
        assert LastRoute(res.routes[..i]) == Some(res.routes[i - 1]);
        StaysOnRoute(g, res.stops[i], res.stops[i + 1], res.routes[i - 1], res.routes[i]);
      }
    }
  }

  /** On a graph with one connection per neighbour, the preferred step
      from `a` to `w` after arriving by `prev` is `prev` itself whenever the
      edge carries it. */
  lemma StaysOnRoute(g: Graph, a: StopName, w: StopName, prev: RouteId, r: RouteId)
    requires SubwayRepository.WellFormed(g) && Linked(g, a, w, prev)
    requires PreferredStep(Connections(g, a), w, Some(prev), r)
    ensures r == prev
  {
    var conns := Connections(g, a);
    var idx :| FirstConnectionTo(conns, w, idx) && r == ContinuityOrder(conns[idx].routes, Some(prev))[0];
    var j :| 0 <= j < |conns| && conns[j].stop == w && prev in conns[j].routes;
    assert SubwayRepository.ConnectionsWellFormed(g[a], a);
    assert j == idx;
    ArrivalRouteFirst(conns[idx].routes, Some(prev));
  }
}
