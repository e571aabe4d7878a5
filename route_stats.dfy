/** Question two of the service (main/services.py:46-89): stop counts per
    route, every route tied for the most and for the fewest stops, and the
    stops served by more than one route. */
module RouteStats {
  import opened SubwayModels

  datatype StopStats = StopStats(
    maxStops: nat,
    mostStopsRoutes: set<RouteId>,
    minStops: nat,
    fewestStopsRoutes: set<RouteId>,
    connectingStops: map<StopName, set<RouteId>>)

  /** `max()` of an empty sequence raises ValueError when there are no routes. */
  datatype StatsError = NoRoutes

  /** The names that some route's stop list contains. */
  ghost function ListedStops(rs: RouteStops): set<StopName>
  {
    set r, s | r in rs && s in StopNames(rs[r]) :: s
  }

  /** The distinct routes whose stop list contains `s`. */
  ghost function RoutesServing(rs: RouteStops, s: StopName): set<RouteId>
  {
    set r | r in rs && s in StopNames(rs[r])
  }

  /** Transfer stations: stops listed by more than one distinct route, with those routes. */
  ghost function TransferStations(rs: RouteStops): map<StopName, set<RouteId>>
  {
    map s | s in ListedStops(rs) && |RoutesServing(rs, s)| > 1 :: RoutesServing(rs, s)
  }

  /** `max(route_lengths.values())` and `min(...)` over a non-empty table. */
  method Extremes(lengths: map<RouteId, nat>) returns (maxCount: nat, minCount: nat)
    requires lengths != map[]
    ensures exists r :: r in lengths && lengths[r] == maxCount
    ensures exists r :: r in lengths && lengths[r] == minCount
    ensures forall r :: r in lengths ==> minCount <= lengths[r] <= maxCount
  {
    var rest := lengths.Keys;
    var first :| first in rest;
    maxCount, minCount := lengths[first], lengths[first];
    rest := rest - {first};
    while rest != {}
      invariant rest <= lengths.Keys
      invariant exists r :: r in lengths && lengths[r] == maxCount
      invariant exists r :: r in lengths && lengths[r] == minCount
      invariant forall r :: r in lengths && r !in rest ==> minCount <= lengths[r] <= maxCount
      decreases |rest|
    {
      var r :| r in rest;
      if lengths[r] > maxCount {
        maxCount := lengths[r];
      }
      if lengths[r] < minCount {
        minCount := lengths[r];
      }
      rest := rest - {r};
    }
  }

  /** `m` is the reverse map of the routes in `done`: its keys are the stops
      they list, and each maps to the routes among them that list it. */
  ghost predicate ReverseOf(m: map<StopName, set<RouteId>>, rs: RouteStops, done: set<RouteId>)
  {
    && done <= rs.Keys
    && (forall s :: s in m <==> exists r :: r in done && s in StopNames(rs[r]))
    && (forall s, r :: s in m ==> (r in m[s] <==> r in done && s in StopNames(rs[r])))
  }

  /** Part way through `route`: `m` is the reverse map of the routes in
      `done`, plus `route` for the stops in `seen` (the part of its list
      already walked). */
  ghost predicate ReverseWalk(m: map<StopName, set<RouteId>>, rs: RouteStops, done: set<RouteId>,
                              route: RouteId, seen: seq<ConnectedStop>)
  {
    && done <= rs.Keys
    && (forall s :: s in m <==> (exists r :: r in done && s in StopNames(rs[r])) || s in StopNames(seen))
    && (forall s, r :: s in m ==>
          (r in m[s] <==> (r in done && s in StopNames(rs[r])) || (r == route && s in StopNames(seen))))
  }

  lemma StopNamesSnoc(stops: seq<ConnectedStop>, k: nat)
    requires k < |stops|
    ensures StopNames(stops[..k + 1]) == StopNames(stops[..k]) + [stops[k].stopName]
  {
  }

  lemma ReverseBegin(m: map<StopName, set<RouteId>>, rs: RouteStops, done: set<RouteId>, route: RouteId)
    requires ReverseOf(m, rs, done)
    ensures ReverseWalk(m, rs, done, route, [])
  {
    assert StopNames([]) == [];
  }

  lemma ReverseAdd(m: map<StopName, set<RouteId>>, rs: RouteStops, done: set<RouteId>,
                   route: RouteId, stops: seq<ConnectedStop>, k: nat)
    requires k < |stops|
    requires ReverseWalk(m, rs, done, route, stops[..k])
    ensures var name := stops[k].stopName;
            ReverseWalk(m[name := (if name in m then m[name] else {}) + {route}], rs, done, route, stops[..k + 1])
  {
    StopNamesSnoc(stops, k);
  }

  lemma ReverseEnd(m: map<StopName, set<RouteId>>, rs: RouteStops, done: set<RouteId>, route: RouteId)
    requires route in rs
    requires ReverseWalk(m, rs, done, route, rs[route])
    ensures ReverseOf(m, rs, done + {route})
  {
  }

  lemma ReverseComplete(m: map<StopName, set<RouteId>>, rs: RouteStops)
    requires ReverseOf(m, rs, rs.Keys)
    ensures m.Keys == ListedStops(rs)
    ensures forall s :: s in m ==> m[s] == RoutesServing(rs, s)
  {
  }

  /** The reverse map stop -> routes, filled route by route and stop by stop
      like `stop_routes[stop.stop_name].add(route)` into a `defaultdict(set)`. */
  method StopRoutes(rs: RouteStops) returns (stopRoutes: map<StopName, set<RouteId>>)
    ensures stopRoutes.Keys == ListedStops(rs)
    ensures forall s :: s in stopRoutes ==> stopRoutes[s] == RoutesServing(rs, s)
  {
    stopRoutes := map[];
    var remaining := rs.Keys;
    ghost var done: set<RouteId> := {};
    while remaining != {}
      invariant done + remaining == rs.Keys && done !! remaining
      invariant ReverseOf(stopRoutes, rs, done)
      decreases |remaining|
    {
      var route :| route in remaining;
      stopRoutes := AddRouteStops(stopRoutes, rs, done, route);
      remaining := remaining - {route};
      done := done + {route};
    }
    ReverseComplete(stopRoutes, rs);
  }

  /** The inner loop of the reverse map: add `route` for each stop it lists. */
  method AddRouteStops(m: map<StopName, set<RouteId>>, rs: RouteStops, ghost done: set<RouteId>, route: RouteId)
    returns (m': map<StopName, set<RouteId>>)
    requires route in rs && route !in done
    requires ReverseOf(m, rs, done)
    ensures ReverseOf(m', rs, done + {route})
  {
    m' := m;
    var stops := rs[route];
    ReverseBegin(m, rs, done, route);
    assert stops[..0] == [];
    for k := 0 to |stops|
      invariant ReverseWalk(m', rs, done, route, stops[..k])
    {
      ReverseAdd(m', rs, done, route, stops, k);
      var name := stops[k].stopName;
      var prior := if name in m' then m'[name] else {};
      m' := m'[name := prior + {route}];
    }
    assert stops[..|stops|] == stops;
    ReverseEnd(m', rs, done, route);
  }

  /** `log_route_and_stop_info` without its logging: the statistics it reports. */
  method RouteAndStopInfo(rs: RouteStops) returns (res: Result<StopStats, StatsError>)
    ensures res.Failure? <==> rs == map[]
    ensures res.Success? ==>
              && (forall r :: r in rs ==> res.value.minStops <= |rs[r]| <= res.value.maxStops)
              && (forall r :: r in res.value.mostStopsRoutes <==> r in rs && |rs[r]| == res.value.maxStops)
              && (forall r :: r in res.value.fewestStopsRoutes <==> r in rs && |rs[r]| == res.value.minStops)
              && res.value.mostStopsRoutes != {} && res.value.fewestStopsRoutes != {}
              && res.value.connectingStops == TransferStations(rs)
  {
    var routeLengths := map r | r in rs :: |rs[r]|;
    assert routeLengths.Keys == rs.Keys;
    if routeLengths == map[] {
      return Failure(NoRoutes);
    }
    var maxStops, minStops := Extremes(routeLengths);
    var mostStopsRoutes := set r | r in routeLengths && routeLengths[r] == maxStops;
    var fewestStopsRoutes := set r | r in routeLengths && routeLengths[r] == minStops;
    var stopRoutes := StopRoutes(rs);
    var connectingStops := map s | s in stopRoutes && |stopRoutes[s]| > 1 :: stopRoutes[s];
    ConnectingStopsExact(rs, stopRoutes, connectingStops);
    res := Success(StopStats(maxStops, mostStopsRoutes, minStops, fewestStopsRoutes, connectingStops));
  }

  lemma ConnectingStopsExact(rs: RouteStops, stopRoutes: map<StopName, set<RouteId>>,
                             connecting: map<StopName, set<RouteId>>)
    requires stopRoutes.Keys == ListedStops(rs)
    requires forall s :: s in stopRoutes ==> stopRoutes[s] == RoutesServing(rs, s)
    requires connecting == map s | s in stopRoutes && |stopRoutes[s]| > 1 :: stopRoutes[s]
    ensures connecting == TransferStations(rs)
  {
    assert connecting.Keys == TransferStations(rs).Keys;
  }

  /** A stop is a transfer station exactly when two different routes list it. */
  lemma TransferStationIff(rs: RouteStops, s: StopName)
    ensures s in TransferStations(rs) <==>
            exists r1, r2 :: r1 != r2 && r1 in rs && r2 in rs && s in StopNames(rs[r1]) && s in StopNames(rs[r2])
  {
    var serving := RoutesServing(rs, s);
    if |serving| > 1 {
      var r1 :| r1 in serving;
      assert serving - {r1} != {};
      var r2 :| r2 in serving - {r1};
      assert r1 != r2 && s in StopNames(rs[r1]) && s in StopNames(rs[r2]);
    }
    if exists r1, r2 :: r1 != r2 && r1 in rs && r2 in rs && s in StopNames(rs[r1]) && s in StopNames(rs[r2]) {
      var r1, r2 :| r1 != r2 && r1 in rs && r2 in rs && s in StopNames(rs[r1]) && s in StopNames(rs[r2]);
      assert {r1, r2} <= serving;
      assert |{r1, r2}| == 2;
      SubsetCardinality({r1, r2}, serving);
      assert s in ListedStops(rs);
    }
  }

  /** With a single route nothing is a transfer station, however often the
      route repeats a stop. */
  lemma SingleRouteNoTransfers(rs: RouteStops)
    requires |rs| == 1
    ensures TransferStations(rs) == map[]
  {
    forall s | s in ListedStops(rs) ensures |RoutesServing(rs, s)| <= 1 {
      SubsetCardinality(RoutesServing(rs, s), rs.Keys);
    }
  }
}
