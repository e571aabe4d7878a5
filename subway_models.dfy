/** Data shapes of the subway core (main/models/subway_models.py) and the
    graph vocabulary that the graph builder and the path finder share. */
module SubwayModels {

  datatype Option<+T> = None | Some(value: T)

  datatype Result<+T, +E> = Success(value: T) | Failure(error: E)

  type StopName = string
  type RouteId = string

  /** A route record as the transit API returns it: its id and display name. */
  datatype Route = Route(id: RouteId, longName: string)

  /** One entry of a route's stop list, tagged with the routes it was fetched for. */
  datatype ConnectedStop = ConnectedStop(stopName: StopName, routeNames: seq<RouteId>)

  /** A neighbour of a stop and the routes that connect the two directly. */
  datatype StopConnection = StopConnection(stop: StopName, routes: seq<RouteId>)

  /** Route id to the stops that route serves, in the order the API listed them. */
  type RouteStops = map<RouteId, seq<ConnectedStop>>

  /** Stop name to its connections; the order of a connection list matters to the search. */
  type Graph = map<StopName, seq<StopConnection>>

  /** The snapshot loaded once at start-up and read by every question. */
  datatype SubwayData = SubwayData(routes: seq<Route>, routeStops: RouteStops, subwayGraph: Graph)

  /** The stop names of a stop list, in order and with repetitions. */
  function StopNames(stops: seq<ConnectedStop>): seq<StopName>
  {
    seq(|stops|, k requires 0 <= k < |stops| => stops[k].stopName)
  }

  /** Some connection in `conns` leads to `b` and carries route `r`. */
  predicate Connects(conns: seq<StopConnection>, b: StopName, r: RouteId)
  {
    exists k :: 0 <= k < |conns| && conns[k].stop == b && r in conns[k].routes
  }

  /** The graph has an edge from `a` to `b` that carries route `r`. */
  predicate Linked(g: Graph, a: StopName, b: StopName, r: RouteId)
  {
    a in g && Connects(g[a], b, r)
  }

  /** A subset has no more elements than its superset. */
  lemma {:induction false} SubsetCardinality<T>(s: set<T>, t: set<T>)
    requires s <= t
    ensures |s| <= |t|
    decreases |t|
  {
    if s != {} {
      var x :| x in s;
      SubsetCardinality(s - {x}, t - {x});
    }
  }
}
