# MBTA subway core in Dafny

This project models the in-memory core of a small MBTA subway question service.

- **The repository layer** turns the transit API's route list and per-route stop lists into a connectivity graph. The graph maps each stop name to its neighbours, and gives each neighbour the set of routes that connect the two stops directly.
- **The question service** answers two questions over that snapshot:
  - route statistics: stop counts, every route tied for the most and for the fewest stops, and the transfer stations;
  - a path question: a breadth-first search from one stop to another. It tries the routes of each edge in route-continuity order: the route it arrived by first, then the others in string order.

There are five modules:

- `SubwayModels` (`subway_models.dfy`): the shared data types and graph vocabulary.
  - `Linked(g, a, b, r)` means the graph has an edge from `a` to `b` that carries route `r`.
  - `StopNames` gives the names of a stop list.
- `SubwayRepository` (`subway_repository.dfy`): `_fetch_stops`, `_build_connectivity_graph` and `load_subway_data`.
  - The graph builder is a method with the source's three nested loops.
  - It is proved against `IsConnectivityGraphOf`: the graph is well formed, and `a` reaches `b` on route `r` exactly when `r` lists both of these distinct names.
- `RouteOrder` (`route_order.dfy`): the sort key `(r != current_route, r)` and Python's string order.
- `RouteStats` (`route_stats.dfy`): `log_route_and_stop_info` without its logging.
- `PathFinder` (`path_finder.dfy`): `log_path_for_stops`.
  - The search loop is a method, proved equal to the recursive function `Search`.
  - About `Search`, the model proves:
    - a found path is a real path from start to end;
    - no path has fewer hops;
    - "no path" means the end stop is unreachable;
    - every hop of a found path rides the route tried first from the stop before it, so on a graph with one connection per neighbour the path stays on its route wherever the next edge carries it.
  - The proof carries a breadth-first invariant through every step. The queue's hop counts never fall and span at most two values. Each visited stop was expanded at its distance from the start. Every edge leaving the visited region has a queue entry for its far end.

Python lists and dicts are modelled as follows:

- Python dicts become Dafny maps and lists become sequences.
- The transit API is passed in as two functions: route types to routes, and route id to stop names.
- The service returns `[]` after a failed lookup and `None` otherwise. This is the `Returned` datatype. The lines it would log are returned as a sequence of `Hop`s.

## Model

| member | source | states |
|---|---|---|
| SubwayRepository.AddToConnections | main/repositories/subway_repository.py:81-83 | Adding route `r` to neighbour `b` of one stop: the stop keeps one connection per neighbour with repetition-free route lists. Afterwards the stop connects to `b` on `r` and everything it connected before, and nothing else. A new neighbour is appended at the end with `[r]`, and existing neighbours keep their places. |
| SubwayRepository.AddRoute | main/repositories/subway_repository.py:81-83 | `subway_map[a][b].add(r)` keeps the graph well formed. It adds `a` to the keys and adds exactly the edge (a, b, r) to the link relation. |
| SubwayRepository.BuildConnectivityGraph | main/repositories/subway_repository.py:59-92 | The built graph is well formed: one connection per neighbour, non-empty and repetition-free route lists, no self-loops. `a` reaches `b` on `r` if and only if route `r` lists both `a` and `b` and they are different names. |
| SubwayRepository.FetchStops | main/repositories/subway_repository.py:45-57 | There is one entry per fetched route id. Each entry holds the fetched stop names in their order and number, and every stop is tagged with exactly that route id. |
| SubwayRepository.LoadSubwayData | main/repositories/subway_repository.py:15-43 | The routes are those fetched for route types [0, 1]. The stop lists are fetched for exactly those routes, and every stop is tagged with exactly its route's id. The graph is the connectivity graph of exactly those stop lists. No routes gives empty stop lists and an empty graph. |
| SubwayRepository.EdgeRoutesExact | main/repositories/subway_repository.py:76-91 | The routes on the edge a -> b are exactly the routes that list both a and b. |
| SubwayRepository.Symmetric | main/repositories/subway_repository.py:76-83 | Every edge a -> b ends at a key and has a twin b -> a carrying the same routes. |
| SubwayRepository.KeysExact | main/repositories/subway_repository.py:76-91 | A stop is a key exactly when some route lists it and lists at least two distinct names. |
| SubwayRepository.EmptyInputEmptyGraph | main/repositories/subway_repository.py:68-92 | No routes gives the empty graph. |
| SubwayRepository.SingleNameRouteAddsNothing | main/repositories/subway_repository.py:76-83 | A stop whose only routes list a single name (however often repeated) is not a key. |
| RouteOrder.LexLe | main/services.py:172-174 | Python's string order: a prefix sorts first; a string whose first character is smaller sorts first; and a string ordered no later than another has no larger first character. |
| RouteOrder.LexLeTotal | main/services.py:172-174 | Any two strings are comparable. |
| RouteOrder.LexLeReflexive | main/services.py:172-174 | Every string is ordered before or equal to itself. |
| RouteOrder.LexLeTransitive | main/services.py:172-174 | The string order is transitive. |
| RouteOrder.LexLeAntisymmetric | main/services.py:172-174 | Two strings ordered both ways are equal, so the string order is a total order. |
| RouteOrder.KeyLe | main/services.py:173 | The key `(r != current_route, r)`: the arrival route sorts before every route, and only the arrival route sorts before it. |
| RouteOrder.KeyLeTotal | main/services.py:173 | Any two routes are comparable by key. |
| RouteOrder.KeyLeTransitive | main/services.py:173 | The key order is transitive. |
| RouteOrder.KeyLeAntisymmetric | main/services.py:173 | Two routes ordered both ways by key are equal, so sorting by key has one result. |
| RouteOrder.ContinuityOrder | main/services.py:169-174 | The sorted routes are a permutation of the edge's routes, ordered by the key (not the arrival route, then string order). |
| RouteOrder.Insert | main/services.py:172-174 | Inserting into a key-sorted list keeps it sorted and adds exactly that element. |
| RouteOrder.SortedPermutationUnique | main/services.py:172-174 | Two key-sorted permutations of the same routes are equal. Python's stable sort therefore yields the same list as `ContinuityOrder`. |
| RouteOrder.ArrivalRouteFirst | main/services.py:167-174 | When the edge carries the route the search arrived by, that route is tried first. |
| RouteOrder.OthersAscending | main/services.py:172-174 | After the arrival route, the other routes come in ascending string order. |
| RouteStats.Extremes | main/services.py:58-59 | On a non-empty table, both results are values of the table and bound every value from above and from below. |
| RouteStats.StopRoutes | main/services.py:71-76 | The reverse map has exactly the listed stop names as keys. Each key maps to exactly the routes that list it. |
| RouteStats.AddRouteStops | main/services.py:74-76 | Walking one route's stops extends the reverse map of the routes done so far to include that route. |
| RouteStats.RouteAndStopInfo | main/services.py:46-81 | No routes is the `max()` failure; anything else succeeds. Every route's stop count lies between the minimum and the maximum. The most-stops set holds exactly the routes at the maximum, and the fewest-stops set exactly those at the minimum, so ties are kept. Both sets are non-empty. The connecting stops are the transfer stations. |
| RouteStats.ConnectingStopsExact | main/services.py:79-81 | Filtering the reverse map to sets of more than one route yields exactly the transfer stations, with their routes. |
| RouteStats.TransferStationIff | main/services.py:79-81 | A stop is a transfer station if and only if two different routes list it. |
| RouteStats.SingleRouteNoTransfers | main/services.py:71-81 | With one route there are no transfer stations, however often it repeats a stop. |
| PathFinder.FindPath | main/services.py:137-179 | The loop computes `PathSearch`. A missing start is reported, whatever the end. A missing end is reported only when the start is present. |
| PathFinder.EnqueueNeighbours | main/services.py:165-179 | The queue gains the expansion of the dequeued entry, connection by connection in list order. |
| PathFinder.EnqueueRoutes | main/services.py:176-179 | One entry per sorted route is appended, in order, each extending the stop and route paths by one hop. |
| PathFinder.ExpansionShrinks | main/services.py:161-163 | Marking an unvisited stop either uses up one of the graph's stops, or enqueues nothing. So the loop terminates. |
| PathFinder.LogPathForStops | main/services.py:137-190 | `[]` is returned exactly after a failed lookup. The same stop at both ends reports no hops. The reported hops chain from start to end along edges of the graph. No path has fewer hops. Between two distinct known stops, hops are reported if and only if the end is reachable. On a well-formed graph, a hop whose edge carries the previous hop's route stays on it. |
| PathFinder.ReportedHopsCorrect | main/services.py:181-190 | These are the same hop properties, stated for the report built from any search result. |
| PathFinder.FoundShape | main/services.py:156-159 | A found path has one more stop than routes. |
| PathFinder.SameStopFound | main/services.py:156-160 | Start equal to end is found at once, with stops `[start]` and no routes. |
| PathFinder.PathSearchCorrect | main/services.py:143-179 | With both stops in the graph, the search finds a path from start to end that no path beats in hop count, or reports no path only when the end is unreachable. |
| PathFinder.SearchCorrect | main/services.py:150-179 | From any state that satisfies the breadth-first invariant, the rest of the search answers correctly. |
| PathFinder.NoShortcut | main/services.py:155-163 | No unvisited stop has a path from the start shorter than the hop count at the head of the queue. |
| PathFinder.EmptyQueueAnswers | main/services.py:155 | An exhausted queue means the end stop is unreachable. |
| PathFinder.GoalAnswers | main/services.py:156-160 | The first entry dequeued at the end stop holds a shortest path. |
| PathFinder.SkipPreserves | main/services.py:161-162 | Dropping an entry for a visited stop keeps the breadth-first invariant. |
| PathFinder.ExpandPreserves | main/services.py:163-179 | Marking a stop visited and enqueueing its neighbours keeps the breadth-first invariant. |
| PathFinder.ExpandValid | main/services.py:165-179 | Every entry of the new queue holds a real path from the start to its stop. |
| PathFinder.ExpandLevels | main/services.py:176-179 | New entries are one hop deeper than the dequeued one, so the queue stays in hop order within two levels. |
| PathFinder.ExpandFrontier | main/services.py:163-179 | Every edge leaving the new visited region has a queue entry for its far end, at most one hop deeper. |
| PathFinder.ExtendEntry | main/services.py:176-179 | Extending a valid entry along an edge gives a valid entry. |
| PathFinder.ExpansionSound | main/services.py:165-179 | Expansion enqueues only one-hop extensions along the stop's connections. |
| PathFinder.ExpansionComplete | main/services.py:165-179 | Expansion enqueues an entry for every (neighbour, route) pair of the stop's connections. |
| PathFinder.EntriesArrivalFirst | main/services.py:167-179 | When the edge carries the route the entry arrived by, the first entry enqueued for that edge rides on along that route. |
| PathFinder.EntriesTieBreak | main/services.py:172-179 | After any entry that does not ride on, the entries for one edge take the other routes in ascending string order. |
| PathFinder.Connections | main/services.py:165 | A stop missing from the graph has no connections, so expanding it enqueues nothing. |
| PathFinder.ConnectionsLinked | main/services.py:165 | The looked-up connections lead exactly along the graph's edges out of that stop, with exactly their routes. |
| PathFinder.LastRoute | main/services.py:169 | There is an arrival route exactly when the route path is non-empty, and it is the path's last route. |
| PathFinder.EntriesAlong | main/services.py:176-179 | One entry per route of the given order, in that order. Each is at the next stop, one hop deeper, and extends the stop path by the current stop. |
| PathFinder.EntriesFor | main/services.py:166-179 | One entry per route of the edge. Each is at the edge's far end, one hop deeper, extends the stop path by the current stop, and rides a route of the edge. |
| PathFinder.Expansion | main/services.py:165-179 | Every entry an expansion enqueues extends the stop path by the expanded stop and is exactly one hop deeper. |
| PathFinder.Search | main/services.py:155-179 | The loop ends with a found path or with no path, never with a lookup failure. |
| PathFinder.PathSearch | main/services.py:143-179 | A missing start is reported whatever the end; a missing end only when the start is present. |
| PathFinder.ReportedHops | main/services.py:181-190 | Only a found path is reported. Its hops chain, the first leaves the first stop and the last reaches the last stop, and there are no more hops than routes. |
| PathFinder.ReportHops | main/services.py:181-190 | The report loop yields exactly the reported hops. |
| PathFinder.ExpandStep | main/services.py:161-179 | Expanding an unvisited stop keeps the breadth-first invariant, continues the same search, and marks one more stop or enqueues nothing. |
| PathFinder.FoundKeepsRoute | main/services.py:140-179 | Every hop of a found path rides the route tried first from the stop before it: the head of the continuity order of the first connection to the next stop, given the route of the hop before. |
| PathFinder.SearchKeepsRoute | main/services.py:155-179 | While the first entry queued at every unvisited stop keeps to the preferred routes, whatever the search finds keeps to them. |
| PathFinder.SkipKeepsRoute | main/services.py:161-162 | Dropping an entry for a visited stop keeps that property. |
| PathFinder.ExpandKeepsRoute | main/services.py:163-179 | Expanding the head keeps it: an entry first at its stop is either first before, or the first that the expansion appends for its stop. |
| PathFinder.ExpansionFirst | main/services.py:165-179 | The first entry an expansion appends for a stop extends the expanded entry by the preferred step towards that stop. |
| PathFinder.ExpansionFirstNew | main/services.py:165-179 | The first entry appended for a stop that only the last connection leads to is the head of that connection's continuity order. |
| PathFinder.KeepsRouteSnoc | main/services.py:176-179 | Extending a path that keeps to the preferred routes by the preferred step keeps to them. |
| PathFinder.ReportedHopsStayOnRoute | main/services.py:140-190 | On a graph with one connection per neighbour, whenever the next edge of the reported path carries the route the path is on, the path stays on that route. |
| PathFinder.StaysOnRoute | main/services.py:169-174 | On a graph with one connection per neighbour, the preferred step after arriving by a route is that route whenever the edge carries it. |

## Left out

- HTTP, JSON and retries (`main/mbta_client/client.py`), the response schemas and the configuration are not modelled. The fetches are total, deterministic function parameters and never fail.
- `_fetch_subway_routes` (main/repositories/subway_repository.py:34-43) is folded into `LoadSubwayData` as one call with the route types `[0, 1]`.
- `main/main.py` is not part of this model. That covers the command line, the environment and logging setup.
- Logging and formatting are not modelled: `log_subway_routes`, `_log_question_two` (main/services.py:91-135) and the text of the path report. `log_route_and_stop_info` and `log_path_for_stops` return structured results instead.
- `answer_all_questions` only calls the three questions in turn, and is not modelled.
- SubwayRepository.BuildConnectivityGraph: routes are visited in an unspecified order rather than dict insertion order. Each stop's neighbour list is in first-insertion order within that walk. So the model does not fix which of several equally short paths the search returns for a given API response order.
- SubwayRepository.AddToConnections: the route list of an edge keeps insertion order. It stands for `list(set)`, whose order Python does not define. The search sorts it again, so only its contents matter.
- RouteStats.RouteAndStopInfo: the most-stops and fewest-stops lists, and the connecting-stops list, are sets and a map. Their dict iteration order is not kept.
- RouteOrder.ContinuityOrder: Python's library sort is stood for by an insertion sort. `SortedPermutationUnique` shows the two agree.
- A `route_stops` dict can hold a route id only once. Two fetched routes with the same id overwrite one entry with the same stop list.
- The route-continuity preference is proved hop by hop: each hop of the returned path rides the route tried first from the stop before it (`FoundKeepsRoute`). The model does not claim that a returned path has the fewest transfers among the shortest paths, and the code does not ensure it: each stop keeps the first entry queued for it, and that entry may come from a neighbour reached on another route.
- `log_path_for_stops` returns `[]` or `None` and only logs the path. `LogPathForStops` returns that value together with the hops the log would show.
