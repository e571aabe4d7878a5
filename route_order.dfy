/** The order in which the path finder tries the routes of one edge
    (main/services.py:169-174): `sorted(routes, key=lambda r: (r != current_route, r))`.
    The route the search arrived by comes first, then the rest by Python's
    string order (code-point lexicographic). */
module RouteOrder {
  import opened SubwayModels

  /** Python's `<=` on `str`: lexicographic by code point, a prefix first. */
  predicate LexLe(a: string, b: string): (le: bool)
    ensures a <= b ==> le
    ensures le && a != [] ==> b != [] && a[0] <= b[0]
    ensures a != [] && b != [] && a[0] < b[0] ==> le
    decreases |a|
  {
    a == [] || (b != [] && (a[0] < b[0] || (a[0] == b[0] && LexLe(a[1..], b[1..]))))
  }

  lemma {:induction false} LexLeTotal(a: string, b: string)
    ensures LexLe(a, b) || LexLe(b, a)
    decreases |a|
  {
    if a != [] && b != [] && a[0] == b[0] {
      LexLeTotal(a[1..], b[1..]);
    }
  }

  lemma {:induction false} LexLeReflexive(a: string)
    ensures LexLe(a, a)
    decreases |a|
  {
    if a != [] {
      LexLeReflexive(a[1..]);
    }
  }

  lemma {:induction false} LexLeTransitive(a: string, b: string, c: string)
    requires LexLe(a, b) && LexLe(b, c)
    ensures LexLe(a, c)
    decreases |a|
  {
    if a != [] && a[0] == b[0] && b[0] == c[0] {
      LexLeTransitive(a[1..], b[1..], c[1..]);
    }
  }

  lemma {:induction false} LexLeAntisymmetric(a: string, b: string)
    requires LexLe(a, b) && LexLe(b, a)
    ensures a == b
    decreases |a|
  {
    if a != [] {
      LexLeAntisymmetric(a[1..], b[1..]);
      assert a == [a[0]] + a[1..] && b == [b[0]] + b[1..];
    }
  }

  /** `r` is the route the search arrived by: its key's first component is False. */
  predicate Arrival(r: RouteId, current: Option<RouteId>)
  {
    current.Some? && r == current.value
  }

  /** The tuple order on `(r != current_route, r)`: False sorts before True. */
  predicate KeyLe(a: RouteId, b: RouteId, current: Option<RouteId>): (le: bool)
    ensures Arrival(a, current) ==> le
    ensures le && Arrival(b, current) ==> Arrival(a, current)
  {
    if Arrival(a, current) != Arrival(b, current) then Arrival(a, current) else LexLe(a, b)
  }

  predicate SortedByKey(s: seq<RouteId>, current: Option<RouteId>)
  {
    forall i, j :: 0 <= i < j < |s| ==> KeyLe(s[i], s[j], current)
  }

  lemma KeyLeTotal(a: RouteId, b: RouteId, current: Option<RouteId>)
    ensures KeyLe(a, b, current) || KeyLe(b, a, current)
  {
    LexLeTotal(a, b);
  }

  lemma KeyLeTransitive(a: RouteId, b: RouteId, c: RouteId, current: Option<RouteId>)
    requires KeyLe(a, b, current) && KeyLe(b, c, current)
    ensures KeyLe(a, c, current)
  {
    if Arrival(a, current) == Arrival(b, current) == Arrival(c, current) {
      LexLeTransitive(a, b, c);
    }
  }

  lemma KeyLeAntisymmetric(a: RouteId, b: RouteId, current: Option<RouteId>)
    requires KeyLe(a, b, current) && KeyLe(b, a, current)
    ensures a == b
  {
    LexLeAntisymmetric(a, b);
  }

  /** Insert `x` into a key-sorted sequence, in front of the first larger element. */
  function Insert(x: RouteId, s: seq<RouteId>, current: Option<RouteId>): (t: seq<RouteId>)
    requires SortedByKey(s, current)
    ensures SortedByKey(t, current)
    ensures multiset(t) == multiset(s) + multiset{x}
    decreases |s|
  {
    if s == [] then
      [x]
    else if KeyLe(x, s[0], current) then
      assert forall j :: 0 <= j < |s| ==> KeyLe(x, s[j], current) by {
        forall j | 0 <= j < |s| ensures KeyLe(x, s[j], current) {
          if j > 0 { KeyLeTransitive(x, s[0], s[j], current); }
        }
      }
      SortedCons(x, s, current);
      [x] + s
    else
      KeyLeTotal(x, s[0], current);
      SortedTail(s, current);
      var rest := Insert(x, s[1..], current);
      HeadBelowRest(x, s, rest, current);
      SortedCons(s[0], rest, current);
      assert s == [s[0]] + s[1..];
      [s[0]] + rest
  }

  /** A key no larger than every element may be put in front of a sorted sequence. */
  lemma SortedCons(x: RouteId, s: seq<RouteId>, current: Option<RouteId>)
    requires SortedByKey(s, current)
    requires forall j :: 0 <= j < |s| ==> KeyLe(x, s[j], current)
    ensures SortedByKey([x] + s, current)
  {
    var t := [x] + s;
    forall i, j | 0 <= i < j < |t| ensures KeyLe(t[i], t[j], current) {
      if i > 0 { assert t[i] == s[i - 1]; }
      assert t[j] == s[j - 1];
    }
  }

  /** The head of a sorted sequence is no larger than anything the rest and a
      larger key make up. */
  lemma HeadBelowRest(x: RouteId, s: seq<RouteId>, rest: seq<RouteId>, current: Option<RouteId>)
    requires SortedByKey(s, current) && s != [] && KeyLe(s[0], x, current)
    requires multiset(rest) == multiset(s[1..]) + multiset{x}
    ensures forall j :: 0 <= j < |rest| ==> KeyLe(s[0], rest[j], current)
  {
    forall j | 0 <= j < |rest| ensures KeyLe(s[0], rest[j], current) {
      assert rest[j] in multiset(rest);
      if rest[j] != x {
        assert rest[j] in multiset(s[1..]);
        var k :| 0 <= k < |s[1..]| && s[1..][k] == rest[j];
        assert s[k + 1] == rest[j];
      }
    }
  }

  /** The routes of one edge in the order the search tries them. */
  function ContinuityOrder(routes: seq<RouteId>, current: Option<RouteId>): (sorted: seq<RouteId>)
    ensures multiset(sorted) == multiset(routes)
    ensures SortedByKey(sorted, current)
    decreases |routes|
  {
    if routes == [] then
      []
    else
      assert routes == [routes[0]] + routes[1..];
      Insert(routes[0], ContinuityOrder(routes[1..], current), current)
  }

  /** A sorted permutation is unique, so a stable library sort of these keys
      and the insertion sort above give the same list. */
  lemma {:induction false} SortedPermutationUnique(s: seq<RouteId>, t: seq<RouteId>, current: Option<RouteId>)
    requires SortedByKey(s, current) && SortedByKey(t, current)
    requires multiset(s) == multiset(t)
    ensures s == t
    decreases |s|
  {
    assert |s| == |multiset(s)| == |multiset(t)| == |t|;
    if s != [] {
      SortedHeadsEqual(s, t, current);
      TailMultiset(s);
      TailMultiset(t);
      SortedTail(s, current);
      SortedTail(t, current);
      SortedPermutationUnique(s[1..], t[1..], current);
      assert s == [s[0]] + s[1..] && t == [t[0]] + t[1..];
    }
  }

  lemma SortedHeadsEqual(s: seq<RouteId>, t: seq<RouteId>, current: Option<RouteId>)
    requires SortedByKey(s, current) && SortedByKey(t, current)
    requires multiset(s) == multiset(t) && s != [] && t != []
    ensures s[0] == t[0]
  {
    assert s[0] in multiset(t) && t[0] in multiset(s);
    var i :| 0 <= i < |t| && t[i] == s[0];
    var j :| 0 <= j < |s| && s[j] == t[0];
    assert KeyLe(t[0], s[0], current) by {
      if i > 0 { assert KeyLe(t[0], t[i], current); } else { LexLeReflexive(s[0]); }
    }
    assert KeyLe(s[0], t[0], current) by {
      if j > 0 { assert KeyLe(s[0], s[j], current); } else { LexLeReflexive(s[0]); }
    }
    KeyLeAntisymmetric(s[0], t[0], current);
  }

  lemma TailMultiset(s: seq<RouteId>)
    requires s != []
    ensures multiset(s[1..]) == multiset(s) - multiset{s[0]}
  {
    assert s == [s[0]] + s[1..];
  }

  lemma SortedTail(s: seq<RouteId>, current: Option<RouteId>)
    requires SortedByKey(s, current) && s != []
    ensures SortedByKey(s[1..], current)
  {
    forall i, j | 0 <= i < j < |s[1..]| ensures KeyLe(s[1..][i], s[1..][j], current) {
      assert s[1..][i] == s[i + 1] && s[1..][j] == s[j + 1];
    }
  }

  /** When the edge carries the arrival route, it is tried first. */
  lemma ArrivalRouteFirst(routes: seq<RouteId>, current: Option<RouteId>)
    requires current.Some? && current.value in routes
    ensures ContinuityOrder(routes, current) != [] && ContinuityOrder(routes, current)[0] == current.value
  {
    var sorted := ContinuityOrder(routes, current);
    assert current.value in multiset(sorted);
    var k :| 0 <= k < |sorted| && sorted[k] == current.value;
    if k > 0 {
      assert KeyLe(sorted[0], sorted[k], current);
    }
  }

  /** The routes other than the arrival route come in ascending string order,
      after every copy of the arrival route. */
  lemma OthersAscending(routes: seq<RouteId>, current: Option<RouteId>, i: nat, j: nat)
    requires i < j < |ContinuityOrder(routes, current)|
    requires !Arrival(ContinuityOrder(routes, current)[i], current)
    ensures !Arrival(ContinuityOrder(routes, current)[j], current)
    ensures LexLe(ContinuityOrder(routes, current)[i], ContinuityOrder(routes, current)[j])
  {
    var sorted := ContinuityOrder(routes, current);
    assert KeyLe(sorted[i], sorted[j], current);
  }
}
