/** Editing routes that meet at a junction: trimming a route from one end,
    testing whether a coordinate is an end point, and moving the junction
    shared by several routes to a new TIN vertex, re-routing the loose
    vertices near the junction.  Routes that would overlap after the move
    are refused; whether one route's geometry contains another's is a JTS
    predicate and is an input here. */
module RouteEdit {

  import opened Wrappers
  import opened Geom
  import Router

  /** `route1.contains(route2)` in JTS. */
  type Contains = (seq<Coord>, seq<Coord>) -> bool

  /** `truncateCoordinates(coords, startFromCoord, k)`: drops `k` coordinates
      from the end that equals `startFromCoord` (the first end if both do).
      Asking for more than all but one is an illegal argument; a negative
      count overruns the array once an end matches. */
  function TruncateCoordinates(coords: seq<Coord>, start: Coord, k: int): (r: Result<seq<Coord>>)
    ensures r.Ok? <==> 0 <= k <= |coords| - 1 && (SameXY(coords[0], start) || SameXY(Last(coords), start))
    ensures k > |coords| - 1 ==> r == Err(IllegalArgument)
    ensures r.Err? && k <= |coords| - 1 ==>
      (r.error == IndexOutOfBounds <==> k < 0 && (|coords| == 0 || SameXY(coords[0], start) || SameXY(Last(coords), start)))
    ensures r.Err? ==> r.error == IllegalArgument || r.error == IndexOutOfBounds
    ensures r.Ok? ==> |r.value| == |coords| - k
    ensures r.Ok? && SameXY(coords[0], start) ==> coords[..k] + r.value == coords
    ensures r.Ok? && !SameXY(coords[0], start) ==> r.value + coords[|coords| - k..] == coords
  {
    var n := |coords|;
    if k > n - 1 then Err(IllegalArgument)
    else if n == 0 then Err(IndexOutOfBounds)
    else if SameXY(coords[0], start) then
      if k < 0 then Err(IndexOutOfBounds) else Ok(coords[k..])
    else if SameXY(coords[n - 1], start) then
      if k < 0 then Err(IndexOutOfBounds) else Ok(coords[..n - k])
    else Err(IllegalArgument)
  }

  /** Trimming a route from its junction end does not depend on which way
      the route runs: trimming the reversed route gives the reversed result. */
  lemma TruncateReverse(coords: seq<Coord>, start: Coord, k: int)
    requires |coords| > 0 && SameXY(coords[0], start) != SameXY(Last(coords), start)
    ensures TruncateCoordinates(Reverse(coords), start, k).Ok? == TruncateCoordinates(coords, start, k).Ok?
    ensures TruncateCoordinates(coords, start, k).Ok? ==>
      TruncateCoordinates(Reverse(coords), start, k).value == Reverse(TruncateCoordinates(coords, start, k).value)
  {
    var rc := Reverse(coords);
    assert rc[0] == coords[|coords| - 1] && Last(rc) == coords[0];
    if 0 <= k <= |coords| - 1 {
      ReverseSlices(coords, k);
    }
  }

  /** Dropping k from the front, then reversing, is reversing, then
      dropping k from the back, and the other way round. */
  lemma ReverseSlices<T>(s: seq<T>, k: nat)
    requires k <= |s|
    ensures Reverse(s)[..|s| - k] == Reverse(s[k..])
    ensures Reverse(s)[k..] == Reverse(s[..|s| - k])
  {
    ReverseDrop(s, k);
    ReverseTake(s, k);
  }

  lemma {:induction false} ReverseDrop<T>(s: seq<T>, k: nat)
    requires k <= |s|
    ensures Reverse(s)[..|s| - k] == Reverse(s[k..])
  {
    var r := Reverse(s)[..|s| - k];
    var a := Reverse(s[k..]);
    assert |r| == |a|;
    forall i | 0 <= i < |a|
      ensures r[i] == a[i]
    {
      var t := s[k..];
      assert a[i] == t[|t| - 1 - i];
      assert t[|t| - 1 - i] == s[|s| - 1 - i];
    }
  }

  lemma {:induction false} ReverseTake<T>(s: seq<T>, k: nat)
    requires k <= |s|
    ensures Reverse(s)[k..] == Reverse(s[..|s| - k])
  {
    var r := Reverse(s)[k..];
    var b := Reverse(s[..|s| - k]);
    assert |r| == |b|;
    forall i | 0 <= i < |b|
      ensures r[i] == b[i]
    {
      var t := s[..|s| - k];
      assert b[i] == t[|t| - 1 - i];
      assert t[|t| - 1 - i] == s[|s| - 1 - k - i];
    }
  }

  /** `isEndPointOf(c, route)`; an empty route has no first coordinate. */
  function IsEndPointOf(c: Coord, route: seq<Coord>): (r: Result<bool>)
    ensures r.Err? <==> |route| == 0
    ensures r.Err? ==> r.error == IndexOutOfBounds
    ensures r.Ok? ==> (r.value <==> IndexOfXY(route, c) == 0 || IndexOfXY(Reverse(route), c) == 0)
  {
    if |route| == 0 then Err(IndexOutOfBounds)
    else
      var rev := Reverse(route);
      assert rev[0] == route[|route| - 1];
      Ok(SameXY(c, route[0]) || SameXY(c, route[|route| - 1]))
  }

  /** A route can be trimmed from `c` by any count short of its length
      exactly when `c` is one of its end points. */
  lemma TruncateNeedsEndPoint(coords: seq<Coord>, c: Coord, k: int)
    requires 0 <= k <= |coords| - 1
    ensures TruncateCoordinates(coords, c, k).Ok? <==> IsEndPointOf(c, coords) == Ok(true)
  {
  }

  /** The guard of `alternativeRoutes(route, exclude)`: the route must have
      a first coordinate, and an end point cannot be routed around.  None
      means the search goes ahead. */
  function AlternativeRoutesGuard(route: seq<Coord>, exclude: Coord): (r: Option<Exception>)
    ensures r == Some(IndexOutOfBounds) <==> IsEndPointOf(exclude, route).Err?
    ensures r == Some(IllegalArgument) <==> IsEndPointOf(exclude, route) == Ok(true)
    ensures r.None? <==> IsEndPointOf(exclude, route) == Ok(false)
  {
    if |route| == 0 then Some(IndexOutOfBounds)
    else if SameXY(exclude, route[0]) || SameXY(exclude, route[|route| - 1]) then Some(IllegalArgument)
    else None
  }

  /** The array form of `removeEndpoints`: the interior coordinates, none
      for fewer than two. */
  function RemoveEndpoints(coords: seq<Coord>): (r: seq<Coord>)
    ensures |coords| < 2 ==> r == []
    ensures |coords| >= 2 ==> [coords[0]] + r + [Last(coords)] == coords
  {
    if |coords| < 2 then [] else coords[1..|coords| - 1]
  }

  /** The line-string form of `removeEndpoints`: the interior must itself be
      a line string, so the route needs four coordinates. */
  function RemoveEndpointsOfLine(coords: seq<Coord>): (r: Result<seq<Coord>>)
    ensures r.Ok? <==> |coords| >= 4
    ensures r.Err? ==> r.error == IllegalArgument
    ensures r.Ok? ==> |r.value| == |coords| - 2 >= 2 && [coords[0]] + r.value + [Last(coords)] == coords
  {
    if |coords| < 4 then Err(IllegalArgument) else Ok(RemoveEndpoints(coords))
  }

  /** Two routes share a coordinate that is an end point of neither. */
  predicate TouchInside(a: seq<Coord>, b: seq<Coord>) {
    exists i, j :: 1 <= i < |a| - 1 && 1 <= j < |b| - 1 && SameXY(a[i], b[j])
  }

  /** Touching inside is symmetric. */
  lemma TouchInsideSymmetric(a: seq<Coord>, b: seq<Coord>)
    ensures TouchInside(a, b) <==> TouchInside(b, a)
  {
    if TouchInside(a, b) {
      var i, j :| 1 <= i < |a| - 1 && 1 <= j < |b| - 1 && SameXY(a[i], b[j]);
      assert SameXY(b[j], a[i]);
    }
    if TouchInside(b, a) {
      var j, i :| 1 <= j < |b| - 1 && 1 <= i < |a| - 1 && SameXY(b[j], a[i]);
      assert SameXY(a[i], b[j]);
    }
  }

  /** `touchesAtNonEndpoints(route1, route2)`: compares every interior
      coordinate of one route with every interior coordinate of the other. */
  method TouchesAtNonEndpoints(a: seq<Coord>, b: seq<Coord>) returns (t: bool)
    ensures t <==> TouchInside(a, b)
  {
    var ia := RemoveEndpoints(a);
    var ib := RemoveEndpoints(b);
    assert forall i :: 0 <= i < |ia| ==> ia[i] == a[i + 1];
    assert forall j :: 0 <= j < |ib| ==> ib[j] == b[j + 1];
    var i := 0;
    while i < |ia|
      invariant 0 <= i <= |ia|
      invariant forall p, q :: 0 <= p < i && 0 <= q < |ib| ==> !SameXY(ia[p], ib[q])
    {
      var j := 0;
      while j < |ib|
        invariant 0 <= j <= |ib|
        invariant forall q :: 0 <= q < j ==> !SameXY(ia[i], ib[q])
      {
        if SameXY(ia[i], ib[j]) {
          assert SameXY(a[i + 1], b[j + 1]);
          return true;
        }
        j := j + 1;
      }
      i := i + 1;
    }
    return false;
  }

  /** `doRoutesOverlap(routes)`: two different routes of the list where one
      contains the other (either way round) or they touch inside. */
  predicate RoutesOverlap(routes: seq<seq<Coord>>, contains: Contains) {
    exists i, j :: 0 <= i < |routes| && 0 <= j < |routes| && i != j &&
      (contains(routes[i], routes[j]) || contains(routes[i], Reverse(routes[j])) ||
       TouchInside(routes[i], routes[j]))
  }

  /** The validation loop of `moveJunction`: the first route that is empty
      or does not end at the junction decides the exception. */
  function JunctionCheck(routes: seq<seq<Coord>>, junction: Coord): (r: Option<Exception>)
    ensures r.None? <==> forall i :: 0 <= i < |routes| ==> IsEndPointOf(junction, routes[i]) == Ok(true)
    ensures r.Some? ==> r.value == IllegalArgument || r.value == IndexOutOfBounds
    decreases |routes|
  {
    if |routes| == 0 then None
    else
      var e := IsEndPointOf(junction, routes[0]);
      if e.Err? then Some(e.error)
      else if !e.value then Some(IllegalArgument)
      else
        var rest := JunctionCheck(routes[1..], junction);
        assert forall i :: 1 <= i < |routes| ==> routes[i] == routes[1..][i - 1];
        rest
  }

  /** How many vertices at the junction end are let loose:
      `min(numLooseVertices, numPoints - 1)`. */
  function Loose(route: seq<Coord>, k: int): int {
    if k < |route| - 1 then k else |route| - 1
  }

  /** The coordinates a moved route must still pass through: the route
      trimmed of its loose vertices, with the new junction in place of the
      old one. */
  function Included(route: seq<Coord>, junction: Coord, newJunction: Coord, k: int): (r: seq<Coord>)
    requires k >= 1 && IsEndPointOf(junction, route) == Ok(true)
    ensures |r| == |route| - Loose(route, k) + 1
    ensures SameXY(route[0], junction) ==> r[0] == newJunction && r[1..] == route[Loose(route, k)..]
    ensures !SameXY(route[0], junction) ==> Last(r) == newJunction && r[..|r| - 1] == route[..|route| - Loose(route, k)]
  {
    var t := TruncateCoordinates(route, junction, Loose(route, k)).value;
    if SameXY(route[0], junction) then [newJunction] + t else t + [newJunction]
  }

  /** `r` is `route` with its junction end moved: it starts (or ends, as the
      route did) at the new junction, keeps the far end point and still
      passes through every vertex that was not let loose. */
  predicate MovedRoute(route: seq<Coord>, junction: Coord, newJunction: Coord, k: int, r: seq<Coord>)
  {
    var m := Loose(route, k);
    |route| > 0 && k >= 1 && |r| >= 2 &&
    (SameXY(route[0], junction) ==>
      r[0] == newJunction && SameXY(Last(r), Last(route)) &&
      forall j :: m <= j < |route| ==> HasXY(r, route[j])) &&
    (!SameXY(route[0], junction) ==>
      r[0] == route[0] && SameXY(Last(r), newJunction) &&
      forall j :: 0 <= j < |route| - m ==> HasXY(r, route[j]))
  }

  /** `r` holds the moved versions of the routes from the i-th on. */
  predicate AllMoved(routes: seq<seq<Coord>>, i: nat, junction: Coord, newJunction: Coord, k: int, r: seq<seq<Coord>>)
    requires i <= |routes|
  {
    |r| == |routes| - i &&
    forall j :: 0 <= j < |r| ==> MovedRoute(routes[i + j], junction, newJunction, k, r[j])
  }

  lemma AllMovedCons(routes: seq<seq<Coord>>, i: nat, junction: Coord, newJunction: Coord, k: int,
                     m: seq<Coord>, rest: seq<seq<Coord>>)
    requires i < |routes| && MovedRoute(routes[i], junction, newJunction, k, m)
    requires AllMoved(routes, i + 1, junction, newJunction, k, rest)
    ensures AllMoved(routes, i, junction, newJunction, k, [m] + rest)
  {
    var r := [m] + rest;
    forall j | 0 <= j < |r|
      ensures MovedRoute(routes[i + j], junction, newJunction, k, r[j])
    {
      if j > 0 {
        assert r[j] == rest[j - 1];
        assert routes[i + j] == routes[(i + 1) + (j - 1)];
      }
    }
  }

  /** The re-routing loop of `moveJunction` from the i-th route on. */
  function Reroute(tin: Router.Tin, verts: set<(real, real)>, dist: Router.SegDist, routes: seq<seq<Coord>>,
                   junction: Coord, newJunction: Coord, k: int, i: nat): (r: Result<seq<seq<Coord>>>)
    requires Router.Closed(tin, verts) && k >= 1 && i <= |routes|
    requires forall j :: 0 <= j < |routes| ==> IsEndPointOf(junction, routes[j]) == Ok(true)
    ensures r.Ok? ==> AllMoved(routes, i, junction, newJunction, k, r.value)
    ensures r.Err? ==> r.error == RouteFailed || r.error == IllegalArgument
    decreases |routes| - i
  {
    if i == |routes| then Ok([])
    else
      var route := routes[i];
      var moved := Router.MakeRoute(tin, verts, dist, Included(route, junction, newJunction, k), Some([]));
      if moved.Err? then Err(moved.error)
      else
        var rest := Reroute(tin, verts, dist, routes, junction, newJunction, k, i + 1);
        if rest.Err? then Err(rest.error)
        else
          MovedKeeps(route, junction, newJunction, k, moved.value);
          AllMovedCons(routes, i, junction, newJunction, k, moved.value, rest.value);
          Ok([moved.value] + rest.value)
  }

  /** A route through the included coordinates is a moved route. */
  lemma MovedKeeps(route: seq<Coord>, junction: Coord, newJunction: Coord, k: int, r: seq<Coord>)
    requires k >= 1 && IsEndPointOf(junction, route) == Ok(true)
    requires var inc := Included(route, junction, newJunction, k);
      |r| >= 2 && r[0] == inc[0] && SameXY(Last(r), Last(inc)) &&
      forall j :: 0 <= j < |inc| ==> HasXY(r, inc[j])
    ensures MovedRoute(route, junction, newJunction, k, r)
  {
    var inc := Included(route, junction, newJunction, k);
    var m := Loose(route, k);
    if SameXY(route[0], junction) {
      assert Last(inc) == inc[1..][|inc| - 2] == route[|route| - 1];
      forall j | m <= j < |route|
        ensures HasXY(r, route[j])
      {
        assert inc[j - m + 1] == inc[1..][j - m] == route[j];
      }
    } else {
      assert inc[0] == inc[..|inc| - 1][0] == route[0];
      forall j | 0 <= j < |route| - m
        ensures HasXY(r, route[j])
      {
        assert inc[j] == inc[..|inc| - 1][j] == route[j];
      }
    }
  }

  /** `moveJunction(routes, endpointToRemove, newEndpoint, numLooseVertices)`:
      every route is re-routed from the new junction through its vertices
      that are not loose, and the move is refused if the new routes
      overlap. */
  function MoveJunction(tin: Router.Tin, verts: set<(real, real)>, dist: Router.SegDist, contains: Contains,
                        routes: seq<seq<Coord>>, junction: Coord, newJunction: Coord, k: int): (r: Result<seq<seq<Coord>>>)
    requires Router.Closed(tin, verts)
    ensures k < 1 ==> r == Err(IllegalArgument)
    ensures k >= 1 && JunctionCheck(routes, junction).Some? ==> r == Err(JunctionCheck(routes, junction).value)
    ensures r.Ok? ==> k >= 1 && forall i :: 0 <= i < |routes| ==> IsEndPointOf(junction, routes[i]) == Ok(true)
    ensures r.Ok? ==> |r.value| == |routes|
    ensures r.Ok? ==> forall i :: 0 <= i < |routes| ==> MovedRoute(routes[i], junction, newJunction, k, r.value[i])
    ensures r.Ok? ==> !RoutesOverlap(r.value, contains)
  {
    if k < 1 then Err(IllegalArgument)
    else
      var bad := JunctionCheck(routes, junction);
      if bad.Some? then Err(bad.value)
      else
        var moved := Reroute(tin, verts, dist, routes, junction, newJunction, k, 0);
        if moved.Err? then Err(moved.error)
        else if RoutesOverlap(moved.value, contains) then Err(RouteFailed)
        else moved
  }
}
