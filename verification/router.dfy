/** Routing a line string through a triangulated irregular network (TIN).
    A route is grown greedily from its start: at each step it moves to the
    TIN neighbour of the current vertex that the route finder rates best,
    never to a vertex already on the route (or on the route it continues)
    and never to a blacklisted one, until it reaches the end coordinate.
    The TIN is an input here: `tin(c)` lists the vertices joined to `c` by
    one edge, every one of them among the finitely many vertices `verts`.
    The route finder rates a step from `from` to `c` by `-dist(from, c,
    target)`, the planar distance from that segment to the target, which
    is also an input. */
module Router {

  import opened Wrappers
  import opened Geom
  import SpatialUtils

  /** The TIN's neighbours of each vertex. */
  type Tin = Coord -> seq<Coord>

  /** `segment.distance(endPoint)` for the segment (a, b) and the point t. */
  type SegDist = (Coord, Coord, Coord) -> real

  /** The starting value of the best fitness: a step rated at or below it is
      never chosen. */
  const InitialBestFitness: real := -999999999.0

  /** Every vertex the TIN hands out lies in `verts`. */
  ghost predicate Closed(tin: Tin, verts: set<(real, real)>) {
    forall c, i :: 0 <= i < |tin(c)| ==> (tin(c)[i].x, tin(c)[i].y) in verts
  }

  /** The 2D positions of a coordinate sequence. */
  function XYs(s: seq<Coord>): (r: set<(real, real)>)
    ensures forall c :: HasXY(s, c) <==> (c.x, c.y) in r
  {
    if |s| == 0 then {}
    else
      var r := XYs(s[..|s| - 1]) + {(s[|s| - 1].x, s[|s| - 1].y)};
      assert forall j :: 0 <= j < |s| - 1 ==> s[..|s| - 1][j] == s[j];
      r
  }

  /** A candidate the finder may pick: not on the route so far and not
      blacklisted. */
  predicate Eligible(c: Coord, routeSoFar: seq<Coord>, blacklist: seq<Coord>) {
    !HasXY(routeSoFar, c) && !HasXY(blacklist, c)
  }

  /** The rating of a step from `from` to `c` towards `target`. */
  function Fitness(dist: SegDist, from: Coord, c: Coord, target: Coord): real {
    -dist(from, c, target)
  }

  /** Candidate k is eligible, rated above the starting value and above
      every eligible candidate before it, and no worse than any after it. */
  predicate IsBest(cands: seq<Coord>, n: nat, k: nat, dist: SegDist, from: Coord, target: Coord,
                   routeSoFar: seq<Coord>, blacklist: seq<Coord>)
    requires n <= |cands|
  {
    k < n && Eligible(cands[k], routeSoFar, blacklist) &&
    Fitness(dist, from, cands[k], target) > InitialBestFitness &&
    (forall j :: 0 <= j < k && Eligible(cands[j], routeSoFar, blacklist) ==>
      Fitness(dist, from, cands[j], target) < Fitness(dist, from, cands[k], target)) &&
    (forall j :: k < j < n && Eligible(cands[j], routeSoFar, blacklist) ==>
      Fitness(dist, from, cands[j], target) <= Fitness(dist, from, cands[k], target))
  }

  /** The loop of `findEndpointClosestTo` over the first n candidates: the
      index of the best one so far, if any beats the starting value. */
  function BestAmong(cands: seq<Coord>, n: nat, dist: SegDist, from: Coord, target: Coord,
                     routeSoFar: seq<Coord>, blacklist: seq<Coord>): (r: Option<nat>)
    requires n <= |cands|
    ensures r.Some? ==> IsBest(cands, n, r.value, dist, from, target, routeSoFar, blacklist)
    ensures r.None? ==> forall j :: 0 <= j < n && Eligible(cands[j], routeSoFar, blacklist) ==>
      Fitness(dist, from, cands[j], target) <= InitialBestFitness
  {
    if n == 0 then None
    else
      var prev := BestAmong(cands, n - 1, dist, from, target, routeSoFar, blacklist);
      var c := cands[n - 1];
      var best := if prev.None? then InitialBestFitness else Fitness(dist, from, cands[prev.value], target);
      if Fitness(dist, from, c, target) > best && Eligible(c, routeSoFar, blacklist) then Some(n - 1)
      else prev
  }

  /** `findEndpointClosestTo`: the best-rated eligible neighbour of `from`,
      None when no neighbour qualifies, and an error when `from` has no
      neighbour at all (it is not a TIN vertex). */
  function FindEndpointClosestTo(tin: Tin, dist: SegDist, from: Coord, target: Coord,
                                 routeSoFar: seq<Coord>, blacklist: seq<Coord>): (r: Result<Option<Coord>>)
    ensures r.Err? <==> |tin(from)| == 0
    ensures r.Err? ==> r.error == IllegalArgument
    ensures r.Ok? && r.value.Some? ==>
      exists k :: 0 <= k < |tin(from)| && tin(from)[k] == r.value.value &&
        IsBest(tin(from), |tin(from)|, k, dist, from, target, routeSoFar, blacklist)
    ensures r.Ok? && r.value.None? ==> forall j :: 0 <= j < |tin(from)| && Eligible(tin(from)[j], routeSoFar, blacklist) ==>
      Fitness(dist, from, tin(from)[j], target) <= InitialBestFitness
  {
    var cands := tin(from);
    if |cands| == 0 then Err(IllegalArgument)
    else
      var k := BestAmong(cands, |cands|, dist, from, target, routeSoFar, blacklist);
      if k.None? then Ok(None) else Ok(Some(cands[k.value]))
  }

  /** The finder never hands back a vertex already routed or blacklisted,
      and only ever a neighbour of `from`. */
  lemma FoundIsEligible(tin: Tin, dist: SegDist, from: Coord, target: Coord,
                        routeSoFar: seq<Coord>, blacklist: seq<Coord>)
    ensures var r := FindEndpointClosestTo(tin, dist, from, target, routeSoFar, blacklist);
      r.Ok? && r.value.Some? ==>
        r.value.value in tin(from) && Eligible(r.value.value, routeSoFar, blacklist)
  {
  }

  /** Consecutive coordinates are TIN neighbours from position k on. */
  predicate StepsFollowTin(tin: Tin, r: seq<Coord>, k: nat) {
    forall i :: k <= i && i + 1 < |r| ==> r[i + 1] in tin(r[i])
  }

  /** The loop of the private `makeRoute(start, end, previous, blacklist)`,
      continuing the partial route `result` (which starts at the start
      coordinate).  A finished route of a single point is no line string,
      so the pairwise route from a coordinate to itself fails. */
  function Walk(tin: Tin, verts: set<(real, real)>, dist: SegDist, end: Coord,
                previous: seq<Coord>, blacklist: seq<Coord>, result: seq<Coord>): (r: Result<seq<Coord>>)
    requires Closed(tin, verts) && |result| > 0
    ensures r.Err? ==> r.error == RouteFailed || r.error == IllegalArgument
    decreases |verts - XYs(result)|
  {
    var current := Last(result);
    if SameXY(current, end) then
      if |result| < 2 then Err(RouteFailed) else Ok(result)
    else
      var found := FindEndpointClosestTo(tin, dist, current, end, previous + result, blacklist);
      if found.Err? then Err(found.error)
      else if found.value.None? then Err(RouteFailed)
      else
        var next := found.value.value;
        if HasXY(result, next) then Err(RouteFailed)
        else
          FoundIsEligible(tin, dist, current, end, previous + result, blacklist);
          WalkProgress(tin, verts, current, next, previous, result);
          Walk(tin, verts, dist, end, previous, blacklist, result + [next])
  }

  /** `r` is a finished route continuing the partial route `result`: it
      extends it, ends at the end coordinate, and adds only eligible
      vertices, each a TIN neighbour of the one before. */
  predicate Continues(tin: Tin, end: Coord, previous: seq<Coord>, blacklist: seq<Coord>,
                      result: seq<Coord>, r: seq<Coord>)
    requires |result| > 0
  {
    |r| >= 2 && |r| >= |result| && r[..|result|] == result &&
    SameXY(Last(r), end) &&
    (forall i :: |result| <= i < |r| ==> Eligible(r[i], previous, blacklist)) &&
    StepsFollowTin(tin, r, |result| - 1)
  }

  /** A finished route continuing `result + [next]` continues `result`. */
  lemma ContinuesStep(tin: Tin, end: Coord, previous: seq<Coord>, blacklist: seq<Coord>,
                      result: seq<Coord>, next: Coord, r: seq<Coord>)
    requires |result| > 0 && next in tin(Last(result)) && Eligible(next, previous, blacklist)
    requires Continues(tin, end, previous, blacklist, result + [next], r)
    ensures Continues(tin, end, previous, blacklist, result, r)
  {
    assert r[..|result|] == r[..|result| + 1][..|result|];
    assert r[|result|] == next;
    assert r[|result| - 1] == Last(result);
  }

  /** A finished walk extends the partial route, ends at the end coordinate
      and steps only along TIN edges to eligible vertices. */
  lemma {:induction false} WalkShape(tin: Tin, verts: set<(real, real)>, dist: SegDist, end: Coord,
                                     previous: seq<Coord>, blacklist: seq<Coord>, result: seq<Coord>)
    requires Closed(tin, verts) && |result| > 0
    ensures var r := Walk(tin, verts, dist, end, previous, blacklist, result);
      r.Ok? ==> Continues(tin, end, previous, blacklist, result, r.value)
    decreases |verts - XYs(result)|
  {
    var current := Last(result);
    if !SameXY(current, end) {
      var found := FindEndpointClosestTo(tin, dist, current, end, previous + result, blacklist);
      if found.Ok? && found.value.Some? && !HasXY(result, found.value.value) {
        var next := found.value.value;
        FoundIsEligible(tin, dist, current, end, previous + result, blacklist);
        WalkProgress(tin, verts, current, next, previous, result);
        var result' := result + [next];
        WalkShape(tin, verts, dist, end, previous, blacklist, result');
        var r := Walk(tin, verts, dist, end, previous, blacklist, result');
        if r.Ok? {
          HasXYInSuffix(previous, result, next);
          ContinuesStep(tin, end, previous, blacklist, result, next, r.value);
        }
      }
    }
  }

  /** A coordinate on the later part of a route is on the whole route. */
  lemma HasXYInSuffix(previous: seq<Coord>, result: seq<Coord>, c: Coord)
    ensures HasXY(result, c) ==> HasXY(previous + result, c)
    ensures HasXY(previous, c) ==> HasXY(previous + result, c)
  {
    if HasXY(result, c) {
      var j :| 0 <= j < |result| && SameXY(result[j], c);
      assert (previous + result)[|previous| + j] == result[j];
    }
    if HasXY(previous, c) {
      var j :| 0 <= j < |previous| && SameXY(previous[j], c);
      assert (previous + result)[j] == previous[j];
    }
  }

  /** Each step visits a TIN vertex the route has not visited, so fewer
      unvisited vertices remain. */
  lemma WalkProgress(tin: Tin, verts: set<(real, real)>, current: Coord, next: Coord,
                     previous: seq<Coord>, result: seq<Coord>)
    requires Closed(tin, verts) && next in tin(current)
    requires !HasXY(previous + result, next)
    ensures |verts - XYs(result + [next])| < |verts - XYs(result)|
    ensures StepsFollowTin(tin, [current, next], 0)
  {
    var i :| 0 <= i < |tin(current)| && tin(current)[i] == next;
    var p := (next.x, next.y);
    assert p in verts;
    HasXYInSuffix(previous, result, next);
    assert p !in XYs(result);
    assert (result + [next])[..|result|] == result;
    assert XYs(result + [next]) == XYs(result) + {p};
    var rest := verts - XYs(result);
    assert p in rest;
    assert verts - XYs(result + [next]) == rest - {p};
  }

  /** The private `makeRoute(start, end, previous, blacklist)`. */
  function PairRoute(tin: Tin, verts: set<(real, real)>, dist: SegDist, start: Coord, end: Coord,
                     previous: seq<Coord>, blacklist: seq<Coord>): (r: Result<seq<Coord>>)
    requires Closed(tin, verts)
    ensures r.Ok? ==> |r.value| >= 2 && r.value[0] == start && SameXY(Last(r.value), end)
    ensures r.Ok? ==> forall i :: 1 <= i < |r.value| ==> Eligible(r.value[i], previous, blacklist)
    ensures r.Ok? ==> StepsFollowTin(tin, r.value, 0)
    ensures r.Ok? ==> DistinctXY(r.value)
    ensures SameXY(start, end) ==> r == Err(RouteFailed)
    ensures r.Err? ==> r.error == RouteFailed || r.error == IllegalArgument
  {
    var r := Walk(tin, verts, dist, end, previous, blacklist, [start]);
    WalkShape(tin, verts, dist, end, previous, blacklist, [start]);
    assert r.Ok? ==> r.value[0] == r.value[..1][0];
    WalkDistinct(tin, verts, dist, end, previous, blacklist, [start]);
    r
  }

  /** A pairwise route never visits a coordinate twice. */
  lemma {:induction false} WalkDistinct(tin: Tin, verts: set<(real, real)>, dist: SegDist, end: Coord,
                                        previous: seq<Coord>, blacklist: seq<Coord>, result: seq<Coord>)
    requires Closed(tin, verts) && |result| > 0 && DistinctXY(result)
    ensures var r := Walk(tin, verts, dist, end, previous, blacklist, result);
      r.Ok? ==> DistinctXY(r.value)
    decreases |verts - XYs(result)|
  {
    var current := Last(result);
    if !SameXY(current, end) {
      var found := FindEndpointClosestTo(tin, dist, current, end, previous + result, blacklist);
      if found.Ok? && found.value.Some? && !HasXY(result, found.value.value) {
        var next := found.value.value;
        FoundIsEligible(tin, dist, current, end, previous + result, blacklist);
        WalkProgress(tin, verts, current, next, previous, result);
        forall i, j | 0 <= i < j < |result + [next]|
          ensures !SameXY((result + [next])[i], (result + [next])[j])
        {
          if j == |result| {
            assert (result + [next])[i] == result[i];
          } else {
            assert (result + [next])[i] == result[i] && (result + [next])[j] == result[j];
          }
        }
        WalkDistinct(tin, verts, dist, end, previous, blacklist, result + [next]);
      }
    }
  }

  /** The test that the chosen vertex is not already on the pairwise
      route never fires: the finder already refuses such vertices. */
  lemma {:induction false} RepeatCheckIsRedundant(tin: Tin, dist: SegDist, end: Coord,
                                                  previous: seq<Coord>, blacklist: seq<Coord>, result: seq<Coord>)
    requires |result| > 0
    ensures var found := FindEndpointClosestTo(tin, dist, Last(result), end, previous + result, blacklist);
      found.Ok? && found.value.Some? ==> !HasXY(result, found.value.value)
  {
    var found := FindEndpointClosestTo(tin, dist, Last(result), end, previous + result, blacklist);
    FoundIsEligible(tin, dist, Last(result), end, previous + result, blacklist);
    if found.Ok? && found.value.Some? {
      HasXYInSuffix(previous, result, found.value.value);
    }
  }

  /** `joinRoutes`: the coordinates of both routes (a missing route being
      empty) with runs of 2D-equal neighbours collapsed. */
  function JoinRoutes(a: Option<seq<Coord>>, b: seq<Coord>): seq<Coord> {
    SpatialUtils.Dedup(SpatialUtils.FromNullable(a) + b)
  }

  /** The public `makeRoute(included, excluded)` from the i-th included
      coordinate on, `result` being the route so far. */
  function RouteThrough(tin: Tin, verts: set<(real, real)>, dist: SegDist, included: seq<Coord>, i: nat,
                        excluded: seq<Coord>, result: Option<seq<Coord>>): (r: Result<Option<seq<Coord>>>)
    requires Closed(tin, verts) && 1 <= i <= |included|
    ensures r.Err? ==> r.error == RouteFailed || r.error == IllegalArgument
    decreases |included| - i
  {
    if i == |included| then Ok(result)
    else
      var partial := PairRoute(tin, verts, dist, included[i - 1], included[i], SpatialUtils.FromNullable(result), excluded);
      if partial.Err? then Err(partial.error)
      else RouteThrough(tin, verts, dist, included, i + 1, excluded, Some(JoinRoutes(result, partial.value)))
  }

  /** `makeRoute(included, excluded)`: the pairwise routes between
      consecutive included coordinates, joined. */
  function MakeRoute(tin: Tin, verts: set<(real, real)>, dist: SegDist, included: seq<Coord>, excluded: Option<seq<Coord>>): (r: Result<seq<Coord>>)
    requires Closed(tin, verts)
    ensures |included| < 2 ==> r == Err(RouteFailed)
    ensures r.Err? ==> r.error == RouteFailed || r.error == IllegalArgument
    ensures r.Ok? ==> |r.value| >= 2 && r.value[0] == included[0] && SameXY(Last(r.value), Last(included))
    ensures r.Ok? ==> forall i :: 0 <= i < |included| ==> HasXY(r.value, included[i])
    ensures r.Ok? ==> SpatialUtils.NoAdjacentDup(r.value)
  {
    if |included| < 2 then Err(RouteFailed)
    else
      var x := RouteThrough(tin, verts, dist, included, 1, SpatialUtils.FromNullable(excluded), None);
      RouteThroughShape(tin, verts, dist, included, 1, SpatialUtils.FromNullable(excluded), None);
      if x.Err? then Err(x.error)
      else if x.value.None? then Err(RouteFailed)
      else Ok(x.value.value)
  }

  /** What the joined route looks like after each pairwise route: it starts
      with the first included coordinate, ends at the latest one, holds
      every included coordinate so far and has no 2D-equal neighbours. */
  predicate JoinedSoFar(included: seq<Coord>, i: nat, r: seq<Coord>)
    requires 1 <= i <= |included|
  {
    |r| >= 2 && r[0] == included[0] && SameXY(Last(r), included[i - 1]) &&
    (forall j :: 0 <= j < i ==> HasXY(r, included[j])) &&
    SpatialUtils.NoAdjacentDup(r)
  }

  lemma {:induction false} RouteThroughShape(tin: Tin, verts: set<(real, real)>, dist: SegDist, included: seq<Coord>, i: nat,
                                             excluded: seq<Coord>, result: Option<seq<Coord>>)
    requires Closed(tin, verts) && 1 <= i <= |included|
    requires i == 1 ==> result.None?
    requires i > 1 ==> result.Some? && JoinedSoFar(included, i, result.value)
    ensures var x := RouteThrough(tin, verts, dist, included, i, excluded, result);
      x.Ok? && x.value.Some? ==> JoinedSoFar(included, |included|, x.value.value)
    ensures var x := RouteThrough(tin, verts, dist, included, i, excluded, result);
      x.Ok? && |included| >= 2 ==> x.value.Some?
    decreases |included| - i
  {
    if i < |included| {
      var partial := PairRoute(tin, verts, dist, included[i - 1], included[i], SpatialUtils.FromNullable(result), excluded);
      if partial.Ok? {
        JoinStep(included, i, result, partial.value);
        RouteThroughShape(tin, verts, dist, included, i + 1, excluded, Some(JoinRoutes(result, partial.value)));
      }
    }
  }

  /** A sequence holding two 2D-distinct coordinates has two elements. */
  lemma TwoApart(d: seq<Coord>, a: Coord, b: Coord)
    requires HasXY(d, a) && HasXY(d, b) && !SameXY(a, b)
    ensures |d| >= 2
  {
    var i :| 0 <= i < |d| && SameXY(d[i], a);
    var j :| 0 <= j < |d| && SameXY(d[j], b);
    assert i != j;
  }

  /** Joining the next pairwise route keeps the shape of the joined route. */
  lemma JoinStep(included: seq<Coord>, i: nat, result: Option<seq<Coord>>, p: seq<Coord>)
    requires 1 <= i < |included|
    requires i == 1 ==> result.None?
    requires i > 1 ==> result.Some? && JoinedSoFar(included, i, result.value)
    requires |p| >= 2 && p[0] == included[i - 1] && SameXY(Last(p), included[i]) && !SameXY(p[0], p[1])
    ensures JoinedSoFar(included, i + 1, JoinRoutes(result, p))
  {
    var s := SpatialUtils.FromNullable(result) + p;
    var d := SpatialUtils.Dedup(s);
    SpatialUtils.DedupShape(s);
    SpatialUtils.DedupCovers(s);
    assert s[0] == included[0] by {
      if i > 1 {
        assert s[0] == result.value[0];
      }
    }
    assert Last(s) == Last(p);
    JoinCovers(included, i, result, p);
    var n := |SpatialUtils.FromNullable(result)|;
    assert s[n] == p[0] && s[n + 1] == p[1];
    TwoApart(d, s[n], s[n + 1]);
  }

  /** The joined route holds every included coordinate up to the i-th. */
  lemma JoinCovers(included: seq<Coord>, i: nat, result: Option<seq<Coord>>, p: seq<Coord>)
    requires 1 <= i < |included|
    requires i == 1 ==> result.None?
    requires i > 1 ==> result.Some? && JoinedSoFar(included, i, result.value)
    requires |p| >= 2 && p[0] == included[i - 1] && SameXY(Last(p), included[i])
    ensures forall j :: 0 <= j < i + 1 ==> HasXY(JoinRoutes(result, p), included[j])
  {
    var s := SpatialUtils.FromNullable(result) + p;
    var d := SpatialUtils.Dedup(s);
    SpatialUtils.DedupCovers(s);
    forall j | 0 <= j < i + 1
      ensures HasXY(d, included[j])
    {
      if j == i {
        assert Last(s) == Last(p);
        assert SameXY(d[|d| - 1], included[j]);
      } else if i == 1 {
        assert s[0] == included[0];
        assert HasXY(d, s[0]);
      } else {
        var k :| 0 <= k < |result.value| && SameXY(result.value[k], included[j]);
        assert s[k] == result.value[k];
        assert HasXY(d, s[k]);
      }
    }
  }
}
