/** Re-routing a catchment line through the TIN around a moved vertex while
    respecting the water network: a vertex at or next to a confluence of
    streams may not move, and neither may an end point unless the caller
    allows it.  The vertices within `freedom` positions of the moved one
    that may move are dropped, and the rest, with the new position in place
    of the old, are routed through again.  Which coordinates are
    confluences is an input (`WaterAnalyzer.isConfluence`). */
module WaterRouter {

  import opened Wrappers
  import opened Geom
  import Router

  type Confluence = Coord -> bool

  /** Position i is the first or the last of the route. */
  predicate Endpoint(route: seq<Coord>, i: int) {
    i == 0 || i == |route| - 1
  }

  /** The positions whose coordinate must not be a confluence for position
      `index` to move: itself and the next one; the corrected version also
      checks the previous one. */
  predicate Watched(variant: Variant, route: seq<Coord>, index: int, j: int) {
    0 <= j < |route| && (j == index || j == index + 1 || (variant == Corrected && j == index - 1))
  }

  /** `isCoordinateMovable(index, route, isEndpointMovable)`.  As written the
      previous coordinate is never checked: `prev` is still null where it is
      read. */
  function IsCoordinateMovable(variant: Variant, index: int, route: seq<Coord>, endpointMovable: bool,
                               conf: Confluence): (r: Result<bool>)
    ensures r.Ok? <==> 0 <= index < |route|
    ensures r.Err? ==> r.error == IndexOutOfBounds
    ensures r.Ok? ==> (r.value <==> (endpointMovable || !Endpoint(route, index)) &&
                                    forall j :: Watched(variant, route, index, j) ==> !conf(route[j]))
  {
    if index < 0 || index >= |route| then Err(IndexOutOfBounds)
    else if !endpointMovable && (index == 0 || index == |route| - 1) then Ok(false)
    else if conf(route[index]) then Ok(false)
    else if index + 1 < |route| && conf(route[index + 1]) then Ok(false)
    else if variant == Corrected && index > 0 && conf(route[index - 1]) then Ok(false)
    else Ok(true)
  }

  /** As written: in the route p, q, r where only p is a confluence, the
      middle vertex q counts as movable although it is next to p; the
      corrected version keeps it in place. */
  lemma MovableIgnoresPrevious()
    ensures var p := Coord(0.0, 0.0, NaN);
      var q := Coord(1.0, 0.0, NaN);
      var r := Coord(2.0, 0.0, NaN);
      var conf := (c: Coord) => c.x == 0.0;
      IsCoordinateMovable(AsWritten, 1, [p, q, r], true, conf) == Ok(true) &&
      IsCoordinateMovable(Corrected, 1, [p, q, r], true, conf) == Ok(false)
  {
    var p := Coord(0.0, 0.0, NaN);
    var conf := (c: Coord) => c.x == 0.0;
    assert Watched(Corrected, [p, Coord(1.0, 0.0, NaN), Coord(2.0, 0.0, NaN)], 1, 0);
  }

  /** Corrected: a movable vertex has no confluence on either side, and the
      corrected test only ever refuses more than the one as written. */
  lemma MovableCorrected(index: int, route: seq<Coord>, endpointMovable: bool, conf: Confluence)
    requires IsCoordinateMovable(Corrected, index, route, endpointMovable, conf) == Ok(true)
    ensures IsCoordinateMovable(AsWritten, index, route, endpointMovable, conf) == Ok(true)
    ensures index > 0 ==> !conf(route[index - 1])
    ensures index + 1 < |route| ==> !conf(route[index + 1])
    ensures !conf(route[index])
  {
    assert Watched(Corrected, route, index, index);
    if index > 0 {
      assert Watched(Corrected, route, index, index - 1);
    }
    if index + 1 < |route| {
      assert Watched(Corrected, route, index, index + 1);
    }
  }

  /** One re-routing request: the route, the position of the vertex that
      moves and where it moves to, how far around it other vertices may
      move, whether end points may move, and the confluences. */
  datatype Move = Move(variant: Variant, route: seq<Coord>, pivot: int, newCoord: Coord,
                       freedom: int, endpointMovable: bool, conf: Confluence)

  function Abs(x: int): nat {
    if x < 0 then -x else x
  }

  /** Position i is left out of the new route: it is not the pivot, lies
      within `freedom` of it, may move and is no end point. */
  predicate Dropped(m: Move, i: int) {
    0 <= i < |m.route| && i != m.pivot && Abs(m.pivot - i) <= m.freedom &&
    IsCoordinateMovable(m.variant, i, m.route, m.endpointMovable, m.conf) == Ok(true) &&
    !Endpoint(m.route, i)
  }

  /** Position i's own coordinate is asked for in the new route. */
  predicate Kept(m: Move, i: int) {
    0 <= i < |m.route| && i != m.pivot && !Dropped(m, i)
  }

  /** `c` is the coordinate of a kept position before n. */
  predicate FromKept(m: Move, n: int, c: Coord) {
    exists i :: 0 <= i < n && Kept(m, i) && m.route[i] == c
  }

  /** Two 2D-equal entries of the list can only be a coordinate and the new
      position added after it. */
  predicate OnlyNewRepeats(l: seq<Coord>, newCoord: Coord) {
    forall a, b :: 0 <= a < b < |l| && SameXY(l[a], l[b]) ==> l[b] == newCoord
  }

  /** The selection loop of `reroute` over the first n positions: the new
      coordinate at the pivot, nothing for a dropped position, and the
      position's coordinate otherwise unless the list already holds it. */
  function Select(m: Move, n: nat): (l: seq<Coord>)
    requires n <= |m.route|
    ensures |l| <= n
  {
    if n == 0 then []
    else
      var l := Select(m, n - 1);
      var i := n - 1;
      var c := m.route[i];
      if i == m.pivot then l + [m.newCoord]
      else if Dropped(m, i) || HasXY(l, c) then l
      else l + [c]
  }

  /** Every selected coordinate is the new one or a kept position's; every
      kept position is selected (in 2D); the new coordinate is selected once
      the pivot is passed; and only the new coordinate can repeat an
      earlier entry in 2D. */
  predicate SelectInv(m: Move, n: nat, l: seq<Coord>) {
    (forall j :: 0 <= j < |l| ==> l[j] == m.newCoord || FromKept(m, n, l[j])) &&
    (forall i :: 0 <= i < n && Kept(m, i) ==> HasXY(l, m.route[i])) &&
    (0 <= m.pivot < n ==> m.newCoord in l) &&
    OnlyNewRepeats(l, m.newCoord)
  }

  lemma {:induction false} SelectSpec(m: Move, n: nat)
    requires n <= |m.route|
    ensures SelectInv(m, n, Select(m, n))
    decreases n
  {
    if n > 0 {
      SelectSpec(m, n - 1);
      SelectSpecStep(m, n);
    }
  }

  lemma SelectSpecStep(m: Move, n: nat)
    requires 0 < n <= |m.route| && SelectInv(m, n - 1, Select(m, n - 1))
    ensures SelectInv(m, n, Select(m, n))
  {
    var l := Select(m, n - 1);
    var c := m.route[n - 1];
    if n - 1 == m.pivot {
      SelectStep(m, n, l, m.newCoord);
    } else if Dropped(m, n - 1) || HasXY(l, c) {
      SelectKeep(m, n, l);
    } else {
      SelectStep(m, n, l, c);
    }
  }

  /** Select over the first n positions starts with the first of them. */
  lemma {:induction false} SelectFirst(m: Move, n: nat)
    requires 0 < n <= |m.route|
    ensures |Select(m, n)| > 0
    ensures Select(m, n)[0] == if m.pivot == 0 then m.newCoord else m.route[0]
  {
    if n > 1 {
      SelectFirst(m, n - 1);
      assert Select(m, n - 1) <= Select(m, n);
    } else {
      assert !Dropped(m, 0);
    }
  }

  /** `c` is the coordinate of a kept position in [lo, hi). */
  predicate FromKeptBetween(m: Move, lo: int, hi: int, c: Coord) {
    exists i :: lo <= i < hi && Kept(m, i) && m.route[i] == c
  }

  /** `l` is `b`, then the new coordinate, then coordinates of kept
      positions in (pivot, n). */
  predicate AroundPivot(m: Move, b: seq<Coord>, l: seq<Coord>, n: int) {
    |l| > |b| && l[..|b| + 1] == b + [m.newCoord] &&
    forall j :: |b| < j < |l| ==> FromKeptBetween(m, m.pivot + 1, n, l[j])
  }

  /** The new coordinate takes the pivot's place: the selection is the
      selection before the pivot, then the new coordinate, then coordinates
      of kept positions after the pivot. */
  lemma {:induction false} SelectAroundPivot(m: Move, n: nat)
    requires 0 <= m.pivot < n <= |m.route|
    ensures AroundPivot(m, Select(m, m.pivot), Select(m, n), n)
  {
    var b := Select(m, m.pivot);
    SelectUnfold(m, n);
    if n > m.pivot + 1 {
      SelectAroundPivot(m, n - 1);
      AroundPivotStep(m, b, Select(m, n - 1), Select(m, n), n);
    } else {
      AroundPivotBase(m, b, Select(m, n));
    }
  }

  /** One step of the selection loop. */
  lemma SelectUnfold(m: Move, n: nat)
    requires 0 < n <= |m.route|
    ensures var l0 := Select(m, n - 1);
      Select(m, n) == if n - 1 == m.pivot then l0 + [m.newCoord]
                      else if Dropped(m, n - 1) || HasXY(l0, m.route[n - 1]) then l0
                      else l0 + [m.route[n - 1]]
  {
  }

  lemma AroundPivotBase(m: Move, b: seq<Coord>, l: seq<Coord>)
    requires l == b + [m.newCoord]
    ensures AroundPivot(m, b, l, m.pivot + 1)
  {
    assert l[..|b| + 1] == l;
  }

  lemma AroundPivotStep(m: Move, b: seq<Coord>, l0: seq<Coord>, l: seq<Coord>, n: int)
    requires m.pivot < n - 1 < |m.route| && AroundPivot(m, b, l0, n - 1)
    requires l == l0 || (Kept(m, n - 1) && l == l0 + [m.route[n - 1]])
    ensures AroundPivot(m, b, l, n)
  {
    assert l[..|b| + 1] == l0[..|b| + 1];
    forall j | |b| < j < |l|
      ensures FromKeptBetween(m, m.pivot + 1, n, l[j])
    {
      if j < |l0| {
        assert l[j] == l0[j];
        var i :| m.pivot + 1 <= i < n - 1 && Kept(m, i) && m.route[i] == l0[j];
      } else {
        assert Kept(m, n - 1) && l[j] == m.route[n - 1];
      }
    }
  }

  /** Select only ever appends. */
  lemma SelectPrefix(m: Move, n: nat)
    requires 0 < n <= |m.route|
    ensures Select(m, n - 1) <= Select(m, n)
  {
  }

  /** Appending position n - 1's coordinate (or the new one) keeps the
      invariants of the list. */
  lemma SelectStep(m: Move, n: nat, l: seq<Coord>, c: Coord)
    requires 0 < n <= |m.route|
    requires forall j :: 0 <= j < |l| ==> l[j] == m.newCoord || FromKept(m, n - 1, l[j])
    requires forall i :: 0 <= i < n - 1 && Kept(m, i) ==> HasXY(l, m.route[i])
    requires 0 <= m.pivot < n - 1 ==> m.newCoord in l
    requires OnlyNewRepeats(l, m.newCoord)
    requires n - 1 == m.pivot ==> c == m.newCoord
    requires n - 1 != m.pivot ==> c == m.route[n - 1] && Kept(m, n - 1) && !HasXY(l, c)
    ensures var l' := l + [c];
      (forall j :: 0 <= j < |l'| ==> l'[j] == m.newCoord || FromKept(m, n, l'[j])) &&
      (forall i :: 0 <= i < n && Kept(m, i) ==> HasXY(l', m.route[i])) &&
      (0 <= m.pivot < n ==> m.newCoord in l') &&
      OnlyNewRepeats(l', m.newCoord)
  {
    var l' := l + [c];
    forall j | 0 <= j < |l'|
      ensures l'[j] == m.newCoord || FromKept(m, n, l'[j])
    {
      if j < |l| {
        assert l'[j] == l[j];
        if l[j] != m.newCoord {
          var i :| 0 <= i < n - 1 && Kept(m, i) && m.route[i] == l[j];
        }
      } else if n - 1 != m.pivot {
        assert Kept(m, n - 1) && m.route[n - 1] == l'[j];
      }
    }
    forall i | 0 <= i < n && Kept(m, i)
      ensures HasXY(l', m.route[i])
    {
      if i < n - 1 {
        var k :| 0 <= k < |l| && SameXY(l[k], m.route[i]);
        assert l'[k] == l[k];
      } else {
        assert l'[|l|] == m.route[i];
      }
    }
    if 0 <= m.pivot < n - 1 {
      assert m.newCoord in l && l <= l';
    }
    assert l'[|l|] == c;
    forall a, b | 0 <= a < b < |l'| && SameXY(l'[a], l'[b])
      ensures l'[b] == m.newCoord
    {
      if b < |l| {
        assert l'[a] == l[a] && l'[b] == l[b];
      }
    }
  }

  /** Skipping position n - 1 keeps the invariants of the list. */
  lemma SelectKeep(m: Move, n: nat, l: seq<Coord>)
    requires 0 < n <= |m.route| && n - 1 != m.pivot
    requires Dropped(m, n - 1) || HasXY(l, m.route[n - 1])
    requires forall j :: 0 <= j < |l| ==> l[j] == m.newCoord || FromKept(m, n - 1, l[j])
    requires forall i :: 0 <= i < n - 1 && Kept(m, i) ==> HasXY(l, m.route[i])
    requires 0 <= m.pivot < n - 1 ==> m.newCoord in l
    ensures forall j :: 0 <= j < |l| ==> l[j] == m.newCoord || FromKept(m, n, l[j])
    ensures forall i :: 0 <= i < n && Kept(m, i) ==> HasXY(l, m.route[i])
    ensures 0 <= m.pivot < n ==> m.newCoord in l
  {
    forall j | 0 <= j < |l| && l[j] != m.newCoord
      ensures FromKept(m, n, l[j])
    {
      var i :| 0 <= i < n - 1 && Kept(m, i) && m.route[i] == l[j];
    }
  }

  /** `reroute(route, oldCoord, newCoord, freedom, isEndpointMovable)`: the
      old coordinate must be on the route and movable; the new route passes
      through the new coordinate and every kept vertex, and starts where
      the selection does. */
  function Reroute(variant: Variant, tin: Router.Tin, verts: set<(real, real)>, dist: Router.SegDist,
                   conf: Confluence, route: seq<Coord>, oldCoord: Coord, newCoord: Coord,
                   freedom: int, endpointMovable: bool): (r: Result<seq<Coord>>)
    requires Router.Closed(tin, verts)
    ensures !HasXY(route, oldCoord) ==> r == Err(IllegalArgument)
    ensures (HasXY(route, oldCoord) &&
             IsCoordinateMovable(variant, IndexOfXY(route, oldCoord), route, endpointMovable, conf) == Ok(false)) ==>
            r == Err(IllegalArgument)
    ensures r.Err? ==> r.error == IllegalArgument || r.error == RouteFailed
    ensures r.Ok? ==> |r.value| >= 2 && HasXY(r.value, newCoord)
    ensures r.Ok? ==> var m := Move(variant, route, IndexOfXY(route, oldCoord), newCoord, freedom, endpointMovable, conf);
      (forall i :: Kept(m, i) ==> HasXY(r.value, route[i])) &&
      r.value[0] == (if m.pivot == 0 then newCoord else route[0])
  {
    var pivot := IndexOfXY(route, oldCoord);
    if pivot == -1 then Err(IllegalArgument)
    else
      var movable := IsCoordinateMovable(variant, pivot, route, endpointMovable, conf);
      if !movable.value then Err(IllegalArgument)
      else
        var m := Move(variant, route, pivot, newCoord, freedom, endpointMovable, conf);
        var included := Select(m, |route|);
        SelectFirst(m, |route|);
        var x := Router.MakeRoute(tin, verts, dist, included, None);
        if x.Err? then Err(x.error)
        else
          RerouteCovers(m, included, x.value);
          x
  }

  /** A route through every selected coordinate passes through the new one
      and through every kept vertex. */
  lemma RerouteCovers(m: Move, included: seq<Coord>, r: seq<Coord>)
    requires 0 <= m.pivot < |m.route| && included == Select(m, |m.route|)
    requires forall i :: 0 <= i < |included| ==> HasXY(r, included[i])
    ensures HasXY(r, m.newCoord)
    ensures forall i :: Kept(m, i) ==> HasXY(r, m.route[i])
  {
    SelectSpec(m, |m.route|);
    var k :| 0 <= k < |included| && included[k] == m.newCoord;
    assert HasXY(r, included[k]);
    forall i | Kept(m, i)
      ensures HasXY(r, m.route[i])
    {
      var j :| 0 <= j < |included| && SameXY(included[j], m.route[i]);
      assert HasXY(r, included[j]);
      var t :| 0 <= t < |r| && SameXY(r[t], included[j]);
    }
  }

  /** The fixed arguments of re-routing several features: the TIN and the
      route finder's rating, the confluences, the junction that moves and
      where it moves to, and the freedom around it. */
  datatype Job = Job(variant: Variant, tin: Router.Tin, verts: set<(real, real)>, dist: Router.SegDist,
                     conf: Confluence, oldJunction: Coord, newJunction: Coord, freedom: int)

  /** The feature form of `reroute`: the re-routed geometry under the same
      FID.  `rerouteFeatures` lets end points move. */
  function RerouteFeature(job: Job, f: Feature): (r: Result<Feature>)
    requires Router.Closed(job.tin, job.verts)
    ensures r.Ok? ==> r.value.fid == f.fid
    ensures r.Ok? ==> |r.value.geom| >= 2 && HasXY(r.value.geom, job.newJunction)
    ensures !HasXY(f.geom, job.oldJunction) ==> r == Err(IllegalArgument)
  {
    var g := Reroute(job.variant, job.tin, job.verts, job.dist, job.conf, f.geom, job.oldJunction, job.newJunction, job.freedom, true);
    if g.Err? then Err(g.error) else Ok(Feature(f.fid, g.value))
  }

  /** One feature's step of a batch. */
  type Step = Feature --> Result<Feature>

  ghost predicate Applies(step: Step, fs: seq<Feature>) {
    forall i :: 0 <= i < |fs| ==> step.requires(fs[i])
  }

  /** Applies the step to every feature in order; the first failure is the
      result. */
  function MapAll(step: Step, fs: seq<Feature>): (r: Result<seq<Feature>>)
    requires Applies(step, fs)
    ensures r.Ok? ==> |r.value| == |fs|
    decreases |fs|
  {
    if |fs| == 0 then Ok([])
    else
      var g := step(fs[0]);
      if g.Err? then Err(g.error)
      else
        var rest := MapAll(step, fs[1..]);
        if rest.Err? then Err(rest.error) else Ok([g.value] + rest.value)
  }

  lemma {:induction false} MapAllOk(step: Step, fs: seq<Feature>)
    requires Applies(step, fs)
    ensures MapAll(step, fs).Ok? <==> forall i :: 0 <= i < |fs| ==> step(fs[i]).Ok?
    ensures MapAll(step, fs).Err? ==> exists i :: 0 <= i < |fs| && step(fs[i]) == Err(MapAll(step, fs).error)
    decreases |fs|
  {
    if |fs| > 0 {
      var tail := fs[1..];
      MapAllOk(step, tail);
      assert forall i :: 1 <= i < |fs| ==> fs[i] == tail[i - 1];
      var rest := MapAll(step, tail);
      if step(fs[0]).Ok? && rest.Err? {
        var i :| 0 <= i < |tail| && step(tail[i]) == Err(rest.error);
        assert fs[i + 1] == tail[i];
      }
    }
  }

  lemma {:induction false} MapAllAt(step: Step, fs: seq<Feature>, i: nat)
    requires Applies(step, fs) && MapAll(step, fs).Ok? && i < |fs|
    ensures step(fs[i]).Ok? && MapAll(step, fs).value[i] == step(fs[i]).value
    decreases |fs|
  {
    if i > 0 {
      MapAllAt(step, fs[1..], i - 1);
      assert fs[1..][i - 1] == fs[i];
    }
  }

  /** The step of a re-routing job. */
  function JobStep(job: Job): (r: Step)
    ensures Router.Closed(job.tin, job.verts) ==> forall f :: r.requires(f)
  {
    f requires Router.Closed(job.tin, job.verts) => RerouteFeature(job, f)
  }

  /** `reroute(routes, ...)` / `rerouteFeatures`: every feature is re-routed
      in order and the first failure is the result. */
  function RerouteFeatures(job: Job, routes: seq<Feature>): (r: Result<seq<Feature>>)
    requires Router.Closed(job.tin, job.verts)
    ensures r.Ok? ==> |r.value| == |routes|
  {
    MapAll(JobStep(job), routes)
  }

  /** The batch succeeds exactly when every feature re-routes; when it
      fails, the error is that of some feature. */
  lemma RerouteFeaturesOk(job: Job, routes: seq<Feature>)
    requires Router.Closed(job.tin, job.verts)
    ensures RerouteFeatures(job, routes).Ok? <==> forall i :: 0 <= i < |routes| ==> RerouteFeature(job, routes[i]).Ok?
    ensures RerouteFeatures(job, routes).Err? ==>
      exists i :: 0 <= i < |routes| && RerouteFeature(job, routes[i]) == Err(RerouteFeatures(job, routes).error)
  {
    MapAllOk(JobStep(job), routes);
    assert forall i :: 0 <= i < |routes| ==> JobStep(job)(routes[i]) == RerouteFeature(job, routes[i]);
  }

  /** On success the i-th result is the i-th feature re-routed. */
  lemma RerouteFeaturesAt(job: Job, routes: seq<Feature>, i: nat)
    requires Router.Closed(job.tin, job.verts)
    requires RerouteFeatures(job, routes).Ok? && i < |routes|
    ensures RerouteFeature(job, routes[i]).Ok?
    ensures RerouteFeatures(job, routes).value[i] == RerouteFeature(job, routes[i]).value
  {
    MapAllAt(JobStep(job), routes, i);
    assert JobStep(job)(routes[i]) == RerouteFeature(job, routes[i]);
  }
}
