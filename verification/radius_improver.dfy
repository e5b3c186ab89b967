/** The helpers of the radius improver, which moves the points of a
    catchment section (and junctions shared by several sections) up hill to
    nearby TIN vertices: building a route point by point without repeats,
    the part of a route not yet inspected, the picked-prefix/original-tail
    hybrid, the higher nearby vertices as candidates sorted from highest
    down, and the choice of the best junction move.

    The datastore query for TIN edges near a point, the router, the water
    validity test and the fitness of a route are parameters.  Planar
    distances are compared through their squares. */
module RadiusImprover {

  import opened Wrappers
  import opened Geom
  import SpatialUtils

  /** `addCoordinate(coords, c)`: `c` is appended unless it equals (in 2D)
      the last coordinate. */
  function AddCoordinate(coords: seq<Coord>, c: Coord): (r: seq<Coord>)
    ensures |coords| <= |r| <= |coords| + 1 && r[..|coords|] == coords
    ensures |r| > 0 && SameXY(r[|r| - 1], c)
    ensures |r| == |coords| <==> |coords| > 0 && SameXY(coords[|coords| - 1], c)
    ensures SpatialUtils.NoAdjacentDup(coords) ==> SpatialUtils.NoAdjacentDup(r)
  {
    if |coords| > 0 && SameXY(coords[|coords| - 1], c) then coords else coords + [c]
  }

  /** Adding coordinates one by one. */
  function AddAll(acc: seq<Coord>, s: seq<Coord>): (r: seq<Coord>)
    decreases |s|
  {
    if |s| == 0 then acc else AddAll(AddCoordinate(acc, s[0]), s[1..])
  }

  /** Adding the coordinates of a sequence one by one to an empty route
      removes exactly the repeated neighbours, as the shared de-duplication
      helper does. */
  lemma AddAllIsDedup(s: seq<Coord>)
    ensures AddAll([], s) == SpatialUtils.Dedup(s)
  {
    if |s| > 0 {
      AddAllAfter([s[0]], s[0], s[1..]);
    }
  }

  lemma {:induction false} AddAllAfter(acc: seq<Coord>, prev: Coord, s: seq<Coord>)
    requires |acc| > 0 && SameXY(acc[|acc| - 1], prev)
    ensures AddAll(acc, s) == acc + SpatialUtils.DedupAfter(prev, s)
    decreases |s|
  {
    if |s| > 0 {
      var next := AddCoordinate(acc, s[0]);
      AddAllAfter(next, s[0], s[1..]);
      if SameXY(prev, s[0]) {
        assert next == acc;
      } else {
        assert next == acc + [s[0]];
      }
    }
  }

  /** `getHybridCoords(picked, original)`: an array of the original's
      length holding the picked coordinates and then the original's
      remaining ones.  More picked than original coordinates overruns the
      array. */
  method HybridCoords(picked: seq<Coord>, original: seq<Coord>) returns (r: Result<seq<Coord>>)
    ensures r.Err? <==> |picked| > |original|
    ensures r.Err? ==> r.error == IndexOutOfBounds
    ensures r.Ok? ==> |r.value| == |original| && r.value[..|picked|] == picked
    ensures r.Ok? ==> r.value[|picked|..] == original[|picked|..]
  {
    if |picked| > |original| {
      return Err(IndexOutOfBounds);
    }
    var h: seq<Coord> := [];
    var i := 0;
    while i < |picked|
      invariant 0 <= i <= |picked| && h == picked[..i]
    {
      h := h + [picked[i]];
      i := i + 1;
    }
    while i < |original|
      invariant |picked| <= i <= |original|
      invariant h == picked + original[|picked|..i]
    {
      h := h + [original[i]];
      i := i + 1;
    }
    assert h[..|picked|] == picked;
    return Ok(h);
  }

  /** `getUninspectedCoords(c, coords)`: the coordinates from the first one
      equal to `c` (in 2D) to the end; none when no coordinate equals it. */
  method UninspectedCoords(c: Coord, coords: seq<Coord>) returns (r: seq<Coord>)
    ensures !HasXY(coords, c) ==> r == []
    ensures HasXY(coords, c) ==> r == coords[IndexOfXY(coords, c)..]
  {
    r := [];
    var doCopy := false;
    var i := 0;
    while i < |coords|
      invariant 0 <= i <= |coords|
      invariant doCopy <==> (IndexOfXY(coords, c) != -1 && IndexOfXY(coords, c) < i)
      invariant !doCopy ==> r == []
      invariant doCopy ==> r == coords[IndexOfXY(coords, c)..i]
    {
      if coords[i].x == c.x && coords[i].y == c.y {
        doCopy := true;
      }
      if doCopy {
        r := r + [coords[i]];
      }
      i := i + 1;
    }
    if doCopy {
      assert coords[IndexOfXY(coords, c)..|coords|] == coords[IndexOfXY(coords, c)..];
    }
  }

  /** `getTinCoordsInRadius(c, radius)`: the vertices of the TIN edges the
      datastore finds near `c` (given in query order as `vertices`) that
      lie within `radius` of `c`, each position once. */
  method TinCoordsInRadius(c: Coord, radius: real, vertices: seq<Coord>) returns (r: seq<Coord>)
    ensures DistinctXY(r)
    ensures forall i :: 0 <= i < |r| ==> r[i] in vertices && Within(c, r[i], radius)
    ensures forall i :: 0 <= i < |vertices| && Within(c, vertices[i], radius) ==> HasXY(r, vertices[i])
  {
    r := [];
    var i := 0;
    while i < |vertices|
      invariant 0 <= i <= |vertices|
      invariant DistinctXY(r)
      invariant forall k :: 0 <= k < |r| ==> r[k] in vertices && Within(c, r[k], radius)
      invariant forall k :: 0 <= k < i && Within(c, vertices[k], radius) ==> HasXY(r, vertices[k])
    {
      var v := vertices[i];
      if Within(c, v, radius) && !HasXY(r, v) {
        ghost var r0 := r;
        r := r + [v];
        forall k | 0 <= k < i && Within(c, vertices[k], radius)
          ensures HasXY(r, vertices[k])
        {
          var j :| 0 <= j < |r0| && SameXY(r0[j], vertices[k]);
          assert r[j] == r0[j];
        }
        assert SameXY(r[|r| - 1], v);
      }
      i := i + 1;
    }
  }

  /** The planar distance from `c` to `v` is at most `radius`. */
  predicate Within(c: Coord, v: Coord, radius: real) {
    radius >= 0.0 && Dist2(c, v) <= radius * radius
  }

  /** Some avoided coordinate is strictly nearer to `p` than the original
      coordinate is. */
  predicate NearerToAvoided(p: Coord, original: Coord, avoid: seq<Coord>) {
    exists k :: 0 <= k < |avoid| && Dist2(p, avoid[k]) < Dist2(p, original)
  }

  /** A candidate worth keeping: strictly higher than the original and not
      nearer to an avoided coordinate than to the original. */
  predicate Admissible(p: Coord, original: Coord, avoid: seq<Coord>) {
    Gt(p.z, original.z) && !NearerToAvoided(p, original, avoid)
  }

  /** The loop over the avoided coordinates. */
  function TooClose(p: Coord, original: Coord, avoid: seq<Coord>): (r: bool)
    ensures r <==> NearerToAvoided(p, original, avoid)
    decreases |avoid|
  {
    if |avoid| == 0 then false
    else if Dist2(p, avoid[0]) < Dist2(p, original) then true
    else
      assert forall k :: 1 <= k < |avoid| ==> avoid[k] == avoid[1..][k - 1];
      TooClose(p, original, avoid[1..])
  }

  /** The filtering loop of `suggestAlternativeCoordsSorted`, continuing
      from the coordinates `acc` kept so far: a position already kept is
      skipped, a candidate without elevation throws, and the rest are kept
      when admissible. */
  function Filter(original: Coord, avoid: seq<Coord>, proposed: seq<Coord>, acc: seq<Coord>): (r: Result<seq<Coord>>)
    requires original.z.Z?
    requires DistinctXY(acc)
    ensures (forall i :: 0 <= i < |proposed| ==> proposed[i].z.Z?) ==> r.Ok?
    ensures r.Err? ==> r.error == IllegalArgument && exists i :: 0 <= i < |proposed| && proposed[i].z.NaN?
    ensures r.Ok? ==> DistinctXY(r.value) && |r.value| >= |acc| && r.value[..|acc|] == acc
    ensures r.Ok? ==> forall i :: |acc| <= i < |r.value| ==>
      r.value[i] in proposed && Admissible(r.value[i], original, avoid)
    ensures r.Ok? ==> forall i :: 0 <= i < |proposed| && Admissible(proposed[i], original, avoid) ==>
      HasXY(r.value, proposed[i])
    decreases |proposed|
  {
    if |proposed| == 0 then Ok(acc)
    else
      var p := proposed[0];
      assert forall i :: 1 <= i < |proposed| ==> proposed[i] == proposed[1..][i - 1];
      if HasXY(acc, p) then
        var r := Filter(original, avoid, proposed[1..], acc);
        assert r.Ok? ==> HasXY(r.value, p) by {
          if r.Ok? {
            var j :| 0 <= j < |acc| && SameXY(acc[j], p);
            assert r.value[j] == acc[j];
          }
        }
        r
      else if p.z.NaN? then Err(IllegalArgument)
      else if !Gt(p.z, original.z) || TooClose(p, original, avoid) then
        Filter(original, avoid, proposed[1..], acc)
      else
        var acc' := acc + [p];
        assert DistinctXY(acc') by {
          forall i, j | 0 <= i < j < |acc'|
            ensures !SameXY(acc'[i], acc'[j])
          {
            if j == |acc| {
              assert acc'[j] == p;
              assert !SameXY(acc[i], p);
            }
          }
        }
        var r := Filter(original, avoid, proposed[1..], acc');
        assert r.Ok? ==> r.value[..|acc|] == acc && r.value[|acc|] == p && HasXY(r.value, p) by {
          if r.Ok? {
            assert r.value[..|acc'|][..|acc|] == acc;
            assert r.value[|acc|] == acc'[|acc|];
            assert SameXY(r.value[|acc|], p);
          }
        }
        r
  }

  /** Every coordinate has an elevation. */
  predicate AllZ(s: seq<Coord>) {
    forall i :: 0 <= i < |s| ==> s[i].z.Z?
  }

  /** Highest first. */
  predicate DescendingZ(s: seq<Coord>)
    requires AllZ(s)
  {
    forall i, j :: 0 <= i < j < |s| ==> s[i].z.v >= s[j].z.v
  }

  /** Placing `x` in front of the first coordinate it is at least as high
      as, so equal elevations keep their order (the sort is stable). */
  function InsertZ(x: Coord, s: seq<Coord>): (r: seq<Coord>)
    requires x.z.Z? && AllZ(s)
    ensures |r| == |s| + 1 && AllZ(r)
    ensures multiset(r) == multiset(s) + multiset{x}
    decreases |s|
  {
    if |s| == 0 || x.z.v >= s[0].z.v then [x] + s
    else
      var t := InsertZ(x, s[1..]);
      assert s == [s[0]] + s[1..];
      [s[0]] + t
  }

  /** `filteredCoords.sort(...)` with the comparator ordering by elevation,
      highest first. */
  function SortByZ(s: seq<Coord>): (r: seq<Coord>)
    requires AllZ(s)
    ensures |r| == |s| && AllZ(r)
    ensures multiset(r) == multiset(s)
    decreases |s|
  {
    if |s| == 0 then []
    else
      assert s == [s[0]] + s[1..];
      InsertZ(s[0], SortByZ(s[1..]))
  }

  lemma {:induction false} InsertZSorted(x: Coord, s: seq<Coord>)
    requires x.z.Z? && AllZ(s) && DescendingZ(s)
    ensures DescendingZ(InsertZ(x, s))
    decreases |s|
  {
    if |s| > 0 && x.z.v < s[0].z.v {
      InsertZSorted(x, s[1..]);
      var t := InsertZ(x, s[1..]);
      forall k | 0 <= k < |t|
        ensures s[0].z.v >= t[k].z.v
      {
        assert t[k] in multiset(s[1..]) + multiset{x};
        if t[k] in multiset(s[1..]) {
          var m :| 0 <= m < |s[1..]| && s[1..][m] == t[k];
          assert s[1..][m] == s[m + 1];
        }
      }
    }
  }

  lemma {:induction false} SortByZSorted(s: seq<Coord>)
    requires AllZ(s)
    ensures DescendingZ(SortByZ(s))
    decreases |s|
  {
    if |s| > 0 {
      SortByZSorted(s[1..]);
      InsertZSorted(s[0], SortByZ(s[1..]));
    }
  }

  /** Two sequences with the same elements have the same positions. */
  lemma SameElementsDistinct(s: seq<Coord>, t: seq<Coord>)
    requires multiset(s) == multiset(t) && DistinctXY(s)
    ensures DistinctXY(t)
  {
    forall i, j | 0 <= i < j < |t|
      ensures !SameXY(t[i], t[j])
    {
      var ti := t[i];
      var tj := t[j];
      assert ti in multiset(s);
      assert tj in multiset(s);
      var a :| 0 <= a < |s| && s[a] == ti;
      var b :| 0 <= b < |s| && s[b] == tj;
      SingleOccurrence(s, a);
      MultisetTwice(t, i, j);
      assert a != b;
    }
  }

  /** A value at two positions occurs at least twice. */
  lemma MultisetTwice(t: seq<Coord>, i: nat, j: nat)
    requires i < j < |t|
    ensures t[i] == t[j] ==> multiset(t)[t[i]] >= 2
  {
    assert t == t[..j] + [t[j]] + t[j + 1..];
    assert t[..j] == t[..i] + [t[i]] + t[i + 1..j];
    assert multiset(t) == multiset(t[..i]) + multiset{t[i]} + multiset(t[i + 1..j]) + multiset{t[j]} + multiset(t[j + 1..]);
  }

  /** In a sequence without repeated positions, each coordinate occurs
      once. */
  lemma SingleOccurrence(s: seq<Coord>, a: nat)
    requires a < |s| && DistinctXY(s)
    ensures multiset(s)[s[a]] == 1
  {
    assert s == s[..a] + [s[a]] + s[a + 1..];
    forall k | 0 <= k < a
      ensures s[..a][k] != s[a]
    {
      assert s[..a][k] == s[k];
    }
    var tail := s[a + 1..];
    forall k | 0 <= k < |tail|
      ensures tail[k] != s[a]
    {
      assert tail[k] == s[a + 1 + k];
    }
    assert s[a] !in s[..a];
    assert s[a] !in tail;
    assert multiset(s[..a])[s[a]] == 0;
    assert multiset(s[a + 1..])[s[a]] == 0;
  }

  /** `suggestAlternativeCoordsSorted(original, avoid)` given the TIN
      vertices near the original: an original without elevation throws;
      otherwise the admissible candidates, each position once, highest
      first. */
  function SuggestAlternatives(original: Coord, avoid: seq<Coord>, proposed: seq<Coord>): (r: Result<seq<Coord>>)
    ensures original.z.NaN? ==> r == Err(IllegalArgument)
    ensures original.z.Z? && AllZ(proposed) ==> r.Ok?
    ensures r.Err? ==> r.error == IllegalArgument
    ensures r.Ok? ==> AllZ(r.value) && DistinctXY(r.value)
  {
    if original.z.NaN? then Err(IllegalArgument)
    else
      var f := Filter(original, avoid, proposed, []);
      if f.Err? then Err(f.error)
      else
        assert AllZ(f.value) by {
          forall i | 0 <= i < |f.value|
            ensures f.value[i].z.Z?
          {
            assert Admissible(f.value[i], original, avoid);
          }
        }
        var sorted := SortByZ(f.value);
        SameElementsDistinct(f.value, sorted);
        Ok(sorted)
  }

  /** The suggestions are highest first. */
  lemma SuggestionsDescend(original: Coord, avoid: seq<Coord>, proposed: seq<Coord>)
    requires SuggestAlternatives(original, avoid, proposed).Ok?
    ensures DescendingZ(SuggestAlternatives(original, avoid, proposed).value)
  {
    var f := Filter(original, avoid, proposed, []).value;
    assert SuggestAlternatives(original, avoid, proposed).value == SortByZ(f);
    SortByZSorted(f);
  }

  /** Every suggestion is a nearby vertex strictly higher than the original
      and not nearer to an avoided coordinate than to the original. */
  lemma SuggestionsAdmissible(original: Coord, avoid: seq<Coord>, proposed: seq<Coord>)
    requires SuggestAlternatives(original, avoid, proposed).Ok?
    ensures forall i :: 0 <= i < |SuggestAlternatives(original, avoid, proposed).value| ==>
      SuggestAlternatives(original, avoid, proposed).value[i] in proposed &&
      Admissible(SuggestAlternatives(original, avoid, proposed).value[i], original, avoid)
  {
    var f := Filter(original, avoid, proposed, []).value;
    var r := SuggestAlternatives(original, avoid, proposed).value;
    assert r == SortByZ(f);
    forall i | 0 <= i < |r|
      ensures r[i] in proposed && Admissible(r[i], original, avoid)
    {
      assert r[i] in multiset(f);
      var k :| 0 <= k < |f| && f[k] == r[i];
    }
  }

  /** Every admissible nearby vertex is among the suggestions (by
      position). */
  lemma SuggestionsComplete(original: Coord, avoid: seq<Coord>, proposed: seq<Coord>)
    requires SuggestAlternatives(original, avoid, proposed).Ok?
    ensures forall i :: 0 <= i < |proposed| && Admissible(proposed[i], original, avoid) ==>
      HasXY(SuggestAlternatives(original, avoid, proposed).value, proposed[i])
  {
    var f := Filter(original, avoid, proposed, []).value;
    var r := SuggestAlternatives(original, avoid, proposed).value;
    assert r == SortByZ(f);
    forall i | 0 <= i < |proposed| && Admissible(proposed[i], original, avoid)
      ensures HasXY(r, proposed[i])
    {
      var k :| 0 <= k < |f| && SameXY(f[k], proposed[i]);
      assert f[k] in multiset(r);
      var m :| 0 <= m < |r| && r[m] == f[k];
    }
  }

  /** A proposed junction move: the junction, where it moves, and the
      touching sections with their re-routed geometries. */
  datatype JunctionModification = JunctionModification(original: Coord, modified: Coord, sections: seq<Feature>)

  /** An evaluated alternative: the summed fitness of the moved routes and
      the modification it proposes. */
  datatype Candidate = Candidate(fitness: real, modification: JunctionModification)

  /** The proposed sections and the route fitnesses, route by route: route
      i replaces the geometry of touching section i, keeping its FID (more
      routes than sections overruns the list), and is then scored.  The
      first failure ends the loop. */
  function Propose(touching: seq<Feature>, routes: seq<seq<Coord>>,
                   fitness: seq<Coord> -> Result<real>): (r: Result<(seq<Feature>, seq<real>)>)
    ensures r.Ok? <==> |routes| <= |touching| && forall i :: 0 <= i < |routes| ==> fitness(routes[i]).Ok?
    ensures r.Ok? ==> |r.value.0| == |routes| && |r.value.1| == |routes|
    ensures r.Ok? ==> forall i :: 0 <= i < |routes| ==>
      r.value.0[i] == Feature(touching[i].fid, routes[i]) && fitness(routes[i]) == Ok(r.value.1[i])
    ensures r.Err? ==>
      (|routes| > |touching| && r.error == IndexOutOfBounds) ||
      (exists i :: 0 <= i < |routes| && fitness(routes[i]) == Err(r.error))
    decreases |routes|
  {
    if |routes| == 0 then Ok(([], []))
    else if |touching| == 0 then Err(IndexOutOfBounds)
    else
      var f := fitness(routes[0]);
      var rest := Propose(touching[1..], routes[1..], fitness);
      assert forall i :: 1 <= i < |routes| ==> routes[i] == routes[1..][i - 1];
      assert forall i :: 1 <= i < |touching| ==> touching[i] == touching[1..][i - 1];
      if f.Err? then Err(f.error)
      else if rest.Err? then Err(rest.error)
      else Ok(([Feature(touching[0].fid, routes[0])] + rest.value.0, [f.value] + rest.value.1))
  }

  /** One alternative junction.  Only a `RouteException` from the router
      skips the alternative, as do moved routes that touch water; any other
      failure of the router or of the fitness propagates. */
  function Evaluate(junction: Coord, alt: Coord, touching: seq<Feature>,
                    moveJunction: Coord -> Result<seq<seq<Coord>>>, validWrtWater: seq<seq<Coord>> -> bool,
                    fitness: seq<Coord> -> Result<real>): (r: Result<Option<Candidate>>)
    ensures moveJunction(alt) == Err(RouteFailed) ==> r == Ok(None)
    ensures moveJunction(alt).Err? && moveJunction(alt).error != RouteFailed ==> r == Err(moveJunction(alt).error)
    ensures moveJunction(alt).Ok? && !validWrtWater(moveJunction(alt).value) ==> r == Ok(None)
    ensures moveJunction(alt).Ok? && validWrtWater(moveJunction(alt).value) ==>
      (r.Ok? <==> Propose(touching, moveJunction(alt).value, fitness).Ok?)
    ensures r.Ok? && r.value.Some? ==>
      moveJunction(alt).Ok? && Propose(touching, moveJunction(alt).value, fitness).Ok? &&
      r.value.value.modification == JunctionModification(junction, alt, Propose(touching, moveJunction(alt).value, fitness).value.0) &&
      r.value.value.fitness == Sum(Propose(touching, moveJunction(alt).value, fitness).value.1)
  {
    var moved := moveJunction(alt);
    if moved.Err? then
      if moved.error == RouteFailed then Ok(None) else Err(moved.error)
    else if !validWrtWater(moved.value) then Ok(None)
    else
      var p :- Propose(touching, moved.value, fitness);
      Ok(Some(Candidate(Sum(p.1), JunctionModification(junction, alt, p.0))))
  }

  predicate EvaluateFails(junction: Coord, alt: Coord, touching: seq<Feature>,
                          moveJunction: Coord -> Result<seq<seq<Coord>>>, validWrtWater: seq<seq<Coord>> -> bool,
                          fitness: seq<Coord> -> Result<real>)
  {
    Evaluate(junction, alt, touching, moveJunction, validWrtWater, fitness).Err?
  }

  /** The alternatives evaluated in order; a failure ends the call. */
  function EvaluateAll(junction: Coord, alts: seq<Coord>, touching: seq<Feature>,
                       moveJunction: Coord -> Result<seq<seq<Coord>>>, validWrtWater: seq<seq<Coord>> -> bool,
                       fitness: seq<Coord> -> Result<real>): (r: Result<seq<Option<Candidate>>>)
    ensures r.Ok? ==> |r.value| == |alts|
    ensures r.Ok? ==> forall i :: 0 <= i < |alts| ==>
      Evaluate(junction, alts[i], touching, moveJunction, validWrtWater, fitness) == Ok(r.value[i])
    ensures r.Err? <==> exists i :: 0 <= i < |alts| && EvaluateFails(junction, alts[i], touching, moveJunction, validWrtWater, fitness)
    decreases |alts|
  {
    if |alts| == 0 then Ok([])
    else
      var e := Evaluate(junction, alts[0], touching, moveJunction, validWrtWater, fitness);
      var rest := EvaluateAll(junction, alts[1..], touching, moveJunction, validWrtWater, fitness);
      assert forall i :: 1 <= i < |alts| ==> alts[i] == alts[1..][i - 1];
      if e.Err? then Err(e.error)
      else if rest.Err? then Err(rest.error)
      else Ok([e.value] + rest.value)
  }

  /** The choice made through the sorted map keyed by fitness: a later
      candidate with an equal fitness replaces the earlier one, and the
      largest key wins.  So the result is the last candidate of greatest
      fitness. */
  function Pick(c: seq<Option<Candidate>>): (r: Option<nat>)
    ensures r.Some? <==> exists i :: 0 <= i < |c| && c[i].Some?
    ensures r.Some? ==> r.value < |c| && c[r.value].Some?
    ensures r.Some? ==> forall j :: 0 <= j < |c| && c[j].Some? ==> c[j].value.fitness <= c[r.value].value.fitness
    ensures r.Some? ==> forall j :: r.value < j < |c| && c[j].Some? ==> c[j].value.fitness < c[r.value].value.fitness
    decreases |c|
  {
    if |c| == 0 then None
    else
      var init := c[..|c| - 1];
      var b := Pick(init);
      assert forall i :: 0 <= i < |init| ==> init[i] == c[i];
      var last := c[|c| - 1];
      if last.Some? && (b.None? || last.value.fitness >= c[b.value].value.fitness) then Some(|c| - 1)
      else b
  }

  /** The pick is the only index with those properties. */
  lemma PickUnique(c: seq<Option<Candidate>>, k: nat)
    requires k < |c| && c[k].Some?
    requires forall j :: 0 <= j < |c| && c[j].Some? ==> c[j].value.fitness <= c[k].value.fitness
    requires forall j :: k < j < |c| && c[j].Some? ==> c[j].value.fitness < c[k].value.fitness
    ensures Pick(c) == Some(k)
  {
    var p := Pick(c).value;
  }

  /** `improveJunction(junction)`: the alternatives are the suggestions for
      the junction with nothing to avoid (so a junction without elevation
      throws); they are evaluated in order and the best one is proposed;
      without any, the junction stays. */
  function ImproveJunction(junction: Coord, proposed: seq<Coord>, touching: seq<Feature>,
                           moveJunction: Coord -> Result<seq<seq<Coord>>>, validWrtWater: seq<seq<Coord>> -> bool,
                           fitness: seq<Coord> -> Result<real>): (r: Result<JunctionModification>)
    ensures junction.z.NaN? ==> r == Err(IllegalArgument)
    ensures r.Ok? ==> SuggestAlternatives(junction, [], proposed).Ok?
    ensures SuggestAlternatives(junction, [], proposed).Ok? ==>
      (r.Err? <==> exists i :: (0 <= i < |SuggestAlternatives(junction, [], proposed).value| &&
        EvaluateFails(junction, SuggestAlternatives(junction, [], proposed).value[i], touching, moveJunction, validWrtWater, fitness)))
    ensures r.Ok? ==> r.value.original == junction
    ensures r.Ok? && r.value.modified != junction ==> r.value.modified in SuggestAlternatives(junction, [], proposed).value
  {
    var alts :- SuggestAlternatives(junction, [], proposed);
    var c :- EvaluateAll(junction, alts, touching, moveJunction, validWrtWater, fitness);
    var p := Pick(c);
    if p.None? then Ok(JunctionModification(junction, junction, []))
    else Ok(c[p.value].value.modification)
  }

  /** A router failure other than a `RouteException`, at any alternative,
      fails the whole call. */
  lemma ImproveJunctionPropagates(junction: Coord, proposed: seq<Coord>, touching: seq<Feature>,
                                  moveJunction: Coord -> Result<seq<seq<Coord>>>, validWrtWater: seq<seq<Coord>> -> bool,
                                  fitness: seq<Coord> -> Result<real>, i: nat)
    requires SuggestAlternatives(junction, [], proposed).Ok?
    requires i < |SuggestAlternatives(junction, [], proposed).value|
    requires moveJunction(SuggestAlternatives(junction, [], proposed).value[i]).Err?
    requires moveJunction(SuggestAlternatives(junction, [], proposed).value[i]).error != RouteFailed
    ensures ImproveJunction(junction, proposed, touching, moveJunction, validWrtWater, fitness).Err?
  {
    var alts := SuggestAlternatives(junction, [], proposed).value;
    assert EvaluateFails(junction, alts[i], touching, moveJunction, validWrtWater, fitness);
  }

  /** When the call succeeds and some alternative can be moved to validly,
      the proposal comes from a valid move at least as fit as that one. */
  lemma ImproveJunctionBest(junction: Coord, proposed: seq<Coord>, touching: seq<Feature>,
                            moveJunction: Coord -> Result<seq<seq<Coord>>>, validWrtWater: seq<seq<Coord>> -> bool,
                            fitness: seq<Coord> -> Result<real>, i: nat)
    requires ImproveJunction(junction, proposed, touching, moveJunction, validWrtWater, fitness).Ok?
    requires i < |SuggestAlternatives(junction, [], proposed).value|
    requires Evaluate(junction, SuggestAlternatives(junction, [], proposed).value[i], touching, moveJunction, validWrtWater, fitness).Ok?
    requires Evaluate(junction, SuggestAlternatives(junction, [], proposed).value[i], touching, moveJunction, validWrtWater, fitness).value.Some?
    ensures var alts := SuggestAlternatives(junction, [], proposed).value;
      exists k :: 0 <= k < |alts| && BetterMove(junction, alts[k], alts[i], touching, moveJunction, validWrtWater, fitness,
                                                ImproveJunction(junction, proposed, touching, moveJunction, validWrtWater, fitness).value)
  {
    var alts := SuggestAlternatives(junction, [], proposed).value;
    var c := EvaluateAll(junction, alts, touching, moveJunction, validWrtWater, fitness).value;
    assert c[i].Some?;
    var k := Pick(c).value;
    assert Evaluate(junction, alts[k], touching, moveJunction, validWrtWater, fitness) == Ok(c[k]);
  }

  /** Moving to `alt` is valid, proposes `m`, and is at least as fit as
      moving to `other`. */
  predicate BetterMove(junction: Coord, alt: Coord, other: Coord, touching: seq<Feature>,
                       moveJunction: Coord -> Result<seq<seq<Coord>>>, validWrtWater: seq<seq<Coord>> -> bool,
                       fitness: seq<Coord> -> Result<real>, m: JunctionModification)
  {
    var e := Evaluate(junction, alt, touching, moveJunction, validWrtWater, fitness);
    var o := Evaluate(junction, other, touching, moveJunction, validWrtWater, fitness);
    e.Ok? && e.value.Some? && o.Ok? && o.value.Some? &&
    e.value.value.modification == m && e.value.value.fitness >= o.value.value.fitness
  }

  /** When every alternative fails with a `RouteException` or touches
      water, the junction is left where it is. */
  lemma ImproveJunctionNoMove(junction: Coord, proposed: seq<Coord>, touching: seq<Feature>,
                              moveJunction: Coord -> Result<seq<seq<Coord>>>, validWrtWater: seq<seq<Coord>> -> bool,
                              fitness: seq<Coord> -> Result<real>)
    requires SuggestAlternatives(junction, [], proposed).Ok?
    requires var alts := SuggestAlternatives(junction, [], proposed).value;
      forall i :: 0 <= i < |alts| ==>
        moveJunction(alts[i]) == Err(RouteFailed) || (moveJunction(alts[i]).Ok? && !validWrtWater(moveJunction(alts[i]).value))
    ensures ImproveJunction(junction, proposed, touching, moveJunction, validWrtWater, fitness) ==
      Ok(JunctionModification(junction, junction, []))
  {
    var alts := SuggestAlternatives(junction, [], proposed).value;
    var c := EvaluateAll(junction, alts, touching, moveJunction, validWrtWater, fitness);
    assert c.Ok?;
    assert Pick(c.value).None?;
  }
}
