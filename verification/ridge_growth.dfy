/** Helpers shared by the ridge growers: whether a proposed next point
    moves away from the stem, whether a point may join a ridge, and growing
    a stem by one point.  Water tests are parameters.  Planar distances
    are compared through their squares, which orders them the same way. */
module RidgeGrowth {

  import opened Wrappers
  import opened Geom

  /** `(int)Math.floor(n * 0.75)`, exact for every count a Java `int` can
      hold. */
  function RefIndex(n: nat): (r: nat)
    ensures n > 0 ==> r < n
    ensures 4 * r <= 3 * n < 4 * r + 4
  {
    (3 * n) / 4
  }

  /** `isMovingAway(stem, next)`: measured from the vertex three quarters
      of the way along the stem, `next` is farther away than the stem's
      end.  An empty stem has no such vertex and throws. */
  function IsMovingAway(stem: seq<Coord>, next: Coord): (r: Result<bool>)
    ensures r.Err? <==> |stem| == 0
    ensures r.Err? ==> r.error == IndexOutOfBounds
    ensures r.Ok? ==> (r.value <==>
      exists k :: 4 * k <= 3 * |stem| < 4 * k + 4 && 0 <= k < |stem| &&
        Dist2(stem[k], next) > Dist2(stem[k], stem[|stem| - 1]))
  {
    if |stem| == 0 then Err(IndexOutOfBounds)
    else
      var k := RefIndex(|stem|);
      Ok(Dist2(stem[k], next) > Dist2(stem[k], stem[|stem| - 1]))
  }

  /** The reference vertex is the stem's end for stems of up to four
      points, and an earlier vertex for longer stems. */
  lemma RefIndexPlacement(n: nat)
    requires n > 0
    ensures n <= 4 ==> RefIndex(n) == n - 1
    ensures n > 4 ==> RefIndex(n) < n - 1
  {
  }

  /** So on a short stem the reference is the end itself: a point is
      moving away as soon as it is any distance from the end. */
  lemma ShortStemMovesAwayFromEnd(stem: seq<Coord>, next: Coord)
    requires 0 < |stem| <= 4
    ensures IsMovingAway(stem, next) == Ok(Dist2(stem[|stem| - 1], next) > 0.0)
  {
    RefIndexPlacement(|stem|);
  }

  /** Moving to the stem's own end is never moving away. */
  lemma EndIsNotMovingAway(stem: seq<Coord>)
    requires |stem| > 0
    ensures IsMovingAway(stem, stem[|stem| - 1]) == Ok(false)
  {
  }

  /** `isCoordValidInRidge(coord, ridge, water)`: the point is not yet on
      the ridge (in x and y) and does not touch water, except at a
      confluence. */
  function IsCoordValidInRidge(coord: Coord, ridge: seq<Coord>, touchingWater: Coord -> bool,
                               isConfluence: Coord -> bool): (r: bool)
    ensures HasXY(ridge, coord) ==> !r
    ensures touchingWater(coord) && !isConfluence(coord) ==> !r
    ensures !HasXY(ridge, coord) && (!touchingWater(coord) || isConfluence(coord)) ==> r
  {
    if OnRidge(coord, ridge) then false
    else !(touchingWater(coord) && !isConfluence(coord))
  }

  /** The loop over the ridge coordinates, comparing x and y. */
  function OnRidge(coord: Coord, ridge: seq<Coord>): (r: bool)
    ensures r <==> HasXY(ridge, coord)
    decreases |ridge|
  {
    if |ridge| == 0 then false
    else if ridge[0].x == coord.x && ridge[0].y == coord.y then true
    else
      var rest := OnRidge(coord, ridge[1..]);
      assert HasXY(ridge[1..], coord) ==> HasXY(ridge, coord) by {
        if HasXY(ridge[1..], coord) {
          var i :| 0 <= i < |ridge| - 1 && SameXY(ridge[1..][i], coord);
          assert SameXY(ridge[i + 1], coord);
        }
      }
      assert HasXY(ridge, coord) ==> SameXY(ridge[0], coord) || HasXY(ridge[1..], coord) by {
        if HasXY(ridge, coord) {
          var i :| 0 <= i < |ridge| && SameXY(ridge[i], coord);
          if i > 0 {
            assert SameXY(ridge[1..][i - 1], coord);
          }
        }
      }
      rest
  }

  /** `extend(stem, extension)`: the stem with the extension appended
      unless it already holds it (in 2D).  A stem is a JTS line, which never
      has exactly one point; extending the empty stem gives a one-point line,
      which JTS refuses. */
  function Extend(stem: seq<Coord>, extension: Coord): (r: Result<seq<Coord>>)
    requires |stem| != 1
    ensures r.Err? <==> |stem| == 0
    ensures r.Err? ==> r.error == IllegalArgument
    ensures r.Ok? ==> |r.value| == |stem| + (if HasXY(stem, extension) then 0 else 1)
    ensures r.Ok? ==> r.value[..|stem|] == stem && HasXY(r.value, extension)
  {
    var all := if HasXY(stem, extension) then stem else stem + [extension];
    assert HasXY(all, extension) by {
      if !HasXY(stem, extension) {
        assert SameXY(all[|stem|], extension);
      }
    }
    if |all| == 1 then Err(IllegalArgument) else Ok(all)
  }

  /** Growing a stem with points that are valid ridge members keeps the
      ridge free of repeated positions and adds exactly one point each
      time. */
  lemma ExtendWithValidPoint(stem: seq<Coord>, next: Coord, touchingWater: Coord -> bool,
                             isConfluence: Coord -> bool)
    requires |stem| >= 2 && DistinctXY(stem)
    requires IsCoordValidInRidge(next, stem, touchingWater, isConfluence)
    ensures Extend(stem, next) == Ok(stem + [next])
    ensures DistinctXY(stem + [next])
  {
    var s := stem + [next];
    forall i, j | 0 <= i < j < |s|
      ensures !SameXY(s[i], s[j])
    {
      if j == |stem| {
        assert !SameXY(stem[i], next);
      }
    }
  }
}
