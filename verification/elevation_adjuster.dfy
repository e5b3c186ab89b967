/** Raising elevations with the distance to the nearest water feature, so
    that ground far from water reads higher than ground beside it.  The
    distance comes from a spatial query outside this model: `near(x, y)` is
    the planar distance from (x, y) to the nearest water feature, or None
    when there is no water feature at all.  Computed distances are cached by
    2D position. */
module ElevationAdjuster {

  import opened Wrappers
  import opened Geom

  /** Distances beyond this count as this far. */
  const MaxDistance: real := 500.0

  type Near = ((real, real)) -> Option<real>

  /** The distance cache, keyed by 2D position as `Coordinate.equals` is. */
  type Cache = map<(real, real), real>

  /** `calcAdjustment`: one twentieth of the distance, capped at
      `MaxDistance`. */
  function Adjustment(d: real): (r: real)
    ensures d <= MaxDistance ==> r * 20.0 == d
    ensures d >= MaxDistance ==> r == MaxDistance / 20.0
    ensures d >= 0.0 ==> 0.0 <= r <= MaxDistance / 20.0
  {
    (if d > MaxDistance then MaxDistance else d) / 20.0
  }

  /** Adjustments never shrink as the distance grows. */
  lemma AdjustmentMonotone(d1: real, d2: real)
    requires d1 <= d2
    ensures Adjustment(d1) <= Adjustment(d2)
  {
  }

  /** `c.getZ() + adjustment`: NaN stays NaN. */
  function AddZ(z: Elev, a: real): (r: Elev)
    ensures r.Z? <==> z.Z?
    ensures r.Z? ==> r.v - z.v == a
  {
    if z.Z? then Z(z.v + a) else NaN
  }

  /** Every cached distance is the one the water query gives. */
  predicate Consistent(cache: Cache, near: Near) {
    forall k :: k in cache ==> near(k) == Some(cache[k])
  }

  /** The distance `adjustZ` goes on to adjust by when the position is not
      cached.  With no water at all the code as written already turns
      `MaxDistance` into an adjustment here, which is then scaled a second
      time; the corrected version uses `MaxDistance` itself. */
  function UncachedDistance(variant: Variant, near: Option<real>): real {
    if near.Some? then near.value
    else if variant == AsWritten then Adjustment(MaxDistance)
    else MaxDistance
  }

  /** `adjustZ(Coordinate)`: the coordinate raised by the adjustment for its
      distance to water, and the cache after the lookup (a distance to an
      existing water feature is remembered; "no water" is not). */
  function AdjustCoord(variant: Variant, c: Coord, near: Near, cache: Cache): (r: (Coord, Cache))
    ensures r.0.x == c.x && r.0.y == c.y
    ensures var d := if (c.x, c.y) in cache then cache[(c.x, c.y)] else UncachedDistance(variant, near((c.x, c.y)));
      r.0.z == AddZ(c.z, Adjustment(d))
    ensures cache.Keys <= r.1.Keys && r.1.Keys <= cache.Keys + {(c.x, c.y)}
    ensures forall k :: k in cache ==> r.1[k] == cache[k]
    ensures Consistent(cache, near) ==> Consistent(r.1, near)
  {
    var k := (c.x, c.y);
    if k in cache then (Coord(c.x, c.y, AddZ(c.z, Adjustment(cache[k]))), cache)
    else
      var n := near(k);
      var d := UncachedDistance(variant, n);
      (Coord(c.x, c.y, AddZ(c.z, Adjustment(d))), if n.Some? then cache[k := d] else cache)
  }

  /** The cache only saves work: while it agrees with the water query, the
      adjusted coordinate is the one computed without it. */
  lemma CacheIsTransparent(variant: Variant, c: Coord, near: Near, cache: Cache)
    requires Consistent(cache, near)
    ensures AdjustCoord(variant, c, near, cache).0 == AdjustCoord(variant, c, near, map[]).0
  {
    var k := (c.x, c.y);
    if k in cache {
      assert near(k) == Some(cache[k]);
    }
  }

  /** With no cache the adjustment depends on the distance alone: the
      adjustment for that distance, and for "no water" the one for the
      cap (corrected) or a twentieth of it (as written). */
  lemma AdjustCoordUncached(variant: Variant, c: Coord, near: Near)
    requires c.z.Z?
    ensures var z := AdjustCoord(variant, c, near, map[]).0.z;
      near((c.x, c.y)).Some? ==> z == Z(c.z.v + Adjustment(near((c.x, c.y)).value))
    ensures var z := AdjustCoord(variant, c, near, map[]).0.z;
      near((c.x, c.y)).None? && variant == Corrected ==> z == Z(c.z.v + MaxDistance / 20.0)
    ensures var z := AdjustCoord(variant, c, near, map[]).0.z;
      near((c.x, c.y)).None? && variant == AsWritten ==> z == Z(c.z.v + MaxDistance / 400.0)
  {
  }

  /** Corrected: with no water anywhere a point is raised as much as any
      point can be, as far from water as the cap allows. */
  lemma NoWaterIsFarthest(c: Coord, d: real, near: Near)
    requires c.z.Z? && near((c.x, c.y)).None?
    ensures AdjustCoord(Corrected, c, near, map[]).0.z.v >= c.z.v + Adjustment(d)
  {
  }

  /** As written: with no water at all a point is raised by 1.25, less than
      a point 100 units from water (5), the reverse of the intended order. */
  lemma NoWaterRaisedTooLittle(c: Coord)
    requires c.z == Z(0.0)
    ensures AdjustCoord(AsWritten, c, (k: (real, real)) => None, map[]).0.z == Z(1.25)
    ensures AdjustCoord(AsWritten, c, (k: (real, real)) => Some(100.0), map[]).0.z == Z(5.0)
  {
  }

  lemma AdjustAllStep(variant: Variant, c: Coord, near: Near, cache: Cache)
    ensures Consistent(cache, near) ==>
      AdjustCoord(variant, c, near, cache).0 == AdjustCoord(variant, c, near, map[]).0
  {
    if Consistent(cache, near) {
      CacheIsTransparent(variant, c, near, cache);
    }
  }

  /** Adjusts each coordinate in order, threading the cache. */
  function AdjustAll(variant: Variant, cs: seq<Coord>, near: Near, cache: Cache): (r: (seq<Coord>, Cache))
    ensures |r.0| == |cs|
    ensures forall i :: 0 <= i < |cs| ==> r.0[i].x == cs[i].x && r.0[i].y == cs[i].y
    ensures Consistent(cache, near) ==> Consistent(r.1, near)
    ensures Consistent(cache, near) ==>
      forall i :: 0 <= i < |cs| ==> r.0[i] == AdjustCoord(variant, cs[i], near, map[]).0
    decreases |cs|
  {
    if |cs| == 0 then ([], cache)
    else
      var h := AdjustCoord(variant, cs[0], near, cache);
      var t := AdjustAll(variant, cs[1..], near, h.1);
      AdjustAllStep(variant, cs[0], near, cache);
      ([h.0] + t.0, t.1)
  }

  /** `adjustZ(Geometry)`: a line string or a point with every coordinate
      adjusted; other geometry types are refused, and an empty point has no
      first coordinate to take. */
  function AdjustGeometry(variant: Variant, g: Geometry, near: Near, cache: Cache): (r: Result<(Geometry, Cache)>)
    ensures r.Ok? <==> g.kind == LineStringKind || (g.kind == PointKind && |g.coords| > 0)
    ensures g.kind != LineStringKind && g.kind != PointKind ==> r == Err(IllegalArgument)
    ensures g.kind == PointKind && |g.coords| == 0 ==> r == Err(IndexOutOfBounds)
    ensures r.Ok? ==> r.value.0.kind == g.kind
    ensures r.Ok? && g.kind == LineStringKind ==> |r.value.0.coords| == |g.coords|
    ensures r.Ok? && g.kind == PointKind ==> |r.value.0.coords| == 1
    ensures r.Ok? && Consistent(cache, near) ==>
      forall i :: 0 <= i < |r.value.0.coords| ==> r.value.0.coords[i] == AdjustCoord(variant, g.coords[i], near, map[]).0
  {
    var out := AdjustAll(variant, g.coords, near, cache);
    if g.kind == LineStringKind then Ok((Geometry(LineStringKind, out.0), out.1))
    else if g.kind == PointKind then
      if |out.0| == 0 then Err(IndexOutOfBounds) else Ok((Geometry(PointKind, [out.0[0]]), out.1))
    else Err(IllegalArgument)
  }
}
