/** Comparing two elevations that are each known only to within an
    uncertainty `u`: either value may lie anywhere in [z - u, z + u].  A NaN
    elevation makes every comparison false, as double comparisons do. */
module Uncertainty {

  import opened Geom

  /** `couldBeHigherOrSame(za, zb, u)`: some choice in the two intervals has
      a at or above b. */
  predicate CouldBeHigherOrSame(za: Elev, zb: Elev, u: real): (r: bool)
    ensures r ==> za.Z? && zb.Z?
    ensures za.Z? && zb.Z? && u >= 0.0 && za.v >= zb.v ==> r
  {
    za.Z? && zb.Z? && za.v + u >= zb.v - u
  }

  /** `couldBeHigher(za, zb, u)`: some choice has a strictly above b. */
  predicate CouldBeHigher(za: Elev, zb: Elev, u: real): (r: bool)
    ensures r ==> CouldBeHigherOrSame(za, zb, u)
    ensures za.Z? && zb.Z? && u >= 0.0 && za.v > zb.v ==> r
  {
    za.Z? && zb.Z? && za.v + u > zb.v - u
  }

  /** `definatelyHigher(za, zb, u)`: every choice has a strictly above b. */
  predicate DefinitelyHigher(za: Elev, zb: Elev, u: real): (r: bool)
    ensures r ==> DefinitelyHigherOrSame(za, zb, u)
    ensures r ==> za.Z? && zb.Z?
    ensures u >= 0.0 && r ==> za.v > zb.v
    ensures za.Z? && zb.Z? ==> (r <==> !CouldBeHigherOrSame(zb, za, u))
  {
    za.Z? && zb.Z? && za.v - u > zb.v + u
  }

  /** `definatelyHigherOrSame(za, zb, u)`: every choice has a at or above b. */
  predicate DefinitelyHigherOrSame(za: Elev, zb: Elev, u: real): (r: bool)
    ensures r ==> za.Z? && zb.Z?
    ensures u >= 0.0 && r ==> za.v >= zb.v && CouldBeHigherOrSame(za, zb, u)
    ensures za.Z? && zb.Z? ==> (r <==> !CouldBeHigher(zb, za, u))
  {
    za.Z? && zb.Z? && za.v - u >= zb.v + u
  }

  /** `x` is a possible true value of a measurement `z` with uncertainty `u`. */
  predicate Within(z: real, u: real, x: real) {
    z - u <= x <= z + u
  }

  /** The four tests read as statements about all choices in the intervals
      (`definitely`) or about some choice (`could`). */
  lemma Interpretation(a: real, b: real, u: real)
    requires u >= 0.0
    ensures DefinitelyHigher(Z(a), Z(b), u) <==>
      (forall x, y :: Within(a, u, x) && Within(b, u, y) ==> x > y)
    ensures DefinitelyHigherOrSame(Z(a), Z(b), u) <==>
      (forall x, y :: Within(a, u, x) && Within(b, u, y) ==> x >= y)
    ensures CouldBeHigher(Z(a), Z(b), u) <==>
      (exists x, y :: Within(a, u, x) && Within(b, u, y) && x > y)
    ensures CouldBeHigherOrSame(Z(a), Z(b), u) <==>
      (exists x, y :: Within(a, u, x) && Within(b, u, y) && x >= y)
  {
    // The extreme choices a - u, b + u and a + u, b - u are the witnesses.
    if !DefinitelyHigher(Z(a), Z(b), u) {
      assert Within(a, u, a - u) && Within(b, u, b + u);
    }
    if !DefinitelyHigherOrSame(Z(a), Z(b), u) {
      assert Within(a, u, a - u) && Within(b, u, b + u);
    }
    if CouldBeHigher(Z(a), Z(b), u) {
      assert Within(a, u, a + u) && Within(b, u, b - u);
    }
    if CouldBeHigherOrSame(Z(a), Z(b), u) {
      assert Within(a, u, a + u) && Within(b, u, b - u);
    }
  }

  /** Definite implies possible, strict implies non-strict, and with no
      uncertainty the could/definitely pairs coincide. */
  lemma Implications(za: Elev, zb: Elev, u: real)
    requires u >= 0.0
    ensures DefinitelyHigher(za, zb, u) ==> DefinitelyHigherOrSame(za, zb, u)
    ensures DefinitelyHigherOrSame(za, zb, u) ==> CouldBeHigherOrSame(za, zb, u)
    ensures DefinitelyHigher(za, zb, u) ==> CouldBeHigher(za, zb, u)
    ensures CouldBeHigher(za, zb, u) ==> CouldBeHigherOrSame(za, zb, u)
    ensures u == 0.0 ==> (DefinitelyHigher(za, zb, u) <==> CouldBeHigher(za, zb, u))
    ensures u == 0.0 ==> (DefinitelyHigherOrSame(za, zb, u) <==> CouldBeHigherOrSame(za, zb, u))
  {
  }

  /** For numeric elevations "a could be higher than b" is exactly "b is not
      definitely at or above a", and likewise with the strictness swapped. */
  lemma Duality(a: real, b: real, u: real)
    ensures CouldBeHigher(Z(a), Z(b), u) <==> !DefinitelyHigherOrSame(Z(b), Z(a), u)
    ensures CouldBeHigherOrSame(Z(a), Z(b), u) <==> !DefinitelyHigher(Z(b), Z(a), u)
  {
  }

  /** A NaN elevation makes all four tests false. */
  lemma NaNIsNeverHigher(z: Elev, u: real)
    ensures !CouldBeHigherOrSame(NaN, z, u) && !CouldBeHigherOrSame(z, NaN, u)
    ensures !DefinitelyHigher(NaN, z, u) && !DefinitelyHigher(z, NaN, u)
  {
  }
}
