/** Fitness of catchment sections and junctions.  The fitness of a
    two-point segment is the unit (a parameter here: each concrete fitness
    defines it); a line's fitness is the sum over its consecutive coordinate
    pairs; a collection's is the sum over its sections.  A junction's
    fitness sums the fitness of a partial route of each touching section,
    read starting from the junction.  Doubles are modelled as reals, so
    rounding and the order of additions are not modelled. */
module Fitness {

  import opened Wrappers
  import opened Geom
  import Junctions

  type PairFitness = (Coord, Coord) -> real

  /** `fitness(geom)`: the sum of the pair fitness over consecutive
      coordinates; 0 for fewer than two. */
  function GeomFitness(pf: PairFitness, c: seq<Coord>): real
    decreases |c|
  {
    if |c| < 2 then 0.0 else pf(c[0], c[1]) + GeomFitness(pf, c[1..])
  }

  /** Joining two lines adds the fitness of the joining pair. */
  lemma {:induction false} GeomFitnessAppend(pf: PairFitness, a: seq<Coord>, b: seq<Coord>)
    requires |a| > 0 && |b| > 0
    ensures GeomFitness(pf, a + b) == GeomFitness(pf, a) + pf(a[|a| - 1], b[0]) + GeomFitness(pf, b)
    decreases |a|
  {
    if |a| == 1 {
      assert (a + b)[1..] == b;
    } else {
      assert (a + b)[1..] == a[1..] + b;
      GeomFitnessAppend(pf, a[1..], b);
    }
  }

  /** The fitness of a line with at least one pair is its first pair's
      fitness plus the rest, and also its last pair's fitness plus the
      rest: the order in which a loop visits the pairs does not matter. */
  lemma GeomFitnessSnoc(pf: PairFitness, c: seq<Coord>, x: Coord)
    requires |c| > 0
    ensures GeomFitness(pf, c + [x]) == GeomFitness(pf, c) + pf(c[|c| - 1], x)
  {
    GeomFitnessAppend(pf, c, [x]);
  }

  /** With a symmetric pair fitness, reading a line backwards does not
      change its fitness. */
  lemma {:induction false} GeomFitnessReverse(pf: PairFitness, c: seq<Coord>)
    requires forall a, b :: pf(a, b) == pf(b, a)
    ensures GeomFitness(pf, Reverse(c)) == GeomFitness(pf, c)
    decreases |c|
  {
    if |c| >= 2 {
      GeomFitnessReverse(pf, c[1..]);
      var r := Reverse(c[1..]);
      assert Reverse(c) == r + [c[0]];
      GeomFitnessSnoc(pf, r, c[0]);
      assert r[|r| - 1] == c[1];
    }
  }

  /** `fitnessSum(features)`: the sum over the sections. */
  function FitnessSum(pf: PairFitness, fs: seq<Feature>): real
    decreases |fs|
  {
    if |fs| == 0 then 0.0 else GeomFitness(pf, fs[0].geom) + FitnessSum(pf, fs[1..])
  }

  lemma {:induction false} FitnessSumAppend(pf: PairFitness, a: seq<Feature>, b: seq<Feature>)
    ensures FitnessSum(pf, a + b) == FitnessSum(pf, a) + FitnessSum(pf, b)
    decreases |a|
  {
    if |a| > 0 {
      assert (a + b)[1..] == a[1..] + b;
      assert (a + b)[0] == a[0];
      FitnessSumAppend(pf, a[1..], b);
    } else {
      assert a + b == b;
    }
  }

  /** The list form and the collection form of `fitnessSum` agree: the
      sum does not depend on the order in which the sections are visited. */
  lemma {:induction false} FitnessSumIgnoresOrder(pf: PairFitness, a: seq<Feature>, b: seq<Feature>)
    requires multiset(a) == multiset(b)
    ensures FitnessSum(pf, a) == FitnessSum(pf, b)
    decreases |a|
  {
    assert |a| == |multiset(a)| == |b|;
    if |a| > 0 {
      assert a[0] in multiset(b);
      var j :| 0 <= j < |b| && b[j] == a[0];
      var b' := b[..j] + b[j + 1..];
      assert b == b[..j] + ([b[j]] + b[j + 1..]);
      assert a == [a[0]] + a[1..];
      assert multiset(b) == multiset(b[..j]) + multiset{b[j]} + multiset(b[j + 1..]);
      assert multiset(a[1..]) == multiset(a) - multiset{a[0]};
      assert multiset(a[1..]) == multiset(b');
      FitnessSumIgnoresOrder(pf, a[1..], b');
      FitnessSumAppend(pf, b[..j], [b[j]] + b[j + 1..]);
      assert ([b[j]] + b[j + 1..])[1..] == b[j + 1..];
      FitnessSumAppend(pf, b[..j], b[j + 1..]);
    }
  }

  /** `fitnessAvg(features)`: the sum divided by the count.  An empty list
      gives 0.0/0, which is NaN in Java; `None` stands for that NaN. */
  function FitnessAvg(pf: PairFitness, fs: seq<Feature>): (r: Option<real>)
    ensures r.None? <==> |fs| == 0
    ensures r.Some? ==> r.value * (|fs| as real) == FitnessSum(pf, fs)
  {
    if |fs| == 0 then None else Some(FitnessSum(pf, fs) / (|fs| as real))
  }

  /** How many vertices of each touching section the junction fitness is
      meant to look at, when not given. */
  const DefaultNTouching: int := 3

  /** `SpatialUtils.toLineString(list)`: JTS refuses a line of exactly one
      point. */
  function ToLineString(coords: seq<Coord>): (r: Result<seq<Coord>>)
    ensures r.Err? <==> |coords| == 1
    ensures r.Err? ==> r.error == IllegalArgument
    ensures r.Ok? ==> r.value == coords
  {
    if |coords| == 1 then Err(IllegalArgument) else Ok(coords)
  }

  /** The first `n` coordinates (all of them when there are fewer, none for
      a negative `n`). */
  function TakeFirst(c: seq<Coord>, n: int): (r: seq<Coord>)
    ensures |r| == if n < 0 then 0 else if n < |c| then n else |c|
    ensures r == c[..|r|]
  {
    if n < 0 then [] else if n < |c| then c[..n] else c
  }

  /** `getPartialRouteTouchingJunction(section, junction, n)`.  A section
      with fewer than `n` points is returned as it is.  Otherwise it is read
      from the end at the junction (2D equality): forwards if it starts
      there, backwards if it ends there, and an error if neither.  As
      written, every point is kept; the documented intent, and the
      corrected variant, keep only the first `n` of them. */
  function PartialRoute(variant: Variant, g: seq<Coord>, junction: Coord, n: int): (r: Result<seq<Coord>>)
    ensures |g| < n ==> r == Ok(g)
    ensures |g| >= n && |g| == 0 ==> r == Err(IndexOutOfBounds)
    ensures |g| >= n && |g| > 0 && !SameXY(g[0], junction) && !SameXY(g[|g| - 1], junction) ==>
      r == Err(IllegalArgument)
    ensures r.Err? ==> r.error in {IndexOutOfBounds, IllegalArgument}
    ensures r.Ok? && |g| >= n && variant.AsWritten? ==>
      |r.value| == |g| && (r.value == g || r.value == Reverse(g))
    ensures r.Ok? && |g| >= n && variant.Corrected? ==> |r.value| == if n < 0 then 0 else n
    ensures r.Ok? && |g| >= n && |r.value| > 0 ==> SameXY(r.value[0], junction)
  {
    if |g| < n then Ok(g)
    else if |g| == 0 then Err(IndexOutOfBounds)
    else
      var whole :=
        if SameXY(g[0], junction) then Some(g)
        else if SameXY(g[|g| - 1], junction) then Some(Reverse(g))
        else None;
      if whole.None? then Err(IllegalArgument)
      else
        var coords := if variant.AsWritten? then whole.value else TakeFirst(whole.value, n);
        ToLineString(coords)
  }

  /** The discrepancy: with the default `n` of 3, a four-point section
      starting at the junction gives a four-point partial route as written,
      and the three points nearest the junction when corrected. */
  lemma PartialRouteKeepsAllPoints()
    ensures var g := [Coord(0.0, 0.0, NaN), Coord(1.0, 0.0, NaN), Coord(2.0, 0.0, NaN), Coord(3.0, 0.0, NaN)];
      |PartialRoute(AsWritten, g, g[0], DefaultNTouching).value| == 4 &&
      PartialRoute(Corrected, g, g[0], DefaultNTouching).value == g[..3]
  {
  }

  /** The corrected partial route is the first `n` points of the section
      read from the junction's end. */
  lemma PartialRouteCorrected(g: seq<Coord>, junction: Coord, n: int)
    requires n >= 2 && |g| >= n
    ensures SameXY(g[0], junction) ==> PartialRoute(Corrected, g, junction, n) == Ok(g[..n])
    ensures !SameXY(g[0], junction) && SameXY(g[|g| - 1], junction) ==>
      PartialRoute(Corrected, g, junction, n) == Ok(Reverse(g)[..n])
  {
  }

  /** `fitness(junction)`: the sum over the touching sections of the
      fitness of their partial routes; the first failing section's error
      otherwise. */
  function JunctionFitness(variant: Variant, pf: PairFitness, sections: seq<Feature>, junction: Coord, n: int):
    (r: Result<real>)
    ensures r.Ok? <==> forall i :: 0 <= i < |sections| ==> PartialRoute(variant, sections[i].geom, junction, n).Ok?
    ensures r.Err? ==> r.error in {IndexOutOfBounds, IllegalArgument}
    decreases |sections|
  {
    if |sections| == 0 then Ok(0.0)
    else
      var p := PartialRoute(variant, sections[0].geom, junction, n);
      var rest := JunctionFitness(variant, pf, sections[1..], junction, n);
      assert forall i :: 1 <= i < |sections| ==> sections[i] == sections[1..][i - 1];
      if p.Err? then Err(p.error)
      else if rest.Err? then rest
      else Ok(GeomFitness(pf, p.value) + rest.value)
  }

  /** The junction fitness of a `Junction`, with the default `n`. */
  function FitnessOfJunction(variant: Variant, pf: PairFitness, j: Junctions.Junction): (r: Result<real>)
    ensures r.Ok? <==> forall i :: 0 <= i < |j.sections| ==>
      PartialRoute(variant, j.sections[i].geom, j.coord, DefaultNTouching).Ok?
  {
    JunctionFitness(variant, pf, j.sections, j.coord, DefaultNTouching)
  }

  /** As written, with a symmetric pair fitness, a junction's fitness is
      the total fitness of its whole touching sections: the partial routes
      restrict nothing. */
  lemma {:induction false} AsWrittenIsWholeSections(pf: PairFitness, sections: seq<Feature>, junction: Coord, n: int)
    requires forall a, b :: pf(a, b) == pf(b, a)
    requires JunctionFitness(AsWritten, pf, sections, junction, n).Ok?
    ensures JunctionFitness(AsWritten, pf, sections, junction, n).value == FitnessSum(pf, sections)
    decreases |sections|
  {
    if |sections| > 0 {
      var g := sections[0].geom;
      assert PartialRoute(AsWritten, g, junction, n).Ok?;
      GeomFitnessReverse(pf, g);
      AsWrittenIsWholeSections(pf, sections[1..], junction, n);
    }
  }

  /** Corrected, the junction fitness is the sum of the fitness of the
      first `n` points of each section, read from the junction. */
  lemma {:induction false} CorrectedSumsPrefixes(pf: PairFitness, sections: seq<Feature>, junction: Coord, n: int)
    requires n >= 2
    requires forall i :: 0 <= i < |sections| ==> |sections[i].geom| >= n
    requires JunctionFitness(Corrected, pf, sections, junction, n).Ok?
    ensures JunctionFitness(Corrected, pf, sections, junction, n).value == PrefixSum(pf, sections, junction, n)
    decreases |sections|
  {
    if |sections| > 0 {
      PartialRouteCorrected(sections[0].geom, junction, n);
      assert forall i :: 0 <= i < |sections[1..]| ==> sections[1..][i] == sections[i + 1];
      CorrectedSumsPrefixes(pf, sections[1..], junction, n);
    }
  }

  /** The intended reference: the fitness of the `n` vertices nearest the
      junction on each section. */
  function PrefixSum(pf: PairFitness, sections: seq<Feature>, junction: Coord, n: int): real
    requires n >= 1 && forall i :: 0 <= i < |sections| ==> |sections[i].geom| >= n
    decreases |sections|
  {
    if |sections| == 0 then 0.0
    else
      var g := sections[0].geom;
      var fromJunction := if SameXY(g[0], junction) then g else Reverse(g);
      assert forall i :: 0 <= i < |sections[1..]| ==> sections[1..][i] == sections[i + 1];
      GeomFitness(pf, fromJunction[..n]) + PrefixSum(pf, sections[1..], junction, n)
  }
}
