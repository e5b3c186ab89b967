/** Counters kept while improving catchment lines: alternatives tried,
    valid alternatives tried, improvement requests, improvements made (Java
    `int`s) and the total runtime in milliseconds (a Java `long`).  Counter
    arithmetic wraps around as Java's does. */
module Metrics {

  import opened Wrappers

  const TwoTo31: int := 0x8000_0000
  const TwoTo63: int := 0x8000_0000_0000_0000

  /** `Long.MAX_VALUE`, what `Math.round` gives for +Infinity. */
  const LongMax: int := TwoTo63 - 1

  predicate IsInt(x: int) {
    -TwoTo31 <= x < TwoTo31
  }

  predicate IsLong(x: int) {
    -TwoTo63 <= x < TwoTo63
  }

  /** `x` reduced to a Java `int` by two's-complement wrap-around. */
  function WrapInt(x: int): (r: int)
    ensures IsInt(r)
    ensures IsInt(x) ==> r == x
  {
    (x + TwoTo31) % (2 * TwoTo31) - TwoTo31
  }

  /** The wrapped value differs from `x` by a multiple of 2^32. */
  lemma WrapIntCongruent(x: int)
    ensures (WrapInt(x) - x) % (2 * TwoTo31) == 0
  {
    var m := 2 * TwoTo31;
    var a := x + TwoTo31;
    assert a == (a / m) * m + a % m;
    assert WrapInt(x) - x == -(a / m) * m;
  }

  function WrapLong(x: int): (r: int)
    ensures IsLong(r)
    ensures (r - x) % (2 * TwoTo63) == 0
    ensures IsLong(x) ==> r == x
  {
    (x + TwoTo63) % (2 * TwoTo63) - TwoTo63
  }

  /** Adding one to a wrapped `int` is the wrap of the next value, so a
      counter bumped `n` times from 0 reads `n` modulo 2^32. */
  lemma WrapSucc(n: int)
    ensures WrapInt(WrapInt(n) + 1) == WrapInt(n + 1)
  {
    var a := n + TwoTo31;
    var r := a % 0x1_0000_0000;
    assert a == (a / 0x1_0000_0000) * 0x1_0000_0000 + r;
    if r + 1 < 0x1_0000_0000 {
      assert (a + 1) % 0x1_0000_0000 == r + 1;
    } else {
      assert (a + 1) % 0x1_0000_0000 == 0;
    }
  }

  datatype ImprovementMetrics = ImprovementMetrics(
    alternativesTested: int,
    validAlternativesTested: int,
    improvementRequests: int,
    improved: int,
    runtimeMs: int)

  predicate Valid(m: ImprovementMetrics) {
    IsInt(m.alternativesTested) && IsInt(m.validAlternativesTested) &&
    IsInt(m.improvementRequests) && IsInt(m.improved) && IsLong(m.runtimeMs)
  }

  /** The constructor: every counter zero. */
  function New(): (r: ImprovementMetrics)
    ensures Valid(r)
    ensures r.alternativesTested == r.validAlternativesTested == r.improvementRequests == r.improved == r.runtimeMs == 0
  {
    ImprovementMetrics(0, 0, 0, 0, 0)
  }

  /** `incrementNumImproved`. */
  function IncImproved(m: ImprovementMetrics): (r: ImprovementMetrics)
    requires Valid(m)
    ensures Valid(r)
    ensures r == m.(improved := r.improved)
    ensures m.improved < TwoTo31 - 1 ==> r.improved == m.improved + 1
    ensures m.improved == TwoTo31 - 1 ==> r.improved == -TwoTo31
  {
    m.(improved := WrapInt(m.improved + 1))
  }

  /** `incrementNumAlternativesTested`. */
  function IncAlternativesTested(m: ImprovementMetrics): (r: ImprovementMetrics)
    requires Valid(m)
    ensures Valid(r)
    ensures r == m.(alternativesTested := r.alternativesTested)
    ensures m.alternativesTested < TwoTo31 - 1 ==> r.alternativesTested == m.alternativesTested + 1
    ensures m.alternativesTested == TwoTo31 - 1 ==> r.alternativesTested == -TwoTo31
  {
    m.(alternativesTested := WrapInt(m.alternativesTested + 1))
  }

  /** `incrementNumImprovementRequests`. */
  function IncImprovementRequests(m: ImprovementMetrics): (r: ImprovementMetrics)
    requires Valid(m)
    ensures Valid(r)
    ensures r == m.(improvementRequests := r.improvementRequests)
    ensures m.improvementRequests < TwoTo31 - 1 ==> r.improvementRequests == m.improvementRequests + 1
    ensures m.improvementRequests == TwoTo31 - 1 ==> r.improvementRequests == -TwoTo31
  {
    m.(improvementRequests := WrapInt(m.improvementRequests + 1))
  }

  /** `incrementNumValidAlternativesTested`. */
  function IncValidAlternativesTested(m: ImprovementMetrics): (r: ImprovementMetrics)
    requires Valid(m)
    ensures Valid(r)
    ensures r == m.(validAlternativesTested := r.validAlternativesTested)
    ensures m.validAlternativesTested < TwoTo31 - 1 ==> r.validAlternativesTested == m.validAlternativesTested + 1
    ensures m.validAlternativesTested == TwoTo31 - 1 ==> r.validAlternativesTested == -TwoTo31
  {
    m.(validAlternativesTested := WrapInt(m.validAlternativesTested + 1))
  }

  /** `merge(other)`: the five counters added pointwise; a null other
      changes nothing. */
  function Merge(m: ImprovementMetrics, other: Option<ImprovementMetrics>): (r: ImprovementMetrics)
    requires Valid(m) && (other.Some? ==> Valid(other.value))
    ensures Valid(r)
    ensures other.None? ==> r == m
    ensures other.Some? ==>
      (r.alternativesTested - m.alternativesTested - other.value.alternativesTested) % (2 * TwoTo31) == 0 &&
      (r.validAlternativesTested - m.validAlternativesTested - other.value.validAlternativesTested) % (2 * TwoTo31) == 0 &&
      (r.improvementRequests - m.improvementRequests - other.value.improvementRequests) % (2 * TwoTo31) == 0 &&
      (r.improved - m.improved - other.value.improved) % (2 * TwoTo31) == 0 &&
      (r.runtimeMs - m.runtimeMs - other.value.runtimeMs) % (2 * TwoTo63) == 0
  {
    if other.None? then m
    else
      var o := other.value;
      WrapIntCongruent(m.alternativesTested + o.alternativesTested);
      WrapIntCongruent(m.validAlternativesTested + o.validAlternativesTested);
      WrapIntCongruent(m.improvementRequests + o.improvementRequests);
      WrapIntCongruent(m.improved + o.improved);
      ImprovementMetrics(
        WrapInt(m.alternativesTested + o.alternativesTested),
        WrapInt(m.validAlternativesTested + o.validAlternativesTested),
        WrapInt(m.improvementRequests + o.improvementRequests),
        WrapInt(m.improved + o.improved),
        WrapLong(m.runtimeMs + o.runtimeMs))
  }

  /** Merging is order-independent, and merging a fresh record changes
      nothing; without overflow it is plain pointwise addition. */
  lemma MergeLaws(m: ImprovementMetrics, o: ImprovementMetrics)
    requires Valid(m) && Valid(o)
    ensures Merge(m, Some(o)) == Merge(o, Some(m))
    ensures Merge(m, Some(New())) == m
    ensures IsInt(m.improved + o.improved) ==> Merge(m, Some(o)).improved == m.improved + o.improved
    ensures IsLong(m.runtimeMs + o.runtimeMs) ==> Merge(m, Some(o)).runtimeMs == m.runtimeMs + o.runtimeMs
  {
  }

  /** `Math.round` of a finite double: the nearest whole number, halves
      rounded up. */
  function Round(x: real): (r: int)
    ensures (r as real) - 0.5 <= x < (r as real) + 0.5
  {
    (x + 0.5).Floor
  }

  /** `getAvgRuntimeMsPerTest`: -1 unless both the runtime and the number of
      tests are positive, else the rounded mean runtime per test. */
  function AvgPerTest(m: ImprovementMetrics): (r: int)
    requires Valid(m)
    ensures m.runtimeMs <= 0 || m.alternativesTested <= 0 <==> r == -1
    ensures r != -1 ==> r >= 0 && ((r as real) - 0.5) * (m.alternativesTested as real) <= m.runtimeMs as real < ((r as real) + 0.5) * (m.alternativesTested as real)
  {
    if m.runtimeMs <= 0 || m.alternativesTested <= 0 then -1
    else
      RoundBrackets(m.runtimeMs as real, m.alternativesTested as real);
      Round((m.runtimeMs as real) / (m.alternativesTested as real))
  }

  /** Rounding `x / n` brackets `x` between the neighbouring half-way
      multiples of `n`. */
  lemma RoundBrackets(x: real, n: real)
    requires n > 0.0 && x > 0.0
    ensures var r := Round(x / n);
      r >= 0 && ((r as real) - 0.5) * n <= x < ((r as real) + 0.5) * n
  {
    var q := x / n;
    var r := Round(q);
    assert q * n == x;
    assert q > 0.0 by {
      if q <= 0.0 { ScaleLe(q, 0.0, n); }
    }
    var lo := (r as real) - 0.5;
    var hi := (r as real) + 0.5;
    ScaleLe(lo, q, n);
    ScaleLt(q, hi, n);
    assert q * n < hi * n;
    assert x < hi * n;
    assert lo * n <= x;
    assert r >= 0;
  }

  lemma ScaleLt(a: real, b: real, n: real)
    requires n > 0.0 && a < b
    ensures a * n < b * n
  {
    assert (b - a) * n > 0.0;
    assert (b - a) * n == b * n - a * n;
  }

  lemma ScaleLe(a: real, b: real, n: real)
    requires n > 0.0 && a <= b
    ensures a * n <= b * n
  {
    assert (b - a) * n >= 0.0;
    assert (b - a) * n == b * n - a * n;
  }

  /** `getAvgRuntimeMsPerRequest`.  As written it guards on the number of
      tests, not on the number of requests it divides by, so with tests but
      no requests it rounds runtime / 0.0 = +Infinity to `Long.MAX_VALUE`
      (and a negative request count gives a negative "average").  The
      corrected version guards on the divisor. */
  function AvgPerRequest(variant: Variant, m: ImprovementMetrics): (r: int)
    requires Valid(m)
    ensures variant == Corrected ==> (m.runtimeMs <= 0 || m.improvementRequests <= 0 <==> r == -1)
    ensures variant == AsWritten && (m.runtimeMs <= 0 || m.alternativesTested <= 0) ==> r == -1
    ensures variant == AsWritten && m.runtimeMs > 0 && m.alternativesTested > 0 && m.improvementRequests == 0 ==> r == LongMax
    ensures variant == Corrected && r != -1 ==>
      r >= 0 && ((r as real) - 0.5) * (m.improvementRequests as real) <= m.runtimeMs as real < ((r as real) + 0.5) * (m.improvementRequests as real)
  {
    var guard := if variant == AsWritten then m.alternativesTested else m.improvementRequests;
    if m.runtimeMs <= 0 || guard <= 0 then -1
    else if m.improvementRequests == 0 then LongMax
    else
      var n := m.improvementRequests as real;
      if n > 0.0 then
        RoundBrackets(m.runtimeMs as real, n);
        Round((m.runtimeMs as real) / n)
      else Round((m.runtimeMs as real) / n)
  }

  /** As written: 10 ms spent, one test, no request, and the average per
      request comes out as `Long.MAX_VALUE`; the corrected version reports
      -1, "no average". */
  lemma AvgPerRequestWithoutRequests()
    ensures var m := ImprovementMetrics(1, 0, 0, 0, 10);
      AvgPerRequest(AsWritten, m) == LongMax && AvgPerRequest(Corrected, m) == -1
  {
  }

  /** The two versions agree whenever there has been a request and a test. */
  lemma AvgPerRequestAgree(m: ImprovementMetrics)
    requires Valid(m) && m.improvementRequests > 0 && m.alternativesTested > 0
    ensures AvgPerRequest(AsWritten, m) == AvgPerRequest(Corrected, m)
  {
  }
}
