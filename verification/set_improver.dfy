/** The "no improvement" counters every catchment-set improver keeps to
    decide when to stop: one map keyed by section FID and one keyed by
    junction identifier.  A key that was never counted reads as 0;
    incrementing puts 1 for a new key and adds 1 (as a Java `int`)
    otherwise; resetting a key puts 0; `improve` starts from two empty maps. */
module SetImprover {

  import opened Geom
  import Metrics
  import Junctions

  datatype Stats = Stats(sections: map<string, int>, junctions: map<string, int>)

  /** Every stored counter is a Java `int`. */
  predicate Valid(s: Stats) {
    (forall k :: k in s.sections ==> Metrics.IsInt(s.sections[k])) &&
    (forall k :: k in s.junctions ==> Metrics.IsInt(s.junctions[k]))
  }

  /** `resetShortCircuitStatistics`: both maps replaced by empty ones. */
  function ResetStatistics(): (r: Stats)
    ensures Valid(r)
    ensures forall k :: Count(r.sections, k) == 0 && Count(r.junctions, k) == 0
  {
    Stats(map[], map[])
  }

  /** `getNoImprovementCount`: the stored count, 0 for an unseen key. */
  function Count(m: map<string, int>, key: string): int {
    if key in m then m[key] else 0
  }

  /** `incrementNoImprovementCount`: 1 for a new key, the stored count plus
      one otherwise. */
  function Increment(m: map<string, int>, key: string): (r: map<string, int>)
    ensures r.Keys == m.Keys + {key}
  {
    if key in m then m[key := Metrics.WrapInt(m[key] + 1)] else m[key := 1]
  }

  /** `resetNoImprovementCount`: the count becomes 0. */
  function ResetKey(m: map<string, int>, key: string): (r: map<string, int>)
    ensures r.Keys == m.Keys + {key}
  {
    m[key := 0]
  }

  /** Both branches of the increment agree with "read the count, add one":
      an unseen key reads 0 and becomes 1.  Other keys keep their count. */
  lemma IncrementAddsOne(m: map<string, int>, key: string, other: string)
    ensures Count(Increment(m, key), key) == Metrics.WrapInt(Count(m, key) + 1)
    ensures other != key ==> Count(Increment(m, key), other) == Count(m, other)
  {
  }

  /** A reset key reads 0; other keys keep their count. */
  lemma ResetKeyReadsZero(m: map<string, int>, key: string, other: string)
    ensures Count(ResetKey(m, key), key) == 0
    ensures other != key ==> Count(ResetKey(m, key), other) == Count(m, other)
  {
  }

  /** The counter wraps from `Integer.MAX_VALUE` to `Integer.MIN_VALUE`. */
  lemma IncrementWraps(m: map<string, int>, key: string)
    requires Count(m, key) == Metrics.TwoTo31 - 1
    ensures Count(Increment(m, key), key) == -Metrics.TwoTo31
  {
  }

  /** `n` increments of one key. */
  function IncrementTimes(m: map<string, int>, key: string, n: nat): map<string, int> {
    if n == 0 then m else Increment(IncrementTimes(m, key, n - 1), key)
  }

  /** After a reset, `n` increments read `n`, as long as `n` fits in an
      `int`; other keys are untouched throughout. */
  lemma {:induction false} ResetThenIncrements(m: map<string, int>, key: string, n: nat, other: string)
    requires n < Metrics.TwoTo31
    ensures Count(IncrementTimes(ResetKey(m, key), key, n), key) == n
    ensures other != key ==> Count(IncrementTimes(ResetKey(m, key), key, n), other) == Count(m, other)
  {
    if n > 0 {
      ResetThenIncrements(m, key, n - 1, other);
      IncrementAddsOne(IncrementTimes(ResetKey(m, key), key, n - 1), key, other);
    }
  }

  /** Counting keeps every stored counter a Java `int`. */
  lemma CountingKeepsValid(s: Stats, key: string)
    requires Valid(s)
    ensures Valid(Stats(Increment(s.sections, key), s.junctions))
    ensures Valid(Stats(ResetKey(s.sections, key), s.junctions))
    ensures Valid(Stats(s.sections, Increment(s.junctions, key)))
    ensures Valid(Stats(s.sections, ResetKey(s.junctions, key)))
  {
  }

  /** The section counters, keyed by the section's FID. */
  function IncrementSection(s: Stats, section: Feature): (r: Stats)
    ensures r.junctions == s.junctions
    ensures SectionCount(r, section) == Metrics.WrapInt(SectionCount(s, section) + 1)
  {
    IncrementAddsOne(s.sections, section.fid, section.fid);
    Stats(Increment(s.sections, section.fid), s.junctions)
  }

  function ResetSection(s: Stats, section: Feature): (r: Stats)
    ensures r.junctions == s.junctions
    ensures SectionCount(r, section) == 0
  {
    Stats(ResetKey(s.sections, section.fid), s.junctions)
  }

  function SectionCount(s: Stats, section: Feature): int {
    Count(s.sections, section.fid)
  }

  /** The junction counters, keyed by `junction.getID()`. */
  function IncrementJunction(s: Stats, j: Junctions.Junction): (r: Stats)
    ensures r.sections == s.sections
    ensures JunctionCount(r, j) == Metrics.WrapInt(JunctionCount(s, j) + 1)
  {
    var key := Junctions.JunctionId(j).1;
    IncrementAddsOne(s.junctions, key, key);
    Stats(s.sections, Increment(s.junctions, key))
  }

  function ResetJunction(s: Stats, j: Junctions.Junction): (r: Stats)
    ensures r.sections == s.sections
    ensures JunctionCount(r, j) == 0
  {
    Stats(s.sections, ResetKey(s.junctions, Junctions.JunctionId(j).1))
  }

  function JunctionCount(s: Stats, j: Junctions.Junction): int {
    Count(s.junctions, Junctions.JunctionId(j).1)
  }

  /** A junction listing the same sections in another order (or another
      junction with the same section FIDs) shares the counter: the key does
      not depend on the order of the sections. */
  lemma JunctionCounterIgnoresOrder(s: Stats, a: Junctions.Junction, b: Junctions.Junction)
    requires multiset(Junctions.Ids(a.sections)) == multiset(Junctions.Ids(b.sections))
    ensures JunctionCount(s, a) == JunctionCount(s, b)
    ensures JunctionCount(IncrementJunction(s, a), b) == Metrics.WrapInt(JunctionCount(s, b) + 1)
    ensures JunctionCount(ResetJunction(s, a), b) == 0
  {
    Junctions.GetIdIgnoresOrder(a.sections, b.sections);
  }

  /** `improve`: the counters are cleared before the improvement itself
      runs, so nothing counted in an earlier run survives. */
  function StartImprove(s: Stats): (r: Stats)
    ensures Valid(r)
  {
    ResetStatistics()
  }

  lemma ImproveForgets(s: Stats, section: Feature, j: Junctions.Junction)
    ensures SectionCount(StartImprove(s), section) == 0
    ensures JunctionCount(StartImprove(s), j) == 0
    ensures SectionCount(StartImprove(IncrementSection(s, section)), section) == 0
  {
  }
}
