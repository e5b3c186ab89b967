/** Removing doubled Voronoi edges at confluences of the water network.
    Around a confluence point the water features and the Voronoi edges
    touching it should alternate when taken in angle order; where two
    Voronoi edges follow each other the second is a doubled edge and is
    discarded.  Which features touch a point (a distance query within
    0.0001) and the angle at which a line leaves the point (an `atan2`) are
    computed outside this model and are inputs here: an angle of None is a
    line whose `getAngleDegrees` raises. */
module VoronoiCleaner {

  import opened Wrappers
  import opened Geom
  import KD = KeptAndDiscarded

  /** Lines shorter than this are not counted at a confluence. */
  const TouchesTolerance: real := 0.0001

  /** A feature touching the point, with its angle and its length. */
  datatype Touch = Touch(f: Feature, angle: Option<real>, length: real)

  datatype Kind = Water | Voronoi

  /** An entry of the angle-ordered list around the point. */
  datatype Item = Item(angle: real, kind: Kind, f: Feature)

  function Features(ts: seq<Touch>): (r: seq<Feature>)
    ensures |r| == |ts|
    ensures forall i :: 0 <= i < |ts| ==> r[i] == ts[i].f
  {
    if |ts| == 0 then [] else [ts[0].f] + Features(ts[1..])
  }

  /** Every angle could be computed. */
  predicate AllAngles(ts: seq<Touch>) {
    forall i :: 0 <= i < |ts| ==> ts[i].angle.Some?
  }

  /** The items of `ts` of the given kind, leaving out the too-short
      Voronoi edges. */
  function Items(ts: seq<Touch>, kind: Kind): (r: seq<Item>)
    requires AllAngles(ts)
    ensures forall i :: 0 <= i < |r| ==> r[i].kind == kind
    ensures kind == Water ==> |r| == |ts|
    ensures forall i :: 0 <= i < |r| ==> r[i].f.fid in KD.Fids(Features(ts))
  {
    if |ts| == 0 then []
    else
      var rest := Items(ts[1..], kind);
      assert forall j :: 0 <= j < |ts[1..]| ==> ts[1..][j] == ts[j + 1];
      if kind == Voronoi && ts[0].length < TouchesTolerance then rest
      else [Item(ts[0].angle.value, kind, ts[0].f)] + rest
  }

  /** The number of Voronoi edges at least as long as the tolerance. */
  function LongCount(ts: seq<Touch>): (r: nat)
    ensures r <= |ts|
  {
    if |ts| == 0 then 0 else (if ts[0].length < TouchesTolerance then 0 else 1) + LongCount(ts[1..])
  }

  lemma {:induction false} VoronoiItemsCount(ts: seq<Touch>)
    requires AllAngles(ts)
    ensures |Items(ts, Voronoi)| == LongCount(ts)
  {
    if |ts| > 0 {
      assert AllAngles(ts[1..]) by {
        assert forall j :: 0 <= j < |ts[1..]| ==> ts[1..][j] == ts[j + 1];
      }
      VoronoiItemsCount(ts[1..]);
    }
  }

  function CountKind(s: seq<Item>, kind: Kind): (r: nat)
    ensures r <= |s|
  {
    if |s| == 0 then 0 else (if s[0].kind == kind then 1 else 0) + CountKind(s[1..], kind)
  }

  lemma {:induction false} CountKindAppend(a: seq<Item>, b: seq<Item>, kind: Kind)
    ensures CountKind(a + b, kind) == CountKind(a, kind) + CountKind(b, kind)
    decreases |a|
  {
    if |a| > 0 {
      assert (a + b)[1..] == a[1..] + b;
      assert (a + b)[0] == a[0];
      CountKindAppend(a[1..], b, kind);
      assert CountKind(a + b, kind) == (if a[0].kind == kind then 1 else 0) + CountKind((a + b)[1..], kind);
    } else {
      assert a + b == b;
    }
  }

  lemma {:induction false} CountKindAll(s: seq<Item>, kind: Kind)
    requires forall i :: 0 <= i < |s| ==> s[i].kind == kind
    ensures CountKind(s, kind) == |s|
    ensures CountKind(s, if kind == Water then Voronoi else Water) == 0
  {
    if |s| > 0 {
      CountKindAll(s[1..], kind);
    }
  }

  predicate SortedByAngle(s: seq<Item>) {
    forall i, j :: 0 <= i < j < |s| ==> s[i].angle <= s[j].angle
  }

  /** Puts `x` before the first item whose angle is not smaller. */
  function Insert(x: Item, s: seq<Item>): (r: seq<Item>)
    ensures |r| == |s| + 1
    ensures SortedByAngle(s) ==> SortedByAngle(r)
    ensures multiset(r) == multiset(s) + multiset{x}
    decreases |s|
  {
    if |s| == 0 then [x]
    else if x.angle <= s[0].angle then
      assert multiset([x] + s) == multiset{x} + multiset(s);
      [x] + s
    else
      var t := Insert(x, s[1..]);
      assert multiset([s[0]] + t) == multiset(s) + multiset{x} by {
        assert s == [s[0]] + s[1..];
      }
      assert SortedByAngle(s) ==> SortedByAngle([s[0]] + t) by {
        if SortedByAngle(s) {
          assert SortedByAngle(s[1..]);
          InsertAbove(x, s, t);
        }
      }
      [s[0]] + t
  }

  /** The step of `Insert` past the head: the head stays first. */
  lemma InsertAbove(x: Item, s: seq<Item>, t: seq<Item>)
    requires SortedByAngle(s) && |s| > 0 && x.angle > s[0].angle
    requires SortedByAngle(t) && multiset(t) == multiset(s[1..]) + multiset{x}
    ensures SortedByAngle([s[0]] + t)
  {
    assert s == [s[0]] + s[1..];
    forall i | 0 <= i < |t|
      ensures t[i].angle >= s[0].angle
    {
      assert t[i] in multiset(t);
      if t[i] != x {
        assert t[i] in multiset(s[1..]);
        var j :| 0 <= j < |s[1..]| && s[1..][j] == t[i];
        assert s[j + 1] == t[i];
      }
    }
    var r := [s[0]] + t;
    forall i, j | 0 <= i < j < |r|
      ensures r[i].angle <= r[j].angle
    {
      if i > 0 {
        assert r[i] == t[i - 1] && r[j] == t[j - 1];
      } else {
        assert r[j] == t[j - 1];
      }
    }
  }

  lemma {:induction false} InsertCounts(x: Item, s: seq<Item>, kind: Kind)
    ensures CountKind(Insert(x, s), kind) == CountKind(s, kind) + (if x.kind == kind then 1 else 0)
    decreases |s|
  {
    if |s| > 0 && x.angle > s[0].angle {
      var t := Insert(x, s[1..]);
      InsertCounts(x, s[1..], kind);
      assert Insert(x, s) == [s[0]] + t;
      CountKindCons(s[0], t, kind);
      CountKindCons(s[0], s[1..], kind);
      assert [s[0]] + s[1..] == s;
    } else {
      assert Insert(x, s) == [x] + s;
      CountKindCons(x, s, kind);
    }
  }

  lemma CountKindCons(a: Item, t: seq<Item>, kind: Kind)
    ensures CountKind([a] + t, kind) == (if a.kind == kind then 1 else 0) + CountKind(t, kind)
  {
    assert ([a] + t)[1..] == t;
  }

  /** `allTouching.sort(...)` by angle (a stable insertion sort). */
  function SortByAngle(s: seq<Item>): (r: seq<Item>)
    ensures SortedByAngle(r)
    ensures multiset(r) == multiset(s)
  {
    if |s| == 0 then []
    else
      assert s == [s[0]] + s[1..];
      Insert(s[0], SortByAngle(s[1..]))
  }

  /** Sorting is a permutation: same length, and the same number of water
      features and of Voronoi edges. */
  lemma {:induction false} SortCounts(s: seq<Item>, kind: Kind)
    ensures |SortByAngle(s)| == |s|
    ensures CountKind(SortByAngle(s), kind) == CountKind(s, kind)
  {
    assert |multiset(SortByAngle(s))| == |multiset(s)|;
    if |s| > 0 {
      SortCounts(s[1..], kind);
      InsertCounts(s[0], SortByAngle(s[1..]), kind);
    }
  }

  /** What the pattern loop does with the item at position k + 1 of the
      list closed into a cycle, whose predecessor is at position k. */
  datatype Verdict = Skip | Keep | Discard

  function Judge(prev: Item, cur: Item): (v: Verdict)
    ensures v == Discard <==> prev.kind.Voronoi? && cur.kind.Voronoi?
    ensures v == Keep <==> prev.kind.Water? && cur.kind.Voronoi?
  {
    if cur.kind == Voronoi && prev.kind == cur.kind then Discard
    else if cur.kind == Voronoi then Keep
    else Skip
  }

  /** The list with its first item copied to the end. */
  function Closed(s: seq<Item>): (c: seq<Item>)
    requires |s| > 0
    ensures |c| == |s| + 1 && c[..|s|] == s && c[|s|] == s[0]
  {
    s + [s[0]]
  }

  /** Recording one verdict: the feature is kept, discarded or passed
      over, and nothing else changes. */
  function Record(kd: KD.KeptAndDiscarded, v: Verdict, f: Feature): (r: KD.KeptAndDiscarded)
    ensures r.kept.Keys == kd.kept.Keys + (if v == Keep then {f.fid} else {})
    ensures r.discarded.Keys == kd.discarded.Keys + (if v == Discard then {f.fid} else {})
    ensures |r.kept| <= |kd.kept| + (if v == Keep then 1 else 0)
    ensures KD.Valid(kd) ==> KD.Valid(r)
  {
    match v
    case Discard =>
      var r := KD.AddDiscarded(kd, f);
      assert KD.NumKept(r) == |r.kept|;
      r
    case Keep =>
      var r := KD.AddKept(kd, f);
      assert KD.NumKept(r) == |r.kept| && KD.NumKept(kd) == |kd.kept|;
      r
    case Skip => kd
  }

  /** The loop over the closed list from position k on, recording each
      verdict into `kd`. */
  function Pattern(c: seq<Item>, k: nat, kd: KD.KeptAndDiscarded): (r: KD.KeptAndDiscarded)
    requires k < |c|
    decreases |c| - k
  {
    if k == |c| - 1 then kd
    else
      var next := Record(kd, Judge(c[k], c[k + 1]), c[k + 1].f);
      Pattern(c, k + 1, next)
  }

  /** The loop keeps the collections well keyed and keeps at most one more
      feature per Keep verdict. */
  lemma {:induction false} PatternBounds(c: seq<Item>, k: nat, kd: KD.KeptAndDiscarded)
    requires k < |c|
    ensures KD.Valid(kd) ==> KD.Valid(Pattern(c, k, kd))
    ensures |Pattern(c, k, kd).kept| <= |kd.kept| + KeepCount(c, k)
    decreases |c| - k
  {
    if k < |c| - 1 {
      PatternBounds(c, k + 1, Record(kd, Judge(c[k], c[k + 1]), c[k + 1].f));
    }
  }

  /** The loop only adds to what was recorded before it. */
  lemma {:induction false} PatternGrows(c: seq<Item>, k: nat, kd: KD.KeptAndDiscarded)
    requires k < |c|
    ensures kd.kept.Keys <= Pattern(c, k, kd).kept.Keys
    ensures kd.discarded.Keys <= Pattern(c, k, kd).discarded.Keys
    decreases |c| - k
  {
    if k < |c| - 1 {
      PatternGrows(c, k + 1, Record(kd, Judge(c[k], c[k + 1]), c[k + 1].f));
    }
  }

  /** The Voronoi item at position i + 1, judged Keep, is kept. */
  lemma {:induction false} PatternKeeps(c: seq<Item>, k: nat, kd: KD.KeptAndDiscarded, i: nat)
    requires k <= i < |c| - 1 && Judge(c[i], c[i + 1]) == Keep
    ensures c[i + 1].f.fid in Pattern(c, k, kd).kept
    decreases |c| - k
  {
    var next := Record(kd, Judge(c[k], c[k + 1]), c[k + 1].f);
    assert Pattern(c, k, kd) == Pattern(c, k + 1, next);
    if i == k {
      PatternGrows(c, k + 1, next);
    } else {
      PatternKeeps(c, k + 1, next, i);
    }
  }

  /** The Voronoi item at position i + 1, judged Discard, is discarded. */
  lemma {:induction false} PatternDiscards(c: seq<Item>, k: nat, kd: KD.KeptAndDiscarded, i: nat)
    requires k <= i < |c| - 1 && Judge(c[i], c[i + 1]) == Discard
    ensures c[i + 1].f.fid in Pattern(c, k, kd).discarded
    decreases |c| - k
  {
    var next := Record(kd, Judge(c[k], c[k + 1]), c[k + 1].f);
    assert Pattern(c, k, kd) == Pattern(c, k + 1, next);
    if i == k {
      PatternGrows(c, k + 1, next);
    } else {
      PatternDiscards(c, k + 1, next, i);
    }
  }

  /** Each Voronoi item is recorded by the verdict on it: kept after water,
      discarded after another Voronoi edge. */
  lemma PatternRecords(c: seq<Item>, k: nat, kd: KD.KeptAndDiscarded)
    requires k < |c|
    ensures var r := Pattern(c, k, kd);
      kd.kept.Keys <= r.kept.Keys && kd.discarded.Keys <= r.discarded.Keys
    ensures var r := Pattern(c, k, kd);
      forall i :: k <= i < |c| - 1 && Judge(c[i], c[i + 1]) == Keep ==> c[i + 1].f.fid in r.kept
    ensures var r := Pattern(c, k, kd);
      forall i :: k <= i < |c| - 1 && Judge(c[i], c[i + 1]) == Discard ==> c[i + 1].f.fid in r.discarded
  {
    PatternGrows(c, k, kd);
    forall i | k <= i < |c| - 1 && Judge(c[i], c[i + 1]) == Keep
      ensures c[i + 1].f.fid in Pattern(c, k, kd).kept
    {
      PatternKeeps(c, k, kd, i);
    }
    forall i | k <= i < |c| - 1 && Judge(c[i], c[i + 1]) == Discard
      ensures c[i + 1].f.fid in Pattern(c, k, kd).discarded
    {
      PatternDiscards(c, k, kd, i);
    }
  }

  /** Nothing else is recorded: every FID added was judged at some position. */
  lemma {:induction false} PatternOnly(c: seq<Item>, k: nat, kd: KD.KeptAndDiscarded)
    requires k < |c|
    ensures var r := Pattern(c, k, kd);
      forall fid :: fid in r.kept && fid !in kd.kept ==>
        exists i :: k <= i < |c| - 1 && Judge(c[i], c[i + 1]) == Keep && c[i + 1].f.fid == fid
    ensures var r := Pattern(c, k, kd);
      forall fid :: fid in r.discarded && fid !in kd.discarded ==>
        exists i :: k <= i < |c| - 1 && Judge(c[i], c[i + 1]) == Discard && c[i + 1].f.fid == fid
    decreases |c| - k
  {
    if k < |c| - 1 {
      var next := Record(kd, Judge(c[k], c[k + 1]), c[k + 1].f);
      PatternOnly(c, k + 1, next);
    }
  }

  /** The number of Keep verdicts from position k on. */
  function KeepCount(c: seq<Item>, k: nat): (n: nat)
    requires k < |c|
    decreases |c| - k
  {
    if k == |c| - 1 then 0
    else (if Judge(c[k], c[k + 1]) == Keep then 1 else 0) + KeepCount(c, k + 1)
  }

  /** The number of positions from k on whose predecessor slot holds water. */
  function WaterBefore(c: seq<Item>, k: nat): (n: nat)
    requires k < |c|
    decreases |c| - k
  {
    if k == |c| - 1 then 0
    else (if c[k].kind == Water then 1 else 0) + WaterBefore(c, k + 1)
  }

  lemma {:induction false} KeepAtMostWaterBefore(c: seq<Item>, k: nat)
    requires k < |c|
    ensures KeepCount(c, k) <= WaterBefore(c, k)
    decreases |c| - k
  {
    if k < |c| - 1 {
      KeepAtMostWaterBefore(c, k + 1);
    }
  }

  lemma {:induction false} WaterBeforeIsCount(s: seq<Item>, k: nat)
    requires |s| > 0 && k <= |s|
    ensures WaterBefore(Closed(s), k) == CountKind(s[k..], Water)
    decreases |s| - k
  {
    var c := Closed(s);
    if k < |s| {
      WaterBeforeIsCount(s, k + 1);
      assert s[k..] == [s[k]] + s[k + 1..];
      assert c[k] == s[k];
    }
  }

  /** Every Voronoi item kept follows a water feature, so no more Voronoi
      edges are kept than there are water features around the point. */
  lemma KeptAtMostWater(s: seq<Item>)
    requires |s| > 0
    ensures KeepCount(Closed(s), 0) <= CountKind(s, Water)
  {
    KeepAtMostWaterBefore(Closed(s), 0);
    WaterBeforeIsCount(s, 0);
    assert s[0..] == s;
  }

  /** In a list where water and Voronoi alternate all round, nothing is
      discarded. */
  lemma AlternatingKeepsAll(s: seq<Item>, k: nat)
    requires |s| > 0 && k <= |s|
    requires forall i :: 0 <= i < |s| ==> Closed(s)[i].kind != Closed(s)[i + 1].kind
    ensures Pattern(Closed(s), k, KD.New()).discarded == map[]
  {
    var c := Closed(s);
    var r := Pattern(c, k, KD.New());
    PatternOnly(c, k, KD.New());
    assert forall i :: k <= i < |c| - 1 ==> Judge(c[i], c[i + 1]) != Discard;
    assert r.discarded.Keys == {};
  }

  /** `r` records exactly the verdicts on the closed list `c`: a Voronoi
      entry that follows water is kept, one that follows another Voronoi
      entry is discarded, and nothing else is recorded. */
  predicate RecordsVerdicts(c: seq<Item>, r: KD.KeptAndDiscarded) {
    (forall i :: 0 <= i < |c| - 1 && c[i].kind == Water && c[i + 1].kind == Voronoi ==> c[i + 1].f.fid in r.kept)
    && (forall i :: 0 <= i < |c| - 1 && c[i].kind == Voronoi && c[i + 1].kind == Voronoi ==> c[i + 1].f.fid in r.discarded)
    && (forall fid :: fid in r.kept ==>
          exists i :: 0 <= i < |c| - 1 && c[i].kind == Water && c[i + 1].kind == Voronoi && c[i + 1].f.fid == fid)
    && (forall fid :: fid in r.discarded ==>
          exists i :: 0 <= i < |c| - 1 && c[i].kind == Voronoi && c[i + 1].kind == Voronoi && c[i + 1].f.fid == fid)
  }

  /** The pattern loop over a closed list, started empty, records exactly
      its verdicts. */
  lemma PatternExactly(c: seq<Item>)
    requires |c| > 0
    ensures RecordsVerdicts(c, Pattern(c, 0, KD.New()))
  {
    PatternRecords(c, 0, KD.New());
    PatternOnly(c, 0, KD.New());
  }

  /** With no Discard verdict from position k on, every Voronoi entry after
      position k is a Keep verdict. */
  lemma {:induction false} NoDiscardKeepsAll(c: seq<Item>, k: nat)
    requires k < |c|
    requires forall i :: k <= i < |c| - 1 ==> Judge(c[i], c[i + 1]) != Discard
    ensures KeepCount(c, k) == CountKind(c[k + 1..], Voronoi)
    decreases |c| - k
  {
    if k < |c| - 1 {
      NoDiscardKeepsAll(c, k + 1);
      assert c[k + 1..] == [c[k + 1]] + c[k + 2..];
      CountKindCons(c[k + 1], c[k + 2..], Voronoi);
    }
  }

  /** The Voronoi entries after the first position of the closed list are
      those of the list itself. */
  lemma ClosedTailCount(s: seq<Item>, kind: Kind)
    requires |s| > 0
    ensures CountKind(Closed(s)[1..], kind) == CountKind(s, kind)
  {
    assert Closed(s)[1..] == s[1..] + [s[0]];
    CountKindAppend(s[1..], [s[0]], kind);
    CountKindAppend([s[0]], s[1..], kind);
    assert [s[0]] + s[1..] == s;
  }

  /** Pigeonhole: in a list with more Voronoi entries than water entries
      some Voronoi entry follows another one, so the loop discards
      something. */
  lemma PatternDiscardsSome(s: seq<Item>)
    requires |s| > 0 && CountKind(s, Voronoi) > CountKind(s, Water)
    ensures Pattern(Closed(s), 0, KD.New()).discarded != map[]
  {
    var c := Closed(s);
    if forall i :: 0 <= i < |c| - 1 ==> Judge(c[i], c[i + 1]) != Discard {
      NoDiscardKeepsAll(c, 0);
      ClosedTailCount(s, Voronoi);
      KeptAtMostWater(s);
      assert false;
    }
    var i :| 0 <= i < |c| - 1 && Judge(c[i], c[i + 1]) == Discard;
    PatternDiscards(c, 0, KD.New(), i);
  }

  /** `cleanEdgesTouchingPoint`: the edges kept and discarded at one point,
      given the water features and Voronoi edges touching it. */
  function CleanAtPoint(waters: seq<Touch>, voronois: seq<Touch>): (r: Result<KD.KeptAndDiscarded>)
    ensures |waters| < 3 ==> r == Ok(KD.AddKeptAll(KD.New(), Features(voronois)))
    ensures |waters| >= 3 && |waters| > |voronois| ==> r == Err(IllegalState)
    ensures |waters| >= 3 && |waters| <= |voronois| && !(AllAngles(waters) && AllAngles(voronois)) ==> r == Err(IllegalArgument)
    ensures r.Err? ==> |waters| >= 3
    ensures r.Ok? && |waters| >= 3 && LongCount(voronois) == |waters| ==> r == Ok(KD.AddKeptAll(KD.New(), Features(voronois)))
    ensures r.Ok? && |waters| >= 3 && LongCount(voronois) != |waters| ==> KD.NumKept(r.value) <= |waters|
    ensures r.Ok? && |waters| >= 3 ==> AllAngles(waters) && AllAngles(voronois)
    ensures r.Ok? && |waters| >= 3 && LongCount(voronois) != |waters| && AllAngles(waters) && AllAngles(voronois) ==>
      var s := Items(waters, Water) + Items(voronois, Voronoi);
      |SortByAngle(s)| > 0 && RecordsVerdicts(Closed(SortByAngle(s)), r.value)
    ensures r.Ok? ==> forall fid :: fid in r.value.kept || fid in r.value.discarded ==> fid in KD.Fids(Features(voronois))
  {
    if |waters| < 3 then Ok(KD.AddKeptAll(KD.New(), Features(voronois)))
    else if |waters| > |voronois| then Err(IllegalState)
    else if !(AllAngles(waters) && AllAngles(voronois)) then Err(IllegalArgument)
    else if |waters| == LongCount(voronois) then Ok(KD.AddKeptAll(KD.New(), Features(voronois)))
    else
      var ws := Items(waters, Water);
      var vs := Items(voronois, Voronoi);
      var s := SortByAngle(ws + vs);
      var r := Pattern(Closed(s), 0, KD.New());
      PatternBounds(Closed(s), 0, KD.New());
      SameMembers(s, ws + vs);
      PatternFeatures(s, ws, vs, KD.Fids(Features(voronois)));
      KeptAtMostWater(s);
      SortCounts(ws + vs, Water);
      CountKindAppend(ws, vs, Water);
      CountKindAll(ws, Water);
      CountKindAll(vs, Voronoi);
      SortCounts(ws + vs, Voronoi);
      PatternExactly(Closed(s));
      Ok(r)
  }

  /** More long Voronoi edges than water features at a confluence: the
      cleaning succeeds and discards at least one doubled edge. */
  lemma CleanAtPointDiscards(waters: seq<Touch>, voronois: seq<Touch>)
    requires AllAngles(waters) && AllAngles(voronois)
    requires |waters| >= 3 && LongCount(voronois) > |waters|
    ensures CleanAtPoint(waters, voronois).Ok?
    ensures CleanAtPoint(waters, voronois).value.discarded != map[]
  {
    var ws := Items(waters, Water);
    var vs := Items(voronois, Voronoi);
    var s := SortByAngle(ws + vs);
    VoronoiItemsCount(voronois);
    CountKindAll(ws, Water);
    CountKindAll(vs, Voronoi);
    CountKindAppend(ws, vs, Water);
    CountKindAppend(ws, vs, Voronoi);
    SortCounts(ws + vs, Water);
    SortCounts(ws + vs, Voronoi);
    PatternDiscardsSome(s);
  }

  /** Whatever the pattern loop records is a Voronoi item of the list. */
  lemma PatternFids(c: seq<Item>, fids: set<string>)
    requires |c| > 0
    requires forall i :: 0 <= i < |c| && c[i].kind == Voronoi ==> c[i].f.fid in fids
    ensures var r := Pattern(c, 0, KD.New());
      forall fid :: fid in r.kept || fid in r.discarded ==> fid in fids
  {
    PatternOnly(c, 0, KD.New());
  }

  /** Whatever the pattern loop records is a Voronoi edge touching the point. */
  lemma PatternFeatures(s: seq<Item>, ws: seq<Item>, vs: seq<Item>, fids: set<string>)
    requires forall i :: 0 <= i < |ws| ==> ws[i].kind == Water
    requires forall i :: 0 <= i < |vs| ==> vs[i].f.fid in fids
    requires |s| > 0 && forall x :: x in s ==> x in ws + vs
    ensures var r := Pattern(Closed(s), 0, KD.New());
      forall fid :: fid in r.kept || fid in r.discarded ==> fid in fids
  {
    var c := Closed(s);
    forall i | 0 <= i < |c| && c[i].kind == Voronoi
      ensures c[i].f.fid in fids
    {
      ClosedMember(s, i);
      VoronoiFromMix(c[i], ws, vs, fids);
    }
    PatternFids(c, fids);
  }

  lemma ClosedMember(s: seq<Item>, i: nat)
    requires |s| > 0 && i < |s| + 1
    ensures Closed(s)[i] in s
  {
    if i == |s| {
      assert Closed(s)[i] == s[0];
    } else {
      assert Closed(s)[i] == s[i];
    }
  }

  lemma VoronoiFromMix(x: Item, ws: seq<Item>, vs: seq<Item>, fids: set<string>)
    requires forall i :: 0 <= i < |ws| ==> ws[i].kind == Water
    requires forall i :: 0 <= i < |vs| ==> vs[i].f.fid in fids
    requires x in ws + vs && x.kind == Voronoi
    ensures x.f.fid in fids
  {
    var m :| 0 <= m < |ws + vs| && (ws + vs)[m] == x;
    if m >= |ws| {
      assert vs[m - |ws|] == x;
    }
  }

  /** Sequences with the same multiset have the same members. */
  lemma SameMembers(s: seq<Item>, t: seq<Item>)
    requires multiset(s) == multiset(t)
    ensures forall x :: x in s ==> x in t
  {
    forall x | x in s
      ensures x in t
    {
      assert x in multiset(s);
    }
  }

  /** Which features touch a point: the water features and the Voronoi
      edges within the tolerance of it, as the spatial queries return them. */
  type Touching = ((real, real)) -> (seq<Touch>, seq<Touch>)

  /** The result at point `p`. */
  function AtPoint(touching: Touching, p: (real, real)): Result<KD.KeptAndDiscarded> {
    CleanAtPoint(touching(p).0, touching(p).1)
  }

  /** The cleaning of single points, as the sweep sees it. */
  type Cleaner = ((real, real)) -> Result<KD.KeptAndDiscarded>

  function CleanerOf(touching: Touching): Cleaner {
    p => AtPoint(touching, p)
  }

  predicate PointOk(clean: Cleaner, p: (real, real)) {
    clean(p).Ok?
  }

  /** The cleaning at point `p` discards the edge with this FID. */
  predicate DiscardedAt(clean: Cleaner, p: (real, real), fid: string) {
    clean(p).Ok? && fid in clean(p).value.discarded
  }

  /** What the sweep keeps true of the points processed so far: each was
      cleaned without error and its discards are collected. */
  ghost predicate SweepInv(clean: Cleaner, processed: set<(real, real)>, acc: KD.Collection) {
    (forall p :: p in processed ==> PointOk(clean, p)) &&
    (forall p, fid :: p in processed && DiscardedAt(clean, p, fid) ==> fid in acc)
  }

  /** The 2D positions of a coordinate sequence. */
  function Positions(cs: seq<Coord>): (r: seq<(real, real)>)
    ensures |r| == |cs|
    ensures forall j :: 0 <= j < |cs| ==> r[j] == (cs[j].x, cs[j].y)
  {
    if |cs| == 0 then [] else [(cs[0].x, cs[0].y)] + Positions(cs[1..])
  }

  /** The 2D positions of the coordinates of the water features, in order. */
  function WaterPoints(fs: seq<Feature>): (r: seq<(real, real)>)
    ensures forall i, j :: 0 <= i < |fs| && 0 <= j < |fs[i].geom| ==> (fs[i].geom[j].x, fs[i].geom[j].y) in r
  {
    if |fs| == 0 then []
    else
      var head := Positions(fs[0].geom);
      var rest := WaterPoints(fs[1..]);
      assert forall i :: 1 <= i < |fs| ==> fs[i] == fs[1..][i - 1];
      assert forall j :: 0 <= j < |head| ==> head[j] in head + rest;
      head + rest
  }

  /** The loop of `clean()` over the water coordinates: a point not yet
      processed is cleaned and what it discards is collected (a feature
      already collected stays as it was); the first failing point ends the
      sweep with its error. */
  function Sweep(clean: Cleaner, pts: seq<(real, real)>, processed: set<(real, real)>, acc: KD.Collection): (r: Result<KD.Collection>)
    ensures r.Ok? ==> acc.Keys <= r.value.Keys
    ensures r.Err? ==> exists i :: 0 <= i < |pts| && !PointOk(clean, pts[i])
    decreases |pts|
  {
    if |pts| == 0 then Ok(acc)
    else
      var p := pts[0];
      assert forall i :: 1 <= i < |pts| ==> pts[i] == pts[1..][i - 1];
      if p in processed then Sweep(clean, pts[1..], processed, acc)
      else
        var at := clean(p);
        if at.Err? then Err(at.error)
        else Sweep(clean, pts[1..], processed + {p}, at.value.discarded + acc)
  }

  /** Repeated points are skipped but were cleaned the first time, so the
      sweep fails exactly when some point fails. */
  lemma {:induction false} SweepFails(clean: Cleaner, pts: seq<(real, real)>, processed: set<(real, real)>, acc: KD.Collection)
    requires SweepInv(clean, processed, acc)
    ensures Sweep(clean, pts, processed, acc).Ok? <==> forall i :: 0 <= i < |pts| ==> PointOk(clean, pts[i])
    decreases |pts|
  {
    if |pts| > 0 {
      var p := pts[0];
      assert forall i :: 1 <= i < |pts| ==> pts[i] == pts[1..][i - 1];
      if p in processed {
        SweepFails(clean, pts[1..], processed, acc);
      } else if PointOk(clean, p) {
        SweepFails(clean, pts[1..], processed + {p}, clean(p).value.discarded + acc);
      }
    }
  }

  /** Every FID the sweep collects was discarded at one of the points. */
  lemma {:induction false} SweepSound(clean: Cleaner, pts: seq<(real, real)>, processed: set<(real, real)>, acc: KD.Collection)
    ensures var r := Sweep(clean, pts, processed, acc);
      r.Ok? ==> forall fid :: fid in r.value && fid !in acc ==> exists i :: 0 <= i < |pts| && DiscardedAt(clean, pts[i], fid)
    decreases |pts|
  {
    if |pts| > 0 {
      var p := pts[0];
      assert forall i :: 1 <= i < |pts| ==> pts[i] == pts[1..][i - 1];
      if p in processed {
        SweepSound(clean, pts[1..], processed, acc);
      } else if PointOk(clean, p) {
        SweepSound(clean, pts[1..], processed + {p}, clean(p).value.discarded + acc);
      }
    }
  }

  /** Every FID discarded at one of the points is collected. */
  lemma SweepComplete(clean: Cleaner, pts: seq<(real, real)>, processed: set<(real, real)>, acc: KD.Collection)
    requires SweepInv(clean, processed, acc)
    ensures var r := Sweep(clean, pts, processed, acc);
      r.Ok? ==> forall i, fid :: 0 <= i < |pts| && DiscardedAt(clean, pts[i], fid) ==> fid in r.value
  {
    forall i, fid | 0 <= i < |pts| && DiscardedAt(clean, pts[i], fid) && Sweep(clean, pts, processed, acc).Ok?
      ensures fid in Sweep(clean, pts, processed, acc).value
    {
      SweepCollects(clean, pts, processed, acc, i, fid);
    }
  }

  /** The FID discarded at point i is collected. */
  lemma {:induction false} SweepCollects(clean: Cleaner, pts: seq<(real, real)>, processed: set<(real, real)>,
                                         acc: KD.Collection, i: nat, fid: string)
    requires SweepInv(clean, processed, acc)
    requires i < |pts| && DiscardedAt(clean, pts[i], fid)
    requires Sweep(clean, pts, processed, acc).Ok?
    ensures fid in Sweep(clean, pts, processed, acc).value
    decreases |pts|
  {
    var p := pts[0];
    var r := Sweep(clean, pts, processed, acc);
    if p in processed {
      assert r == Sweep(clean, pts[1..], processed, acc);
      if i > 0 {
        assert pts[i] == pts[1..][i - 1];
        SweepCollects(clean, pts[1..], processed, acc, i - 1, fid);
      }
    } else {
      var acc' := clean(p).value.discarded + acc;
      assert r == Sweep(clean, pts[1..], processed + {p}, acc');
      SweepInvStep(clean, processed, acc, p);
      if i > 0 {
        assert pts[i] == pts[1..][i - 1];
        SweepCollects(clean, pts[1..], processed + {p}, acc', i - 1, fid);
      }
    }
  }

  /** Cleaning one more point without error keeps the sweep invariant. */
  lemma SweepInvStep(clean: Cleaner, processed: set<(real, real)>, acc: KD.Collection, p: (real, real))
    requires SweepInv(clean, processed, acc) && PointOk(clean, p)
    ensures SweepInv(clean, processed + {p}, clean(p).value.discarded + acc)
  {
    var acc' := clean(p).value.discarded + acc;
    forall q, fid | q in processed + {p} && DiscardedAt(clean, q, fid)
      ensures fid in acc'
    {
      if q != p {
        assert fid in acc;
      }
    }
  }

  /** The original Voronoi edges whose FID is not discarded, in order. */
  function Undiscarded(originals: seq<Feature>, discarded: KD.Collection): (r: seq<Feature>)
    ensures forall g :: g in r ==> g in originals && g.fid !in discarded
    decreases |originals|
  {
    if |originals| == 0 then []
    else
      var rest := Undiscarded(originals[1..], discarded);
      if originals[0].fid in discarded then rest else [originals[0]] + rest
  }

  /** An original FID is among the undiscarded ones exactly when it is not
      discarded. */
  lemma {:induction false} UndiscardedFids(originals: seq<Feature>, discarded: KD.Collection)
    ensures KD.Fids(Undiscarded(originals, discarded)) == KD.Fids(originals) - discarded.Keys
    decreases |originals|
  {
    if |originals| > 0 {
      UndiscardedFids(originals[1..], discarded);
      var rest := Undiscarded(originals[1..], discarded);
      assert KD.Fids(originals) == {originals[0].fid} + KD.Fids(originals[1..]);
      if originals[0].fid !in discarded {
        assert ([originals[0]] + rest)[1..] == rest;
        assert KD.Fids([originals[0]] + rest) == {originals[0].fid} + KD.Fids(rest);
      }
    }
  }

  /** Every point is cleaned without error. */
  predicate AllPointsOk(clean: Cleaner, pts: seq<(real, real)>) {
    forall i :: 0 <= i < |pts| ==> PointOk(clean, pts[i])
  }

  /** Some point's cleaning discards the edge with this FID. */
  predicate DiscardedSomewhere(clean: Cleaner, pts: seq<(real, real)>, fid: string) {
    exists i :: 0 <= i < |pts| && DiscardedAt(clean, pts[i], fid)
  }

  /** `clean()`: the sweep over every water coordinate, then kept = the
      original Voronoi edges minus those discarded anywhere. */
  function CleanAll(touching: Touching, waters: seq<Feature>, originals: seq<Feature>): (r: Result<KD.KeptAndDiscarded>)
    ensures r.Ok? <==> AllPointsOk(CleanerOf(touching), WaterPoints(waters))
    ensures r.Ok? ==> forall fid :: fid in r.value.discarded <==> DiscardedSomewhere(CleanerOf(touching), WaterPoints(waters), fid)
    ensures r.Ok? ==> r.value.kept.Keys == KD.Fids(originals) - r.value.discarded.Keys
    ensures r.Ok? ==> forall fid :: fid in r.value.kept ==> r.value.kept[fid] in originals
  {
    var pts := WaterPoints(waters);
    var clean := CleanerOf(touching);
    var swept := Sweep(clean, pts, {}, map[]);
    assert SweepInv(clean, {}, map[]);
    SweepFails(clean, pts, {}, map[]);
    if swept.Err? then
      Err(swept.error)
    else
      SweepSound(clean, pts, {}, map[]);
      SweepComplete(clean, pts, {}, map[]);
      var keep := Undiscarded(originals, swept.value);
      UndiscardedFids(originals, swept.value);
      KD.AddAllFrom(map[], keep);
      Ok(KD.KeptAndDiscarded(KD.AddAll(map[], keep), swept.value))
  }
}
