/** A working set of catchment lines: the original sections (as read, seen
    through an optional default filter) and a collection of updated
    versions keyed by FID.  The updated collection starts as a copy of all
    original sections; `addOrUpdate` replaces a section by FID, and every
    query answers with the latest version of a section.  Each instance gets
    a numeric id from a static counter. */
module Catchments {

  import opened Wrappers
  import opened Geom
  import Metrics
  import KD = KeptAndDiscarded
  import JunctionFinder

  datatype CatchmentLines = CatchmentLines(
    source: seq<Feature>,
    defaultFilter: Option<Feature -> bool>,
    updated: KD.Collection,
    id: int)

  /** `getOriginalFeatures()`: the source, through the default filter when
      there is one. */
  function OriginalFeatures(cl: CatchmentLines): (r: seq<Feature>)
    ensures |r| <= |cl.source|
    ensures forall f :: f in r <==> f in cl.source && (cl.defaultFilter.None? || cl.defaultFilter.value(f))
  {
    if cl.defaultFilter.None? then cl.source else Keep(cl.source, cl.defaultFilter.value)
  }

  function Keep(fs: seq<Feature>, p: Feature -> bool): (r: seq<Feature>)
    ensures |r| <= |fs|
    ensures forall f :: f in r <==> f in fs && p(f)
  {
    if |fs| == 0 then []
    else if p(fs[0]) then [fs[0]] + Keep(fs[1..], p)
    else Keep(fs[1..], p)
  }

  /** The constructor.  A source without a schema is rejected before the
      static counter moves; otherwise the instance takes the counter's value
      and the counter advances by one (as a Java `int`).  The result is the
      new instance and the counter's next value. */
  function Create(source: seq<Feature>, hasSchema: bool, defaultFilter: Option<Feature -> bool>, nextId: int):
    (r: Result<(CatchmentLines, int)>)
    ensures !hasSchema <==> r == Err(IllegalArgument)
    ensures r.Ok? ==> r.value.0.id == nextId && r.value.1 == Metrics.WrapInt(nextId + 1)
    ensures r.Ok? ==> KD.WellKeyed(r.value.0.updated) && r.value.0.updated.Keys == KD.Fids(source)
    ensures r.Ok? ==> r.value.0.source == source && r.value.0.defaultFilter == defaultFilter
  {
    if !hasSchema then Err(IllegalArgument)
    else
      KD.AddAllFrom(map[], source);
      Ok((CatchmentLines(source, defaultFilter, KD.AddAll(map[], source), nextId), Metrics.WrapInt(nextId + 1)))
  }

  /** Ids of instances created one after another, starting from the
      counter's value: consecutive, hence strictly increasing and distinct,
      until the counter passes `Integer.MAX_VALUE`. */
  function IdsFrom(nextId: int, n: nat): seq<int>
    decreases n
  {
    if n == 0 then [] else [nextId] + IdsFrom(Metrics.WrapInt(nextId + 1), n - 1)
  }

  lemma {:induction false} IdsIncrease(nextId: int, n: nat)
    requires Metrics.IsInt(nextId) && nextId + n <= Metrics.TwoTo31
    ensures |IdsFrom(nextId, n)| == n
    ensures forall i :: 0 <= i < n ==> IdsFrom(nextId, n)[i] == nextId + i
    decreases n
  {
    if n > 0 {
      IdsIncrease(Metrics.WrapInt(nextId + 1), n - 1);
    }
  }

  /** `getLatest(section)`: the updated version with the same FID, or the
      section itself when there is none. */
  function GetLatest(cl: CatchmentLines, section: Feature): (r: Feature)
    requires KD.WellKeyed(cl.updated)
    ensures r.fid == section.fid
    ensures section.fid in cl.updated ==> r == cl.updated[section.fid]
    ensures section.fid !in cl.updated ==> r == section
  {
    if section.fid in cl.updated then cl.updated[section.fid] else section
  }

  /** `addOrUpdate(f)`: any feature with f's FID is removed, then f is
      added. */
  function AddOrUpdate(cl: CatchmentLines, f: Feature): (r: CatchmentLines)
    ensures r.source == cl.source && r.defaultFilter == cl.defaultFilter && r.id == cl.id
  {
    cl.(updated := KD.Add(Remove(cl.updated, f.fid), f))
  }

  /** `DefaultFeatureCollection.remove`: by FID. */
  function Remove(c: KD.Collection, fid: string): (r: KD.Collection)
    ensures r.Keys == c.Keys - {fid}
    ensures forall k :: k in r ==> r[k] == c[k]
  {
    c - {fid}
  }

  /** After `addOrUpdate(f)` there is exactly one feature with f's FID,
      and it is f; every other FID keeps its feature; so the latest version
      of anything with f's FID is f, and the latest version of anything else
      is what it was. */
  lemma AddOrUpdateSpec(cl: CatchmentLines, f: Feature, g: Feature)
    requires KD.WellKeyed(cl.updated)
    ensures KD.WellKeyed(AddOrUpdate(cl, f).updated)
    ensures AddOrUpdate(cl, f).updated.Keys == cl.updated.Keys + {f.fid}
    ensures g.fid == f.fid ==> GetLatest(AddOrUpdate(cl, f), g) == f
    ensures g.fid != f.fid ==> GetLatest(AddOrUpdate(cl, f), g) == GetLatest(cl, g)
  {
  }

  /** A second update of the same FID wins over the first. */
  lemma AddOrUpdateLastWins(cl: CatchmentLines, f1: Feature, f2: Feature)
    requires f1.fid == f2.fid
    ensures AddOrUpdate(AddOrUpdate(cl, f1), f2) == AddOrUpdate(cl, f2)
  {
  }

  /** The two end coordinates of every section's latest version, first end
      first, keeping only those that are not confluences. */
  function Candidates(cl: CatchmentLines, sections: seq<Feature>, isConfluence: Coord -> bool): (r: Result<seq<Coord>>)
    requires KD.WellKeyed(cl.updated)
    ensures r.Err? ==> r.error == IndexOutOfBounds
    decreases |sections|
  {
    if |sections| == 0 then Ok([])
    else
      var g := GetLatest(cl, sections[0]).geom;
      var rest := Candidates(cl, sections[1..], isConfluence);
      if |g| == 0 || rest.Err? then Err(IndexOutOfBounds)
      else
        var e1 := if isConfluence(g[0]) then [] else [g[0]];
        var e2 := if isConfluence(g[|g| - 1]) then [] else [g[|g| - 1]];
        Ok(e1 + e2 + rest.value)
  }

  /** Listing the ends fails exactly when some section's latest version has
      no coordinates. */
  lemma {:induction false} CandidatesErr(cl: CatchmentLines, sections: seq<Feature>, isConfluence: Coord -> bool)
    requires KD.WellKeyed(cl.updated)
    ensures Candidates(cl, sections, isConfluence).Err? <==>
      exists i :: 0 <= i < |sections| && |GetLatest(cl, sections[i]).geom| == 0
    decreases |sections|
  {
    if |sections| > 0 {
      CandidatesErr(cl, sections[1..], isConfluence);
      if exists i :: 0 <= i < |sections[1..]| && |GetLatest(cl, sections[1..][i]).geom| == 0 {
        var i :| 0 <= i < |sections[1..]| && |GetLatest(cl, sections[1..][i]).geom| == 0;
        assert sections[1..][i] == sections[i + 1];
      }
      if exists i :: 0 <= i < |sections| && |GetLatest(cl, sections[i]).geom| == 0 {
        var i :| 0 <= i < |sections| && |GetLatest(cl, sections[i]).geom| == 0;
        if i > 0 {
          assert sections[1..][i - 1] == sections[i];
        }
      }
    }
  }

  /** Every listed coordinate is a non-confluence end of one of the
      sections' latest versions. */
  lemma {:induction false} CandidatesSound(cl: CatchmentLines, sections: seq<Feature>, isConfluence: Coord -> bool, c: Coord)
    requires KD.WellKeyed(cl.updated)
    requires Candidates(cl, sections, isConfluence).Ok? && c in Candidates(cl, sections, isConfluence).value
    ensures !isConfluence(c) && IsEndOfSome(cl, sections, c)
    decreases |sections|
  {
    var g := GetLatest(cl, sections[0]).geom;
    var rest := Candidates(cl, sections[1..], isConfluence);
    var e1 := if isConfluence(g[0]) then [] else [g[0]];
    var e2 := if isConfluence(g[|g| - 1]) then [] else [g[|g| - 1]];
    assert Candidates(cl, sections, isConfluence).value == e1 + e2 + rest.value;
    if c in e1 + e2 {
      assert IsEndOf(GetLatest(cl, sections[0]), c);
    } else {
      CandidatesSound(cl, sections[1..], isConfluence, c);
      var i :| 0 <= i < |sections[1..]| && IsEndOf(GetLatest(cl, sections[1..][i]), c);
      assert sections[1..][i] == sections[i + 1];
    }
  }

  predicate IsEndOf(f: Feature, c: Coord) {
    |f.geom| > 0 && (c == f.geom[0] || c == f.geom[|f.geom| - 1])
  }

  predicate IsEndOfSome(cl: CatchmentLines, sections: seq<Feature>, c: Coord)
    requires KD.WellKeyed(cl.updated)
  {
    exists i :: 0 <= i < |sections| && IsEndOf(GetLatest(cl, sections[i]), c)
  }

  /** `getJunctions(water)`: the non-confluence ends of the latest versions
      of the original sections, each (in 2D) once, in the order first
      met.  A section whose latest version has no coordinates throws. */
  function GetJunctions(cl: CatchmentLines, isConfluence: Coord -> bool): (r: Result<seq<Coord>>)
    requires KD.WellKeyed(cl.updated)
    ensures r.Err? <==> exists i :: 0 <= i < |OriginalFeatures(cl)| && |GetLatest(cl, OriginalFeatures(cl)[i]).geom| == 0
    ensures r.Ok? ==> forall c :: c in r.value ==> !isConfluence(c) && IsEndOfSome(cl, OriginalFeatures(cl), c)
  {
    var cands := Candidates(cl, OriginalFeatures(cl), isConfluence);
    CandidatesErr(cl, OriginalFeatures(cl), isConfluence);
    if cands.Err? then Err(IndexOutOfBounds)
    else
      var r := JunctionFinder.AddAbsent([], cands.value);
      assert forall c :: c in r ==> !isConfluence(c) && IsEndOfSome(cl, OriginalFeatures(cl), c) by {
        forall c | c in r
          ensures !isConfluence(c) && IsEndOfSome(cl, OriginalFeatures(cl), c)
        {
          var k :| 0 <= k < |r| && r[k] == c;
          CandidatesSound(cl, OriginalFeatures(cl), isConfluence, c);
        }
      }
      Ok(r)
  }

  /** Every non-confluence end of a latest original section is listed, and
      no two listed junctions coincide in 2D. */
  lemma GetJunctionsComplete(cl: CatchmentLines, isConfluence: Coord -> bool, i: nat)
    requires KD.WellKeyed(cl.updated)
    requires GetJunctions(cl, isConfluence).Ok? && i < |OriginalFeatures(cl)|
    ensures var g := GetLatest(cl, OriginalFeatures(cl)[i]).geom;
      |g| > 0 &&
      (!isConfluence(g[0]) ==> HasXY(GetJunctions(cl, isConfluence).value, g[0])) &&
      (!isConfluence(g[|g| - 1]) ==> HasXY(GetJunctions(cl, isConfluence).value, g[|g| - 1]))
    ensures DistinctXY(GetJunctions(cl, isConfluence).value)
  {
    var sections := OriginalFeatures(cl);
    var cands := Candidates(cl, sections, isConfluence).value;
    CandidatesComplete(cl, sections, isConfluence, i);
    var r := JunctionFinder.AddAbsent([], cands);
    forall a, b | 0 <= a < b < |r|
      ensures !SameXY(r[a], r[b])
    {
      assert r[..b][a] == r[a];
    }
  }

  lemma {:induction false} CandidatesComplete(cl: CatchmentLines, sections: seq<Feature>, isConfluence: Coord -> bool, i: nat)
    requires KD.WellKeyed(cl.updated)
    requires Candidates(cl, sections, isConfluence).Ok? && i < |sections|
    ensures var g := GetLatest(cl, sections[i]).geom;
      |g| > 0 &&
      (!isConfluence(g[0]) ==> g[0] in Candidates(cl, sections, isConfluence).value) &&
      (!isConfluence(g[|g| - 1]) ==> g[|g| - 1] in Candidates(cl, sections, isConfluence).value)
    decreases |sections|
  {
    var g := GetLatest(cl, sections[0]).geom;
    var rest := Candidates(cl, sections[1..], isConfluence);
    assert |g| > 0 && rest.Ok?;
    var e1 := if isConfluence(g[0]) then [] else [g[0]];
    var e2 := if isConfluence(g[|g| - 1]) then [] else [g[|g| - 1]];
    var all := Candidates(cl, sections, isConfluence).value;
    assert all == e1 + e2 + rest.value;
    if i > 0 {
      CandidatesComplete(cl, sections[1..], isConfluence, i - 1);
      assert sections[1..][i - 1] == sections[i];
      assert forall c :: c in rest.value ==> c in all;
    } else {
      assert forall c :: c in e1 || c in e2 ==> c in all;
    }
  }

  /** `getSectionsTouchingJunction(junction)`: the updated sections that
      touch the point (a spatial test, given as a parameter), each in its
      latest version.  The collection's iteration order is not modelled, so
      the answer is a set. */
  function SectionsTouching(cl: CatchmentLines, touches: Feature -> bool): (r: set<Feature>)
    requires KD.WellKeyed(cl.updated)
    ensures forall f :: f in r ==> f.fid in cl.updated && touches(cl.updated[f.fid])
    ensures forall fid :: fid in cl.updated && touches(cl.updated[fid]) ==> cl.updated[fid] in r
    ensures forall f :: f in r ==> GetLatest(cl, f) == f
  {
    set fid | fid in cl.updated && touches(cl.updated[fid]) :: GetLatest(cl, cl.updated[fid])
  }

  /** `copy()`: a new instance over clones of the latest versions of the
      original sections, with no default filter, and the next id.  The
      clones are gathered in a fresh collection that only learns its schema
      from its first feature, so with no original sections the constructor
      finds no schema and throws. */
  function Copy(cl: CatchmentLines, nextId: int): (r: Result<(CatchmentLines, int)>)
    requires KD.WellKeyed(cl.updated)
    ensures r.Err? <==> |OriginalFeatures(cl)| == 0
    ensures r.Err? ==> r.error == IllegalArgument
    ensures r.Ok? ==> r.value.0.id == nextId && r.value.1 == Metrics.WrapInt(nextId + 1)
    ensures r.Ok? ==> r.value.0.defaultFilter.None? && KD.WellKeyed(r.value.0.updated)
    ensures r.Ok? ==> r.value.0.updated.Keys == KD.Fids(OriginalFeatures(cl))
  {
    var latest := Latest(cl, OriginalFeatures(cl));
    assert KD.Fids(latest) == KD.Fids(OriginalFeatures(cl)) by {
      assert forall i :: 0 <= i < |latest| ==> latest[i].fid == OriginalFeatures(cl)[i].fid;
    }
    Create(latest, |latest| > 0, None, nextId)
  }

  function Latest(cl: CatchmentLines, fs: seq<Feature>): (r: seq<Feature>)
    requires KD.WellKeyed(cl.updated)
    ensures |r| == |fs|
    ensures forall i :: 0 <= i < |fs| ==> r[i] == GetLatest(cl, fs[i])
  {
    if |fs| == 0 then [] else [GetLatest(cl, fs[0])] + Latest(cl, fs[1..])
  }

  /** The copy answers every original section with the version the
      original instance would give, as long as the original sections carry
      distinct FIDs (the source's own FIDs are unique). */
  lemma CopyKeepsLatest(cl: CatchmentLines, nextId: int, i: nat)
    requires KD.WellKeyed(cl.updated)
    requires i < |OriginalFeatures(cl)|
    requires UniqueFids(OriginalFeatures(cl))
    ensures Copy(cl, nextId).Ok?
    ensures GetLatest(Copy(cl, nextId).value.0, OriginalFeatures(cl)[i]) == GetLatest(cl, OriginalFeatures(cl)[i])
  {
    var fs := OriginalFeatures(cl);
    var latest := Latest(cl, fs);
    AddAllFinds(map[], latest, i);
  }

  predicate UniqueFids(fs: seq<Feature>) {
    forall i, j :: 0 <= i < j < |fs| ==> fs[i].fid != fs[j].fid
  }

  /** Adding features with distinct FIDs to an empty collection files each
      one under its FID. */
  lemma {:induction false} AddAllFinds(c: KD.Collection, fs: seq<Feature>, i: nat)
    requires UniqueFids(fs) && i < |fs|
    requires forall j :: 0 <= j < |fs| ==> fs[j].fid !in c
    ensures fs[i].fid in KD.AddAll(c, fs) && KD.AddAll(c, fs)[fs[i].fid] == fs[i]
    decreases |fs|
  {
    if i == 0 {
      KD.AddAllKeeps(KD.Add(c, fs[0]), fs[1..]);
    } else {
      var c' := KD.Add(c, fs[0]);
      forall j | 0 <= j < |fs[1..]|
        ensures fs[1..][j].fid !in c'
      {
        assert fs[1..][j] == fs[j + 1];
      }
      assert fs[1..][i - 1] == fs[i];
      AddAllFinds(c', fs[1..], i - 1);
    }
  }
}
