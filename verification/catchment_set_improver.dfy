/** The driver shared by the catchment section improvers: it improves every
    section of a set, those with an end at a confluence first, and keeps the
    latest version of each section in a result collection keyed by FID.
    What "improve one section" means is the parameter `improve`; the water
    lines near a point (the datastore's `touches` filter) are the sequence
    `water` with the test `touches`. */
module SetImprovement {

  import opened Wrappers
  import opened Geom
  import KD = KeptAndDiscarded
  import Catchments
  import Modification

  /** `hasEndpoint(route, c)`: the first or the last coordinate equals `c`
      in 2D.  An empty coordinate array has no first element and throws. */
  function HasEndpoint(route: seq<Coord>, c: Coord): (r: Result<bool>)
    ensures r.Err? <==> |route| == 0
    ensures r.Err? ==> r.error == IndexOutOfBounds
  {
    if |route| == 0 then Err(IndexOutOfBounds)
    else Ok(SameXY(route[0], c) || SameXY(route[|route| - 1], c))
  }

  /** `hasInteriorPoint(route, c)`: some coordinate other than the two ends
      equals `c` in 2D. */
  method HasInteriorPoint(route: seq<Coord>, c: Coord) returns (r: bool)
    ensures r <==> exists i :: 1 <= i < |route| - 1 && SameXY(route[i], c)
  {
    var i := 1;
    while i < |route| - 1
      invariant 1 <= i
      invariant forall j :: 1 <= j < i && j < |route| - 1 ==> !SameXY(route[j], c)
    {
      if route[i].x == c.x && route[i].y == c.y {
        return true;
      }
      i := i + 1;
    }
    return false;
  }

  /** The interior point test is the position test restricted to the
      positions strictly between the ends. */
  predicate InteriorXY(route: seq<Coord>, c: Coord) {
    exists i :: 1 <= i < |route| - 1 && SameXY(route[i], c)
  }

  /** A route passes through `c` exactly when `c` is one of its ends or one
      of its interior points. */
  lemma EndOrInterior(route: seq<Coord>, c: Coord)
    requires |route| > 0
    ensures HasXY(route, c) <==> HasEndpoint(route, c) == Ok(true) || InteriorXY(route, c)
  {
    if HasXY(route, c) {
      var i :| 0 <= i < |route| && SameXY(route[i], c);
      if 0 < i < |route| - 1 {
        assert InteriorXY(route, c);
      }
    }
    if HasEndpoint(route, c) == Ok(true) {
      if SameXY(route[0], c) {
        assert SameXY(route[0], c);
      } else {
        assert SameXY(route[|route| - 1], c);
      }
    }
  }

  /** The number of touching water lines that have `c` as an end.  A
      touching line without coordinates makes `hasEndpoint` throw. */
  function WaterEnds(c: Coord, water: seq<seq<Coord>>, touches: (seq<Coord>, Coord) -> bool): (r: Result<nat>)
    ensures r.Err? <==> exists i :: 0 <= i < |water| && touches(water[i], c) && |water[i]| == 0
    ensures r.Ok? ==> r.value <= |water|
    ensures r.Ok? ==> (r.value > 0 <==> exists i :: 0 <= i < |water| && EndAt(water[i], c, touches))
    decreases |water|
  {
    if |water| == 0 then Ok(0)
    else
      var rest := WaterEnds(c, water[1..], touches);
      assert forall i :: 1 <= i < |water| ==> water[i] == water[1..][i - 1];
      if touches(water[0], c) && |water[0]| == 0 then Err(IndexOutOfBounds)
      else if rest.Err? then
        ghost var i :| 0 <= i < |water[1..]| && touches(water[1..][i], c) && |water[1..][i]| == 0;
        assert touches(water[i + 1], c) && |water[i + 1]| == 0;
        rest
      else
        var here := if touches(water[0], c) && HasEndpoint(water[0], c) == Ok(true) then 1 else 0;
        assert rest.value > 0 ==> exists i :: 0 <= i < |water| && EndAt(water[i], c, touches) by {
          if rest.value > 0 {
            ghost var i :| 0 <= i < |water[1..]| && EndAt(water[1..][i], c, touches);
            assert EndAt(water[i + 1], c, touches);
          }
        }
        assert here == 1 ==> EndAt(water[0], c, touches);
        Ok(rest.value + here)
  }

  /** The water line touches `c` and has it as an end. */
  predicate EndAt(w: seq<Coord>, c: Coord, touches: (seq<Coord>, Coord) -> bool) {
    touches(w, c) && |w| > 0 && (SameXY(w[0], c) || SameXY(w[|w| - 1], c))
  }

  /** `endpointTouchesConfluence(c)`: some touching water line ends at
      `c`. */
  function EndpointTouchesConfluence(c: Coord, water: seq<seq<Coord>>, touches: (seq<Coord>, Coord) -> bool):
    (r: Result<bool>)
    ensures r.Err? <==> exists i :: 0 <= i < |water| && touches(water[i], c) && |water[i]| == 0
    ensures r.Ok? ==> (r.value <==> exists i :: 0 <= i < |water| && EndAt(water[i], c, touches))
  {
    var n := WaterEnds(c, water, touches);
    if n.Err? then Err(n.error) else Ok(n.value > 0)
  }

  /** `getNumEndsTouchingConfluence(route)`: how many of the route's two
      ends (the same point counted twice on a closed route) are
      confluences. */
  function NumEndsTouchingConfluence(route: seq<Coord>, water: seq<seq<Coord>>,
                                     touches: (seq<Coord>, Coord) -> bool): (r: Result<nat>)
    ensures |route| == 0 ==> r == Err(IndexOutOfBounds)
    ensures r.Ok? ==> |route| > 0 && r.value <= 2
    ensures r.Ok? ==> (r.value == 0 <==>
      EndpointTouchesConfluence(route[0], water, touches) == Ok(false) &&
      EndpointTouchesConfluence(route[|route| - 1], water, touches) == Ok(false))
    ensures r.Ok? ==> (r.value == 2 <==>
      EndpointTouchesConfluence(route[0], water, touches) == Ok(true) &&
      EndpointTouchesConfluence(route[|route| - 1], water, touches) == Ok(true))
    ensures |route| > 0 ==> (r.Err? <==>
      EndpointTouchesConfluence(route[0], water, touches).Err? ||
      EndpointTouchesConfluence(route[|route| - 1], water, touches).Err?)
  {
    if |route| == 0 then Err(IndexOutOfBounds)
    else
      var first := EndpointTouchesConfluence(route[0], water, touches);
      var last := EndpointTouchesConfluence(route[|route| - 1], water, touches);
      if first.Err? then Err(first.error)
      else if last.Err? then Err(last.error)
      else Ok((if first.value then 1 else 0) + (if last.value then 1 else 0))
  }

  /** The water lines and the test that stands for the spatial filter. */
  datatype Water = Water(lines: seq<seq<Coord>>, touches: (seq<Coord>, Coord) -> bool)

  /** The route of a section counts as touching a confluence (and its test
      does not throw). */
  predicate AtConfluence(f: Feature, w: Water) {
    var n := NumEndsTouchingConfluence(f.geom, w.lines, w.touches);
    n.Ok? && n.value > 0
  }

  /** Whether testing the section throws. */
  predicate TestFails(f: Feature, w: Water) {
    NumEndsTouchingConfluence(f.geom, w.lines, w.touches).Err?
  }

  /** `addOrUpdate(fc, f)`: every feature with f's FID is removed and f is
      added. */
  function AddOrUpdate(fc: KD.Collection, f: Feature): (r: KD.Collection)
    ensures KD.WellKeyed(fc) ==> KD.WellKeyed(r)
    ensures r.Keys == fc.Keys + {f.fid}
    ensures r[f.fid] == f
    ensures forall fid :: fid in fc && fid != f.fid ==> r[fid] == fc[fid]
  {
    var removed := Catchments.Remove(fc, f.fid);
    assert f.fid !in removed;
    removed[f.fid := f]
  }

  /** `getLatest(fc, section)`: the collection's version of the section, or
      the section itself. */
  function GetLatest(fc: KD.Collection, section: Feature): (r: Feature)
    requires KD.WellKeyed(fc)
    ensures r.fid == section.fid
    ensures section.fid in fc ==> r == fc[section.fid]
    ensures section.fid !in fc ==> r == section
  {
    if section.fid in fc then fc[section.fid] else section
  }

  /** Recording one modification: the modified section, then each modified
      touching section in order. */
  function Apply(fc: KD.Collection, m: Modification.SectionModification): (r: KD.Collection)
    ensures KD.WellKeyed(fc) ==> KD.WellKeyed(r)
    ensures r.Keys == fc.Keys + {m.modified.fid} + KD.Fids(m.touching)
  {
    AddOrUpdateAll(AddOrUpdate(fc, m.modified), m.touching)
  }

  function AddOrUpdateAll(fc: KD.Collection, fs: seq<Feature>): (r: KD.Collection)
    ensures KD.WellKeyed(fc) ==> KD.WellKeyed(r)
    ensures r.Keys == fc.Keys + KD.Fids(fs)
    decreases |fs|
  {
    if |fs| == 0 then fc
    else
      assert KD.Fids(fs) == {fs[0].fid} + KD.Fids(fs[1..]);
      AddOrUpdateAll(AddOrUpdate(fc, fs[0]), fs[1..])
  }

  /** An improvement hook: the modification proposed for a section, or
      the exception the subclass's `improve` throws for it. */
  type Improver = Feature -> Result<Modification.SectionModification>

  /** Some improvement of a version of one of `todo`'s sections (one with
      the same FID) throws `e`. */
  ghost predicate ImproveThrows(todo: seq<Feature>, improve: Improver, e: Exception) {
    exists i, f: Feature :: 0 <= i < |todo| && f.fid == todo[i].fid && improve(f) == Err(e)
  }

  /** One pass: each section in turn is replaced by its latest version,
      improved, and the modification recorded.  The first improvement that
      throws ends the pass with its exception. */
  function Pass(fc: KD.Collection, todo: seq<Feature>, improve: Improver): (r: Result<KD.Collection>)
    requires KD.WellKeyed(fc)
    ensures r.Ok? ==> KD.WellKeyed(r.value) && fc.Keys <= r.value.Keys
    ensures (forall f :: improve(f).Ok?) ==> r.Ok?
    ensures r.Err? ==> ImproveThrows(todo, improve, r.error)
    decreases |todo|
  {
    if |todo| == 0 then Ok(fc)
    else
      var f := GetLatest(fc, todo[0]);
      match improve(f)
      case Err(e) =>
        assert f.fid == todo[0].fid && improve(f) == Err(e);
        Err(e)
      case Ok(m) =>
        var rest := Pass(Apply(fc, m), todo[1..], improve);
        if rest.Err? then
          var i, g: Feature :| 0 <= i < |todo[1..]| && g.fid == todo[1..][i].fid && improve(g) == Err(rest.error);
          assert g.fid == todo[i + 1].fid;
          rest
        else rest
  }

  /** The first loop: each section in turn goes through the confluence
      test and, when it is at a confluence, is improved; the first test or
      improvement that throws ends the call. */
  function ConfluencePass(fc: KD.Collection, sections: seq<Feature>, w: Water, improve: Improver):
    (r: Result<KD.Collection>)
    requires KD.WellKeyed(fc)
    ensures r.Ok? ==> KD.WellKeyed(r.value) && fc.Keys <= r.value.Keys
    ensures r.Ok? ==> forall i :: 0 <= i < |sections| ==> !TestFails(sections[i], w)
    ensures (forall f :: improve(f).Ok?) && (forall i :: 0 <= i < |sections| ==> !TestFails(sections[i], w)) ==> r.Ok?
    ensures r.Err? ==>
      (exists i :: 0 <= i < |sections| && TestFails(sections[i], w) && r.error == IndexOutOfBounds)
      || ImproveThrows(sections, improve, r.error)
    decreases |sections|
  {
    if |sections| == 0 then Ok(fc)
    else
      var s := sections[0];
      assert forall i :: 1 <= i < |sections| ==> sections[i] == sections[1..][i - 1];
      if TestFails(s, w) then Err(IndexOutOfBounds)
      else if !AtConfluence(s, w) then
        var rest := ConfluencePass(fc, sections[1..], w, improve);
        ImproveThrowsTail(sections, improve);
        rest
      else
        var f := GetLatest(fc, s);
        match improve(f)
        case Err(e) =>
          assert f.fid == sections[0].fid && improve(f) == Err(e);
          Err(e)
        case Ok(m) =>
          var rest := ConfluencePass(Apply(fc, m), sections[1..], w, improve);
          ImproveThrowsTail(sections, improve);
          rest
  }

  /** An exception of the tail's improvements is one of the whole
      sequence's. */
  lemma ImproveThrowsTail(todo: seq<Feature>, improve: Improver)
    requires |todo| > 0
    ensures forall e :: ImproveThrows(todo[1..], improve, e) ==> ImproveThrows(todo, improve, e)
  {
    forall e | ImproveThrows(todo[1..], improve, e)
      ensures ImproveThrows(todo, improve, e)
    {
      var i, f: Feature :| 0 <= i < |todo[1..]| && f.fid == todo[1..][i].fid && improve(f) == Err(e);
      assert f.fid == todo[i + 1].fid;
    }
  }

  /** A pass over a concatenation is a pass over the first part continued
      over the second, unless the first part throws. */
  lemma {:induction false} PassAppend(fc: KD.Collection, a: seq<Feature>, b: seq<Feature>, improve: Improver)
    requires KD.WellKeyed(fc)
    ensures Pass(fc, a + b, improve) ==
      (if Pass(fc, a, improve).Err? then Pass(fc, a, improve) else Pass(Pass(fc, a, improve).value, b, improve))
    decreases |a|
  {
    if |a| == 0 {
      assert a + b == b;
    } else {
      assert (a + b)[0] == a[0] && (a + b)[1..] == a[1..] + b;
      var m := improve(GetLatest(fc, a[0]));
      if m.Ok? {
        PassAppend(Apply(fc, m.value), a[1..], b, improve);
      }
    }
  }

  /** When no test throws, the first loop is a pass over the sections at a
      confluence. */
  lemma {:induction false} ConfluencePassIsPass(fc: KD.Collection, sections: seq<Feature>, w: Water, improve: Improver)
    requires KD.WellKeyed(fc)
    requires forall i :: 0 <= i < |sections| ==> !TestFails(sections[i], w)
    ensures ConfluencePass(fc, sections, w, improve) == Pass(fc, ConfluenceGroup(sections, w), improve)
    decreases |sections|
  {
    if |sections| > 0 {
      var s := sections[0];
      var g := Catchments.Keep(sections[1..], f => AtConfluence(f, w));
      assert forall i :: 0 <= i < |sections[1..]| ==> sections[1..][i] == sections[i + 1];
      assert ConfluenceGroup(sections[1..], w) == g;
      if AtConfluence(s, w) {
        assert ConfluenceGroup(sections, w) == [s] + g;
        assert ([s] + g)[0] == s && ([s] + g)[1..] == g;
        var m := improve(GetLatest(fc, s));
        if m.Ok? {
          ConfluencePassIsPass(Apply(fc, m.value), sections[1..], w, improve);
        }
      } else {
        assert ConfluenceGroup(sections, w) == g;
        ConfluencePassIsPass(fc, sections[1..], w, improve);
      }
    }
  }

  /** The sections at a confluence, in input order. */
  function ConfluenceGroup(sections: seq<Feature>, w: Water): (r: seq<Feature>)
    ensures forall f :: f in r <==> f in sections && AtConfluence(f, w)
  {
    Catchments.Keep(sections, f => AtConfluence(f, w))
  }

  /** The other sections, in input order. */
  function OtherGroup(sections: seq<Feature>, w: Water): (r: seq<Feature>)
    ensures forall f :: f in r <==> f in sections && !AtConfluence(f, w)
  {
    Catchments.Keep(sections, f => !AtConfluence(f, w))
  }

  /** The order in which the sections are improved: the first pass, then
      the second. */
  function Order(sections: seq<Feature>, w: Water): (r: seq<Feature>)
  {
    ConfluenceGroup(sections, w) + OtherGroup(sections, w)
  }

  /** `improve(sectionSet)`: the first loop tests every section and
      improves those at a confluence, the second improves the others, both
      into an initially empty result collection; the first test or
      improvement that throws makes the whole call throw. */
  function Improve(sections: seq<Feature>, w: Water, improve: Improver): (r: Result<KD.Collection>)
    ensures (exists i :: 0 <= i < |sections| && TestFails(sections[i], w)) ==> r.Err?
    ensures (forall f :: improve(f).Ok?) ==> (r.Err? <==> exists i :: 0 <= i < |sections| && TestFails(sections[i], w))
    ensures r.Err? ==>
      (exists i :: 0 <= i < |sections| && TestFails(sections[i], w) && r.error == IndexOutOfBounds)
      || ImproveThrows(sections, improve, r.error)
    ensures r.Ok? ==> KD.WellKeyed(r.value)
  {
    var fc :- ConfluencePass(map[], sections, w, improve);
    var r := Pass(fc, OtherGroup(sections, w), improve);
    OtherThrows(sections, w, improve);
    r
  }

  /** An exception of the second loop's improvements is one of the set's. */
  lemma OtherThrows(sections: seq<Feature>, w: Water, improve: Improver)
    ensures forall e :: ImproveThrows(OtherGroup(sections, w), improve, e) ==> ImproveThrows(sections, improve, e)
  {
    var o := OtherGroup(sections, w);
    forall e | ImproveThrows(o, improve, e)
      ensures ImproveThrows(sections, improve, e)
    {
      var i, f: Feature :| 0 <= i < |o| && f.fid == o[i].fid && improve(f) == Err(e);
      assert o[i] in sections;
      var j :| 0 <= j < |sections| && sections[j] == o[i];
    }
  }

  /** When no test throws, the call is one pass over the sections in
      `Order`: those at a confluence first, then the others. */
  lemma ImproveIsPass(sections: seq<Feature>, w: Water, improve: Improver)
    requires forall i :: 0 <= i < |sections| ==> !TestFails(sections[i], w)
    ensures Improve(sections, w, improve) == Pass(map[], Order(sections, w), improve)
  {
    ConfluencePassIsPass(map[], sections, w, improve);
    PassAppend(map[], ConfluenceGroup(sections, w), OtherGroup(sections, w), improve);
  }

  /** Exceptions surface in loop order: a first section at a confluence
      whose improvement throws ends the call with that exception, whatever
      the later sections' tests would do. */
  lemma ImproveThrowsFirst(sections: seq<Feature>, w: Water, improve: Improver)
    requires |sections| > 0 && AtConfluence(sections[0], w) && improve(sections[0]).Err?
    ensures Improve(sections, w, improve) == Err(improve(sections[0]).error)
  {
    assert GetLatest(map[], sections[0]) == sections[0];
  }

  /** The order visits every section exactly as often as the input lists
      it; the sections at a confluence form a prefix of it, so none of the
      others comes before one of them. */
  lemma OrderConfluenceFirst(sections: seq<Feature>, w: Water)
    ensures multiset(Order(sections, w)) == multiset(sections)
    ensures forall i :: 0 <= i < |Order(sections, w)| ==>
      (AtConfluence(Order(sections, w)[i], w) <==> i < |ConfluenceGroup(sections, w)|)
    ensures forall i, j :: 0 <= i < j < |Order(sections, w)| && AtConfluence(Order(sections, w)[j], w) ==>
      AtConfluence(Order(sections, w)[i], w)
  {
    var a := ConfluenceGroup(sections, w);
    var b := OtherGroup(sections, w);
    KeepSplits(sections, w);
    var o := a + b;
    forall i | 0 <= i < |o|
      ensures AtConfluence(o[i], w) <==> i < |a|
    {
      if i < |a| {
        assert o[i] == a[i];
        assert o[i] in a;
      } else {
        assert o[i] == b[i - |a|];
        assert o[i] in b;
      }
    }
  }

  /** The two groups split the input. */
  lemma {:induction false} KeepSplits(sections: seq<Feature>, w: Water)
    ensures multiset(ConfluenceGroup(sections, w)) + multiset(OtherGroup(sections, w)) == multiset(sections)
    decreases |sections|
  {
    if |sections| > 0 {
      KeepSplits(sections[1..], w);
      assert sections == [sections[0]] + sections[1..];
    }
  }

  /** Within each group the input order is kept. */
  lemma {:induction false} KeepIsSubsequence(sections: seq<Feature>, p: Feature -> bool)
    ensures IsSubseq(Catchments.Keep(sections, p), sections)
    decreases |sections|
  {
    if |sections| == 0 {
      SubseqRefl(sections);
    } else {
      KeepIsSubsequence(sections[1..], p);
      var k := Catchments.Keep(sections[1..], p);
      assert sections == [sections[0]] + sections[1..];
      if p(sections[0]) {
        SubseqCons(sections[0], k, sections[1..]);
      } else {
        SubseqSkip(sections[0], k, sections[1..]);
      }
    }
  }

  /** When every modification keeps the FID of the section it was made
      for, the result holds a version of every section of the set, once
      per FID. */
  lemma {:induction false} PassCoversSections(fc: KD.Collection, todo: seq<Feature>, improve: Improver)
    requires KD.WellKeyed(fc)
    requires forall f :: improve(f).Ok? && Modification.Valid(improve(f).value) && improve(f).value.original == f
    ensures Pass(fc, todo, improve).Ok?
    ensures KD.Fids(todo) <= Pass(fc, todo, improve).value.Keys
    decreases |todo|
  {
    if |todo| > 0 {
      var m := improve(GetLatest(fc, todo[0])).value;
      assert m.modified.fid == todo[0].fid;
      var fc' := Apply(fc, m);
      PassCoversSections(fc', todo[1..], improve);
      assert KD.Fids(todo) == {todo[0].fid} + KD.Fids(todo[1..]);
    }
  }

  /** The improved collection holds a version of every input section. */
  lemma ImproveCoversSections(sections: seq<Feature>, w: Water, improve: Improver)
    requires forall f :: improve(f).Ok? && Modification.Valid(improve(f).value) && improve(f).value.original == f
    requires Improve(sections, w, improve).Ok?
    ensures KD.Fids(sections) <= Improve(sections, w, improve).value.Keys
  {
    var o := Order(sections, w);
    ImproveIsPass(sections, w, improve);
    OrderConfluenceFirst(sections, w);
    PassCoversSections(map[], o, improve);
    SameFids(sections, o);
  }

  /** Two sequences with the same features have the same FIDs. */
  lemma SameFids(sections: seq<Feature>, o: seq<Feature>)
    requires multiset(o) == multiset(sections)
    ensures KD.Fids(sections) <= KD.Fids(o)
  {
    forall fid | fid in KD.Fids(sections)
      ensures fid in KD.Fids(o)
    {
      var i :| 0 <= i < |sections| && sections[i].fid == fid;
      assert sections[i] in multiset(sections);
      assert sections[i] in o;
      var j :| 0 <= j < |o| && o[j] == sections[i];
    }
  }

  /** An improver that changes nothing gives back every section of a set
      with distinct FIDs, unchanged. */
  lemma {:induction false} PassUnchanged(fc: KD.Collection, todo: seq<Feature>, improve: Improver, i: nat)
    requires KD.WellKeyed(fc)
    requires forall f :: improve(f) == Ok(Modification.New(f))
    requires Catchments.UniqueFids(todo) && i < |todo|
    requires forall j :: 0 <= j < |todo| ==> todo[j].fid !in fc
    ensures Pass(fc, todo, improve).Ok?
    ensures todo[i].fid in Pass(fc, todo, improve).value && Pass(fc, todo, improve).value[todo[i].fid] == todo[i]
    decreases |todo|
  {
    assert todo[0].fid !in fc;
    var fc' := PassStep(fc, todo, improve);
    var rest := todo[1..];
    if i == 0 {
      TailOthers(todo);
      PassKeeps(fc', rest, improve, todo[0].fid);
    } else {
      TailFacts(fc, todo);
      assert rest[i - 1] == todo[i];
      PassUnchanged(fc', rest, improve, i - 1);
    }
  }

  /** One step of a pass with an improver that changes nothing. */
  lemma PassStep(fc: KD.Collection, todo: seq<Feature>, improve: Improver) returns (fc': KD.Collection)
    requires KD.WellKeyed(fc) && |todo| > 0 && todo[0].fid !in fc
    requires forall f :: improve(f) == Ok(Modification.New(f))
    ensures fc' == fc[todo[0].fid := todo[0]] && KD.WellKeyed(fc')
    ensures Pass(fc, todo, improve) == Pass(fc', todo[1..], improve)
  {
    assert GetLatest(fc, todo[0]) == todo[0];
    fc' := Apply(fc, Modification.New(todo[0]));
    ApplyUnchanged(fc, todo[0]);
  }

  /** What the tail of a FID-distinct sequence inherits. */
  lemma TailFacts(fc: KD.Collection, todo: seq<Feature>)
    requires Catchments.UniqueFids(todo) && |todo| > 0
    requires forall j :: 0 <= j < |todo| ==> todo[j].fid !in fc
    ensures Catchments.UniqueFids(todo[1..])
    ensures forall j :: 0 <= j < |todo[1..]| ==> todo[1..][j].fid !in fc[todo[0].fid := todo[0]]
  {
    var rest := todo[1..];
    TailOthers(todo);
    forall j | 0 <= j < |rest|
      ensures rest[j].fid !in fc
    {
      assert rest[j] == todo[j + 1];
    }
    forall a, b | 0 <= a < b < |rest|
      ensures rest[a].fid != rest[b].fid
    {
      assert rest[a] == todo[a + 1] && rest[b] == todo[b + 1];
    }
  }

  /** With distinct FIDs, no later section shares the first one's FID. */
  lemma TailOthers(todo: seq<Feature>)
    requires Catchments.UniqueFids(todo) && |todo| > 0
    ensures forall j :: 0 <= j < |todo[1..]| ==> todo[1..][j].fid != todo[0].fid
  {
    forall j | 0 <= j < |todo[1..]|
      ensures todo[1..][j].fid != todo[0].fid
    {
      assert todo[1..][j] == todo[j + 1];
    }
  }

  /** Recording an unmodified section files the section under its FID. */
  lemma ApplyUnchanged(fc: KD.Collection, f: Feature)
    ensures Apply(fc, Modification.New(f)) == fc[f.fid := f]
  {
    assert Modification.New(f).touching == [];
  }

  /** An unchanged-FID improver never touches a FID it is not given. */
  lemma {:induction false} PassKeeps(fc: KD.Collection, todo: seq<Feature>, improve: Improver, fid: string)
    requires KD.WellKeyed(fc) && fid in fc
    requires forall f :: improve(f) == Ok(Modification.New(f))
    requires forall j :: 0 <= j < |todo| ==> todo[j].fid != fid
    ensures Pass(fc, todo, improve).Ok?
    ensures fid in Pass(fc, todo, improve).value && Pass(fc, todo, improve).value[fid] == fc[fid]
    decreases |todo|
  {
    if |todo| > 0 {
      var fc' := Apply(fc, improve(GetLatest(fc, todo[0])).value);
      assert fc'[fid] == fc[fid];
      PassKeeps(fc', todo[1..], improve, fid);
    }
  }
}
