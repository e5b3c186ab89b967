/** The ridge cleaner's catchment bookkeeping: a catchment is a polygon
    with the list of original feature ids merged into it, and the tracker
    hands out the catchment that holds a feature id, registering one from
    the original collection the first time an id is asked for.  Java object
    identity is the `handle`: the tracker removes a catchment by identity,
    and no two tracked catchments share a handle.  Polygon union (JTS) is
    the parameter `merge`. */
module UnionTracker {

  import opened Wrappers
  import opened Geom

  /** A polygon, as the coordinates of its shell. */
  type Polygon = seq<Coord>

  datatype Catchment = Catchment(handle: nat, polygon: Polygon, fids: seq<string>)

  /** `contains(fid)`. */
  predicate Contains(c: Catchment, fid: string) {
    fid in c.fids
  }

  /** `new Catchment(fid, polygon)`: a null id or polygon throws. */
  function NewCatchment(handle: nat, fid: Option<string>, polygon: Option<Polygon>): (r: Result<Catchment>)
    ensures r.Err? <==> fid.None? || polygon.None?
    ensures r.Err? ==> r.error == IllegalArgument
    ensures r.Ok? ==> r.value.handle == handle && r.value.polygon == polygon.value
    ensures r.Ok? ==> |r.value.fids| == 1 && forall x :: Contains(r.value, x) <==> x == fid.value
  {
    if fid.None? || polygon.None? then Err(IllegalArgument)
    else Ok(Catchment(handle, polygon.value, [fid.value]))
  }

  /** `a.union(b)`: `a` takes the union polygon and appends `b`'s ids. */
  function Union(a: Catchment, b: Catchment, merge: (Polygon, Polygon) -> Polygon): (r: Catchment)
    ensures r.handle == a.handle && r.polygon == merge(a.polygon, b.polygon)
    ensures |r.fids| == |a.fids| + |b.fids| && r.fids[..|a.fids|] == a.fids
    ensures multiset(r.fids) == multiset(a.fids) + multiset(b.fids)
  {
    var fids := a.fids + b.fids;
    assert fids[..|a.fids|] == a.fids;
    a.(polygon := merge(a.polygon, b.polygon), fids := fids)
  }

  /** After a union the catchment holds exactly the ids of both. */
  lemma UnionContains(a: Catchment, b: Catchment, merge: (Polygon, Polygon) -> Polygon, x: string)
    ensures Contains(Union(a, b, merge), x) <==> Contains(a, x) || Contains(b, x)
  {
    var r := Union(a, b, merge);
    assert x in multiset(r.fids) <==> x in multiset(a.fids) + multiset(b.fids);
  }

  /** An original catchment feature: its id and its polygon (`None` when
      the geometry is null). */
  datatype Original = Original(fid: string, polygon: Option<Polygon>)

  /** The tracker: the original catchments, the tracked (merged) ones in
      registration order, and the next unused handle. */
  datatype Tracker = Tracker(originals: seq<Original>, tracked: seq<Catchment>, next: nat)

  /** `new CatchmentUnionTracker(originals)`. */
  function NewTracker(originals: seq<Original>): (r: Tracker)
    ensures Valid(r) && r.tracked == [] && r.originals == originals
  {
    Tracker(originals, [], 0)
  }

  /** Handles are below `next` and distinct: every tracked catchment is a
      different object. */
  predicate Valid(t: Tracker) {
    (forall i :: 0 <= i < |t.tracked| ==> t.tracked[i].handle < t.next) &&
    (forall i, j :: 0 <= i < j < |t.tracked| ==> t.tracked[i].handle != t.tracked[j].handle)
  }

  /** No feature id is held by two tracked catchments. */
  predicate Disjoint(tracked: seq<Catchment>) {
    forall i, j, x :: 0 <= i < |tracked| && 0 <= j < |tracked| && i != j && x in tracked[i].fids ==>
      x !in tracked[j].fids
  }

  /** The originals whose id is `fid` (the id filter's sub-collection). */
  function Matches(originals: seq<Original>, fid: string): (r: seq<Original>)
    ensures |r| <= |originals|
    ensures forall o :: o in r <==> o in originals && o.fid == fid
    decreases |originals|
  {
    if |originals| == 0 then []
    else
      var rest := Matches(originals[1..], fid);
      assert forall o :: o in originals <==> o == originals[0] || o in originals[1..];
      if originals[0].fid == fid then [originals[0]] + rest else rest
  }

  /** `getOriginalPolygon(fid)`: the polygon of the single original with
      that id; an unknown id, a null polygon or several matches throw. */
  function OriginalPolygon(originals: seq<Original>, fid: string): (r: Result<Polygon>)
    ensures r == Err(IllegalArgument) <==> forall o :: o in originals ==> o.fid != fid
    ensures r.Err? && r.error != IllegalArgument ==> r.error == IllegalState
    ensures r.Ok? <==> |Matches(originals, fid)| == 1 && Matches(originals, fid)[0].polygon.Some?
    ensures r.Ok? ==> Original(fid, Some(r.value)) in originals
  {
    var m := Matches(originals, fid);
    if |m| == 1 then
      assert m[0] in m;
      if m[0].polygon.None? then Err(IllegalState) else Ok(m[0].polygon.value)
    else if |m| == 0 then
      assert m == [];
      Err(IllegalArgument)
    else
      assert m[0] in m;
      Err(IllegalState)
  }

  /** The first tracked catchment holding `fid`. */
  function Find(tracked: seq<Catchment>, fid: string): (r: Option<nat>)
    ensures r.Some? ==> r.value < |tracked| && Contains(tracked[r.value], fid)
    ensures r.Some? ==> forall j :: 0 <= j < r.value ==> !Contains(tracked[j], fid)
    ensures r.None? <==> forall j :: 0 <= j < |tracked| ==> !Contains(tracked[j], fid)
    decreases |tracked|
  {
    if |tracked| == 0 then None
    else if Contains(tracked[0], fid) then Some(0)
    else
      var rest := Find(tracked[1..], fid);
      assert forall j :: 1 <= j < |tracked| ==> tracked[j] == tracked[1..][j - 1];
      if rest.None? then None else Some(rest.value + 1)
  }

  /** `getCatchment(fid)`: the tracked catchment holding `fid`, or a new
      catchment of the original feature, registered at the end. */
  function GetCatchment(t: Tracker, fid: string): (r: Result<(Tracker, Catchment)>)
    ensures r.Ok? ==> Contains(r.value.1, fid) && r.value.1 in r.value.0.tracked
    ensures r.Ok? ==> r.value.0.originals == t.originals
    ensures Find(t.tracked, fid).Some? ==> r.Ok? && r.value.0 == t
    ensures Find(t.tracked, fid).None? ==> r.Err? == OriginalPolygon(t.originals, fid).Err?
    ensures r.Err? ==> r.error == OriginalPolygon(t.originals, fid).error
    ensures Find(t.tracked, fid).None? && r.Ok? ==>
      r.value.0.tracked == t.tracked + [r.value.1] && r.value.1.fids == [fid] &&
      Original(fid, Some(r.value.1.polygon)) in t.originals
  {
    var k := Find(t.tracked, fid);
    if k.Some? then Ok((t, t.tracked[k.value]))
    else
      var p := OriginalPolygon(t.originals, fid);
      if p.Err? then Err(p.error)
      else
        var c := NewCatchment(t.next, Some(fid), Some(p.value)).value;
        var tracked := t.tracked + [c];
        assert c == tracked[|t.tracked|];
        Ok((t.(tracked := tracked, next := t.next + 1), c))
  }

  /** Getting a catchment keeps the tracker valid and keeps ids disjoint. */
  lemma GetCatchmentKeeps(t: Tracker, fid: string)
    requires Valid(t) && Disjoint(t.tracked)
    requires GetCatchment(t, fid).Ok?
    ensures Valid(GetCatchment(t, fid).value.0)
    ensures Disjoint(GetCatchment(t, fid).value.0.tracked)
  {
  }

  /** Asking again for the same id gives the same catchment and changes
      nothing. */
  lemma GetCatchmentIdempotent(t: Tracker, fid: string)
    requires GetCatchment(t, fid).Ok?
    ensures var (t', c) := GetCatchment(t, fid).value; GetCatchment(t', fid) == Ok((t', c))
  {
    var (t', c) := GetCatchment(t, fid).value;
    if Find(t.tracked, fid).None? {
      assert t'.tracked[|t.tracked|] == c;
      assert forall j :: 0 <= j < |t.tracked| ==> t'.tracked[j] == t.tracked[j];
      assert Find(t'.tracked, fid).Some?;
      assert Find(t'.tracked, fid).value >= |t.tracked|;
    }
  }

  /** With disjoint ids, the catchment found for an id is the only one
      holding it. */
  lemma FoundIsUnique(t: Tracker, fid: string, j: nat)
    requires Disjoint(t.tracked) && j < |t.tracked| && Contains(t.tracked[j], fid)
    ensures GetCatchment(t, fid) == Ok((t, t.tracked[j]))
  {
    var k := Find(t.tracked, fid).value;
    assert fid in t.tracked[k].fids && fid in t.tracked[j].fids;
  }

  /** The list without position `b` (`List.remove` of the object there). */
  function RemoveAt(s: seq<Catchment>, b: nat): (r: seq<Catchment>)
    requires b < |s|
    ensures |r| == |s| - 1
    ensures forall i :: 0 <= i < b ==> r[i] == s[i]
    ensures forall i :: b <= i < |r| ==> r[i] == s[i + 1]
  {
    s[..b] + s[b + 1..]
  }

  /** `union(catchmentA, catchmentB)` on the tracked catchments at
      positions `a` and `b`: `a` is merged in place, then `b` is removed by
      identity. */
  function TrackerUnion(t: Tracker, a: nat, b: nat, merge: (Polygon, Polygon) -> Polygon): (r: Tracker)
    requires a < |t.tracked| && b < |t.tracked|
    ensures |r.tracked| == |t.tracked| - 1
    ensures r.originals == t.originals && r.next == t.next
  {
    var merged := Union(t.tracked[a], t.tracked[b], merge);
    t.(tracked := RemoveAt(t.tracked[a := merged], b))
  }

  /** The position in the original list of position `i` after `b` is
      removed. */
  function Unshift(i: nat, b: nat): nat {
    if i < b then i else i + 1
  }

  /** Position by position, the list after a union: the merged catchment
      where `a` moved to, the untouched ones elsewhere. */
  lemma TrackerUnionAt(t: Tracker, a: nat, b: nat, merge: (Polygon, Polygon) -> Polygon, i: nat)
    requires a < |t.tracked| && b < |t.tracked| && i < |t.tracked| - 1
    ensures Unshift(i, b) < |t.tracked| && Unshift(i, b) != b
    ensures TrackerUnion(t, a, b, merge).tracked[i] ==
      if Unshift(i, b) == a then Union(t.tracked[a], t.tracked[b], merge) else t.tracked[Unshift(i, b)]
  {
  }

  /** Merging two different catchments keeps the merged one (its ids are
      those of both) and every other catchment, and drops `b`. */
  lemma TrackerUnionMerges(t: Tracker, a: nat, b: nat, merge: (Polygon, Polygon) -> Polygon)
    requires Valid(t) && a < |t.tracked| && b < |t.tracked| && a != b
    ensures var k := if a < b then a else a - 1;
      k < |t.tracked| - 1 && TrackerUnion(t, a, b, merge).tracked[k] == Union(t.tracked[a], t.tracked[b], merge)
    ensures forall i :: 0 <= i < |t.tracked| - 1 && Unshift(i, b) != a ==>
      TrackerUnion(t, a, b, merge).tracked[i] == t.tracked[Unshift(i, b)]
    ensures forall i :: 0 <= i < |t.tracked| - 1 ==>
      TrackerUnion(t, a, b, merge).tracked[i].handle != t.tracked[b].handle
  {
    var r := TrackerUnion(t, a, b, merge).tracked;
    forall i | 0 <= i < |r|
      ensures r[i] == if Unshift(i, b) == a then Union(t.tracked[a], t.tracked[b], merge) else t.tracked[Unshift(i, b)]
    {
      TrackerUnionAt(t, a, b, merge, i);
    }
    var k := if a < b then a else a - 1;
    assert Unshift(k, b) == a;
    forall i | 0 <= i < |r|
      ensures r[i].handle != t.tracked[b].handle
    {
      assert r[i].handle == t.tracked[Unshift(i, b)].handle;
    }
  }

  /** Merging keeps the tracker valid. */
  lemma TrackerUnionValid(t: Tracker, a: nat, b: nat, merge: (Polygon, Polygon) -> Polygon)
    requires Valid(t) && a < |t.tracked| && b < |t.tracked|
    ensures Valid(TrackerUnion(t, a, b, merge))
  {
    var r := TrackerUnion(t, a, b, merge).tracked;
    forall i | 0 <= i < |r|
      ensures r[i].handle == t.tracked[Unshift(i, b)].handle
    {
      TrackerUnionAt(t, a, b, merge, i);
    }
  }

  /** The ids a catchment of the merged list holds come from the catchment
      it was, or from `b` for the merged one. */
  lemma TrackerUnionIds(t: Tracker, a: nat, b: nat, merge: (Polygon, Polygon) -> Polygon, i: nat, y: string)
    requires a < |t.tracked| && b < |t.tracked| && i < |t.tracked| - 1
    ensures Contains(TrackerUnion(t, a, b, merge).tracked[i], y) <==>
      Contains(t.tracked[Unshift(i, b)], y) || (Unshift(i, b) == a && Contains(t.tracked[b], y))
  {
    TrackerUnionAt(t, a, b, merge, i);
    UnionContains(t.tracked[a], t.tracked[b], merge, y);
  }

  /** Merging two different catchments keeps the ids disjoint. */
  lemma TrackerUnionDisjoint(t: Tracker, a: nat, b: nat, merge: (Polygon, Polygon) -> Polygon)
    requires Disjoint(t.tracked) && a < |t.tracked| && b < |t.tracked| && a != b
    ensures Disjoint(TrackerUnion(t, a, b, merge).tracked)
  {
    var r := TrackerUnion(t, a, b, merge).tracked;
    forall i, j, y | 0 <= i < |r| && 0 <= j < |r| && i != j && y in r[i].fids
      ensures y !in r[j].fids
    {
      TrackerUnionIds(t, a, b, merge, i, y);
      TrackerUnionIds(t, a, b, merge, j, y);
      var ui, uj := Unshift(i, b), Unshift(j, b);
      assert ui != uj && ui != b && uj != b;
      assert Contains(t.tracked[ui], y) || Contains(t.tracked[b], y);
      assert !Contains(t.tracked[uj], y);
    }
  }

  /** A merge of two different catchments loses no id: an id is held
      after it exactly when it was held before. */
  lemma TrackerUnionKeepsIds(t: Tracker, a: nat, b: nat, merge: (Polygon, Polygon) -> Polygon, x: string)
    requires a < |t.tracked| && b < |t.tracked| && a != b
    ensures (exists i :: 0 <= i < |t.tracked| && Contains(t.tracked[i], x)) <==>
            (exists i :: 0 <= i < |t.tracked| - 1 && Contains(TrackerUnion(t, a, b, merge).tracked[i], x))
  {
    var r := TrackerUnion(t, a, b, merge).tracked;
    var k := if a < b then a else a - 1;
    assert Unshift(k, b) == a;
    if exists i :: 0 <= i < |t.tracked| && Contains(t.tracked[i], x) {
      var i :| 0 <= i < |t.tracked| && Contains(t.tracked[i], x);
      var j := if i == b then k else if i < b then i else i - 1;
      assert Unshift(j, b) == i || (i == b && Unshift(j, b) == a);
      TrackerUnionIds(t, a, b, merge, j, x);
      assert Contains(r[j], x);
    }
    if exists i :: 0 <= i < |r| && Contains(r[i], x) {
      var i :| 0 <= i < |r| && Contains(r[i], x);
      TrackerUnionIds(t, a, b, merge, i, x);
      assert Contains(t.tracked[Unshift(i, b)], x) || Contains(t.tracked[b], x);
    }
  }

  /** `union(c, c)` doubles `c`'s ids and then removes `c` itself: its
      ids are no longer held by any tracked catchment. */
  lemma UnionWithItselfDrops(t: Tracker, a: nat, merge: (Polygon, Polygon) -> Polygon, x: string)
    requires Valid(t) && Disjoint(t.tracked) && a < |t.tracked| && Contains(t.tracked[a], x)
    ensures forall i :: 0 <= i < |t.tracked| - 1 ==> !Contains(TrackerUnion(t, a, a, merge).tracked[i], x)
  {
    var r := TrackerUnion(t, a, a, merge).tracked;
    forall i | 0 <= i < |r|
      ensures !Contains(r[i], x)
    {
      TrackerUnionAt(t, a, a, merge, i);
      assert Unshift(i, a) != a;
    }
  }
}
