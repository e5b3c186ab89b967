/** A junction of catchment sections: a coordinate and the sections that
    touch it.  Its identifier is built from the FIDs of the touching
    sections, sorted with `String.compareTo` and joined with '.', inside
    braces, so it does not depend on the order in which the sections were
    listed.  Computing the identifier sorts the junction's own list of
    sections, a change the model returns explicitly. */
module Junctions {

  import opened Geom
  import SegmentText

  /** `a.compareTo(b) <= 0`: lexicographic order on characters, a proper
      prefix coming first. */
  predicate StrLe(a: string, b: string)
    decreases |a|
  {
    |a| == 0 || (|b| > 0 && (a[0] < b[0] || (a[0] == b[0] && StrLe(a[1..], b[1..]))))
  }

  lemma {:induction false} StrLeTotal(a: string, b: string)
    ensures StrLe(a, b) || StrLe(b, a)
    decreases |a|
  {
    if |a| > 0 && |b| > 0 && a[0] == b[0] {
      StrLeTotal(a[1..], b[1..]);
    }
  }

  lemma {:induction false} StrLeAntisymmetric(a: string, b: string)
    requires StrLe(a, b) && StrLe(b, a)
    ensures a == b
    decreases |a|
  {
    if |a| > 0 {
      StrLeAntisymmetric(a[1..], b[1..]);
      assert a == [a[0]] + a[1..] && b == [b[0]] + b[1..];
    }
  }

  lemma {:induction false} StrLeTransitive(a: string, b: string, c: string)
    requires StrLe(a, b) && StrLe(b, c)
    ensures StrLe(a, c)
    decreases |a|
  {
    if |a| > 0 && a[0] == b[0] && b[0] == c[0] {
      StrLeTransitive(a[1..], b[1..], c[1..]);
    }
  }

  /** The FIDs of a list of sections. */
  function Ids(fs: seq<Feature>): (r: seq<string>)
    ensures |r| == |fs|
    ensures forall i :: 0 <= i < |fs| ==> r[i] == fs[i].fid
  {
    if |fs| == 0 then [] else [fs[0].fid] + Ids(fs[1..])
  }

  lemma IdsAppend(a: seq<Feature>, b: seq<Feature>)
    ensures Ids(a + b) == Ids(a) + Ids(b)
  {
  }

  predicate Sorted(ids: seq<string>) {
    forall i, j :: 0 <= i < j < |ids| ==> StrLe(ids[i], ids[j])
  }

  /** A list whose first element sorts no later than every element of a
      sorted rest is sorted. */
  lemma SortedCons(x: string, rest: seq<string>)
    requires Sorted(rest) && (|rest| > 0 ==> StrLe(x, rest[0]))
    ensures Sorted([x] + rest)
  {
    var r := [x] + rest;
    forall i, j | 0 <= i < j < |r|
      ensures StrLe(r[i], r[j])
    {
      if i == 0 && j > 1 {
        StrLeTransitive(x, rest[0], rest[j - 1]);
      }
    }
  }

  /** Insert `f` in front of the first section whose FID sorts after it. */
  function Insert(f: Feature, fs: seq<Feature>): (r: seq<Feature>)
    ensures |r| == |fs| + 1
    ensures r[0] == f || (|fs| > 0 && r[0] == fs[0])
  {
    if |fs| == 0 then [f]
    else if StrLe(f.fid, fs[0].fid) then [f] + fs
    else [fs[0]] + Insert(f, fs[1..])
  }

  lemma {:induction false} InsertSorted(f: Feature, fs: seq<Feature>)
    requires Sorted(Ids(fs))
    ensures Sorted(Ids(Insert(f, fs)))
    decreases |fs|
  {
    var r := Insert(f, fs);
    if |fs| == 0 {
    } else if StrLe(f.fid, fs[0].fid) {
      assert Ids(r) == [f.fid] + Ids(fs);
      SortedCons(f.fid, Ids(fs));
    } else {
      StrLeTotal(f.fid, fs[0].fid);
      assert Ids(fs) == [fs[0].fid] + Ids(fs[1..]);
      assert Sorted(Ids(fs[1..]));
      InsertSorted(f, fs[1..]);
      var t := Insert(f, fs[1..]);
      assert Ids(r) == [fs[0].fid] + Ids(t);
      assert |fs| > 1 ==> Ids(fs)[1] == fs[1].fid;
      SortedCons(fs[0].fid, Ids(t));
    }
  }

  lemma {:induction false} InsertPerm(f: Feature, fs: seq<Feature>)
    ensures multiset(Insert(f, fs)) == multiset(fs) + multiset{f}
    decreases |fs|
  {
    if |fs| > 0 {
      assert fs == [fs[0]] + fs[1..];
      if !StrLe(f.fid, fs[0].fid) {
        InsertPerm(f, fs[1..]);
        var t := Insert(f, fs[1..]);
        calc {
          multiset(Insert(f, fs));
          multiset([fs[0]] + t);
          multiset{fs[0]} + multiset(t);
          multiset{fs[0]} + multiset(fs[1..]) + multiset{f};
          multiset(fs) + multiset{f};
        }
      }
    }
  }

  lemma {:induction false} InsertPermIds(f: Feature, fs: seq<Feature>)
    ensures multiset(Ids(Insert(f, fs))) == multiset(Ids(fs)) + multiset{f.fid}
    decreases |fs|
  {
    if |fs| > 0 {
      assert Ids(fs) == [fs[0].fid] + Ids(fs[1..]);
      if StrLe(f.fid, fs[0].fid) {
        assert Ids(Insert(f, fs)) == [f.fid] + Ids(fs);
      } else {
        InsertPermIds(f, fs[1..]);
        var t := Insert(f, fs[1..]);
        assert Ids(Insert(f, fs)) == [fs[0].fid] + Ids(t);
        calc {
          multiset(Ids(Insert(f, fs)));
          multiset{fs[0].fid} + multiset(Ids(t));
          multiset{fs[0].fid} + multiset(Ids(fs[1..])) + multiset{f.fid};
          multiset(Ids(fs)) + multiset{f.fid};
        }
      }
    }
  }

  /** `touchingSections.sort(...)` by FID.  The sort is a stable merge sort;
      insertion from the back is stable too. */
  function SortById(fs: seq<Feature>): (r: seq<Feature>)
    ensures |r| == |fs|
  {
    if |fs| == 0 then [] else Insert(fs[0], SortById(fs[1..]))
  }

  /** The sorted list is ordered by FID. */
  lemma {:induction false} SortByIdSorted(fs: seq<Feature>)
    ensures Sorted(Ids(SortById(fs)))
    decreases |fs|
  {
    if |fs| > 0 {
      SortByIdSorted(fs[1..]);
      InsertSorted(fs[0], SortById(fs[1..]));
    }
  }

  /** The sorted list holds the same sections. */
  lemma {:induction false} SortByIdPerm(fs: seq<Feature>)
    ensures multiset(SortById(fs)) == multiset(fs)
    decreases |fs|
  {
    if |fs| > 0 {
      SortByIdPerm(fs[1..]);
      InsertPerm(fs[0], SortById(fs[1..]));
      calc {
        multiset(SortById(fs));
        multiset(SortById(fs[1..])) + multiset{fs[0]};
        multiset(fs[1..]) + multiset{fs[0]};
        { assert fs == [fs[0]] + fs[1..]; }
        multiset(fs);
      }
    }
  }

  /** ... and therefore the same FIDs. */
  lemma {:induction false} SortByIdPermIds(fs: seq<Feature>)
    ensures multiset(Ids(SortById(fs))) == multiset(Ids(fs))
    decreases |fs|
  {
    if |fs| > 0 {
      SortByIdPermIds(fs[1..]);
      InsertPermIds(fs[0], SortById(fs[1..]));
      calc {
        multiset(Ids(SortById(fs)));
        multiset(Ids(SortById(fs[1..]))) + multiset{fs[0].fid};
        multiset(Ids(fs[1..])) + multiset{fs[0].fid};
        { assert Ids(fs) == [fs[0].fid] + Ids(fs[1..]); }
        multiset(Ids(fs));
      }
    }
  }

  lemma SortByIdSpec(fs: seq<Feature>)
    ensures Sorted(Ids(SortById(fs)))
    ensures multiset(SortById(fs)) == multiset(fs)
    ensures multiset(Ids(SortById(fs))) == multiset(Ids(fs))
  {
    SortByIdSorted(fs);
    SortByIdPerm(fs);
    SortByIdPermIds(fs);
  }

  /** Two sorted FID lists with the same FIDs start with the same FID. */
  lemma SortedHeads(a: seq<string>, b: seq<string>)
    requires Sorted(a) && Sorted(b) && multiset(a) == multiset(b) && |a| > 0
    ensures |b| > 0 && a[0] == b[0]
  {
    assert a[0] in multiset(b);
    var j :| 0 <= j < |b| && b[j] == a[0];
    assert b[0] in multiset(a);
    var i :| 0 <= i < |a| && a[i] == b[0];
    assert StrLe(b[0], a[0]) by {
      if j == 0 {
        StrLeTotal(a[0], a[0]);
      }
    }
    assert StrLe(a[0], b[0]) by {
      if i == 0 {
        StrLeTotal(a[0], a[0]);
      }
    }
    StrLeAntisymmetric(a[0], b[0]);
  }

  /** Two sorted FID lists holding the same FIDs are the same list. */
  lemma {:induction false} SortedUnique(a: seq<string>, b: seq<string>)
    requires Sorted(a) && Sorted(b) && multiset(a) == multiset(b)
    ensures a == b
    decreases |a|
  {
    assert |a| == |multiset(a)| == |b|;
    if |a| > 0 {
      SortedHeads(a, b);
      assert a == [a[0]] + a[1..] && b == [b[0]] + b[1..];
      assert multiset(a[1..]) == multiset(a) - multiset{a[0]};
      assert multiset(b[1..]) == multiset(b) - multiset{b[0]};
      SortedUnique(a[1..], b[1..]);
    }
  }

  /** The concatenation loop of `getID`: a '.' goes before a FID unless the
      text so far is empty. */
  function JoinLoop(ids: seq<string>, acc: string): string
    decreases |ids|
  {
    if |ids| == 0 then acc
    else
      var acc' := (if acc != "" then acc + "." else acc) + ids[0];
      JoinLoop(ids[1..], acc')
  }

  /** With non-empty FIDs the loop is the '.'-join of the FIDs. */
  lemma {:induction false} JoinLoopIsJoin(ids: seq<string>, acc: string)
    requires |ids| >= 1 && acc != ""
    requires forall i :: 0 <= i < |ids| ==> ids[i] != ""
    ensures JoinLoop(ids, acc) == acc + "." + SegmentText.Join(ids, '.')
    decreases |ids|
  {
    if |ids| > 1 {
      JoinLoopIsJoin(ids[1..], acc + "." + ids[0]);
      assert ids[1..][0] == ids[1];
    }
  }

  lemma JoinLoopIsJoinFromEmpty(ids: seq<string>)
    requires |ids| >= 1
    requires forall i :: 0 <= i < |ids| ==> ids[i] != ""
    ensures JoinLoop(ids, "") == SegmentText.Join(ids, '.')
  {
    assert "" + ids[0] == ids[0];
    if |ids| > 1 {
      JoinLoopIsJoin(ids[1..], ids[0]);
      assert ids[1..][0] == ids[1];
    }
  }

  /** The static `getID(touchingSections)`: the sorted list and the
      identifier. */
  function GetId(sections: seq<Feature>): (r: (seq<Feature>, string))
    ensures multiset(r.0) == multiset(sections) && Sorted(Ids(r.0))
    ensures multiset(Ids(r.0)) == multiset(Ids(sections))
    ensures |r.1| >= 2 && r.1[0] == '{' && r.1[|r.1| - 1] == '}'
    ensures |sections| == 0 ==> r.1 == "{}"
    ensures |sections| > 0 && (forall i :: 0 <= i < |sections| ==> sections[i].fid != "") ==>
      r.1 == "{" + SegmentText.Join(Ids(r.0), '.') + "}"
  {
    var sorted := SortById(sections);
    SortByIdSpec(sections);
    SortedJoin(sections);
    (sorted, "{" + JoinLoop(Ids(sorted), "") + "}")
  }

  lemma SortedJoin(sections: seq<Feature>)
    ensures |sections| > 0 && (forall i :: 0 <= i < |sections| ==> sections[i].fid != "") ==>
      JoinLoop(Ids(SortById(sections)), "") == SegmentText.Join(Ids(SortById(sections)), '.')
  {
    var sorted := SortById(sections);
    SortByIdSpec(sections);
    if |sections| > 0 && (forall i :: 0 <= i < |sections| ==> sections[i].fid != "") {
      forall i | 0 <= i < |sorted|
        ensures Ids(sorted)[i] != ""
      {
        assert sorted[i] in multiset(sections);
      }
      assert |multiset(sorted)| == |multiset(sections)|;
      JoinLoopIsJoinFromEmpty(Ids(sorted));
    }
  }

  /** The identifier depends only on which FIDs touch, not on their order:
      any reordering of the sections (or sections with the same FIDs) gives
      the same identifier. */
  lemma GetIdIgnoresOrder(a: seq<Feature>, b: seq<Feature>)
    requires multiset(Ids(a)) == multiset(Ids(b))
    ensures GetId(a).1 == GetId(b).1
  {
    SortByIdSpec(a);
    SortByIdSpec(b);
    SortedUnique(Ids(SortById(a)), Ids(SortById(b)));
  }

  /** Asking again gives the same identifier: the list `getID` leaves
      behind already yields it. */
  lemma GetIdStable(sections: seq<Feature>)
    ensures GetId(GetId(sections).0).1 == GetId(sections).1
  {
    GetIdIgnoresOrder(GetId(sections).0, sections);
  }

  datatype Junction = Junction(coord: Coord, sections: seq<Feature>)

  /** `getDegree()`. */
  function Degree(j: Junction): nat {
    |j.sections|
  }

  /** `getID()`: the identifier, with the junction's sections sorted. */
  function JunctionId(j: Junction): (r: (Junction, string))
    ensures r.0.coord == j.coord && multiset(r.0.sections) == multiset(j.sections)
    ensures Degree(r.0) == Degree(j)
    ensures r.1 == GetId(j.sections).1
  {
    var (s, id) := GetId(j.sections);
    assert |multiset(s)| == |multiset(j.sections)|;
    (Junction(j.coord, s), id)
  }

  /** Sorting the sections does not change the junction's identifier. */
  lemma JunctionIdStable(j: Junction)
    ensures JunctionId(JunctionId(j).0).1 == JunctionId(j).1
  {
    GetIdStable(j.sections);
  }

  /** `equals(other)`: same identifier and same 2D position. */
  predicate Equal(a: Junction, b: Junction): (r: bool)
    ensures r ==> SameXY(a.coord, b.coord)
    ensures SameXY(a.coord, b.coord) && multiset(Ids(a.sections)) == multiset(Ids(b.sections)) ==> r
  {
    if SameXY(a.coord, b.coord) && multiset(Ids(a.sections)) == multiset(Ids(b.sections)) then
      GetIdIgnoresOrder(a.sections, b.sections);
      JunctionId(a).1 == JunctionId(b).1 && SameXY(a.coord, b.coord)
    else
      JunctionId(a).1 == JunctionId(b).1 && SameXY(a.coord, b.coord)
  }

  /** Junction equality is an equivalence. */
  lemma EqualIsEquivalence(a: Junction, b: Junction, c: Junction)
    ensures Equal(a, a)
    ensures Equal(a, b) ==> Equal(b, a)
    ensures Equal(a, b) && Equal(b, c) ==> Equal(a, c)
  {
  }

  /** A junction equals any junction at the same position whose sections
      carry the same FIDs in any order, and in particular the junction that
      asking for the identifier leaves behind. */
  lemma EqualIgnoresOrder(a: Junction, b: Junction)
    requires SameXY(a.coord, b.coord)
    requires multiset(Ids(a.sections)) == multiset(Ids(b.sections))
    ensures Equal(a, b)
    ensures Equal(JunctionId(a).0, a)
  {
    GetIdIgnoresOrder(a.sections, b.sections);
    JunctionIdStable(a);
  }
}
