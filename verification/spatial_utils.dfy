/** Coordinate-sequence helpers of the catchment tools: de-duplication,
    slicing, indexed access from either end, lookup, segmentation, lowest
    and highest vertex, and the null-tolerant list/array converters. */
module SpatialUtils {

  import opened Wrappers
  import opened Geom

  /** No two neighbouring coordinates are equal in 2D. */
  predicate NoAdjacentDup(s: seq<Coord>) {
    forall i :: 0 < i < |s| ==> !SameXY(s[i - 1], s[i])
  }

  /** The coordinates of `s` that differ in 2D from the input coordinate
      just before them, `prev` being the one before `s[0]`. */
  function DedupAfter(prev: Coord, s: seq<Coord>): seq<Coord>
    decreases |s|
  {
    if |s| == 0 then []
    else (if SameXY(prev, s[0]) then [] else [s[0]]) + DedupAfter(s[0], s[1..])
  }

  /** `removeDuplicateCoordinates`: the first coordinate of every run of
      2D-equal neighbours. */
  function Dedup(s: seq<Coord>): seq<Coord> {
    if |s| == 0 then [] else [s[0]] + DedupAfter(s[0], s[1..])
  }

  /** The loop as written: compare each coordinate with the previous input
      coordinate (not the previous kept one). */
  method RemoveDuplicateCoordinates(s: seq<Coord>) returns (r: seq<Coord>)
    ensures r == Dedup(s)
  {
    r := [];
    var prev: Option<Coord> := None;
    var i := 0;
    while i < |s|
      invariant 0 <= i <= |s|
      invariant prev == (if i == 0 then None else Some(s[i - 1]))
      invariant i == 0 ==> r == []
      invariant i > 0 ==> r + DedupAfter(s[i - 1], s[i..]) == Dedup(s)
    {
      var c := s[i];
      ghost var r0 := r;
      if prev.None? || !SameXY(prev.value, c) {
        r := r + [c];
      }
      assert s[i..][1..] == s[i + 1..];
      if i > 0 {
        assert s[i..][0] == c;
        assert DedupAfter(s[i - 1], s[i..]) == (if SameXY(s[i - 1], c) then [] else [c]) + DedupAfter(c, s[i + 1..]);
        assert r0 + DedupAfter(s[i - 1], s[i..]) == r + DedupAfter(c, s[i + 1..]);
      }
      prev := Some(c);
      i := i + 1;
    }
    if |s| == 0 {
      assert r == Dedup(s);
    } else {
      assert s[|s|..] == [];
    }
  }

  lemma {:induction false} DedupAfterShape(prev: Coord, s: seq<Coord>)
    ensures IsSubseq(DedupAfter(prev, s), s)
    ensures NoAdjacentDup(DedupAfter(prev, s))
    ensures |DedupAfter(prev, s)| > 0 ==> !SameXY(prev, DedupAfter(prev, s)[0])
    decreases |s|
  {
    if |s| > 0 {
      var rest := DedupAfter(s[0], s[1..]);
      DedupAfterShape(s[0], s[1..]);
      if SameXY(prev, s[0]) {
        SubseqSkip(s[0], rest, s[1..]);
        assert DedupAfter(prev, s) == rest;
      } else {
        SubseqCons(s[0], rest, s[1..]);
      }
      assert [s[0]] + s[1..] == s;
    }
  }

  /** The result has no 2D-equal neighbours, is a subsequence of the input
      and starts with the input's first coordinate. */
  lemma DedupShape(s: seq<Coord>)
    ensures IsSubseq(Dedup(s), s)
    ensures NoAdjacentDup(Dedup(s))
    ensures |s| > 0 ==> |Dedup(s)| > 0 && Dedup(s)[0] == s[0]
  {
    if |s| > 0 {
      DedupAfterShape(s[0], s[1..]);
      SubseqCons(s[0], DedupAfter(s[0], s[1..]), s[1..]);
      assert [s[0]] + s[1..] == s;
    }
  }

  lemma {:induction false} DedupAfterKeeps(prev: Coord, s: seq<Coord>)
    requires NoAdjacentDup([prev] + s)
    ensures DedupAfter(prev, s) == s
    decreases |s|
  {
    if |s| > 0 {
      assert ([prev] + s)[0] == prev && ([prev] + s)[1] == s[0];
      assert !SameXY(prev, s[0]);
      assert [s[0]] + s[1..] == s;
      assert forall i :: 0 <= i < |s| ==> ([prev] + s)[i + 1] == s[i];
      assert NoAdjacentDup(s);
      DedupAfterKeeps(s[0], s[1..]);
      assert DedupAfter(prev, s) == [s[0]] + DedupAfter(s[0], s[1..]);
    }
  }

  /** A sequence without 2D-equal neighbours is left unchanged, so
      de-duplication is idempotent. */
  lemma DedupFixed(s: seq<Coord>)
    requires NoAdjacentDup(s)
    ensures Dedup(s) == s
  {
    if |s| > 0 {
      assert [s[0]] + s[1..] == s;
      DedupAfterKeeps(s[0], s[1..]);
    }
  }

  lemma DedupIdempotent(s: seq<Coord>)
    ensures Dedup(Dedup(s)) == Dedup(s)
  {
    DedupShape(s);
    DedupFixed(Dedup(s));
  }

  /** A dropped coordinate is 2D-equal to the one kept before it, so every
      input coordinate and the last one are still represented. */
  lemma {:induction false} DedupAfterCovers(prev: Coord, s: seq<Coord>)
    ensures forall k :: 0 <= k < |s| ==> HasXY([prev] + DedupAfter(prev, s), s[k])
    ensures SameXY(Last([prev] + DedupAfter(prev, s)), Last([prev] + s))
    decreases |s|
  {
    if |s| > 0 {
      var rest := DedupAfter(s[0], s[1..]);
      DedupAfterCovers(s[0], s[1..]);
      var t := [prev] + DedupAfter(prev, s);
      var u := [s[0]] + rest;
      assert ([prev] + s)[1..] == s;
      assert Last([s[0]] + s[1..]) == Last([prev] + s);
      // t holds a coordinate 2D-equal to each coordinate of u
      assert forall c :: HasXY(u, c) ==> HasXY(t, c) by {
        forall c | HasXY(u, c)
          ensures HasXY(t, c)
        {
          var j :| 0 <= j < |u| && SameXY(u[j], c);
          if SameXY(prev, s[0]) {
            assert t == [prev] + rest;
            if j == 0 {
              assert SameXY(t[0], c);
            } else {
              assert t[j] == u[j];
            }
          } else {
            assert t == [prev] + u;
            assert t[j + 1] == u[j];
          }
        }
      }
      forall k | 0 <= k < |s|
        ensures HasXY(t, s[k])
      {
        if k == 0 {
          assert SameXY(u[0], s[0]);
        } else {
          assert s[k] == s[1..][k - 1];
        }
      }
      if SameXY(prev, s[0]) {
        assert t == [prev] + rest;
        if |rest| == 0 {
          assert Last(t) == prev && Last(u) == s[0];
        } else {
          assert Last(t) == Last(u);
        }
      } else {
        assert t == [prev] + u;
        assert Last(t) == Last(u);
      }
    }
  }

  /** Every coordinate of the input has a 2D-equal one in the output, and
      the output ends with a coordinate 2D-equal to the input's last. */
  lemma DedupCovers(s: seq<Coord>)
    ensures forall k :: 0 <= k < |s| ==> HasXY(Dedup(s), s[k])
    ensures |s| > 0 ==> |Dedup(s)| > 0 && SameXY(Last(Dedup(s)), Last(s))
  {
    if |s| > 0 {
      DedupAfterCovers(s[0], s[1..]);
      assert [s[0]] + s[1..] == s;
      forall k | 0 <= k < |s|
        ensures HasXY(Dedup(s), s[k])
      {
        if k == 0 {
          assert SameXY(Dedup(s)[0], s[0]);
        } else {
          assert s[k] == s[1..][k - 1];
        }
      }
    }
  }

  /** `slice(s, from, to)`: the coordinates from index `from` to index `to`
      inclusive; the range must lie in [0, n-1] and hold at least two points. */
  function Slice(s: seq<Coord>, from: int, to: int): (r: Result<seq<Coord>>)
    ensures r.Ok? <==> 0 <= from < to <= |s| - 1
    ensures r.Err? ==> r.error == IllegalArgument
    ensures r.Ok? ==> |r.value| == to - from + 1 >= 2
    ensures r.Ok? ==> forall i :: 0 <= i < |r.value| ==> r.value[i] == s[from + i]
  {
    if from < 0 || from >= to || to > |s| - 1 then Err(IllegalArgument)
    else Ok(s[from..to + 1])
  }

  /** Slicing a slice is one slice with the offsets added. */
  lemma SliceOfSlice(s: seq<Coord>, a: int, b: int, c: int, d: int)
    requires Slice(s, a, b).Ok?
    ensures Slice(Slice(s, a, b).value, c, d).Ok? <==> 0 <= c < d <= b - a
    ensures Slice(Slice(s, a, b).value, c, d).Ok? ==> Slice(Slice(s, a, b).value, c, d) == Slice(s, a + c, a + d)
  {
    if Slice(Slice(s, a, b).value, c, d).Ok? {
      assert s[a..b + 1][c..d + 1] == s[a + c..a + d + 1];
    }
  }

  /** `getCoordAtIndex(coords, start, index)`: the coordinate `index` steps
      from whichever end equals `start` in 2D (the first end when both do). */
  function CoordAtIndex(s: seq<Coord>, start: Coord, index: int): (r: Result<Coord>)
    ensures r.Ok? <==> 0 <= index < |s| && (SameXY(s[0], start) || SameXY(s[|s| - 1], start))
    ensures r.Ok? && SameXY(s[0], start) ==> r.value == s[index]
    ensures r.Ok? && !SameXY(s[0], start) ==> r.value == s[|s| - 1 - index]
    ensures r.Err? && (|s| == 0 || index > |s|) ==> r.error == IndexOutOfBounds
    ensures r.Err? && 0 <= index < |s| ==> r.error == IllegalArgument
  {
    if |s| == 0 then Err(IndexOutOfBounds)
    else if index > |s| then Err(IndexOutOfBounds)
    else if SameXY(s[0], start) then
      (if 0 <= index < |s| then Ok(s[index]) else Err(IndexOutOfBounds))
    else if SameXY(s[|s| - 1], start) then
      (if 0 <= index < |s| then Ok(s[|s| - 1 - index]) else Err(IndexOutOfBounds))
    else Err(IllegalArgument)
  }

  /** Counting from the end that matches does not depend on the orientation
      of the array, as long as only one end matches. */
  lemma CoordAtIndexReverse(s: seq<Coord>, start: Coord, index: int)
    requires |s| > 0
    requires SameXY(s[0], start) != SameXY(s[|s| - 1], start)
    ensures CoordAtIndex(Reverse(s), start, index) == CoordAtIndex(s, start, index)
  {
  }

  /** `getIndexOfCoordinate`: the index of the first 2D-equal coordinate, or -1. */
  method IndexOfCoordinate(c: Coord, s: seq<Coord>) returns (r: int)
    ensures -1 <= r < |s|
    ensures r >= 0 ==> SameXY(s[r], c)
    ensures r >= 0 ==> forall j :: 0 <= j < r ==> !SameXY(s[j], c)
    ensures r == -1 ==> !HasXY(s, c)
  {
    var i := 0;
    while i < |s|
      invariant 0 <= i <= |s|
      invariant forall j :: 0 <= j < i ==> !SameXY(s[j], c)
    {
      if SameXY(s[i], c) {
        return i;
      }
      i := i + 1;
    }
    return -1;
  }

  /** `toSegments`: the two-point segments between consecutive coordinates. */
  function ToSegments(s: seq<Coord>): (r: seq<seq<Coord>>)
    ensures |r| == if |s| < 2 then 0 else |s| - 1
    ensures forall i :: 0 <= i < |r| ==> |r[i]| == 2
    ensures forall i :: 0 <= i < |r| ==> r[i] == [s[i], s[i + 1]]
  {
    if |s| < 2 then [] else [[s[0], s[1]]] + ToSegments(s[1..])
  }

  /** The vertices of a chain of two-point segments: every start point and
      the last end point. */
  function Vertices(segs: seq<seq<Coord>>): seq<Coord>
    requires forall i :: 0 <= i < |segs| ==> |segs[i]| == 2
  {
    if |segs| == 0 then []
    else if |segs| == 1 then segs[0]
    else [segs[0][0]] + Vertices(segs[1..])
  }

  /** Segmenting a line and chaining the segments gives the line back. */
  lemma {:induction false} SegmentsRebuild(s: seq<Coord>)
    requires |s| >= 2
    ensures Vertices(ToSegments(s)) == s
    decreases |s|
  {
    if |s| > 2 {
      SegmentsRebuild(s[1..]);
      assert ToSegments(s)[1..] == ToSegments(s[1..]);
      assert [s[0]] + s[1..] == s;
    } else {
      assert s == [s[0], s[1]];
    }
  }

  /** Index `k` holds the first least non-NaN elevation among the first `n`
      vertices. */
  predicate FirstLowest(s: seq<Coord>, n: nat, k: nat)
    requires n <= |s|
  {
    k < n && s[k].z.Z? &&
    forall j :: 0 <= j < n && s[j].z.Z? ==> s[k].z.v <= s[j].z.v && (j < k ==> s[j].z.v > s[k].z.v)
  }

  /** Index `k` holds the first greatest non-NaN elevation among the first
      `n` vertices. */
  predicate FirstHighest(s: seq<Coord>, n: nat, k: nat)
    requires n <= |s|
  {
    k < n && s[k].z.Z? &&
    forall j :: 0 <= j < n && s[j].z.Z? ==> s[k].z.v >= s[j].z.v && (j < k ==> s[j].z.v < s[k].z.v)
  }

  /** `getLowestCoord`: the first vertex of least non-NaN elevation, or None
      when every elevation is NaN. */
  method LowestCoord(s: seq<Coord>) returns (r: Option<Coord>)
    ensures r.None? <==> forall i :: 0 <= i < |s| ==> s[i].z.NaN?
    ensures r.Some? ==> exists k: nat :: FirstLowest(s, |s|, k) && s[k] == r.value
  {
    r := None;
    var k: nat := 0;
    var i := 0;
    while i < |s|
      invariant 0 <= i <= |s|
      invariant r.None? <==> forall j :: 0 <= j < i ==> s[j].z.NaN?
      invariant r.Some? ==> FirstLowest(s, i, k) && s[k] == r.value
    {
      if s[i].z.Z? && (r.None? || s[i].z.v < r.value.z.v) {
        r := Some(s[i]);
        k := i;
      }
      i := i + 1;
    }
  }

  /** `getHighestCoord`: the first vertex of greatest non-NaN elevation, or
      None when every elevation is NaN. */
  method HighestCoord(s: seq<Coord>) returns (r: Option<Coord>)
    ensures r.None? <==> forall i :: 0 <= i < |s| ==> s[i].z.NaN?
    ensures r.Some? ==> exists k: nat :: FirstHighest(s, |s|, k) && s[k] == r.value
  {
    r := None;
    var k: nat := 0;
    var i := 0;
    while i < |s|
      invariant 0 <= i <= |s|
      invariant r.None? <==> forall j :: 0 <= j < i ==> s[j].z.NaN?
      invariant r.Some? ==> FirstHighest(s, i, k) && s[k] == r.value
    {
      if s[i].z.Z? && (r.None? || s[i].z.v > r.value.z.v) {
        r := Some(s[i]);
        k := i;
      }
      i := i + 1;
    }
  }

  /** `toCoordinateArray`, `toCoordinateList`, `toLineStringArray`: a null
      collection becomes an empty one; otherwise the elements are copied in
      order. */
  function FromNullable<T>(a: Option<seq<T>>): (r: seq<T>)
    ensures a.None? ==> r == []
    ensures a.Some? ==> r == a.value
  {
    if a.None? then [] else a.value
  }

  /** Converting an array to a list and back gives the same coordinates. */
  lemma ConvertRoundTrip(a: seq<Coord>)
    ensures FromNullable(Some(FromNullable(Some(a)))) == a
  {
  }
}
