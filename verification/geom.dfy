/** Coordinates, features and the sequence vocabulary shared by the polyline
    operations.  A JTS coordinate is modelled with exact reals for x and y and
    an elevation that may be NaN, since the source tests `Double.isNaN(z)`.
    JTS `Coordinate.equals` compares x and y only, so list membership of a
    coordinate (`List.contains`) is membership up to `SameXY`. */
module Geom {

  /** A z value: NaN (JTS' "no elevation") or a finite real. */
  datatype Elev = NaN | Z(v: real)

  datatype Coord = Coord(x: real, y: real, z: Elev)

  /** The JTS geometry type name (`getGeometryType()`), as far as the
      modelled code distinguishes it. */
  datatype GeomKind = PointKind | LineStringKind | LinearRingKind | PolygonKind | OtherKind

  /** A JTS geometry reduced to its type and its coordinate array. */
  datatype Geometry = Geometry(kind: GeomKind, coords: seq<Coord>)

  /** A feature of a GeoTools collection: an identifier and a line geometry. */
  datatype Feature = Feature(fid: string, geom: seq<Coord>)

  /** `Coordinate.equals` / `equals2D`. */
  predicate SameXY(a: Coord, b: Coord) {
    a.x == b.x && a.y == b.y
  }

  /** `List<Coordinate>.contains(c)`. */
  predicate HasXY(s: seq<Coord>, c: Coord) {
    exists i :: 0 <= i < |s| && SameXY(s[i], c)
  }

  /** No two coordinates of `s` are equal in 2D. */
  predicate DistinctXY(s: seq<Coord>) {
    forall i, j :: 0 <= i < j < |s| ==> !SameXY(s[i], s[j])
  }

  function Last(p: seq<Coord>): Coord
    requires |p| > 0
  {
    p[|p| - 1]
  }

  /** Index of the first coordinate equal to `c` in 2D, or -1. */
  function IndexOfXY(s: seq<Coord>, c: Coord): (r: int)
    ensures -1 <= r < |s|
    ensures r >= 0 ==> SameXY(s[r], c)
    ensures forall j :: 0 <= j < r || (r == -1 && 0 <= j < |s|) ==> !SameXY(s[j], c)
    ensures r == -1 <==> !HasXY(s, c)
  {
    if |s| == 0 then -1
    else if SameXY(s[0], c) then 0
    else
      var k := IndexOfXY(s[1..], c);
      assert forall j :: 1 <= j < |s| ==> s[j] == s[1..][j - 1];
      if k == -1 then -1 else k + 1
  }

  /** Average of two elevations; NaN propagates as in IEEE arithmetic. */
  function MidZ(a: Elev, b: Elev): (r: Elev)
    ensures r.Z? <==> a.Z? && b.Z?
    ensures r.Z? ==> (a.v <= r.v <= b.v || b.v <= r.v <= a.v)
  {
    if a.Z? && b.Z? then Z((a.v + b.v) / 2.0) else NaN
  }

  /** The coordinate halfway between `a` and `b` in x, y and z. */
  function Midpoint(a: Coord, b: Coord): (r: Coord)
    ensures r.x - a.x == b.x - r.x && r.y - a.y == b.y - r.y
    ensures r.z == MidZ(a.z, b.z)
  {
    Coord((a.x + b.x) / 2.0, (a.y + b.y) / 2.0, MidZ(a.z, b.z))
  }

  /** `a > b` on doubles: false whenever either side is NaN. */
  predicate Gt(a: Elev, b: Elev) {
    a.Z? && b.Z? && a.v > b.v
  }

  /** Squared planar distance; comparisons of distances are made on it. */
  function Dist2(a: Coord, b: Coord): real {
    (a.x - b.x) * (a.x - b.x) + (a.y - b.y) * (a.y - b.y)
  }

  function Reverse<T>(s: seq<T>): (r: seq<T>)
    ensures |r| == |s|
    ensures forall i :: 0 <= i < |s| ==> r[i] == s[|s| - 1 - i]
  {
    if |s| == 0 then [] else Reverse(s[1..]) + [s[0]]
  }

  /** `a` is obtained from `b` by deleting elements. */
  predicate IsSubseq<T(==)>(a: seq<T>, b: seq<T>)
    decreases |b|
  {
    if |a| == 0 then true
    else if |b| == 0 then false
    else if a[0] == b[0] then IsSubseq(a[1..], b[1..])
    else IsSubseq(a, b[1..])
  }

  lemma {:induction false} SubseqCons<T>(x: T, a: seq<T>, b: seq<T>)
    requires IsSubseq(a, b)
    ensures IsSubseq([x] + a, [x] + b)
  {
    assert ([x] + a)[1..] == a;
    assert ([x] + b)[1..] == b;
  }

  lemma {:induction false} SubseqSkip<T>(x: T, a: seq<T>, b: seq<T>)
    requires IsSubseq(a, b)
    ensures IsSubseq(a, [x] + b)
    decreases |b|, 1
  {
    assert ([x] + b)[1..] == b;
    if |a| > 0 && a[0] == x {
      SubseqDropHead(a, b);
      SubseqCons(x, a[1..], b);
      assert [x] + a[1..] == a;
    }
  }

  lemma {:induction false} SubseqDropHead<T>(a: seq<T>, b: seq<T>)
    requires |a| > 0 && IsSubseq(a, b)
    ensures IsSubseq(a[1..], b)
    decreases |b|, 0
  {
    if a[0] == b[0] {
      SubseqSkip(b[0], a[1..], b[1..]);
      assert [b[0]] + b[1..] == b;
    } else {
      SubseqDropHead(a, b[1..]);
      SubseqSkip(b[0], a[1..], b[1..]);
      assert [b[0]] + b[1..] == b;
    }
  }

  lemma {:induction false} SubseqRefl<T>(a: seq<T>)
    ensures IsSubseq(a, a)
  {
    if |a| > 0 {
      SubseqRefl(a[1..]);
    }
  }

  /** Appending to the original keeps a subsequence. */
  lemma {:induction false} SubseqExtend<T>(a: seq<T>, b: seq<T>, x: T)
    requires IsSubseq(a, b)
    ensures IsSubseq(a, b + [x])
    decreases |b|
  {
    if |a| > 0 {
      assert (b + [x])[1..] == b[1..] + [x];
      if a[0] == b[0] {
        SubseqExtend(a[1..], b[1..], x);
      } else {
        SubseqExtend(a, b[1..], x);
      }
    }
  }

  /** Appending the same element to both sides keeps a subsequence. */
  lemma {:induction false} SubseqSnoc<T>(a: seq<T>, b: seq<T>, x: T)
    requires IsSubseq(a, b)
    ensures IsSubseq(a + [x], b + [x])
    decreases |b|
  {
    if |b| == 0 {
      assert a == [];
      assert a + [x] == b + [x];
      SubseqRefl([x]);
    } else {
      assert (b + [x])[1..] == b[1..] + [x];
      if |a| == 0 {
        assert a + [x] == [x];
        if b[0] != x {
          SubseqSnoc(a, b[1..], x);
        }
      } else if a[0] == b[0] {
        assert (a + [x])[1..] == a[1..] + [x];
        SubseqSnoc(a[1..], b[1..], x);
      } else {
        SubseqSnoc(a, b[1..], x);
      }
    }
  }

  lemma {:induction false} SubseqTrans<T>(a: seq<T>, b: seq<T>, c: seq<T>)
    requires IsSubseq(a, b) && IsSubseq(b, c)
    ensures IsSubseq(a, c)
    decreases |c|
  {
    if |a| > 0 {
      if b[0] == c[0] && a[0] == b[0] {
        SubseqTrans(a[1..], b[1..], c[1..]);
      } else {
        if b[0] == c[0] {
          SubseqTrans(a, b[1..], c[1..]);
        } else {
          SubseqTrans(a, b, c[1..]);
        }
        if a[0] == c[0] {
          SubseqDropHead(a, c[1..]);
        }
      }
    }
  }

  /** Every element of a subsequence occurs in the original. */
  lemma {:induction false} SubseqMembers<T>(a: seq<T>, b: seq<T>)
    requires IsSubseq(a, b)
    ensures forall x :: x in a ==> x in b
    decreases |b|
  {
    if |a| > 0 {
      if a[0] == b[0] {
        SubseqMembers(a[1..], b[1..]);
        assert a == [a[0]] + a[1..];
      } else {
        SubseqMembers(a, b[1..]);
      }
    }
  }

  function Sum(s: seq<real>): real {
    if |s| == 0 then 0.0 else s[0] + Sum(s[1..])
  }

  lemma {:induction false} SumAppend(a: seq<real>, b: seq<real>)
    ensures Sum(a + b) == Sum(a) + Sum(b)
  {
    if |a| == 0 {
      assert a + b == b;
    } else {
      assert (a + b)[1..] == a[1..] + b;
      SumAppend(a[1..], b);
    }
  }
}
