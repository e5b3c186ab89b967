/** A triangle assembled edge by edge.  It accepts a first edge, a second
    edge sharing one end point with the first, and finally the edge that
    closes the two; after every addition the number of distinct 2D vertices
    must match the number of edges, and on completion the edges are rebuilt
    in a fixed order.  The vertex bookkeeping is a hash map keyed by
    coordinates, so vertices are told apart by their 2D position; its keys
    are modelled in insertion order. */
module TinTriangle {

  import opened Wrappers
  import opened Geom
  import opened TinEdge

  type Point = (real, real)

  datatype Triangle = Triangle(id: nat, edges: seq<Edge>)

  /** The end points of the edges in order: a, b of the first edge, then of
      the second, and so on. */
  function Ends(edges: seq<Edge>): (r: seq<Vertex>)
    ensures |r| == 2 * |edges|
    ensures forall i :: 0 <= i < |edges| ==> r[2 * i] == edges[i].a && r[2 * i + 1] == edges[i].b
  {
    if |edges| == 0 then []
    else Ends(edges[..|edges| - 1]) + [edges[|edges| - 1].a, edges[|edges| - 1].b]
  }

  /** The 2D positions occurring in `vs`. */
  function Points(vs: seq<Vertex>): set<Point> {
    set i | 0 <= i < |vs| :: XY(vs[i])
  }

  /** How often the position `p` occurs in `vs`: the count the map keeps. */
  function Count(vs: seq<Vertex>, p: Point): nat {
    if |vs| == 0 then 0
    else Count(vs[..|vs| - 1], p) + (if XY(vs[|vs| - 1]) == p then 1 else 0)
  }

  /** No two vertices share a 2D position. */
  predicate DistinctPts(s: seq<Vertex>) {
    forall i, j :: 0 <= i < j < |s| ==> XY(s[i]) != XY(s[j])
  }

  /** The map's keys in insertion order: the first vertex object seen at each
      2D position. */
  function Keys(vs: seq<Vertex>): seq<Vertex> {
    if |vs| == 0 then []
    else
      var k := Keys(vs[..|vs| - 1]);
      if XY(vs[|vs| - 1]) in Points(k) then k else k + [vs[|vs| - 1]]
  }

  lemma PointsIndex(vs: seq<Vertex>)
    ensures forall i :: 0 <= i < |vs| ==> XY(vs[i]) in Points(vs)
    ensures forall p :: p in Points(vs) ==> exists i :: 0 <= i < |vs| && XY(vs[i]) == p
  {
  }

  lemma PointsSnoc(vs: seq<Vertex>, v: Vertex)
    ensures Points(vs + [v]) == Points(vs) + {XY(v)}
  {
    var s := vs + [v];
    assert forall i :: 0 <= i < |vs| ==> s[i] == vs[i];
    assert s[|vs|] == v;
    forall p | p in Points(s)
      ensures p in Points(vs) + {XY(v)}
    {
      var i :| 0 <= i < |s| && XY(s[i]) == p;
      if i < |vs| {
        assert XY(vs[i]) in Points(vs);
      }
    }
    forall p | p in Points(vs) + {XY(v)}
      ensures p in Points(s)
    {
      if p in Points(vs) {
        var i :| 0 <= i < |vs| && XY(vs[i]) == p;
        assert XY(s[i]) in Points(s);
      } else {
        assert XY(s[|vs|]) in Points(s);
      }
    }
  }

  lemma {:induction false} DistinctCard(s: seq<Vertex>)
    requires DistinctPts(s)
    ensures |Points(s)| == |s|
  {
    if |s| > 0 {
      var pre := s[..|s| - 1];
      assert DistinctPts(pre) by {
        forall i, j | 0 <= i < j < |pre|
          ensures XY(pre[i]) != XY(pre[j])
        {
          assert pre[i] == s[i] && pre[j] == s[j];
        }
      }
      DistinctCard(pre);
      PointsIndex(pre);
      assert XY(s[|s| - 1]) !in Points(pre);
      assert pre + [s[|s| - 1]] == s;
      PointsSnoc(pre, s[|s| - 1]);
    }
  }

  /** The keys hold every position once, as vertex objects of the input. */
  lemma {:induction false} KeysFacts(vs: seq<Vertex>)
    ensures Points(Keys(vs)) == Points(vs)
    ensures DistinctPts(Keys(vs))
    ensures |Keys(vs)| == |Points(vs)|
    ensures forall k :: k in Keys(vs) ==> k in vs
  {
    if |vs| > 0 {
      var pre := vs[..|vs| - 1];
      var v := vs[|vs| - 1];
      var k := Keys(pre);
      KeysFacts(pre);
      assert pre + [v] == vs;
      PointsSnoc(pre, v);
      if XY(v) !in Points(k) {
        PointsIndex(k);
        PointsSnoc(k, v);
        assert DistinctPts(k + [v]) by {
          forall i, j | 0 <= i < j < |k + [v]|
            ensures XY((k + [v])[i]) != XY((k + [v])[j])
          {
            if j == |k| {
              assert XY(k[i]) in Points(k);
            }
          }
        }
      }
      DistinctCard(Keys(vs));
    }
  }

  /** Every end point count of a triangle with `n` edges and the vertex
      count it must have: (0, 0), (1, 2), (2, 3) or (3, 3). */
  predicate Valid(edges: seq<Edge>) {
    var n := |Keys(Ends(edges))|;
    (|edges| == 0 && n == 0) || (|edges| == 1 && n == 2) ||
    (|edges| == 2 && n == 3) || (|edges| == 3 && n == 3)
  }

  /** `hasEdge(e)`: some held edge equals `e` (2D, either direction). */
  predicate HasEdge(t: Triangle, e: Option<Edge>) {
    e.Some? && exists i :: 0 <= i < |t.edges| && EdgeEquals(e.value, Some(t.edges[i]))
  }

  /** `isComplete`. */
  predicate IsComplete(t: Triangle) {
    |t.edges| == 3
  }

  /** The keys counted exactly once, in key order. */
  function Ones(keys: seq<Vertex>, vs: seq<Vertex>): (r: seq<Vertex>)
    ensures forall k :: k in r ==> k in keys && Count(vs, XY(k)) == 1
    ensures forall k :: k in keys && Count(vs, XY(k)) == 1 ==> k in r
  {
    if |keys| == 0 then []
    else (if Count(vs, XY(keys[0])) == 1 then [keys[0]] else []) + Ones(keys[1..], vs)
  }

  /** `getMissingEdge`: for two edges over three vertices, the edge between
      the two vertices that only one edge touches. */
  function MissingEdge(t: Triangle): (r: Result<Edge>)
    ensures |t.edges| != 2 ==> r == Err(IllegalState)
    ensures r.Err? ==> r.error == IllegalState
    ensures r.Ok? ==> Count(Ends(t.edges), XY(r.value.a)) == 1 && Count(Ends(t.edges), XY(r.value.b)) == 1
    ensures r.Ok? ==> XY(r.value.a) != XY(r.value.b)
  {
    if |t.edges| != 2 then Err(IllegalState)
    else
      var vs := Ends(t.edges);
      var keys := Keys(vs);
      if |keys| != 3 then Err(IllegalState)
      else
        var ones := Ones(keys, vs);
        if |ones| != 2 then Err(IllegalState)
        else
          KeysFacts(vs);
          OnesDistinct(keys, vs);
          Ok(Edge(ones[0], ones[1]))
  }

  lemma {:induction false} OnesDistinct(keys: seq<Vertex>, vs: seq<Vertex>)
    requires DistinctPts(keys)
    ensures DistinctPts(Ones(keys, vs))
  {
    if |keys| > 0 {
      var rest := keys[1..];
      assert DistinctPts(rest) by {
        forall i, j | 0 <= i < j < |rest|
          ensures XY(rest[i]) != XY(rest[j])
        {
          assert rest[i] == keys[i + 1] && rest[j] == keys[j + 1];
        }
      }
      OnesDistinct(rest, vs);
      var o := Ones(rest, vs);
      forall k | k in o
        ensures XY(k) != XY(keys[0])
      {
        var j :| 0 <= j < |rest| && rest[j] == k;
        assert keys[j + 1] == k;
      }
    }
  }

  /** `canReceiveEdge(e)`: not a duplicate, not full; with two edges only
      the missing edge, with one edge an edge passing
      `hasExactlyOneCommonPoint`, and with none anything.  A failure of
      `getMissingEdge` propagates. */
  function CanReceive(variant: Variant, t: Triangle, e: Edge): (r: Result<bool>)
    ensures HasEdge(t, Some(e)) || |t.edges| >= 3 ==> r == Ok(false)
    ensures |t.edges| == 0 ==> r == Ok(true)
    ensures r.Ok? && r.value ==> !HasEdge(t, Some(e)) && |t.edges| < 3
    ensures r.Ok? && r.value && |t.edges| == 2 ==> MissingEdge(t).Ok? && EdgeEquals(MissingEdge(t).value, Some(e))
    ensures r.Ok? && r.value && |t.edges| == 1 ==> OneCommonPoint(variant, e, Some(t.edges[0]))
  {
    if HasEdge(t, Some(e)) then Ok(false)
    else if |t.edges| >= 3 then Ok(false)
    else if |t.edges| == 2 then
      var m :- MissingEdge(t);
      Ok(EdgeEquals(m, Some(e)))
    else if |t.edges| == 1 then Ok(OneCommonPoint(variant, e, Some(t.edges[0])))
    else Ok(true)
  }

  /** The index of the first key of least x. */
  function FirstMinX(keys: seq<Vertex>): (r: nat)
    requires |keys| == 3
    ensures r < 3
    ensures forall j :: 0 <= j < 3 ==> keys[r].at.x <= keys[j].at.x
  {
    var i1 := if keys[1].at.x < keys[0].at.x then 1 else 0;
    if keys[2].at.x < keys[i1].at.x then 2 else i1
  }

  /** `normalizeEdgeDirection`: from the key of least x to the higher of the
      other two, then to the lower, then back. */
  function Normalize(keys: seq<Vertex>): (r: seq<Edge>)
    requires |keys| == 3
    ensures |r| == 3
    ensures r[0].b == r[1].a && r[1].b == r[2].a && r[2].b == r[0].a
    ensures forall k :: k in keys <==> k == r[0].a || k == r[1].a || k == r[2].a
    ensures forall j :: 0 <= j < 3 ==> r[0].a.at.x <= keys[j].at.x
    ensures r[1].a.at.y >= r[2].a.at.y
  {
    var f := FirstMinX(keys);
    var rest := if f == 0 then [keys[1], keys[2]] else if f == 1 then [keys[0], keys[2]] else [keys[0], keys[1]];
    var second := if rest[0].at.y > rest[1].at.y then rest[0] else rest[1];
    var third := if rest[0].at.y > rest[1].at.y then rest[1] else rest[0];
    assert keys == [keys[0], keys[1], keys[2]];
    [Edge(keys[f], second)] + [Edge(second, third)] + [Edge(third, keys[f])]
  }

  /** Without ties, neither on the least x nor between the y of the other
      two keys, the normalized ring does not depend on the order in which
      the keys are listed, so the order of Java's hash map is immaterial. */
  lemma NormalizeOrderFree(keys: seq<Vertex>, other: seq<Vertex>)
    requires |keys| == 3 && |other| == 3
    requires forall k :: k in keys <==> k in other
    requires forall i, j :: 0 <= i < j < 3 ==> keys[i].at.x != keys[j].at.x && keys[i].at.y != keys[j].at.y
    ensures Normalize(keys) == Normalize(other)
  {
    var r, q := Normalize(keys), Normalize(other);
    assert keys[0] in other && keys[1] in other && keys[2] in other;
    assert other[0] in keys && other[1] in keys && other[2] in keys;
    assert r[0].a == q[0].a;
    assert r[1].a == q[1].a;
  }

  /** Over three keys at distinct positions, every edge between two of the
      positions equals one of the normalized edges. */
  lemma NormalizeCoversPairs(keys: seq<Vertex>, x: Edge)
    requires |keys| == 3 && DistinctPts(keys)
    requires XY(x.a) in Points(keys) && XY(x.b) in Points(keys) && XY(x.a) != XY(x.b)
    ensures exists i :: 0 <= i < 3 && EdgeEquals(x, Some(Normalize(keys)[i]))
  {
    var r := Normalize(keys);
    PointsIndex(keys);
    var i :| 0 <= i < 3 && XY(keys[i]) == XY(x.a);
    var j :| 0 <= j < 3 && XY(keys[j]) == XY(x.b);
    assert keys[i] in keys && keys[j] in keys;
    if XY(r[0].a) == XY(x.a) {
      assert EdgeEquals(x, Some(r[0])) || EdgeEquals(x, Some(r[2]));
    } else if XY(r[1].a) == XY(x.a) {
      assert EdgeEquals(x, Some(r[0])) || EdgeEquals(x, Some(r[1]));
    } else {
      assert EdgeEquals(x, Some(r[1])) || EdgeEquals(x, Some(r[2]));
    }
  }

  /** `addEdge(e)`: the edge is appended if it can be received (otherwise
      IllegalArgument), the vertex/edge counts are then checked (otherwise
      IllegalState), and a completed triangle is normalized. */
  function AddEdge(variant: Variant, t: Triangle, e: Edge): (r: Result<Triangle>)
    ensures CanReceive(variant, t, e) == Ok(false) ==> r == Err(IllegalArgument)
    ensures r.Ok? ==> CanReceive(variant, t, e) == Ok(true)
    ensures r.Ok? ==> r.value.id == t.id && |r.value.edges| == |t.edges| + 1 <= 3
    ensures r.Ok? ==> Valid(r.value.edges)
    ensures r.Ok? && !IsComplete(r.value) ==> r.value.edges == t.edges + [e]
  {
    var can :- CanReceive(variant, t, e);
    if !can then Err(IllegalArgument)
    else
      var edges := t.edges + [e];
      if !Valid(edges) then Err(IllegalState)
      else if |edges| == 3 then
        var n := Normalize(Keys(Ends(edges)));
        KeysFacts(Ends(edges));
        NormalizeValid(Keys(Ends(edges)));
        Ok(Triangle(t.id, n))
      else Ok(Triangle(t.id, edges))
  }

  /** A normalized triangle still has three edges over three positions. */
  lemma NormalizeValid(keys: seq<Vertex>)
    requires |keys| == 3 && DistinctPts(keys)
    ensures Valid(Normalize(keys))
  {
    var r := Normalize(keys);
    var vs := Ends(r);
    assert vs == [r[0].a, r[0].b, r[1].a, r[1].b, r[2].a, r[2].b];
    KeysFacts(vs);
    PointsIndex(vs);
    PointsIndex(keys);
    assert Points(vs) == Points(keys) by {
      var m := multiset{r[0].a, r[1].a, r[2].a};
      assert keys[0] in m && keys[1] in m && keys[2] in m;
      assert r[0].a in multiset(keys) && r[1].a in multiset(keys) && r[2].a in multiset(keys);
    }
    DistinctCard(keys);
  }

  /** A triangle that took an edge holds it, unless its ends coincide. */
  lemma AddEdgeHoldsNew(variant: Variant, t: Triangle, e: Edge)
    requires AddEdge(variant, t, e).Ok?
    ensures HasEdge(AddEdge(variant, t, e).value, Some(e)) || XY(e.a) == XY(e.b)
  {
    var r := AddEdge(variant, t, e).value;
    var edges := t.edges + [e];
    if |edges| == 3 {
      var vs := Ends(edges);
      var keys := Keys(vs);
      KeysFacts(vs);
      PointsIndex(vs);
      if XY(e.a) != XY(e.b) {
        assert vs[4] == e.a && vs[5] == e.b;
        NormalizeCoversPairs(keys, e);
      }
    } else {
      assert r.edges[|t.edges|] == e;
      EdgeEqualsLaws(e, e, e);
    }
  }

  /** Adding an edge keeps every edge the triangle already had, up to edge
      equality, as long as that edge joins two different positions. */
  lemma AddEdgeKeeps(variant: Variant, t: Triangle, e: Edge, x: Edge)
    requires HasEdge(t, Some(x)) && XY(x.a) != XY(x.b)
    requires AddEdge(variant, t, e).Ok?
    ensures HasEdge(AddEdge(variant, t, e).value, Some(x))
  {
    AddEdgeShape(variant, t, e);
    var r := AddEdge(variant, t, e).value;
    var edges := t.edges + [e];
    var i :| 0 <= i < |t.edges| && EdgeEquals(x, Some(t.edges[i]));
    assert edges[i] == t.edges[i];
    if |edges| == 3 {
      NormalizeKeeps(edges, i, x);
      var j :| 0 <= j < 3 && EdgeEquals(x, Some(r.edges[j]));
    } else {
      assert EdgeEquals(x, Some(r.edges[i]));
    }
  }

  /** The edges of a triangle that took an edge: the old ones and the new
      one, normalized once there are three. */
  lemma AddEdgeShape(variant: Variant, t: Triangle, e: Edge)
    requires AddEdge(variant, t, e).Ok?
    ensures var edges := t.edges + [e];
      |edges| <= 3 && Valid(edges) &&
      AddEdge(variant, t, e).value.edges ==
        if |edges| == 3 then Normalize(Keys(Ends(edges))) else edges
  {
  }

  /** Every edge of three edges over three distinct positions survives
      their normalization, up to edge equality. */
  lemma NormalizeKeeps(edges: seq<Edge>, i: nat, x: Edge)
    requires |edges| == 3 && Valid(edges) && i < 3
    requires EdgeEquals(x, Some(edges[i])) && XY(x.a) != XY(x.b)
    ensures exists j :: 0 <= j < 3 && EdgeEquals(x, Some(Normalize(Keys(Ends(edges)))[j]))
  {
    var vs := Ends(edges);
    var keys := Keys(vs);
    KeysFacts(vs);
    PointsIndex(vs);
    assert vs[2 * i] == edges[i].a && vs[2 * i + 1] == edges[i].b;
    assert XY(x.a) in Points(keys) && XY(x.b) in Points(keys);
    NormalizeCoversPairs(keys, x);
  }

  /** `equals(other)`: every vertex position of this triangle is one of the
      other's and both have as many vertices. */
  predicate TriangleEquals(t: Triangle, other: Triangle) {
    var mine := Keys(Ends(t.edges));
    var theirs := Keys(Ends(other.edges));
    (forall k :: k in mine ==> XY(k) in Points(theirs)) && |mine| == |theirs|
  }

  /** Triangle equality is equality of the vertex position sets. */
  lemma TriangleEqualsIsSamePoints(t: Triangle, other: Triangle)
    ensures TriangleEquals(t, other) <==> Points(Ends(t.edges)) == Points(Ends(other.edges))
  {
    var mine := Keys(Ends(t.edges));
    var theirs := Keys(Ends(other.edges));
    KeysFacts(Ends(t.edges));
    KeysFacts(Ends(other.edges));
    PointsIndex(mine);
    var a := Points(mine);
    var b := Points(theirs);
    if TriangleEquals(t, other) {
      assert a <= b;
      assert |a| == |b|;
      SubsetSameSize(a, b);
    }
    if a == b {
      forall k | k in mine
        ensures XY(k) in b
      {
      }
    }
  }

  lemma SubsetSameSize<T>(a: set<T>, b: set<T>)
    requires a <= b && |a| == |b|
    ensures a == b
  {
    if a != b {
      var x :| x in b && x !in a;
      assert a <= b - {x};
      assert |b - {x}| == |b| - 1;
      SubsetCard(a, b - {x});
    }
  }

  lemma SubsetCard<T>(a: set<T>, b: set<T>)
    requires a <= b
    ensures |a| <= |b|
  {
    assert b == a + (b - a);
  }

  /** `new Triangle()`: each new triangle takes the next identifier from a
      counter that only grows. */
  function NewTriangle(nextId: nat): (r: (Triangle, nat))
    ensures r.0.id == nextId && r.0.edges == [] && r.1 > nextId
  {
    (Triangle(nextId, []), nextId + 1)
  }

  /** The keys of the two end points of a non-degenerate edge. */
  lemma PairKeys(p: Vertex, q: Vertex)
    requires XY(p) != XY(q)
    ensures Keys([p, q]) == [p, q]
    ensures Points([p]) == {XY(p)} && Points([p, q]) == {XY(p), XY(q)}
  {
    assert [p][..0] == [];
    assert Keys([p]) == [p];
    assert Points([p]) == {XY(p)} by {
      PointsSnoc([], p);
      assert [] + [p] == [p];
    }
    assert [p, q][..1] == [p];
    assert Points([p, q]) == {XY(p), XY(q)} by {
      PointsSnoc([p], q);
      assert [p] + [q] == [p, q];
    }
  }

  /** The keys and counts of the end points p, q, q, r of a two-edge path. */
  lemma PathKeys(p: Vertex, q: Vertex, r: Vertex)
    requires XY(p) != XY(q) && XY(q) != XY(r) && XY(p) != XY(r)
    ensures Keys([p, q]) == [p, q]
    ensures Keys([p, q, q, r]) == [p, q, r]
    ensures Count([p, q, q, r], XY(p)) == 1 && Count([p, q, q, r], XY(q)) == 2
    ensures Count([p, q, q, r], XY(r)) == 1
  {
    PairKeys(p, q);
    assert [p][..0] == [];
    assert [p, q][..1] == [p];
    assert [p, q, q][..2] == [p, q];
    assert Keys([p, q, q]) == [p, q];
    assert [p, q, q, r][..3] == [p, q, q];
    CountSingle(p, XY(p));
    CountSingle(p, XY(q));
    CountSingle(p, XY(r));
    assert Count([p, q], XY(p)) == 1;
    assert Count([p, q], XY(q)) == 1;
    assert Count([p, q], XY(r)) == 0;
    assert Count([p, q, q], XY(p)) == 1;
    assert Count([p, q, q], XY(q)) == 2;
    assert Count([p, q, q], XY(r)) == 0;
  }

  /** A single vertex counts once at its own position and nowhere else. */
  lemma CountSingle(p: Vertex, k: Point)
    ensures Count([p], k) == if XY(p) == k then 1 else 0
  {
    assert [p][..0] == [];
  }

  /** Two edges p-q and q-r over three distinct positions miss the edge
      joining p and r. */
  lemma MissingEdgeOfPath(id: nat, p: Vertex, q: Vertex, r: Vertex)
    requires XY(p) != XY(q) && XY(q) != XY(r) && XY(p) != XY(r)
    ensures MissingEdge(Triangle(id, [Edge(p, q), Edge(q, r)])).Ok?
    ensures EdgeEquals(MissingEdge(Triangle(id, [Edge(p, q), Edge(q, r)])).value, Some(Edge(p, r)))
  {
    PathEnds(p, q, r);
    PathKeys(p, q, r);
    PathOnes(p, q, r);
    EdgeEqualsLaws(Edge(p, r), Edge(p, r), Edge(p, r));
  }

  /** The end points of the path p-q, q-r. */
  lemma PathEnds(p: Vertex, q: Vertex, r: Vertex)
    ensures Ends([Edge(p, q)]) == [p, q]
    ensures Ends([Edge(p, q), Edge(q, r)]) == [p, q, q, r]
  {
    var edges := [Edge(p, q), Edge(q, r)];
    assert edges[..1] == [Edge(p, q)];
    assert [Edge(p, q)][..0] == [];
  }

  /** Along the path p-q, q-r only p and r are counted once. */
  lemma PathOnes(p: Vertex, q: Vertex, r: Vertex)
    requires XY(p) != XY(q) && XY(q) != XY(r) && XY(p) != XY(r)
    ensures Ones([p, q, r], [p, q, q, r]) == [p, r]
  {
    var vs := [p, q, q, r];
    PathKeys(p, q, r);
    assert [p, q, r][1..] == [q, r] && [q, r][1..] == [r] && [r][1..] == [];
    assert Ones([r], vs) == [r];
    assert Ones([q, r], vs) == [r];
  }

  /** An empty triangle takes any edge between two distinct positions. */
  lemma FirstEdge(variant: Variant, id: nat, p: Vertex, q: Vertex)
    requires XY(p) != XY(q)
    ensures AddEdge(variant, Triangle(id, []), Edge(p, q)) == Ok(Triangle(id, [Edge(p, q)]))
  {
    assert Ends([Edge(p, q)]) == [p, q] by {
      assert [Edge(p, q)][..0] == [];
    }
    PairKeys(p, q);
  }

  /** With the first edge p-q in place, the corrected test admits q-r. */
  lemma SecondEdge(id: nat, p: Vertex, q: Vertex, r: Vertex)
    requires XY(p) != XY(q) && XY(q) != XY(r) && XY(p) != XY(r)
    ensures AddEdge(Corrected, Triangle(id, [Edge(p, q)]), Edge(q, r)) == Ok(Triangle(id, [Edge(p, q), Edge(q, r)]))
  {
    var e1, e2 := Edge(p, q), Edge(q, r);
    SecondEdgeReceived(id, p, q, r);
    PathValid(p, q, r);
    assert Triangle(id, [e1]).edges + [e2] == [e1, e2];
  }

  /** The corrected test lets the edge q-r join the edge p-q. */
  lemma SecondEdgeReceived(id: nat, p: Vertex, q: Vertex, r: Vertex)
    requires XY(p) != XY(q) && XY(q) != XY(r) && XY(p) != XY(r)
    ensures CanReceive(Corrected, Triangle(id, [Edge(p, q)]), Edge(q, r)) == Ok(true)
  {
    var e1, e2 := Edge(p, q), Edge(q, r);
    assert !HasEdge(Triangle(id, [e1]), Some(e2));
    assert SharedObjects(e2, e1) == 1;
  }

  /** The end points of a two-edge path fill three positions. */
  lemma PathValid(p: Vertex, q: Vertex, r: Vertex)
    requires XY(p) != XY(q) && XY(q) != XY(r) && XY(p) != XY(r)
    ensures Valid([Edge(p, q), Edge(q, r)])
  {
    PathEnds(p, q, r);
    PathKeys(p, q, r);
  }

  /** The end points of a closed three-edge path fill three positions. */
  lemma CycleValid(p: Vertex, q: Vertex, r: Vertex)
    requires XY(p) != XY(q) && XY(q) != XY(r) && XY(p) != XY(r)
    ensures Valid([Edge(p, q), Edge(q, r), Edge(r, p)])
  {
    var e1, e2, e3 := Edge(p, q), Edge(q, r), Edge(r, p);
    var edges3 := [e1, e2, e3];
    var ws := Ends(edges3);
    assert edges3[..2] == [e1, e2];
    assert [e1, e2][..1] == [e1];
    assert Ends([e1]) == [p, q] by {
      assert [e1][..0] == [];
    }
    assert Ends([e1, e2]) == [p, q] + [q, r];
    assert ws == [p, q] + [q, r] + [r, p];
    assert ws == [p, q, q, r, r, p];
    KeysFacts(ws);
    PointsIndex(ws);
    assert Points(ws) == {XY(p), XY(q), XY(r)};
  }

  /** The two-edge path p-q, q-r accepts the closing edge r-p. */
  lemma ThirdEdgeReceived(variant: Variant, id: nat, p: Vertex, q: Vertex, r: Vertex)
    requires XY(p) != XY(q) && XY(q) != XY(r) && XY(p) != XY(r)
    ensures CanReceive(variant, Triangle(id, [Edge(p, q), Edge(q, r)]), Edge(r, p)) == Ok(true)
  {
    var e1, e2, e3 := Edge(p, q), Edge(q, r), Edge(r, p);
    var t2 := Triangle(id, [e1, e2]);
    MissingEdgeOfPath(id, p, q, r);
    assert !HasEdge(t2, Some(e3)) by {
      assert t2.edges[0] == e1 && t2.edges[1] == e2;
    }
  }

  /** With p-q and q-r in place, the closing edge r-p completes the
      triangle, which then holds all three edges. */
  lemma ThirdEdge(variant: Variant, id: nat, p: Vertex, q: Vertex, r: Vertex)
    requires XY(p) != XY(q) && XY(q) != XY(r) && XY(p) != XY(r)
    ensures var t3 := AddEdge(variant, Triangle(id, [Edge(p, q), Edge(q, r)]), Edge(r, p));
      t3.Ok? && IsComplete(t3.value) &&
      HasEdge(t3.value, Some(Edge(p, q))) && HasEdge(t3.value, Some(Edge(q, r))) && HasEdge(t3.value, Some(Edge(r, p)))
  {
    var e1, e2, e3 := Edge(p, q), Edge(q, r), Edge(r, p);
    var t2 := Triangle(id, [e1, e2]);
    ThirdEdgeReceived(variant, id, p, q, r);
    CycleValid(p, q, r);
    assert t2.edges + [e3] == [e1, e2, e3];
    assert AddEdge(variant, t2, e3).Ok?;
    assert HasEdge(t2, Some(e1)) && HasEdge(t2, Some(e2)) by {
      assert t2.edges[0] == e1 && t2.edges[1] == e2;
    }
    AddEdgeKeeps(variant, t2, e3, e1);
    AddEdgeKeeps(variant, t2, e3, e2);
    AddEdgeHoldsNew(variant, t2, e3);
  }

  /** With the corrected one-common-point test, three edges around three
      distinct positions, added in order, make a complete triangle. */
  lemma CorrectedBuildsTriangle(id: nat, p: Vertex, q: Vertex, r: Vertex)
    requires XY(p) != XY(q) && XY(q) != XY(r) && XY(p) != XY(r)
    ensures var t1 := AddEdge(Corrected, Triangle(id, []), Edge(p, q));
      t1.Ok? &&
      var t2 := AddEdge(Corrected, t1.value, Edge(q, r));
      t2.Ok? &&
      var t3 := AddEdge(Corrected, t2.value, Edge(r, p));
      t3.Ok? && IsComplete(t3.value) && t3.value.id == id
  {
    FirstEdge(Corrected, id, p, q);
    SecondEdge(id, p, q, r);
    ThirdEdge(Corrected, id, p, q, r);
  }

  /** With the test as written the same second edge, which shares one end
      point with the first, is refused, so no triangle is ever completed
      through this path. */
  lemma AsWrittenRefusesSecondEdge(id: nat, p: Vertex, q: Vertex, r: Vertex)
    requires XY(p) != XY(q) && XY(q) != XY(r) && XY(p) != XY(r)
    ensures var t1 := AddEdge(AsWritten, Triangle(id, []), Edge(p, q));
      t1.Ok? && AddEdge(AsWritten, t1.value, Edge(q, r)) == Err(IllegalArgument)
  {
    var e1, e2 := Edge(p, q), Edge(q, r);
    FirstEdge(AsWritten, id, p, q);
    assert SharedObjects(e2, e1) == 1;
    assert !HasEdge(Triangle(id, [e1]), Some(e2));
  }
}
