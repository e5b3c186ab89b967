/** Edges of the triangulated irregular network.  A JTS `Coordinate` is an
    object: `==` compares identities while `equals`/`equals2D` compare x and
    y, and both are used here, so a vertex carries an identity next to its
    position. */
module TinEdge {

  import opened Wrappers
  import opened Geom

  /** A coordinate object: `id` stands for its identity. */
  datatype Vertex = Vertex(id: nat, at: Coord)

  /** The 2D position that `equals2D` and the coordinate hash compare. */
  function XY(v: Vertex): (real, real) {
    (v.at.x, v.at.y)
  }

  datatype Edge = Edge(a: Vertex, b: Vertex)

  /** `new Edge(a, b)`: both coordinates must be present. */
  function NewEdge(a: Option<Vertex>, b: Option<Vertex>): (r: Result<Edge>)
    ensures r.Ok? <==> a.Some? && b.Some?
    ensures r.Err? ==> r.error == IllegalArgument
    ensures r.Ok? ==> r.value.a == a.value && r.value.b == b.value
  {
    if a.None? || b.None? then Err(IllegalArgument) else Ok(Edge(a.value, b.value))
  }

  /** `new Edge(coords)`: the array must be present and hold exactly two
      coordinates. */
  function EdgeOfArray(coords: Option<seq<Vertex>>): (r: Result<Edge>)
    ensures r.Ok? <==> coords.Some? && |coords.value| == 2
    ensures r.Err? ==> r.error == IllegalArgument
    ensures r.Ok? ==> [r.value.a, r.value.b] == coords.value
  {
    if coords.None? || |coords.value| != 2 then Err(IllegalArgument)
    else Ok(Edge(coords.value[0], coords.value[1]))
  }

  /** `equals(other)`: the same two end points in 2D, in either direction;
      false for null. */
  predicate EdgeEquals(e: Edge, other: Option<Edge>) {
    other.Some? &&
    ((XY(other.value.a) == XY(e.a) && XY(other.value.b) == XY(e.b)) ||
     (XY(other.value.a) == XY(e.b) && XY(other.value.b) == XY(e.a)))
  }

  /** Edge equality is an equivalence that ignores direction. */
  lemma EdgeEqualsLaws(e: Edge, f: Edge, g: Edge)
    ensures EdgeEquals(e, Some(e))
    ensures EdgeEquals(e, Some(Edge(e.b, e.a)))
    ensures EdgeEquals(e, Some(f)) ==> EdgeEquals(f, Some(e))
    ensures EdgeEquals(e, Some(f)) && EdgeEquals(f, Some(g)) ==> EdgeEquals(e, Some(g))
    ensures !EdgeEquals(e, None)
  {
  }

  /** How many end points of `other` are, as objects, end points of `e`. */
  function SharedObjects(e: Edge, other: Edge): (r: nat)
    ensures r <= 2
  {
    (if other.a == e.a || other.a == e.b then 1 else 0) +
    (if other.b == e.a || other.b == e.b then 1 else 0)
  }

  /** `hasExactlyOneCommonPoint(other)`.  As written it answers whether no
      end point is shared; the corrected version answers the question its
      name asks. */
  predicate OneCommonPoint(variant: Variant, e: Edge, other: Option<Edge>) {
    other.Some? &&
    (if variant == AsWritten then SharedObjects(e, other.value) == 0
     else SharedObjects(e, other.value) == 1)
  }

  /** Two edges meeting at one vertex object, and two disjoint edges: the
      code as written rejects the first and accepts the second; the
      corrected predicate does the opposite. */
  lemma OneCommonPointInverted()
    ensures var p, q, r, s := Vertex(1, Coord(0.0, 0.0, NaN)), Vertex(2, Coord(1.0, 0.0, NaN)),
      Vertex(3, Coord(0.0, 1.0, NaN)), Vertex(4, Coord(1.0, 1.0, NaN));
      !OneCommonPoint(AsWritten, Edge(p, q), Some(Edge(q, r))) &&
      OneCommonPoint(AsWritten, Edge(p, q), Some(Edge(r, s))) &&
      OneCommonPoint(Corrected, Edge(p, q), Some(Edge(q, r))) &&
      !OneCommonPoint(Corrected, Edge(p, q), Some(Edge(r, s)))
  {
  }

  /** The corrected predicate holds exactly when one end point object is
      shared, whichever edge asks. */
  lemma OneCommonPointSymmetric(e: Edge, f: Edge)
    requires e.a != e.b && f.a != f.b
    ensures OneCommonPoint(Corrected, e, Some(f)) <==> OneCommonPoint(Corrected, f, Some(e))
    ensures OneCommonPoint(Corrected, e, Some(f)) <==> |{e.a, e.b} * {f.a, f.b}| == 1
  {
    var s := {e.a, e.b} * {f.a, f.b};
    if f.a == e.a || f.a == e.b {
      assert f.a in s;
      if f.b == e.a || f.b == e.b {
        assert s == {f.a, f.b};
      } else {
        assert s == {f.a};
      }
    } else if f.b == e.a || f.b == e.b {
      assert s == {f.b};
    } else {
      assert s == {};
    }
  }

  /** `magnitudeWithSignZ`: b.z - a.z, NaN when either is NaN. */
  function SignedZ(e: Edge): Elev {
    if e.a.at.z.Z? && e.b.at.z.Z? then Z(e.b.at.z.v - e.a.at.z.v) else NaN
  }

  /** `isNormalized`: the first end point is the origin (a NaN z is not 0). */
  predicate IsNormalized(e: Edge) {
    e.a.at.x == 0.0 && e.a.at.y == 0.0 && e.a.at.z == Z(0.0)
  }

  function Negate(z: Elev): Elev {
    if z.Z? then Z(-z.v) else NaN
  }

  /** `oppositeDirection`: the reversed edge, or, for a vector anchored at
      the origin, the negated vector; `newId` is the identity of the new
      coordinate object. */
  function OppositeDirection(e: Edge, newId: nat): (r: Edge)
    ensures !IsNormalized(e) ==> r.a == e.b && r.b == e.a
    ensures IsNormalized(e) ==> r.a == e.a && XY(r.b) == (-e.b.at.x, -e.b.at.y) && r.b.at.z == Negate(e.b.at.z)
    ensures SignedZ(e).Z? ==> SignedZ(r) == Z(-SignedZ(e).v)
  {
    if !IsNormalized(e) then Edge(e.b, e.a)
    else Edge(e.a, Vertex(newId, Coord(-e.b.at.x, -e.b.at.y, Negate(e.b.at.z))))
  }

  /** `makeZUp`: an edge whose z rises from a to b; a falling edge is turned
      round, a level or NaN one is kept. */
  function MakeZUp(e: Edge, newId: nat): (r: Edge)
    ensures SignedZ(e).Z? ==> SignedZ(r).Z? && SignedZ(r).v >= 0.0
    ensures SignedZ(e).Z? ==> SignedZ(r).v == if SignedZ(e).v < 0.0 then -SignedZ(e).v else SignedZ(e).v
    ensures !IsNormalized(e) ==> EdgeEquals(e, Some(r))
  {
    if SignedZ(e).Z? && SignedZ(e).v < 0.0 then OppositeDirection(e, newId) else e
  }
}
