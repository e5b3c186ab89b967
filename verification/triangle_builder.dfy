/** Assembling triangles that share a root edge.  The builder starts with a
    triangle holding the root edge; each further edge goes to every held
    triangle that can take it, and when none can, a fresh triangle is made
    from the root edge and kept only if it takes the new edge. */
module TriangleBuilder {

  import opened Wrappers
  import opened TinEdge
  import opened TinTriangle

  datatype Builder = Builder(triangles: seq<Triangle>, root: Edge, nextId: nat)

  /** A held triangle is valid, has one to three edges and holds the root
      edge. */
  predicate Holds(t: Triangle, root: Edge) {
    Valid(t.edges) && 1 <= |t.edges| <= 3 && HasEdge(t, Some(root))
  }

  /** Every held triangle is valid, has between one and three edges and
      holds the root edge; the root joins two positions; identifiers are
      increasing and below the next one to be handed out. */
  predicate Inv(b: Builder) {
    XY(b.root.a) != XY(b.root.b) && AllHold(b.triangles, b.root) && IdsOrdered(b.triangles, b.nextId)
  }

  predicate AllHold(ts: seq<Triangle>, root: Edge) {
    forall i :: 0 <= i < |ts| ==> Holds(ts[i], root)
  }

  predicate IdsOrdered(ts: seq<Triangle>, nextId: nat) {
    (forall i :: 0 <= i < |ts| ==> ts[i].id < nextId) &&
    (forall i, j :: 0 <= i < j < |ts| ==> ts[i].id < ts[j].id)
  }

  /** `new TriangleBuilder(rootEdge)`: one triangle holding the root edge.
      Its `addEdge` fails validation when the root edge's ends coincide in
      2D. */
  function NewBuilder(variant: Variant, root: Edge, nextId: nat): (r: Result<Builder>)
    ensures r.Ok? <==> XY(root.a) != XY(root.b)
    ensures r.Err? ==> r.error == IllegalState
    ensures r.Ok? ==> r.value.triangles == [Triangle(nextId, [root])] && r.value.root == root
    ensures r.Ok? ==> Inv(r.value)
  {
    var (t, n) := NewTriangle(nextId);
    RootEdgeAlone(variant, nextId, root);
    var t1 :- AddEdge(variant, t, root);
    StartHolds(variant, root, nextId, n);
    Ok(Builder([t1], root, n))
  }

  /** The start builder keeps the invariant. */
  lemma StartHolds(variant: Variant, root: Edge, id: nat, nextId: nat)
    requires AddEdge(variant, Triangle(id, []), root) == Ok(Triangle(id, [root]))
    requires id < nextId
    ensures Inv(Builder([Triangle(id, [root])], root, nextId))
  {
    RootEdgeAlone(variant, id, root);
    EdgeEqualsLaws(root, root, root);
    assert Triangle(id, [root]).edges[0] == root;
    assert HasEdge(Triangle(id, [root]), Some(root));
  }

  /** An empty triangle takes an edge exactly when its ends differ in 2D. */
  lemma RootEdgeAlone(variant: Variant, id: nat, e: Edge)
    ensures AddEdge(variant, Triangle(id, []), e).Ok? <==> XY(e.a) != XY(e.b)
    ensures AddEdge(variant, Triangle(id, []), e).Err? ==> AddEdge(variant, Triangle(id, []), e).error == IllegalState
    ensures AddEdge(variant, Triangle(id, []), e).Ok? ==> AddEdge(variant, Triangle(id, []), e).value == Triangle(id, [e])
  {
    if XY(e.a) != XY(e.b) {
      FirstEdge(variant, id, e.a, e.b);
    } else {
      RootEdgeDegenerate(variant, id, e);
    }
  }

  /** An edge whose ends coincide in 2D leaves one key where validation
      wants two. */
  lemma RootEdgeDegenerate(variant: Variant, id: nat, e: Edge)
    requires XY(e.a) == XY(e.b)
    ensures AddEdge(variant, Triangle(id, []), e) == Err(IllegalState)
  {
    assert Ends([e]) == [e.a, e.b] by {
      assert [e][..0] == [];
    }
    PairKeysSame(e.a, e.b);
    assert !Valid([e]);
    assert CanReceive(variant, Triangle(id, []), e) == Ok(true);
    assert [] + [e] == [e];
  }

  lemma PairKeysSame(p: Vertex, q: Vertex)
    requires XY(p) == XY(q)
    ensures Keys([p, q]) == [p]
  {
    assert [p, q][..1] == [p] && [p][..0] == [];
    assert Keys([p]) == [p];
    PointsIndex([p]);
  }

  /** `getTrianglesThatCanReceiveEdge(e)` as one flag per held triangle; a
      failing test fails the whole call. */
  function Receivers(variant: Variant, ts: seq<Triangle>, e: Edge): (r: Result<seq<bool>>)
    ensures r.Ok? ==> |r.value| == |ts|
    decreases |ts|
  {
    if |ts| == 0 then Ok([])
    else
      var first :- CanReceive(variant, ts[0], e);
      var rest :- Receivers(variant, ts[1..], e);
      Ok([first] + rest)
  }

  /** A triangle is flagged exactly when it can take the edge. */
  lemma {:induction false} ReceiversAt(variant: Variant, ts: seq<Triangle>, e: Edge, i: nat)
    requires Receivers(variant, ts, e).Ok? && i < |ts|
    ensures Receivers(variant, ts, e).value[i] <==> CanReceive(variant, ts[i], e) == Ok(true)
    ensures CanReceive(variant, ts[i], e).Ok?
    decreases |ts|
  {
    if i > 0 {
      ReceiversAt(variant, ts[1..], e, i - 1);
      assert ts[1..][i - 1] == ts[i];
    }
  }

  /** The flags are computed exactly when every test succeeds. */
  lemma {:induction false} ReceiversOk(variant: Variant, ts: seq<Triangle>, e: Edge)
    ensures Receivers(variant, ts, e).Ok? <==> forall i :: 0 <= i < |ts| ==> CanReceive(variant, ts[i], e).Ok?
    decreases |ts|
  {
    if |ts| > 0 {
      ReceiversOk(variant, ts[1..], e);
      var tail := ts[1..];
      assert forall i :: 1 <= i < |ts| ==> ts[i] == tail[i - 1];
    }
  }

  /** Adds `e` to every flagged triangle; a failing addition fails the
      whole call. */
  function Distribute(variant: Variant, ts: seq<Triangle>, flags: seq<bool>, e: Edge): (r: Result<seq<Triangle>>)
    requires |flags| == |ts|
    ensures r.Ok? ==> |r.value| == |ts|
    decreases |ts|
  {
    if |ts| == 0 then Ok([])
    else
      var first :- if flags[0] then AddEdge(variant, ts[0], e) else Ok(ts[0]);
      var rest :- Distribute(variant, ts[1..], flags[1..], e);
      Ok([first] + rest)
  }

  /** Each flagged triangle gets the edge; the others are left as they
      were. */
  lemma {:induction false} DistributeAt(variant: Variant, ts: seq<Triangle>, flags: seq<bool>, e: Edge, i: nat)
    requires |flags| == |ts| && i < |ts|
    requires Distribute(variant, ts, flags, e).Ok?
    ensures var r := Distribute(variant, ts, flags, e).value;
      if flags[i] then AddEdge(variant, ts[i], e) == Ok(r[i]) else r[i] == ts[i]
    decreases |ts|
  {
    if i > 0 {
      DistributeAt(variant, ts[1..], flags[1..], e, i - 1);
      assert ts[1..][i - 1] == ts[i] && flags[1..][i - 1] == flags[i];
    }
  }

  /** The distribution succeeds exactly when every flagged triangle takes
      the edge. */
  lemma {:induction false} DistributeOk(variant: Variant, ts: seq<Triangle>, flags: seq<bool>, e: Edge)
    requires |flags| == |ts|
    ensures Distribute(variant, ts, flags, e).Ok? <==>
      forall i :: 0 <= i < |ts| && flags[i] ==> AddEdge(variant, ts[i], e).Ok?
    decreases |ts|
  {
    if |ts| > 0 {
      DistributeOk(variant, ts[1..], flags[1..], e);
      var tail := ts[1..];
      var tailFlags := flags[1..];
      assert forall i :: 1 <= i < |ts| ==> ts[i] == tail[i - 1] && flags[i] == tailFlags[i - 1];
    }
  }

  /** `after` is `before` with `e` added when `before` can take it, and
      `before` unchanged otherwise. */
  predicate Updated(variant: Variant, before: Triangle, after: Triangle, e: Edge) {
    if CanReceive(variant, before, e) == Ok(true) then AddEdge(variant, before, e) == Ok(after)
    else after == before
  }

  lemma DistributeUpdates(variant: Variant, ts: seq<Triangle>, flags: seq<bool>, r: seq<Triangle>, e: Edge)
    requires Receivers(variant, ts, e) == Ok(flags)
    requires Distribute(variant, ts, flags, e) == Ok(r)
    ensures |r| == |ts|
    ensures forall i :: 0 <= i < |ts| ==> Updated(variant, ts[i], r[i], e)
    ensures (true in flags) <==> exists i :: 0 <= i < |ts| && CanReceive(variant, ts[i], e) == Ok(true)
    ensures !(true in flags) ==> r == ts
    ensures !(true in flags) ==> forall i :: 0 <= i < |ts| ==> CanReceive(variant, ts[i], e) == Ok(false)
  {
    forall i | 0 <= i < |ts|
      ensures Updated(variant, ts[i], r[i], e)
      ensures !flags[i] ==> r[i] == ts[i]
      ensures flags[i] <==> CanReceive(variant, ts[i], e) == Ok(true)
      ensures CanReceive(variant, ts[i], e).Ok?
    {
      ReceiversAt(variant, ts, e, i);
      DistributeAt(variant, ts, flags, e, i);
    }
  }

  /** The triangle made when no held triangle takes `e`: a fresh triangle
      with identifier `id` given the root edge, then `e` if it can take it;
      None when it cannot. */
  function RootTriangle(variant: Variant, root: Edge, id: nat, e: Edge): (r: Result<Option<Triangle>>)
    ensures r.Ok? && r.value.Some? ==> r.value.value.id == id
    ensures r.Ok? && r.value.Some? ==> |r.value.value.edges| == 2
    ensures r.Ok? && r.value.Some? ==>
      AddEdge(variant, Triangle(id, []), root) == Ok(Triangle(id, [root])) &&
      AddEdge(variant, Triangle(id, [root]), e) == Ok(r.value.value)
    ensures XY(root.a) != XY(root.b) ==> (r.Ok? && r.value.None? <==>
      CanReceive(variant, Triangle(id, [root]), e) == Ok(false))
  {
    RootEdgeAlone(variant, id, root);
    var t1 :- AddEdge(variant, Triangle(id, []), root);
    var can :- CanReceive(variant, t1, e);
    if can then
      var t2 :- AddEdge(variant, t1, e);
      Ok(Some(t2))
    else Ok(None)
  }

  /** `addEdge(e)`.  When no held triangle takes the edge, a fresh triangle
      with the root edge takes an identifier whether or not it is kept. */
  function AddEdgeToBuilder(variant: Variant, b: Builder, e: Edge): (r: Result<Builder>)
    ensures r.Ok? ==> r.value.root == b.root
    ensures r.Ok? ==> |r.value.triangles| >= |b.triangles|
    ensures r.Ok? ==> forall i :: 0 <= i < |b.triangles| ==> Updated(variant, b.triangles[i], r.value.triangles[i], e)
    ensures r.Ok? && |r.value.triangles| > |b.triangles| ==>
      |r.value.triangles| == |b.triangles| + 1 &&
      (forall i :: 0 <= i < |b.triangles| ==> CanReceive(variant, b.triangles[i], e) == Ok(false)) &&
      RootTriangle(variant, b.root, b.nextId, e) == Ok(Some(r.value.triangles[|b.triangles|])) &&
      r.value.nextId == b.nextId + 1
    ensures r.Ok? && |r.value.triangles| == |b.triangles| ==> r.value.nextId >= b.nextId
  {
    var flags :- Receivers(variant, b.triangles, e);
    var ts :- Distribute(variant, b.triangles, flags, e);
    DistributeUpdates(variant, b.triangles, flags, ts, e);
    if true in flags then Ok(Builder(ts, b.root, b.nextId))
    else
      FromRoot(variant, b, ts, e)
  }

  /** The step of `addEdge` where no held triangle takes the edge: the
      fresh root triangle is appended when it takes the edge, and its
      identifier is used up either way. */
  function FromRoot(variant: Variant, b: Builder, ts: seq<Triangle>, e: Edge): (r: Result<Builder>)
    ensures r.Ok? ==> r.value.root == b.root && r.value.nextId == b.nextId + 1
    ensures r.Ok? ==> |r.value.triangles| == |ts| || |r.value.triangles| == |ts| + 1
    ensures r.Ok? ==> forall i :: 0 <= i < |ts| ==> r.value.triangles[i] == ts[i]
    ensures r.Ok? && |r.value.triangles| == |ts| + 1 ==>
      RootTriangle(variant, b.root, b.nextId, e) == Ok(Some(r.value.triangles[|ts|]))
  {
    var made :- RootTriangle(variant, b.root, b.nextId, e);
    if made.Some? then
      var grown := ts + [made.value];
      assert forall i :: 0 <= i < |ts| ==> grown[i] == ts[i];
      Ok(Builder(grown, b.root, b.nextId + 1))
    else Ok(Builder(ts, b.root, b.nextId + 1))
  }

  /** When some held triangle takes the edge no triangle is added, and the
      edge goes to exactly the triangles that can take it. */
  lemma ReceiversGetTheEdge(variant: Variant, b: Builder, e: Edge, i: nat)
    requires i < |b.triangles| && CanReceive(variant, b.triangles[i], e) == Ok(true)
    requires AddEdgeToBuilder(variant, b, e).Ok?
    ensures |AddEdgeToBuilder(variant, b, e).value.triangles| == |b.triangles|
    ensures HasEdge(AddEdgeToBuilder(variant, b, e).value.triangles[i], Some(e)) || XY(e.a) == XY(e.b)
  {
    var flags := Receivers(variant, b.triangles, e).value;
    ReceiversAt(variant, b.triangles, e, i);
    var t := b.triangles[i];
    AddEdgeHoldsNew(variant, t, e);
  }

  /** The per-triangle part of the invariant survives an update. */
  lemma UpdatedKeeps(variant: Variant, before: Triangle, after: Triangle, e: Edge, root: Edge)
    requires XY(root.a) != XY(root.b) && Holds(before, root)
    requires Updated(variant, before, after, e)
    ensures Holds(after, root) && after.id == before.id
  {
    if CanReceive(variant, before, e) == Ok(true) {
      AddEdgeKeeps(variant, before, e, root);
    }
  }

  /** The triangle made from the root edge when no held triangle takes the
      edge satisfies the per-triangle invariant. */
  lemma RootTriangleHolds(variant: Variant, root: Edge, id: nat, e: Edge)
    requires XY(root.a) != XY(root.b)
    requires RootTriangle(variant, root, id, e).Ok? && RootTriangle(variant, root, id, e).value.Some?
    ensures Holds(RootTriangle(variant, root, id, e).value.value, root)
  {
    var t1 := Triangle(id, [root]);
    EdgeEqualsLaws(root, root, root);
    assert HasEdge(t1, Some(root)) by {
      assert t1.edges[0] == root;
    }
    AddEdgeKeeps(variant, t1, e, root);
  }

  /** Identifiers stay increasing and below the next one when the held
      triangles keep theirs and the only new triangle takes the next one. */
  lemma StepIds(b: Builder, r: Builder)
    requires IdsOrdered(b.triangles, b.nextId) && |r.triangles| >= |b.triangles|
    requires forall i :: 0 <= i < |b.triangles| ==> r.triangles[i].id == b.triangles[i].id
    requires |r.triangles| > |b.triangles| ==>
      |r.triangles| == |b.triangles| + 1 && r.triangles[|b.triangles|].id == b.nextId && r.nextId == b.nextId + 1
    requires |r.triangles| == |b.triangles| ==> r.nextId >= b.nextId
    ensures IdsOrdered(r.triangles, r.nextId)
  {
    var n := |b.triangles|;
    forall i, j | 0 <= i < j < |r.triangles|
      ensures r.triangles[i].id < r.triangles[j].id
    {
      assert r.triangles[i].id == b.triangles[i].id;
      if j < n {
        assert b.triangles[i].id < b.triangles[j].id;
      } else {
        assert b.triangles[i].id < b.nextId;
      }
    }
  }

  /** A triangle held before the step still holds the root edge and keeps
      its identifier. */
  lemma AddEdgeKeepsOld(variant: Variant, b: Builder, e: Edge, i: nat)
    requires Inv(b) && AddEdgeToBuilder(variant, b, e).Ok? && i < |b.triangles|
    ensures var r := AddEdgeToBuilder(variant, b, e).value;
      Holds(r.triangles[i], b.root) && r.triangles[i].id == b.triangles[i].id
  {
    var r := AddEdgeToBuilder(variant, b, e).value;
    UpdatedKeeps(variant, b.triangles[i], r.triangles[i], e, b.root);
  }

  /** A triangle added by the step holds the root edge and has the
      identifier that was next. */
  lemma AddEdgeKeepsNew(variant: Variant, b: Builder, e: Edge)
    requires Inv(b) && AddEdgeToBuilder(variant, b, e).Ok?
    requires |AddEdgeToBuilder(variant, b, e).value.triangles| > |b.triangles|
    ensures var r := AddEdgeToBuilder(variant, b, e).value;
      Holds(r.triangles[|b.triangles|], b.root) && r.triangles[|b.triangles|].id == b.nextId
  {
    RootTriangleHolds(variant, b.root, b.nextId, e);
  }

  /** The triangles held before the step still hold the root edge. */
  lemma AddEdgeOldHold(variant: Variant, b: Builder, e: Edge)
    requires Inv(b) && AddEdgeToBuilder(variant, b, e).Ok?
    ensures forall i :: 0 <= i < |b.triangles| ==> Holds(AddEdgeToBuilder(variant, b, e).value.triangles[i], b.root)
  {
    forall i | 0 <= i < |b.triangles|
      ensures Holds(AddEdgeToBuilder(variant, b, e).value.triangles[i], b.root)
    {
      AddEdgeKeepsOld(variant, b, e, i);
    }
  }

  /** A sequence whose first `n` triangles hold the root edge, and which has
      at most one more that holds it too, holds it throughout. */
  lemma HoldExtend(ts: seq<Triangle>, n: nat, root: Edge)
    requires n <= |ts| <= n + 1
    requires forall i :: 0 <= i < n ==> Holds(ts[i], root)
    requires |ts| == n + 1 ==> Holds(ts[n], root)
    ensures AllHold(ts, root)
  {
    forall i | 0 <= i < |ts|
      ensures Holds(ts[i], root)
    {
      if i == n {
        assert Holds(ts[n], root);
      }
    }
  }

  /** After the step every held triangle holds the root edge. */
  lemma AddEdgeAllHold(variant: Variant, b: Builder, e: Edge)
    requires Inv(b) && AddEdgeToBuilder(variant, b, e).Ok?
    ensures AllHold(AddEdgeToBuilder(variant, b, e).value.triangles, b.root)
  {
    var ts := AddEdgeToBuilder(variant, b, e).value.triangles;
    AddEdgeOldHold(variant, b, e);
    if |ts| > |b.triangles| {
      AddEdgeKeepsNew(variant, b, e);
    }
    HoldExtend(ts, |b.triangles|, b.root);
  }

  /** After the step identifiers are still increasing and below the next
      one. */
  lemma AddEdgeIds(variant: Variant, b: Builder, e: Edge)
    requires Inv(b) && AddEdgeToBuilder(variant, b, e).Ok?
    ensures IdsOrdered(AddEdgeToBuilder(variant, b, e).value.triangles, AddEdgeToBuilder(variant, b, e).value.nextId)
  {
    var r := AddEdgeToBuilder(variant, b, e).value;
    forall i | 0 <= i < |b.triangles|
      ensures r.triangles[i].id == b.triangles[i].id
    {
      AddEdgeKeepsOld(variant, b, e, i);
    }
    if |r.triangles| > |b.triangles| {
      AddEdgeKeepsNew(variant, b, e);
    }
    StepIds(b, r);
  }

  /** Adding an edge keeps the builder's invariant: in particular every held
      triangle still holds the root edge, and identifiers keep increasing. */
  lemma AddEdgeKeepsInv(variant: Variant, b: Builder, e: Edge)
    requires Inv(b)
    requires AddEdgeToBuilder(variant, b, e).Ok?
    ensures Inv(AddEdgeToBuilder(variant, b, e).value)
  {
    AddEdgeAllHold(variant, b, e);
    AddEdgeIds(variant, b, e);
  }

  /** `getCompleteTriangles`: the held triangles with three edges, in
      order. */
  function CompleteTriangles(ts: seq<Triangle>): (r: seq<Triangle>)
    ensures forall t :: t in r <==> t in ts && IsComplete(t)
    ensures |r| <= |ts|
  {
    if |ts| == 0 then []
    else (if IsComplete(ts[0]) then [ts[0]] else []) + CompleteTriangles(ts[1..])
  }
}
