/** Junctions between two line strings.  Whether a point lies on a line
    (`hasCoordinate`: distance zero) is a geometric test outside this model
    and is a parameter. */
module JunctionFinder {

  import opened Geom

  /** Vertex `i` of `g1` is a junction with the line described by `on2`: it
      lies on that line and at least one of its neighbours does not, a
      missing neighbour (at an end) counting as not on the line. */
  predicate IsJunction(g1: seq<Coord>, on2: Coord -> bool, i: nat)
    requires i < |g1|
  {
    var prevOn := i >= 1 && on2(g1[i - 1]);
    var nextOn := i < |g1| - 1 && on2(g1[i + 1]);
    on2(g1[i]) && (!prevOn || !nextOn)
  }

  /** The junction vertices among the first `n` vertices, in order. */
  function Collect(g1: seq<Coord>, on2: Coord -> bool, n: nat): (r: seq<Coord>)
    requires n <= |g1|
    ensures forall x :: x in r ==> exists i :: 0 <= i < n && IsJunction(g1, on2, i) && g1[i] == x
    ensures forall i :: 0 <= i < n && IsJunction(g1, on2, i) ==> g1[i] in r
  {
    if n == 0 then [] else Collect(g1, on2, n - 1) + (if IsJunction(g1, on2, n - 1) then [g1[n - 1]] else [])
  }

  /** `getJunctionsOneWay(g1, g2)`. */
  function OneWay(g1: seq<Coord>, on2: Coord -> bool): (r: seq<Coord>)
    ensures forall x :: x in r ==> exists i :: 0 <= i < |g1| && IsJunction(g1, on2, i) && g1[i] == x
    ensures forall i :: 0 <= i < |g1| && IsJunction(g1, on2, i) ==> g1[i] in r
  {
    Collect(g1, on2, |g1|)
  }

  /** An end vertex of `g1` lying on the other line is always a junction. */
  lemma EndsOnLineAreJunctions(g1: seq<Coord>, on2: Coord -> bool)
    requires |g1| > 0
    ensures on2(g1[0]) ==> g1[0] in OneWay(g1, on2)
    ensures on2(g1[|g1| - 1]) ==> g1[|g1| - 1] in OneWay(g1, on2)
  {
    assert on2(g1[0]) ==> IsJunction(g1, on2, 0);
    assert on2(g1[|g1| - 1]) ==> IsJunction(g1, on2, |g1| - 1);
  }

  /** Appends the coordinates of `more` that `acc` does not yet hold in 2D. */
  function AddAbsent(acc: seq<Coord>, more: seq<Coord>): (r: seq<Coord>)
    ensures |r| >= |acc| && r[..|acc|] == acc
    ensures forall k :: 0 <= k < |more| ==> HasXY(r, more[k])
    ensures forall k :: |acc| <= k < |r| ==> r[k] in more && !HasXY(r[..k], r[k])
    decreases |more|
  {
    if |more| == 0 then acc
    else
      var next := if HasXY(acc, more[0]) then acc else acc + [more[0]];
      assert HasXY(next, more[0]) by {
        if !HasXY(acc, more[0]) {
          assert SameXY(next[|acc|], more[0]);
        }
      }
      var r := AddAbsent(next, more[1..]);
      assert forall k :: 0 <= k < |next| ==> r[k] == next[k];
      assert forall k :: 1 <= k < |more| ==> more[k] == more[1..][k - 1];
      assert forall k :: |acc| <= k < |next| ==> r[..k] == acc;
      r
  }

  /** `getJunctions(f1, f2)`: g1's junctions with g2, then those of g2 with
      g1 that are not already listed. */
  function Junctions(g1: seq<Coord>, g2: seq<Coord>, on1: Coord -> bool, on2: Coord -> bool): (r: seq<Coord>)
    ensures |r| >= |OneWay(g1, on2)| && r[..|OneWay(g1, on2)|] == OneWay(g1, on2)
    ensures forall k :: 0 <= k < |OneWay(g2, on1)| ==> HasXY(r, OneWay(g2, on1)[k])
  {
    AddAbsent(OneWay(g1, on2), OneWay(g2, on1))
  }

  /** The merged list starts with the first direction's list unchanged,
      holds every junction of the second direction, and adds nothing else. */
  lemma JunctionsMerge(g1: seq<Coord>, g2: seq<Coord>, on1: Coord -> bool, on2: Coord -> bool)
    ensures var r := Junctions(g1, g2, on1, on2);
      r[..|OneWay(g1, on2)|] == OneWay(g1, on2)
    ensures var r := Junctions(g1, g2, on1, on2);
      forall i :: 0 <= i < |g2| && IsJunction(g2, on1, i) ==> HasXY(r, g2[i])
    ensures var r := Junctions(g1, g2, on1, on2);
      forall x :: x in r ==> x in OneWay(g1, on2) || x in OneWay(g2, on1)
  {
    var a := OneWay(g1, on2);
    var b := OneWay(g2, on1);
    var r := AddAbsent(a, b);
    forall i | 0 <= i < |g2| && IsJunction(g2, on1, i)
      ensures HasXY(r, g2[i])
    {
      var k :| 0 <= k < |b| && b[k] == g2[i];
    }
    forall x | x in r
      ensures x in a || x in b
    {
      var k :| 0 <= k < |r| && r[k] == x;
      if k < |a| {
        assert r[..|a|][k] == x;
      }
    }
  }
}
