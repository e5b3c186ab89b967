/** Midpoint smoothing of a line string: each pass keeps the two end points
    and replaces every interior vertex by the midpoints of the segments
    around it, so a pass over n points yields n + 1 points. */
module MidpointSmoother {

  import opened Wrappers
  import opened Geom

  /** The midpoints of consecutive coordinates, in order. */
  function Mids(s: seq<Coord>): (r: seq<Coord>)
    ensures |s| >= 1 ==> |r| == |s| - 1
    ensures |s| == 0 ==> r == []
    ensures forall i :: 0 <= i < |r| ==> r[i] == Midpoint(s[i], s[i + 1])
  {
    if |s| < 2 then [] else [Midpoint(s[0], s[1])] + Mids(s[1..])
  }

  /** One smoothing pass over at least two points. */
  function Pass(s: seq<Coord>): (r: seq<Coord>)
    requires |s| >= 2
    ensures |r| == |s| + 1
    ensures r[0] == s[0] && r[|r| - 1] == s[|s| - 1]
    ensures forall i :: 1 <= i < |s| ==> r[i] == Midpoint(s[i - 1], s[i])
  {
    [s[0]] + Mids(s) + [s[|s| - 1]]
  }

  /** The pass as the source computes it: a scan that remembers the
      previous coordinate, emits the midpoint with it, and re-emits the
      first and the last coordinate. */
  method SmoothPass(s: seq<Coord>) returns (r: seq<Coord>)
    requires |s| >= 2
    ensures r == Pass(s)
  {
    r := [];
    var prev: Option<Coord> := None;
    var k := 0;
    while k < |s|
      invariant 0 <= k <= |s|
      invariant prev == (if k == 0 then None else Some(s[k - 1]))
      invariant k >= 1 ==> |r| == (if k == |s| then k + 1 else k)
      invariant k == 0 ==> r == []
      invariant k >= 1 ==> r[0] == s[0]
      invariant forall i :: 1 <= i < k ==> r[i] == Midpoint(s[i - 1], s[i])
      invariant k == |s| ==> r[|s|] == s[|s| - 1]
    {
      var c := s[k];
      if prev.Some? {
        r := r + [Midpoint(prev.value, c)];
      }
      if k == 0 || k == |s| - 1 {
        r := r + [c];
      }
      prev := Some(c);
      k := k + 1;
    }
    var p := Pass(s);
    forall i | 0 <= i < |r|
      ensures r[i] == p[i]
    {
      if 1 <= i < |s| {
        assert r[i] == Midpoint(s[i - 1], s[i]) == p[i];
      }
    }
  }

  /** `iterations` passes; a non-positive count leaves the points alone. */
  function Iterate(s: seq<Coord>, iterations: int): (r: seq<Coord>)
    requires |s| >= 2
    ensures |r| >= |s|
    decreases iterations
  {
    if iterations <= 0 then s else Iterate(Pass(s), iterations - 1)
  }

  /** Every pass adds one point and keeps both end points. */
  lemma {:induction false} IterateShape(s: seq<Coord>, iterations: int)
    requires |s| >= 2
    ensures var r := Iterate(s, iterations);
      |r| == |s| + (if iterations < 0 then 0 else iterations) &&
      r[0] == s[0] && r[|r| - 1] == s[|s| - 1]
    decreases iterations
  {
    if iterations > 0 {
      IterateShape(Pass(s), iterations - 1);
    }
  }

  /** `smooth(Geometry, iterations)`: only a line string is accepted; one
      with at most two points is returned as it is. */
  function Smooth(g: Geometry, iterations: int): (r: Result<seq<Coord>>)
    ensures r.Err? <==> g.kind != LineStringKind
    ensures r.Err? ==> r.error == IllegalState
    ensures r.Ok? && |g.coords| <= 2 ==> r.value == g.coords
    ensures r.Ok? && iterations <= 0 ==> r.value == g.coords
    ensures r.Ok? && |g.coords| > 2 && iterations >= 0 ==> |r.value| == |g.coords| + iterations
    ensures r.Ok? && |g.coords| >= 1 ==> r.value[0] == g.coords[0] && r.value[|r.value| - 1] == g.coords[|g.coords| - 1]
  {
    if g.kind != LineStringKind then Err(IllegalState)
    else if |g.coords| <= 2 then Ok(g.coords)
    else
      IterateShape(g.coords, iterations);
      Ok(Iterate(g.coords, iterations))
  }

  /** All points lie in the axis-parallel box [lox, hix] x [loy, hiy]. */
  predicate InBox(s: seq<Coord>, lox: real, hix: real, loy: real, hiy: real) {
    forall i :: 0 <= i < |s| ==> lox <= s[i].x <= hix && loy <= s[i].y <= hiy
  }

  /** A pass never leaves a box holding its input. */
  lemma PassStaysInBox(s: seq<Coord>, lox: real, hix: real, loy: real, hiy: real)
    requires |s| >= 2 && InBox(s, lox, hix, loy, hiy)
    ensures InBox(Pass(s), lox, hix, loy, hiy)
  {
    var r := Pass(s);
    forall i | 1 <= i < |s|
      ensures lox <= r[i].x <= hix && loy <= r[i].y <= hiy
    {
      assert r[i] == Midpoint(s[i - 1], s[i]);
    }
  }

  /** Smoothing stays within the bounding box of the input, for any number
      of passes. */
  lemma {:induction false} IterateStaysInBox(s: seq<Coord>, iterations: int, lox: real, hix: real, loy: real, hiy: real)
    requires |s| >= 2 && InBox(s, lox, hix, loy, hiy)
    ensures InBox(Iterate(s, iterations), lox, hix, loy, hiy)
    decreases iterations
  {
    if iterations > 0 {
      PassStaysInBox(s, lox, hix, loy, hiy);
      IterateStaysInBox(Pass(s), iterations - 1, lox, hix, loy, hiy);
    }
  }

  /** Passes compose: a passes then b passes are a + b passes. */
  lemma {:induction false} IterateAdds(s: seq<Coord>, a: nat, b: nat)
    requires |s| >= 2
    ensures Iterate(Iterate(s, a), b) == Iterate(s, a + b)
    decreases a
  {
    if a > 0 {
      IterateAdds(Pass(s), a - 1, b);
    }
  }
}
