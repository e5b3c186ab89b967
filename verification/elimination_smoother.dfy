/** Elimination smoothing: a left-to-right scan that keeps the vertex it
    stands on and skips the next vertex when the one after that is higher.
    The scan's choice is given independently by `Kept`: a vertex is dropped
    exactly when its predecessor is kept and its successor is higher.  NaN
    elevations compare false, so they never cause a drop. */
module EliminationSmoother {

  import opened Geom

  /** Whether the scan stands on (and so keeps) vertex `j`. */
  predicate Kept(s: seq<Coord>, j: nat)
    requires j < |s|
    decreases j
  {
    j == 0 || !(Kept(s, j - 1) && j + 1 < |s| && Gt(s[j + 1].z, s[j].z))
  }

  /** The kept vertices among the first `i`, in order. */
  function KeptPrefix(s: seq<Coord>, i: nat): seq<Coord>
    requires i <= |s|
  {
    if i == 0 then [] else KeptPrefix(s, i - 1) + (if Kept(s, i - 1) then [s[i - 1]] else [])
  }

  /** The result of one `smoothImpl` pass: a subsequence of the line that
      keeps both end points. */
  function Eliminate(s: seq<Coord>): (r: seq<Coord>)
    ensures IsSubseq(r, s)
    ensures |s| >= 1 ==> |r| >= 1 && r[0] == s[0] && r[|r| - 1] == s[|s| - 1]
    ensures |s| >= 2 ==> |r| >= 2
  {
    KeptPrefixShape(s);
    KeptPrefix(s, |s|)
  }

  /** `smoothImpl` as written: the index advances by two after a skip and by
      one otherwise. */
  method SmoothImpl(s: seq<Coord>) returns (r: seq<Coord>)
    ensures r == Eliminate(s)
  {
    r := [];
    var next := 0;
    while next < |s|
      invariant 0 <= next <= |s|
      invariant next < |s| ==> Kept(s, next)
      invariant r == KeptPrefix(s, next)
    {
      r := r + [s[next]];
      if next + 2 < |s| && Gt(s[next + 2].z, s[next + 1].z) {
        assert !Kept(s, next + 1);
        next := next + 2;
        continue;
      }
      next := next + 1;
    }
  }

  /** `smooth(g, iterations)`: `iterations` passes of `smoothImpl`. */
  function Smooth(s: seq<Coord>, iterations: int): (r: seq<Coord>)
    ensures IsSubseq(r, s)
    ensures |s| >= 1 ==> |r| >= 1 && r[0] == s[0] && r[|r| - 1] == s[|s| - 1]
    decreases iterations
  {
    if iterations <= 0 then
      SubseqRefl(s);
      s
    else
      var r := Smooth(Eliminate(s), iterations - 1);
      SubseqTrans(r, Eliminate(s), s);
      r
  }

  /** A vertex is dropped only right after a kept one, so two consecutive
      vertices are never both dropped. */
  lemma NeverTwoDropped(s: seq<Coord>, j: nat)
    requires j + 1 < |s|
    ensures Kept(s, j) || Kept(s, j + 1)
  {
  }

  /** Vertex i + 1 is dropped exactly when the scan stands on i and the
      vertex after i + 1 is higher than i + 1. */
  lemma DropRule(s: seq<Coord>, i: nat)
    requires i + 2 < |s|
    ensures !Kept(s, i + 1) <==> Kept(s, i) && Gt(s[i + 2].z, s[i + 1].z)
  {
  }

  lemma {:induction false} KeptPrefixSubseq(s: seq<Coord>, i: nat)
    requires i <= |s|
    ensures IsSubseq(KeptPrefix(s, i), s[..i])
  {
    if i == 0 {
    } else {
      KeptPrefixSubseq(s, i - 1);
      assert s[..i] == s[..i - 1] + [s[i - 1]];
      if Kept(s, i - 1) {
        SubseqSnoc(KeptPrefix(s, i - 1), s[..i - 1], s[i - 1]);
      } else {
        SubseqExtend(KeptPrefix(s, i - 1), s[..i - 1], s[i - 1]);
        assert KeptPrefix(s, i) == KeptPrefix(s, i - 1);
      }
    }
  }

  lemma {:induction false} KeptPrefixStart(s: seq<Coord>, i: nat)
    requires 1 <= i <= |s|
    ensures |KeptPrefix(s, i)| >= 1 && KeptPrefix(s, i)[0] == s[0]
  {
    if i > 1 {
      KeptPrefixStart(s, i - 1);
    }
  }

  /** The kept vertices of the whole line form a subsequence with the
      line's end points. */
  lemma KeptPrefixShape(s: seq<Coord>)
    ensures IsSubseq(KeptPrefix(s, |s|), s)
    ensures |s| >= 1 ==> |KeptPrefix(s, |s|)| >= 1 && KeptPrefix(s, |s|)[0] == s[0]
    ensures |s| >= 1 ==> KeptPrefix(s, |s|)[|KeptPrefix(s, |s|)| - 1] == s[|s| - 1]
    ensures |s| >= 2 ==> |KeptPrefix(s, |s|)| >= 2
  {
    KeptPrefixSubseq(s, |s|);
    assert s[..|s|] == s;
    if |s| >= 1 {
      KeptPrefixStart(s, |s|);
      assert Kept(s, |s| - 1);
    }
    if |s| >= 2 {
      KeptPrefixStart(s, |s| - 1);
    }
  }

  /** One pass returns a subsequence that starts and ends with the input's
      end points; a line of two or more points keeps at least two. */
  lemma EliminateShape(s: seq<Coord>)
    ensures IsSubseq(Eliminate(s), s)
    ensures |s| >= 1 ==> |Eliminate(s)| >= 1
    ensures |s| >= 1 ==> Eliminate(s)[0] == s[0] && Eliminate(s)[|Eliminate(s)| - 1] == s[|s| - 1]
    ensures |s| >= 2 ==> |Eliminate(s)| >= 2
  {
  }

  /** Any number of passes keeps a subsequence with the same end points. */
  lemma {:induction false} SmoothShape(s: seq<Coord>, iterations: int)
    ensures IsSubseq(Smooth(s, iterations), s)
    ensures |s| >= 1 ==> |Smooth(s, iterations)| >= 1
    ensures |s| >= 1 ==> Smooth(s, iterations)[0] == s[0]
    ensures |s| >= 1 ==> Smooth(s, iterations)[|Smooth(s, iterations)| - 1] == s[|s| - 1]
    decreases iterations
  {
    if iterations <= 0 {
      SubseqRefl(s);
    } else {
      EliminateShape(s);
      SmoothShape(Eliminate(s), iterations - 1);
      SubseqTrans(Smooth(s, iterations), Eliminate(s), s);
    }
  }

  /** Passes compose: `smooth` with a then b iterations is `smooth` with a + b. */
  lemma {:induction false} SmoothAdds(s: seq<Coord>, a: nat, b: nat)
    ensures Smooth(Smooth(s, a), b) == Smooth(s, a + b)
    decreases a
  {
    if a > 0 {
      SmoothAdds(Eliminate(s), a - 1, b);
    }
  }
}
