/** The variable buffer distance of a ridge stick.  The steeper of the two
    side slopes (the larger, as slopes here are negative) decides where the
    distance falls between a minimum and a maximum: a slope of -0.5 or more
    gives the minimum, -10 or less the maximum, and the range between is
    interpolated linearly. */
module BufferAlg {

  import opened Wrappers

  /** The slopes at which the buffer reaches its extremes. */
  const MinAllowedSlope: real := -10.0
  const MaxAllowedSlope: real := -0.5

  function Max(a: real, b: real): real {
    if a >= b then a else b
  }

  /** Where `m` lies between `MaxAllowedSlope` (0) and `MinAllowedSlope` (1),
      clamped to [0, 1]. */
  function Fraction(m: real): (f: real)
    ensures 0.0 <= f <= 1.0
    ensures MinAllowedSlope <= m <= MaxAllowedSlope ==> f * (MinAllowedSlope - MaxAllowedSlope) == m - MaxAllowedSlope
    ensures m >= MaxAllowedSlope ==> f == 0.0
    ensures m <= MinAllowedSlope ==> f == 1.0
  {
    var f := (m - MaxAllowedSlope) / (MinAllowedSlope - MaxAllowedSlope);
    var f1 := if f > 1.0 then 1.0 else f;
    if f1 < 0.0 then 0.0 else f1
  }

  /** Scaling by a fraction keeps a value between zero and itself, and a
      non-zero fraction keeps a negative value negative. */
  lemma ScaleBounds(f: real, k: real)
    requires 0.0 <= f <= 1.0
    ensures k >= 0.0 ==> 0.0 <= f * k <= k
    ensures k < 0.0 ==> k <= f * k <= 0.0
    ensures k < 0.0 && f > 0.0 ==> f * k < 0.0
    ensures f == 0.0 ==> f * k == 0.0
  {
    if k >= 0.0 {
      assert f * k <= 1.0 * k;
    } else {
      assert f * (-k) <= 1.0 * (-k);
      if f > 0.0 {
        assert f * (-k) > 0.0;
      }
    }
  }

  /** `calcVariableBufferDistance`: the interpolated distance, or the
      post-condition failure the source raises when it falls outside
      [minDist, maxDist], which happens exactly when the bounds are reversed. */
  function BufferDistance(slope1: real, slope2: real, minDist: real, maxDist: real): (r: Result<real>)
    ensures r.Ok? <==> minDist <= maxDist
    ensures r.Err? ==> r.error == IllegalState
    ensures r.Ok? ==> minDist <= r.value <= maxDist
    ensures r.Ok? && Max(slope1, slope2) >= MaxAllowedSlope ==> r.value == minDist
    ensures r.Ok? && Max(slope1, slope2) <= MinAllowedSlope ==> r.value == maxDist
  {
    var f := Fraction(Max(slope1, slope2));
    var k := maxDist - minDist;
    var fk := f * k;
    var d := fk + minDist;
    ScaleBounds(f, k);
    assert f == 1.0 ==> fk == k;
    assert k >= 0.0 ==> minDist <= d <= maxDist;
    assert k < 0.0 ==> d < minDist || d > maxDist;
    if d > maxDist || d < minDist then Err(IllegalState) else Ok(d)
  }

  /** Gentler ridges never get a wider buffer: the distance does not
      decrease as the steeper slope decreases. */
  lemma {:induction false} SteeperIsWider(a1: real, a2: real, b1: real, b2: real, minDist: real, maxDist: real)
    requires minDist <= maxDist
    requires Max(b1, b2) <= Max(a1, a2)
    ensures BufferDistance(a1, a2, minDist, maxDist).value <= BufferDistance(b1, b2, minDist, maxDist).value
  {
    var fa := Fraction(Max(a1, a2));
    var fb := Fraction(Max(b1, b2));
    assert fa <= fb;
    ScaleBounds(fb - fa, maxDist - minDist);
    assert fb * (maxDist - minDist) - fa * (maxDist - minDist) == (fb - fa) * (maxDist - minDist);
  }

  /** Inside the sloped band the distance is the linear interpolation of the
      slope between the two bounds. */
  lemma Interpolates(s1: real, s2: real, minDist: real, maxDist: real)
    requires minDist <= maxDist
    requires MinAllowedSlope <= Max(s1, s2) <= MaxAllowedSlope
    ensures (BufferDistance(s1, s2, minDist, maxDist).value - minDist) * (MinAllowedSlope - MaxAllowedSlope) ==
      (Max(s1, s2) - MaxAllowedSlope) * (maxDist - minDist)
  {
    var f := Fraction(Max(s1, s2));
    assert f * (MinAllowedSlope - MaxAllowedSlope) == Max(s1, s2) - MaxAllowedSlope;
    calc {
      (f * (maxDist - minDist) + minDist - minDist) * (MinAllowedSlope - MaxAllowedSlope);
      (f * (MinAllowedSlope - MaxAllowedSlope)) * (maxDist - minDist);
    }
  }
}
