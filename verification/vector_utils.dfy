/** Compass-angle arithmetic on headings in degrees. */
module VectorUtils {

  import Metrics

  /** The defining bounds of `Floor`. */
  lemma FloorBounds(x: real)
    ensures (x.Floor as real) <= x < (x.Floor as real) + 1.0
  {
  }

  /** The whole turns `toCompassAngle` adds to `a`. */
  function Turns(a: real): int {
    if a < 0.0 then (-a / 360.0).Floor + 1 else -((a / 360.0).Floor)
  }

  /** `toCompassAngle`: a non-negative angle is reduced modulo 360 (Java's
      `%`); a negative one is raised by the whole turns `(int)(-a/360) + 1`,
      so that -360 maps to 360, not 0.  Either way the heading is unchanged:
      the result differs from `a` by whole turns. */
  function CompassAngle(a: real): (r: real)
    ensures a >= 0.0 ==> 0.0 <= r < 360.0
    ensures a < 0.0 ==> 0.0 < r <= 360.0
    ensures 0.0 <= a < 360.0 ==> r == a
    ensures r == a + 360.0 * (Turns(a) as real)
  {
    if a < 0.0 then
      FloorBounds(-a / 360.0);
      var n := (-a / 360.0).Floor + 1;
      (n as real) * 360.0 + a
    else
      FloorBounds(a / 360.0);
      a - 360.0 * ((a / 360.0).Floor as real)
  }

  /** Java's `(int)` of a non-negative double: truncation toward zero,
      saturating at `Integer.MAX_VALUE`. */
  function IntCast(x: real): (r: int)
    requires x >= 0.0
    ensures Metrics.IsInt(r) && 0 <= r
    ensures x < ((Metrics.TwoTo31 - 1) as real) ==> r == x.Floor
    ensures x >= ((Metrics.TwoTo31 - 1) as real) ==> r == Metrics.TwoTo31 - 1
  {
    if x >= ((Metrics.TwoTo31 - 1) as real) then Metrics.TwoTo31 - 1 else x.Floor
  }

  /** `toCompassAngle` with `n` and `n*360` computed as Java ints, so that
      both the cast and the product can overflow. */
  function JavaCompassAngle(a: real): (r: real)
    ensures a >= 0.0 ==> r == CompassAngle(a)
  {
    if a < 0.0 then
      var n := Metrics.WrapInt(IntCast(-a / 360.0) + 1);
      (Metrics.WrapInt(n * 360) as real) + a
    else
      CompassAngle(a)
  }

  /** Above -2147483520 degrees the whole turns times 360 fit in an int and
      the Java arithmetic is the exact one. */
  lemma JavaCompassAngleAgrees(a: real)
    requires a > -2147483520.0
    ensures JavaCompassAngle(a) == CompassAngle(a)
  {
    if a < 0.0 {
      FloorBounds(-a / 360.0);
      var c := (-a / 360.0).Floor;
      assert c <= 5965231;
      assert IntCast(-a / 360.0) == c;
      assert Metrics.WrapInt(c + 1) == c + 1;
      assert Metrics.WrapInt((c + 1) * 360) == (c + 1) * 360;
    }
  }

  /** At -2147483520 degrees `n*360` wraps to a negative int and the
      result is no compass angle at all. */
  lemma JavaCompassAngleOverflows()
    ensures CompassAngle(-2147483520.0) == 360.0
    ensures JavaCompassAngle(-2147483520.0) == -4294966936.0
  {
    assert (2147483520.0 / 360.0).Floor == 5965232;
    assert IntCast(2147483520.0 / 360.0) == 5965232;
    assert Metrics.WrapInt(5965233) == 5965233;
    assert Metrics.WrapInt(5965233 * 360) == -2147483416;
  }

  /** The two worked examples of the documentation and the -360 edge. */
  lemma CompassAngleExamples()
    ensures CompassAngle(-45.0) == 315.0
    ensures CompassAngle(-360.0) == 360.0
    ensures CompassAngle(405.0) == 45.0
  {
    assert (45.0 / 360.0).Floor == 0;
    assert (360.0 / 360.0).Floor == 1;
    assert (405.0 / 360.0).Floor == 1;
  }

  /** `getTrajectoryDiff(t1, t2)`: the signed turn from heading t1 to t2
      (positive to the left), folded into [-180, 180]. */
  function TrajectoryDiff(t1: real, t2: real): (r: real)
    ensures -180.0 <= r <= 180.0
    ensures var d := CompassAngle(t2) - CompassAngle(t1); r == d || r == d - 360.0 || r == d + 360.0
  {
    var a := CompassAngle(t1);
    var b := CompassAngle(t2);
    var d := b - a;
    var d1 := if d > 180.0 then d - 360.0 else d;
    if d1 < -180.0 then d1 + 360.0 else d1
  }

  /** The same heading twice is no turn, and turning back is the opposite
      turn. */
  lemma TrajectoryDiffProperties(t1: real, t2: real)
    ensures TrajectoryDiff(t1, t1) == 0.0
    ensures TrajectoryDiff(t2, t1) == -TrajectoryDiff(t1, t2)
  {
  }

  lemma TrajectoryDiffExamples()
    ensures TrajectoryDiff(45.0, 60.0) == 15.0
    ensures TrajectoryDiff(60.0, 340.0) == -80.0
  {
  }
}
