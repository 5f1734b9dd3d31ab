/** The radius estimator (end of `drawBoundingArea`): grows a probe circle
    around the estimated centre until it encloses too many foreground points. */
module Radius {
  import opened Frame
  import opened Probe

  /** The loop runs `i` over `0 .. RadiusCap - 1`. */
  const RadiusCap := 50
  /** A circle holding more than this many points has reached the ring. */
  const RingLimit := 10

  /** Probe radius `r` is still clear of the ring. */
  predicate Clear(pts: seq<Point>, cy: int, cx: int, r: int) {
    ProbeCount(pts, cy, cx, r * r) <= RingLimit
  }

  lemma SquareMonotone(a: int, b: int)
    requires 0 <= a <= b
    ensures a * a <= b * b
  {
    assert a * a <= a * b <= b * b;
  }

  /** Grows `i` from 0 and stops at the first radius whose circle holds more
      than `RingLimit` points; returns the last radius before it. */
  method EstimateRadius(pts: seq<Point>, cy: int, cx: int) returns (largestRadius: int)
    ensures 0 <= largestRadius < RadiusCap
    ensures forall r :: 0 <= r <= largestRadius ==> Clear(pts, cy, cx, r)
    ensures forall r :: largestRadius < r < RadiusCap ==> !Clear(pts, cy, cx, r)
  {
    ProbeCountEmptyCircle(pts, cy, cx, 0);
    largestRadius := 0;
    var i := 0;
    while i < RadiusCap
      invariant 0 <= i <= RadiusCap
      invariant largestRadius == if i == 0 then 0 else i - 1
      invariant forall r :: 0 <= r < i ==> Clear(pts, cy, cx, r)
    {
      var count := CountInside(pts, cy, cx, i * i);
      if count > RingLimit {
        break;
      } else if count <= RingLimit && i > largestRadius {
        largestRadius := i;
      }
      i := i + 1;
    }
    forall r | largestRadius < r < RadiusCap
      ensures !Clear(pts, cy, cx, r)
    {
      SquareMonotone(largestRadius + 1, r);
      ProbeCountMonotone(pts, cy, cx, (largestRadius + 1) * (largestRadius + 1), r * r);
    }
  }
}
