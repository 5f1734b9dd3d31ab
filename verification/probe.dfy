/** The probe circle shared by the y-centre and radius estimators: how many
    foreground points lie strictly inside a circle, compared on squared
    distances (`pow(d, 2)` on small integers is `d * d`). */
module Probe {
  import opened Frame

  /** Point `p` lies strictly inside the circle of squared radius `r2` around
      row `cy`, column `cx`. */
  predicate Inside(p: Point, cy: int, cx: int, r2: int) {
    (p.row - cy) * (p.row - cy) + (p.col - cx) * (p.col - cx) < r2
  }

  /** The number of entries of `pts` inside the probe circle. */
  function ProbeCount(pts: seq<Point>, cy: int, cx: int, r2: int): (count: nat)
    ensures count <= |pts|
  {
    if |pts| == 0 then 0
    else ProbeCount(pts[..|pts| - 1], cy, cx, r2) + (if Inside(pts[|pts| - 1], cy, cx, r2) then 1 else 0)
  }

  /** Counting one more entry adds one exactly when it lies inside. */
  lemma ProbeCountSnoc(pts: seq<Point>, p: Point, cy: int, cx: int, r2: int)
    ensures ProbeCount(pts + [p], cy, cx, r2) ==
            ProbeCount(pts, cy, cx, r2) + (if Inside(p, cy, cx, r2) then 1 else 0)
  {
    assert (pts + [p])[..|pts|] == pts;
  }

  /** The probe loop `for j < pointCount` over the list, counting entries
      inside the circle. */
  method CountInside(pts: seq<Point>, cy: int, cx: int, r2: int) returns (count: nat)
    ensures count == ProbeCount(pts, cy, cx, r2)
  {
    count := 0;
    var j := 0;
    while j < |pts|
      invariant 0 <= j <= |pts|
      invariant count == ProbeCount(pts[..j], cy, cx, r2)
    {
      var dY := (pts[j].row - cy) * (pts[j].row - cy);
      var dX := (pts[j].col - cx) * (pts[j].col - cx);
      ProbeCountSnoc(pts[..j], pts[j], cy, cx, r2);
      assert pts[..j + 1] == pts[..j] + [pts[j]];
      if dX + dY < r2 {
        count := count + 1;
      }
      j := j + 1;
    }
    assert pts[..|pts|] == pts;
  }

  /** No point lies strictly inside a circle of squared radius 0 or less. */
  lemma {:induction false} ProbeCountEmptyCircle(pts: seq<Point>, cy: int, cx: int, r2: int)
    requires r2 <= 0
    ensures ProbeCount(pts, cy, cx, r2) == 0
  {
    if |pts| > 0 {
      ProbeCountEmptyCircle(pts[..|pts| - 1], cy, cx, r2);
      var p := pts[|pts| - 1];
      SquareNonNegative(p.row - cy);
      SquareNonNegative(p.col - cx);
    }
  }

  /** A larger circle around the same centre encloses at least as many points. */
  lemma {:induction false} ProbeCountMonotone(pts: seq<Point>, cy: int, cx: int, r2: int, s2: int)
    requires r2 <= s2
    ensures ProbeCount(pts, cy, cx, r2) <= ProbeCount(pts, cy, cx, s2)
  {
    if |pts| > 0 {
      ProbeCountMonotone(pts[..|pts| - 1], cy, cx, r2, s2);
    }
  }

  lemma SquareNonNegative(d: int)
    ensures d * d >= 0
  {
    if d < 0 {
      assert d * d == (-d) * (-d);
    }
  }
}
