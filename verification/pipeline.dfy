/** The detection pipeline: `preFiltering` extracts the foreground and, when
    there is any, hands it to `drawBoundingArea`, which estimates the centre
    and then the radius of the target ring. */
module Pipeline {
  import opened Frame
  import opened Arith
  import opened PreFilter
  import opened CentreX
  import opened CentreY
  import opened Radius

  /** The detected ring. A centre coordinate that could not be located stays 0,
      and the matching flag records the "cannot locate" diagnostic. */
  datatype Detection = Detection(centreX: int, centreY: int, radius: int, xFound: bool, yFound: bool)

  datatype Option<T> = None | Some(value: T)

  /** `d` is what `drawBoundingArea` computes from the list `pts`, where
      `rodColumns` are the recorded rod columns and `stop` the row where the
      y scan broke off (-1 if it ran to row 0):
      - x is found exactly when some column was recorded; it is then the
        truncated mean of the rod columns, and 0 otherwise;
      - the y scan breaks at the first row, from `cols / 2` down, where
        `StopsAt` holds around that x;
      - y is found exactly when a sparse row was scanned before the break; it is then
        their truncated mean, and 0 otherwise;
      - the radius is the first radius around that centre holding more than
        `RingLimit` points, minus one, or the last one tried. */
  ghost predicate Estimates(pts: seq<Point>, rows: nat, cols: nat, d: Detection,
                            rodColumns: seq<int>, stop: int)
  {
    && StrictlyIncreasing(rodColumns)
    && (forall c :: c in rodColumns <==> IsRodColumn(pts, rows, c))
    && (d.xFound <==> |rodColumns| > 0)
    && (if d.xFound then d.centreX == TruncDiv(Sum(rodColumns), |rodColumns|) else d.centreX == 0)
    && -1 <= stop <= cols / 2
    && (stop >= 0 ==> StopsAt(pts, d.centreX, cols / 2, stop))
    && (forall i :: stop < i <= cols / 2 ==> !StopsAt(pts, d.centreX, cols / 2, i))
    && (var rs := SparseRows(pts, d.centreX, cols / 2, stop);
        && (d.yFound <==> |rs| > 0)
        && (if d.yFound then d.centreY == TruncDiv(Sum(rs), |rs|) else d.centreY == 0))
    && 0 <= d.radius < RadiusCap
    && (forall r :: 0 <= r <= d.radius ==> Clear(pts, d.centreY, d.centreX, r))
    && (forall r :: d.radius < r < RadiusCap ==> !Clear(pts, d.centreY, d.centreX, r))
  }

  /** `drawBoundingArea`: x from the rods, then y from the row probes around
      that x, then the radius around that centre. */
  method DrawBoundingArea(pts: seq<Point>, rows: nat, cols: nat)
    returns (d: Detection, ghost rodColumns: seq<int>, ghost stop: int)
    requires ColumnMajor(pts)
    requires forall k :: 0 <= k < |pts| ==> pts[k].col > 0
    ensures Estimates(pts, rows, cols, d, rodColumns, stop)
    ensures d.xFound <==> exists c :: IsRodColumn(pts, rows, c)
    ensures d.xFound ==> rodColumns[0] <= d.centreX <= rodColumns[|rodColumns| - 1]
    ensures d.xFound ==> exists a, b :: 0 <= a < |pts| && 0 <= b < |pts| &&
                           pts[a].col <= d.centreX <= pts[b].col
    ensures d.yFound ==> stop < d.centreY <= cols / 2 && 0 <= d.centreY
  {
    var cx, rods := EstimateX(pts, rows);
    if |rods| > 0 {
      assert IsRodColumn(pts, rows, rods[0]);
      var first, last := rods[0], rods[|rods| - 1];
      assert first in Columns(pts) && last in Columns(pts);
    }
    var cy, countList, stopRow, blackZone := EstimateY(pts, cols, cx);
    var radius := EstimateRadius(pts, cy, cx);
    d := Detection(cx, cy, radius, |rods| > 0, countList > 0);
    rodColumns, stop := rods, stopRow;
  }

  /** `preFiltering` followed by `drawBoundingArea` when at least one pixel
      survived. Returns the black-and-white working frame and the detection,
      or `None` when the foreground is empty; `pts` is the foreground list the
      detection was computed from. */
  method Detect(img: Image, lower: int)
    returns (work: Image, result: Option<Detection>,
             ghost pts: seq<Point>, ghost rodColumns: seq<int>, ghost stop: int)
    requires img.Valid()
    ensures work.Valid() && work.rows == img.rows && work.cols == img.cols
    ensures forall i: nat, j: nat :: i < img.rows && j < img.cols ==>
              work.pixels[i][j] == (if Kept(img, lower, i, j) then 255 else 0)
    ensures ColumnMajor(pts)
    ensures forall p :: p in pts <==> Kept(img, lower, p.row, p.col)
    ensures result.None? <==> |pts| == 0
    ensures result.None? <==>
              forall i: nat, j: nat :: i < img.rows && j < img.cols ==> !Kept(img, lower, i, j)
    ensures (forall i, j :: 0 <= i < img.rows && 0 <= j < img.cols ==> img.pixels[i][j] <= lower) ==>
              result.None?
    ensures result.Some? ==> Estimates(pts, img.rows, img.cols, result.value, rodColumns, stop)
    ensures result.Some? && result.value.xFound ==>
              img.rows / 8 < result.value.centreX < img.rows * 7 / 8
    ensures result.Some? && result.value.yFound ==>
              0 <= result.value.centreY <= img.cols / 2
  {
    var list;
    list, work := PreFiltering(img, lower);
    pts := list;
    rodColumns, stop := [], -1;
    if |list| > 0 {
      assert list[0] in list;
      var d;
      d, rodColumns, stop := DrawBoundingArea(list, img.rows, img.cols);
      result := Some(d);
    } else {
      result := None;
    }
  }
}
