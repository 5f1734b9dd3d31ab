/** The y-centre estimator (middle of `drawBoundingArea`): scans probe rows
    from row `cols / 2` down to row 0 (toward the top of the image) around the x estimate, averaging the
    rows whose probe circle is sparse, and stops early when a dense row follows
    enough sparse ones. */
module CentreY {
  import opened Frame
  import opened Arith
  import opened Probe

  /** `pow(20, 2)`: the squared radius of the row probe. */
  const ProbeRadiusSquared := 400
  /** A row whose probe holds at most this many points is sparse. */
  const SparseLimit := 10
  /** `blackZone` is entered once more than this many sparse rows were seen. */
  const BlackZoneRows := 10
  /** A row whose probe holds at least this many points ends the scan inside the black zone. */
  const DenseLimit := 20

  /** The probe row `i` is sparse. */
  predicate Sparse(pts: seq<Point>, cx: int, i: int) {
    ProbeCount(pts, i, cx, ProbeRadiusSquared) <= SparseLimit
  }

  /** The sparse rows among `from + 1 .. top`, in scan order (from `top` down). */
  function SparseRows(pts: seq<Point>, cx: int, top: int, from: int): (rs: seq<int>)
    requires -1 <= from <= top
    decreases top - from
  {
    if from == top then []
    else SparseRows(pts, cx, top, from + 1) + (if Sparse(pts, cx, from + 1) then [from + 1] else [])
  }

  /** The sparse rows come out in strictly decreasing order, all inside the
      scanned range. */
  lemma {:induction false} SparseRowsOrdered(pts: seq<Point>, cx: int, top: int, from: int)
    requires -1 <= from <= top
    ensures var rs := SparseRows(pts, cx, top, from);
            StrictlyDecreasing(rs) && forall k :: 0 <= k < |rs| ==> from < rs[k] <= top
    decreases top - from
  {
    if from < top {
      SparseRowsOrdered(pts, cx, top, from + 1);
    }
  }

  /** A row is listed exactly when it lies in the scanned range and its probe
      is sparse. */
  lemma {:induction false} SparseRowsMembers(pts: seq<Point>, cx: int, top: int, from: int, r: int)
    requires -1 <= from <= top
    ensures r in SparseRows(pts, cx, top, from) <==> from < r <= top && Sparse(pts, cx, r)
    decreases top - from
  {
    if from < top {
      SparseRowsMembers(pts, cx, top, from + 1, r);
    }
  }

  /** Scanning on toward row 0 never loses a sparse row: the count only grows,
      so once `blackZone` is set it stays set. */
  lemma {:induction false} SparseRowsGrow(pts: seq<Point>, cx: int, top: int, lo: int, hi: int)
    requires -1 <= lo <= hi <= top
    ensures |SparseRows(pts, cx, top, hi)| <= |SparseRows(pts, cx, top, lo)|
    decreases hi - lo
  {
    if lo < hi {
      SparseRowsGrow(pts, cx, top, lo + 1, hi);
    }
  }

  /** The scan breaks at row `i`: its probe is dense, and more than
      `BlackZoneRows` sparse rows were scanned before it. */
  predicate StopsAt(pts: seq<Point>, cx: int, top: int, i: int)
    requires -1 <= i <= top
  {
    0 <= i && ProbeCount(pts, i, cx, ProbeRadiusSquared) >= DenseLimit &&
    |SparseRows(pts, cx, top, i)| > BlackZoneRows
  }

  /** What visiting row `i` contributes: the scan breaks there exactly when
      its probe is dense after more than `BlackZoneRows` sparse rows, and a
      sparse row is appended to the list (and its sum). */
  lemma RowStep(pts: seq<Point>, cx: int, top: int, i: int)
    requires 0 <= i <= top
    ensures var above := SparseRows(pts, cx, top, i);
            var count := ProbeCount(pts, i, cx, ProbeRadiusSquared);
            && (i == top ==> above == [])
            && (i < top ==> |SparseRows(pts, cx, top, i + 1)| <= |above|)
            && (StopsAt(pts, cx, top, i) <==> count >= DenseLimit && |above| > BlackZoneRows)
            && (count <= SparseLimit ==> SparseRows(pts, cx, top, i - 1) == above + [i])
            && (count <= SparseLimit ==> Sum(above + [i]) == Sum(above) + i)
            && (count > SparseLimit ==> SparseRows(pts, cx, top, i - 1) == above)
  {
    if i < top {
      SparseRowsGrow(pts, cx, top, i, i + 1);
    }
    SumAppend(SparseRows(pts, cx, top, i), i);
  }

  /** The row loop: scans rows `top` down to 0 (toward the top of the image), listing and summing the
      sparse rows, and breaks at the first row where `StopsAt` holds.
      Returns the sum, the count, the break row (-1 if none) and `blackZone`. */
  method ScanRows(pts: seq<Point>, top: int, cx: int)
    returns (listOfHeight: int, countList: nat, stop: int, blackZone: bool)
    requires top >= 0
    ensures -1 <= stop <= top
    ensures blackZone <==>
              |SparseRows(pts, cx, top, if stop >= 0 then stop else 0)| > BlackZoneRows
    ensures blackZone ==> countList > BlackZoneRows
    ensures stop >= 0 ==> blackZone && StopsAt(pts, cx, top, stop)
    ensures forall i :: stop < i <= top ==> !StopsAt(pts, cx, top, i)
    ensures countList == |SparseRows(pts, cx, top, stop)|
    ensures listOfHeight == Sum(SparseRows(pts, cx, top, stop))
  {
    listOfHeight := 0;
    countList := 0;
    blackZone := false;
    stop := -1;
    var i := top;
    while i >= 0
      invariant -1 <= i <= top
      invariant stop == -1
      invariant countList == |SparseRows(pts, cx, top, i)|
      invariant listOfHeight == Sum(SparseRows(pts, cx, top, i))
      invariant blackZone <==> i < top && |SparseRows(pts, cx, top, i + 1)| > BlackZoneRows
      invariant blackZone ==> countList > BlackZoneRows
      invariant forall r :: i < r <= top ==> !StopsAt(pts, cx, top, r)
    {
      var count := CountInside(pts, i, cx, ProbeRadiusSquared);
      RowStep(pts, cx, top, i);
      if countList > BlackZoneRows {
        blackZone := true;
      }
      if count >= DenseLimit && blackZone {
        stop := i;
        break;
      } else if count <= SparseLimit {
        listOfHeight := listOfHeight + i;
        countList := countList + 1;
      }
      i := i - 1;
    }
  }

  /** Scans rows `cols / 2` down to 0 (toward the top of the image). Returns the y estimate, the number of
      sparse rows averaged, and the row where the scan broke off (-1 if it
      ran to row 0). */
  method EstimateY(pts: seq<Point>, cols: nat, cx: int)
    returns (centreY: int, countList: nat, stop: int, blackZone: bool)
    ensures -1 <= stop <= cols / 2
    ensures blackZone <==>
              |SparseRows(pts, cx, cols / 2, if stop >= 0 then stop else 0)| > BlackZoneRows
    ensures blackZone ==> countList > BlackZoneRows
    ensures stop >= 0 ==> blackZone
    ensures stop >= 0 ==> StopsAt(pts, cx, cols / 2, stop)
    ensures forall i :: stop < i <= cols / 2 ==> !StopsAt(pts, cx, cols / 2, i)
    ensures countList == |SparseRows(pts, cx, cols / 2, stop)|
    ensures countList == 0 ==> centreY == 0
    ensures countList > 0 ==>
              var rs := SparseRows(pts, cx, cols / 2, stop);
              centreY == TruncDiv(Sum(rs), countList) &&
              rs[countList - 1] <= centreY <= rs[0] &&
              stop < centreY <= cols / 2
  {
    var top := cols / 2;
    var listOfHeight;
    listOfHeight, countList, stop, blackZone := ScanRows(pts, top, cx);
    if countList > 0 {
      ghost var rs := SparseRows(pts, cx, top, stop);
      SparseRowsOrdered(pts, cx, top, stop);
      MeanBounds(rs, rs[countList - 1], rs[0]);
      centreY := TruncDiv(listOfHeight, countList);
    } else {
      centreY := 0;
    }
  }
}
