/** The x-centre estimator (first half of `drawBoundingArea`): a per-column
    run-length scan of the foreground list for vertical rods, whose columns are
    averaged into the x coordinate of the target. */
module CentreX {
  import opened Frame
  import opened Arith

  /** `rodLength`: a column counts as a rod once its run has grown this many
      times past its first point, i.e. after `RodLength + 1` consecutive rows. */
  const RodLength := 30

  /** List entry `k` is the first point of its column at or below row
      `rows / 2`: the scan restarts its run counter there. */
  predicate StartsColumn(pts: seq<Point>, rows: nat, k: int) {
    && 0 <= k < |pts|
    && pts[k].row >= rows / 2
    && (k == 0 || pts[k - 1].col != pts[k].col || pts[k - 1].row < rows / 2)
  }

  /** A rod starts at entry `k`: it starts its column, and the next `RodLength`
      entries of the list lie in the same column on the next `RodLength` rows. */
  predicate RodAt(pts: seq<Point>, rows: nat, k: int) {
    && StartsColumn(pts, rows, k)
    && k + RodLength < |pts|
    && forall u :: k < u <= k + RodLength ==>
         pts[u].col == pts[k].col && pts[u].row == pts[k].row + (u - k)
  }

  /** Column `c` holds a rod: its points at or below row `rows / 2` begin with
      `RodLength + 1` consecutive rows. */
  predicate IsRodColumn(pts: seq<Point>, rows: nat, c: int) {
    exists k :: 0 <= k < |pts| && pts[k].col == c && RodAt(pts, rows, k)
  }

  /** A column `c` whose points are exactly rows `top .. top + len - 1`. */
  function Run(c: nat, top: nat, len: nat): (pts: seq<Point>)
    ensures |pts| == len
    ensures forall u :: 0 <= u < len ==> pts[u] == Point(top + u, c)
  {
    seq(len, u requires 0 <= u => Point(top + u, c))
  }

  /** A run of exactly `RodLength` rows is not a rod: the run counter starts
      at 0 on the column's first point, so it reaches `RodLength` only on the
      `RodLength + 1`-th. */
  lemma {:induction false} ShortRunIsNotRod(c: nat, rows: nat)
    ensures !IsRodColumn(Run(c, rows / 2, RodLength), rows, c)
  {
  }

  /** A run of `RodLength + 1` rows from the middle row down is a rod. */
  lemma {:induction false} RunIsRod(c: nat, rows: nat)
    ensures IsRodColumn(Run(c, rows / 2, RodLength + 1), rows, c)
  {
    var pts := Run(c, rows / 2, RodLength + 1);
    assert RodAt(pts, rows, 0);
  }

  /** In a column-major list each column has at most one entry where its
      points at or below row `rows / 2` begin. */
  lemma StartsUnique(pts: seq<Point>, rows: nat, a: int, b: int)
    requires ColumnMajor(pts)
    requires StartsColumn(pts, rows, a) && StartsColumn(pts, rows, b)
    requires pts[a].col == pts[b].col
    ensures a == b
  {
  }

  /** The scan's registers: the column being counted (0 for none), the last
      row of the current run, how far the run has grown, whether the column
      has been recorded, and whether a gap has broken the run. */
  datatype RodState = RodState(currentX: nat, lastHeight: int, consecutiveCount: int,
                               chosen: bool, garbage: bool)

  const Initial := RodState(0, 0, 0, false, false)

  /** One iteration of the scan on point `p`; the flag says whether the
      iteration records the current column as a rod. */
  function Step(st: RodState, p: Point, rows: nat): (r: (RodState, bool))
    ensures r.1 ==> !st.chosen && r.0.chosen && r.0.currentX == st.currentX == p.col
    ensures r.1 ==> r.0.consecutiveCount >= RodLength
    ensures p.row < rows / 2 ==> r.0.currentX == 0 && !r.1
    ensures p.row >= rows / 2 ==> r.0.currentX == p.col
  {
    if p.row < rows / 2 then
      // points above the lower half are skipped and forget the column
      (st.(currentX := 0), false)
    else if st.currentX != p.col then
      // a new column: the run restarts at this point
      (RodState(p.col, p.row, 0, false, false), false)
    else
      var continues := p.row - st.lastHeight == 1 && !st.garbage;
      var count := if continues then st.consecutiveCount + 1 else st.consecutiveCount;
      var last := if continues then p.row else st.lastHeight;
      var record := count >= RodLength && !st.chosen;
      (RodState(st.currentX, last, count, st.chosen || record, st.garbage || !continues), record)
  }

  /** What the scan knows about the column it is in after the first `n`
      entries, when entry `n - 1` lies at or below row `rows / 2`: the column's
      run started at entry `start`; `consecutiveCount` steps of it were
      consecutive rows; `garbage` is set exactly when a later entry broke the
      run; `chosen` is set exactly when the run reached `RodLength`. */
  ghost predicate InColumn(pts: seq<Point>, rows: nat, n: int, start: int, st: RodState)
    requires 0 < n <= |pts|
  {
    && 0 <= start < n
    && StartsColumn(pts, rows, start)
    && st.currentX == pts[start].col
    && (forall k :: start <= k < n ==> pts[k].col == pts[start].col)
    && 0 <= st.consecutiveCount <= n - 1 - start
    && (forall u :: start < u <= start + st.consecutiveCount ==>
          pts[u].row == pts[start].row + (u - start))
    && st.lastHeight == pts[start].row + st.consecutiveCount
    && (st.garbage <==> st.consecutiveCount < n - 1 - start)
    && (st.garbage ==>
          pts[start + st.consecutiveCount + 1].row != pts[start].row + st.consecutiveCount + 1)
    && (st.chosen <==> st.consecutiveCount >= RodLength)
  }

  /** The registers after the first `n` entries: `currentX` is the column of
      entry `n - 1` when that entry lies at or below row `rows / 2` (and the
      rest describes the run in that column), and 0 otherwise. */
  ghost predicate RegistersInv(pts: seq<Point>, rows: nat, n: int, st: RodState, start: int)
  {
    && 0 <= n <= |pts|
    && st.currentX == (if n > 0 && pts[n - 1].row >= rows / 2 then pts[n - 1].col else 0)
    && (n > 0 && pts[n - 1].row >= rows / 2 ==> InColumn(pts, rows, n, start, st))
  }

  /** The output after the first `n` entries: `out` lists, in increasing
      order, the columns of the rods that end before entry `n`; `starts` holds
      the entry where each begins. */
  ghost predicate OutputInv(pts: seq<Point>, rows: nat, n: int, starts: seq<int>, out: seq<int>)
  {
    && |starts| == |out|
    && (forall i :: 0 <= i < |starts| ==>
          0 <= starts[i] && starts[i] + RodLength < n && RodAt(pts, rows, starts[i]) &&
          out[i] == pts[starts[i]].col)
    && (forall k :: 0 <= k && k + RodLength < n && RodAt(pts, rows, k) ==> k in starts)
    && StrictlyIncreasing(out)
  }

  /** When no rod ends at entry `n`, the output invariant extends past it. */
  lemma OutputSkip(pts: seq<Point>, rows: nat, n: int, starts: seq<int>, out: seq<int>)
    requires 0 <= n < |pts|
    requires OutputInv(pts, rows, n, starts, out)
    requires forall k :: 0 <= k && k + RodLength == n ==> !RodAt(pts, rows, k)
    ensures OutputInv(pts, rows, n + 1, starts, out)
  {
  }

  lemma SkipStep(pts: seq<Point>, rows: nat, n: int, st: RodState, start: int,
                 starts: seq<int>, out: seq<int>)
    requires RegistersInv(pts, rows, n, st, start) && OutputInv(pts, rows, n, starts, out)
    requires n < |pts| && pts[n].row < rows / 2
    ensures RegistersInv(pts, rows, n + 1, Step(st, pts[n], rows).0, start)
    ensures OutputInv(pts, rows, n + 1, starts, out)
  {
    forall k | 0 <= k && k + RodLength == n
      ensures !RodAt(pts, rows, k)
    {
    }
    OutputSkip(pts, rows, n, starts, out);
  }

  lemma FreshStep(pts: seq<Point>, rows: nat, n: int, st: RodState, start: int,
                  starts: seq<int>, out: seq<int>)
    requires forall k :: 0 <= k < |pts| ==> pts[k].col > 0
    requires RegistersInv(pts, rows, n, st, start) && OutputInv(pts, rows, n, starts, out)
    requires n < |pts| && pts[n].row >= rows / 2 && st.currentX != pts[n].col
    ensures RegistersInv(pts, rows, n + 1, Step(st, pts[n], rows).0, n)
    ensures OutputInv(pts, rows, n + 1, starts, out)
  {
    assert StartsColumn(pts, rows, n);
    forall k | 0 <= k && k + RodLength == n
      ensures !RodAt(pts, rows, k)
    {
    }
    OutputSkip(pts, rows, n, starts, out);
  }

  /** On a point that continues the current column, the registers still
      describe the column one entry further on. */
  lemma RunStepColumn(pts: seq<Point>, rows: nat, n: int, st: RodState, start: int)
    requires 0 < n < |pts|
    requires InColumn(pts, rows, n, start, st)
    requires pts[n].row >= rows / 2 && st.currentX == pts[n].col
    ensures InColumn(pts, rows, n + 1, start, Step(st, pts[n], rows).0)
  {
    var st' := Step(st, pts[n], rows).0;
    if pts[n].row - st.lastHeight == 1 && !st.garbage {
      assert st'.consecutiveCount == n - start;
      assert forall u :: start < u <= start + st'.consecutiveCount ==>
          pts[u].row == pts[start].row + (u - start);
    } else {
      assert st'.consecutiveCount == st.consecutiveCount;
    }
  }

  /** A column is recorded exactly when the rod starting at `start` ends at
      entry `n`, and it is larger than every column recorded before. */
  lemma RunStepRecord(pts: seq<Point>, rows: nat, n: int, st: RodState, start: int,
                      starts: seq<int>, out: seq<int>)
    requires ColumnMajor(pts)
    requires OutputInv(pts, rows, n, starts, out)
    requires 0 < n < |pts| && pts[n].row >= rows / 2 && st.currentX == pts[n].col
    requires InColumn(pts, rows, n, start, st)
    requires Step(st, pts[n], rows).1
    ensures start + RodLength == n && RodAt(pts, rows, start)
    ensures forall i :: 0 <= i < |out| ==> out[i] < pts[n].col
  {
    assert start + RodLength == n;
    forall i | 0 <= i < |out|
      ensures out[i] < pts[n].col
    {
      assert Before(pts[starts[i]], pts[n]);
      if out[i] == pts[n].col {
        StartsUnique(pts, rows, starts[i], start);
      }
    }
  }

  /** A rod ending at entry `n` is recorded when entry `n` is processed. */
  lemma RunStepComplete(pts: seq<Point>, rows: nat, n: int, st: RodState, start: int, k: int)
    requires ColumnMajor(pts)
    requires 0 < n < |pts| && pts[n].row >= rows / 2 && st.currentX == pts[n].col
    requires InColumn(pts, rows, n, start, st)
    requires 0 <= k && k + RodLength == n && RodAt(pts, rows, k)
    ensures k == start && Step(st, pts[n], rows).1
  {
    StartsUnique(pts, rows, k, start);
    assert !st.garbage;
  }

  /** The output invariant across a point that continues the current column. */
  lemma RunStepOutput(pts: seq<Point>, rows: nat, n: int, st: RodState, start: int,
                      starts: seq<int>, out: seq<int>)
    requires ColumnMajor(pts)
    requires OutputInv(pts, rows, n, starts, out)
    requires 0 < n < |pts| && pts[n].row >= rows / 2 && st.currentX == pts[n].col
    requires InColumn(pts, rows, n, start, st)
    ensures var r := Step(st, pts[n], rows);
            OutputInv(pts, rows, n + 1,
                      if r.1 then starts + [start] else starts,
                      if r.1 then out + [pts[n].col] else out)
  {
    var r := Step(st, pts[n], rows);
    if r.1 {
      RunStepRecord(pts, rows, n, st, start, starts, out);
      var starts', out' := starts + [start], out + [pts[n].col];
      forall k | 0 <= k && k + RodLength < n + 1 && RodAt(pts, rows, k)
        ensures k in starts'
      {
        if k + RodLength == n {
          RunStepComplete(pts, rows, n, st, start, k);
        }
      }
      assert OutputInv(pts, rows, n + 1, starts', out');
    } else {
      forall k | 0 <= k && k + RodLength == n
        ensures !RodAt(pts, rows, k)
      {
        if RodAt(pts, rows, k) {
          RunStepComplete(pts, rows, n, st, start, k);
        }
      }
      OutputSkip(pts, rows, n, starts, out);
    }
  }

  lemma RunStep(pts: seq<Point>, rows: nat, n: int, st: RodState, start: int,
                starts: seq<int>, out: seq<int>)
    requires ColumnMajor(pts)
    requires RegistersInv(pts, rows, n, st, start) && OutputInv(pts, rows, n, starts, out)
    requires forall k :: 0 <= k < |pts| ==> pts[k].col > 0
    requires n < |pts| && pts[n].row >= rows / 2 && st.currentX == pts[n].col
    ensures RegistersInv(pts, rows, n + 1, Step(st, pts[n], rows).0, start)
    ensures var r := Step(st, pts[n], rows);
            OutputInv(pts, rows, n + 1,
                      if r.1 then starts + [start] else starts,
                      if r.1 then out + [pts[n].col] else out)
  {
    RunStepColumn(pts, rows, n, st, start);
    RunStepOutput(pts, rows, n, st, start, starts, out);
  }

  /** Where the current column's run starts after entry `n`: at `n` itself
      when the entry opens a new column, and where it was otherwise. */
  function NextStart(pts: seq<Point>, rows: nat, n: int, st: RodState, start: int): (k: int)
    requires 0 <= n < |pts|
  {
    if pts[n].row >= rows / 2 && st.currentX != pts[n].col then n else start
  }

  /** One iteration of the scan keeps both invariants. */
  lemma ScanStep(pts: seq<Point>, rows: nat, n: int, st: RodState, start: int,
                 starts: seq<int>, out: seq<int>)
    requires ColumnMajor(pts)
    requires forall k :: 0 <= k < |pts| ==> pts[k].col > 0
    requires RegistersInv(pts, rows, n, st, start) && OutputInv(pts, rows, n, starts, out)
    requires n < |pts|
    ensures var r := Step(st, pts[n], rows);
            var start' := NextStart(pts, rows, n, st, start);
            && RegistersInv(pts, rows, n + 1, r.0, start')
            && OutputInv(pts, rows, n + 1,
                         if r.1 then starts + [start'] else starts,
                         if r.1 then out + [r.0.currentX] else out)
  {
    if pts[n].row < rows / 2 {
      SkipStep(pts, rows, n, st, start, starts, out);
    } else if st.currentX != pts[n].col {
      FreshStep(pts, rows, n, st, start, starts, out);
    } else {
      RunStep(pts, rows, n, st, start, starts, out);
    }
  }

  /** What the finished scan's output says about the whole list. */
  lemma ScanResult(pts: seq<Point>, rows: nat, starts: seq<int>, out: seq<int>)
    requires OutputInv(pts, rows, |pts|, starts, out)
    ensures forall c :: c in out <==> IsRodColumn(pts, rows, c)
    ensures forall i :: 0 <= i < |out| ==> out[i] in Columns(pts)
    ensures |out| <= |Columns(pts)|
    ensures (forall k :: 0 <= k < |pts| ==> rows / 8 < pts[k].col < rows * 7 / 8) ==>
              |out| <= rows
  {
    forall i | 0 <= i < |out|
      ensures out[i] in Columns(pts)
    {
      assert out[i] == pts[starts[i]].col;
    }
    forall c | IsRodColumn(pts, rows, c)
      ensures c in out
    {
      var k :| 0 <= k < |pts| && pts[k].col == c && RodAt(pts, rows, k);
      assert k in starts;
      var i :| 0 <= i < |starts| && starts[i] == k;
      assert out[i] == c;
    }
    if forall k :: 0 <= k < |pts| ==> rows / 8 < pts[k].col < rows * 7 / 8 {
      IncreasingWithin(out, rows / 8, rows * 7 / 8);
    }
    IncreasingDistinct(out);
    SubsetSize(set k | 0 <= k < |out| :: out[k], Columns(pts));
  }

  /** The loop of the rod scan: runs `Step` over the whole list, appending
      the current column whenever an iteration records it. `starts` holds the
      entry where each recorded rod begins. */
  method ScanLoop(pts: seq<Point>, rows: nat) returns (rodColumns: seq<int>, ghost starts: seq<int>)
    requires ColumnMajor(pts)
    requires forall k :: 0 <= k < |pts| ==> pts[k].col > 0
    ensures OutputInv(pts, rows, |pts|, starts, rodColumns)
    ensures StrictlyIncreasing(rodColumns)
    ensures forall i :: 0 <= i < |rodColumns| ==> IsRodColumn(pts, rows, rodColumns[i])
  {
    var st := Initial;
    rodColumns := [];
    ghost var start := 0;
    starts := [];
    var n := 0;
    while n < |pts|
      invariant RegistersInv(pts, rows, n, st, start)
      invariant OutputInv(pts, rows, n, starts, rodColumns)
    {
      ScanStep(pts, rows, n, st, start, starts, rodColumns);
      var r := Step(st, pts[n], rows);
      start := NextStart(pts, rows, n, st, start);
      starts := if r.1 then starts + [start] else starts;
      rodColumns := if r.1 then rodColumns + [r.0.currentX] else rodColumns;
      st := r.0;
      n := n + 1;
    }
    forall i | 0 <= i < |rodColumns|
      ensures IsRodColumn(pts, rows, rodColumns[i])
    {
      assert pts[starts[i]].col == rodColumns[i];
    }
  }

  /** The rod scan (`for i < pointCount`) over a column-major foreground list:
      returns the columns it records, in the order it records them. Column 0
      never occurs: the extractor always trims it, and the scan uses 0 for
      "no column". */
  method ScanRods(pts: seq<Point>, rows: nat) returns (rodColumns: seq<int>)
    requires ColumnMajor(pts)
    requires forall k :: 0 <= k < |pts| ==> pts[k].col > 0
    ensures StrictlyIncreasing(rodColumns)
    ensures forall c :: c in rodColumns <==> IsRodColumn(pts, rows, c)
    ensures forall i :: 0 <= i < |rodColumns| ==> rodColumns[i] in Columns(pts)
    ensures |rodColumns| <= |Columns(pts)|
    ensures (forall k :: 0 <= k < |pts| ==> rows / 8 < pts[k].col < rows * 7 / 8) ==>
              |rodColumns| <= rows
  {
    ghost var starts;
    rodColumns, starts := ScanLoop(pts, rows);
    ScanResult(pts, rows, starts, rodColumns);
  }

  /** The x estimate: the truncated mean of the rod columns, or 0 when no
      column holds a rod. */
  method EstimateX(pts: seq<Point>, rows: nat) returns (centreX: int, rodColumns: seq<int>)
    requires ColumnMajor(pts)
    requires forall k :: 0 <= k < |pts| ==> pts[k].col > 0
    ensures StrictlyIncreasing(rodColumns)
    ensures forall c :: c in rodColumns <==> IsRodColumn(pts, rows, c)
    ensures forall i :: 0 <= i < |rodColumns| ==> rodColumns[i] in Columns(pts)
    ensures (forall k :: 0 <= k < |pts| ==> rows / 8 < pts[k].col < rows * 7 / 8) ==>
              |rodColumns| <= rows
    ensures |rodColumns| == 0 ==> centreX == 0
    ensures |rodColumns| > 0 ==>
              centreX == TruncDiv(Sum(rodColumns), |rodColumns|) &&
              rodColumns[0] <= centreX <= rodColumns[|rodColumns| - 1]
  {
    rodColumns := ScanRods(pts, rows);
    if |rodColumns| > 0 {
      var sum := Sum(rodColumns);
      MeanBounds(rodColumns, rodColumns[0], rodColumns[|rodColumns| - 1]);
      centreX := TruncDiv(sum, |rodColumns|);
    } else {
      centreX := 0;
    }
  }
}
