# Kinect ring detector — a Dafny model

This project models the detection core of `KinectTest/kinect-filtering-dynamic.cpp`.
That core locates a ring-shaped target in one 8-bit grey depth frame:

- `preFiltering` masks and thresholds the frame. It lists the surviving
  ("white") pixels column by column and rewrites a working copy of the frame to
  0/255. When at least one pixel survives, it calls `drawBoundingArea`.
- `drawBoundingArea` makes three estimates in turn:
  - the x centre, as the mean of the columns holding a vertical "rod";
  - the y centre, as the mean of the rows whose probe circle around that x is
    sparse;
  - the radius, as the largest probe circle around that centre that stays
    sparse.

Modules:

- `Frame`: frames, pixel coordinates and the column-major list order.
- `Arith`: C's truncating division, sums and truncated means.
- `PreFilter`: the foreground extractor.
- `CentreX`: the rod scan and the x estimate.
- `Probe`: counting points inside a probe circle.
- `CentreY`: the row scan and the y estimate.
- `Radius`: the radius search.
- `Pipeline`: `drawBoundingArea`, and `preFiltering` together with its
  `pointCount > 0` guard.

A point is `Point(row, col)`. Its `row` is `whitePoints[0]` (the `i` of
`image.at(i, j)`) and its `col` is `whitePoints[1]`. `pow(d, 2)` on these small
integers is modelled as `d * d`.

The model follows the code literally, including these quirks:

- The row mask compares the row index with `cols / 2`, not with half the row
  count.
- The column trims use `rows / 8` and `rows * 7 / 8`, with `<=` and `>=`.
- The y scan starts at row `cols / 2`.
- A rod needs `rodLength + 1` = 31 consecutive rows. The run counter starts at
  0 on a column's first point. `CentreX.ShortRunIsNotRod` and
  `CentreX.RunIsRod` pin down this boundary.
- `blackZone` is set once more than 10 sparse rows have been seen in total.
  They need not be consecutive. The test comes before the current row is
  counted, so the last row visited never contributes to it.
- The radius is at most 49, because the loop runs `i` over `0 .. 49`.
- A centre coordinate that is not found stays 0. Only a diagnostic line
  reports it, which the model keeps as the `xFound` / `yFound` flags.

## Model

| member | source | states |
|---|---|---|
| PreFilter.PreFiltering | KinectTest/kinect-filtering-dynamic.cpp:152-184 | The list is strictly column-major: columns ascend, rows strictly ascend within a column, and no point repeats. A pixel is listed exactly when its row is below `cols/2`, its column lies strictly between `rows/8` and `rows*7/8`, and its intensity exceeds the cutoff. So masked or trimmed pixels never appear, whatever their intensity. The working frame has the same shape and is 255 exactly at listed coordinates and 0 elsewhere. The list length (`pointCount`) is the number of surviving pixels. |
| PreFilter.FilterColumn | KinectTest/kinect-filtering-dynamic.cpp:164-183 | One pass of the inner loop over column `j`. It appends exactly the surviving pixels of column `j`, after every earlier point, in row order. It rewrites column `j` to 0/255 and leaves later columns untouched. |
| PreFilter.ListLengthIsKeptCount | KinectTest/kinect-filtering-dynamic.cpp:179-181 | A column-major list that holds exactly the surviving pixels is as long as the set of surviving pixels. So `pointCount` counts distinct pixels. |
| PreFilter.PointBuffersOverflow | KinectTest/kinect-filtering-dynamic.cpp:157-159 | A 424 x 512 frame at full brightness, with the cutoff 91, keeps 256 * 317 = 81152 pixels. That is more than the 10000 entries of each point buffer. |
| Frame.ColumnMajorUnique | KinectTest/kinect-filtering-dynamic.cpp:163-164 | Two column-major lists holding the same points are equal. So the extractor's list is the one sorted listing of the surviving pixels that the rod scan relies on. |
| CentreX.Step | KinectTest/kinect-filtering-dynamic.cpp:57-83 | A point above row `rows/2` resets `currentX` to 0 and records nothing. A point at or below that row leaves `currentX` at its column. An iteration records a column only in the same column, only when `chosen` was clear (and then sets it), and only once the run counter has reached `rodLength`. |
| CentreX.ScanRods | KinectTest/kinect-filtering-dynamic.cpp:46-85 | A column is recorded exactly when it is a rod column. That means its points at or below row `rows/2` begin with `rodLength + 1` list entries on consecutive rows. A gap before then disqualifies the column for good. The recorded columns strictly increase, so each column is recorded at most once. They are columns of the list, and there are no more of them than distinct columns. When every column lies inside the trims, there are at most `rows` of them, so `rowWhiteNumber` (which holds `image.rows` entries) is never overrun. |
| CentreX.ScanLoop | KinectTest/kinect-filtering-dynamic.cpp:51-85 | The loop runs the register updates over the whole list. Its output is strictly increasing, and every column it holds is a rod column. Through the output invariant, it holds the column of every rod in the list, and `starts` gives the entry where each rod begins. |
| CentreX.ScanResult | KinectTest/kinect-filtering-dynamic.cpp:54-85 | From the scan's output invariant over the whole list: the output holds exactly the rod columns, each a column of the list, and at most as many as the list has distinct columns. |
| CentreX.ShortRunIsNotRod | KinectTest/kinect-filtering-dynamic.cpp:65-78 | A column of exactly `rodLength` consecutive rows starting at row `rows/2` is not a rod. |
| CentreX.RunIsRod | KinectTest/kinect-filtering-dynamic.cpp:65-78 | A column of `rodLength + 1` consecutive rows starting at row `rows/2` is a rod. |
| CentreX.EstimateX | KinectTest/kinect-filtering-dynamic.cpp:51-94 | `centre.x` is the truncated mean of the recorded rod columns. It lies between the smallest and largest of them. When no column was recorded it stays 0. |
| Arith.TruncDiv | KinectTest/kinect-filtering-dynamic.cpp:91 | C's integer `/` truncates toward zero. For a non-negative dividend the remainder `a - q*b` lies in `[0, b)`. For a negative dividend it lies in `(-b, 0]`. Every dividend in the model is a sum of natural numbers, so only the first case arises. |
| Arith.MeanBounds | KinectTest/kinect-filtering-dynamic.cpp:87-92 | The truncated mean of a non-empty list of non-negative values in `[lo, hi]` lies in `[lo, hi]`, and their sum is non-negative. |
| Probe.CountInside | KinectTest/kinect-filtering-dynamic.cpp:99-107 | The probe loop's count is the number of list entries strictly inside the probe circle, compared on squared distances. |
| Probe.ProbeCountMonotone | KinectTest/kinect-filtering-dynamic.cpp:129-137 | A larger squared radius around the same centre encloses at least as many points. |
| Probe.ProbeCountEmptyCircle | KinectTest/kinect-filtering-dynamic.cpp:135 | The test `dX + dY < i*i` encloses no point when `i` is 0, or for any squared radius at or below 0. |
| CentreY.SparseRowsOrdered | KinectTest/kinect-filtering-dynamic.cpp:98-117 | The accumulated rows come in strictly decreasing scan order, all inside the scanned range. |
| CentreY.SparseRowsMembers | KinectTest/kinect-filtering-dynamic.cpp:98-117 | A row is accumulated exactly when it lies in the scanned range and its probe holds at most 10 points. |
| CentreY.SparseRowsGrow | KinectTest/kinect-filtering-dynamic.cpp:109-110 | Scanning on toward row 0 never lowers the number of sparse rows seen. So once `blackZone` is set it stays set. |
| CentreY.ScanRows | KinectTest/kinect-filtering-dynamic.cpp:96-118 | The loop stops at the first row, scanning from row `cols/2` down to row 0 (toward the top of the image), where it is in the black zone and the probe count is at least 20. Otherwise it runs to row 0 and reports -1. `blackZone` holds exactly when more than 10 sparse rows were seen before the last row visited (the break row, or row 0), which implies `countList > 10`. If the scan runs to row 0 and row 0 is the 11th sparse row, `countList` ends at 11 while `blackZone` stays false. An early exit happens only in the black zone. `countList` and `listOfHeight` are the count and sum of the sparse rows scanned before the exit row. |
| CentreY.EstimateY | KinectTest/kinect-filtering-dynamic.cpp:96-124 | Everything `ScanRows` states holds here too. If `countList > 0`, `centre.y` is the truncated mean of the sparse rows, between the lowest and highest of them, so inside `[0, cols/2]`. Otherwise it is 0. |
| Radius.EstimateRadius | KinectTest/kinect-filtering-dynamic.cpp:126-145 | `largestRadius` is in `[0, 49]`. Every radius up to it encloses at most 10 points, and every radius above it up to 49 encloses more than 10. So it is the first radius holding more than 10 points minus one, or 49 when there is none. |
| Pipeline.DrawBoundingArea | KinectTest/kinect-filtering-dynamic.cpp:41-150 | The result satisfies `Estimates`. The recorded rod columns are exactly the rod columns, strictly increasing. x is found exactly when one exists, and it is then their truncated mean and lies between two columns of the list. Otherwise x is 0. The y scan breaks at the first row from `cols/2` down where `StopsAt` holds around that x. y is found exactly when a sparse row was scanned before the break, and it is then their truncated mean in `(stop, cols/2]`. Otherwise y is 0. The radius is the first radius around that centre holding more than 10 points, minus one, or 49. |
| Pipeline.Detect | KinectTest/kinect-filtering-dynamic.cpp:152-188 | The foreground list is column-major and holds exactly the surviving pixels. The estimators run exactly when that list is non-empty, so a frame at or below the cutoff everywhere gives no detection. When they run, the detection satisfies `Estimates` for that list. A found x lies strictly inside the column trims, and a found y lies in `[0, cols/2]`. The working frame is 255 exactly at surviving pixels. |

## Left out

- Sensor initialisation and teardown, `main`'s acquisition loop, the 16-to-8-bit
  conversion, display, key handling and image export: these are foreign SDK
  calls and I/O.
- `colorCalculation`: it computes the cutoff with double-precision `sqrt` and
  `pow`, so the cutoff is a parameter of `Pipeline.Detect`. The truncation on
  its line 36 gives 91 with the configured geometry; rounding would give 92.
- The `cout` diagnostics and the commented-out `circle` drawing: they are
  output only. A missing centre coordinate shows in the `xFound` / `yFound`
  flags.
- The `rowWhiteNumber[0..9] = -1` initialisation: the scan never reads an entry
  it has not written.
- `malloc` and the fixed point buffers: the list is an unbounded sequence (see
  Findings).
- CentreX.ScanRods: it requires a column-major list with no point in column 0.
  The extractor always guarantees this, because column 0 is trimmed. The scan
  also uses column 0 as its "no column" marker, and other inputs to
  `drawBoundingArea` are not modelled.
- CentreX.EstimateX: it has the same requirement as `ScanRods`, for the same
  reason.
- Pipeline.DrawBoundingArea: it has the same requirement as `ScanRods`, for the
  same reason.
- Coordinates are natural numbers and all arithmetic is unbounded. The values
  involved (at most a few hundred pixels, sums of at most a few hundred of
  them) stay far from the 32-bit range.

## Findings

| source | as written | input that shows it | evidently intended | confidence | as-written member | corrected member |
|---|---|---|---|---|---|---|
| KinectTest/kinect-filtering-dynamic.cpp:157-159 | Each point buffer holds 10000 entries, and every surviving pixel is written at index `pointCount` with no bound check (lines 179-181) | A 424 x 512 frame at full brightness with cutoff 91 keeps 81152 pixels, so writes pass the end of both buffers | Every surviving pixel is listed | not executed | PreFilter.PointBuffersOverflow | PreFilter.PreFiltering |
