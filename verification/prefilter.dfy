/** The foreground extractor (`preFiltering`): masks the frame, thresholds it,
    lists the surviving pixels in column-major order and rewrites a working copy
    of the frame to black and white. */
module PreFilter {
  import opened Frame

  /** Pixel `(i, j)` survives the extractor: it lies above row `cols / 2` (the
      mask compares the row index with the column count), strictly between
      columns `rows / 8` and `rows * 7 / 8` (the trims use the row count), and
      is brighter than the cutoff. */
  predicate Kept(img: Image, lower: int, i: nat, j: nat)
    requires img.Valid()
  {
    && i < img.rows && j < img.cols
    && i < img.cols / 2
    && img.rows / 8 < j < img.rows * 7 / 8
    && img.pixels[i][j] > lower
  }

  /** The value the extractor writes into the working copy at `(i, j)`. */
  function Filtered(img: Image, lower: int, i: nat, j: nat): (v: Intensity)
    requires img.Valid()
  {
    if Kept(img, lower, i, j) then 255 else 0
  }

  /** The working pixels have the frame's shape. */
  predicate Grid(img: Image, pix: seq<seq<Intensity>>) {
    Image(img.rows, img.cols, pix).Valid()
  }

  /** Walks the frame column by column (outer `j`), row by row (inner `i`);
      returns the foreground list and the black-and-white working copy. */
  method PreFiltering(img: Image, lower: int) returns (pts: seq<Point>, work: Image)
    requires img.Valid()
    ensures work.Valid() && work.rows == img.rows && work.cols == img.cols
    ensures ColumnMajor(pts)
    ensures forall p :: p in pts <==> Kept(img, lower, p.row, p.col)
    ensures forall p :: p in pts ==>
              p.row < img.cols / 2 && img.rows / 8 < p.col < img.rows * 7 / 8 && p.row < img.rows && p.col < img.cols
    ensures forall i, j :: 0 <= i < img.rows && 0 <= j < img.cols ==>
              work.pixels[i][j] == (if Point(i, j) in pts then 255 else 0)
    ensures |pts| == |KeptSet(img, lower)|
  {
    var pix := img.pixels;
    pts := [];
    var j := 0;
    while j < img.cols
      invariant 0 <= j <= img.cols
      invariant Grid(img, pix)
      invariant ColumnMajor(pts)
      invariant forall k :: 0 <= k < |pts| ==> pts[k].col < j
      invariant forall p :: p in pts <==> p.col < j && Kept(img, lower, p.row, p.col)
      invariant forall i, c :: 0 <= i < img.rows && 0 <= c < img.cols ==>
                  pix[i][c] == if c < j then Filtered(img, lower, i, c) else img.pixels[i][c]
    {
      pts, pix := FilterColumn(img, lower, j, pts, pix);
      j := j + 1;
    }
    work := Image(img.rows, img.cols, pix);
    ListLengthIsKeptCount(img, lower, pts);
  }

  /** The inner loop of the extractor: filters column `j` top to bottom,
      appending its surviving pixels to the list and rewriting its cells. */
  method FilterColumn(img: Image, lower: int, j: nat, pts0: seq<Point>, pix0: seq<seq<Intensity>>)
    returns (pts: seq<Point>, pix: seq<seq<Intensity>>)
    requires img.Valid() && j < img.cols && Grid(img, pix0)
    requires ColumnMajor(pts0)
    requires forall k :: 0 <= k < |pts0| ==> pts0[k].col < j
    requires forall p :: p in pts0 <==> p.col < j && Kept(img, lower, p.row, p.col)
    requires forall i, c :: 0 <= i < img.rows && 0 <= c < img.cols ==>
               pix0[i][c] == if c < j then Filtered(img, lower, i, c) else img.pixels[i][c]
    ensures Grid(img, pix)
    ensures ColumnMajor(pts)
    ensures forall k :: 0 <= k < |pts| ==> pts[k].col <= j
    ensures forall p :: p in pts <==> p.col <= j && Kept(img, lower, p.row, p.col)
    ensures forall i, c :: 0 <= i < img.rows && 0 <= c < img.cols ==>
              pix[i][c] == if c <= j then Filtered(img, lower, i, c) else img.pixels[i][c]
  {
    pts, pix := pts0, pix0;
    var i := 0;
    while i < img.rows
      invariant 0 <= i <= img.rows
      invariant ListInv(img, lower, j, i, pts)
      invariant GridInv(img, lower, j, i, pix)
    {
      GridStep(img, lower, j, i, pix);
      ListStep(img, lower, j, i, pts);
      var v: Intensity :=
        if i >= img.cols / 2 then 0
        else if j <= img.rows / 8 then 0
        else if j >= img.rows * 7 / 8 then 0
        else if pix[i][j] <= lower then 0
        else 255;
      if v == 255 {
        pts := pts + [Point(i, j)];
      }
      pix := SetCell(pix, i, j, v);
      i := i + 1;
    }
  }

  /** `pix` with cell `(i, j)` set to `v`. */
  function SetCell(pix: seq<seq<Intensity>>, i: nat, j: nat, v: Intensity): (pix': seq<seq<Intensity>>)
    requires i < |pix| && j < |pix[i]|
  {
    var cells: seq<Intensity> := pix[i][j := v];
    pix[i := cells]
  }

  /** The list after the inner loop has visited rows `0 .. i - 1` of column
      `j`: column-major, and holding exactly the surviving pixels visited so far. */
  ghost predicate ListInv(img: Image, lower: int, j: nat, i: nat, pts: seq<Point>)
    requires img.Valid()
  {
    && ColumnMajor(pts)
    && (forall k :: 0 <= k < |pts| ==> pts[k].col < j || (pts[k].col == j && pts[k].row < i))
    && (forall p :: p in pts <==> (p.col < j || (p.col == j && p.row < i)) && Kept(img, lower, p.row, p.col))
  }

  /** The working pixels after the inner loop has visited rows `0 .. i - 1` of
      column `j`: visited cells are filtered, the rest still hold the frame. */
  ghost predicate GridInv(img: Image, lower: int, j: nat, i: nat, pix: seq<seq<Intensity>>)
    requires img.Valid()
  {
    && Grid(img, pix)
    && (forall r, c :: 0 <= r < img.rows && 0 <= c < img.cols ==>
          pix[r][c] == if c < j || (c == j && r < i) then Filtered(img, lower, r, c) else img.pixels[r][c])
  }

  /** Visiting cell `(i, j)`: it still holds the frame's value, and writing its
      filtered value advances the grid invariant by one row. */
  lemma GridStep(img: Image, lower: int, j: nat, i: nat, pix: seq<seq<Intensity>>)
    requires img.Valid() && i < img.rows && j < img.cols
    requires GridInv(img, lower, j, i, pix)
    ensures pix[i][j] == img.pixels[i][j]
    ensures GridInv(img, lower, j, i + 1, SetCell(pix, i, j, Filtered(img, lower, i, j)))
  {
  }

  /** Visiting cell `(i, j)` appends it exactly when it survives. */
  lemma ListStep(img: Image, lower: int, j: nat, i: nat, pts: seq<Point>)
    requires img.Valid() && i < img.rows && j < img.cols
    requires ListInv(img, lower, j, i, pts)
    ensures ListInv(img, lower, j, i + 1, if Kept(img, lower, i, j) then pts + [Point(i, j)] else pts)
  {
    var q := Point(i, j);
    if Kept(img, lower, i, j) {
      forall k | 0 <= k < |pts|
        ensures Before(pts[k], q)
      {
      }
      AppendAfter(pts, q);
      forall p
        ensures p in pts + [q] <==>
                (p.col < j || (p.col == j && p.row < i + 1)) && Kept(img, lower, p.row, p.col)
      {
      }
    } else {
      forall p
        ensures p in pts <==>
                (p.col < j || (p.col == j && p.row < i + 1)) && Kept(img, lower, p.row, p.col)
      {
      }
    }
  }

  /** Appending a point that follows every listed point keeps the list
      column-major. */
  lemma AppendAfter(pts: seq<Point>, q: Point)
    requires ColumnMajor(pts)
    requires forall k :: 0 <= k < |pts| ==> Before(pts[k], q)
    ensures ColumnMajor(pts + [q])
  {
  }

  /** The extractor's point buffers hold this many entries each. */
  const PointCapacity := 10000

  /** The coordinates of all pixels that survive the extractor. */
  function KeptSet(img: Image, lower: int): (kept: set<Point>)
    requires img.Valid()
  {
    set i: nat, j: nat | i < img.rows && j < img.cols && Kept(img, lower, i, j) :: Point(i, j)
  }

  /** The extractor as written stores point number `pointCount` at that index
      of its buffers for every surviving pixel: its writes stay inside the
      buffers only when at most `PointCapacity` pixels survive. */
  predicate FitsPointBuffers(img: Image, lower: int)
    requires img.Valid()
  {
    |KeptSet(img, lower)| <= PointCapacity
  }

  /** A column-major list holding exactly the surviving pixels is as long as
      the number of surviving pixels, so `pointCount` counts them. */
  lemma {:induction false} ListLengthIsKeptCount(img: Image, lower: int, pts: seq<Point>)
    requires img.Valid()
    requires ColumnMajor(pts)
    requires forall p :: p in pts <==> Kept(img, lower, p.row, p.col)
    ensures |pts| == |KeptSet(img, lower)|
  {
    var listed := set k | 0 <= k < |pts| :: pts[k];
    forall p | p in KeptSet(img, lower)
      ensures p in listed
    {
      assert p in pts;
      var k :| 0 <= k < |pts| && pts[k] == p;
    }
    forall p | p in listed
      ensures p in KeptSet(img, lower)
    {
      var k :| 0 <= k < |pts| && pts[k] == p;
      assert p in pts;
    }
    assert KeptSet(img, lower) == listed;
    DistinctPoints(pts);
  }

  /** A column-major list holds `|pts|` distinct points. */
  lemma {:induction false} DistinctPoints(pts: seq<Point>)
    requires ColumnMajor(pts)
    ensures |set k | 0 <= k < |pts| :: pts[k]| == |pts|
  {
    if |pts| > 0 {
      var init := pts[..|pts| - 1];
      DistinctPoints(init);
      var a := set k | 0 <= k < |init| :: init[k];
      assert (set k | 0 <= k < |pts| :: pts[k]) == a + {pts[|pts| - 1]};
      assert pts[|pts| - 1] !in a by {
        forall k | 0 <= k < |init|
          ensures init[k] != pts[|pts| - 1]
        {
          assert Before(pts[k], pts[|pts| - 1]);
        }
      }
    }
  }

  /** The rows `0 .. height - 1` of column `j`. */
  function ColumnCells(height: nat, j: nat): (cells: set<Point>) {
    set i: nat | i < height :: Point(i, j)
  }

  /** The rows `0 .. height - 1` of columns `a .. b - 1`. */
  function Block(height: nat, a: nat, b: nat): (cells: set<Point>) {
    set i: nat, j: nat | i < height && a <= j < b :: Point(i, j)
  }

  lemma {:induction false} ColumnCellsSize(height: nat, j: nat)
    ensures |ColumnCells(height, j)| == height
  {
    if height > 0 {
      ColumnCellsSize(height - 1, j);
      assert ColumnCells(height, j) == ColumnCells(height - 1, j) + {Point(height - 1, j)};
    }
  }

  lemma {:induction false} BlockSize(height: nat, a: nat, b: nat)
    requires a <= b
    ensures |Block(height, a, b)| == height * (b - a)
    decreases b - a
  {
    if a < b {
      BlockSize(height, a, b - 1);
      ColumnCellsSize(height, b - 1);
      assert Block(height, a, b) == Block(height, a, b - 1) + ColumnCells(height, b - 1);
      assert Block(height, a, b - 1) * ColumnCells(height, b - 1) == {};
      assert height * (b - a) == height * (b - 1 - a) + height;
    }
  }

  /** A 424 x 512 (rows x cols) depth frame, the sensor's resolution, with
      every sample at full brightness. */
  function BrightFrame(): (img: Image)
    ensures img.Valid()
  {
    Image(424, 512, seq(424, _ => seq(512, _ => 255)))
  }

  /** With the configured cutoff of 91, the bright frame keeps rows 0 .. 255
      of columns 54 .. 370: 81152 pixels, far more than the buffers hold. */
  lemma PointBuffersOverflow()
    ensures |KeptSet(BrightFrame(), 91)| == 256 * 317
    ensures !FitsPointBuffers(BrightFrame(), 91)
  {
    var img := BrightFrame();
    assert KeptSet(img, 91) == Block(256, 54, 371) by {
      forall p | p in Block(256, 54, 371)
        ensures p in KeptSet(img, 91)
      {
        assert Kept(img, 91, p.row, p.col);
      }
    }
    BlockSize(256, 54, 371);
  }
}
