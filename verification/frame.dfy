/** Grey frames, pixel coordinates and the column-major order in which the
    extractor lists foreground pixels. */
module Frame {

  /** One unsigned 8-bit grey sample. */
  type Intensity = x: int | 0 <= x < 256

  /** A `rows` x `cols` grey frame, addressed as `pixels[row][col]`. */
  datatype Image = Image(rows: nat, cols: nat, pixels: seq<seq<Intensity>>) {

    /** The pixel grid has exactly the declared dimensions. */
    predicate Valid() {
      |pixels| == rows && forall i :: 0 <= i < |pixels| ==> |pixels[i]| == cols
    }
  }

  /** A pixel coordinate: `row` is the first index of the frame, `col` the second. */
  datatype Point = Point(row: nat, col: nat)

  /** The strict column-major order: by column, then by row within a column. */
  predicate Before(p: Point, q: Point) {
    p.col < q.col || (p.col == q.col && p.row < q.row)
  }

  /** Columns never decrease along the list, and rows strictly increase within a
      column; in particular no coordinate occurs twice. */
  predicate ColumnMajor(pts: seq<Point>) {
    forall a, b :: 0 <= a < b < |pts| ==> Before(pts[a], pts[b])
  }

  /** The set of columns that occur in a point list. */
  function Columns(pts: seq<Point>): (cs: set<nat>) {
    set k | 0 <= k < |pts| :: pts[k].col
  }

  /** Column-major order is a strict total order, so a point list is determined
      by the set of coordinates it holds. */
  lemma {:induction false} ColumnMajorUnique(a: seq<Point>, b: seq<Point>)
    requires ColumnMajor(a) && ColumnMajor(b)
    requires forall p :: p in a <==> p in b
    ensures a == b
    decreases |a|
  {
    SameEmptiness(a, b);
    if |a| == 0 {
    } else {
      assert a[0] in a;
      assert |b| > 0;
      assert b[0] in b;
      var k :| 0 <= k < |b| && b[k] == a[0];
      var m :| 0 <= m < |a| && a[m] == b[0];
      assert a[0] == b[0];
      forall p
        ensures p in a[1..] <==> p in b[1..]
      {
        if p in a[1..] {
          var i :| 1 <= i < |a| && a[i] == p;
          assert Before(a[0], a[i]);
          assert p in b;
          var j :| 0 <= j < |b| && b[j] == p;
          assert j != 0;
          assert b[j] == b[1..][j - 1];
        }
        if p in b[1..] {
          var j :| 1 <= j < |b| && b[j] == p;
          assert Before(b[0], b[j]);
          assert p in a;
          var i :| 0 <= i < |a| && a[i] == p;
          assert i != 0;
          assert a[i] == a[1..][i - 1];
        }
      }
      ColumnMajorUnique(a[1..], b[1..]);
      assert a == [a[0]] + a[1..];
      assert b == [b[0]] + b[1..];
    }
  }

  /** Two lists holding the same points are both empty or both not. */
  lemma SameEmptiness(a: seq<Point>, b: seq<Point>)
    requires forall p :: p in a <==> p in b
    ensures |a| == 0 <==> |b| == 0
  {
    if |a| > 0 {
      assert a[0] in a;
    }
    if |b| > 0 {
      assert b[0] in b;
    }
  }
}
