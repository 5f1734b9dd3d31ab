/** Integer helpers shared by the estimators: C's truncating division, sums and
    means of integer lists. */
module Arith {

  /** C's `/` on `int`: the quotient is truncated toward zero (Dafny's `/` is
      Euclidean, which differs when the dividend is negative). */
  function TruncDiv(a: int, b: int): (q: int)
    requires b > 0
    ensures a >= 0 ==> 0 <= a - q * b < b
    ensures a < 0 ==> -b < a - q * b <= 0
  {
    if a >= 0 then a / b else -((-a) / b)
  }

  /** Sum of a list, accumulated front to back. */
  function Sum(s: seq<int>): (total: int)
  {
    if |s| == 0 then 0 else Sum(s[..|s| - 1]) + s[|s| - 1]
  }

  lemma SumAppend(s: seq<int>, x: int)
    ensures Sum(s + [x]) == Sum(s) + x
  {
    assert (s + [x])[..|s|] == s;
  }

  /** Every element strictly smaller than its successor. */
  predicate StrictlyIncreasing(s: seq<int>) {
    forall a, b :: 0 <= a < b < |s| ==> s[a] < s[b]
  }

  /** Every element strictly greater than its successor. */
  predicate StrictlyDecreasing(s: seq<int>) {
    forall a, b :: 0 <= a < b < |s| ==> s[a] > s[b]
  }

  /** A sum of `|s|` values in `[lo, hi]` lies in `[|s| * lo, |s| * hi]`. */
  lemma {:induction false} SumBounds(s: seq<int>, lo: int, hi: int)
    requires forall k :: 0 <= k < |s| ==> lo <= s[k] <= hi
    ensures |s| * lo <= Sum(s) <= |s| * hi
  {
    if |s| > 0 {
      SumBounds(s[..|s| - 1], lo, hi);
      assert (|s| - 1) * lo + lo == |s| * lo;
      assert (|s| - 1) * hi + hi == |s| * hi;
    }
  }

  /** The truncated mean of values in `[lo, hi]` (with `lo >= 0`) stays in `[lo, hi]`. */
  lemma MeanBounds(s: seq<int>, lo: int, hi: int)
    requires |s| > 0 && 0 <= lo
    requires forall k :: 0 <= k < |s| ==> lo <= s[k] <= hi
    ensures Sum(s) >= 0
    ensures lo <= TruncDiv(Sum(s), |s|) <= hi
  {
    SumBounds(s, lo, hi);
    DivBounds(Sum(s), |s|, lo, hi);
  }

  /** `n * lo <= t <= n * hi` places the quotient `t / n` in `[lo, hi]`. */
  lemma DivBounds(t: int, n: int, lo: int, hi: int)
    requires n > 0 && n * lo <= t <= n * hi
    ensures lo <= t / n <= hi
  {
    var q := t / n;
    assert t == n * q + t % n && 0 <= t % n < n;
    if q < lo {
      MulMonotone(n, q + 1, lo);
    }
    if q > hi {
      MulMonotone(n, hi + 1, q);
    }
  }

  lemma MulMonotone(n: int, a: int, b: int)
    requires n >= 0 && a <= b
    ensures n * a <= n * b
  {
    assert n * b - n * a == n * (b - a);
  }

  /** A strictly increasing list of values in the open interval `(lo, hi)` has
      at most `hi - lo - 1` elements. */
  lemma {:induction false} IncreasingWithin(s: seq<int>, lo: int, hi: int)
    requires StrictlyIncreasing(s)
    requires forall k :: 0 <= k < |s| ==> lo < s[k] < hi
    ensures |s| <= if hi - lo - 1 < 0 then 0 else hi - lo - 1
  {
    if |s| > 0 {
      var last := s[|s| - 1];
      IncreasingWithin(s[..|s| - 1], lo, last);
    }
  }

  /** A strictly increasing list holds `|s|` distinct values. */
  lemma {:induction false} IncreasingDistinct(s: seq<int>)
    requires StrictlyIncreasing(s)
    ensures |set k | 0 <= k < |s| :: s[k]| == |s|
  {
    if |s| > 0 {
      var init := s[..|s| - 1];
      IncreasingDistinct(init);
      var a := set k | 0 <= k < |init| :: init[k];
      var b := set k | 0 <= k < |s| :: s[k];
      assert b == a + {s[|s| - 1]};
      assert s[|s| - 1] !in a;
    }
  }

  /** A subset is no larger than its superset. */
  lemma SubsetSize<T>(a: set<T>, b: set<T>)
    requires a <= b
    ensures |a| <= |b|
  {
    assert b == a + (b - a);
    assert a * (b - a) == {};
  }
}
