/** The arithmetic of the dashboards' figures: `reduce` sums, means and `Math.round` percentages. */
module Metrics {

  /** `s.reduce((a, b) => a + b, 0)`. */
  function Sum(s: seq<int>): int {
    if s == [] then 0 else Sum(s[..|s| - 1]) + s[|s| - 1]
  }

  lemma {:induction false} SumBounds(s: seq<int>, lo: int, hi: int)
    requires forall i :: 0 <= i < |s| ==> lo <= s[i] <= hi
    ensures |s| * lo <= Sum(s) <= |s| * hi
  {
    if s != [] {
      SumBounds(s[..|s| - 1], lo, hi);
      assert (|s| - 1) * lo + lo == |s| * lo;
      assert (|s| - 1) * hi + hi == |s| * hi;
    }
  }

  /** The sum of a non-empty list divided by its length. */
  function Mean(s: seq<int>): real
    requires |s| > 0
  {
    Sum(s) as real / |s| as real
  }

  /** A mean lies between any lower and any upper bound of the values. */
  lemma MeanBounds(s: seq<int>, lo: int, hi: int)
    requires |s| > 0
    requires forall i :: 0 <= i < |s| ==> lo <= s[i] <= hi
    ensures lo as real <= Mean(s) <= hi as real
  {
    SumBounds(s, lo, hi);
    var n := |s| as real;
    var t := Sum(s) as real;
    assert n * lo as real <= t <= n * hi as real;
    assert n * (t / n) == t;
    DivideBounds(n, lo as real, t / n);
    DivideBounds(n, t / n, hi as real);
  }

  lemma DivideBounds(n: real, a: real, b: real)
    requires n > 0.0 && n * a <= n * b
    ensures a <= b
  {
  }

  /**
   * `d > 0 ? Math.round(n / d * 100) : 0`: the whole percentage nearest to
   * `100 n / d`, halves rounded up, and 0 when there is nothing to divide by.
   */
  function RoundPercent(n: nat, d: nat): (r: nat)
    ensures d == 0 ==> r == 0
    ensures d > 0 ==> 2 * d * r <= 200 * n + d < 2 * d * (r + 1)
    ensures d > 0 && n <= d ==> r <= 100
    ensures d > 0 && n == d ==> r == 100
  {
    if d == 0 then 0 else
      RoundingFacts(n, d);
      (200 * n + d) / (2 * d)
  }

  lemma RoundingFacts(n: nat, d: nat)
    requires d > 0
    ensures var r := (200 * n + d) / (2 * d);
      && 2 * d * r <= 200 * n + d < 2 * d * (r + 1)
      && (n <= d ==> r <= 100)
      && (n == d ==> r == 100)
  {
    DivBounds(200 * n + d, 2 * d);
    if n <= d {
      assert 200 * n + d < 2 * d * 101;
      DivMonotone(200 * n + d, 2 * d, 101);
    }
    if n == d {
      assert 200 * n + d == 2 * d * 100 + d;
      DivExact(d, 100, 2 * d);
    }
  }

  lemma DivBounds(x: nat, y: nat)
    requires y > 0
    ensures y * (x / y) <= x < y * (x / y + 1)
  {
  }

  lemma MulLe(a: int, x: int, y: int)
    requires a >= 0 && x <= y
    ensures a * x <= a * y
  {
    assert a * y - a * x == a * (y - x);
  }

  lemma DivMonotone(x: nat, y: nat, k: nat)
    requires y > 0 && x < y * k
    ensures x / y < k
  {
    DivBounds(x, y);
    if x / y >= k {
      MulLe(y, k, x / y);
      assert false;
    }
  }

  lemma DivExact(d: nat, k: nat, y: nat)
    requires y > 0 && d < y
    ensures (y * k + d) / y == k
  {
    DivBounds(y * k + d, y);
    var q := (y * k + d) / y;
    if q < k {
      MulLe(y, q + 1, k);
      assert false;
    } else if q > k {
      MulLe(y, k + 1, q);
      assert false;
    }
  }

  /** The rounded percentage is 100 exactly when `100 n / d` is at least 99.5. */
  lemma RoundPercentFull(n: nat, d: nat)
    requires 0 < d && n <= d
    ensures RoundPercent(n, d) == 100 <==> 200 * n >= 199 * d
  {
    var r := RoundPercent(n, d);
    if 200 * n >= 199 * d {
      if r < 100 {
        MulLe(2 * d, r + 1, 100);
        assert false;
      }
    } else {
      if r >= 100 {
        MulLe(2 * d, 100, r);
        assert false;
      }
    }
  }
}
