/** The arithmetic behind the statistics: integer sums, the exact mean an SQL
    `AVG` over an integer column stands for, and Python's `round(x, digits)`
    (round half to even) taken on exact values. */
module Numeric {

  function Min(a: int, b: int): int {
    if a <= b then a else b
  }

  function Sum(xs: seq<int>): int {
    if |xs| == 0 then 0 else Sum(xs[..|xs| - 1]) + xs[|xs| - 1]
  }

  /** Every element lies in `[lo, hi]`. */
  predicate Within(xs: seq<int>, lo: int, hi: int) {
    forall i :: 0 <= i < |xs| ==> lo <= xs[i] <= hi
  }

  lemma {:induction false} SumBounds(xs: seq<int>, lo: int, hi: int)
    requires Within(xs, lo, hi)
    ensures |xs| * lo <= Sum(xs) <= |xs| * hi
  {
    if |xs| > 0 {
      var n := |xs| - 1;
      SumBounds(xs[..n], lo, hi);
      assert |xs| * lo == n * lo + lo;
      assert |xs| * hi == n * hi + hi;
    }
  }

  /** The mean of `xs`; 0 when there is nothing to average, as the source's
      `... or 0` fallback gives for an empty aggregate. */
  function Mean(xs: seq<int>): (m: real)
    ensures |xs| == 0 ==> m == 0.0
  {
    if |xs| == 0 then 0.0 else Sum(xs) as real / |xs| as real
  }

  /** The mean times the count is the sum. */
  lemma MeanTimesCount(xs: seq<int>)
    requires |xs| > 0
    ensures Mean(xs) * (|xs| as real) == Sum(xs) as real
  {
  }

  /** The mean of values in `[lo, hi]` lies in `[lo, hi]`. */
  lemma MeanBounds(xs: seq<int>, lo: int, hi: int)
    requires |xs| > 0
    requires Within(xs, lo, hi)
    ensures lo as real <= Mean(xs) <= hi as real
  {
    var n := |xs|;
    SumBounds(xs, lo, hi);
    ScaleToReal(n, lo);
    ScaleToReal(n, hi);
    DivBetween(Sum(xs) as real, lo as real, hi as real, n as real);
  }

  lemma ScaleToReal(n: int, k: int)
    ensures (n * k) as real == k as real * n as real
  {
  }

  lemma DivBetween(a: real, lo: real, hi: real, n: real)
    requires n > 0.0
    requires lo * n <= a <= hi * n
    ensures lo <= a / n <= hi
  {
  }

  /** The decimal places the source rounds to: `round(x, 1)` and `round(x, 2)`. */
  datatype Places = OneDecimal | TwoDecimals

  /** The fractional part of `y`, in `[0, 1)`. */
  function Frac(y: real): (f: real)
    ensures 0.0 <= f < 1.0
  {
    y - y.Floor as real
  }

  /** The integer nearest to `y`, halfway cases going to the even one. */
  function NearestInt(y: real): (n: int)
    ensures y - 0.5 <= n as real <= y + 0.5
    ensures Frac(y) == 0.5 ==> n % 2 == 0
  {
    var f := y.Floor;
    if Frac(y) < 0.5 then f
    else if Frac(y) > 0.5 then f + 1
    else if f % 2 == 0 then f
    else f + 1
  }

  /** `r` is the multiple of `1 / s` nearest to `x`, a tie going to the even
      multiple. */
  predicate NearestMultiple(x: real, r: real, s: real) {
    && (r * s).Floor as real == r * s
    && x * s - 0.5 <= r * s <= x * s + 0.5
    && (Frac(x * s) == 0.5 ==> (r * s).Floor % 2 == 0)
  }

  /** Dividing the nearest integer to `x * s` by `s` gives the nearest
      multiple of `1 / s`. */
  lemma OnGrid(x: real, s: real, n: int)
    requires s > 0.0
    requires n == NearestInt(x * s)
    ensures NearestMultiple(x, n as real / s, s)
  {
    var r := n as real / s;
    assert r * s == n as real;
    assert (r * s).Floor == n;
  }

  /** Python's `round(x, places)`: the multiple of 0.1 (or 0.01) nearest to
      `x`, halfway cases going to the even multiple. */
  function Round(x: real, places: Places): (r: real)
    ensures places == OneDecimal ==> NearestMultiple(x, r, 10.0)
    ensures places == TwoDecimals ==> NearestMultiple(x, r, 100.0)
  {
    var s := if places == OneDecimal then 10.0 else 100.0;
    var n := NearestInt(x * s);
    OnGrid(x, s, n);
    n as real / s
  }

  /** Zero rounds to zero. */
  lemma RoundZero(places: Places)
    ensures Round(0.0, places) == 0.0
  {
    assert NearestInt(0.0) == 0;
  }

  /** A rounded value is at most half a unit of its last digit away, so
      within 0.05 of the exact value. */
  lemma RoundClose(x: real, places: Places)
    ensures x - 0.05 <= Round(x, places) <= x + 0.05
  {
  }

  /** Rounding never leaves an integer range `[lo, hi]`. */
  lemma RoundWithin(x: real, places: Places, lo: int, hi: int)
    requires lo as real <= x <= hi as real
    ensures lo as real <= Round(x, places) <= hi as real
  {
    var r := Round(x, places);
    // r times the scale is an integer, within half a unit of the scaled x,
    // and the scaled bounds are integers
    if places == OneDecimal {
      var m := (r * 10.0).Floor;
      assert (lo * 10) as real == lo as real * 10.0;
      assert (hi * 10) as real == hi as real * 10.0;
      assert lo * 10 <= m <= hi * 10;
    } else {
      var m := (r * 100.0).Floor;
      assert (lo * 100) as real == lo as real * 100.0;
      assert (hi * 100) as real == hi as real * 100.0;
      assert lo * 100 <= m <= hi * 100;
    }
  }
}
