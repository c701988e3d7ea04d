/** The statistics behind the cleaning steps, over exact reals: sorting,
    pandas' default quantile (numpy's "linear" method), the median that
    `Series.median()` computes, the IQR fences of `handle_outliers` and
    `Series.clip`. Missing values (`NaN`) are removed by the caller before
    any of these is applied, as pandas skips them. */
module Stats {

  /** `s` is in ascending order. */
  predicate Sorted(s: seq<real>) {
    forall i, j :: 0 <= i <= j < |s| ==> s[i] <= s[j]
  }

  /** `x` placed into the sorted sequence `s`. */
  function Insert(x: real, s: seq<real>): (r: seq<real>)
    requires Sorted(s)
    ensures Sorted(r)
    ensures multiset(r) == multiset(s) + multiset{x}
    ensures |r| == |s| + 1
    ensures r[0] == x || (s != [] && r[0] == s[0])
  {
    if s == [] || x <= s[0] then [x] + s
    else
      assert s == [s[0]] + s[1..];
      var rest := Insert(x, s[1..]);
      assert s[0] <= rest[0];
      [s[0]] + rest
  }

  /** The values of `s` in ascending order (a permutation of `s`). */
  function Sort(s: seq<real>): (r: seq<real>)
    ensures Sorted(r)
    ensures multiset(r) == multiset(s)
    ensures |r| == |s|
  {
    if s == [] then []
    else
      assert s == s[..|s| - 1] + [s[|s| - 1]];
      var r := Insert(s[|s| - 1], Sort(s[..|s| - 1]));
      assert |r| == |multiset(r)|;
      r
  }

  /** A product of a non-negative number and a fraction lies between zero
      and that number. */
  lemma ScaleBetween(a: real, q: real)
    requires 0.0 <= a && 0.0 <= q <= 1.0
    ensures 0.0 <= a * q <= a
  {
    assert a * q <= a * 1.0;
  }

  /** The position `(n - 1) * q` that the linear quantile interpolates at,
      split into its whole part `lo` and its fractional part. */
  function Position(n: nat, q: real): (pos: real)
    requires n > 0 && 0.0 <= q <= 1.0
    ensures 0.0 <= pos <= (n - 1) as real
    ensures 0 <= pos.Floor < n
  {
    var pos := (n - 1) as real * q;
    ScaleBetween((n - 1) as real, q);
    FloorBetween(pos, n - 1);
    pos
  }

  /** The whole part of a number between zero and `m` is between zero and `m`. */
  lemma FloorBetween(x: real, m: nat)
    requires 0.0 <= x <= m as real
    ensures 0 <= x.Floor <= m
  {
    assert x.Floor as real <= x < x.Floor as real + 1.0;
  }

  /** Linear interpolation `a + (b - a) * t` between `a` and `b`. */
  function Lerp(a: real, b: real, t: real): (r: real)
    requires a <= b && 0.0 <= t <= 1.0
    ensures a <= r <= b
  {
    var step := (b - a) * t;
    ScaleBetween(b - a, t);
    assert 0.0 <= step;
    assert step <= b - a;
    a + step
  }

  /** pandas' `Series.quantile(q)` with the default `interpolation='linear'`
      on the sorted non-missing values `s`: at position `pos = (n - 1) * q`
      the two neighbouring order statistics are interpolated linearly. */
  function Quantile(s: seq<real>, q: real): (r: real)
    requires Sorted(s) && s != [] && 0.0 <= q <= 1.0
    ensures s[0] <= r <= s[|s| - 1]
    ensures var lo := Position(|s|, q).Floor;
      s[lo] <= r && (lo + 1 < |s| ==> r <= s[lo + 1])
  {
    var pos := Position(|s|, q);
    var lo := pos.Floor;
    if lo + 1 < |s| then Lerp(s[lo], s[lo + 1], pos - lo as real)
    else s[lo]
  }

  /** A larger fraction gives a position no further left. */
  lemma PositionMonotone(n: nat, p: real, q: real)
    requires n > 0 && 0.0 <= p <= q <= 1.0
    ensures Position(n, p) <= Position(n, q)
  {
    ScaleBetween((n - 1) as real, q - p);
    assert Position(n, q) - Position(n, p) == (n - 1) as real * (q - p);
  }

  /** Interpolating further along never gives a smaller value. */
  lemma LerpMonotone(a: real, b: real, u: real, v: real)
    requires a <= b && 0.0 <= u <= v <= 1.0
    ensures Lerp(a, b, u) <= Lerp(a, b, v)
  {
    ScaleBetween(b - a, v - u);
    assert (b - a) * v - (b - a) * u == (b - a) * (v - u);
  }

  /** A larger fraction never gives a smaller quantile; in particular the
      first quartile never exceeds the third. */
  lemma QuantileMonotone(s: seq<real>, p: real, q: real)
    requires Sorted(s) && s != [] && 0.0 <= p <= q <= 1.0
    ensures Quantile(s, p) <= Quantile(s, q)
  {
    var n := |s|;
    var pp, pq := Position(n, p), Position(n, q);
    PositionMonotone(n, p, q);
    var lp, lq := pp.Floor, pq.Floor;
    if lp == lq {
      if lp + 1 < n {
        LerpMonotone(s[lp], s[lp + 1], pp - lp as real, pq - lq as real);
      }
    } else {
      assert s[lp + 1] <= s[lq];
    }
  }

  /** The median as numpy computes it: the middle value of the sorted
      values, or the mean of the two middle values when their number is even. */
  function Median(s: seq<real>): (m: real)
    requires Sorted(s) && s != []
    ensures s[0] <= m <= s[|s| - 1]
  {
    var n := |s|;
    if n % 2 == 1 then s[n / 2] else (s[n / 2 - 1] + s[n / 2]) / 2.0
  }

  /** The median is the linear quantile at one half. */
  lemma MedianIsHalfQuantile(s: seq<real>)
    requires Sorted(s) && s != []
    ensures Median(s) == Quantile(s, 0.5)
  {
    var n := |s|;
    var pos := Position(n, 0.5);
    if n % 2 == 1 {
      assert pos == (n / 2) as real;
      assert pos.Floor == n / 2;
    } else {
      assert pos == (n / 2 - 1) as real + 0.5;
      assert pos.Floor == n / 2 - 1;
    }
  }

  /** The fence factor of the IQR rule. */
  const FENCE: real := 1.5

  /** The lower and upper clipping bounds of one column. */
  datatype Range = Range(lower: real, upper: real)

  /** `Q1 - 1.5 * IQR` and `Q3 + 1.5 * IQR` for the sorted values `s`, where
      `Q1`, `Q3` are the quantiles at 0.25 and 0.75 and `IQR = Q3 - Q1`. */
  function IqrBounds(s: seq<real>): (b: Range)
    requires Sorted(s) && s != []
    ensures b.lower <= Quantile(s, 0.25) <= Quantile(s, 0.75) <= b.upper
  {
    var q1 := Quantile(s, 0.25);
    var q3 := Quantile(s, 0.75);
    QuantileMonotone(s, 0.25, 0.75);
    var iqr := q3 - q1;
    Range(q1 - FENCE * iqr, q3 + FENCE * iqr)
  }

  /** `Series.clip(lower, upper)` on one value: first raised to `lower`, then
      lowered to `upper`. */
  function Clip(v: real, lower: real, upper: real): (r: real)
    ensures lower <= upper ==> lower <= r <= upper
    ensures lower <= v <= upper ==> r == v
    ensures v < lower && lower <= upper ==> r == lower
    ensures v > upper ==> r == upper
  {
    var raised := if v >= lower then v else lower;
    if raised <= upper then raised else upper
  }
}
