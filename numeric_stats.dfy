/**
 * calculate_mean, calculate_std_dev and the built-ins min and max over the
 * parsed values of a numeric column. Values are reals: the rounding of
 * 64-bit floats and the final square root are outside the model.
 */
module NumericStats {
  import opened Wrappers

  /** Python's `sum`. */
  function Sum(s: seq<real>): real
  {
    if s == [] then 0.0 else s[0] + Sum(s[1..])
  }

  /** `sum` accumulates from left to right, as Python does: appending a value
      to the list adds it to the running total. */
  lemma {:induction false} SumLeftToRight(s: seq<real>, x: real)
    ensures Sum(s + [x]) == Sum(s) + x
  {
    if s != [] {
      assert (s + [x])[1..] == s[1..] + [x];
      SumLeftToRight(s[1..], x);
    }
  }

  /** Python's `min` on a non-empty list: the smallest element. */
  function Min(s: seq<real>): (m: real)
    requires s != []
    ensures m in s
    ensures forall i :: 0 <= i < |s| ==> m <= s[i]
  {
    if |s| == 1 then s[0]
    else
      var rest := Min(s[1..]);
      assert forall i :: 1 <= i < |s| ==> s[i] == s[1..][i - 1];
      if s[0] <= rest then s[0] else rest
  }

  /** Python's `max` on a non-empty list: the largest element. */
  function Max(s: seq<real>): (m: real)
    requires s != []
    ensures m in s
    ensures forall i :: 0 <= i < |s| ==> s[i] <= m
  {
    if |s| == 1 then s[0]
    else
      var rest := Max(s[1..]);
      assert forall i :: 1 <= i < |s| ==> s[i] == s[1..][i - 1];
      if s[0] >= rest then s[0] else rest
  }

  /** A sum of values that all lie in [lo, hi] lies between |s|*lo and |s|*hi. */
  lemma {:induction false} SumBounds(s: seq<real>, lo: real, hi: real)
    requires forall i :: 0 <= i < |s| ==> lo <= s[i] <= hi
    ensures |s| as real * lo <= Sum(s) <= |s| as real * hi
  {
    if s != [] {
      SumBounds(s[1..], lo, hi);
      assert forall i :: 0 <= i < |s[1..]| ==> s[1..][i] == s[i + 1];
    }
  }

  /** Dividing a total that lies between n*lo and n*hi by n > 0 lands in [lo, hi]. */
  lemma QuotientBounds(total: real, n: real, lo: real, hi: real)
    requires n > 0.0 && n * lo <= total <= n * hi
    ensures lo <= total / n <= hi
  {
    var q := total / n;
    assert q * n == total;
  }

  /** The average of a non-empty list lies between its smallest and its
      largest element. */
  lemma MeanBetweenMinAndMax(numbers: seq<real>)
    requires numbers != []
    ensures Min(numbers) <= Sum(numbers) / |numbers| as real <= Max(numbers)
  {
    MeanBounds(numbers, Min(numbers), Max(numbers));
  }

  /** The average of values that all lie in [lo, hi] lies in [lo, hi]. */
  lemma MeanBounds(numbers: seq<real>, lo: real, hi: real)
    requires numbers != []
    requires forall i :: 0 <= i < |numbers| ==> lo <= numbers[i] <= hi
    ensures lo <= Sum(numbers) / |numbers| as real <= hi
  {
    SumBounds(numbers, lo, hi);
    QuotientBounds(Sum(numbers), |numbers| as real, lo, hi);
  }

  /** calculate_mean: None for an empty list, otherwise the arithmetic mean,
      which lies between the smallest and the largest value. */
  function CalculateMean(numbers: seq<real>): (r: Option<real>)
    ensures r.None? <==> numbers == []
    ensures r.Some? ==> Min(numbers) <= r.value <= Max(numbers)
  {
    if numbers == [] then None
    else
      MeanBetweenMinAndMax(numbers);
      Some(Sum(numbers) / |numbers| as real)
  }

  /** Sum of the squared deviations of the values from `m`. */
  function SquaredDeviations(s: seq<real>, m: real): real
  {
    if s == [] then 0.0 else (s[0] - m) * (s[0] - m) + SquaredDeviations(s[1..], m)
  }

  /** A square is never negative. */
  lemma SquareNonNegative(d: real)
    ensures d * d >= 0.0
  {
    if d < 0.0 {
      var e := -d;
      assert e * e > 0.0;
      assert d * d == e * e;
    }
  }

  /** A sum of squares is never negative. */
  lemma {:induction false} SquaredDeviationsNonNegative(s: seq<real>, m: real)
    ensures SquaredDeviations(s, m) >= 0.0
  {
    if s != [] {
      SquaredDeviationsNonNegative(s[1..], m);
      SquareNonNegative(s[0] - m);
    }
  }

  /** calculate_std_dev up to its final square root: None for fewer than two
      values, otherwise the sample variance (Bessel's correction, divisor
      n - 1), which is never negative. */
  function SampleVariance(numbers: seq<real>): (r: Option<real>)
    ensures r.None? <==> |numbers| < 2
    ensures r.Some? ==> r.value >= 0.0
  {
    if |numbers| < 2 then None
    else
      var mean := CalculateMean(numbers).value;
      SquaredDeviationsNonNegative(numbers, mean);
      Some(SquaredDeviations(numbers, mean) / (|numbers| - 1) as real)
  }
}
