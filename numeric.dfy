/** Exact real-number statistics used by the strategy, and the square-root oracle. */
module Numeric {

  function Abs(x: real): real {
    if x < 0.0 then -x else x
  }

  function Min(a: real, b: real): real {
    if a <= b then a else b
  }

  function Max(a: real, b: real): real {
    if a >= b then a else b
  }

  /** The sum of a sequence, accumulated from the front as a running total. */
  function Sum(s: seq<real>): real {
    if |s| == 0 then 0.0 else Sum(s[..|s| - 1]) + s[|s| - 1]
  }

  function Mean(s: seq<real>): real
    requires |s| > 0
  {
    Sum(s) / |s| as real
  }

  /** Sum of squared deviations from m. */
  function SquaredDeviations(s: seq<real>, m: real): (r: real)
    ensures r >= 0.0
  {
    if |s| == 0 then 0.0
    else
      var d := s[|s| - 1] - m;
      SquareNonNegative(d);
      SquaredDeviations(s[..|s| - 1], m) + d * d
  }

  lemma SquareNonNegative(d: real)
    ensures d * d >= 0.0
  {
    if d < 0.0 {
      assert d * d == (-d) * (-d);
    }
  }

  /** Variance with ddof = 0 (numpy's `np.std`). */
  function PopulationVariance(s: seq<real>): (v: real)
    requires |s| > 0
    ensures v >= 0.0
  {
    SquaredDeviations(s, Mean(s)) / |s| as real
  }

  /** Variance with ddof = 1 (pandas' `Series.std` and `rolling(...).std`). */
  function SampleVariance(s: seq<real>): (v: real)
    requires |s| > 1
    ensures v >= 0.0
  {
    SquaredDeviations(s, Mean(s)) / (|s| - 1) as real
  }

  /** The only fact assumed of the square-root routine: it is never negative on a
      non-negative argument. */
  ghost predicate NonNegativeRoot(sqrt: real -> real) {
    forall x :: 0.0 <= x ==> 0.0 <= sqrt(x)
  }

  predicate AllEqual(s: seq<real>, c: real) {
    forall i :: 0 <= i < |s| ==> s[i] == c
  }

  lemma {:induction false} SumOfConstant(s: seq<real>, c: real)
    requires AllEqual(s, c)
    ensures Sum(s) == |s| as real * c
  {
    if |s| > 0 {
      SumOfConstant(s[..|s| - 1], c);
    }
  }

  lemma {:induction false} MeanOfConstant(s: seq<real>, c: real)
    requires |s| > 0 && AllEqual(s, c)
    ensures Mean(s) == c
  {
    SumOfConstant(s, c);
  }

  lemma {:induction false} DeviationsFromConstant(s: seq<real>, c: real)
    requires AllEqual(s, c)
    ensures SquaredDeviations(s, c) == 0.0
  {
    if |s| > 0 {
      DeviationsFromConstant(s[..|s| - 1], c);
    }
  }

  /** A series whose values are all equal has zero sample variance. */
  lemma ConstantHasZeroVariance(s: seq<real>, c: real)
    requires |s| > 1 && AllEqual(s, c)
    ensures SampleVariance(s) == 0.0
  {
    MeanOfConstant(s, c);
    DeviationsFromConstant(s, c);
  }

  lemma {:induction false} SumAppend(s: seq<real>, x: real)
    ensures Sum(s + [x]) == Sum(s) + x
  {
    assert (s + [x])[..|s|] == s;
  }
}
