/** Spread construction and the global z-score signal classifier (src/strategy.py). */
module Strategy {
  import opened Options
  import opened Numeric
  import opened Columns

  /** The default thresholds of generate_signals. */
  const DefaultEntryZ: real := 1.0
  const DefaultExitZ: real := 0.0

  /** `y - beta * x`, elementwise: the residual of series1 against series2. */
  function SpreadValues(y: seq<real>, x: seq<real>, beta: real): (s: seq<real>)
    requires |y| == |x|
    ensures |s| == |y|
    ensures forall i :: 0 <= i < |s| ==> s[i] + beta * x[i] == y[i]
  {
    seq(|y|, i requires 0 <= i < |y| => y[i] - beta * x[i])
  }

  /** A regressor whose values are all equal and non-zero: `sm.add_constant` with its default
      `has_constant='skip'` treats it as the constant already present and adds no column. */
  predicate NonZeroConstant(x: seq<real>) {
    |x| > 0 && x[0] != 0.0 && forall i :: 0 <= i < |x| ==> x[i] == x[0]
  }

  /** compute_spread: the hedge ratio is the slope of an OLS fit of series1 on series2 with an
      intercept (an oracle here); the spread keeps series1's index. None is the exception the
      code raises: `add_constant` fails on an empty regressor, and for a non-zero constant one
      the fit has a single parameter, so `params[1]` is out of range. */
  function ComputeSpread(series1: Series, series2: Series, olsSlope: (seq<real>, seq<real>) -> real): (r: Option<(Series, real)>)
    requires series1.WellFormed() && |series2.values| == |series1.values|
    ensures r.None? <==> |series2.values| == 0 || NonZeroConstant(series2.values)
    ensures r.Some? ==> r.value.0.WellFormed() && r.value.0.index == series1.index
    ensures r.Some? ==> r.value.1 == olsSlope(series1.values, series2.values)
    ensures r.Some? ==> forall i :: 0 <= i < |r.value.0.values| ==>
              r.value.0.values[i] + r.value.1 * series2.values[i] == series1.values[i]
  {
    if |series2.values| == 0 || NonZeroConstant(series2.values) then None
    else
      var beta := olsSlope(series1.values, series2.values);
      Some((Series(series1.index, SpreadValues(series1.values, series2.values, beta)), beta))
  }

  /** A float quotient as IEEE arithmetic produces it: dividing by zero gives an infinity or,
      for 0/0, NaN. */
  datatype ZValue = Finite(v: real) | PosInf | NegInf | NaN

  function Quotient(a: real, b: real): (q: ZValue)
    ensures q.Finite? <==> b != 0.0
    ensures q.Finite? ==> q.v * b == a
    ensures q == NaN <==> a == 0.0 && b == 0.0
  {
    if b != 0.0 then Finite(a / b)
    else if a > 0.0 then PosInf
    else if a < 0.0 then NegInf
    else NaN
  }

  /** `z > c`; NaN compares false. */
  predicate Above(z: ZValue, c: real) {
    match z
    case Finite(v) => v > c
    case PosInf => true
    case _ => false
  }

  /** `z < c`; NaN compares false. */
  predicate Below(z: ZValue, c: real) {
    match z
    case Finite(v) => v < c
    case NegInf => true
    case _ => false
  }

  /** `abs(z) < c`; an infinity or NaN is never below a finite bound. */
  predicate MagnitudeBelow(z: ZValue, c: real) {
    match z
    case Finite(v) => Abs(v) < c
    case _ => false
  }

  /** `(spread - np.mean(spread)) / np.std(spread)` with the population standard deviation taken
      over the whole series. */
  function GlobalZScores(spread: seq<real>, sqrt: real -> real): (z: seq<ZValue>)
    ensures |z| == |spread|
  {
    if |spread| == 0 then []
    else
      var m := Mean(spread);
      var sd := sqrt(PopulationVariance(spread));
      seq(|spread|, i requires 0 <= i < |spread| => Quotient(spread[i] - m, sd))
  }

  /** The value left by the two entry passes alone: short above entry_z, then long below
      -entry_z. With a non-negative threshold the two masks are disjoint; with a negative one
      a z-score can be in both, and the later (long) pass wins. */
  function EntrySignal(z: ZValue, entryZ: real): (r: real)
    ensures r == -1.0 || r == 0.0 || r == 1.0
    ensures 0.0 <= entryZ ==> (r == -1.0 <==> Above(z, entryZ)) && (r == 1.0 <==> Below(z, -entryZ))
    ensures Above(z, entryZ) && Below(z, -entryZ) ==> r == 1.0
  {
    if Below(z, -entryZ) then 1.0
    else if Above(z, entryZ) then -1.0
    else 0.0
  }

  /** The value left after the exit pass, which overrides both entry passes. */
  function SignalFor(z: ZValue, entryZ: real, exitZ: real): (r: real)
    ensures r == -1.0 || r == 0.0 || r == 1.0
  {
    if MagnitudeBelow(z, exitZ) then 0.0 else EntrySignal(z, entryZ)
  }

  /** generate_signals: a zeros array overwritten in place by three masked assignments. */
  method GenerateSignals(spread: Series, entryZ: real, exitZ: real, sqrt: real -> real) returns (signals: Series)
    requires spread.WellFormed()
    ensures signals.WellFormed() && signals.index == spread.index
    ensures forall i :: 0 <= i < |signals.values| ==>
              signals.values[i] == SignalFor(GlobalZScores(spread.values, sqrt)[i], entryZ, exitZ)
  {
    var z := GlobalZScores(spread.values, sqrt);
    var n := |z|;
    var a := new real[n](_ => 0.0);
    // signals[zscore > entry_z] = -1
    for i := 0 to n
      invariant forall k :: 0 <= k < i ==> a[k] == (if Above(z[k], entryZ) then -1.0 else 0.0)
      invariant forall k :: i <= k < n ==> a[k] == 0.0
    {
      if Above(z[i], entryZ) {
        a[i] := -1.0;
      }
    }
    // signals[zscore < -entry_z] = 1
    for i := 0 to n
      invariant forall k :: 0 <= k < i ==> a[k] == EntrySignal(z[k], entryZ)
      invariant forall k :: i <= k < n ==> a[k] == (if Above(z[k], entryZ) then -1.0 else 0.0)
    {
      if Below(z[i], -entryZ) {
        a[i] := 1.0;
      }
    }
    // signals[np.abs(zscore) < exit_z] = 0
    for i := 0 to n
      invariant forall k :: 0 <= k < i ==> a[k] == SignalFor(z[k], entryZ, exitZ)
      invariant forall k :: i <= k < n ==> a[k] == EntrySignal(z[k], entryZ)
    {
      if MagnitudeBelow(z[i], exitZ) {
        a[i] := 0.0;
      }
    }
    signals := Series(spread.index, a[..]);
  }

  /** With a non-negative entry threshold, a z-score above it that the exit band does not catch
      gives a short signal. */
  lemma ShortEntry(z: real, entryZ: real, exitZ: real)
    requires 0.0 <= entryZ < z && Abs(z) >= exitZ
    ensures SignalFor(Finite(z), entryZ, exitZ) == -1.0
  {
  }

  /** A z-score below -entry_z that the exit band does not catch gives a long signal. */
  lemma LongEntry(z: real, entryZ: real, exitZ: real)
    requires z < -entryZ && Abs(z) >= exitZ
    ensures SignalFor(Finite(z), entryZ, exitZ) == 1.0
  {
  }

  /** Inside [-entry_z, entry_z] the signal stays neutral. */
  lemma NeutralBand(z: real, entryZ: real, exitZ: real)
    requires -entryZ <= z <= entryZ
    ensures SignalFor(Finite(z), entryZ, exitZ) == 0.0
  {
  }

  /** Inside the exit band the signal is neutral whatever the entry passes set. */
  lemma ExitOverrides(z: real, entryZ: real, exitZ: real)
    requires Abs(z) < exitZ
    ensures SignalFor(Finite(z), entryZ, exitZ) == 0.0
  {
  }

  /** With the default exit_z = 0 the exit pass changes nothing. */
  lemma DefaultExitInert(z: ZValue, entryZ: real)
    ensures SignalFor(z, entryZ, DefaultExitZ) == EntrySignal(z, entryZ)
  {
  }

  /** With a non-negative entry threshold the signal is antitone in z. */
  lemma SignalAntitone(z1: real, z2: real, entryZ: real, exitZ: real)
    requires 0.0 <= entryZ && z1 <= z2
    ensures SignalFor(Finite(z2), entryZ, exitZ) <= SignalFor(Finite(z1), entryZ, exitZ)
  {
  }

  /** A constant spread has a zero numerator everywhere, so every z-score is 0 or NaN and,
      with a non-negative entry threshold, every signal is neutral. */
  lemma {:induction false} ConstantSpreadNeutral(spread: seq<real>, c: real, sqrt: real -> real, entryZ: real, exitZ: real)
    requires AllEqual(spread, c) && 0.0 <= entryZ
    ensures forall i :: 0 <= i < |spread| ==> SignalFor(GlobalZScores(spread, sqrt)[i], entryZ, exitZ) == 0.0
  {
    if |spread| > 0 {
      MeanOfConstant(spread, c);
      var z := GlobalZScores(spread, sqrt);
      forall i | 0 <= i < |spread|
        ensures SignalFor(z[i], entryZ, exitZ) == 0.0
      {
        assert spread[i] - Mean(spread) == 0.0;
      }
    }
  }
}
