/** The vectorised backtest of one pair and its summary metrics (src/backtest.py).
    Every column is one cell per row of series1; a NaN cell is None. */
module Backtest {
  import opened Options
  import opened Numeric
  import opened Columns
  import Strategy

  /** Length of the rolling window for the sizing z-score and the volatility. */
  const Window: nat := 20
  /** The 1e-6 guard added to every rolling standard deviation before dividing. */
  const Eps: real := 0.000001
  /** The hard-coded upper clip of the position size. */
  const MaxPositionSize: real := 2.0

  datatype Config = Config(capitalBase: real, riskAversion: real, slippagePct: real, transactionCostPct: real) {
    function CostRate(): real {
      slippagePct + transactionCostPct
    }
  }

  /** The keyword defaults of backtest_pair. */
  const Defaults: Config := Config(1000000.0, 1.0, 0.0005, 0.001)

  /** The result DataFrame: its index (series1's) and its seven columns. */
  datatype Frame = Frame(
    index: seq<int>,
    spread: seq<real>,
    zScore: seq<real>,
    signal: seq<Option<real>>,
    positionSize: seq<Option<real>>,
    exposure: seq<Option<real>>,
    pnl: seq<Option<real>>,
    capital: seq<Option<real>>)
  {
    predicate WellFormed() {
      && |spread| == |index| && |zScore| == |index| && |signal| == |index|
      && |positionSize| == |index| && |exposure| == |index|
      && |pnl| == |index| && |capital| == |index|
    }
  }

  // ---------------------------------------------------------------------------------------
  // Row alignment: `signals[-len(series1):].reindex(series1.index)`.

  function AlignSignals(signals: Series, target: seq<int>): (r: seq<Option<real>>)
    requires signals.WellFormed()
    ensures |r| == |target|
  {
    var tail := Series(TakeLast(signals.index, |target|), TakeLast(signals.values, |target|));
    seq(|target|, t requires 0 <= t < |target| => Lookup(tail, target[t]))
  }

  /** The first signal entry that survives the positional cut to the last |target| entries. */
  function TailStart(signalCount: nat, targetCount: nat): nat {
    if signalCount <= targetCount then 0 else signalCount - targetCount
  }

  /** Each row takes the signal stored under its own timestamp among the last |target| signal
      entries, and NaN when no such entry has that timestamp. */
  lemma AlignedSignalsByLabel(signals: Series, target: seq<int>)
    requires signals.WellFormed() && UniqueLabels(signals.index)
    ensures forall t, p ::
              (0 <= t < |target| && TailStart(|signals.index|, |target|) <= p < |signals.index|
               && signals.index[p] == target[t]) ==> AlignSignals(signals, target)[t] == Some(signals.values[p])
    ensures forall t ::
              (0 <= t < |target|
               && forall p :: TailStart(|signals.index|, |target|) <= p < |signals.index| ==> signals.index[p] != target[t])
              ==> AlignSignals(signals, target)[t] == None
  {
    var n := |target|;
    var start := TailStart(|signals.index|, n);
    var tail := Series(TakeLast(signals.index, n), TakeLast(signals.values, n));
    if n > 0 {
      assert tail.index == signals.index[start..] && tail.values == signals.values[start..];
      assert UniqueLabels(tail.index);
      forall t, p | 0 <= t < n && start <= p < |signals.index| && signals.index[p] == target[t]
        ensures AlignSignals(signals, target)[t] == Some(signals.values[p])
      {
        assert tail.index[p - start] == target[t];
        LookupUnique(tail, target[t]);
      }
      forall t | 0 <= t < n && (forall p :: start <= p < |signals.index| ==> signals.index[p] != target[t])
        ensures AlignSignals(signals, target)[t] == None
      {
        assert forall q :: 0 <= q < |tail.index| ==> tail.index[q] == signals.index[start + q];
        LookupUnique(tail, target[t]);
      }
    }
  }

  /** In the pipeline the signals carry series1's own index, and alignment then leaves them
      exactly as they are. */
  lemma AlignedSignalsIdentity(signals: Series, target: seq<int>)
    requires signals.WellFormed() && UniqueLabels(signals.index) && signals.index == target
    ensures forall t :: 0 <= t < |target| ==> AlignSignals(signals, target)[t] == Some(signals.values[t])
  {
    AlignedSignalsByLabel(signals, target);
    assert TailStart(|signals.index|, |target|) == 0;
  }

  // ---------------------------------------------------------------------------------------
  // Rolling statistics of the spread.

  function WindowAt(spread: seq<real>, t: nat): (w: seq<real>)
    requires Window - 1 <= t < |spread|
    ensures |w| == Window
  {
    spread[t + 1 - Window..t + 1]
  }

  /** `spread.rolling(20).std()`: NaN until a full window is available. */
  function RollingStd(spread: seq<real>, sqrt: real -> real, t: nat): (r: Option<real>)
    requires t < |spread| && NonNegativeRoot(sqrt)
    ensures r.Some? <==> t >= Window - 1
    ensures r.Some? ==> r.value >= 0.0
  {
    if t < Window - 1 then None else Some(sqrt(SampleVariance(WindowAt(spread, t))))
  }

  /** One cell of `(spread - mean) / (std + 1e-6)` after `fillna(0)`: 0 while the window is
      incomplete, afterwards of the sign of the spread's distance from its window mean. */
  function RollingZ(spread: seq<real>, sqrt: real -> real, t: nat): (z: real)
    requires t < |spread| && NonNegativeRoot(sqrt)
    ensures t < Window - 1 ==> z == 0.0
    ensures t >= Window - 1 ==>
              (z > 0.0 <==> spread[t] > Mean(WindowAt(spread, t)))
              && (z < 0.0 <==> spread[t] < Mean(WindowAt(spread, t)))
  {
    if t < Window - 1 then 0.0
    else
      var w := WindowAt(spread, t);
      QuotientSign(spread[t] - Mean(w), RollingStd(spread, sqrt, t).value + Eps);
      (spread[t] - Mean(w)) / (RollingStd(spread, sqrt, t).value + Eps)
  }

  lemma QuotientSign(a: real, d: real)
    requires d > 0.0
    ensures a / d > 0.0 <==> a > 0.0
    ensures a / d < 0.0 <==> a < 0.0
  {
    if a > 0.0 {
      assert a / d * d == a;
    } else if a < 0.0 {
      assert (-a) / d * d == -a;
    }
  }

  /** A non-negative numerator over a positive denominator gives a non-negative quotient. */
  lemma QuotientNonNegative(a: real, d: real)
    requires a >= 0.0
    ensures d > 0.0 ==> a / d >= 0.0
  {
    if d > 0.0 {
      QuotientSign(a, d);
    }
  }

  /** The sizing z-score: 0 on the first 19 rows, and afterwards of the same sign as the
      spread's distance from its 20-row mean. */
  function ZScoreColumn(spread: seq<real>, sqrt: real -> real): (z: seq<real>)
    requires NonNegativeRoot(sqrt)
    ensures |z| == |spread|
    ensures forall t :: 0 <= t < |z| && t < Window - 1 ==> z[t] == 0.0
    ensures forall t :: Window - 1 <= t < |z| ==>
              (z[t] > 0.0 <==> spread[t] > Mean(WindowAt(spread, t)))
              && (z[t] < 0.0 <==> spread[t] < Mean(WindowAt(spread, t)))
  {
    seq(|spread|, t requires 0 <= t < |spread| => RollingZ(spread, sqrt, t))
  }

  /** `spread_std.bfill()`: the rolling standard deviation, with the first 19 rows filled from
      row 19; all NaN when the series is shorter than one window. */
  function VolatilityColumn(spread: seq<real>, sqrt: real -> real): (vol: seq<Option<real>>)
    requires NonNegativeRoot(sqrt)
    ensures |vol| == |spread|
    ensures forall t :: 0 <= t < |vol| ==> (vol[t].Some? <==> |spread| >= Window)
    ensures forall t :: 0 <= t < |vol| && vol[t].Some? ==> vol[t].value >= 0.0
    ensures forall t :: Window - 1 <= t < |vol| ==> vol[t] == RollingStd(spread, sqrt, t)
    ensures forall t :: 0 <= t < Window - 1 && |spread| >= Window ==> vol[t] == vol[Window - 1]
  {
    var vol := seq(|spread|, t requires 0 <= t < |spread| =>
      RollingStd(spread, sqrt, if t < Window - 1 && |spread| >= Window then Window - 1 else t));
    forall t | 0 <= t < |vol|
      ensures vol[t].Some? <==> |spread| >= Window
      ensures vol[t].Some? ==> vol[t].value >= 0.0
    {
      var u := if t < Window - 1 && |spread| >= Window then Window - 1 else t;
      assert vol[t] == RollingStd(spread, sqrt, u);
    }
    vol
  }

  // ---------------------------------------------------------------------------------------
  // Sizing, exposure, cost, PnL and capital.

  /** `(|z| / (vol + 1e-6)) / risk_aversion` clipped above at 2.0. A zero risk aversion makes
      the float quotient +inf (clipped to 2.0) or, for a zero numerator, NaN. */
  function SizeAt(z: real, vol: Option<real>, riskAversion: real): (size: Option<real>)
    requires vol.Some? ==> vol.value >= 0.0
    ensures size.Some? <==> vol.Some? && (riskAversion != 0.0 || z != 0.0)
    ensures size.Some? ==> size.value <= MaxPositionSize
    ensures riskAversion > 0.0 && size.Some? ==> 0.0 <= size.value
    ensures riskAversion == 0.0 && size.Some? ==> size.value == MaxPositionSize
  {
    match vol
    case None => None
    case Some(v) =>
      var raw := Abs(z) / (v + Eps);
      QuotientSign(Abs(z), v + Eps);
      if riskAversion != 0.0 then
        QuotientNonNegative(raw, riskAversion);
        Some(Min(raw / riskAversion, MaxPositionSize))
      else if raw > 0.0 then Some(MaxPositionSize)
      else None
  }

  function SizeColumn(z: seq<real>, vol: seq<Option<real>>, riskAversion: real): (size: seq<Option<real>>)
    requires |z| == |vol|
    requires forall t :: 0 <= t < |vol| && vol[t].Some? ==> vol[t].value >= 0.0
    ensures |size| == |z|
    ensures forall t :: 0 <= t < |size| ==>
              (size[t].Some? <==> vol[t].Some? && (riskAversion != 0.0 || z[t] != 0.0))
    ensures forall t :: 0 <= t < |size| && size[t].Some? ==> size[t].value <= MaxPositionSize
    ensures riskAversion > 0.0 ==>
              forall t :: 0 <= t < |size| && size[t].Some? ==> 0.0 <= size[t].value
  {
    seq(|z|, t requires 0 <= t < |z| => SizeAt(z[t], vol[t], riskAversion))
  }

  /** `position_size * signals`: NaN wherever either factor is NaN. */
  function ExposureColumn(size: seq<Option<real>>, signal: seq<Option<real>>): (e: seq<Option<real>>)
    requires |size| == |signal|
    ensures |e| == |size|
    ensures forall t :: 0 <= t < |e| ==> (e[t].Some? <==> size[t].Some? && signal[t].Some?)
    ensures forall t :: 0 <= t < |e| && e[t].Some? ==> e[t].value == size[t].value * signal[t].value
  {
    seq(|size|, t requires 0 <= t < |size| =>
      if size[t].Some? && signal[t].Some? then Some(size[t].value * signal[t].value) else None)
  }

  /** `directional_exposure.diff().fillna(0) != 0`: a NaN difference counts as no trade. */
  predicate TradeAt(e: seq<Option<real>>, t: nat)
    requires t < |e|
  {
    t >= 1 && e[t].Some? && e[t - 1].Some? && e[t].value != e[t - 1].value
  }

  /** `trade_indicator * |exposure| * (slippage + cost)`; NaN where the exposure is NaN. */
  function CostColumn(e: seq<Option<real>>, rate: real): (c: seq<Option<real>>)
    ensures |c| == |e|
    ensures forall t :: 0 <= t < |c| ==> (c[t].Some? <==> e[t].Some?)
    ensures forall t :: 0 <= t < |c| && c[t].Some? ==>
              c[t].value == if TradeAt(e, t) then Abs(e[t].value) * rate else 0.0
  {
    seq(|e|, t requires 0 <= t < |e| =>
      if e[t].Some? then Some(if TradeAt(e, t) then Abs(e[t].value) * rate else 0.0) else None)
  }

  /** `exposure.shift().fillna(0) * spread.diff() - cost`: NaN on the first row, where the
      spread difference is NaN, and wherever the cost is NaN. */
  function PnLColumn(e: seq<Option<real>>, spread: seq<real>, c: seq<Option<real>>): (p: seq<Option<real>>)
    requires |e| == |spread| == |c|
    ensures |p| == |e|
    ensures forall t :: 0 <= t < |p| ==> (p[t].Some? <==> t >= 1 && c[t].Some?)
    ensures forall t :: 1 <= t < |p| && p[t].Some? ==>
              p[t].value == e[t - 1].GetOr(0.0) * (spread[t] - spread[t - 1]) - c[t].value
    ensures forall t :: 1 <= t < |p| && p[t].Some? && e[t - 1].GetOr(0.0) == 0.0 ==>
              p[t].value == -c[t].value
  {
    seq(|e|, t requires 0 <= t < |e| =>
      if t >= 1 && c[t].Some? then Some(e[t - 1].GetOr(0.0) * (spread[t] - spread[t - 1]) - c[t].value)
      else None)
  }

  /** The running total `pnl.cumsum()` carries at row t: NaN cells add nothing, so it is the
      sum of the defined PnL values up to t. */
  function CumulativePnL(pnl: seq<Option<real>>, t: nat): (total: real)
    requires t < |pnl|
    ensures total == Sum(Defined(pnl[..t + 1]))
  {
    DefinedPrefixStep(pnl, t);
    (if t == 0 then 0.0 else CumulativePnL(pnl, t - 1)) + pnl[t].GetOr(0.0)
  }

  /** Extending the prefix by row t adds row t's value to the sum of its defined cells, or
      nothing when row t is NaN. */
  lemma DefinedPrefixStep(pnl: seq<Option<real>>, t: nat)
    requires t < |pnl|
    ensures Sum(Defined(pnl[..t + 1])) == (if t == 0 then 0.0 else Sum(Defined(pnl[..t]))) + pnl[t].GetOr(0.0)
  {
    var prefix := pnl[..t + 1];
    assert prefix[..|prefix| - 1] == pnl[..t] && prefix[|prefix| - 1] == pnl[t];
    assert Defined(prefix) == Defined(pnl[..t]) + (if pnl[t].Some? then [pnl[t].value] else []);
    if t == 0 {
      assert Defined(pnl[..0]) == [];
    }
    if pnl[t].Some? {
      SumAppend(Defined(pnl[..t]), pnl[t].value);
    } else {
      assert Defined(prefix) == Defined(pnl[..t]);
    }
  }

  /** `capital_base + pnl.cumsum()`: NaN where the PnL is NaN; otherwise each defined row adds
      its own PnL to the previous row's capital. */
  function CapitalColumn(pnl: seq<Option<real>>, base: real): (cap: seq<Option<real>>)
    ensures |cap| == |pnl|
    ensures forall t :: 0 <= t < |cap| ==> (cap[t].Some? <==> pnl[t].Some?)
    ensures forall t :: 1 <= t < |cap| && cap[t].Some? && cap[t - 1].Some? ==>
              cap[t].value == cap[t - 1].value + pnl[t].value
  {
    seq(|pnl|, t requires 0 <= t < |pnl| =>
      if pnl[t].Some? then Some(base + CumulativePnL(pnl, t)) else None)
  }

  /** Capital on a defined row is the starting capital plus every defined PnL up to that row;
      on the last row it is the starting capital plus the sum of all daily returns. */
  lemma CapitalIsBasePlusReturns(pnl: seq<Option<real>>, base: real)
    ensures forall t :: 0 <= t < |pnl| && pnl[t].Some? ==>
              CapitalColumn(pnl, base)[t].value == base + Sum(Defined(pnl[..t + 1]))
    ensures |pnl| > 0 && pnl[|pnl| - 1].Some? ==>
              CapitalColumn(pnl, base)[|pnl| - 1].value == base + Sum(Defined(pnl))
  {
    forall t | 0 <= t < |pnl| && pnl[t].Some?
      ensures CapitalColumn(pnl, base)[t].value == base + Sum(Defined(pnl[..t + 1]))
    {
      assert CapitalColumn(pnl, base)[t].value == base + CumulativePnL(pnl, t);
    }
    if |pnl| > 0 {
      assert pnl[..|pnl|] == pnl;
    }
  }

  /** What backtest_pair needs of its inputs: series2 shares series1's index (the loader's
      aligned matrix); the signal index has no repeated timestamp, as pandas' reindex requires;
      the square root is never negative. */
  ghost predicate ValidInputs(series1: Series, series2: Series, signals: Series, sqrt: real -> real) {
    && series1.WellFormed() && series2.WellFormed() && series2.index == series1.index
    && signals.WellFormed() && UniqueLabels(signals.index)
    && NonNegativeRoot(sqrt)
  }

  /** backtest_pair. series2 shares series1's index (the loader's aligned matrix); the signal
      index has no repeated timestamp, as pandas' reindex requires. */
  function BacktestPair(series1: Series, series2: Series, signals: Series, beta: real,
                        cfg: Config, sqrt: real -> real): (f: Frame)
    requires ValidInputs(series1, series2, signals, sqrt)
    ensures f.WellFormed() && f.index == series1.index
  {
    var signal := AlignSignals(signals, series1.index);
    var spread := Strategy.SpreadValues(series1.values, series2.values, beta);
    var z := ZScoreColumn(spread, sqrt);
    var vol := VolatilityColumn(spread, sqrt);
    var size := SizeColumn(z, vol, cfg.riskAversion);
    var exposure := ExposureColumn(size, signal);
    var cost := CostColumn(exposure, cfg.CostRate());
    var pnl := PnLColumn(exposure, spread, cost);
    Frame(series1.index, spread, z, signal, size, exposure, pnl, CapitalColumn(pnl, cfg.capitalBase))
  }

  /** The execution-cost column `BacktestPair` builds (it is not kept in the result). */
  function BacktestCost(series1: Series, series2: Series, signals: Series, beta: real,
                        cfg: Config, sqrt: real -> real): (c: seq<Option<real>>)
    requires ValidInputs(series1, series2, signals, sqrt)
    ensures |c| == |series1.index|
  {
    CostColumn(BacktestPair(series1, series2, signals, beta, cfg, sqrt).exposure, cfg.CostRate())
  }

  // ---------------------------------------------------------------------------------------
  // What backtest_pair guarantees about its rows.

  lemma ProductBound(size: real, sig: real)
    requires 0.0 <= size <= MaxPositionSize && -1.0 <= sig <= 1.0
    ensures Abs(size * sig) <= MaxPositionSize
  {
    if sig >= 0.0 {
      assert size * sig <= size * 1.0;
    } else {
      assert size * (-sig) <= size * 1.0;
    }
  }

  lemma ProductNonNegative(a: real, b: real)
    requires a >= 0.0 && b >= 0.0
    ensures a * b >= 0.0
  {
  }

  /** The sizing z-score is 0 on the first 19 rows, where the 20-row window is undefined. */
  lemma BacktestWarmupZScore(series1: Series, series2: Series, signals: Series, beta: real,
      cfg: Config, sqrt: real -> real)
    requires ValidInputs(series1, series2, signals, sqrt)
    ensures var f := BacktestPair(series1, series2, signals, beta, cfg, sqrt);
      forall t :: 0 <= t < |f.index| && t < Window - 1 ==> f.zScore[t] == 0.0
  {
  }

  /** With a positive risk aversion every defined position size lies in [0, 2.0]. */
  lemma BacktestSizeBounds(series1: Series, series2: Series, signals: Series, beta: real,
      cfg: Config, sqrt: real -> real)
    requires ValidInputs(series1, series2, signals, sqrt)
    requires cfg.riskAversion > 0.0
    ensures var f := BacktestPair(series1, series2, signals, beta, cfg, sqrt);
      forall t :: 0 <= t < |f.index| && f.positionSize[t].Some? ==>
        0.0 <= f.positionSize[t].value <= MaxPositionSize
  {
  }

  /** A neutral signal gives zero exposure. */
  lemma ExposureNeutral(size: seq<Option<real>>, signal: seq<Option<real>>)
    requires |size| == |signal|
    ensures var e := ExposureColumn(size, signal);
      forall t :: 0 <= t < |e| && e[t].Some? && signal[t] == Some(0.0) ==> e[t].value == 0.0
  {
  }

  lemma BacktestNeutralFlat(series1: Series, series2: Series, signals: Series, beta: real,
      cfg: Config, sqrt: real -> real)
    requires ValidInputs(series1, series2, signals, sqrt)
    ensures var f := BacktestPair(series1, series2, signals, beta, cfg, sqrt);
      forall t :: 0 <= t < |f.index| && f.exposure[t].Some? && f.signal[t] == Some(0.0) ==>
        f.exposure[t].value == 0.0
  {
    var f := BacktestPair(series1, series2, signals, beta, cfg, sqrt);
    assert f.exposure == ExposureColumn(f.positionSize, f.signal);
    ExposureNeutral(f.positionSize, f.signal);
  }

  /** Sizes in [0, 2.0] and a signal in [-1, 1] give |exposure| <= 2.0. */
  lemma ExposureBounded(size: seq<Option<real>>, signal: seq<Option<real>>)
    requires |size| == |signal|
    requires forall t :: 0 <= t < |size| && size[t].Some? ==> 0.0 <= size[t].value <= MaxPositionSize
    ensures var e := ExposureColumn(size, signal);
      forall t :: 0 <= t < |e| && e[t].Some? && -1.0 <= signal[t].value <= 1.0 ==>
        Abs(e[t].value) <= MaxPositionSize
  {
    var e := ExposureColumn(size, signal);
    forall t | 0 <= t < |e| && e[t].Some? && -1.0 <= signal[t].value <= 1.0
      ensures Abs(e[t].value) <= MaxPositionSize
    {
      ProductBound(size[t].value, signal[t].value);
    }
  }

  lemma BacktestExposureBounded(series1: Series, series2: Series, signals: Series, beta: real,
      cfg: Config, sqrt: real -> real)
    requires ValidInputs(series1, series2, signals, sqrt)
    requires cfg.riskAversion > 0.0
    ensures var f := BacktestPair(series1, series2, signals, beta, cfg, sqrt);
      forall t :: 0 <= t < |f.index| && f.exposure[t].Some? && -1.0 <= f.signal[t].value <= 1.0 ==>
        Abs(f.exposure[t].value) <= MaxPositionSize
  {
    var f := BacktestPair(series1, series2, signals, beta, cfg, sqrt);
    BacktestSizeBounds(series1, series2, signals, beta, cfg, sqrt);
    assert f.exposure == ExposureColumn(f.positionSize, f.signal);
    ExposureBounded(f.positionSize, f.signal);
  }

  /** With a non-negative cost rate every defined cost is >= 0. */
  lemma CostNonNegative(e: seq<Option<real>>, rate: real)
    requires rate >= 0.0
    ensures var c := CostColumn(e, rate);
      forall t :: 0 <= t < |c| && c[t].Some? ==> c[t].value >= 0.0
  {
    var c := CostColumn(e, rate);
    forall t | 0 <= t < |c| && c[t].Some?
      ensures c[t].value >= 0.0
    {
      if TradeAt(e, t) {
        ProductNonNegative(Abs(e[t].value), rate);
      }
    }
  }

  /** Every defined execution cost is >= 0 when slippage plus transaction cost is. */
  lemma BacktestCostNonNegative(series1: Series, series2: Series, signals: Series, beta: real,
      cfg: Config, sqrt: real -> real)
    requires ValidInputs(series1, series2, signals, sqrt)
    requires cfg.CostRate() >= 0.0
    ensures var c := BacktestCost(series1, series2, signals, beta, cfg, sqrt);
      forall t :: 0 <= t < |c| && c[t].Some? ==> c[t].value >= 0.0
  {
    var e := BacktestPair(series1, series2, signals, beta, cfg, sqrt).exposure;
    assert BacktestCost(series1, series2, signals, beta, cfg, sqrt) == CostColumn(e, cfg.CostRate());
    CostNonNegative(e, cfg.CostRate());
  }

  /** The cost is 0 on the first row and on any row whose exposure equals the previous row's;
      on a row whose exposure changed it is |exposure| times the cost rate. */
  predicate ChargedOnChanges(e: seq<Option<real>>, c: seq<Option<real>>, rate: real) {
    && |c| == |e|
    && (|c| > 0 && c[0].Some? ==> c[0].value == 0.0)
    && (forall t :: 1 <= t < |c| && c[t].Some? && e[t] == e[t - 1] ==> c[t].value == 0.0)
    && (forall t :: 1 <= t < |c| && e[t].Some? && e[t - 1].Some? && e[t] != e[t - 1] ==>
          c[t] == Some(Abs(e[t].value) * rate))
  }

  lemma CostOnChanges(e: seq<Option<real>>, rate: real)
    ensures ChargedOnChanges(e, CostColumn(e, rate), rate)
  {
  }

  lemma BacktestCostOnChanges(series1: Series, series2: Series, signals: Series, beta: real,
      cfg: Config, sqrt: real -> real)
    requires ValidInputs(series1, series2, signals, sqrt)
    ensures ChargedOnChanges(BacktestPair(series1, series2, signals, beta, cfg, sqrt).exposure,
                             BacktestCost(series1, series2, signals, beta, cfg, sqrt), cfg.CostRate())
  {
    var e := BacktestPair(series1, series2, signals, beta, cfg, sqrt).exposure;
    assert BacktestCost(series1, series2, signals, beta, cfg, sqrt) == CostColumn(e, cfg.CostRate());
    CostOnChanges(e, cfg.CostRate());
  }

  /** PnL is NaN on the first row (and so is the capital); from the second row on the PnL is
      defined where the cost is, and is the previous exposure (0 when NaN) times the spread
      change minus the cost. */
  predicate FollowsPnLRule(e: seq<Option<real>>, spread: seq<real>, c: seq<Option<real>>,
                           p: seq<Option<real>>, cap: seq<Option<real>>)
    requires |e| == |spread| == |c| == |p| == |cap|
  {
    && (|p| > 0 ==> p[0] == None && cap[0] == None)
    && (forall t :: 1 <= t < |p| && p[t].Some? ==>
          && c[t].Some?
          && p[t].value == e[t - 1].GetOr(0.0) * (spread[t] - spread[t - 1]) - c[t].value)
  }

  lemma PnLRule(e: seq<Option<real>>, spread: seq<real>, c: seq<Option<real>>, base: real)
    requires |e| == |spread| == |c|
    ensures var p := PnLColumn(e, spread, c);
      FollowsPnLRule(e, spread, c, p, CapitalColumn(p, base))
  {
  }

  lemma BacktestPnLRule(series1: Series, series2: Series, signals: Series, beta: real,
      cfg: Config, sqrt: real -> real)
    requires ValidInputs(series1, series2, signals, sqrt)
    ensures var f := BacktestPair(series1, series2, signals, beta, cfg, sqrt);
      FollowsPnLRule(f.exposure, f.spread, BacktestCost(series1, series2, signals, beta, cfg, sqrt),
                     f.pnl, f.capital)
  {
    var f := BacktestPair(series1, series2, signals, beta, cfg, sqrt);
    var c := BacktestCost(series1, series2, signals, beta, cfg, sqrt);
    assert c == CostColumn(f.exposure, cfg.CostRate());
    assert f.pnl == PnLColumn(f.exposure, f.spread, c);
    assert f.capital == CapitalColumn(f.pnl, cfg.capitalBase);
    PnLRule(f.exposure, f.spread, c, cfg.capitalBase);
  }

  /** Capital moves by exactly each row's PnL, and equals the starting capital plus every
      defined PnL so far. */
  lemma BacktestCapitalPath(series1: Series, series2: Series, signals: Series, beta: real,
      cfg: Config, sqrt: real -> real)
    requires ValidInputs(series1, series2, signals, sqrt)
    ensures var f := BacktestPair(series1, series2, signals, beta, cfg, sqrt);
      && (forall t :: 1 <= t < |f.index| && f.capital[t].Some? && f.capital[t - 1].Some? ==>
            f.capital[t].value == f.capital[t - 1].value + f.pnl[t].value)
      && (forall t :: 0 <= t < |f.index| && f.pnl[t].Some? ==>
            f.capital[t].value == cfg.capitalBase + Sum(Defined(f.pnl[..t + 1])))
  {
    CapitalIsBasePlusReturns(BacktestPair(series1, series2, signals, beta, cfg, sqrt).pnl, cfg.capitalBase);
  }

  /** With no exposure on the previous row and non-negative costs the PnL is never positive. */
  lemma PnLIdleRowsLose(e: seq<Option<real>>, spread: seq<real>, c: seq<Option<real>>)
    requires |e| == |spread| == |c|
    requires forall t :: 0 <= t < |c| && c[t].Some? ==> c[t].value >= 0.0
    ensures var p := PnLColumn(e, spread, c);
      forall t :: 1 <= t < |p| && p[t].Some? && e[t - 1].GetOr(0.0) == 0.0 ==> p[t].value <= 0.0
  {
  }

  /** With no exposure on the previous row the PnL is minus the cost, so never positive. */
  lemma BacktestIdleRowsLose(series1: Series, series2: Series, signals: Series, beta: real,
      cfg: Config, sqrt: real -> real)
    requires ValidInputs(series1, series2, signals, sqrt)
    requires cfg.CostRate() >= 0.0
    ensures var f := BacktestPair(series1, series2, signals, beta, cfg, sqrt);
      forall t :: 1 <= t < |f.index| && f.pnl[t].Some? && f.exposure[t - 1].GetOr(0.0) == 0.0 ==>
        f.pnl[t].value <= 0.0
  {
    var f := BacktestPair(series1, series2, signals, beta, cfg, sqrt);
    var c := CostColumn(f.exposure, cfg.CostRate());
    assert f.pnl == PnLColumn(f.exposure, f.spread, c);
    CostNonNegative(f.exposure, cfg.CostRate());
    PnLIdleRowsLose(f.exposure, f.spread, c);
  }

  /** A winning row needs a defined, non-neutral signal on the row before it. */
  lemma BacktestWinsNeedPosition(series1: Series, series2: Series, signals: Series, beta: real,
      cfg: Config, sqrt: real -> real)
    requires ValidInputs(series1, series2, signals, sqrt)
    requires cfg.CostRate() >= 0.0
    ensures var f := BacktestPair(series1, series2, signals, beta, cfg, sqrt);
      forall t :: 0 <= t < |f.index| && f.pnl[t].Some? && f.pnl[t].value > 0.0 ==>
        t >= 1 && f.signal[t - 1].Some? && f.signal[t - 1].value != 0.0
  {
    var f := BacktestPair(series1, series2, signals, beta, cfg, sqrt);
    BacktestIdleRowsLose(series1, series2, signals, beta, cfg, sqrt);
    forall t | 0 <= t < |f.index| && f.pnl[t].Some? && f.pnl[t].value > 0.0
      ensures t >= 1 && f.signal[t - 1].Some? && f.signal[t - 1].value != 0.0
    {
      assert f.exposure[t - 1].GetOr(0.0) != 0.0;
    }
  }

  // ---------------------------------------------------------------------------------------
  // compute_metrics.

  /** The four reported statistics (before their final rounding). */
  datatype Metrics = Metrics(sharpeRatio: real, maxDrawdown: Option<real>, winRatio: real, tradeCount: nat)

  const TradingDays: real := 252.0

  /** `mean / std * sqrt(252)` when the sample std of the daily returns is > 0; 0 otherwise,
      including when fewer than two daily returns make the std NaN. */
  function SharpeRatio(daily: seq<real>, sqrt: real -> real): (r: real)
    ensures |daily| < 2 ==> r == 0.0
    ensures |daily| >= 2 && sqrt(SampleVariance(daily)) <= 0.0 ==> r == 0.0
    ensures |daily| >= 2 && sqrt(SampleVariance(daily)) > 0.0 ==>
              r * sqrt(SampleVariance(daily)) == Mean(daily) * sqrt(TradingDays)
  {
    if |daily| >= 2 && sqrt(SampleVariance(daily)) > 0.0 then
      Mean(daily) / sqrt(SampleVariance(daily)) * sqrt(TradingDays)
    else 0.0
  }

  /** Identical daily returns have zero std, hence a Sharpe ratio of exactly 0. */
  lemma FlatReturnsZeroSharpe(daily: seq<real>, c: real, sqrt: real -> real)
    requires AllEqual(daily, c) && sqrt(0.0) == 0.0
    ensures SharpeRatio(daily, sqrt) == 0.0
  {
    if |daily| >= 2 {
      ConstantHasZeroVariance(daily, c);
    }
  }

  /** The running maximum `cummax()` carries past row t: the largest defined value up to t,
      NaN cells skipped. */
  function PeakSoFar(col: seq<Option<real>>, t: nat): (r: Option<real>)
    requires t < |col|
    ensures r.Some? <==> exists k :: 0 <= k <= t && col[k].Some?
    ensures r.Some? ==> forall k :: 0 <= k <= t && col[k].Some? ==> col[k].value <= r.value
    ensures r.Some? ==> exists k :: 0 <= k <= t && col[k] == r
  {
    var before := if t == 0 then None else PeakSoFar(col, t - 1);
    match col[t]
    case None => before
    case Some(c) =>
      match before
      case None => Some(c)
      case Some(b) => Some(Max(b, c))
  }

  /** `Series.max()` with NaN skipped: NaN when every cell is NaN. */
  function MaxOf(col: seq<Option<real>>): (r: Option<real>)
    ensures r.Some? <==> exists k :: 0 <= k < |col| && col[k].Some?
    ensures r.Some? ==> forall k :: 0 <= k < |col| && col[k].Some? ==> col[k].value <= r.value
    ensures r.Some? ==> exists k :: 0 <= k < |col| && col[k] == r
  {
    if |col| == 0 then None else PeakSoFar(col, |col| - 1)
  }

  /** `cummax()` at row t: NaN where the cell itself is NaN, and otherwise the largest defined
      value up to t. */
  function CumMax(col: seq<Option<real>>, t: nat): (r: Option<real>)
    requires t < |col|
    ensures r.Some? <==> col[t].Some?
    ensures r.Some? ==> forall k :: 0 <= k <= t && col[k].Some? ==> col[k].value <= r.value
    ensures r.Some? ==> exists k :: 0 <= k <= t && col[k] == r
  {
    if col[t].Some? then PeakSoFar(col, t) else None
  }

  /** `cummax(capital) - capital`: never negative. */
  function DrawdownColumn(cap: seq<Option<real>>): (dd: seq<Option<real>>)
    ensures |dd| == |cap|
    ensures forall t :: 0 <= t < |dd| ==> (dd[t].Some? <==> cap[t].Some?)
    ensures forall t :: 0 <= t < |dd| && dd[t].Some? ==> dd[t].value >= 0.0
  {
    seq(|cap|, t requires 0 <= t < |cap| => DrawdownAt(cap, t))
  }

  /** One drawdown cell `peak - cumulative`: NaN where the capital is NaN. */
  function DrawdownAt(cap: seq<Option<real>>, t: nat): (d: Option<real>)
    requires t < |cap|
    ensures d.Some? <==> cap[t].Some?
    ensures d.Some? ==> d.value >= 0.0
  {
    if cap[t].Some? then Some(CumMax(cap, t).value - cap[t].value) else None
  }

  /** The maximum drawdown: >= 0, and NaN only when every capital cell is NaN. */
  function MaxDrawdown(cap: seq<Option<real>>): (r: Option<real>)
    ensures r.Some? <==> exists t :: 0 <= t < |cap| && cap[t].Some?
    ensures r.Some? ==> r.value >= 0.0
  {
    var dd := DrawdownColumn(cap);
    MaxOfNonNegative(dd);
    MaxOf(dd)
  }

  lemma MaxOfNonNegative(col: seq<Option<real>>)
    requires forall t :: 0 <= t < |col| && col[t].Some? ==> col[t].value >= 0.0
    ensures MaxOf(col).Some? ==> MaxOf(col).value >= 0.0
  {
    if MaxOf(col).Some? {
      var k :| 0 <= k < |col| && col[k] == MaxOf(col);
    }
  }

  /** A capital path that never decreases. */
  predicate NeverFalls(cap: seq<Option<real>>) {
    forall i, j :: 0 <= i < j < |cap| && cap[i].Some? && cap[j].Some? ==> cap[i].value <= cap[j].value
  }

  /** When no earlier capital exceeds the capital at a defined row t, cummax there is
      that row's capital and the drawdown is 0. */
  lemma PeakOfRisingPath(cap: seq<Option<real>>, t: nat)
    requires t < |cap| && cap[t].Some?
    requires forall k :: 0 <= k < t && cap[k].Some? ==> cap[k].value <= cap[t].value
    ensures CumMax(cap, t) == cap[t]
    ensures DrawdownAt(cap, t) == Some(0.0)
  {
    if t > 0 {
      var before := PeakSoFar(cap, t - 1);
      if before.Some? {
        var k :| 0 <= k <= t - 1 && cap[k] == before;
        assert before.value <= cap[t].value;
      }
    }
  }

  /** A column whose defined cells are all 0 has maximum 0 or NaN. */
  lemma MaxOfZeros(col: seq<Option<real>>)
    requires forall t :: 0 <= t < |col| && col[t].Some? ==> col[t] == Some(0.0)
    ensures MaxOf(col) == None || MaxOf(col) == Some(0.0)
  {
    if MaxOf(col).Some? {
      var k :| 0 <= k < |col| && col[k] == MaxOf(col);
    }
  }

  /** A capital path that never decreases has no drawdown. */
  lemma NoDrawdownWhenCapitalNeverFalls(cap: seq<Option<real>>)
    requires NeverFalls(cap)
    ensures MaxDrawdown(cap) == None || MaxDrawdown(cap) == Some(0.0)
  {
    var dd := DrawdownColumn(cap);
    forall t | 0 <= t < |dd| && dd[t].Some?
      ensures dd[t] == Some(0.0)
    {
      assert forall k :: 0 <= k < t && cap[k].Some? ==> cap[k].value <= cap[t].value;
      PeakOfRisingPath(cap, t);
    }
    MaxOfZeros(dd);
  }

  /** `Signal.diff().fillna(0) != 0` at row t: a NaN on either side is no change. */
  predicate SignalChangedAt(sig: seq<Option<real>>, t: nat)
    requires 1 <= t < |sig|
  {
    sig[t].Some? && sig[t - 1].Some? && sig[t].value != sig[t - 1].value
  }

  /** The trade count: rows whose signal differs from the previous row's; at most n - 1. */
  function SignalChanges(sig: seq<Option<real>>): (n: nat)
    ensures n <= if |sig| == 0 then 0 else |sig| - 1
  {
    if |sig| <= 1 then 0
    else SignalChanges(sig[..|sig| - 1]) + (if SignalChangedAt(sig, |sig| - 1) then 1 else 0)
  }

  /** The rows where the signal changed. */
  function ChangeRows(sig: seq<Option<real>>): set<nat> {
    set t: nat | 1 <= t < |sig| && SignalChangedAt(sig, t)
  }

  /** The trade count is the number of rows t >= 1 whose defined signal differs from the
      defined signal of row t - 1. */
  lemma {:induction false} SignalChangesCountsRows(sig: seq<Option<real>>)
    ensures SignalChanges(sig) == |ChangeRows(sig)|
  {
    if |sig| <= 1 {
      assert ChangeRows(sig) == {};
    } else {
      var prefix := sig[..|sig| - 1];
      SignalChangesCountsRows(prefix);
      assert forall t :: 1 <= t < |prefix| ==> (SignalChangedAt(prefix, t) <==> SignalChangedAt(sig, t));
      if SignalChangedAt(sig, |sig| - 1) {
        assert ChangeRows(sig) == ChangeRows(prefix) + {|sig| - 1};
      } else {
        assert ChangeRows(sig) == ChangeRows(prefix);
      }
    }
  }

  /** The rows among the first k whose PnL is defined and positive. */
  function WinningRows(pnl: seq<Option<real>>, k: nat): (n: nat)
    requires k <= |pnl|
    ensures n <= k
  {
    if k == 0 then 0
    else WinningRows(pnl, k - 1) + (if pnl[k - 1].Some? && pnl[k - 1].value > 0.0 then 1 else 0)
  }

  /** `Signal.shift() != 0` at row t: true on the first row (NaN != 0) and after a NaN signal. */
  predicate ShiftedNonZero(sig: seq<Option<real>>, t: nat)
    requires t < |sig|
  {
    t == 0 || sig[t - 1] != Some(0.0)
  }

  /** The denominator `(Signal.shift() != 0).sum()` over the first k rows: the first row
      always counts, so it is positive as soon as there is a row. */
  function ShiftedNonZeroRows(sig: seq<Option<real>>, k: nat): (n: nat)
    requires k <= |sig|
    ensures n <= k
    ensures k > 0 ==> n >= 1
  {
    if k == 0 then 0
    else ShiftedNonZeroRows(sig, k - 1) + (if ShiftedNonZero(sig, k - 1) then 1 else 0)
  }

  /** wins / total_trades, or 0 when the denominator is 0. */
  function WinRatio(pnl: seq<Option<real>>, sig: seq<Option<real>>): (r: real)
    requires |pnl| == |sig|
    ensures r >= 0.0
    ensures ShiftedNonZeroRows(sig, |sig|) == 0 ==> r == 0.0
  {
    var total := ShiftedNonZeroRows(sig, |sig|);
    if total > 0 then WinningRows(pnl, |pnl|) as real / total as real else 0.0
  }

  /** If every winning row has a non-zero shifted signal, wins never exceed the denominator. */
  lemma {:induction false} WinsWithinDenominator(pnl: seq<Option<real>>, sig: seq<Option<real>>, k: nat)
    requires |pnl| == |sig| && k <= |pnl|
    requires forall t :: 0 <= t < |pnl| && pnl[t].Some? && pnl[t].value > 0.0 ==> ShiftedNonZero(sig, t)
    ensures WinningRows(pnl, k) <= ShiftedNonZeroRows(sig, k)
  {
    if k > 0 {
      WinsWithinDenominator(pnl, sig, k - 1);
    }
  }

  lemma FractionAtMostOne(a: real, b: real)
    requires 0.0 <= a <= b && b > 0.0
    ensures a / b <= 1.0
  {
    assert a / b * b == a;
  }

  lemma WinRatioAtMostOne(pnl: seq<Option<real>>, sig: seq<Option<real>>)
    requires |pnl| == |sig|
    requires forall t :: 0 <= t < |pnl| && pnl[t].Some? && pnl[t].value > 0.0 ==> ShiftedNonZero(sig, t)
    ensures WinRatio(pnl, sig) <= 1.0
  {
    WinsWithinDenominator(pnl, sig, |pnl|);
    var total := ShiftedNonZeroRows(sig, |sig|);
    if total > 0 {
      FractionAtMostOne(WinningRows(pnl, |pnl|) as real, total as real);
    }
  }

  /** compute_metrics on a result frame. */
  function ComputeMetrics(f: Frame, sqrt: real -> real): (m: Metrics)
    requires f.WellFormed()
    ensures m.maxDrawdown.Some? ==> m.maxDrawdown.value >= 0.0
    ensures m.maxDrawdown.None? <==> forall t :: 0 <= t < |f.capital| ==> f.capital[t].None?
    ensures m.winRatio >= 0.0
    ensures m.tradeCount <= if |f.index| == 0 then 0 else |f.index| - 1
  {
    Metrics(SharpeRatio(Defined(f.pnl), sqrt), MaxDrawdown(f.capital), WinRatio(f.pnl, f.signal), SignalChanges(f.signal))
  }

  /** On backtest_pair's own output (with non-negative cost rates) the win ratio is at most 1. */
  lemma BacktestWinRatioAtMostOne(series1: Series, series2: Series, signals: Series, beta: real,
                                  cfg: Config, sqrt: real -> real)
    requires ValidInputs(series1, series2, signals, sqrt)
    requires cfg.CostRate() >= 0.0
    ensures 0.0 <= ComputeMetrics(BacktestPair(series1, series2, signals, beta, cfg, sqrt), sqrt).winRatio <= 1.0
  {
    var f := BacktestPair(series1, series2, signals, beta, cfg, sqrt);
    BacktestWinsNeedPosition(series1, series2, signals, beta, cfg, sqrt);
    WinRatioAtMostOne(f.pnl, f.signal);
  }
}
