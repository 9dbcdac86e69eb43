# Pairs-trading core in Dafny

This project models the numerical core of a pairs-trading (statistical-arbitrage) toolkit
and proves properties of the model. It covers four steps:

- **Pair screening**, `find_cointegrated_pairs`. Every unordered pair of price columns is
  tested once, in `itertools.combinations` order. A pair is kept when its Engle-Granger
  p-value is below the significance level. The kept pair stores `round(pval, 4)`, and the list
  is then stable-sorted ascending by that stored value.
- **Spread and signals**:
  - `compute_spread` computes `series1 - beta * series2`, where beta is an OLS slope.
  - `generate_signals` is a three-pass threshold classifier over a global z-score. A zeros
    array is overwritten by the masks `z > entry_z → -1`, then `z < -entry_z → +1`, then
    `|z| < exit_z → 0`; the last pass wins.
- **The vectorised backtest**, `backtest_pair`, and its summary, `compute_metrics`:
  - Signals are cut to the last `len(series1)` entries and reindexed to series1.
  - The backtest builds the spread and a 20-row rolling z-score with `fillna(0)`.
  - Volatility is the back-filled rolling std. The position size is `|z|/(vol+1e-6)/risk_aversion`,
    clipped above at 2.0.
  - It then builds exposure, trade-triggered execution cost, PnL and a capital prefix sum.
  - The metrics are a zero-guarded Sharpe ratio, the maximum drawdown via `cummax`, a trade
    count from signal changes, and a win ratio with a zero-denominator guard.
- **Two feature helpers**: the z-crossing count of `extract_features`, and the guard chain of
  `estimate_half_life`.

Modelling choices:

- Prices and derived values are exact `real`s.
- A pandas NaN cell is `None` in a column of type `seq<Option<real>>`.
- Library numerics the core calls are function-valued parameters (oracles):
  - the cointegration p-value;
  - `round(., 4)`;
  - the OLS slope;
  - `np.polyfit`'s slope;
  - the square root under every standard deviation.

  Every member that needs a fact about the square root assumes only that it is never negative
  (`Numeric.NonNegativeRoot`). The one exception is `Backtest.FlatReturnsZeroSharpe`, which
  also assumes `sqrt(0) = 0`.
- The default arguments are constants: `Coint.DefaultSignificance` (0.2),
  `Strategy.DefaultEntryZ` (1.0) and `Strategy.DefaultExitZ` (0.0).
- `compute_spread` returns `None` where the code raises. `sm.add_constant` fails on an empty
  regressor. For a non-zero constant regressor it adds no intercept column, so the fit has a
  single parameter and `params[1]` raises `IndexError`.
- In `generate_signals` a division by a zero std is modelled as the IEEE result it produces
  (`Strategy.ZValue`: ±inf, or NaN for 0/0), with NaN comparing false in every mask.
- Each step follows the code's form:
  - The signal generator is a `method` over an `array`, with one loop per masked assignment.
  - The pair screen is a `method` whose nested loops append to a list, which is then sorted.
  - The sort is `list.sort`, modelled as a stable insertion sort (`Coint.SortByPValue`) whose
    permutation, ordering and stability are proved.
  - The backtest, the metrics and the features are whole-column expressions, so they are
    functions. They use recursion for the prefix sum, the running peak and the counts.
- Every function is deterministic, so `compute_spread` gives equal spreads for equal inputs
  and an equal slope without a separate lemma.

Files: `options.dfy` (Option), `numeric.dfy` (sums, means, variances), `columns.dfy` (labelled
series, `dropna`, label lookup), `strategy.dfy`, `coint.dfy`, `backtest.dfy`, `features.dfy`.

The model follows the code as written where it departs from the behaviour that its callers and
its documentation describe:

- `generate_signals` has only the global z-score basis; there is no rolling basis for signals.
- The position size is clipped after the division by `risk_aversion`, and only from above, at
  the hard-coded 2.0. There is no `max_leverage` or `stop_loss_pct` parameter.
- The simulator charges `|exposure(t)| * (slippage + cost)` on rows where the exposure changed.
  It does not charge `|Δexposure|`.
- The trade count counts signal changes; there are no Entry/Exit tags.
- A z-score with a zero std is not replaced by 0 in `generate_signals`: it is ±inf or NaN.
- An exception from the cointegration test is not caught, so a failing pair is not skipped.
- With a negative `entry_z` both entry masks can fire, and the long pass (written second) wins.
  This is why `Strategy.ShortEntry` needs `entry_z >= 0`.

## Model

| member | source | states |
|---|---|---|
| Coint.FindCointegratedPairs | src/coint.py:5-28 | the returned list is the stable sort of the screened list; it is ordered by stored p-value and is a permutation of the screened list; every entry is an accepted pair (first < second, unrounded p-value below the level, stored value = round4 of it); every pair with p-value below the level is present; no unordered pair appears twice; 2·length ≤ k(k-1) |
| Coint.TestAllPairs | src/coint.py:16-25 | the nested loops over combinations order build exactly the screened list PairsBefore(k) |
| Coint.Screened | src/coint.py:19-25 | a pair is in the screened list iff its unrounded p-value is below the level: every entry is accepted and every accepted pair is present |
| Coint.PairsBeforeAccepted | src/coint.py:19-25 | every pair the loop has appended before row i is accepted and has its first column below i |
| Coint.PairsBeforeComplete | src/coint.py:19-25 | every pair (p, q) with p < q, p below i and unrounded p-value below the level has been appended |
| Coint.PairsBeforeDistinct | src/coint.py:19 | the appended list has no repeated entry |
| Coint.PairsBeforeColumns | src/coint.py:19 | every appended pair has first column below i |
| Coint.PairsBeforeLength | src/coint.py:19-25 | twice the number of appended pairs is at most i(2k-i-1) |
| Coint.RowPairsAccepted | src/coint.py:19-25 | pairs of one row are accepted, with first column i and second column below j |
| Coint.RowPairsComplete | src/coint.py:22-25 | every (i, q) below j whose unrounded p-value is below the level is in the row's list |
| Coint.RowPairsColumns | src/coint.py:19 | pairs of one row have first column i and second column strictly between i and j |
| Coint.RowPairsDistinct | src/coint.py:19 | one row's list has no repeated entry |
| Coint.RowPairsLength | src/coint.py:19 | a row contributes at most j-i-1 pairs |
| Coint.ConcatDistinct | src/coint.py:19 | two duplicate-free lists with no common entry concatenate to a duplicate-free list |
| Coint.ScreenedFacts | src/coint.py:19-25 | the whole screened list is duplicate-free and of length at most k(k-1)/2 |
| Coint.ScreenedOutputFacts | src/coint.py:24-27 | the sorted screened list keeps all those facts and is sorted, and the entries' column pairs are distinct |
| Coint.InsertPermutes | src/coint.py:27 | inserting adds exactly the inserted entry to the multiset |
| Coint.InsertKeepsLowerBound | src/coint.py:27 | insertion keeps a common lower bound on the stored p-values |
| Coint.InsertSorted | src/coint.py:27 | inserting into a sorted list gives a sorted list |
| Coint.InsertStable | src/coint.py:27 | for every key, the entries with that key keep their relative order, the new one first |
| Coint.InsertKeepsDistinct | src/coint.py:27 | inserting a new entry into a duplicate-free list keeps it duplicate-free |
| Coint.SortByPValue | src/coint.py:27 | the sorted list is ascending by stored p-value and a permutation of its input |
| Coint.SortStable | src/coint.py:27 | entries with equal stored p-value keep their input order (stability of `list.sort`) |
| Coint.SortKeepsDistinct | src/coint.py:27 | sorting a duplicate-free list keeps it duplicate-free |
| Strategy.SpreadValues | src/strategy.py:21 | same length as the inputs, and spread[i] + beta·x[i] = y[i] at every row |
| Strategy.ComputeSpread | src/strategy.py:5-22 | the call fails exactly when series2 is empty or a non-zero constant (no intercept column is added, so `params[1]` does not exist); otherwise the spread keeps series1's index, beta is the OLS slope, and spread[i] + beta·series2[i] = series1[i] |
| Strategy.GlobalZScores | src/strategy.py:31 | one z-score per spread value |
| Strategy.Quotient | src/strategy.py:31 | the float quotient is finite iff the divisor is non-zero, and then times the divisor gives the dividend; it is NaN iff both are 0 |
| Strategy.EntrySignal | src/strategy.py:35-36 | after the two entry passes the signal is -1, 0 or +1; with entry_z ≥ 0 it is -1 iff z > entry_z and +1 iff z < -entry_z; where both masks hold the later long pass wins |
| Strategy.SignalFor | src/strategy.py:32-39 | every signal is -1, 0 or +1 |
| Strategy.GenerateSignals | src/strategy.py:25-41 | the in-place three-pass array has, at every row, the value SignalFor gives for that row's global z-score, and keeps the spread's index |
| Strategy.ShortEntry | src/strategy.py:35-39 | with 0 ≤ entry_z < z and abs(z) ≥ exit_z the signal is -1 |
| Strategy.LongEntry | src/strategy.py:36-39 | with z < -entry_z and abs(z) ≥ exit_z the signal is +1 |
| Strategy.NeutralBand | src/strategy.py:32-36 | for -entry_z ≤ z ≤ entry_z the signal is 0 |
| Strategy.ExitOverrides | src/strategy.py:39 | for abs(z) < exit_z the signal is 0 whatever the entry passes set |
| Strategy.DefaultExitInert | src/strategy.py:25-39 | with the default exit_z = 0 the exit pass changes nothing |
| Strategy.SignalAntitone | src/strategy.py:31-39 | with entry_z ≥ 0 a larger z never gives a larger signal |
| Strategy.ConstantSpreadNeutral | src/strategy.py:31-39 | a constant spread gives a neutral signal on every row |
| Backtest.AlignSignals | src/backtest.py:30-31 | exactly one aligned signal per row of series1 |
| Backtest.AlignedSignalsByLabel | src/backtest.py:30-31 | each row gets the signal stored under its timestamp among the last len(series1) entries, or NaN when none has that timestamp |
| Backtest.AlignedSignalsIdentity | src/backtest.py:30-31 | signals already indexed like series1 come through unchanged |
| Backtest.WindowAt | src/backtest.py:38-39 | the rolling window holds 20 values |
| Backtest.RollingStd | src/backtest.py:39 | the rolling std is NaN exactly on the first 19 rows and never negative |
| Backtest.RollingZ | src/backtest.py:38-41 | a z-score cell is 0 on the first 19 rows and afterwards is positive (negative) iff the spread is above (below) its 20-row mean |
| Backtest.ZScoreColumn | src/backtest.py:38-41 | the sizing z-score is 0 on the first 19 rows and afterwards has the sign of spread minus its window mean |
| Backtest.VolatilityColumn | src/backtest.py:44 | the back-filled volatility is defined on every row iff there are at least 20 rows, is never negative, equals the rolling std from row 19 and row 19's value before it |
| Backtest.SizeAt | src/backtest.py:45-46 | a size cell is NaN iff volatility is NaN or the quotient is 0/0 with zero risk aversion; it is never above 2.0, never negative for risk aversion > 0, and exactly 2.0 for zero risk aversion |
| Backtest.SizeColumn | src/backtest.py:45-46 | size is NaN exactly where volatility is NaN (or for 0/0 with zero risk aversion), never above 2.0, and never negative when risk aversion > 0 |
| Backtest.CapitalColumn | src/backtest.py:61 | capital is defined iff PnL is, and moves by exactly each row's PnL between consecutive defined rows |
| Backtest.CumulativePnL | src/backtest.py:61 | the running total at row t is the sum of the defined PnL values up to t |
| Backtest.CapitalIsBasePlusReturns | src/backtest.py:61 | capital at a defined row is capital_base plus the sum of all defined PnL so far |
| Backtest.BacktestPair | src/backtest.py:6-73 | the result frame has one row per entry of series1, all seven columns aligned with series1's index |
| Backtest.BacktestCost | src/backtest.py:52-57 | one execution cost per row |
| Backtest.ProductBound | src/backtest.py:49 | a size in [0, 2] times a signal in [-1, 1] has magnitude at most 2 |
| Backtest.BacktestWarmupZScore | src/backtest.py:38-41 | the frame's ZScore is 0 on the first 19 rows |
| Backtest.BacktestSizeBounds | src/backtest.py:44-46 | with risk aversion > 0 every defined PositionSize lies in [0, 2.0] |
| Backtest.ExposureNeutral | src/backtest.py:49 | a neutral signal gives zero exposure |
| Backtest.BacktestNeutralFlat | src/backtest.py:49 | in the frame, Exposure is 0 wherever Signal is 0 |
| Backtest.ExposureBounded | src/backtest.py:49 | sizes in [0, 2] and signals in [-1, 1] give abs(exposure) ≤ 2 |
| Backtest.BacktestExposureBounded | src/backtest.py:44-49 | with risk aversion > 0 and a signal in [-1, 1], abs(Exposure) ≤ 2.0 |
| Backtest.CostNonNegative | src/backtest.py:55-57 | a non-negative cost rate gives non-negative costs |
| Backtest.BacktestCostNonNegative | src/backtest.py:52-57 | every defined execution cost is ≥ 0 when slippage + transaction cost is |
| Backtest.CostOnChanges | src/backtest.py:52-57 | cost is 0 on row 0 and on unchanged-exposure rows, and abs(exposure)·rate where the exposure changed |
| Backtest.BacktestCostOnChanges | src/backtest.py:52-57 | the same three rules for the cost of the frame's own exposure |
| Backtest.PnLRule | src/backtest.py:60-61 | PnL and capital are NaN on row 0; PnL at t ≥ 1 is previous exposure times spread change minus cost |
| Backtest.BacktestPnLRule | src/backtest.py:60-61 | the same rule for the frame's PnL, spread and exposure |
| Backtest.BacktestCapitalPath | src/backtest.py:60-61 | capital(t) - capital(t-1) = pnl(t), and capital(t) = capital_base + Σ defined pnl up to t |
| Backtest.PnLIdleRowsLose | src/backtest.py:60 | with zero previous exposure and non-negative costs the PnL is ≤ 0 |
| Backtest.BacktestIdleRowsLose | src/backtest.py:49-60 | when slippage + transaction cost ≥ 0, a row of the frame after a zero or NaN exposure never has positive PnL |
| Backtest.BacktestWinsNeedPosition | src/backtest.py:49-60 | when slippage + transaction cost ≥ 0, a positive-PnL row follows a row with a defined non-zero signal |
| Backtest.SharpeRatio | src/backtest.py:83-86 | Sharpe is 0 with fewer than two returns or a non-positive std, and otherwise Sharpe·std = mean·sqrt(252) |
| Backtest.FlatReturnsZeroSharpe | src/backtest.py:83-86 | identical daily returns give a Sharpe ratio of exactly 0 |
| Backtest.PeakSoFar | src/backtest.py:88 | the maximum carried past row t is defined once a defined value has been seen, bounds every defined value so far and is one of them |
| Backtest.CumMax | src/backtest.py:88 | cummax at row t is NaN iff the capital there is NaN; otherwise it bounds every defined value up to t and is one of them |
| Backtest.MaxOf | src/backtest.py:90 | the NaN-skipping maximum is defined iff some cell is, bounds every defined cell and is one of them |
| Backtest.DrawdownColumn | src/backtest.py:88-89 | drawdown is defined iff capital is, and is never negative |
| Backtest.DrawdownAt | src/backtest.py:88-89 | one drawdown cell is defined iff the capital is, and is ≥ 0 |
| Backtest.MaxDrawdown | src/backtest.py:88-90 | max drawdown is NaN only when every capital cell is NaN, and otherwise ≥ 0 |
| Backtest.MaxOfNonNegative | src/backtest.py:90 | the maximum of non-negative cells is non-negative |
| Backtest.PeakOfRisingPath | src/backtest.py:88-89 | when no earlier capital exceeds row t's, the peak is row t's capital and its drawdown is 0 |
| Backtest.MaxOfZeros | src/backtest.py:90 | a column of zeros and NaN has maximum 0 or NaN |
| Backtest.NoDrawdownWhenCapitalNeverFalls | src/backtest.py:88-90 | a capital path that never decreases has max drawdown 0 (or NaN when empty of values) |
| Backtest.SignalChanges | src/backtest.py:92-93 | the trade count is at most n-1 |
| Backtest.SignalChangesCountsRows | src/backtest.py:92-93 | the trade count is the number of rows t ≥ 1 whose defined signal differs from row t-1's |
| Backtest.WinningRows | src/backtest.py:95 | the count of positive defined PnL rows among the first k is at most k |
| Backtest.ShiftedNonZeroRows | src/backtest.py:96 | the denominator over the first k rows is at most k, and at least 1 once k > 0 (row 0's NaN shift counts) |
| Backtest.WinRatio | src/backtest.py:95-97 | the win ratio is ≥ 0, and 0 when no row has a shifted signal ≠ 0 |
| Backtest.WinsWithinDenominator | src/backtest.py:95-96 | if every winning row has a shifted signal ≠ 0, wins never exceed the denominator |
| Backtest.WinRatioAtMostOne | src/backtest.py:95-97 | under that condition the win ratio is at most 1 |
| Backtest.ComputeMetrics | src/backtest.py:76-104 | max drawdown ≥ 0 and NaN only for an all-NaN capital, win ratio ≥ 0, trade count ≤ n-1 |
| Backtest.BacktestWinRatioAtMostOne | src/backtest.py:95-97 | on backtest_pair's own output (non-negative costs) the win ratio lies in [0, 1] |
| Features.CrossingsBefore | src/features.py:13 | the count over the first k rows is at most k-1 |
| Features.ZCrossings | src/features.py:13-22 | the z-crossing count lies between 0 and len(z)-1 |
| Features.CrossingIsSignFlip | src/features.py:13 | row t counts iff both z-scores are defined and one is negative and the other positive |
| Features.ProductSign | src/features.py:13 | a product is negative iff its factors have strictly opposite signs |
| Features.ZeroNeverCrosses | src/features.py:13 | a zero z-score on either side never counts as a crossing |
| Features.CrossingsBeforeCountsRows | src/features.py:13 | the count is the size of the set of crossing rows |
| Features.ZCrossingsCountsRows | src/features.py:13 | the feature equals the number of rows t ≥ 1 with z[t-1]·z[t] < 0 |
| Features.NoCrossingsWhenNonNegative | src/features.py:13 | a z-score that is never negative has no crossings |
| Features.ShiftDown | src/features.py:36 | `shift(1)` puts NaN on row 0 and the previous value on every later row |
| Features.Difference | src/features.py:37 | `spread - lagged` is defined exactly where the lag is, and adds back to the spread |
| Features.Changes | src/features.py:37 | the n-1 successive changes add to the earlier value to give the later one |
| Features.DifferenceCells | src/features.py:37 | the difference is NaN followed by the successive changes |
| Features.Lagged | src/features.py:36 | after `dropna`, lagged is every value of the series but the last |
| Features.Increments | src/features.py:37 | after `dropna`, delta is the n-1 successive changes, so it has the length of lagged and the guard at line 39 never fires |
| Features.FittedSlope | src/features.py:42 | the slope is the fit of the successive changes against the values they start from |
| Features.HalfLifeOfSlope | src/features.py:42-46 | NaN iff the slope is ≥ 0; otherwise a positive h with h·slope = -ln 2 |
| Features.HalfLife | src/features.py:28-47 | NaN when fewer than 2 defined points; otherwise defined iff the fitted slope is negative, and then positive with h·slope = -ln 2 |
| Features.HalfLifeReference | src/features.py:32-46 | without its two dead guards the half-life is -ln 2 / slope for a negative slope and NaN otherwise |
| Columns.Defined | src/features.py:32 | `dropna` never grows a column |
| Columns.DefinedAllDefined | src/features.py:36-37 | `dropna` of a NaN-free column gives back its values |
| Columns.DefinedSkipsLeadingNaN | src/features.py:36-37 | `dropna` discards a leading NaN |
| Columns.Lookup | src/backtest.py:31 | the lookup finds a value iff the stamp is in the index, and that value is stored under the stamp |
| Columns.Position | src/backtest.py:31 | the lookup position is the first occurrence of the stamp, or the length when absent |
| Columns.LookupUnique | src/backtest.py:31 | on a duplicate-free index the lookup returns the value under the stamp, NaN when absent |
| Numeric.SquaredDeviations | src/backtest.py:39 | a sum of squared deviations is non-negative |
| Numeric.PopulationVariance | src/strategy.py:31 | the population variance (ddof 0) is non-negative |
| Numeric.SampleVariance | src/backtest.py:84 | the sample variance (ddof 1) is non-negative |
| Numeric.SumOfConstant | src/strategy.py:31 | n copies of c sum to n·c |
| Numeric.MeanOfConstant | src/strategy.py:31 | a constant sequence has that constant as mean |
| Numeric.DeviationsFromConstant | src/backtest.py:84 | a constant sequence has zero squared deviations from its value |
| Numeric.ConstantHasZeroVariance | src/backtest.py:84-85 | a constant sequence has zero sample variance |

## Left out

- Loading prices (Yahoo, Alpaca), exporting results, configuration files, the UI and the ML
  modules are not part of this model; they are I/O or foreign-library code.
- The cointegration test, the OLS fit, `np.polyfit`, `round(., 4)` and the square root are
  oracles. Only the square root carries an assumption: it is never negative, and
  `Backtest.FlatReturnsZeroSharpe` also assumes `sqrt(0) = 0`.
- Strategy.ComputeSpread: apart from the empty and non-zero constant regressor, the OLS fit
  is assumed to return a slope. A fit that fails numerically is not modelled.
- IEEE floating point is not modelled: all arithmetic is exact real arithmetic. There is no
  overflow or rounding error. The only infinities are those of `Strategy.ZValue`, and
  `SizeAt`'s division by a zero risk aversion.
- The final rounding of the outputs is not modelled, and the metrics and features are stated
  before it. That rounding is `round(., 4)` for the Sharpe ratio, max drawdown and win ratio,
  and `round(., 2)` for the half-life. The trade count and ZCrossings pass through `int(...)`;
  they are counts already, so the model gives them as `nat`.
- extract_features' other fields are not modelled:
  - Volatility, MeanZ, StdZ, MaxZ and MinZ are library reductions of the spread and its
    z-score, rounded to 4 places.
  - Beta and P-Value are the caller's own beta and p-value, rounded to 4 places.
- The `CumulativePnL` fallback of compute_metrics (src/backtest.py:81) is not modelled.
  `backtest_pair` always produces a Capital column, so the fallback branch is dead.
- An exception raised by the cointegration test propagates out of the screen. The model gives
  the test no failure path.
- Backtest.BacktestPair: requires series2 to carry series1's index. With another index pandas
  aligns `series1 - beta * series2` on the union of labels; that path is not modelled.
- Backtest.BacktestPair: requires the whole signal index to have no repeated timestamp, which
  is more than pandas needs. `reindex` sees only the tail `signals[-len(series1):]`. It raises
  only when that tail repeats a label and its index differs from series1's. It returns the
  tail unchanged when the tail is indexed exactly like series1, even with repeats. Repeats in
  the head that the cut drops change nothing. Signals with repeated timestamps are not modelled.
- `Features.HalfLife` takes `spread - lagged` to align by position on a spread whose labels are
  distinct. It does not model pandas' label alignment with duplicate labels.
- Duplicate ticker names in the price matrix are not modelled: pairs are told apart by column
  position.
- The dictionary forms of the outputs (tuples and mappings with string keys) are represented
  as fields of datatypes.
