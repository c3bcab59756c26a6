# Portfolio backtest core, modelled in Dafny

This project models the sequence logic of a small portfolio-optimisation
pipeline. The pipeline downloads prices, cleans them, forecasts one asset
with an LSTM, optimises weights and backtests them. Three pieces of it are
exact index and arithmetic logic. Those are modelled here, with all prices
and returns as exact `real` numbers:

- **Forecasting data preparation** (`forecasting.dfy`, module `Forecasting`).
  - The chronological train/test split uses Python negative slicing.
  - The look-back windows that feed the sequence model are built by a loop.
- **Backtest path statistics** (`backtester.dfy`, module `Backtester`).
  - The per-row weighted portfolio return.
  - Cumulative growth of one unit.
  - The running peak and the maximum drawdown.
  - The total return.
- **Data preparation** (`preprocessing.dfy`, module `Preprocessing`).
  - Imputation by forward fill, then backward fill, in place on a rows × columns array.
  - Extraction of the adjusted-close column of each ticker.
  - One-period percentage change.
- `frames.dfy` (module `Frames`) holds the shared types.
  - `Cell` is a table cell, and `Missing` stands for NaN.
  - `Table` is a column-oriented table with an explicit row count.
  - `Option` is an optional value.
- `pipeline.dfy` (module `Pipeline`) connects the modules. It shows that compounded returns retrace the prices, and it works through the single-asset example.

## How pandas behaviour is rendered

- `(returns_df * pd.Series(weights)).sum(axis=1)` aligns the weights on the column labels.
  - A column without a weight is multiplied by NaN. `sum` skips NaN, so that column contributes 0.
  - A weight without a column adds only NaN.
  - So the model needs no matching ticker sets. A column counts only if its label has a weight.
- `pct_change().dropna()`:
  - For a table with at least one column, the first row (all NaN) is dropped.
  - A table with no columns has no NaN, so it keeps its rows.
  - Fewer than two rows give an empty table, not an error.
- `cumulative.iloc[-1]` raises on an empty series. `TotalReturn` returns `None` there.
- `Series.min()` of an empty series is NaN. `MaxDrawdown` returns `None` there.
- `df[ticker]['Adj Close']` raises `KeyError` at the first ticker without an adjusted-close column. `GetAdjClose` returns `KeyError(key)` with the key pandas reports:
  - the ticker itself, when the table has no column for that ticker at all (`df[ticker]` fails);
  - `'Adj Close'`, when the ticker has other fields but no adjusted close (the second lookup fails).
  - Assigning a ticker that is already in the table replaces its column.
  - So a repeated ticker gives one column, at its first position.
- For fewer than two price rows, the code returns an empty table and raises no error.
- Weights and columns with different tickers raise no error either. Unmatched columns and weights contribute nothing.

## Model

| member | source | states |
|---|---|---|
| `Forecasting.TrainTestSplit` | src/forecasting.py:7-13 | For any integer test size, train followed by test is the input. For `0 < k <= len`, test is the last `k` elements and train the first `len - k`. For `k == 0` or `k >= len`, train is empty and test is the whole series. A negative `k == -m` keeps the first `m` elements for training. |
| `Forecasting.ChronologicalSplit` | src/forecasting.py:7-13 | Corrected split: train followed by test is the input, and test is the last `min(k, len)` elements. So a test size of 0 holds out nothing. |
| `Forecasting.SplitsAgreeExceptAtZero` | src/forecasting.py:11-12 | The written split and the corrected split are equal for every positive test size. On a non-empty series they differ at test size 0. |
| `Forecasting.ZeroTestSizeTakesEverything` | src/forecasting.py:11-12 | Example: series `[1, 2]` with test size 0. The written split gives train `[]` and test `[1, 2]`. The corrected split gives train `[1, 2]` and test `[]`. |
| `Forecasting.CreateSequences` | src/forecasting.py:15-23 | `x` and `y` both have length `max(0, len - seqLength)`. Window `k` has `seqLength` elements and is column 0 of rows `k .. k+seqLength-1`. Target `k` is column 0 of row `k + seqLength`, the row right after its window. So targets appear in chronological order and no window contains its own target. When `seqLength > 0`, `x[k+1] == x[k][1..] + [y[k]]`. |
| `Backtester.PortfolioReturns` | src/backtester.py:5-11 | One portfolio return per row of the return table. |
| `Backtester.PortfolioReturnIsRowLocal` | src/backtester.py:10 | Portfolio return `t` depends only on row `t` and the weights. |
| `Backtester.RowSumIgnoresUnweighted` | src/backtester.py:10 | Changing a column that has a zero weight, or no weight, does not change the row's portfolio return. |
| `Backtester.RowSumAllIgnored` | src/backtester.py:10 | A row in which no column has a non-zero weight has portfolio return 0. |
| `Backtester.RowSumSingleTicker` | src/backtester.py:10 | With weight 1 on one column and every other column ignored, the row's portfolio return is that column's value. |
| `Backtester.SingleTickerPortfolio` | src/backtester.py:10 | With weight 1 on one ticker and 0 (or nothing) on the others, the portfolio returns equal that ticker's return column. |
| `Backtester.Cumulative` | src/backtester.py:13-15 | The cumulative series has the same length as the returns. |
| `Backtester.CumProdFromAt` | src/backtester.py:15 | The running product started from `acc` has `acc * Π_{i<=t} (1 + r[i])` at position `t`. |
| `Backtester.CumulativeIsGrowth` | src/backtester.py:15 | Cumulative value `t` is the product of `1 + r[i]` over `i <= t`. |
| `Backtester.GrowthAppend` | src/backtester.py:15 | The growth over two consecutive stretches is the product of their growths. |
| `Backtester.CumulativeRecurrence` | src/backtester.py:15 | `c[0] == 1 + r[0]` and `c[t] == c[t-1] * (1 + r[t])`. |
| `Backtester.GrowthPositive` | src/backtester.py:15 | If every return is above -1, the growth is positive. |
| `Backtester.GrowthAtLeastOne` | src/backtester.py:15 | If every return is non-negative, the growth is at least 1. |
| `Backtester.CumulativePositive` | src/backtester.py:15 | If every return is above -1, every cumulative value is positive. |
| `Backtester.CumulativeNonDecreasing` | src/backtester.py:15 | If every return is non-negative, cumulative growth never decreases. |
| `Backtester.TotalReturn` | src/backtester.py:27-28 | Defined exactly for a non-empty series. It then equals the product of `1 + r[t]`, minus 1. |
| `Backtester.TotalReturnOfTwoTenPercentPeriods` | src/backtester.py:27-28 | Returns `[0.1, 0.1]` give a total return of 0.21. |
| `Backtester.RunningMax` | src/backtester.py:19 | The running maximum has the same length as its input. |
| `Backtester.RunningMaxStep` | src/backtester.py:19 | The running maximum starts at the first value. Each later entry is the larger of the previous running maximum and the current value. |
| `Backtester.RunningMaxAt` | src/backtester.py:19 | The running maximum at `t` is attained: it equals the value at some index `i <= t`, and no value up to `t` exceeds it. |
| `Backtester.RunningMaxIsPeak` | src/backtester.py:19 | The running maximum at `t` is at least every value up to `t`. It never decreases. |
| `Backtester.PositivePeaks` | src/backtester.py:19-20 | For a positive series, the running peak is never 0 and is at least the current value. |
| `Backtester.Drawdowns` | src/backtester.py:20 | The drawdown curve has one entry per cumulative value. |
| `Backtester.MinOf` | src/backtester.py:21 | The minimum is at most every element and equals one of them. |
| `Backtester.MaxDrawdown` | src/backtester.py:17-21 | Defined exactly for a non-empty series. It is then the smallest drawdown: attained at some point and at most every other point. |
| `Backtester.RelativeDropBounded` | src/backtester.py:20 | A positive value at or below its peak lies in (-1, 0] relative to the peak. |
| `Backtester.DrawdownsBounded` | src/backtester.py:19-20 | For a positive series, every drawdown lies in (-1, 0]. |
| `Backtester.MaxDrawdownBounded` | src/backtester.py:19-21 | For a non-empty positive series, the maximum drawdown lies in (-1, 0]. |
| `Backtester.MaxDrawdownZeroIffNonDecreasing` | src/backtester.py:19-21 | For a non-empty positive series, the maximum drawdown is 0 if and only if no value falls below an earlier one. |
| `Backtester.BacktestDrawdown` | src/backtester.py:13-21 | For non-empty returns all above -1, the maximum drawdown of their cumulative growth lies in (-1, 0]. It is 0 when every return is non-negative. |
| `Preprocessing.FFill` | src/preprocessing.py:13 | The forward fill of a column keeps its length. |
| `Preprocessing.BFill` | src/preprocessing.py:14 | The backward fill of a column keeps its length. |
| `Preprocessing.Clean` | src/preprocessing.py:13-14 | The imputed column keeps its length. |
| `Preprocessing.NearestAboveIsLastPresent` | src/preprocessing.py:13 | A forward-filled cell holds the last present value at or above it. |
| `Preprocessing.NearestAboveMissing` | src/preprocessing.py:13 | A forward-filled cell stays missing if and only if every cell at or above it is missing. |
| `Preprocessing.NearestBelowIsFirstPresent` | src/preprocessing.py:14 | A backward-filled cell holds the first present value at or below it. |
| `Preprocessing.NearestBelowMissing` | src/preprocessing.py:14 | A backward-filled cell stays missing if and only if every cell at or below it is missing. |
| `Preprocessing.CleanKeepsPresent` | src/preprocessing.py:13-14 | The imputation never changes a present cell. |
| `Preprocessing.CleanCarriesForward` | src/preprocessing.py:13 | A missing cell with a present cell above it takes the nearest present value above. |
| `Preprocessing.CleanFillsLeading` | src/preprocessing.py:14 | Missing cells before a column's first present value take that value. |
| `Preprocessing.CleanCompletes` | src/preprocessing.py:13-14 | A column with at least one present cell has no missing cells afterwards. |
| `Preprocessing.CleanKeepsAllMissing` | src/preprocessing.py:13-14 | An all-missing column stays all-missing. |
| `Preprocessing.CleanLeavesCompleteColumn` | src/preprocessing.py:10-16 | A column with no missing cells is unchanged. |
| `Preprocessing.MissingCountZero` | src/preprocessing.py:10 | A column's missing count is 0 if and only if every cell is present. |
| `Preprocessing.FrameMissingCountZero` | src/preprocessing.py:10-11 | The frame's missing count is 0 if and only if every cell of every column is present. |
| `Preprocessing.ForwardStepsGiveFFill` | src/preprocessing.py:13 | A column built top-down, where a present cell stays and a missing cell copies the already-filled cell above it, is exactly the forward fill. |
| `Preprocessing.ForwardStepsGiveNearestAbove` | src/preprocessing.py:13 | Row by row: such a column holds the nearest present value at or above each row. |
| `Preprocessing.BackwardStepsGiveBFill` | src/preprocessing.py:14 | A column built bottom-up, where a present cell stays and a missing cell copies the already-filled cell below it, is exactly the backward fill. |
| `Preprocessing.BackwardStepsGiveNearestBelow` | src/preprocessing.py:14 | Row by row: such a column holds the nearest present value at or below each row. |
| `Preprocessing.ForwardFillColumn` | src/preprocessing.py:13 | In place, on one column: a present cell keeps its value, a missing first cell stays missing, and any other missing cell takes the filled value of the cell above it. No other column changes. |
| `Preprocessing.BackwardFillColumn` | src/preprocessing.py:14 | In place, on one column: a present cell keeps its value, a missing last cell stays missing, and any other missing cell takes the filled value of the cell below it. No other column changes. |
| `Preprocessing.ForwardFill` | src/preprocessing.py:13 | In place: every column of the array becomes its forward fill. |
| `Preprocessing.BackwardFill` | src/preprocessing.py:14 | In place: every column of the array becomes its backward fill. |
| `Preprocessing.CleanData` | src/preprocessing.py:5-18 | In place: every column becomes `Clean` of what it was. The fills run only when the missing count is positive. Otherwise the frame is untouched, which is the same result. |
| `Preprocessing.IndexOf` | src/preprocessing.py:27 | Finds the position of a label already in the table, or reports that it is absent. |
| `Preprocessing.GetAdjClose` | src/preprocessing.py:20-28 | If a ticker has no adjusted-close column, the result is a `KeyError` raised at the first such ticker. It reports that ticker when the table has no column for it, and `'Adj Close'` otherwise. Otherwise there is one column per distinct ticker, with no repeats and the same ticker set. Each column is that ticker's adjusted close. The row count is the raw table's, or 0 when there are no tickers. For distinct tickers, the labels are exactly the tickers in order. |
| `Preprocessing.PctChange` | src/preprocessing.py:34 | One fewer entry than the prices, or none for an empty column. |
| `Preprocessing.CalculateReturns` | src/preprocessing.py:30-34 | Same labels. One fewer row, except that a table with no columns keeps its rows and an empty table stays empty. Cell `t` is `p[t+1] / p[t] - 1`. |
| `Preprocessing.ReturnsColumn` | src/preprocessing.py:30-34 | Column `j` of the returns table is the percentage change of price column `j`. |
| `Preprocessing.PriceFromPctChange` | src/preprocessing.py:34 | Each price is the previous price times one plus that period's percentage change, so the changes determine the prices after the first. |
| `Preprocessing.ReturnsOfGeometricPrices` | tests/test_basic.py:25-33 | Prices `[100, 110, 121]` give returns `[0.1, 0.1]`. |
| `Pipeline.CumulativeRetracesPrices` | src/backtester.py:15 | Compounding a price column's returns retraces the prices: cumulative value `t` is `p[t+1] / p[0]`. |
| `Pipeline.TotalReturnOfPrices` | src/backtester.py:27-28 | The total return of a price column's returns is `p[last] / p[0] - 1`. |
| `Pipeline.SingleAssetBacktest` | src/backtester.py:23-38 | One ticker priced 100, 110, 121, held with weight 1. Its portfolio returns are `[0.1, 0.1]`, total return 0.21, maximum drawdown 0. |

## Findings

| source | as written | input that shows it | evidently intended | confidence | as-written member | corrected member |
|---|---|---|---|---|---|---|
| src/forecasting.py:11-12 | `data[:-test_size]` and `data[-test_size:]` with `test_size == 0` give an empty training set, and the whole series becomes test data (`-0 == 0`). | `data = [1, 2]`, `test_size = 0` gives train `[]` and test `[1, 2]` | hold out nothing: train `[1, 2]`, test `[]` | medium; not executed | `Forecasting.TrainTestSplit`, `Forecasting.ZeroTestSizeTakesEverything` | `Forecasting.ChronologicalSplit`, `Forecasting.SplitsAgreeExceptAtZero` |

## Left out

- `build_lstm_model` is out of scope: it builds a TensorFlow model graph.
- `calculate_metrics` is out of scope: it depends on sklearn and on `sqrt`.
- The annualised return of `get_backtest_metrics` is out of scope: it needs a real-valued exponent (`** (252 / n)`).
- The Sharpe ratio of `get_backtest_metrics` is out of scope: it needs a standard deviation and `sqrt`.
- The percent and decimal string formatting of `get_backtest_metrics` is not modelled.
- Data download, mock data from a random walk, plotting, the stationarity diagnostics, and the pypfopt expected returns, covariance and optimiser calls are out of scope. They are I/O, randomness, visualisation or library code whose behaviour is not visible here. The forecast annualisation is left out too: it needs a real-valued exponent.
- The `print` calls in `clean_data` are left out. They are console output only.
- Floating-point rounding is not modelled; every value is an exact real. So the returns `0.1` are exact here, while the Python test compares them with `np.isclose`.
- `Preprocessing.CalculateReturns` requires non-zero prices. With a zero price pandas produces inf or NaN, and `dropna` may drop further rows. Those floating-point values are not modelled.
- `Preprocessing.CalculateReturns` takes prices without missing cells. `pct_change` pads missing prices before differencing, and that is not modelled.
- `Backtester.MaxDrawdown` requires that the running peak is never 0, which is exactly where its division is defined. The drawdown bounds are proved for positive cumulative series. The inf/NaN values pandas gives otherwise are not modelled.
- `Backtester.PortfolioReturns` takes a return table with no missing cells. Its columns are summed by position, so pandas' behaviour with duplicate column labels is not modelled.
- `Forecasting.CreateSequences` takes a non-negative `seqLength`, whose default is 60. Python's behaviour for a negative look-back is not modelled. When the series is longer than `seqLength`, it requires every row to have a column 0, because numpy raises on the `[i, 0]` index otherwise. A shorter series never reaches that index and gives two empty results, whatever its rows hold.
- `Preprocessing.CleanData` changes the caller's frame in place, as the source does. Returning the same frame object is not modelled separately.
- `Preprocessing.GetAdjClose` returns the new table as a value. pandas' index alignment between successive columns is not modelled: every column comes from the same frame and so shares its index.
