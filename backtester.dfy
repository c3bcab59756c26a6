/**
 * Path statistics of a fixed-weight backtest (src/backtester.py): the
 * weighted portfolio return per row, cumulative growth of one unit, the
 * running peak, the maximum drawdown, and the total return.
 * Every quantity is an exact `real`.
 */
module Backtester {
  import opened Frames

  // ---------------------------------------------------------------------
  // Portfolio returns: `(returns_df * pd.Series(weights)).sum(axis=1)`
  // ---------------------------------------------------------------------

  /**
   * What one column contributes to a row's sum. pandas aligns the weight
   * series on the column labels; a column without a weight is multiplied
   * by NaN, and `sum` skips NaN, so it contributes nothing.
   */
  function Contribution(ticker: Ticker, x: real, weights: map<Ticker, real>): real {
    if ticker in weights then x * weights[ticker] else 0.0
  }

  /** The weighted sum of one row, column by column. */
  function RowSum(labels: seq<Ticker>, row: seq<real>, weights: map<Ticker, real>): real
    requires |row| == |labels|
    decreases |labels|
  {
    if |labels| == 0 then 0.0
    else
      var n := |labels| - 1;
      RowSum(labels[..n], row[..n], weights) + Contribution(labels[n], row[n], weights)
  }

  /** Row `t` of a column-oriented table. */
  function Row<T>(table: Table<T>, t: nat): (row: seq<T>)
    requires table.WellFormed() && t < table.rows
    ensures |row| == |table.labels|
  {
    seq(|table.columns|, j requires 0 <= j < |table.columns| => table.columns[j][t])
  }

  /** `calculate_portfolio_returns`: one weighted sum per row of the return table. */
  function PortfolioReturns(table: Table<real>, weights: map<Ticker, real>): (p: seq<real>)
    requires table.WellFormed()
    ensures |p| == table.rows
  {
    seq(table.rows, t requires 0 <= t < table.rows => RowSum(table.labels, Row(table, t), weights))
  }

  /** A column is ignored when it has no weight or a zero weight. */
  predicate Ignored(ticker: Ticker, weights: map<Ticker, real>) {
    ticker !in weights || weights[ticker] == 0.0
  }

  /** Changing the value of an ignored column does not change the row's sum. */
  lemma {:induction false} RowSumIgnoresUnweighted(labels: seq<Ticker>, row: seq<real>, weights: map<Ticker, real>, j: nat, v: real)
    requires |row| == |labels| && j < |labels|
    requires Ignored(labels[j], weights)
    ensures RowSum(labels, row[j := v], weights) == RowSum(labels, row, weights)
    decreases |labels|
  {
    var n := |labels| - 1;
    if j < n {
      assert row[j := v][..n] == row[..n][j := v];
      RowSumIgnoresUnweighted(labels[..n], row[..n], weights, j, v);
    } else {
      assert row[j := v][..n] == row[..n];
    }
  }

  /** With weight 1 on column `j` and every other column ignored, the row's sum is that column's value. */
  lemma {:induction false} RowSumSingleTicker(labels: seq<Ticker>, row: seq<real>, weights: map<Ticker, real>, j: nat)
    requires |row| == |labels| && j < |labels|
    requires labels[j] in weights && weights[labels[j]] == 1.0
    requires forall k :: 0 <= k < |labels| && k != j ==> Ignored(labels[k], weights)
    ensures RowSum(labels, row, weights) == row[j]
    decreases |labels|
  {
    var n := |labels| - 1;
    if j < n {
      RowSumSingleTicker(labels[..n], row[..n], weights, j);
    } else {
      RowSumAllIgnored(labels[..n], row[..n], weights);
    }
  }

  /** A row whose every column is ignored sums to 0. */
  lemma {:induction false} RowSumAllIgnored(labels: seq<Ticker>, row: seq<real>, weights: map<Ticker, real>)
    requires |row| == |labels|
    requires forall k :: 0 <= k < |labels| ==> Ignored(labels[k], weights)
    ensures RowSum(labels, row, weights) == 0.0
    decreases |labels|
  {
    if |labels| > 0 {
      var n := |labels| - 1;
      RowSumAllIgnored(labels[..n], row[..n], weights);
    }
  }

  /**
   * Portfolio return `t` depends on row `t` of the returns and on the weights
   * only: two tables with the same labels and equal rows `t` and `s` give the
   * same portfolio return at `t` and `s`.
   */
  lemma PortfolioReturnIsRowLocal(a: Table<real>, b: Table<real>, weights: map<Ticker, real>, t: nat, s: nat)
    requires a.WellFormed() && b.WellFormed() && a.labels == b.labels
    requires t < a.rows && s < b.rows && Row(a, t) == Row(b, s)
    ensures PortfolioReturns(a, weights)[t] == PortfolioReturns(b, weights)[s]
  {
  }

  /** A portfolio holding one ticker with weight 1 earns exactly that ticker's returns. */
  lemma SingleTickerPortfolio(table: Table<real>, weights: map<Ticker, real>, j: nat)
    requires table.WellFormed() && j < |table.labels|
    requires table.labels[j] in weights && weights[table.labels[j]] == 1.0
    requires forall k :: 0 <= k < |table.labels| && k != j ==> Ignored(table.labels[k], weights)
    ensures PortfolioReturns(table, weights) == table.columns[j]
  {
    var p := PortfolioReturns(table, weights);
    forall t | 0 <= t < table.rows
      ensures p[t] == table.columns[j][t]
    {
      RowSumSingleTicker(table.labels, Row(table, t), weights, j);
    }
  }

  // ---------------------------------------------------------------------
  // Cumulative growth: `(1 + returns).cumprod()`
  // ---------------------------------------------------------------------

  /** Growth of one unit over a whole return series: the product of `1 + r[i]`. */
  function Growth(r: seq<real>): real {
    if |r| == 0 then 1.0 else (1.0 + r[0]) * Growth(r[1..])
  }

  /** The running product of `1 + r[i]`, started from `acc`. */
  function CumProdFrom(acc: real, r: seq<real>): (c: seq<real>)
    ensures |c| == |r|
    decreases |r|
  {
    if |r| == 0 then []
    else
      var a := acc * (1.0 + r[0]);
      [a] + CumProdFrom(a, r[1..])
  }

  /** `calculate_cumulative_returns`: the running product started from 1. */
  function Cumulative(r: seq<real>): (c: seq<real>)
    ensures |c| == |r|
  {
    CumProdFrom(1.0, r)
  }

  lemma {:induction false} CumProdFromAt(acc: real, r: seq<real>, t: nat)
    requires t < |r|
    ensures CumProdFrom(acc, r)[t] == acc * Growth(r[..t + 1])
    decreases t
  {
    var a := acc * (1.0 + r[0]);
    if t == 0 {
      assert r[..1][1..] == [];
    } else {
      CumProdFromAt(a, r[1..], t - 1);
      assert r[1..][..t] == r[..t + 1][1..];
    }
  }

  /** Cumulative value `t` is the growth over the first `t + 1` returns. */
  lemma CumulativeIsGrowth(r: seq<real>, t: nat)
    requires t < |r|
    ensures Cumulative(r)[t] == Growth(r[..t + 1])
  {
    CumProdFromAt(1.0, r, t);
  }

  /** Growth over a concatenation is the product of the two growths. */
  lemma {:induction false} GrowthAppend(a: seq<real>, b: seq<real>)
    ensures Growth(a + b) == Growth(a) * Growth(b)
    decreases |a|
  {
    if |a| > 0 {
      assert (a + b)[1..] == a[1..] + b;
      GrowthAppend(a[1..], b);
    } else {
      assert a + b == b;
    }
  }

  /** The cumprod recurrence: `c[0] == 1 + r[0]` and `c[t] == c[t-1] * (1 + r[t])`. */
  lemma CumulativeRecurrence(r: seq<real>, t: nat)
    requires t < |r|
    ensures t == 0 ==> Cumulative(r)[0] == 1.0 + r[0]
    ensures t > 0 ==> Cumulative(r)[t] == Cumulative(r)[t - 1] * (1.0 + r[t])
  {
    CumulativeIsGrowth(r, t);
    if t == 0 {
      assert r[..1][1..] == [];
    } else {
      CumulativeIsGrowth(r, t - 1);
      assert r[..t + 1] == r[..t] + [r[t]];
      GrowthAppend(r[..t], [r[t]]);
      assert [r[t]][1..] == [];
    }
  }

  lemma ProductPositive(a: real, b: real)
    requires a > 0.0 && b > 0.0
    ensures a * b > 0.0
  {
  }

  /** Every return above -1 keeps the growth positive. */
  lemma {:induction false} GrowthPositive(r: seq<real>)
    requires forall i :: 0 <= i < |r| ==> r[i] > -1.0
    ensures Growth(r) > 0.0
    decreases |r|
  {
    if |r| > 0 {
      GrowthPositive(r[1..]);
      assert Growth(r) == (1.0 + r[0]) * Growth(r[1..]);
      ProductPositive(1.0 + r[0], Growth(r[1..]));
    }
  }

  /** Non-negative returns give a growth of at least 1. */
  lemma {:induction false} GrowthAtLeastOne(r: seq<real>)
    requires forall i :: 0 <= i < |r| ==> r[i] >= 0.0
    ensures Growth(r) >= 1.0
    decreases |r|
  {
    if |r| > 0 {
      GrowthAtLeastOne(r[1..]);
      var g := Growth(r[1..]);
      assert (1.0 + r[0]) * g >= 1.0 * g;
    }
  }

  /** If every return is above -1, every cumulative value is positive. */
  lemma CumulativePositive(r: seq<real>)
    requires forall i :: 0 <= i < |r| ==> r[i] > -1.0
    ensures forall t :: 0 <= t < |r| ==> Cumulative(r)[t] > 0.0
  {
    forall t | 0 <= t < |r|
      ensures Cumulative(r)[t] > 0.0
    {
      CumulativeIsGrowth(r, t);
      GrowthPositive(r[..t + 1]);
    }
  }

  /** Never decreasing: no value is below an earlier one. */
  predicate NonDecreasing(s: seq<real>) {
    forall i, j :: 0 <= i < j < |s| ==> s[i] <= s[j]
  }

  /** If every return is non-negative, cumulative growth never decreases. */
  lemma CumulativeNonDecreasing(r: seq<real>)
    requires forall i :: 0 <= i < |r| ==> r[i] >= 0.0
    ensures NonDecreasing(Cumulative(r))
  {
    var c := Cumulative(r);
    forall i, j | 0 <= i < j < |r|
      ensures c[i] <= c[j]
    {
      CumulativeIsGrowth(r, i);
      CumulativeIsGrowth(r, j);
      assert r[..j + 1] == r[..i + 1] + r[i + 1..j + 1];
      GrowthAppend(r[..i + 1], r[i + 1..j + 1]);
      GrowthAtLeastOne(r[..i + 1]);
      GrowthAtLeastOne(r[i + 1..j + 1]);
      var gi, gr := Growth(r[..i + 1]), Growth(r[i + 1..j + 1]);
      assert gi * gr >= gi * 1.0;
    }
  }

  // ---------------------------------------------------------------------
  // Total return: `cumulative.iloc[-1] - 1`
  // ---------------------------------------------------------------------

  /**
   * The total-return part of `get_backtest_metrics`. An empty series has
   * no last cumulative value (`iloc[-1]` raises), which is `None` here.
   */
  function TotalReturn(r: seq<real>): (tr: Option<real>)
    ensures tr.Some? <==> |r| > 0
    ensures tr.Some? ==> tr.value == Growth(r) - 1.0
  {
    if |r| == 0 then None
    else
      CumulativeIsGrowth(r, |r| - 1);
      assert r[..|r|] == r;
      Some(Cumulative(r)[|r| - 1] - 1.0)
  }

  /** Two periods of 10% compound to 21%. */
  lemma TotalReturnOfTwoTenPercentPeriods()
    ensures TotalReturn([0.1, 0.1]) == Some(0.21)
  {
    var r := [0.1, 0.1];
    assert r[1..][1..] == [];
    assert Growth(r) == 1.21;
  }

  // ---------------------------------------------------------------------
  // Drawdown: `(c - c.cummax()) / c.cummax()`, then `.min()`
  // ---------------------------------------------------------------------

  function Max(a: real, b: real): real {
    if a >= b then a else b
  }

  /** `cummax`: the running peak, scanned from the front. */
  function RunningMax(c: seq<real>): (m: seq<real>)
    ensures |m| == |c|
    decreases |c|
  {
    if |c| == 0 then []
    else
      var p := RunningMax(c[..|c| - 1]);
      p + [if |p| == 0 then c[|c| - 1] else Max(p[|p| - 1], c[|c| - 1])]
  }

  /** The cummax recurrence: the peak starts at `c[0]` and then takes the larger of the old peak and the new value. */
  lemma {:induction false} RunningMaxStep(c: seq<real>, t: nat)
    requires t < |c|
    ensures RunningMax(c)[t] == if t == 0 then c[0] else Max(RunningMax(c)[t - 1], c[t])
    decreases |c|
  {
    var n := |c| - 1;
    if t < n {
      RunningMaxStep(c[..n], t);
      assert c[..n][t] == c[t];
    }
  }

  /** The running peak at `t` is one of `c[0..t]` (returned as `i`) and at least all of them. */
  lemma {:induction false} RunningMaxAt(c: seq<real>, t: nat) returns (i: nat)
    requires t < |c|
    ensures i <= t && RunningMax(c)[t] == c[i]
    ensures forall k :: 0 <= k <= t ==> c[k] <= RunningMax(c)[t]
    decreases t
  {
    RunningMaxStep(c, t);
    if t == 0 {
      i := 0;
    } else {
      i := RunningMaxAt(c, t - 1);
      if RunningMax(c)[t - 1] < c[t] {
        i := t;
      }
    }
  }

  /** The running peak at `t` is at least every value up to `t`, and it rises with `t`. */
  lemma RunningMaxIsPeak(c: seq<real>)
    ensures forall t, i :: 0 <= i <= t < |c| ==> c[i] <= RunningMax(c)[t]
    ensures forall t :: 0 < t < |c| ==> RunningMax(c)[t - 1] <= RunningMax(c)[t]
  {
    forall t, i | 0 <= i <= t < |c|
      ensures c[i] <= RunningMax(c)[t]
    {
      var _ := RunningMaxAt(c, t);
    }
    forall t | 0 < t < |c|
      ensures RunningMax(c)[t - 1] <= RunningMax(c)[t]
    {
      RunningMaxStep(c, t);
    }
  }

  /** The division by the running peak is defined at every point. */
  predicate NoZeroPeak(c: seq<real>) {
    forall t :: 0 <= t < |c| ==> RunningMax(c)[t] != 0.0
  }

  /** The drawdown curve: relative distance of each value below its running peak. */
  function Drawdowns(c: seq<real>): (d: seq<real>)
    requires NoZeroPeak(c)
    ensures |d| == |c|
  {
    var m := RunningMax(c);
    seq(|c|, t requires 0 <= t < |c| => (c[t] - m[t]) / m[t])
  }

  /** `Series.min()` of a non-empty series. */
  function MinOf(s: seq<real>): (v: real)
    requires |s| > 0
    ensures forall i :: 0 <= i < |s| ==> v <= s[i]
    ensures exists i :: 0 <= i < |s| && v == s[i]
  {
    if |s| == 1 then s[0]
    else
      var v' := MinOf(s[1..]);
      assert forall i :: 1 <= i < |s| ==> s[1..][i - 1] == s[i];
      if s[0] <= v' then s[0] else v'
  }

  /**
   * `calculate_drawdown`: the minimum of the drawdown curve. pandas gives
   * NaN for the minimum of an empty series, which is `None` here.
   */
  function MaxDrawdown(c: seq<real>): (dd: Option<real>)
    requires NoZeroPeak(c)
    ensures dd.Some? <==> |c| > 0
    ensures dd.Some? ==> exists t :: 0 <= t < |c| && dd.value == Drawdowns(c)[t]
    ensures dd.Some? ==> forall t :: 0 <= t < |c| ==> dd.value <= Drawdowns(c)[t]
  {
    if |c| == 0 then None else Some(MinOf(Drawdowns(c)))
  }

  /** All values positive. */
  predicate Positive(c: seq<real>) {
    forall t :: 0 <= t < |c| ==> c[t] > 0.0
  }

  /** A positive series has a positive running peak, at least as high as the value. */
  lemma PositivePeaks(c: seq<real>)
    requires Positive(c)
    ensures NoZeroPeak(c)
    ensures forall t :: 0 <= t < |c| ==> 0.0 < c[t] <= RunningMax(c)[t]
  {
    RunningMaxIsPeak(c);
  }

  /** A positive value at or below a peak lies within (-100%, 0] of it. */
  lemma RelativeDropBounded(x: real, peak: real)
    requires 0.0 < x <= peak
    ensures -1.0 < (x - peak) / peak <= 0.0
  {
    var q := (x - peak) / peak;
    assert q * peak == x - peak;
  }

  /** For a positive series every drawdown lies in (-1, 0]. */
  lemma DrawdownsBounded(c: seq<real>)
    requires Positive(c)
    ensures NoZeroPeak(c)
    ensures forall t :: 0 <= t < |c| ==> -1.0 < Drawdowns(c)[t] <= 0.0
  {
    PositivePeaks(c);
    var m, d := RunningMax(c), Drawdowns(c);
    forall t | 0 <= t < |c|
      ensures -1.0 < d[t] <= 0.0
    {
      RelativeDropBounded(c[t], m[t]);
    }
  }

  /** For a non-empty positive series the maximum drawdown lies in (-1, 0]. */
  lemma MaxDrawdownBounded(c: seq<real>)
    requires Positive(c) && |c| > 0
    ensures NoZeroPeak(c)
    ensures -1.0 < MaxDrawdown(c).value <= 0.0
  {
    DrawdownsBounded(c);
  }

  /**
   * For a non-empty positive series the maximum drawdown is 0 exactly when
   * the series never falls below an earlier value.
   */
  lemma MaxDrawdownZeroIffNonDecreasing(c: seq<real>)
    requires Positive(c) && |c| > 0
    ensures NoZeroPeak(c)
    ensures MaxDrawdown(c).value == 0.0 <==> NonDecreasing(c)
  {
    DrawdownsBounded(c);
    RunningMaxIsPeak(c);
    var m, d := RunningMax(c), Drawdowns(c);
    if NonDecreasing(c) {
      forall t | 0 <= t < |c|
        ensures d[t] == 0.0
      {
        var i := RunningMaxAt(c, t);
        assert c[i] <= c[t];
      }
    } else {
      var i, j :| 0 <= i < j < |c| && c[i] > c[j];
      assert m[j] > c[j];
      assert d[j] == (c[j] - m[j]) / m[j];
      assert d[j] < 0.0;
    }
  }

  /**
   * The backtest's drawdown statistic for a return series: every return
   * above -1 keeps it in (-1, 0], and non-negative returns make it 0.
   */
  lemma BacktestDrawdown(r: seq<real>)
    requires |r| > 0
    requires forall i :: 0 <= i < |r| ==> r[i] > -1.0
    ensures NoZeroPeak(Cumulative(r))
    ensures -1.0 < MaxDrawdown(Cumulative(r)).value <= 0.0
    ensures (forall i :: 0 <= i < |r| ==> r[i] >= 0.0) ==> MaxDrawdown(Cumulative(r)).value == 0.0
  {
    CumulativePositive(r);
    MaxDrawdownBounded(Cumulative(r));
    if forall i :: 0 <= i < |r| ==> r[i] >= 0.0 {
      CumulativeNonDecreasing(r);
      MaxDrawdownZeroIffNonDecreasing(Cumulative(r));
    }
  }
}
