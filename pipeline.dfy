/**
 * How the pieces fit together: returns computed from a price column compound
 * back to the prices, and the worked single-asset backtest.
 */
module Pipeline {
  import opened Frames
  import opened Preprocessing
  import opened Backtester

  lemma Rescale(a: real, b: real, c: real)
    requires a != 0.0 && b != 0.0
    ensures (b / a) * (1.0 + (c / b - 1.0)) == c / a
  {
    assert 1.0 + (c / b - 1.0) == c / b;
    assert (b / a) * (c / b) == c / a;
  }

  /**
   * Compounding the one-period returns of a price column retraces the price
   * path: cumulative growth `t` is price `t + 1` relative to the first price.
   */
  lemma {:induction false} CumulativeRetracesPrices(p: seq<real>, t: nat)
    requires forall i :: 0 <= i < |p| ==> p[i] != 0.0
    requires t + 1 < |p|
    ensures Cumulative(PctChange(p))[t] == p[t + 1] / p[0]
    decreases t
  {
    var r := PctChange(p);
    CumulativeRecurrence(r, t);
    if t == 0 {
      assert 1.0 + (p[1] / p[0] - 1.0) == p[1] / p[0];
    } else {
      CumulativeRetracesPrices(p, t - 1);
      Rescale(p[0], p[t], p[t + 1]);
    }
  }

  /** The total return of a price column's returns is its last price relative to its first, minus 1. */
  lemma TotalReturnOfPrices(p: seq<real>)
    requires forall i :: 0 <= i < |p| ==> p[i] != 0.0
    requires |p| >= 2
    ensures TotalReturn(PctChange(p)) == Some(p[|p| - 1] / p[0] - 1.0)
  {
    var r := PctChange(p);
    CumulativeRetracesPrices(p, |p| - 2);
    CumulativeIsGrowth(r, |r| - 1);
    assert r[..|r|] == r;
  }

  /**
   * One ticker priced 100, 110, 121 and held with weight 1: the portfolio
   * earns 10% twice, a total return of 21%, and never draws down.
   */
  lemma SingleAssetBacktest()
    ensures var prices := Table(3, ["X"], [[100.0, 110.0, 121.0]]);
            var rets := PortfolioReturns(CalculateReturns(prices), map["X" := 1.0]);
            && rets == [0.1, 0.1]
            && TotalReturn(rets) == Some(0.21)
            && NoZeroPeak(Cumulative(rets))
            && MaxDrawdown(Cumulative(rets)) == Some(0.0)
  {
    var prices := Table(3, ["X"], [[100.0, 110.0, 121.0]]);
    var table := CalculateReturns(prices);
    ReturnsColumn(prices, 0);
    ReturnsOfGeometricPrices();
    assert table.columns[0] == [0.1, 0.1];
    SingleTickerPortfolio(table, map["X" := 1.0], 0);
    var rets := PortfolioReturns(table, map["X" := 1.0]);
    TotalReturnOfTwoTenPercentPeriods();
    BacktestDrawdown(rets);
  }
}
