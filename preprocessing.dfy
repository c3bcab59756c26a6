/**
 * Data preparation (src/preprocessing.py): imputation of missing cells by a
 * forward fill followed by a backward fill, extraction of the adjusted-close
 * column of each ticker, and one-period percentage change.
 */
module Preprocessing {
  import opened Frames

  // ---------------------------------------------------------------------
  // What the fills compute, one column at a time
  // ---------------------------------------------------------------------

  /** The nearest present cell at or above row `i`, or `Missing` if there is none. */
  function NearestAbove(s: seq<Cell>, i: nat): Cell
    requires i < |s|
  {
    if s[i].Present? then s[i]
    else if i == 0 then Missing
    else NearestAbove(s, i - 1)
  }

  /** The nearest present cell at or below row `i`, or `Missing` if there is none. */
  function NearestBelow(s: seq<Cell>, i: nat): Cell
    requires i < |s|
    decreases |s| - i
  {
    if s[i].Present? then s[i]
    else if i == |s| - 1 then Missing
    else NearestBelow(s, i + 1)
  }

  /** Forward fill of one column: every cell takes the nearest present value at or above it. */
  function FFill(s: seq<Cell>): (f: seq<Cell>)
    ensures |f| == |s|
  {
    seq(|s|, i requires 0 <= i < |s| => NearestAbove(s, i))
  }

  /** Backward fill of one column: every cell takes the nearest present value at or below it. */
  function BFill(s: seq<Cell>): (b: seq<Cell>)
    ensures |b| == |s|
  {
    seq(|s|, i requires 0 <= i < |s| => NearestBelow(s, i))
  }

  /** The imputation `clean_data` applies to each column: forward fill, then backward fill. */
  function Clean(s: seq<Cell>): (c: seq<Cell>)
    ensures |c| == |s|
  {
    BFill(FFill(s))
  }

  /** If row `k` is present and every row after it up to `i` is missing, row `k` is the nearest above `i`. */
  lemma {:induction false} NearestAboveIsLastPresent(s: seq<Cell>, i: nat, k: nat)
    requires k <= i < |s| && s[k].Present?
    requires forall m :: k < m <= i ==> s[m].Missing?
    ensures NearestAbove(s, i) == s[k]
    decreases i
  {
    if i > k {
      NearestAboveIsLastPresent(s, i - 1, k);
    }
  }

  /** Nothing is present at or above `i` exactly when every row up to `i` is missing. */
  lemma {:induction false} NearestAboveMissing(s: seq<Cell>, i: nat)
    requires i < |s|
    ensures NearestAbove(s, i).Missing? <==> forall k :: 0 <= k <= i ==> s[k].Missing?
    decreases i
  {
    if i > 0 && s[i].Missing? {
      NearestAboveMissing(s, i - 1);
    }
  }

  /** If row `k` is present and every row from `i` up to it is missing, row `k` is the nearest below `i`. */
  lemma {:induction false} NearestBelowIsFirstPresent(s: seq<Cell>, i: nat, k: nat)
    requires i <= k < |s| && s[k].Present?
    requires forall m :: i <= m < k ==> s[m].Missing?
    ensures NearestBelow(s, i) == s[k]
    decreases k - i
  {
    if i < k {
      NearestBelowIsFirstPresent(s, i + 1, k);
    }
  }

  /** Nothing is present at or below `i` exactly when every row from `i` on is missing. */
  lemma {:induction false} NearestBelowMissing(s: seq<Cell>, i: nat)
    requires i < |s|
    ensures NearestBelow(s, i).Missing? <==> forall k :: i <= k < |s| ==> s[k].Missing?
    decreases |s| - i
  {
    if i < |s| - 1 && s[i].Missing? {
      NearestBelowMissing(s, i + 1);
    }
  }

  /** A present cell is never changed by the imputation. */
  lemma CleanKeepsPresent(s: seq<Cell>, i: nat)
    requires i < |s| && s[i].Present?
    ensures Clean(s)[i] == s[i]
  {
  }

  /** A missing cell below a present one takes the nearest present value above it. */
  lemma CleanCarriesForward(s: seq<Cell>, i: nat, k: nat)
    requires k < i < |s| && s[k].Present?
    requires forall m :: k < m <= i ==> s[m].Missing?
    ensures Clean(s)[i] == s[k]
  {
    NearestAboveIsLastPresent(s, i, k);
  }

  /** Leading missing cells take the column's first present value. */
  lemma CleanFillsLeading(s: seq<Cell>, i: nat, k: nat)
    requires i < k < |s| && s[k].Present?
    requires forall m :: 0 <= m < k ==> s[m].Missing?
    ensures Clean(s)[i] == s[k]
  {
    var f := FFill(s);
    forall m | i <= m < k
      ensures f[m].Missing?
    {
      NearestAboveMissing(s, m);
    }
    NearestBelowIsFirstPresent(f, i, k);
  }

  /** A column with at least one present cell has no missing cell afterwards. */
  lemma CleanCompletes(s: seq<Cell>)
    requires exists k :: 0 <= k < |s| && s[k].Present?
    ensures forall i :: 0 <= i < |s| ==> Clean(s)[i].Present?
  {
    var k :| 0 <= k < |s| && s[k].Present?;
    var f := FFill(s);
    forall i | 0 <= i < |s|
      ensures Clean(s)[i].Present?
    {
      if f[i].Present? {
        assert Clean(s)[i] == f[i];
      } else {
        NearestAboveMissing(s, i);
        NearestAboveMissing(s, k);
        assert k > i && f[k].Present?;
        NearestBelowMissing(f, i);
      }
    }
  }

  /** An all-missing column stays all-missing. */
  lemma CleanKeepsAllMissing(s: seq<Cell>)
    requires forall i :: 0 <= i < |s| ==> s[i].Missing?
    ensures forall i :: 0 <= i < |s| ==> Clean(s)[i].Missing?
  {
    var f := FFill(s);
    forall i | 0 <= i < |s|
      ensures f[i].Missing?
    {
      NearestAboveMissing(s, i);
    }
    forall i | 0 <= i < |s|
      ensures Clean(s)[i].Missing?
    {
      NearestBelowMissing(f, i);
    }
  }

  /** A column without missing cells is left unchanged. */
  lemma CleanLeavesCompleteColumn(s: seq<Cell>)
    requires forall i :: 0 <= i < |s| ==> s[i].Present?
    ensures Clean(s) == s
  {
  }

  /** Row `t` of `f` is what the forward fill writes there, given the rows above it in `f`. */
  predicate ForwardFillsAt(s: seq<Cell>, f: seq<Cell>, t: nat)
    requires t < |s| && t < |f|
  {
    f[t] == if s[t].Present? then s[t] else if t == 0 then Missing else f[t - 1]
  }

  /** Row `t` of `f` is what the backward fill writes there, given the rows below it in `f`. */
  predicate BackwardFillsAt(s: seq<Cell>, f: seq<Cell>, t: nat)
    requires t < |s| && |f| == |s|
  {
    f[t] == if s[t].Present? then s[t] else if t == |s| - 1 then Missing else f[t + 1]
  }

  /** A column built top-down by the forward-fill step is the forward fill: the step determines it. */
  lemma ForwardStepsGiveFFill(s: seq<Cell>, f: seq<Cell>)
    requires |f| == |s|
    requires forall t :: 0 <= t < |s| ==> ForwardFillsAt(s, f, t)
    ensures f == FFill(s)
  {
    forall t | 0 <= t < |s|
      ensures f[t] == NearestAbove(s, t)
    {
      ForwardStepsGiveNearestAbove(s, f, t);
    }
  }

  lemma {:induction false} ForwardStepsGiveNearestAbove(s: seq<Cell>, f: seq<Cell>, t: nat)
    requires |f| == |s| && t < |s|
    requires forall t :: 0 <= t < |s| ==> ForwardFillsAt(s, f, t)
    ensures f[t] == NearestAbove(s, t)
    decreases t
  {
    assert ForwardFillsAt(s, f, t);
    if t > 0 && s[t].Missing? {
      ForwardStepsGiveNearestAbove(s, f, t - 1);
    }
  }

  /** A column built bottom-up by the backward-fill step is the backward fill. */
  lemma BackwardStepsGiveBFill(s: seq<Cell>, f: seq<Cell>)
    requires |f| == |s|
    requires forall t :: 0 <= t < |s| ==> BackwardFillsAt(s, f, t)
    ensures f == BFill(s)
  {
    forall t | 0 <= t < |s|
      ensures f[t] == NearestBelow(s, t)
    {
      BackwardStepsGiveNearestBelow(s, f, t);
    }
  }

  lemma {:induction false} BackwardStepsGiveNearestBelow(s: seq<Cell>, f: seq<Cell>, t: nat)
    requires |f| == |s| && t < |s|
    requires forall t :: 0 <= t < |s| ==> BackwardFillsAt(s, f, t)
    ensures f[t] == NearestBelow(s, t)
    decreases |s| - t
  {
    assert BackwardFillsAt(s, f, t);
    if t < |s| - 1 && s[t].Missing? {
      BackwardStepsGiveNearestBelow(s, f, t + 1);
    }
  }

  // ---------------------------------------------------------------------
  // `clean_data` on a frame held as a rows x columns array, changed in place
  // ---------------------------------------------------------------------

  /** Column `c` of the frame, top to bottom. */
  function Column(df: array2<Cell>, c: nat): (col: seq<Cell>)
    reads df
    requires c < df.Length1
    ensures |col| == df.Length0
  {
    seq(df.Length0, t requires 0 <= t < df.Length0 reads df => df[t, c])
  }

  /** All columns of the frame, left to right. */
  function Columns(df: array2<Cell>): (cols: seq<seq<Cell>>)
    reads df
    ensures |cols| == df.Length1
  {
    seq(df.Length1, c requires 0 <= c < df.Length1 reads df => Column(df, c))
  }

  /** Number of missing cells of one column. */
  function MissingCount(s: seq<Cell>): nat
    decreases |s|
  {
    if |s| == 0 then 0
    else MissingCount(s[..|s| - 1]) + (if s[|s| - 1].Missing? then 1 else 0)
  }

  /** `isnull().sum().sum()`: the number of missing cells over all columns. */
  function FrameMissingCount(cols: seq<seq<Cell>>): nat
    decreases |cols|
  {
    if |cols| == 0 then 0
    else FrameMissingCount(cols[..|cols| - 1]) + MissingCount(cols[|cols| - 1])
  }

  lemma {:induction false} MissingCountZero(s: seq<Cell>)
    ensures MissingCount(s) == 0 <==> forall i :: 0 <= i < |s| ==> s[i].Present?
    decreases |s|
  {
    if |s| > 0 {
      var n := |s| - 1;
      MissingCountZero(s[..n]);
      assert forall i :: 0 <= i < n ==> s[..n][i] == s[i];
    }
  }

  /** The frame's missing count is 0 exactly when every cell is present. */
  lemma {:induction false} FrameMissingCountZero(cols: seq<seq<Cell>>)
    ensures FrameMissingCount(cols) == 0 <==>
              forall c, i :: 0 <= c < |cols| && 0 <= i < |cols[c]| ==> cols[c][i].Present?
    decreases |cols|
  {
    if |cols| > 0 {
      var n := |cols| - 1;
      FrameMissingCountZero(cols[..n]);
      MissingCountZero(cols[n]);
      assert forall c :: 0 <= c < n ==> cols[..n][c] == cols[c];
    }
  }

  /**
   * The forward-fill pass over column `c`, top to bottom: a present cell
   * stays, a missing one copies the (already filled) cell above it, and a
   * missing first cell stays missing. No other column changes.
   */
  method ForwardFillColumn(df: array2<Cell>, c: nat)
    requires c < df.Length1
    modifies df
    ensures forall t :: 0 <= t < df.Length0 && old(df[t, c]).Present? ==> df[t, c] == old(df[t, c])
    ensures df.Length0 > 0 && old(df[0, c]).Missing? ==> df[0, c] == Missing
    ensures forall t :: 0 < t < df.Length0 && old(df[t, c]).Missing? ==> df[t, c] == df[t - 1, c]
    ensures forall t, c' :: 0 <= t < df.Length0 && 0 <= c' < df.Length1 && c' != c ==> df[t, c'] == old(df[t, c'])
  {
    var t, last := 0, Missing;
    while t < df.Length0
      invariant 0 <= t <= df.Length0
      invariant last == if t == 0 then Missing else df[t - 1, c]
      invariant forall r :: 0 <= r < t && old(df[r, c]).Present? ==> df[r, c] == old(df[r, c])
      invariant 0 < t && old(df[0, c]).Missing? ==> df[0, c] == Missing
      invariant forall r :: 0 < r < t && old(df[r, c]).Missing? ==> df[r, c] == df[r - 1, c]
      invariant forall r :: t <= r < df.Length0 ==> df[r, c] == old(df[r, c])
      invariant forall r, c' :: 0 <= r < df.Length0 && 0 <= c' < c ==> df[r, c'] == old(df[r, c'])
      invariant forall r, c' :: 0 <= r < df.Length0 && c < c' < df.Length1 ==> df[r, c'] == old(df[r, c'])
    {
      var cell := df[t, c];
      if cell.Missing? {
        cell := last;
      }
      df[t, c] := cell;
      last := cell;
      t := t + 1;
    }
  }

  /**
   * The backward-fill pass over column `c`, bottom to top: a present cell
   * stays, a missing one copies the (already filled) cell below it, and a
   * missing last cell stays missing. No other column changes.
   */
  method BackwardFillColumn(df: array2<Cell>, c: nat)
    requires c < df.Length1
    modifies df
    ensures forall t :: 0 <= t < df.Length0 && old(df[t, c]).Present? ==> df[t, c] == old(df[t, c])
    ensures df.Length0 > 0 && old(df[df.Length0 - 1, c]).Missing? ==> df[df.Length0 - 1, c] == Missing
    ensures forall t :: 0 <= t < df.Length0 - 1 && old(df[t, c]).Missing? ==> df[t, c] == df[t + 1, c]
    ensures forall t, c' :: 0 <= t < df.Length0 && 0 <= c' < df.Length1 && c' != c ==> df[t, c'] == old(df[t, c'])
  {
    var t, next := df.Length0, Missing;
    while t > 0
      invariant 0 <= t <= df.Length0
      invariant next == if t == df.Length0 then Missing else df[t, c]
      invariant forall r :: t <= r < df.Length0 && old(df[r, c]).Present? ==> df[r, c] == old(df[r, c])
      invariant t < df.Length0 && old(df[df.Length0 - 1, c]).Missing? ==> df[df.Length0 - 1, c] == Missing
      invariant forall r :: t <= r < df.Length0 - 1 && old(df[r, c]).Missing? ==> df[r, c] == df[r + 1, c]
      invariant forall r :: 0 <= r < t ==> df[r, c] == old(df[r, c])
      invariant forall r, c' :: 0 <= r < df.Length0 && 0 <= c' < c ==> df[r, c'] == old(df[r, c'])
      invariant forall r, c' :: 0 <= r < df.Length0 && c < c' < df.Length1 ==> df[r, c'] == old(df[r, c'])
    {
      t := t - 1;
      var cell := df[t, c];
      if cell.Missing? {
        cell := next;
      }
      df[t, c] := cell;
      next := cell;
    }
  }

  /** `df.ffill(inplace=True)`: each column becomes its forward fill. */
  method ForwardFill(df: array2<Cell>)
    modifies df
    ensures forall c :: 0 <= c < df.Length1 ==> Column(df, c) == FFill(old(Column(df, c)))
  {
    ghost var before := Columns(df);
    for c := 0 to df.Length1
      invariant forall t, c' :: 0 <= t < df.Length0 && 0 <= c' < c ==> df[t, c'] == FFill(before[c'])[t]
      invariant forall t, c' :: 0 <= t < df.Length0 && c <= c' < df.Length1 ==> df[t, c'] == before[c'][t]
    {
      ghost var col := Column(df, c);
      assert col == before[c];
      ForwardFillColumn(df, c);
      ghost var filled := Column(df, c);
      forall t | 0 <= t < df.Length0
        ensures ForwardFillsAt(col, filled, t)
      {
      }
      ForwardStepsGiveFFill(col, filled);
    }
    forall c | 0 <= c < df.Length1
      ensures Column(df, c) == FFill(before[c])
    {
    }
  }

  /** `df.bfill(inplace=True)`: each column becomes its backward fill. */
  method BackwardFill(df: array2<Cell>)
    modifies df
    ensures forall c :: 0 <= c < df.Length1 ==> Column(df, c) == BFill(old(Column(df, c)))
  {
    ghost var before := Columns(df);
    for c := 0 to df.Length1
      invariant forall t, c' :: 0 <= t < df.Length0 && 0 <= c' < c ==> df[t, c'] == BFill(before[c'])[t]
      invariant forall t, c' :: 0 <= t < df.Length0 && c <= c' < df.Length1 ==> df[t, c'] == before[c'][t]
    {
      ghost var col := Column(df, c);
      assert col == before[c];
      BackwardFillColumn(df, c);
      ghost var filled := Column(df, c);
      forall t | 0 <= t < df.Length0
        ensures BackwardFillsAt(col, filled, t)
      {
      }
      BackwardStepsGiveBFill(col, filled);
    }
    forall c | 0 <= c < df.Length1
      ensures Column(df, c) == BFill(before[c])
    {
    }
  }

  /**
   * `clean_data`: when the frame has a missing cell, forward fill and then
   * backward fill it in place; otherwise leave it alone. Either way each
   * column ends up as `Clean` of what it was.
   */
  method CleanData(df: array2<Cell>)
    modifies df
    ensures forall c :: 0 <= c < df.Length1 ==> Column(df, c) == Clean(old(Column(df, c)))
  {
    var missing := FrameMissingCount(Columns(df));
    if missing > 0 {
      ForwardFill(df);
      BackwardFill(df);
    } else {
      FrameMissingCountZero(Columns(df));
      forall c | 0 <= c < df.Length1
        ensures Column(df, c) == Clean(Column(df, c))
      {
        assert Columns(df)[c] == Column(df, c);
        CleanLeavesCompleteColumn(Column(df, c));
      }
    }
  }

  // ---------------------------------------------------------------------
  // `get_adj_close`
  // ---------------------------------------------------------------------

  /** The field that `get_adj_close` extracts. */
  const AdjClose: string := "Adj Close"

  /** A column of the downloaded table is keyed by a ticker and a price field. */
  datatype ColumnKey = ColumnKey(ticker: Ticker, field: string)

  /** The downloaded table: one column per (ticker, field) key, every column `rows` long. */
  datatype RawTable = RawTable(rows: nat, columns: map<ColumnKey, seq<Cell>>)
  {
    predicate WellFormed() {
      forall k :: k in columns ==> |columns[k]| == rows
    }
  }

  /** The outcome of `get_adj_close`: the new table, or the `KeyError` raised, with the key it reports. */
  datatype Selection = Selected(table: Table<Cell>) | KeyError(key: string)

  /** The downloaded table has some column for `ticker`, so `df[ticker]` succeeds. */
  predicate HasTicker(raw: RawTable, ticker: Ticker) {
    exists k :: k in raw.columns && k.ticker == ticker
  }

  predicate HasAdjClose(raw: RawTable, ticker: Ticker) {
    ColumnKey(ticker, AdjClose) in raw.columns
  }

  function AdjCloseOf(raw: RawTable, ticker: Ticker): seq<Cell>
    requires HasAdjClose(raw, ticker)
  {
    raw.columns[ColumnKey(ticker, AdjClose)]
  }

  /** Position of `x` in `s`, or `|s|` when it does not occur. */
  function IndexOf(s: seq<Ticker>, x: Ticker): (j: nat)
    ensures j <= |s|
    ensures j < |s| ==> s[j] == x
    ensures j == |s| ==> x !in s
  {
    if |s| == 0 then 0
    else if s[0] == x then 0
    else 1 + IndexOf(s[1..], x)
  }

  /**
   * The key `df[ticker]['Adj Close']` reports when it fails: the ticker
   * itself when the table has no column for it, otherwise the field.
   */
  function MissingKey(raw: RawTable, ticker: Ticker): string
    requires !HasAdjClose(raw, ticker)
  {
    if HasTicker(raw, ticker) then AdjClose else ticker
  }

  /**
   * `get_adj_close`: starting from an empty table, assign the adjusted-close
   * column of each ticker in turn. Assigning a label that is already there
   * replaces its column; a ticker without an adjusted close raises `KeyError`.
   */
  method GetAdjClose(raw: RawTable, tickers: seq<Ticker>) returns (r: Selection)
    requires raw.WellFormed()
    ensures r.KeyError? <==> exists i :: 0 <= i < |tickers| && !HasAdjClose(raw, tickers[i])
    // the error is raised at the first ticker that lacks the column, and
    // reports that ticker if the table has no column for it at all, else the field
    ensures r.KeyError? ==>
              exists i :: 0 <= i < |tickers| && !HasAdjClose(raw, tickers[i])
                          && (forall k :: 0 <= k < i ==> HasAdjClose(raw, tickers[k]))
                          && r.key == (if HasTicker(raw, tickers[i]) then AdjClose else tickers[i])
    ensures r.Selected? ==>
              && (forall i :: 0 <= i < |tickers| ==> HasAdjClose(raw, tickers[i]))
              && r.table.WellFormed()
              && r.table.rows == (if |tickers| == 0 then 0 else raw.rows)
              && Distinct(r.table.labels)
              && (forall x :: x in r.table.labels <==> x in tickers)
              && (forall j :: 0 <= j < |r.table.labels| ==>
                     HasAdjClose(raw, r.table.labels[j]) && r.table.columns[j] == AdjCloseOf(raw, r.table.labels[j]))
    // for distinct tickers: exactly one column per ticker, in the given order
    ensures r.Selected? && Distinct(tickers) ==> r.table.labels == tickers
  {
    var labels: seq<Ticker> := [];
    var columns: seq<seq<Cell>> := [];
    for i := 0 to |tickers|
      invariant forall k :: 0 <= k < i ==> HasAdjClose(raw, tickers[k])
      invariant |columns| == |labels| && Distinct(labels)
      invariant forall x :: x in labels <==> x in tickers[..i]
      invariant forall j :: 0 <= j < |labels| ==> HasAdjClose(raw, labels[j]) && columns[j] == AdjCloseOf(raw, labels[j])
      invariant Distinct(tickers) ==> labels == tickers[..i]
    {
      if !HasAdjClose(raw, tickers[i]) {
        return KeyError(MissingKey(raw, tickers[i]));
      }
      var column := AdjCloseOf(raw, tickers[i]);
      var j := IndexOf(labels, tickers[i]);
      if j < |labels| {
        columns := columns[j := column];
      } else {
        labels := labels + [tickers[i]];
        columns := columns + [column];
      }
      assert tickers[..i + 1] == tickers[..i] + [tickers[i]];
    }
    assert tickers[..|tickers|] == tickers;
    r := Selected(Table(if |tickers| == 0 then 0 else raw.rows, labels, columns));
  }

  // ---------------------------------------------------------------------
  // `calculate_returns`: `df.pct_change().dropna()`
  // ---------------------------------------------------------------------

  predicate NonZeroPrices(prices: Table<real>) {
    forall j, t :: 0 <= j < |prices.columns| && 0 <= t < |prices.columns[j]| ==> prices.columns[j][t] != 0.0
  }

  /** One column of `pct_change()` with its leading NaN dropped. */
  function PctChange(p: seq<real>): (r: seq<real>)
    requires forall t :: 0 <= t < |p| ==> p[t] != 0.0
    ensures |r| == if |p| == 0 then 0 else |p| - 1
  {
    if |p| <= 1 then []
    else seq(|p| - 1, t requires 0 <= t < |p| - 1 => p[t + 1] / p[t] - 1.0)
  }

  /**
   * `calculate_returns`. `pct_change` leaves the first row all-NaN and
   * `dropna` removes it. A table without columns has no NaN to drop, so it
   * keeps its rows.
   */
  function CalculateReturns(prices: Table<real>): (r: Table<real>)
    requires prices.WellFormed() && NonZeroPrices(prices)
    ensures r.WellFormed() && r.labels == prices.labels
    ensures r.rows == if |prices.columns| == 0 then prices.rows
                      else if prices.rows == 0 then 0
                      else prices.rows - 1
    ensures forall j, t :: 0 <= j < |r.columns| && 0 <= t < r.rows ==>
              r.columns[j][t] == prices.columns[j][t + 1] / prices.columns[j][t] - 1.0
  {
    var rows := if |prices.columns| == 0 then prices.rows else if prices.rows == 0 then 0 else prices.rows - 1;
    Table(rows, prices.labels, seq(|prices.columns|, j requires 0 <= j < |prices.columns| => PctChange(prices.columns[j])))
  }

  /** Column `j` of the returns table is the percentage change of price column `j`. */
  lemma ReturnsColumn(prices: Table<real>, j: nat)
    requires prices.WellFormed() && NonZeroPrices(prices)
    requires j < |prices.columns|
    ensures CalculateReturns(prices).columns[j] == PctChange(prices.columns[j])
  {
  }

  /** The returns recover the prices: each price is the previous one grown by that period's return. */
  lemma PriceFromPctChange(p: seq<real>, t: nat)
    requires forall i :: 0 <= i < |p| ==> p[i] != 0.0
    requires t + 1 < |p|
    ensures p[t + 1] == p[t] * (1.0 + PctChange(p)[t])
  {
    Regrow(p[t], p[t + 1], PctChange(p)[t]);
  }

  lemma Regrow(p0: real, p1: real, g: real)
    requires p0 != 0.0 && g == p1 / p0 - 1.0
    ensures p1 == p0 * (1.0 + g)
  {
    assert 1.0 + g == p1 / p0;
  }

  /** Prices 100, 110, 121 give two returns of 10%. */
  lemma ReturnsOfGeometricPrices()
    ensures PctChange([100.0, 110.0, 121.0]) == [0.1, 0.1]
  {
  }
}
