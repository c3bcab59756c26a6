/**
 * Chronological train/test split and the sliding look-back windows that feed
 * the sequence model (src/forecasting.py).
 */
module Forecasting {

  /**
   * Python's normalisation of a slice bound `i` on a sequence of length `n`:
   * a negative bound counts from the end, and the result is clamped to
   * `0 .. n`.
   */
  function SliceBound(i: int, n: nat): (b: nat)
    ensures b <= n
  {
    if i < 0 then (if n + i < 0 then 0 else n + i)
    else if i > n then n
    else i
  }

  /**
   * `train_test_split_time_series`: the pair `(data[:-testSize], data[-testSize:])`.
   * Both slices use the same normalised bound, so the two halves always
   * partition the series. Note the slicing quirk: `-0 == 0`, so a zero
   * `testSize` puts everything in the test half, as does a `testSize` longer
   * than the series; a negative `testSize == -m` keeps the FIRST `m` elements
   * for training.
   */
  function TrainTestSplit<T>(data: seq<T>, testSize: int): (r: (seq<T>, seq<T>))
    ensures r.0 + r.1 == data
    ensures 0 < testSize <= |data| ==>
              |r.1| == testSize && r.0 == data[..|data| - testSize] && r.1 == data[|data| - testSize..]
    ensures testSize == 0 || testSize >= |data| ==> r.0 == [] && r.1 == data
    ensures testSize < 0 ==>
              var m := if -testSize <= |data| then -testSize else |data|;
              r.0 == data[..m] && r.1 == data[m..]
  {
    var b := SliceBound(-testSize, |data|);
    (data[..b], data[b..])
  }

  /**
   * The chronological split the function evidently means: the last
   * `min(testSize, |data|)` elements are held out for testing, so a zero
   * `testSize` holds out nothing.
   */
  function ChronologicalSplit<T>(data: seq<T>, testSize: nat): (r: (seq<T>, seq<T>))
    ensures r.0 + r.1 == data
    ensures |r.1| == if testSize <= |data| then testSize else |data|
    ensures r.1 == data[|data| - |r.1|..]
  {
    var b := if testSize <= |data| then |data| - testSize else 0;
    (data[..b], data[b..])
  }

  /** The two splits coincide for every positive test size and differ at zero on a non-empty series. */
  lemma SplitsAgreeExceptAtZero<T>(data: seq<T>, testSize: nat)
    ensures testSize > 0 ==> TrainTestSplit(data, testSize) == ChronologicalSplit(data, testSize)
    ensures testSize == 0 && |data| > 0 ==> TrainTestSplit(data, testSize) != ChronologicalSplit(data, testSize)
  {
  }

  /** A two-element series split with test size 0: all of it lands in the test half. */
  lemma ZeroTestSizeTakesEverything()
    ensures TrainTestSplit([1.0, 2.0], 0) == ([], [1.0, 2.0])
    ensures ChronologicalSplit([1.0, 2.0], 0) == ([1.0, 2.0], [])
  {
    var data := [1.0, 2.0];
    assert data[..2] == data && data[2..] == [];
  }

  /** Every row has a column 0 (the source indexes `data[i, 0]`). */
  predicate HasColumn0(data: seq<seq<real>>) {
    forall t :: 0 <= t < |data| ==> |data[t]| > 0
  }

  /** Column 0 of a block of rows: the numpy slice `rows[:, 0]`. */
  function Column0(rows: seq<seq<real>>): seq<real>
    requires HasColumn0(rows)
  {
    seq(|rows|, t requires 0 <= t < |rows| => rows[t][0])
  }

  /**
   * `create_sequences`: for every row index `i` from `seqLength` on, the
   * window of column 0 over the `seqLength` rows before `i`, paired with
   * column 0 of row `i` itself.
   */
  method CreateSequences(data: seq<seq<real>>, seqLength: nat) returns (x: seq<seq<real>>, y: seq<real>)
    // rows are indexed at column 0 only when the loop runs
    requires |data| > seqLength ==> HasColumn0(data)
    ensures |x| == |y| == if |data| > seqLength then |data| - seqLength else 0
    // window k is column 0 of rows k .. k + seqLength - 1
    ensures forall k :: 0 <= k < |x| ==>
              |x[k]| == seqLength && forall j :: 0 <= j < seqLength ==> x[k][j] == data[k + j][0]
    // its target is column 0 of the very next row, so no window sees its own target
    ensures forall k :: 0 <= k < |y| ==> y[k] == data[k + seqLength][0]
    // consecutive windows slide by one row
    ensures seqLength > 0 ==> forall k :: 0 <= k < |x| - 1 ==> x[k + 1] == x[k][1..] + [y[k]]
  {
    x, y := [], [];
    var i := seqLength;
    while i < |data|
      invariant seqLength <= i
      invariant i <= |data| || i == seqLength
      invariant |x| == |y| == i - seqLength
      invariant forall k :: 0 <= k < |x| ==> x[k] == Column0(data[k..k + seqLength])
      invariant forall k :: 0 <= k < |y| ==> y[k] == data[k + seqLength][0]
    {
      x := x + [Column0(data[i - seqLength..i])];
      y := y + [data[i][0]];
      i := i + 1;
    }
    if seqLength > 0 {
      forall k | 0 <= k < |x| - 1
        ensures x[k + 1] == x[k][1..] + [y[k]]
      {
        assert |x[k + 1]| == |x[k][1..] + [y[k]]|;
        forall j | 0 <= j < seqLength
          ensures x[k + 1][j] == (x[k][1..] + [y[k]])[j]
        {
          if j < seqLength - 1 {
            assert x[k + 1][j] == data[k + 1 + j][0];
            assert x[k][j + 1] == data[k + j + 1][0];
          }
        }
      }
    }
  }
}
