/** The lambda_max0 estimate of ElasticNet: the largest magnitude, over the
    feature columns j, of the sum over training rows i of
    trainX[i, j] * (trainY[i] - meanTrainY). The source reads element (i, j)
    at i + j * mTrain although the split stores the rows of trainX one after
    another (element (i, j) at i * n + j); both readings are modelled.

    Element (i, j) of a matrix whose rows are rowStride and whose columns are
    colStride elements apart sits at i * rowStride + j * colStride: the
    source's reading has strides (1, mTrain), the row-major layout of the
    split has strides (n, 1). */
module LambdaMax {
  import opened Numerics

  lemma PositionMonotone(i: nat, j: nat, i': nat, j': nat, rowStride: nat, colStride: nat)
    requires i <= i' && j <= j'
    ensures i * rowStride + j * colStride <= i' * rowStride + j' * colStride
  {
    MulMonotone(i, i', rowStride);
    MulMonotone(j, j', colStride);
  }

  /** Every element of an mTrain-by-n matrix lies below len. */
  predicate MatrixFits(len: nat, mTrain: nat, n: nat, rowStride: nat, colStride: nat)
  {
    mTrain == 0 || n == 0 || (mTrain - 1) * rowStride + (n - 1) * colStride < len
  }

  /** A matrix that fits still fits with fewer columns. */
  lemma FewerColumnsFit(len: nat, mTrain: nat, k: nat, n: nat, rowStride: nat, colStride: nat)
    requires MatrixFits(len, mTrain, n, rowStride, colStride) && k <= n
    ensures MatrixFits(len, mTrain, k, rowStride, colStride)
  {
    if mTrain > 0 && k > 0 {
      PositionMonotone(mTrain - 1, k - 1, mTrain - 1, n - 1, rowStride, colStride);
    }
  }

  /** The last element of column j < n lies below len. */
  lemma ColumnInBounds(len: nat, mTrain: nat, n: nat, rowStride: nat, colStride: nat, j: nat)
    requires MatrixFits(len, mTrain, n, rowStride, colStride) && j < n
    ensures mTrain == 0 || (mTrain - 1) * rowStride + j * colStride < len
  {
    if mTrain > 0 {
      PositionMonotone(mTrain - 1, j, mTrain - 1, n - 1, rowStride, colStride);
    }
  }

  /** The source's column-major reading of an mTrain-by-n buffer stays inside
      its mTrain * n elements. */
  lemma ColumnMajorFits(mTrain: nat, n: nat)
    ensures MatrixFits(mTrain * n, mTrain, n, 1, mTrain)
  {
    if mTrain > 0 && n > 0 {
      assert (n - 1) * mTrain + mTrain == n * mTrain;
    }
  }

  /** So does the row-major reading. */
  lemma RowMajorFits(mTrain: nat, n: nat)
    ensures MatrixFits(mTrain * n, mTrain, n, n, 1)
  {
    if mTrain > 0 && n > 0 {
      RowIndexInBounds(mTrain - 1, n - 1, mTrain, n);
    }
  }

  /** u for column j after k rows: the sum over i < k of element (i, j) times
      y[i] - mean, accumulated in row order. */
  function ColumnSum(X: seq<real>, y: seq<real>, mean: real, rowStride: nat, colStride: nat,
                     j: nat, k: nat): real
    requires k <= |y|
    requires k == 0 || (k - 1) * rowStride + j * colStride < |X|
  {
    if k == 0 then 0.0
    else
      assert k == 1 || (k - 2) * rowStride + j * colStride < |X| by {
        if k > 1 {
          PositionMonotone(k - 2, j, k - 1, j, rowStride, colStride);
        }
      }
      ColumnSum(X, y, mean, rowStride, colStride, j, k - 1)
      + X[(k - 1) * rowStride + j * colStride] * (y[k - 1] - mean)
  }

  /** |u| of column j < n of an mTrain-by-n matrix. */
  function AbsColumn(X: seq<real>, y: seq<real>, mean: real, mTrain: nat, n: nat,
                     rowStride: nat, colStride: nat, j: nat): real
    requires mTrain <= |y| && MatrixFits(|X|, mTrain, n, rowStride, colStride) && j < n
  {
    ColumnInBounds(|X|, mTrain, n, rowStride, colStride, j);
    Abs(ColumnSum(X, y, mean, rowStride, colStride, j, mTrain))
  }

  /** std::max(a, b): b when a < b, a otherwise. */
  function StdMax(a: real, b: real): (m: real)
    ensures m >= a && m >= b && (m == a || m == b)
  {
    if a < b then b else a
  }

  /** lambda_max0 after the first k columns: std::max of the running value,
      starting from 0, and |u| of each column in turn. */
  function MaxAbsColumn(X: seq<real>, y: seq<real>, mean: real, mTrain: nat,
                        rowStride: nat, colStride: nat, k: nat): real
    requires mTrain <= |y| && MatrixFits(|X|, mTrain, k, rowStride, colStride)
  {
    if k == 0 then 0.0
    else
      FewerColumnsFit(|X|, mTrain, k - 1, k, rowStride, colStride);
      StdMax(MaxAbsColumn(X, y, mean, mTrain, rowStride, colStride, k - 1),
             AbsColumn(X, y, mean, mTrain, k, rowStride, colStride, k - 1))
  }

  /** The estimate is a maximum: it is non-negative, at least |u| for every
      column seen, equal to |u| of one of them when there is one, and 0 when
      there is none. */
  lemma {:induction false} MaxAbsColumnIsMaximum(X: seq<real>, y: seq<real>, mean: real, mTrain: nat,
                                                 rowStride: nat, colStride: nat, k: nat)
    requires mTrain <= |y| && MatrixFits(|X|, mTrain, k, rowStride, colStride)
    ensures MaxAbsColumn(X, y, mean, mTrain, rowStride, colStride, k) >= 0.0
    ensures forall j :: 0 <= j < k ==>
      AbsColumn(X, y, mean, mTrain, k, rowStride, colStride, j)
        <= MaxAbsColumn(X, y, mean, mTrain, rowStride, colStride, k)
    ensures k > 0 ==> exists j :: (0 <= j < k &&
      MaxAbsColumn(X, y, mean, mTrain, rowStride, colStride, k)
        == AbsColumn(X, y, mean, mTrain, k, rowStride, colStride, j))
    ensures k == 0 ==> MaxAbsColumn(X, y, mean, mTrain, rowStride, colStride, k) == 0.0
  {
    if k > 0 {
      FewerColumnsFit(|X|, mTrain, k - 1, k, rowStride, colStride);
      MaxAbsColumnIsMaximum(X, y, mean, mTrain, rowStride, colStride, k - 1);
      var previous := MaxAbsColumn(X, y, mean, mTrain, rowStride, colStride, k - 1);
      var u := AbsColumn(X, y, mean, mTrain, k, rowStride, colStride, k - 1);
      forall j | 0 <= j < k - 1
        ensures AbsColumn(X, y, mean, mTrain, k, rowStride, colStride, j)
             == AbsColumn(X, y, mean, mTrain, k - 1, rowStride, colStride, j)
      {
      }
      if k > 1 && u <= previous {
        var w :| 0 <= w < k - 1 &&
          previous == AbsColumn(X, y, mean, mTrain, k - 1, rowStride, colStride, w);
        assert previous == AbsColumn(X, y, mean, mTrain, k, rowStride, colStride, w);
      }
    }
  }

  /** Without training rows every column sum is empty, so the estimate is 0
      whatever mean it is given. */
  lemma {:induction false} MaxAbsColumnWithoutRows(X: seq<real>, y: seq<real>, mean: real,
                                                   rowStride: nat, colStride: nat, k: nat)
    ensures MatrixFits(|X|, 0, k, rowStride, colStride)
    ensures MaxAbsColumn(X, y, mean, 0, rowStride, colStride, k) == 0.0
  {
    if k > 0 {
      MaxAbsColumnWithoutRows(X, y, mean, rowStride, colStride, k - 1);
    }
  }

  /** The inner loop of lines 329-332 as written: u for column j, reading
      element (i, j) at trainX[i + j * mTrain]. */
  method ColumnMajorSum(trainX: seq<real>, trainY: seq<real>, meanTrainY: real, mTrain: nat, j: nat)
    returns (u: real)
    requires |trainY| == mTrain && (mTrain == 0 || (mTrain - 1) * 1 + j * mTrain < |trainX|)
    ensures u == ColumnSum(trainX, trainY, meanTrainY, 1, mTrain, j, mTrain)
  {
    u := 0.0;
    var i := 0;
    while i < mTrain
      invariant i <= mTrain
      invariant u == ColumnSum(trainX, trainY, meanTrainY, 1, mTrain, j, i)
    {
      PositionMonotone(i, j, mTrain - 1, j, 1, mTrain);
      u := u + trainX[i + j * mTrain] * (trainY[i] - meanTrainY);
      i := i + 1;
    }
  }

  /** The lambda_max0 loop of lines 327-335 as written: column j of the
      training matrix is read at trainX[i + j * mTrain]. */
  method LambdaMax0(trainX: seq<real>, trainY: seq<real>, meanTrainY: real, mTrain: nat, n: nat)
    returns (lambdaMax0: real)
    requires |trainX| == mTrain * n && |trainY| == mTrain
    ensures MatrixFits(|trainX|, mTrain, n, 1, mTrain)
    ensures lambdaMax0 == MaxAbsColumn(trainX, trainY, meanTrainY, mTrain, 1, mTrain, n)
    ensures lambdaMax0 >= 0.0
    ensures forall j :: 0 <= j < n ==>
      AbsColumn(trainX, trainY, meanTrainY, mTrain, n, 1, mTrain, j) <= lambdaMax0
    ensures n > 0 ==> exists j :: (0 <= j < n &&
      lambdaMax0 == AbsColumn(trainX, trainY, meanTrainY, mTrain, n, 1, mTrain, j))
    ensures n == 0 ==> lambdaMax0 == 0.0
  {
    ColumnMajorFits(mTrain, n);
    lambdaMax0 := 0.0;
    var j := 0;
    while j < n
      invariant j <= n
      invariant lambdaMax0 == MaxAbsColumn(trainX, trainY, meanTrainY, mTrain, 1, mTrain, j)
    {
      FewerColumnsFit(|trainX|, mTrain, j + 1, n, 1, mTrain);
      ColumnInBounds(|trainX|, mTrain, n, 1, mTrain, j);
      var u := ColumnMajorSum(trainX, trainY, meanTrainY, mTrain, j);
      assert Abs(u) == AbsColumn(trainX, trainY, meanTrainY, mTrain, j + 1, 1, mTrain, j);
      lambdaMax0 := StdMax(lambdaMax0, Abs(u));
      j := j + 1;
    }
    MaxAbsColumnIsMaximum(trainX, trainY, meanTrainY, mTrain, 1, mTrain, n);
  }

  /** The inner loop reading element (i, j) of the row-major training matrix
      at trainX[i * n + j]. */
  method RowMajorSum(trainX: seq<real>, trainY: seq<real>, meanTrainY: real, mTrain: nat, n: nat, j: nat)
    returns (u: real)
    requires |trainY| == mTrain && (mTrain == 0 || (mTrain - 1) * n + j * 1 < |trainX|)
    ensures u == ColumnSum(trainX, trainY, meanTrainY, n, 1, j, mTrain)
  {
    u := 0.0;
    var i := 0;
    while i < mTrain
      invariant i <= mTrain
      invariant u == ColumnSum(trainX, trainY, meanTrainY, n, 1, j, i)
    {
      PositionMonotone(i, j, mTrain - 1, j, n, 1);
      u := u + trainX[i * n + j] * (trainY[i] - meanTrainY);
      i := i + 1;
    }
  }

  /** The same loop reading column j of the row-major training matrix at
      trainX[i * n + j], the layout the split produces: the largest
      |sum over i of trainX[i, j] * (trainY[i] - meanTrainY)| over the
      columns, attained at one of them when there is one. */
  method LambdaMax0RowMajor(trainX: seq<real>, trainY: seq<real>, meanTrainY: real, mTrain: nat, n: nat)
    returns (lambdaMax0: real)
    requires |trainX| == mTrain * n && |trainY| == mTrain
    ensures MatrixFits(|trainX|, mTrain, n, n, 1)
    ensures lambdaMax0 == MaxAbsColumn(trainX, trainY, meanTrainY, mTrain, n, 1, n)
    ensures lambdaMax0 >= 0.0
    ensures forall j :: 0 <= j < n ==>
      AbsColumn(trainX, trainY, meanTrainY, mTrain, n, n, 1, j) <= lambdaMax0
    ensures n > 0 ==> exists j :: (0 <= j < n &&
      lambdaMax0 == AbsColumn(trainX, trainY, meanTrainY, mTrain, n, n, 1, j))
    ensures n == 0 ==> lambdaMax0 == 0.0
  {
    RowMajorFits(mTrain, n);
    lambdaMax0 := 0.0;
    var j := 0;
    while j < n
      invariant j <= n
      invariant lambdaMax0 == MaxAbsColumn(trainX, trainY, meanTrainY, mTrain, n, 1, j)
    {
      FewerColumnsFit(|trainX|, mTrain, j + 1, n, n, 1);
      ColumnInBounds(|trainX|, mTrain, n, n, 1, j);
      var u := RowMajorSum(trainX, trainY, meanTrainY, mTrain, n, j);
      assert Abs(u) == AbsColumn(trainX, trainY, meanTrainY, mTrain, j + 1, n, 1, j);
      lambdaMax0 := StdMax(lambdaMax0, Abs(u));
      j := j + 1;
    }
    MaxAbsColumnIsMaximum(trainX, trainY, meanTrainY, mTrain, n, 1, n);
  }

  /** Over two rows and two columns the literal reading pairs each target
      with the two entries of one row: its columns are X[0], X[1] and X[2],
      X[3]. */
  lemma ColumnMajorTwoByTwo(X: seq<real>, y: seq<real>, mean: real)
    requires |X| == 4 && |y| == 2
    ensures MatrixFits(|X|, 2, 2, 1, 2)
    ensures MaxAbsColumn(X, y, mean, 2, 1, 2, 2)
         == StdMax(StdMax(0.0, Abs(X[0] * (y[0] - mean) + X[1] * (y[1] - mean))),
                   Abs(X[2] * (y[0] - mean) + X[3] * (y[1] - mean)))
  {
    assert MatrixFits(|X|, 2, 1, 1, 2);
    assert ColumnSum(X, y, mean, 1, 2, 0, 1) == X[0] * (y[0] - mean);
    assert ColumnSum(X, y, mean, 1, 2, 0, 2) == X[0] * (y[0] - mean) + X[1] * (y[1] - mean);
    assert ColumnSum(X, y, mean, 1, 2, 1, 1) == X[2] * (y[0] - mean);
    assert ColumnSum(X, y, mean, 1, 2, 1, 2) == X[2] * (y[0] - mean) + X[3] * (y[1] - mean);
    assert MaxAbsColumn(X, y, mean, 2, 1, 2, 1)
        == StdMax(0.0, Abs(X[0] * (y[0] - mean) + X[1] * (y[1] - mean)));
  }

  /** Over two rows and two columns the row-major reading takes column j from
      both rows: its columns are X[0], X[2] and X[1], X[3]. */
  lemma RowMajorTwoByTwo(X: seq<real>, y: seq<real>, mean: real)
    requires |X| == 4 && |y| == 2
    ensures MatrixFits(|X|, 2, 2, 2, 1)
    ensures MaxAbsColumn(X, y, mean, 2, 2, 1, 2)
         == StdMax(StdMax(0.0, Abs(X[0] * (y[0] - mean) + X[2] * (y[1] - mean))),
                   Abs(X[1] * (y[0] - mean) + X[3] * (y[1] - mean)))
  {
    assert MatrixFits(|X|, 2, 1, 2, 1);
    assert ColumnSum(X, y, mean, 2, 1, 0, 1) == X[0] * (y[0] - mean);
    assert ColumnSum(X, y, mean, 2, 1, 0, 2) == X[0] * (y[0] - mean) + X[2] * (y[1] - mean);
    assert ColumnSum(X, y, mean, 2, 1, 1, 1) == X[1] * (y[0] - mean);
    assert ColumnSum(X, y, mean, 2, 1, 1, 2) == X[1] * (y[0] - mean) + X[3] * (y[1] - mean);
    assert MaxAbsColumn(X, y, mean, 2, 2, 1, 1)
        == StdMax(0.0, Abs(X[0] * (y[0] - mean) + X[2] * (y[1] - mean)));
  }

  /** Two training rows [1, 1] and [0, 0] of a row-major matrix, targets 1
      and -1 (mean 0): both row-major columns have u_j = 1, so the
      row-major estimate is 1, but the literal reading gets 0. */
  lemma ColumnMajorReadingDiffers(X: seq<real>, y: seq<real>)
    requires X == [1.0, 1.0, 0.0, 0.0] && y == [1.0, -1.0]
    ensures MatrixFits(|X|, 2, 2, 1, 2) && MatrixFits(|X|, 2, 2, 2, 1)
    ensures MaxAbsColumn(X, y, 0.0, 2, 1, 2, 2) == 0.0
    ensures MaxAbsColumn(X, y, 0.0, 2, 2, 1, 2) == 1.0
  {
    ColumnMajorTwoByTwo(X, y, 0.0);
    RowMajorTwoByTwo(X, y, 0.0);
  }
}
