/** The head/tail train/validation split of ElasticNet: the first mTrain rows
    of the row-major m-by-n matrix A and target b go to training, the rest to
    validation, each in the original order. */
module Split {
  import opened Numerics

  /** mValid: m * validFraction truncated to size_t. */
  function ValidRows(m: nat, validFraction: real): (mValid: nat)
    requires 0.0 <= validFraction <= 1.0
    ensures mValid <= m
    ensures mValid as real <= m as real * validFraction < mValid as real + 1.0
  {
    assert m as real * validFraction <= m as real * 1.0;
    (m as real * validFraction).Floor
  }

  /** mTrain = m - mValid. */
  function TrainRows(m: nat, validFraction: real): (mTrain: nat)
    requires 0.0 <= validFraction <= 1.0
    ensures mTrain + ValidRows(m, validFraction) == m
  {
    m - ValidRows(m, validFraction)
  }

  /** The two split sizes always add up to m; a zero fraction holds nothing
      out, and a fraction below 1 leaves at least one training row when m > 0. */
  lemma SplitSizes(m: nat, validFraction: real)
    requires 0.0 <= validFraction <= 1.0
    ensures TrainRows(m, validFraction) + ValidRows(m, validFraction) == m
    ensures validFraction == 0.0 ==> ValidRows(m, validFraction) == 0
    ensures validFraction < 1.0 && m > 0 ==> TrainRows(m, validFraction) > 0
  {
    if validFraction < 1.0 && m > 0 {
      assert m as real * validFraction < m as real;
    }
  }

  /** Rows [0, mTrain) and [mTrain, m) of a row-major matrix with n columns
      occupy the first mTrain * n and the remaining mValid * n elements. */
  lemma {:induction false} RowBlocks(mTrain: nat, mValid: nat, n: nat)
    ensures mTrain * n + mValid * n == (mTrain + mValid) * n
  {
    if mValid > 0 {
      RowBlocks(mTrain, mValid - 1, n);
      assert mValid * n == (mValid - 1) * n + n;
      assert (mTrain + mValid) * n == (mTrain + mValid - 1) * n + n;
    }
  }

  /** Every index the copy loops read and write is in bounds: (i, j) of the
      training block, and row mTrain + i of A for (i, j) of the validation
      block, which is element mTrain * n + i * n + j. */
  lemma SplitIndicesInBounds(i: nat, j: nat, mTrain: nat, mValid: nat, n: nat)
    requires j < n
    ensures i < mTrain ==> i * n + j < mTrain * n && i * n + j < (mTrain + mValid) * n
    ensures i < mValid ==>
      i * n + j < mValid * n &&
      (mTrain + i) * n + j == mTrain * n + (i * n + j) &&
      (mTrain + i) * n + j < (mTrain + mValid) * n
  {
    RowBlocks(mTrain, mValid, n);
    RowBlocks(mTrain, i, n);
    if i < mTrain {
      RowIndexInBounds(i, j, mTrain, n);
    }
    if i < mValid {
      RowIndexInBounds(i, j, mValid, n);
    }
  }

  /** The inner copy loop for row i of a block starting at row first: the n
      elements of row first + i of A go to row i of X; nothing else in X
      changes. */
  method CopyRow(A: seq<real>, X: array<real>, first: nat, i: nat, rows: nat, n: nat)
    requires i < rows && X.Length == rows * n && (first + rows) * n <= |A|
    modifies X
    ensures i * n + n <= X.Length
    ensures forall k :: i * n <= k < i * n + n ==> X[k] == A[first * n + k]
    ensures forall k :: 0 <= k < X.Length && !(i * n <= k < i * n + n) ==> X[k] == old(X[k])
  {
    RowEndInBounds(i, rows, n);
    var j := 0;
    while j < n
      invariant j <= n
      invariant forall k :: i * n <= k < i * n + j ==> X[k] == A[first * n + k]
      invariant forall k :: 0 <= k < X.Length && !(i * n <= k < i * n + j) ==> X[k] == old(X[k])
    {
      SplitIndicesInBounds(i, j, first, rows, n);
      X[i * n + j] := A[(first + i) * n + j];
      j := j + 1;
    }
  }

  /** One copy loop of the split: rows [first, first + rows) of b and of the
      row-major A go, in order, into freshly sized arrays; element (i, j) of
      the block is read from A[(first + i) * n + j]. */
  method CopyRows(A: seq<real>, b: seq<real>, first: nat, rows: nat, n: nat)
    returns (X: array<real>, Y: array<real>)
    requires first + rows <= |b| && |A| == |b| * n
    ensures fresh(X) && fresh(Y) && X != Y
    ensures X.Length == rows * n && Y.Length == rows
    ensures first * n + rows * n <= |A|
    ensures Y[..] == b[first..first + rows]
    ensures X[..] == A[first * n..first * n + rows * n]
  {
    RowBlocks(first, rows, n);
    MulMonotone(first + rows, |b|, n);
    X := new real[rows * n];
    Y := new real[rows];
    ghost var offset := first * n;
    ghost var size := rows * n;
    assert offset + size <= |A|;
    var i := 0;
    ghost var done := 0;
    while i < rows
      modifies X, Y
      invariant i <= rows && done == i * n && done <= size
      invariant forall r :: 0 <= r < i ==> Y[r] == b[first + r]
      invariant forall k :: 0 <= k < done ==> X[k] == A[offset + k]
    {
      Y[i] := b[first + i];
      CopyRow(A, X, first, i, rows, n);
      assert (i + 1) * n == done + n;
      i := i + 1;
      done := done + n;
    }
    assert Y[..] == b[first..first + rows];
    assert X[..] == A[first * n..first * n + rows * n];
  }

  /** The split of lines 246-288: the sizes, then rows [0, mTrain) into the
      training arrays and, when mValid > 0, rows [mTrain, m) into the
      validation arrays (which otherwise stay empty). */
  method TrainValidSplit(A: seq<real>, b: seq<real>, m: nat, n: nat, validFraction: real)
    returns (trainX: array<real>, trainY: array<real>, validX: array<real>, validY: array<real>,
             mTrain: nat, mValid: nat)
    requires 0.0 <= validFraction <= 1.0
    requires |A| == m * n && |b| == m
    ensures fresh(trainX) && fresh(trainY) && fresh(validX) && fresh(validY)
    ensures trainX != validX && trainY != validY && trainX != trainY && trainX != validY && trainY != validX
    ensures validX != validY
    ensures mValid == ValidRows(m, validFraction) && mTrain + mValid == m
    ensures trainX.Length == mTrain * n && trainY.Length == mTrain
    ensures validX.Length == mValid * n && validY.Length == mValid
    ensures trainX.Length + validX.Length == |A|
    ensures trainY[..] == b[..mTrain] && validY[..] == b[mTrain..]
    ensures trainX[..] == A[..mTrain * n] && validX[..] == A[mTrain * n..]
    ensures trainY[..] + validY[..] == b && trainX[..] + validX[..] == A
  {
    mValid := ValidRows(m, validFraction);
    mTrain := m - mValid;
    RowBlocks(mTrain, mValid, n);
    trainX, trainY := CopyRows(A, b, 0, mTrain, n);
    if mValid > 0 {
      validX, validY := CopyRows(A, b, mTrain, mValid, n);
    } else {
      validX := new real[0];
      validY := new real[0];
    }
    assert b == b[..mTrain] + b[mTrain..];
    assert A == A[..mTrain * n] + A[mTrain * n..];
  }
}
