/** Scoring of one coefficient vector returned by the solver: the
    active-variable count and the row-major matrix-vector predictions. */
module Scoring {
  import opened Numerics

  /** The fixed magnitude a coefficient must exceed to count as active. */
  const ActiveThreshold: real := 0.00000001

  predicate Active(c: real)
  {
    Abs(c) > ActiveThreshold
  }

  /** Number of active entries among x[..k], counted in index order. */
  function ActiveCount(x: seq<real>, k: nat): nat
    requires k <= |x|
  {
    if k == 0 then 0
    else ActiveCount(x, k - 1) + (if Active(x[k - 1]) then 1 else 0)
  }

  /** The indices below k whose entry is active. */
  function ActiveIndices(x: seq<real>, k: nat): set<nat>
    requires k <= |x|
  {
    set i: nat | i < k && Active(x[i])
  }

  /** The count is the number of active indices. */
  lemma {:induction false} ActiveCountIsCardinality(x: seq<real>, k: nat)
    requires k <= |x|
    ensures ActiveCount(x, k) == |ActiveIndices(x, k)|
  {
    if k > 0 {
      ActiveCountIsCardinality(x, k - 1);
      var before := ActiveIndices(x, k - 1);
      if Active(x[k - 1]) {
        assert ActiveIndices(x, k) == before + {k - 1};
        assert k - 1 !in before;
      } else {
        assert ActiveIndices(x, k) == before;
      }
    }
  }

  lemma {:induction false} ActiveCountAtMost(x: seq<real>, k: nat)
    requires k <= |x|
    ensures ActiveCount(x, k) <= k
  {
    if k > 0 {
      ActiveCountAtMost(x, k - 1);
    }
  }

  /** No entry is active exactly when the count is 0. */
  lemma {:induction false} ActiveCountZeroIff(x: seq<real>, k: nat)
    requires k <= |x|
    ensures ActiveCount(x, k) == 0 <==> forall i :: 0 <= i < k ==> !Active(x[i])
  {
    if k > 0 {
      ActiveCountZeroIff(x, k - 1);
    }
  }

  /** Every entry is active exactly when the count is k. */
  lemma {:induction false} ActiveCountFullIff(x: seq<real>, k: nat)
    requires k <= |x|
    ensures ActiveCount(x, k) == k <==> forall i :: 0 <= i < k ==> Active(x[i])
  {
    if k > 0 {
      ActiveCountFullIff(x, k - 1);
      ActiveCountAtMost(x, k - 1);
    }
  }

  /** The dof loop of lines 189-194: counts the coefficients with
      |x[i]| > 1e-8 among the first n. */
  method CountActive(x: seq<real>, n: nat) returns (dof: nat)
    requires n <= |x|
    ensures dof == ActiveCount(x, n)
    ensures dof == |ActiveIndices(x, n)|
    ensures dof <= n
    ensures dof == 0 <==> forall i :: 0 <= i < n ==> Abs(x[i]) <= ActiveThreshold
    ensures dof == n <==> forall i :: 0 <= i < n ==> Abs(x[i]) > ActiveThreshold
  {
    dof := 0;
    var i := 0;
    while i < n
      invariant i <= n
      invariant dof == ActiveCount(x, i)
    {
      if Abs(x[i]) > ActiveThreshold {
        dof := dof + 1;
      }
      i := i + 1;
    }
    ActiveCountIsCardinality(x, n);
    ActiveCountAtMost(x, n);
    ActiveCountZeroIff(x, n);
    ActiveCountFullIff(x, n);
  }

  /** Sum over j < k of x[j] * X[base + j], accumulated in index order: the
      prediction for the row of X that starts at base, after k columns. */
  function RowDot(x: seq<real>, X: seq<real>, base: nat, k: nat): real
    requires k <= |x| && base + k <= |X|
  {
    if k == 0 then 0.0 else RowDot(x, X, base, k - 1) + x[k - 1] * X[base + k - 1]
  }

  /** Row i of the prediction vector is the dot product of x with row i of the
      row-major rows-by-n matrix X. */
  function Predictions(X: seq<real>, x: seq<real>, rows: nat, n: nat): (p: seq<real>)
    requires n <= |x| && rows * n <= |X|
    ensures |p| == rows
  {
    seq(rows, i requires 0 <= i < rows => RowEndBelow(i, rows, n, |X|); RowDot(x, X, i * n, n))
  }

  lemma RowEndBelow(i: nat, rows: nat, n: nat, len: nat)
    requires i < rows && rows * n <= len
    ensures i * n + n <= len
  {
    RowEndInBounds(i, rows, n);
  }

  /** The prediction loops of lines 195-199 and 211-215: a zero-initialised
      vector with one entry per row, to which x[j] * X[i * n + j] is added for
      every column j. */
  method Predict(X: seq<real>, x: seq<real>, rows: nat, n: nat) returns (pred: array<real>)
    requires n <= |x| && rows * n <= |X|
    ensures fresh(pred)
    ensures pred[..] == Predictions(X, x, rows, n)
  {
    pred := new real[rows](_ => 0.0);
    var i := 0;
    while i < rows
      modifies pred
      invariant i <= rows
      invariant forall r :: 0 <= r < i ==> pred[r] == Predictions(X, x, rows, n)[r]
      invariant forall r :: i <= r < rows ==> pred[r] == 0.0
    {
      RowEndBelow(i, rows, n, |X|);
      var j := 0;
      while j < n
        modifies pred
        invariant j <= n
        invariant forall r :: 0 <= r < i ==> pred[r] == Predictions(X, x, rows, n)[r]
        invariant forall r :: i < r < rows ==> pred[r] == 0.0
        invariant pred[i] == RowDot(x, X, i * n, j)
      {
        pred[i] := pred[i] + x[j] * X[i * n + j];
        j := j + 1;
      }
      i := i + 1;
    }
    assert pred[..] == Predictions(X, x, rows, n);
  }

  /** Each prediction is the dot product of x with the matching row. */
  lemma PredictionAt(X: seq<real>, x: seq<real>, rows: nat, n: nat, i: nat)
    requires n <= |x| && rows * n <= |X| && i < rows
    ensures i * n + n <= |X|
    ensures Predictions(X, x, rows, n)[i] == RowDot(x, X, i * n, n)
  {
    RowEndBelow(i, rows, n, |X|);
  }

  /** An all-zero coefficient vector predicts 0 for every row. */
  lemma {:induction false} RowDotOfZero(x: seq<real>, X: seq<real>, base: nat, k: nat)
    requires k <= |x| && base + k <= |X|
    requires forall j :: 0 <= j < k ==> x[j] == 0.0
    ensures RowDot(x, X, base, k) == 0.0
  {
    if k > 0 {
      RowDotOfZero(x, X, base, k - 1);
    }
  }
}
