/** The accumulators of getRMSE, getVar and getVarV, and the target mean of
    the training split. */
module Stats {
  import opened Numerics

  /** Sum over i < k of (v1[i] - v2[i])^2, accumulated in index order. */
  function SqDiffSum(v1: seq<real>, v2: seq<real>, k: nat): real
    requires k <= |v1| && k <= |v2|
  {
    if k == 0 then 0.0
    else
      SqDiffSum(v1, v2, k - 1) + Square(v1[k - 1] - v2[k - 1])
  }

  /** Sum over i < k of (v[i] - mean)^2, accumulated in index order. */
  function SqDevSum(v: seq<real>, mean: real, k: nat): real
    requires k <= |v|
  {
    if k == 0 then 0.0
    else SqDevSum(v, mean, k - 1) + Square(v[k - 1] - mean)
  }

  /** std::accumulate over v starting from 0, a left fold. */
  function Sum(v: seq<real>): real
  {
    if |v| == 0 then 0.0 else Sum(v[..|v| - 1]) + v[|v| - 1]
  }

  /** The mean squared error getRMSE takes the square root of. */
  function MeanSquaredError(v1: seq<real>, v2: seq<real>, len: nat): Float
    requires len <= |v1| && len <= |v2|
  {
    Divide(SqDiffSum(v1, v2, len), len as real)
  }

  /** getVar's result: the squared deviations divided by len - 1 in size_t. */
  function Variance(v: seq<real>, mean: real, len: SizeT): Float
    requires len <= |v|
  {
    Divide(SqDevSum(v, mean, len), SizeMinusOne(len) as real)
  }

  /** The training-target mean: the sum divided by the element count. */
  function Mean(v: seq<real>): Float
  {
    Divide(Sum(v), |v| as real)
  }

  lemma {:induction false} SqDiffSumNonNegative(v1: seq<real>, v2: seq<real>, k: nat)
    requires k <= |v1| && k <= |v2|
    ensures SqDiffSum(v1, v2, k) >= 0.0
  {
    if k > 0 {
      SqDiffSumNonNegative(v1, v2, k - 1);
      SquareSign(v1[k - 1] - v2[k - 1]);
    }
  }

  lemma {:induction false} SqDiffSumSymmetric(v1: seq<real>, v2: seq<real>, k: nat)
    requires k <= |v1| && k <= |v2|
    ensures SqDiffSum(v1, v2, k) == SqDiffSum(v2, v1, k)
  {
    if k > 0 {
      SqDiffSumSymmetric(v1, v2, k - 1);
      assert Square(v1[k - 1] - v2[k - 1]) == Square(v2[k - 1] - v1[k - 1]);
    }
  }

  /** The squared-error accumulator vanishes exactly when the first k entries
      agree. */
  lemma {:induction false} SqDiffSumZeroIff(v1: seq<real>, v2: seq<real>, k: nat)
    requires k <= |v1| && k <= |v2|
    ensures SqDiffSum(v1, v2, k) == 0.0 <==> forall i :: 0 <= i < k ==> v1[i] == v2[i]
  {
    if k > 0 {
      SqDiffSumZeroIff(v1, v2, k - 1);
      SqDiffSumNonNegative(v1, v2, k - 1);
      SquareSign(v1[k - 1] - v2[k - 1]);
    }
  }

  lemma {:induction false} SqDevSumNonNegative(v: seq<real>, mean: real, k: nat)
    requires k <= |v|
    ensures SqDevSum(v, mean, k) >= 0.0
  {
    if k > 0 {
      SqDevSumNonNegative(v, mean, k - 1);
      SquareSign(v[k - 1] - mean);
    }
  }

  /** getRMSE's mean squared error is symmetric in its two vectors. */
  lemma MeanSquaredErrorSymmetric(v1: seq<real>, v2: seq<real>, len: nat)
    requires len <= |v1| && len <= |v2|
    ensures MeanSquaredError(v1, v2, len) == MeanSquaredError(v2, v1, len)
  {
    SqDiffSumSymmetric(v1, v2, len);
  }

  /** Over a nonempty prefix the mean squared error is a finite, non-negative
      number that is zero exactly when the prefixes agree; over an empty one
      it is NaN (0/0). */
  lemma MeanSquaredErrorMeaning(v1: seq<real>, v2: seq<real>, len: nat)
    requires len <= |v1| && len <= |v2|
    ensures len == 0 ==> MeanSquaredError(v1, v2, len) == NaN
    ensures len > 0 ==>
      var e := MeanSquaredError(v1, v2, len);
      e.Finite? && e.value >= 0.0 &&
      (e.value == 0.0 <==> forall i :: 0 <= i < len ==> v1[i] == v2[i])
  {
    SqDiffSumNonNegative(v1, v2, len);
    SqDiffSumZeroIff(v1, v2, len);
    if len > 0 {
      DivNonNegative(SqDiffSum(v1, v2, len), len as real);
    }
  }

  /** What getVar returns, by length: 0 for an empty prefix (the size_t
      divisor wraps), NaN or +infinity for one element, and a finite
      non-negative sample variance from two elements on. */
  lemma VarianceMeaning(v: seq<real>, mean: real, len: SizeT)
    requires len <= |v|
    ensures len == 0 ==> Variance(v, mean, len) == Finite(0.0)
    ensures len == 1 ==> (Variance(v, mean, len) == NaN <==> v[0] == mean)
    ensures len == 1 && v[0] != mean ==> Variance(v, mean, len) == PosInf
    ensures len >= 2 ==> Variance(v, mean, len).Finite? && Variance(v, mean, len).value >= 0.0
  {
    SqDevSumNonNegative(v, mean, len);
    if len == 1 {
      assert SqDevSum(v, mean, 1) == Square(v[0] - mean);
      SquareSign(v[0] - mean);
    } else if len >= 2 {
      DivNonNegative(SqDevSum(v, mean, len), (len - 1) as real);
    }
  }

  lemma {:induction false} SumBounds(v: seq<real>, lo: real, hi: real)
    requires forall i :: 0 <= i < |v| ==> lo <= v[i] <= hi
    ensures (|v| as real) * lo <= Sum(v) <= (|v| as real) * hi
  {
    if |v| > 0 {
      var w := v[..|v| - 1];
      assert forall i :: 0 <= i < |w| ==> w[i] == v[i];
      SumBounds(w, lo, hi);
      assert (|v| as real) * lo == (|w| as real) * lo + lo;
      assert (|v| as real) * hi == (|w| as real) * hi + hi;
    }
  }

  /** The mean of a nonempty prefix lies between any bounds of its entries;
      the mean of an empty vector is NaN. */
  lemma MeanBetween(v: seq<real>, lo: real, hi: real)
    requires forall i :: 0 <= i < |v| ==> lo <= v[i] <= hi
    ensures |v| == 0 ==> Mean(v) == NaN
    ensures |v| > 0 ==> Mean(v).Finite? && lo <= Mean(v).value <= hi
  {
    if |v| > 0 {
      SumBounds(v, lo, hi);
      DivBetween(Sum(v), |v| as real, lo, hi);
    }
  }

  /** getRMSE up to its final square root: accumulates (v1[i] - v2[i])^2 over
      i < len and divides by len. */
  method GetMSE(len: nat, v1: seq<real>, v2: seq<real>) returns (mse: Float)
    requires len <= |v1| && len <= |v2|
    ensures mse == MeanSquaredError(v1, v2, len)
    ensures len == 0 ==> mse == NaN
    ensures len > 0 ==> mse.Finite? && mse.value >= 0.0
    ensures len > 0 ==> (mse.value == 0.0 <==> forall i :: 0 <= i < len ==> v1[i] == v2[i])
  {
    var acc := 0.0;
    var i := 0;
    while i < len
      invariant i <= len
      invariant acc == SqDiffSum(v1, v2, i)
    {
      var d := v1[i] - v2[i];
      acc := acc + Square(d);
      i := i + 1;
    }
    mse := Divide(acc, len as real);
    MeanSquaredErrorMeaning(v1, v2, len);
  }

  /** getVar: accumulates (v[i] - mean)^2 over i < len and divides by len - 1
      computed in size_t. */
  method GetVar(len: SizeT, v: seq<real>, mean: real) returns (variance: Float)
    requires len <= |v|
    ensures variance == Variance(v, mean, len)
    ensures len == 0 ==> variance == Finite(0.0)
    ensures len == 1 ==> (variance == NaN <==> v[0] == mean)
    ensures len >= 2 ==> variance.Finite? && variance.value >= 0.0
  {
    var acc := 0.0;
    var i := 0;
    while i < len
      invariant i <= len
      invariant acc == SqDevSum(v, mean, i)
    {
      acc := acc + Square(v[i] - mean);
      i := i + 1;
    }
    variance := Divide(acc, SizeMinusOne(len) as real);
    VarianceMeaning(v, mean, len);
  }

  /** getVarV: getVar over the whole vector, whose size is a size_t. */
  method GetVarV(v: seq<real>, mean: real) returns (variance: Float)
    requires |v| < SizeModulus
    ensures variance == Variance(v, mean, |v|)
    ensures |v| == 0 ==> variance == Finite(0.0)
    ensures |v| == 1 ==> (variance == NaN <==> v[0] == mean)
    ensures |v| >= 2 ==> variance.Finite? && variance.value >= 0.0
  {
    var acc := 0.0;
    var i := 0;
    while i < |v|
      invariant i <= |v|
      invariant acc == SqDevSum(v, mean, i)
    {
      acc := acc + Square(v[i] - mean);
      i := i + 1;
    }
    variance := Divide(acc, SizeMinusOne(|v|) as real);
    VarianceMeaning(v, mean, |v|);
  }
}
