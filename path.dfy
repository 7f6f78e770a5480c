/** The regularisation path of ElasticNetptr and its driver ElasticNet: for
    every alpha column and every lambda step the penalty is set, the solver
    is called, and the coefficients are scored on the training and the
    validation rows. The alpha columns run one after another. */
module Path {
  import opened Numerics
  import Stats
  import Scoring
  import Grid
  import Penalty
  import Split
  import LambdaMax

  datatype Result<T, E> = Success(value: T) | Failure(error: E)

  /** The reason ElasticNetptr stops before touching any data. */
  datatype PathError = NLambdaTooSmall

  /** The already split data ElasticNetptr works on: row-major trainX with
      mTrain rows and n columns, trainY, and likewise for validation. */
  datatype Data = Data(mTrain: nat, n: nat, mValid: nat,
                       trainX: seq<real>, trainY: seq<real>,
                       validX: seq<real>, validY: seq<real>)

  predicate WellFormed(d: Data)
  {
    |d.trainX| == d.mTrain * d.n && |d.trainY| == d.mTrain &&
    |d.validX| == d.mValid * d.n && |d.validY| == d.mValid
  }

  /** The grid arguments of ElasticNetptr. */
  datatype GridParams = GridParams(lambdaMax0: real, lambdaMinRatio: real, nLambdas: int, nAlphas: int)

  /** What the solver is given for one grid point: the loss terms f and the
      penalty terms g. */
  datatype SolverInput = SolverInput(f: seq<Penalty.FunctionObj>, g: seq<Penalty.FunctionObj>)

  /** The calls the path makes into code it does not contain: the solver,
      which for grid point (a, i) maps (f, g) to n coefficients, and the
      natural logarithm and exponential. */
  datatype Oracles = Oracles(solve: (nat, nat, SolverInput) -> seq<real>,
                             log: real -> real, exp: real -> real)

  ghost predicate SolverReturns(o: Oracles, n: nat)
  {
    forall a: nat, i: nat, input: SolverInput :: |o.solve(a, i, input)| == n
  }

  /** What one grid point reports: its position, alpha, lambda, the solver's
      coefficients, their active count, and the training and validation mean
      squared errors (the validation one -1 when there are no validation
      rows). */
  datatype Record = Record(alphaIndex: nat, alpha: real, lambdaIndex: nat, lambda: real,
                           x: seq<real>, dof: nat, trainMSE: Float, validMSE: Float)

  /** Everything the path needs once the nlambda check has passed. */
  ghost predicate Ready(d: Data, p: GridParams, o: Oracles)
  {
    WellFormed(d) && p.nLambdas > 1 && SolverReturns(o, d.n)
  }

  /** The number of alpha columns the loop over a < N runs. */
  function AlphaCount(p: GridParams): nat
  {
    if p.nAlphas > 0 then p.nAlphas else 0
  }

  /** Lambda at step i of a column: exp of the interpolated logarithms of
      lambda_max and lambda_min. */
  function LambdaAt(p: GridParams, o: Oracles, i: int): (lambda: real)
    requires p.nLambdas > 1
    ensures i == 0 ==> lambda == o.exp(o.log(Grid.LambdaMax(p.lambdaMax0)))
    ensures i == p.nLambdas - 1 ==>
      lambda == o.exp(o.log(Grid.LambdaMin(p.lambdaMinRatio, Grid.LambdaMax(p.lambdaMax0))))
  {
    var lambdaMax := Grid.LambdaMax(p.lambdaMax0);
    var lambdaMin := Grid.LambdaMin(p.lambdaMinRatio, lambdaMax);
    Grid.LogLambdaInterpolates(o.log(lambdaMax), o.log(lambdaMin), p.nLambdas, i);
    o.exp(Grid.LogLambda(o.log(lambdaMax), o.log(lambdaMin), p.nLambdas, i))
  }

  /** The loss vector: one squared-error term per training target. */
  function LossTerms(y: seq<real>): (f: seq<Penalty.FunctionObj>)
    ensures |f| == |y|
  {
    seq(|y|, j requires 0 <= j < |y| => Penalty.SquareLoss(y[j]))
  }

  /** validRMSE before the square root: -1 when there are no validation
      rows, the mean squared error of the validation predictions otherwise. */
  function ValidScore(d: Data, x: seq<real>): Float
    requires WellFormed(d) && |x| == d.n
  {
    if d.mValid > 0 then
      Stats.MeanSquaredError(Scoring.Predictions(d.validX, x, d.mValid, d.n), d.validY, d.mValid)
    else Finite(-1.0)
  }

  /** The sentinel -1 cannot be confused with a score: it is reported exactly
      when there are no validation rows. */
  lemma ValidSentinelIff(d: Data, x: seq<real>)
    requires WellFormed(d) && |x| == d.n
    ensures ValidScore(d, x) == Finite(-1.0) <==> d.mValid == 0
    ensures d.mValid > 0 ==> ValidScore(d, x).Finite? && ValidScore(d, x).value >= 0.0
  {
    if d.mValid > 0 {
      var p := Scoring.Predictions(d.validX, x, d.mValid, d.n);
      Stats.MeanSquaredErrorMeaning(p, d.validY, d.mValid);
    }
  }

  /** The record of grid point (a, i). */
  function RecordAt(d: Data, p: GridParams, o: Oracles, a: nat, i: nat): (r: Record)
    requires Ready(d, p, o) && a < p.nAlphas && i < p.nLambdas
    ensures 0.0 <= r.alpha <= 1.0 && |r.x| == d.n && r.dof <= d.n
    ensures d.mTrain == 0 ==> r.trainMSE == NaN
    ensures d.mTrain > 0 ==> r.trainMSE.Finite? && r.trainMSE.value >= 0.0
    ensures r.validMSE == Finite(-1.0) <==> d.mValid == 0
  {
    var alpha := Grid.Alpha(a, p.nAlphas);
    var lambda := LambdaAt(p, o, i);
    var x := o.solve(a, i, SolverInput(LossTerms(d.trainY), Penalty.PenaltyTerms(d.n, alpha, lambda)));
    Scoring.ActiveCountAtMost(x, d.n);
    Stats.MeanSquaredErrorMeaning(Scoring.Predictions(d.trainX, x, d.mTrain, d.n), d.trainY, d.mTrain);
    ValidSentinelIff(d, x);
    Record(a, alpha, i, lambda, x, Scoring.ActiveCount(x, d.n),
           Stats.MeanSquaredError(Scoring.Predictions(d.trainX, x, d.mTrain, d.n), d.trainY, d.mTrain),
           ValidScore(d, x))
  }

  /** The records of alpha column a, in lambda order. */
  function ColumnRecords(d: Data, p: GridParams, o: Oracles, a: nat): (c: seq<Record>)
    requires Ready(d, p, o) && a < p.nAlphas
    ensures |c| == p.nLambdas
  {
    seq(p.nLambdas, i requires 0 <= i < p.nLambdas => RecordAt(d, p, o, a, i))
  }

  /** The records of the first k alpha columns, column after column. */
  function PathRecords(d: Data, p: GridParams, o: Oracles, k: nat): seq<Record>
    requires Ready(d, p, o) && k <= AlphaCount(p)
  {
    if k == 0 then [] else PathRecords(d, p, o, k - 1) + ColumnRecords(d, p, o, k - 1)
  }

  /** The path holds nLambdas records per alpha column. */
  lemma {:induction false} PathLength(d: Data, p: GridParams, o: Oracles, k: nat)
    requires Ready(d, p, o) && k <= AlphaCount(p)
    ensures |PathRecords(d, p, o, k)| == k * p.nLambdas
  {
    if k > 0 {
      PathLength(d, p, o, k - 1);
      assert k * p.nLambdas == (k - 1) * p.nLambdas + p.nLambdas;
    }
  }

  /** The record of grid point (a, i) is at position a * nLambdas + i. */
  lemma {:induction false} PathAt(d: Data, p: GridParams, o: Oracles, k: nat, a: nat, i: nat)
    requires Ready(d, p, o) && k <= AlphaCount(p) && a < k && i < p.nLambdas
    ensures a * p.nLambdas + i < |PathRecords(d, p, o, k)|
    ensures PathRecords(d, p, o, k)[a * p.nLambdas + i] == RecordAt(d, p, o, a, i)
  {
    PathLength(d, p, o, k - 1);
    var before := PathRecords(d, p, o, k - 1);
    assert PathRecords(d, p, o, k) == before + ColumnRecords(d, p, o, k - 1);
    if a < k - 1 {
      PathAt(d, p, o, k - 1, a, i);
    } else {
      assert a * p.nLambdas + i == |before| + i;
    }
  }

  /** What every record reports: its own position and alpha, n coefficients,
      an active count of at most n, a training error that is a non-negative
      number (NaN without training rows), and the validation sentinel exactly
      without validation rows; the solver saw L1 and L2 weights summing to
      lambda. */
  lemma RecordFacts(d: Data, p: GridParams, o: Oracles, a: nat, i: nat)
    requires Ready(d, p, o) && a < p.nAlphas && i < p.nLambdas
    ensures var r := RecordAt(d, p, o, a, i);
      r.alphaIndex == a && r.lambdaIndex == i &&
      r.alpha == Grid.Alpha(a, p.nAlphas) && 0.0 <= r.alpha <= 1.0 &&
      r.lambda == LambdaAt(p, o, i) &&
      |r.x| == d.n && r.dof <= d.n &&
      (d.mTrain == 0 ==> r.trainMSE == NaN) &&
      (d.mTrain > 0 ==> r.trainMSE.Finite? && r.trainMSE.value >= 0.0) &&
      (r.validMSE == Finite(-1.0) <==> d.mValid == 0)
    ensures forall j :: 0 <= j < d.n ==>
      Penalty.PenaltyTerms(d.n, Grid.Alpha(a, p.nAlphas), LambdaAt(p, o, i))[j].c
      + Penalty.PenaltyTerms(d.n, Grid.Alpha(a, p.nAlphas), LambdaAt(p, o, i))[j].e
        == LambdaAt(p, o, i)
  {
    Penalty.PenaltyTermsUniform(d.n, Grid.Alpha(a, p.nAlphas), LambdaAt(p, o, i));
  }

  /** Lines 189-223: the active count of x, the training predictions and
      their mean squared error, and the validation error or the -1
      sentinel when there are no validation rows. */
  method ScoreStep(d: Data, x: seq<real>) returns (dof: nat, trainMSE: Float, validMSE: Float)
    requires WellFormed(d) && |x| == d.n
    ensures dof == Scoring.ActiveCount(x, d.n) && dof <= d.n
    ensures trainMSE
         == Stats.MeanSquaredError(Scoring.Predictions(d.trainX, x, d.mTrain, d.n), d.trainY, d.mTrain)
    ensures validMSE == ValidScore(d, x)
    ensures validMSE == Finite(-1.0) <==> d.mValid == 0
  {
    dof := Scoring.CountActive(x, d.n);
    var trainPreds := Scoring.Predict(d.trainX, x, d.mTrain, d.n);
    trainMSE := Stats.GetMSE(d.mTrain, trainPreds[..], d.trainY);
    validMSE := Finite(-1.0);
    if d.mValid > 0 {
      var validPreds := Scoring.Predict(d.validX, x, d.mValid, d.n);
      validMSE := Stats.GetMSE(d.mValid, validPreds[..], d.validY);
    }
    ValidSentinelIff(d, x);
  }

  /** One pass of the alpha loop (lines 150-227): alpha and the lambda range
      of column a, the loss and penalty vectors, then for each lambda step the
      penalty weights, the solve and the scores. */
  method AlphaColumn(d: Data, p: GridParams, o: Oracles, a: nat) returns (column: seq<Record>)
    requires Ready(d, p, o) && a < p.nAlphas
    ensures column == ColumnRecords(d, p, o, a)
  {
    var alpha := Grid.Alpha(a, p.nAlphas);
    var lambdaMax := Grid.LambdaMax(p.lambdaMax0);
    var lambdaMin := Grid.LambdaMin(p.lambdaMinRatio, lambdaMax);
    var f := Penalty.BuildLoss(d.trainY, d.mTrain);
    assert f == LossTerms(d.trainY);
    var g := Penalty.BuildPenalty(d.n);
    column := [];
    var i := 0;
    while i < p.nLambdas
      invariant 0 <= i <= p.nLambdas
      invariant g.Length == d.n
      invariant forall j :: 0 <= j < d.n ==> g[j] == Penalty.AbsPenalty.(c := g[j].c, e := g[j].e)
      invariant |column| == i
      invariant forall k :: 0 <= k < i ==> column[k] == RecordAt(d, p, o, a, k)
    {
      var lambda := o.exp(Grid.LogLambda(o.log(lambdaMax), o.log(lambdaMin), p.nLambdas, i));
      Penalty.AssignLambda(g, alpha, lambda, Penalty.PenaltyFactor);
      assert g[..] == Penalty.PenaltyTerms(d.n, alpha, lambda);
      var x := o.solve(a, i, SolverInput(f, g[..]));
      var dof, trainMSE, validMSE := ScoreStep(d, x);
      column := column + [Record(a, alpha, i, lambda, x, dof, trainMSE, validMSE)];
      i := i + 1;
    }
  }

  /** ElasticNetptr: nlambda <= 1 is rejected before any data is read or any
      solve is run; otherwise the records of every alpha column, column after
      column. */
  method ElasticNetPtr(d: Data, p: GridParams, o: Oracles) returns (r: Result<seq<Record>, PathError>)
    requires p.nLambdas > 1 ==> WellFormed(d) && SolverReturns(o, d.n)
    ensures r.Failure? <==> p.nLambdas <= 1
    ensures r.Failure? ==> r.error == NLambdaTooSmall
    ensures r.Success? ==> Ready(d, p, o) && r.value == PathRecords(d, p, o, AlphaCount(p))
    ensures r.Success? ==> |r.value| == AlphaCount(p) * p.nLambdas
    ensures r.Success? && p.nAlphas <= 0 ==> r.value == []
    ensures r.Success? && p.nAlphas > 0 ==> |r.value| == p.nAlphas * p.nLambdas
  {
    if p.nLambdas <= 1 {
      return Failure(NLambdaTooSmall);
    }
    var records := [];
    var a := 0;
    while a < p.nAlphas
      invariant a <= AlphaCount(p)
      invariant records == PathRecords(d, p, o, a)
    {
      var column := AlphaColumn(d, p, o, a);
      records := records + column;
      a := a + 1;
    }
    PathLength(d, p, o, a);
    r := Success(records);
  }

  /** lambda_min_ratio as ElasticNet fixes it. */
  const LambdaMinRatio: real := 0.0000001

  /** The split ElasticNet hands to ElasticNetptr. */
  function SplitData(A: seq<real>, b: seq<real>, m: nat, n: nat, validFraction: real): (d: Data)
    requires 0.0 <= validFraction <= 1.0 && |A| == m * n && |b| == m
    ensures WellFormed(d) && d.n == n
    ensures d.mValid == Split.ValidRows(m, validFraction) && d.mTrain + d.mValid == m
    ensures d.trainY + d.validY == b && d.trainX + d.validX == A
  {
    var mValid := Split.ValidRows(m, validFraction);
    var mTrain := m - mValid;
    Split.RowBlocks(mTrain, mValid, n);
    assert b == b[..mTrain] + b[mTrain..];
    assert A == A[..mTrain * n] + A[mTrain * n..];
    Data(mTrain, n, mValid, A[..mTrain * n], b[..mTrain], A[mTrain * n..], b[mTrain..])
  }

  /** meanTrainY of line 297 as the model carries it: the training mean when
      there are training rows. Without them the source's mean is 0/0 = NaN;
      the model carries 0 instead, which TrainMeanUnseen shows no later
      computation can tell apart. */
  function TrainMean(d: Data): (mean: real)
    ensures |d.trainY| > 0 ==> Stats.Mean(d.trainY) == Finite(mean)
    ensures |d.trainY| == 0 ==> Stats.Mean(d.trainY) == NaN && mean == 0.0
  {
    var mean := Stats.Mean(d.trainY);
    if mean.Finite? then mean.value else 0.0
  }

  /** Without training rows the mean is read nowhere: both readings of the
      lambda_max0 loop give 0, and getVarV gives 0, for every mean. */
  lemma TrainMeanUnseen(d: Data, mean: real)
    requires WellFormed(d) && d.mTrain == 0
    ensures LambdaMax.MatrixFits(|d.trainX|, 0, d.n, 1, 0) && LambdaMax.MatrixFits(|d.trainX|, 0, d.n, d.n, 1)
    ensures LambdaMax.MaxAbsColumn(d.trainX, d.trainY, mean, 0, 1, 0, d.n)
         == LambdaMax.MaxAbsColumn(d.trainX, d.trainY, TrainMean(d), 0, 1, 0, d.n)
    ensures LambdaMax.MaxAbsColumn(d.trainX, d.trainY, mean, 0, d.n, 1, d.n)
         == LambdaMax.MaxAbsColumn(d.trainX, d.trainY, TrainMean(d), 0, d.n, 1, d.n)
    ensures Stats.Variance(d.trainY, mean, 0) == Stats.Variance(d.trainY, TrainMean(d), 0)
  {
    LambdaMax.MaxAbsColumnWithoutRows(d.trainX, d.trainY, mean, 1, 0, d.n);
    LambdaMax.MaxAbsColumnWithoutRows(d.trainX, d.trainY, TrainMean(d), 1, 0, d.n);
    LambdaMax.MaxAbsColumnWithoutRows(d.trainX, d.trainY, mean, d.n, 1, d.n);
    LambdaMax.MaxAbsColumnWithoutRows(d.trainX, d.trainY, TrainMean(d), d.n, 1, d.n);
  }

  /** The grid ElasticNet passes, with lambda_max0 from the row-major column
      sums: the largest |u_j| over the columns of the training matrix,
      attained at one of them, the fixed lambda_min_ratio, and the caller's
      counts. */
  function DriverParams(d: Data, nLambdas: int, nAlphas: int): (p: GridParams)
    requires WellFormed(d)
    ensures LambdaMax.MatrixFits(|d.trainX|, d.mTrain, d.n, d.n, 1)
    ensures p.lambdaMinRatio == LambdaMinRatio && p.nLambdas == nLambdas && p.nAlphas == nAlphas
    ensures p.lambdaMax0 >= 0.0
    ensures forall j :: 0 <= j < d.n ==>
      LambdaMax.AbsColumn(d.trainX, d.trainY, TrainMean(d), d.mTrain, d.n, d.n, 1, j) <= p.lambdaMax0
    ensures d.n > 0 ==> exists j :: (0 <= j < d.n &&
      p.lambdaMax0 == LambdaMax.AbsColumn(d.trainX, d.trainY, TrainMean(d), d.mTrain, d.n, d.n, 1, j))
  {
    LambdaMax.RowMajorFits(d.mTrain, d.n);
    LambdaMax.MaxAbsColumnIsMaximum(d.trainX, d.trainY, TrainMean(d), d.mTrain, d.n, 1, d.n);
    GridParams(LambdaMax.MaxAbsColumn(d.trainX, d.trainY, TrainMean(d), d.mTrain, d.n, 1, d.n),
               LambdaMinRatio, nLambdas, nAlphas)
  }

  /** The grid the source's ElasticNet passes, with lambda_max0 from the
      column-major reading of line 331: the same maximum facts, over the
      columns that reading sees. */
  function DriverParamsAsWritten(d: Data, nLambdas: int, nAlphas: int): (p: GridParams)
    requires WellFormed(d)
    ensures LambdaMax.MatrixFits(|d.trainX|, d.mTrain, d.n, 1, d.mTrain)
    ensures p.lambdaMinRatio == LambdaMinRatio && p.nLambdas == nLambdas && p.nAlphas == nAlphas
    ensures p.lambdaMax0 >= 0.0
    ensures forall j :: 0 <= j < d.n ==>
      LambdaMax.AbsColumn(d.trainX, d.trainY, TrainMean(d), d.mTrain, d.n, 1, d.mTrain, j) <= p.lambdaMax0
    ensures d.n > 0 ==> exists j :: (0 <= j < d.n &&
      p.lambdaMax0 == LambdaMax.AbsColumn(d.trainX, d.trainY, TrainMean(d), d.mTrain, d.n, 1, d.mTrain, j))
  {
    LambdaMax.ColumnMajorFits(d.mTrain, d.n);
    LambdaMax.MaxAbsColumnIsMaximum(d.trainX, d.trainY, TrainMean(d), d.mTrain, 1, d.mTrain, d.n);
    GridParams(LambdaMax.MaxAbsColumn(d.trainX, d.trainY, TrainMean(d), d.mTrain, 1, d.mTrain, d.n),
               LambdaMinRatio, nLambdas, nAlphas)
  }

  /** The part of ElasticNet before lambda_max0 (lines 246-300): the split,
      the training mean and the training variance, which is only printed. */
  method SplitAndCenter(A: seq<real>, b: seq<real>, m: SizeT, n: nat, validFraction: real)
    returns (d: Data, meanTrainY: real)
    requires 0.0 <= validFraction <= 1.0 && |A| == m * n && |b| == m
    ensures d == SplitData(A, b, m, n, validFraction) && meanTrainY == TrainMean(d)
  {
    var trainX, trainY, validX, validY, mTrain, mValid := Split.TrainValidSplit(A, b, m, n, validFraction);
    d := Data(mTrain, n, mValid, trainX[..], trainY[..], validX[..], validY[..]);
    assert d == SplitData(A, b, m, n, validFraction);
    meanTrainY := TrainMean(d);
    var varTrainY := Stats.GetVarV(d.trainY, meanTrainY);
  }

  /** ElasticNet (lines 239-391) with the row-major lambda_max0: split the
      full data, take the training mean, estimate lambda_max0, and run the
      path. */
  method ElasticNet(A: seq<real>, b: seq<real>, m: SizeT, n: nat, nLambdas: int, nAlphas: int,
                    validFraction: real, o: Oracles)
    returns (r: Result<seq<Record>, PathError>)
    requires 0.0 <= validFraction <= 1.0 && |A| == m * n && |b| == m
    requires SolverReturns(o, n)
    ensures r.Failure? <==> nLambdas <= 1
    ensures r.Success? ==>
      var d := SplitData(A, b, m, n, validFraction);
      Ready(d, DriverParams(d, nLambdas, nAlphas), o) &&
      r.value == PathRecords(d, DriverParams(d, nLambdas, nAlphas), o,
                             AlphaCount(DriverParams(d, nLambdas, nAlphas)))
  {
    var d, meanTrainY := SplitAndCenter(A, b, m, n, validFraction);
    var lambdaMax0 := LambdaMax.LambdaMax0RowMajor(d.trainX, d.trainY, meanTrainY, d.mTrain, n);
    r := ElasticNetPtr(d, GridParams(lambdaMax0, LambdaMinRatio, nLambdas, nAlphas), o);
  }

  /** ElasticNet with the column-major lambda_max0 loop of line 331; the
      mean, log and exp are carried as described for TrainMean and LambdaAt. */
  method ElasticNetAsWritten(A: seq<real>, b: seq<real>, m: SizeT, n: nat, nLambdas: int, nAlphas: int,
                             validFraction: real, o: Oracles)
    returns (r: Result<seq<Record>, PathError>)
    requires 0.0 <= validFraction <= 1.0 && |A| == m * n && |b| == m
    requires SolverReturns(o, n)
    ensures r.Failure? <==> nLambdas <= 1
    ensures r.Success? ==>
      var d := SplitData(A, b, m, n, validFraction);
      Ready(d, DriverParamsAsWritten(d, nLambdas, nAlphas), o) &&
      r.value == PathRecords(d, DriverParamsAsWritten(d, nLambdas, nAlphas), o,
                             AlphaCount(DriverParamsAsWritten(d, nLambdas, nAlphas)))
  {
    var d, meanTrainY := SplitAndCenter(A, b, m, n, validFraction);
    var lambdaMax0 := LambdaMax.LambdaMax0(d.trainX, d.trainY, meanTrainY, d.mTrain, n);
    r := ElasticNetPtr(d, GridParams(lambdaMax0, LambdaMinRatio, nLambdas, nAlphas), o);
  }

  /** On the two-row data of the lambda_max0 finding, held out nothing, the
      source's driver hands the path lambda_max0 = 0 where the row-major
      driver hands it 1. */
  lemma DriversDisagree(A: seq<real>, b: seq<real>)
    requires A == [1.0, 1.0, 0.0, 0.0] && b == [1.0, -1.0]
    ensures DriverParamsAsWritten(SplitData(A, b, 2, 2, 0.0), 5, 1).lambdaMax0 == 0.0
    ensures DriverParams(SplitData(A, b, 2, 2, 0.0), 5, 1).lambdaMax0 == 1.0
  {
    var d := SplitData(A, b, 2, 2, 0.0);
    Split.SplitSizes(2, 0.0);
    assert d.mTrain == 2 && d.trainX == A && d.trainY == b;
    assert Stats.Sum(b) == 0.0 by {
      assert b[..1] == [1.0];
      assert [1.0][..0] == [];
    }
    assert TrainMean(d) == 0.0;
    LambdaMax.ColumnMajorReadingDiffers(A, b);
  }
}
