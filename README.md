# Elastic-net path driver (h2o4gpu / pogs example), sequential model

This project models the sequential logic of `examples/cpp/elastic_net_mapd.cpp`:

- the `ElasticNet` driver: the head/tail train/validation split, the training mean and variance, and the `lambda_max0` estimate;
- the `ElasticNetptr` path: the `nlambda > 1` check, the alpha grid, `lambda_max` and `lambda_min`, the loss vector `f`, and the penalty vector `g` with its weights overwritten in place for every lambda;
- the scoring of every solution: the active-variable count `dof`, the training and validation predictions, and the mean squared errors with the `-1` validation sentinel;
- the accumulators of `getRMSE`, `getVar` and `getVarV`.

`T` is modelled as `real`, without rounding. Division follows IEEE semantics through `Numerics.Float`: 0/0 is NaN and x/0 is an infinity. As a result:

- `getRMSE` on zero rows is modelled, not excluded;
- so is `getVar` on one element;
- `getVar` on zero elements is modelled too: `len - 1` wraps around in `size_t`, which `Numerics.SizeMinusOne` models.

The solver, `log` and `exp` are parameters of the path (`Path.Oracles`). The model describes what the path hands to them and what it does with their results. The alpha columns run one after another.

Modules follow the structure of the file:

| module | file | contents |
|---|---|---|
| `Numerics` | numerics.dfy | IEEE division, `size_t` subtraction, absolute value, index bounds |
| `Stats` | stats.dfy | `getRMSE` (before the square root), `getVar`, `getVarV`, the training mean |
| `Split` | split.dfy | split sizes and the row-copy loops |
| `Grid` | grid.dfy | alpha, `lambda_max`, `lambda_min`, the log-space exponent |
| `Penalty` | penalty.dfy | the `FunctionObj` terms, building `f` and `g`, the in-place lambda assignment |
| `Scoring` | scoring.dfy | `dof` and the prediction loops |
| `LambdaMax` | lambda_max.dfy | the `lambda_max0` loop, as written and with row-major indexing |
| `Path` | path.dfy | `ElasticNetptr` and `ElasticNet` end to end |

## Model

| member | source | states |
|---|---|---|
| Numerics.Divide | examples/cpp/elastic_net_mapd.cpp:24 | IEEE division: finite exactly for a nonzero divisor, and then quotient times divisor gives the numerator; 0/0 is NaN; x/0 is +infinity exactly for x > 0 |
| Numerics.SizeMinusOne | examples/cpp/elastic_net_mapd.cpp:34 | `len - 1` in size_t: len - 1 for len > 0, 2^64 - 1 for len = 0 |
| Stats.SqDiffSumNonNegative | examples/cpp/elastic_net_mapd.cpp:19-23 | the getRMSE accumulator is never negative |
| Stats.SqDiffSumSymmetric | examples/cpp/elastic_net_mapd.cpp:19-23 | the accumulator is the same with v1 and v2 swapped |
| Stats.SqDiffSumZeroIff | examples/cpp/elastic_net_mapd.cpp:19-23 | the accumulator is 0 exactly when v1[i] == v2[i] for every i < len |
| Stats.MeanSquaredErrorSymmetric | examples/cpp/elastic_net_mapd.cpp:17-26 | the mean squared error is symmetric in its two vectors |
| Stats.MeanSquaredErrorMeaning | examples/cpp/elastic_net_mapd.cpp:17-26 | NaN for len = 0; otherwise finite, non-negative, and 0 exactly when the prefixes agree |
| Stats.GetMSE | examples/cpp/elastic_net_mapd.cpp:17-26 | the loop's result equals the mean squared error, with the NaN, non-negativity and zero-iff-equal facts |
| Stats.SqDevSumNonNegative | examples/cpp/elastic_net_mapd.cpp:30-33 | the getVar accumulator is never negative |
| Stats.VarianceMeaning | examples/cpp/elastic_net_mapd.cpp:28-35 | getVar gives 0 for len = 0 (wrapped divisor); for len = 1, NaN exactly when v[0] == mean and +infinity otherwise; from len = 2 on, finite and non-negative |
| Stats.GetVar | examples/cpp/elastic_net_mapd.cpp:28-35 | the loop's result equals the variance of the prefix, with the by-length cases above |
| Stats.GetVarV | examples/cpp/elastic_net_mapd.cpp:37-44 | the same over the whole vector, whose size is a size_t |
| Stats.SumBounds | examples/cpp/elastic_net_mapd.cpp:297 | the accumulate sum lies between count * lo and count * hi for entry bounds lo and hi |
| Stats.MeanBetween | examples/cpp/elastic_net_mapd.cpp:297 | meanTrainY is NaN without training rows; otherwise finite and between any bounds of the targets |
| Split.ValidRows | examples/cpp/elastic_net_mapd.cpp:246 | mValid is the floor of m * validFraction, at most m |
| Split.TrainRows | examples/cpp/elastic_net_mapd.cpp:265 | mTrain + mValid == m |
| Split.SplitSizes | examples/cpp/elastic_net_mapd.cpp:246-265 | the sizes add up to m; a zero fraction gives mValid = 0; a fraction below 1 leaves a training row when m > 0 |
| Split.SplitIndicesInBounds | examples/cpp/elastic_net_mapd.cpp:271-287 | every i*n+j and (mTrain+i)*n+j the copy loops use is in bounds, and (mTrain+i)*n+j is element i*n+j of the tail block |
| Split.CopyRow | examples/cpp/elastic_net_mapd.cpp:274-286 | the inner copy loop: row i of X receives row first + i of A, and no other element of X changes |
| Split.CopyRows | examples/cpp/elastic_net_mapd.cpp:271-287 | one copy loop: two new arrays holding exactly rows [first, first+rows) of b and of A, in order |
| Split.TrainValidSplit | examples/cpp/elastic_net_mapd.cpp:246-288 | sizes as above; four new, distinct buffers; trainY ++ validY == b and trainX ++ validX == A, with training the first mTrain rows |
| Grid.Alpha | examples/cpp/elastic_net_mapd.cpp:150 | 0.5 when N == 1; otherwise alpha * (N-1) == a; always in [0, 1]; 0 at a = 0 and 1 at a = N-1 when N > 1 |
| Grid.AlphaStrictlyIncreasing | examples/cpp/elastic_net_mapd.cpp:150 | alphas strictly increase with the column |
| Grid.LambdaMax | examples/cpp/elastic_net_mapd.cpp:151 | lambda_max is at least lambda_max0 when that is non-negative, and strictly above it when positive |
| Grid.LambdaMin | examples/cpp/elastic_net_mapd.cpp:152 | lambda_min lies in [0, lambda_max] for a ratio in [0, 1], and strictly inside for a ratio in (0, 1) and a positive lambda_max |
| Grid.LogLambdaInterpolates | examples/cpp/elastic_net_mapd.cpp:174-175 | the exp argument is log lambda_max at i = 0 and log lambda_min at i = nlambda-1, and falls by the same amount every step |
| Grid.LogLambdaStrictlyDecreasing | examples/cpp/elastic_net_mapd.cpp:174-175 | with log lambda_min < log lambda_max the exp argument strictly decreases in i |
| Penalty.WeightsSplitLambda | examples/cpp/elastic_net_mapd.cpp:180-181 | c + e == lambda * pf; both are non-negative for alpha in [0, 1]; alpha = 1 gives e = 0 and alpha = 0 gives c = 0 |
| Penalty.PenaltyTermsUniform | examples/cpp/elastic_net_mapd.cpp:167-182 | every entry of g passed to the solver is the same absolute-value term, with c + e == lambda |
| Penalty.BuildLoss | examples/cpp/elastic_net_mapd.cpp:166 | f has exactly mTrain terms; term j is the squared loss anchored at trainY[j] |
| Penalty.BuildPenalty | examples/cpp/elastic_net_mapd.cpp:167 | g is a new vector of n default absolute-value terms |
| Penalty.AssignLambda | examples/cpp/elastic_net_mapd.cpp:179-182 | every entry of g gets the new c and e; every other field keeps its old value |
| Scoring.ActiveCountIsCardinality | examples/cpp/elastic_net_mapd.cpp:189-194 | the count equals the number of indices with abs(x[i]) > 1e-8 |
| Scoring.ActiveCountAtMost | examples/cpp/elastic_net_mapd.cpp:189-194 | the count is at most n |
| Scoring.ActiveCountZeroIff | examples/cpp/elastic_net_mapd.cpp:189-194 | the count is 0 exactly when no entry exceeds the threshold |
| Scoring.ActiveCountFullIff | examples/cpp/elastic_net_mapd.cpp:189-194 | the count is n exactly when every entry exceeds the threshold |
| Scoring.CountActive | examples/cpp/elastic_net_mapd.cpp:189-194 | the dof loop gives that cardinality: at most n, 0 iff no entry is active, n iff every entry is |
| Scoring.Predict | examples/cpp/elastic_net_mapd.cpp:195-215 | the new zero-initialised prediction vector ends with entry i equal to the dot product of x and row i |
| Scoring.PredictionAt | examples/cpp/elastic_net_mapd.cpp:198 | prediction i is the dot product of x with the row starting at i * n |
| Scoring.RowDotOfZero | examples/cpp/elastic_net_mapd.cpp:196-199 | an all-zero coefficient vector predicts 0 |
| LambdaMax.StdMax | examples/cpp/elastic_net_mapd.cpp:334 | std::max returns one of its arguments and is at least both |
| LambdaMax.MaxAbsColumnIsMaximum | examples/cpp/elastic_net_mapd.cpp:327-335 | the running maximum is at least 0 and at least every column's abs(u); it equals one of them when there is a column, and 0 otherwise |
| LambdaMax.MaxAbsColumnWithoutRows | examples/cpp/elastic_net_mapd.cpp:327-335 | with no training rows the estimate is 0 whatever mean it is given |
| LambdaMax.ColumnMajorSum | examples/cpp/elastic_net_mapd.cpp:329-332 | the inner loop as written gives u for column j read at i + j * mTrain |
| LambdaMax.LambdaMax0 | examples/cpp/elastic_net_mapd.cpp:327-335 | as written: lambda_max0 is at least 0 and at least abs(u_j) for every column j; it equals some abs(u_j) when n > 0 and is 0 when n == 0 |
| LambdaMax.ColumnMajorTwoByTwo | examples/cpp/elastic_net_mapd.cpp:331 | for two rows and two columns, the literal indexing pairs the targets with X[0], X[1] and X[2], X[3] |
| LambdaMax.RowMajorTwoByTwo | examples/cpp/elastic_net_mapd.cpp:275 | for the layout the split writes, the columns are X[0], X[2] and X[1], X[3] |
| LambdaMax.ColumnMajorReadingDiffers | examples/cpp/elastic_net_mapd.cpp:275-331 | on a concrete row-major matrix the literal estimate is 0, where the row-major one is 1 |
| LambdaMax.RowMajorSum | examples/cpp/elastic_net_mapd.cpp:329-332 | corrected inner loop: u for column j read at i * n + j |
| LambdaMax.LambdaMax0RowMajor | examples/cpp/elastic_net_mapd.cpp:327-335 | corrected: the same maximum facts over the columns of the row-major training matrix |
| Path.LossTerms | examples/cpp/elastic_net_mapd.cpp:166 | one loss term per training target |
| Path.LambdaAt | examples/cpp/elastic_net_mapd.cpp:174-175 | lambda at step 0 is exp(log lambda_max) and at step nlambda-1 is exp(log lambda_min) |
| Path.ValidSentinelIff | examples/cpp/elastic_net_mapd.cpp:209-223 | the validation score is -1 exactly when mValid == 0, and otherwise finite and non-negative |
| Path.ScoreStep | examples/cpp/elastic_net_mapd.cpp:189-223 | dof, training error and validation score of one solution, with dof <= n and the sentinel exactly when mValid == 0 |
| Path.RecordAt | examples/cpp/elastic_net_mapd.cpp:170-226 | one lambda step reports alpha in [0, 1], n coefficients and dof <= n; its training error is NaN without training rows and non-negative otherwise; its validation sentinel appears exactly when mValid == 0 |
| Path.ColumnRecords | examples/cpp/elastic_net_mapd.cpp:170 | an alpha column has nlambda records |
| Path.PathLength | examples/cpp/elastic_net_mapd.cpp:149-227 | the path has nlambda records per alpha column |
| Path.PathAt | examples/cpp/elastic_net_mapd.cpp:149-227 | the record of grid point (a, i) is at position a * nlambda + i |
| Path.RecordFacts | examples/cpp/elastic_net_mapd.cpp:149-223 | each record carries its own a, i, alpha in [0, 1] and lambda, plus n coefficients and dof <= n; training error is NaN without training rows and non-negative otherwise; the sentinel appears iff mValid == 0; and c + e == lambda in every penalty term |
| Path.AlphaColumn | examples/cpp/elastic_net_mapd.cpp:149-227 | one pass of the alpha loop: the solver sees f and the freshly reweighted g at every step, and the records follow in lambda order |
| Path.ElasticNetPtr | examples/cpp/elastic_net_mapd.cpp:53-235 | nlambda <= 1 fails before any data is read or solve is run, and only then; otherwise the result is every alpha column in a row, nlambda records each: nAlphas * nlambda records, and none when nAlphas <= 0 |
| Path.SplitData | examples/cpp/elastic_net_mapd.cpp:246-288 | the split is well formed, and its two halves concatenate back to b and to A |
| Path.TrainMean | examples/cpp/elastic_net_mapd.cpp:297 | the training mean when there are training rows; without them the source's mean is NaN and the model carries 0 |
| Path.TrainMeanUnseen | examples/cpp/elastic_net_mapd.cpp:297-335 | without training rows the mean changes nothing: both lambda_max0 readings and the variance are the same for every mean |
| Path.DriverParams | examples/cpp/elastic_net_mapd.cpp:327-338 | corrected: lambda_max0 is non-negative, at least abs(u_j) for every row-major column, and attained at one when n > 0; lambda_min_ratio is 1e-7 |
| Path.DriverParamsAsWritten | examples/cpp/elastic_net_mapd.cpp:327-338 | as written: the same facts over the columns the reading trainX[i + j * mTrain] sees |
| Path.SplitAndCenter | examples/cpp/elastic_net_mapd.cpp:246-300 | gives the head/tail split of A and b and the training mean |
| Path.ElasticNet | examples/cpp/elastic_net_mapd.cpp:239-391 | corrected: fails exactly when nlambda <= 1; otherwise returns the path over the split data, with the row-major lambda_max0 and lambda_min_ratio 1e-7 |
| Path.ElasticNetAsWritten | examples/cpp/elastic_net_mapd.cpp:239-391 | as written: the same, with the column-major lambda_max0 of line 331 |
| Path.DriversDisagree | examples/cpp/elastic_net_mapd.cpp:327-388 | on the two-row Findings data the source's driver hands ElasticNetptr lambda_max0 = 0, the corrected one 1 |

## Left out

- Path.ElasticNetPtr: the OpenMP parallel region, the thread and GPU selection, and the `N % nGPUs` notice. The model runs the alpha columns one after another, so it says nothing about concurrency or scheduling.
- Path.Oracles: the pogs solver (`MatrixDense`, `PogsDirect`, `Solve`, `GetX`) is foreign GPU code. It is a function parameter that receives (alpha index, lambda index, f, g) and returns n coefficients. The grid position stands for its internal warm-start state.
- Path.LambdaAt: `std::log` and `std::exp` are parameters returning reals, and nothing is claimed about them. The exponent between them is modelled exactly only while lambda_max0 > 0. When lambda_max0 == 0 (no training rows, n == 0, a target orthogonal to every column, or the as-written estimate on the Findings input), lambda_max and lambda_min are 0 and `std::log` gives -infinity. The source then computes -infinity * 0 = NaN at steps 0 and nlambda-1, so those lambdas are NaN, and exp(-infinity) = 0 at every step between; those NaN and 0 weights reach g. The model does not follow this. Its endpoint facts (Path.LambdaAt, Grid.LogLambdaInterpolates) describe the source only for a positive lambda_max0.
- Stats.GetMSE: returns the mean squared error, without the final `std::sqrt` of `getRMSE`; `sdTrainY` (a square root) is left out for the same reason.
- Rounding: float and double rounding, the conversions of `static_cast<T>`, and the `(float)` casts in the lambda exponent are not modelled; every value is an exact real.
- Split.ValidRows: requires 0 <= validFraction <= 1. Outside that range the `size_t` conversion and `m - mValid` are undefined or wrap, and the model does not follow them.
- Split.TrainValidSplit: the copy loops in the source use `int` counters, compared with `size_t` bounds. Overflow of those counters for more than 2^31 rows is not modelled.
- Penalty.BuildLoss: the loop at line 166 counts with `unsigned int` against the `size_t` mTrain. From 2^32 training rows the counter wraps and the source never ends; the model always ends.
- Penalty.BuildPenalty: the same for the `unsigned int` counter at line 167, from 2^32 features.
- Penalty.AssignLambda: the same for the `unsigned int` counter at line 179, from 2^32 features.
- LambdaMax.LambdaMax0: the same for the `unsigned int` column counter at line 328, from 2^32 features; LambdaMax.LambdaMax0RowMajor shares it.
- LambdaMax.ColumnMajorSum: the same for the `unsigned int` row counter at line 330, from 2^32 training rows; LambdaMax.RowMajorSum shares it.
- Path.ElasticNet: uses the corrected row-major lambda_max0 of the Findings row, not the column-major value line 331 computes. Path.ElasticNetAsWritten is the driver as the source computes it, and Path.DriversDisagree shows an input where the two differ.
- Path.TrainMean: carries 0 where the source's mean is NaN, which happens when there are no training rows. Path.TrainMeanUnseen shows that nothing computed from the mean can tell the difference.
- I/O: file and stdout logging, the timers, the fopen failure exit, and the returned timing figure are left out. `ElasticNetptr`'s `exit(-1)` is modelled as the `NLambdaTooSmall` error result.
- `readorgen.c` (data reading or generation) is not part of this model. `ElasticNet` receives A and b as inputs.
- The GPU warm-start and bandwidth probes are disabled. The commented-out standardization is dead code. The `weights` value (line 164) is computed and never used. The validation mean and deviation (lines 310-314) are only printed.

## Findings

| source | as written | input that shows it | evidently intended | confidence | as-written member | corrected member |
|---|---|---|---|---|---|---|
| examples/cpp/elastic_net_mapd.cpp:331 | `lambda_max0` reads column j at `trainX[i + j * mTrain]`, a column-major layout, but the split at line 275 stores `trainX` row-major at `i * n + j` | rows [1, 1] and [0, 0], targets 1 and -1 (mean 0): the literal estimate is 0, where the largest abs(u_j) over the true columns is 1 | read element (i, j) at `trainX[i * n + j]` | not executed; derived from the model | LambdaMax.LambdaMax0, LambdaMax.ColumnMajorReadingDiffers, Path.ElasticNetAsWritten, Path.DriversDisagree | LambdaMax.LambdaMax0RowMajor, Path.ElasticNet |
