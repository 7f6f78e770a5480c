/** The (alpha, lambda) grid of ElasticNetptr: evenly spaced alphas and, per
    alpha column, lambdas spaced evenly in log space from lambda_max down to
    lambda_min. */
module Grid {

  /** Alpha of column a out of N: 0.5 for a single column, a / (N - 1)
      otherwise (the inner guard N > 1 ? N - 1 : 1 is kept as written). */
  function Alpha(a: nat, N: nat): (alpha: real)
    requires a < N
    ensures N == 1 ==> alpha == 0.5
    ensures N > 1 ==> alpha * ((N - 1) as real) == a as real
    ensures 0.0 <= alpha <= 1.0
    ensures N > 1 && a == 0 ==> alpha == 0.0
    ensures N > 1 && a == N - 1 ==> alpha == 1.0
  {
    if N == 1 then 0.5 else (a as real) / ((if N > 1 then N - 1 else 1) as real)
  }

  /** Over two or more columns the alphas strictly increase with the column. */
  lemma AlphaStrictlyIncreasing(a: nat, b: nat, N: nat)
    requires a < b < N
    ensures Alpha(a, N) < Alpha(b, N)
  {
    OrderedByScale(Alpha(a, N), Alpha(b, N), (N - 1) as real, a as real, b as real);
  }

  /** Two numbers that a common positive factor maps to u < v are ordered
      the same way. */
  lemma OrderedByScale(lo: real, hi: real, den: real, u: real, v: real)
    requires den > 0.0 && lo * den == u && hi * den == v && u < v
    ensures lo < hi
  {
    ScaledDifference(hi, lo, den);
    PositiveFactor(hi - lo, den);
  }

  lemma ScaledDifference(x: real, y: real, den: real)
    ensures (x - y) * den == x * den - y * den
  {
  }

  /** A factor whose product with a positive number is positive is positive. */
  lemma PositiveFactor(x: real, den: real)
    requires x * den > 0.0 && den > 0.0
    ensures x > 0.0
  {
    var q := x * den;
    assert x == q / den;
  }

  /** lambda_max = 10 * lambda_max0, the same for every alpha column. */
  function LambdaMax(lambdaMax0: real): (lambdaMax: real)
    ensures lambdaMax0 >= 0.0 ==> lambdaMax >= lambdaMax0
    ensures lambdaMax0 > 0.0 ==> lambdaMax > lambdaMax0
  {
    10.0 * lambdaMax0
  }

  /** lambda_min = lambda_min_ratio * lambda_max. */
  function LambdaMin(lambdaMinRatio: real, lambdaMax: real): (lambdaMin: real)
    ensures 0.0 <= lambdaMinRatio <= 1.0 && lambdaMax >= 0.0 ==> 0.0 <= lambdaMin <= lambdaMax
    ensures 0.0 < lambdaMinRatio < 1.0 && lambdaMax > 0.0 ==> 0.0 < lambdaMin < lambdaMax
  {
    lambdaMinRatio * lambdaMax
  }

  /** The argument of exp on line 174: log lambda_max and log lambda_min
      weighted by (nlambda - 1 - i) and i, over nlambda - 1. */
  function LogLambda(logMax: real, logMin: real, nLambdas: int, i: int): (e: real)
    requires nLambdas > 1
  {
    (logMax * ((nLambdas - 1 - i) as real) + logMin * (i as real)) / ((nLambdas - 1) as real)
  }

  /** The exponent is linear in the step: it starts at log lambda_max, ends at
      log lambda_min, and falls by the same amount at every step. */
  lemma LogLambdaInterpolates(logMax: real, logMin: real, nLambdas: int, i: int)
    requires nLambdas > 1
    ensures LogLambda(logMax, logMin, nLambdas, 0) == logMax
    ensures LogLambda(logMax, logMin, nLambdas, nLambdas - 1) == logMin
    ensures LogLambda(logMax, logMin, nLambdas, i) - LogLambda(logMax, logMin, nLambdas, i + 1)
         == (logMax - logMin) / ((nLambdas - 1) as real)
  {
    var den := (nLambdas - 1) as real;
    assert logMax * den / den == logMax;
    assert logMin * den / den == logMin;
    var top := logMax * ((nLambdas - 1 - i) as real) + logMin * (i as real);
    var next := logMax * ((nLambdas - 1 - (i + 1)) as real) + logMin * ((i + 1) as real);
    assert top - next == logMax - logMin;
    assert top / den - next / den == (top - next) / den;
  }

  /** When log lambda_min < log lambda_max the exponents strictly decrease
      from step to step. */
  lemma LogLambdaStrictlyDecreasing(logMax: real, logMin: real, nLambdas: int, i: int, k: int)
    requires nLambdas > 1 && logMin < logMax && i < k
    ensures LogLambda(logMax, logMin, nLambdas, k) < LogLambda(logMax, logMin, nLambdas, i)
  {
    var den := (nLambdas - 1) as real;
    var top := logMax * ((nLambdas - 1 - i) as real) + logMin * (i as real);
    var bot := logMax * ((nLambdas - 1 - k) as real) + logMin * (k as real);
    assert top - bot == (logMax - logMin) * ((k - i) as real);
    assert top - bot > 0.0;
    assert top / den - bot / den == (top - bot) / den;
  }
}
