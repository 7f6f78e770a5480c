/** The separable loss and penalty terms ElasticNetptr hands to the solver:
    one squared-error term per training row (f) and one absolute-value term
    per feature (g) whose L1 and L2 weights are overwritten for every lambda. */
module Penalty {

  /** The function kinds the path uses. */
  datatype Kind = Abs | Square

  /** A solver term c * h(a * x - b) + d * x + (e / 2) * x^2. */
  datatype FunctionObj = FunctionObj(h: Kind, a: real, b: real, c: real, d: real, e: real)

  /** penalty_factor, 1 for every feature. */
  const PenaltyFactor: real := 1.0

  /** The loss term of one training row: FunctionObj(kSquare, 1.0, y), the
      remaining weights at their defaults c = 1, d = 0, e = 0. */
  function SquareLoss(y: real): FunctionObj
  {
    FunctionObj(Square, 1.0, y, 1.0, 0.0, 0.0)
  }

  /** A freshly constructed penalty term FunctionObj(kAbs): a = 1, b = 0,
      c = 1, d = 0, e = 0. */
  const AbsPenalty: FunctionObj := FunctionObj(Abs, 1.0, 0.0, 1.0, 0.0, 0.0)

  /** The L1 weight alpha * lambda * penalty_factor. */
  function L1Weight(alpha: real, lambda: real, pf: real): real
  {
    alpha * lambda * pf
  }

  /** The L2 weight (1 - alpha) * lambda * penalty_factor. */
  function L2Weight(alpha: real, lambda: real, pf: real): real
  {
    (1.0 - alpha) * lambda * pf
  }

  /** A penalty term after the lambda assignment: the new L1 and L2 weights,
      every other field as the term had it. */
  function WithLambda(t: FunctionObj, alpha: real, lambda: real, pf: real): FunctionObj
  {
    t.(c := L1Weight(alpha, lambda, pf), e := L2Weight(alpha, lambda, pf))
  }

  /** The penalty vector the solver receives for (alpha, lambda): n identical
      absolute-value terms carrying the two weights. */
  function PenaltyTerms(n: nat, alpha: real, lambda: real): (g: seq<FunctionObj>)
    ensures |g| == n
  {
    seq(n, _ => WithLambda(AbsPenalty, alpha, lambda, PenaltyFactor))
  }

  /** The two weights split lambda * penalty_factor in the proportion alpha :
      1 - alpha; both are non-negative for alpha in [0, 1] and non-negative
      lambda and factor, and the ends of the alpha range give pure penalties. */
  lemma WeightsSplitLambda(alpha: real, lambda: real, pf: real)
    ensures L1Weight(alpha, lambda, pf) + L2Weight(alpha, lambda, pf) == lambda * pf
    ensures 0.0 <= alpha <= 1.0 && lambda >= 0.0 && pf >= 0.0 ==>
      L1Weight(alpha, lambda, pf) >= 0.0 && L2Weight(alpha, lambda, pf) >= 0.0
    ensures alpha == 1.0 ==> L2Weight(alpha, lambda, pf) == 0.0
    ensures alpha == 0.0 ==> L1Weight(alpha, lambda, pf) == 0.0
  {
    if 0.0 <= alpha <= 1.0 && lambda >= 0.0 && pf >= 0.0 {
      assert alpha * lambda >= 0.0;
      assert (1.0 - alpha) * lambda >= 0.0;
    }
  }

  /** Every entry of the penalty vector is the same term; its L1 and L2
      weights add up to lambda. */
  lemma PenaltyTermsUniform(n: nat, alpha: real, lambda: real)
    ensures forall j, k :: 0 <= j < n && 0 <= k < n ==>
      PenaltyTerms(n, alpha, lambda)[j] == PenaltyTerms(n, alpha, lambda)[k]
    ensures forall j :: 0 <= j < n ==>
      PenaltyTerms(n, alpha, lambda)[j].h == Abs &&
      PenaltyTerms(n, alpha, lambda)[j].c + PenaltyTerms(n, alpha, lambda)[j].e == lambda
  {
    WeightsSplitLambda(alpha, lambda, PenaltyFactor);
  }

  /** Line 166: one squared-error term per training row, anchored at that
      row's target, appended in row order. */
  method BuildLoss(trainY: seq<real>, mTrain: nat) returns (f: seq<FunctionObj>)
    requires mTrain <= |trainY|
    ensures |f| == mTrain
    ensures forall j :: 0 <= j < mTrain ==> f[j].h == Square && f[j].b == trainY[j]
    ensures forall j :: 0 <= j < mTrain ==> f[j] == SquareLoss(trainY[j])
  {
    f := [];
    var j := 0;
    while j < mTrain
      invariant j <= mTrain && |f| == j
      invariant forall k :: 0 <= k < j ==> f[k] == SquareLoss(trainY[k])
    {
      f := f + [SquareLoss(trainY[j])];
      j := j + 1;
    }
  }

  /** Line 167: one freshly constructed absolute-value term per feature. */
  method BuildPenalty(n: nat) returns (g: array<FunctionObj>)
    ensures fresh(g) && g.Length == n
    ensures forall j :: 0 <= j < n ==> g[j] == AbsPenalty
  {
    g := new FunctionObj[n](_ => AbsPenalty);
  }

  /** Lines 179-182: every entry of g gets the L1 weight alpha * lambda * pf in
      c and the L2 weight (1 - alpha) * lambda * pf in e; nothing else in g
      changes. */
  method AssignLambda(g: array<FunctionObj>, alpha: real, lambda: real, pf: real)
    modifies g
    ensures forall j :: 0 <= j < g.Length ==> g[j] == WithLambda(old(g[j]), alpha, lambda, pf)
  {
    var j := 0;
    while j < g.Length
      invariant j <= g.Length
      invariant forall k :: 0 <= k < j ==> g[k] == WithLambda(old(g[k]), alpha, lambda, pf)
      invariant forall k :: j <= k < g.Length ==> g[k] == old(g[k])
    {
      g[j] := g[j].(c := alpha * lambda * pf);
      g[j] := g[j].(e := (1.0 - alpha) * lambda * pf);
      j := j + 1;
    }
  }
}
