/** The moments the script reads off the final-distribution row: the
    expected infected count, the expected square and their difference, the
    variance (`ans`, `expected_value_of_square`, `variation`). */
module Moments {
  import opened RealSums

  /** The terms `i * dist[i]` of the expected value. */
  function FirstTerms(dist: seq<real>): (t: seq<real>)
    ensures |t| == |dist|
  {
    seq(|dist|, i requires 0 <= i < |dist| => (i as real) * dist[i])
  }

  /** The terms `i * i * dist[i]` of the expected square. */
  function SquareTerms(dist: seq<real>): (t: seq<real>)
    ensures |t| == |dist|
  {
    seq(|dist|, i requires 0 <= i < |dist| => (i as real) * (i as real) * dist[i])
  }

  /** `sum_i i * dist[i]`. */
  function ExpectedValue(dist: seq<real>): real
  {
    Sum(FirstTerms(dist))
  }

  /** `sum_i i * i * dist[i]`. */
  function ExpectedSquare(dist: seq<real>): real
  {
    Sum(SquareTerms(dist))
  }

  /** `E[X^2] - E[X]^2`. */
  function Variation(dist: seq<real>): real
  {
    ExpectedSquare(dist) - ExpectedValue(dist) * ExpectedValue(dist)
  }

  /** The squared deviations from `mean`, weighted by `dist`. */
  function Deviations(dist: seq<real>, mean: real): (d: seq<real>)
    ensures |d| == |dist|
  {
    seq(|dist|, i requires 0 <= i < |dist| => dist[i] * ((i as real) - mean) * ((i as real) - mean))
  }

  predicate IsMass(dist: seq<real>)
  {
    (forall i :: 0 <= i < |dist| ==> 0.0 <= dist[i]) && Sum(dist) <= 1.0
  }

  /** A non-negative row has its mean in `[0, (|dist| - 1) * mass]`. */
  lemma ExpectedValueBounds(dist: seq<real>)
    requires forall i :: 0 <= i < |dist| ==> 0.0 <= dist[i]
    ensures 0.0 <= ExpectedValue(dist) <= (|dist| as real - 1.0) * Sum(dist)
  {
    ExpectedValueNonNegative(dist);
    ExpectedValueAtMostScaledMass(dist);
    ScaledMass(dist);
  }

  /** A mass row over states `0..|dist|-1` has its mean in `[0, |dist| - 1]`. */
  lemma ExpectedValueAtMostTop(dist: seq<real>)
    requires IsMass(dist) && 1 <= |dist|
    ensures 0.0 <= ExpectedValue(dist) <= |dist| as real - 1.0
  {
    ExpectedValueBounds(dist);
    ScaleAtMostWhole(|dist| as real - 1.0, Sum(dist));
  }

  lemma ScaleAtMostWhole(x: real, mass: real)
    requires 0.0 <= x && mass <= 1.0
    ensures x * mass <= x
  {
  }

  lemma ExpectedValueNonNegative(dist: seq<real>)
    requires forall i :: 0 <= i < |dist| ==> 0.0 <= dist[i]
    ensures 0.0 <= ExpectedValue(dist)
  {
    FirstTermsBounded(dist);
    SumNonNegative(FirstTerms(dist));
  }

  lemma ExpectedValueAtMostScaledMass(dist: seq<real>)
    requires forall i :: 0 <= i < |dist| ==> 0.0 <= dist[i]
    ensures ExpectedValue(dist) <= Sum(Times(|dist| as real - 1.0, dist))
  {
    FirstTermsBounded(dist);
    SumMonotone(FirstTerms(dist), Times(|dist| as real - 1.0, dist));
  }

  lemma ScaledMass(dist: seq<real>)
    ensures Sum(Times(|dist| as real - 1.0, dist)) == (|dist| as real - 1.0) * Sum(dist)
  {
    SumScale(|dist| as real - 1.0, dist);
  }

  /** Each term `i * dist[i]` lies between 0 and `(|dist| - 1) * dist[i]`. */
  lemma FirstTermsBounded(dist: seq<real>)
    requires forall i :: 0 <= i < |dist| ==> 0.0 <= dist[i]
    ensures forall i :: 0 <= i < |dist| ==>
              0.0 <= FirstTerms(dist)[i] <= Times(|dist| as real - 1.0, dist)[i]
  {
    forall i | 0 <= i < |dist|
      ensures 0.0 <= FirstTerms(dist)[i] <= Times(|dist| as real - 1.0, dist)[i]
    {
      WeightBelow(i as real, |dist| as real - 1.0, dist[i]);
    }
  }

  lemma WeightBelow(x: real, bound: real, w: real)
    requires 0.0 <= x <= bound && 0.0 <= w
    ensures 0.0 <= x * w <= bound * w
  {
  }

  /** The weighted squared deviations from `mean` expand into the two
      moments and the total mass. */
  lemma DeviationsExpand(dist: seq<real>, mean: real)
    ensures Deviations(dist, mean)
         == Plus(Plus(SquareTerms(dist), Times(-2.0 * mean, FirstTerms(dist))), Times(mean * mean, dist))
  {
    var rhs := Plus(Plus(SquareTerms(dist), Times(-2.0 * mean, FirstTerms(dist))), Times(mean * mean, dist));
    forall i | 0 <= i < |dist|
      ensures Deviations(dist, mean)[i] == rhs[i]
    {
      ExpandSquare(i as real, mean, dist[i]);
    }
  }

  lemma ExpandSquare(x: real, m: real, w: real)
    ensures w * (x - m) * (x - m) == (x * x * w + (-2.0 * m) * (x * w)) + (m * m) * w
  {
  }

  /** Summing the expansion: the squared deviations from any `mean` total
      `E[X^2] - 2 mean E[X] + mean^2 mass`. */
  lemma DeviationsSum(dist: seq<real>, mean: real)
    ensures Sum(Deviations(dist, mean))
         == ExpectedSquare(dist) + (-2.0 * mean) * ExpectedValue(dist) + (mean * mean) * Sum(dist)
  {
    DeviationsSplit(dist, mean);
    SumScale(-2.0 * mean, FirstTerms(dist));
    SumScale(mean * mean, dist);
  }

  lemma DeviationsSplit(dist: seq<real>, mean: real)
    ensures Sum(Deviations(dist, mean))
         == ExpectedSquare(dist) + Sum(Times(-2.0 * mean, FirstTerms(dist))) + Sum(Times(mean * mean, dist))
  {
    var squares, firsts := SquareTerms(dist), FirstTerms(dist);
    DeviationsExpand(dist, mean);
    SumAdd(Plus(squares, Times(-2.0 * mean, firsts)), Times(mean * mean, dist));
    SumAdd(squares, Times(-2.0 * mean, firsts));
  }

  /** `DeviationsSum` at the row's own mean. */
  lemma DeviationsAtMean(dist: seq<real>)
    ensures Sum(Deviations(dist, ExpectedValue(dist)))
         == ExpectedSquare(dist) + (-2.0 * ExpectedValue(dist)) * ExpectedValue(dist)
          + (ExpectedValue(dist) * ExpectedValue(dist)) * Sum(dist)
  {
    DeviationsSum(dist, ExpectedValue(dist));
  }

  /** The variance is the weighted squared deviation from the mean plus the
      squared mean times the mass missing from the row. */
  lemma VariationDecomposition(dist: seq<real>)
    ensures Variation(dist)
         == Sum(Deviations(dist, ExpectedValue(dist)))
          + ExpectedValue(dist) * ExpectedValue(dist) * (1.0 - Sum(dist))
  {
    DeviationsAtMean(dist);
  }

  lemma DeviationsNonNegative(dist: seq<real>, mean: real)
    requires forall i :: 0 <= i < |dist| ==> 0.0 <= dist[i]
    ensures 0.0 <= Sum(Deviations(dist, mean))
  {
    forall i | 0 <= i < |dist|
      ensures 0.0 <= Deviations(dist, mean)[i]
    {
      SquareWeightNonNegative((i as real) - mean, dist[i]);
    }
    SumNonNegative(Deviations(dist, mean));
  }

  lemma MissingMassNonNegative(dist: seq<real>)
    requires Sum(dist) <= 1.0
    ensures 0.0 <= ExpectedValue(dist) * ExpectedValue(dist) * (1.0 - Sum(dist))
  {
    SquareWeightNonNegative(ExpectedValue(dist), 1.0 - Sum(dist));
  }

  lemma SquareWeightNonNegative(x: real, w: real)
    requires 0.0 <= w
    ensures 0.0 <= w * x * x && 0.0 <= x * x * w
  {
  }

  /** `variation >= 0` for every non-negative row of total mass at most 1. */
  lemma VariationNonNegative(dist: seq<real>)
    requires IsMass(dist)
    ensures 0.0 <= Variation(dist)
  {
    VariationDecomposition(dist);
    DeviationsNonNegative(dist, ExpectedValue(dist));
    MissingMassNonNegative(dist);
  }

  /** Rows that agree at every state but 0 have the same moments: state 0
      contributes nothing to either sum. */
  lemma MomentsIgnoreStateZero(dist: seq<real>, other: seq<real>)
    requires |dist| == |other|
    requires forall i :: 1 <= i < |dist| ==> dist[i] == other[i]
    ensures ExpectedValue(dist) == ExpectedValue(other)
    ensures ExpectedSquare(dist) == ExpectedSquare(other)
    ensures Variation(dist) == Variation(other)
  {
    forall i | 0 <= i < |dist|
      ensures FirstTerms(dist)[i] == FirstTerms(other)[i]
      ensures SquareTerms(dist)[i] == SquareTerms(other)[i]
    {
      if i == 0 {
        assert FirstTerms(dist)[0] == 0.0 == FirstTerms(other)[0];
        assert SquareTerms(dist)[0] == 0.0 == SquareTerms(other)[0];
      }
    }
    assert FirstTerms(dist) == FirstTerms(other);
    assert SquareTerms(dist) == SquareTerms(other);
  }

  /** A row that puts all its mass on state `k` has mean `k`, second moment
      `k * k` and variance 0. */
  lemma PointMassMoments(dist: seq<real>, k: nat)
    requires k < |dist|
    requires dist[k] == 1.0 && forall i :: 0 <= i < |dist| && i != k ==> dist[i] == 0.0
    ensures ExpectedValue(dist) == k as real
    ensures ExpectedSquare(dist) == (k * k) as real
    ensures Variation(dist) == 0.0
  {
    SumSingle(FirstTerms(dist), k);
    SumSingle(SquareTerms(dist), k);
  }
}
