/** The exact calculation (code/deterministic-calculation.py): the infected
    count is a Markov chain on the states `0..n`, one day being an infection
    phase followed by a healing phase. The script builds both phase matrices,
    multiplies them into the one-day matrix `dp`, raises it to the `days`-th
    power and reads the moments of row `initial_cases`.

    Both builder loops in the script start at index 1, so row 0 of each phase
    matrix and column 0 of the healing matrix stay zero. The builders here take
    that first index as `start`: `SourceStart` reproduces the script and
    `FullStart` fills every state in. */
module ExactChain {
  import opened Outcomes
  import opened RealSums
  import opened Matrices
  import opened Moments

  /** The first index of the script's `for i in range(1, n + 1)` loops. */
  const SourceStart: nat := 1

  /** The first index that fills in every state. */
  const FullStart: nat := 0

  // ------------------------------------------------------ infection chance

  /** The chance that a healthy person is infected when `i` people are sick:
      `1 - (1 - p)^i`, and 0 when nobody is sick. */
  function Chance(p: real, i: nat): real
  {
    if i == 0 then 0.0 else 1.0 - Pow(1.0 - p, i)
  }

  /** `infection_chance`, indexed by the number of sick people `0..n`. */
  function InfectionChance(n: nat, p: real): (c: seq<real>)
    ensures |c| == n + 1
  {
    seq(n + 1, i requires 0 <= i <= n => Chance(p, i))
  }

  predicate IsProbability(x: real)
  {
    0.0 <= x <= 1.0
  }

  /** For a probability `p` every chance is a probability, the chance with
      nobody sick is 0, and more sick people never lower the chance. */
  lemma InfectionChanceBounds(n: nat, p: real)
    requires IsProbability(p)
    ensures InfectionChance(n, p)[0] == 0.0
    ensures forall i :: 0 <= i <= n ==> IsProbability(InfectionChance(n, p)[i])
    ensures forall i :: 0 <= i < n ==> InfectionChance(n, p)[i] <= InfectionChance(n, p)[i + 1]
  {
    forall i | 0 <= i <= n
      ensures IsProbability(Chance(p, i))
      ensures Chance(p, i) <= Chance(p, i + 1)
    {
      PowUnitInterval(1.0 - p, i);
    }
  }

  // ---------------------------------------------------------- phase entries

  /** `inf[i][j]` for `j >= i`: of the `n - i` healthy people exactly `j - i`
      are infected, each with chance `c`. Below the diagonal it is 0. */
  function InfEntry(n: nat, c: real, i: nat, j: nat): real
    requires i <= n && j <= n
  {
    if j < i then 0.0 else Choose(n - i, j - i) as real * Pow(c, j - i) * Pow(1.0 - c, n - j)
  }

  /** `heal[i][j]` for `j <= i`: of the `i` sick people exactly `i - j`
      recover, each with chance `q`. Above the diagonal it is 0. */
  function HealEntry(q: real, i: nat, j: nat): real
  {
    if i < j then 0.0 else Choose(i, i - j) as real * Pow(q, i - j) * Pow(1.0 - q, j)
  }

  /** The morning matrix over states `0..n` for the chance vector `chance`;
      entries in a row or column before `start` are never written and stay 0. */
  function InfMatrix(chance: seq<real>, start: nat): (m: Matrix)
    requires |chance| >= 1
    ensures IsSquare(m, |chance|)
  {
    var n := |chance| - 1;
    seq(n + 1, i requires 0 <= i <= n =>
      seq(n + 1, j requires 0 <= j <= n =>
        if i < start || j < start then 0.0 else InfEntry(n, chance[i], i, j)))
  }

  /** The evening matrix over states `0..n`; entries in a row or column before
      `start` are never written and stay 0. */
  function HealMatrix(n: nat, q: real, start: nat): (m: Matrix)
    ensures IsSquare(m, n + 1)
  {
    seq(n + 1, i requires 0 <= i <= n =>
      seq(n + 1, j requires 0 <= j <= n =>
        if i < start || j < start then 0.0 else HealEntry(q, i, j)))
  }

  /** `dp`: one day is the morning phase followed by the evening phase. */
  function DayMatrix(n: nat, p: real, q: real, start: nat): (m: Matrix)
    ensures IsSquare(m, n + 1)
  {
    MatMul(InfMatrix(InfectionChance(n, p), start), HealMatrix(n, q, start))
  }

  /** `final`: the one-day matrix multiplied onto the identity `days` times. */
  function FinalMatrix(n: nat, p: real, q: real, days: nat, start: nat): (m: Matrix)
    ensures IsSquare(m, n + 1)
  {
    MatPow(DayMatrix(n, p, q, start), days)
  }

  // ------------------------------------------------------------ structure

  /** The morning phase never lowers the count; as written, row 0 and column
      0 are zero. */
  lemma InfShape(chance: seq<real>, start: nat)
    requires |chance| >= 1
    ensures forall i, j :: 0 <= j < i < |chance| ==> InfMatrix(chance, start)[i][j] == 0.0
    ensures start == SourceStart ==>
              forall k :: 0 <= k < |chance| ==>
                InfMatrix(chance, start)[0][k] == 0.0 && InfMatrix(chance, start)[k][0] == 0.0
  {
  }

  /** The evening phase never raises the count; as written, row 0 and column
      0 are zero. */
  lemma HealShape(n: nat, q: real, start: nat)
    ensures forall i, j :: 0 <= i < j <= n ==> HealMatrix(n, q, start)[i][j] == 0.0
    ensures start == SourceStart ==>
              forall k :: 0 <= k <= n ==>
                HealMatrix(n, q, start)[0][k] == 0.0 && HealMatrix(n, q, start)[k][0] == 0.0
  {
  }

  lemma ThreeNonNegative(x: real, y: real, z: real)
    requires 0.0 <= x && 0.0 <= y && 0.0 <= z
    ensures 0.0 <= x * y * z
  {
  }

  lemma InfEntryNonNegative(n: nat, c: real, i: nat, j: nat)
    requires i <= n && j <= n && IsProbability(c)
    ensures 0.0 <= InfEntry(n, c, i, j)
  {
    if i <= j {
      PowNonNegative(c, j - i);
      PowNonNegative(1.0 - c, n - j);
      ThreeNonNegative(Choose(n - i, j - i) as real, Pow(c, j - i), Pow(1.0 - c, n - j));
    }
  }

  lemma HealEntryNonNegative(q: real, i: nat, j: nat)
    requires IsProbability(q)
    ensures 0.0 <= HealEntry(q, i, j)
  {
    if j <= i {
      PowNonNegative(q, i - j);
      PowNonNegative(1.0 - q, j);
      ThreeNonNegative(Choose(i, i - j) as real, Pow(q, i - j), Pow(1.0 - q, j));
    }
  }

  lemma InfNonNegative(chance: seq<real>, start: nat)
    requires |chance| >= 1
    requires forall i :: 0 <= i < |chance| ==> IsProbability(chance[i])
    ensures NonNegative(InfMatrix(chance, start))
  {
    var n := |chance| - 1;
    forall i, j | 0 <= i <= n && 0 <= j <= n
      ensures 0.0 <= InfMatrix(chance, start)[i][j]
    {
      InfEntryNonNegative(n, chance[i], i, j);
    }
  }

  lemma HealNonNegative(n: nat, q: real, start: nat)
    requires IsProbability(q)
    ensures NonNegative(HealMatrix(n, q, start))
  {
    forall i, j | 0 <= i <= n && 0 <= j <= n
      ensures 0.0 <= HealMatrix(n, q, start)[i][j]
    {
      HealEntryNonNegative(q, i, j);
    }
  }

  // ------------------------------------------------------------- row sums

  /** A written row of the morning matrix is `i` zeros followed by the
      binomial terms over the `n - i` healthy people. */
  lemma InfRowBinomial(chance: seq<real>, start: nat, i: nat)
    requires |chance| >= 1 && start <= i < |chance|
    ensures InfMatrix(chance, start)[i]
         == Zeros(i) + BinomialTerms(|chance| - 1 - i, chance[i], 1.0 - chance[i])
  {
    var n := |chance| - 1;
    var row := Zeros(i) + BinomialTerms(n - i, chance[i], 1.0 - chance[i]);
    forall j | 0 <= j <= n
      ensures InfMatrix(chance, start)[i][j] == row[j]
    {
      if i <= j {
        assert row[j] == BinomialTerms(n - i, chance[i], 1.0 - chance[i])[j - i];
      }
    }
  }

  /** Every written row of the morning matrix sums to 1, by the binomial
      theorem over the `n - i` healthy people. */
  lemma InfRowSum(chance: seq<real>, start: nat, i: nat)
    requires |chance| >= 1 && start <= i < |chance|
    ensures Sum(InfMatrix(chance, start)[i]) == 1.0
  {
    var m, c := |chance| - 1 - i, chance[i];
    InfRowBinomial(chance, start, i);
    SumConcat(Zeros(i), BinomialTerms(m, c, 1.0 - c));
    SumZeros(i);
    BinomialTheorem(m, c, 1.0 - c);
    assert c + (1.0 - c) == 1.0;
    PowOfOne(m);
  }

  /** A row of the morning matrix before `start` is never written and sums to
      0; as written, that is row 0. */
  lemma InfUnwrittenRow(chance: seq<real>, start: nat, i: nat)
    requires |chance| >= 1 && i < start && i < |chance|
    ensures Sum(InfMatrix(chance, start)[i]) == 0.0
  {
    SumAllZero(InfMatrix(chance, start)[i]);
  }

  /** A row of the evening matrix before `start` is never written and sums to
      0; as written, that is row 0. */
  lemma HealUnwrittenRow(n: nat, q: real, start: nat, i: nat)
    requires i < start && i <= n
    ensures Sum(HealMatrix(n, q, start)[i]) == 0.0
  {
    SumAllZero(HealMatrix(n, q, start)[i]);
  }

  /** A full row of the evening matrix is the binomial terms over the `i`
      sick people (counted by who stays sick), then `n - i` zeros. */
  lemma HealRowBinomial(n: nat, q: real, i: nat)
    requires i <= n
    ensures HealMatrix(n, q, FullStart)[i] == BinomialTerms(i, 1.0 - q, q) + Zeros(n - i)
  {
    var row := BinomialTerms(i, 1.0 - q, q) + Zeros(n - i);
    forall j | 0 <= j <= n
      ensures HealMatrix(n, q, FullStart)[i][j] == row[j]
    {
      if j <= i {
        HealEntryBinomial(q, i, j);
        assert row[j] == BinomialTerms(i, 1.0 - q, q)[j];
      } else {
        assert row[j] == Zeros(n - i)[j - i - 1];
      }
    }
  }

  /** `heal[i][j]` counted by the `j` who stay sick instead of the `i - j`
      who recover. */
  lemma HealEntryBinomial(q: real, i: nat, j: nat)
    requires j <= i
    ensures HealEntry(q, i, j) == BinomialTerms(i, 1.0 - q, q)[j]
  {
    ChooseSymmetric(i, j);
    assert BinomialTerms(i, 1.0 - q, q)[j] == Choose(i, j) as real * Pow(1.0 - q, j) * Pow(q, i - j);
  }

  lemma HealRowSumFull(n: nat, q: real, i: nat)
    requires i <= n
    ensures Sum(HealMatrix(n, q, FullStart)[i]) == 1.0
  {
    HealRowBinomial(n, q, i);
    SumConcat(BinomialTerms(i, 1.0 - q, q), Zeros(n - i));
    SumZeros(n - i);
    BinomialTheorem(i, 1.0 - q, q);
    assert (1.0 - q) + q == 1.0;
    PowOfOne(i);
  }

  /** As written, the evening row `i >= 1` is the full row without its
      column-0 entry, the chance `q^i` that everybody recovers. */
  lemma HealRowDropsAllRecover(n: nat, q: real, i: nat)
    requires 1 <= i <= n
    ensures HealMatrix(n, q, SourceStart)[i] == HealMatrix(n, q, FullStart)[i][0 := 0.0]
    ensures HealMatrix(n, q, FullStart)[i][0] == Pow(q, i)
  {
    HealAllRecover(q, i);
  }

  /** The chance that all `i` sick people recover is `q^i`. */
  lemma HealAllRecover(q: real, i: nat)
    ensures HealEntry(q, i, 0) == Pow(q, i)
  {
    ChooseAll(i);
    assert HealEntry(q, i, 0) == 1.0 * Pow(q, i) * 1.0;
  }

  /** As written, row `i >= 1` of the evening matrix sums to `1 - q^i`, not 1:
      the outcome in which every sick person recovers is lost. */
  lemma HealRowSumAsWritten(n: nat, q: real, i: nat)
    requires 1 <= i <= n
    ensures Sum(HealMatrix(n, q, SourceStart)[i]) == 1.0 - Pow(q, i)
  {
    HealRowDropsAllRecover(n, q, i);
    HealRowSumFull(n, q, i);
    SumUpdate(HealMatrix(n, q, FullStart)[i], 0, 0.0);
  }

  /** One sick person among one, healing chance 1/2: as written the healing
      row keeps only half of its mass. */
  lemma MassLostExample()
    ensures Sum(HealMatrix(1, 0.5, SourceStart)[1]) == 0.5
  {
    HealRowSumAsWritten(1, 0.5, 1);
  }

  // ------------------------------------------------- (sub-)stochasticity

  lemma InfSubStochastic(chance: seq<real>, start: nat)
    requires |chance| >= 1
    requires forall i :: 0 <= i < |chance| ==> IsProbability(chance[i])
    ensures SubStochastic(InfMatrix(chance, start))
    ensures start == FullStart ==> Stochastic(InfMatrix(chance, start))
  {
    InfNonNegative(chance, start);
    forall i | 0 <= i < |chance|
      ensures Sum(InfMatrix(chance, start)[i]) == (if i < start then 0.0 else 1.0)
    {
      if i < start {
        InfUnwrittenRow(chance, start, i);
      } else {
        InfRowSum(chance, start, i);
      }
    }
  }

  lemma HealSubStochastic(n: nat, q: real, start: nat)
    requires IsProbability(q) && start <= SourceStart
    ensures SubStochastic(HealMatrix(n, q, start))
    ensures start == FullStart ==> Stochastic(HealMatrix(n, q, start))
  {
    HealNonNegative(n, q, start);
    forall i | 0 <= i <= n
      ensures Sum(HealMatrix(n, q, start)[i]) <= 1.0
      ensures start == FullStart ==> Sum(HealMatrix(n, q, start)[i]) == 1.0
    {
      if start == FullStart {
        HealRowSumFull(n, q, i);
      } else if i == 0 {
        HealUnwrittenRow(n, q, start, i);
      } else {
        HealRowSumAsWritten(n, q, i);
        PowNonNegative(q, i);
      }
    }
  }

  /** As written, every row of `dp` and of `final` is non-negative with
      total mass at most 1. */
  lemma FinalSubStochastic(n: nat, p: real, q: real, days: nat, start: nat)
    requires IsProbability(p) && IsProbability(q) && start <= SourceStart
    ensures SubStochastic(DayMatrix(n, p, q, start))
    ensures SubStochastic(FinalMatrix(n, p, q, days, start))
  {
    InfectionChanceBounds(n, p);
    InfSubStochastic(InfectionChance(n, p), start);
    HealSubStochastic(n, q, start);
    MatMulSubStochastic(InfMatrix(InfectionChance(n, p), start), HealMatrix(n, q, start));
    MatPowSubStochastic(DayMatrix(n, p, q, start), days);
  }

  /** With every state filled in, `dp` and `final` are stochastic: each row
      is a probability distribution over the infected count. */
  lemma FinalStochastic(n: nat, p: real, q: real, days: nat)
    requires IsProbability(p) && IsProbability(q)
    ensures Stochastic(DayMatrix(n, p, q, FullStart))
    ensures Stochastic(FinalMatrix(n, p, q, days, FullStart))
  {
    InfectionChanceBounds(n, p);
    InfSubStochastic(InfectionChance(n, p), FullStart);
    HealSubStochastic(n, q, FullStart);
    MatMulStochastic(InfMatrix(InfectionChance(n, p), FullStart), HealMatrix(n, q, FullStart));
    MatPowStochastic(DayMatrix(n, p, q, FullStart), days);
  }

  /** One day of the power loop is `dp` itself: the loop's first product is
      `identity * dp`. */
  lemma FinalOneDay(n: nat, p: real, q: real, start: nat)
    ensures FinalMatrix(n, p, q, 1, start) == DayMatrix(n, p, q, start)
  {
    var d := DayMatrix(n, p, q, start);
    assert MatPow(d, 1) == MatMul(Identity(|d|), d);
    MatMulIdentityLeft(d);
  }

  /** As written, after at least one day state 0 is neither reached nor left:
      row 0 and column 0 of `final` are zero. */
  lemma FinalStateZeroUnused(n: nat, p: real, q: real, days: nat)
    requires 1 <= days
    ensures forall j :: 0 <= j <= n ==> FinalMatrix(n, p, q, days, SourceStart)[0][j] == 0.0
    ensures forall i :: 0 <= i <= n ==> FinalMatrix(n, p, q, days, SourceStart)[i][0] == 0.0
  {
    var inf, heal := InfMatrix(InfectionChance(n, p), SourceStart), HealMatrix(n, q, SourceStart);
    InfShape(InfectionChance(n, p), SourceStart);
    HealShape(n, q, SourceStart);
    ZeroRowProduct(inf, heal, 0);
    ZeroColumnProduct(inf, heal, 0);
    MatPowZeroRow(DayMatrix(n, p, q, SourceStart), days, 0);
    MatPowZeroColumn(DayMatrix(n, p, q, SourceStart), days, 0);
  }

  // ------------------------------------- as written versus filled in

  lemma InfAgree(n: nat, p: real)
    ensures AgreeOffColumnZero(InfMatrix(InfectionChance(n, p), SourceStart),
                               InfMatrix(InfectionChance(n, p), FullStart))
  {
    var chance := InfectionChance(n, p);
    forall i, j | 0 <= i <= n && 1 <= j <= n
      ensures InfMatrix(chance, SourceStart)[i][j] == InfMatrix(chance, FullStart)[i][j]
    {
      if i == 0 {
        PowOfZero(j);
        assert InfMatrix(chance, FullStart)[0][j]
            == Choose(n, j) as real * Pow(0.0, j) * Pow(1.0 - 0.0, n - j);
      }
    }
  }

  lemma HealAgree(n: nat, q: real)
    ensures AgreeOffColumnZero(HealMatrix(n, q, SourceStart), HealMatrix(n, q, FullStart))
  {
  }

  /** The script's `final` and the filled-in one differ only in column 0:
      every transition into a state `j >= 1` has the same probability. */
  lemma FinalAgreesWithFull(n: nat, p: real, q: real, days: nat)
    ensures AgreeOffColumnZero(FinalMatrix(n, p, q, days, SourceStart),
                               FinalMatrix(n, p, q, days, FullStart))
  {
    var chance := InfectionChance(n, p);
    InfAgree(n, p);
    HealAgree(n, q);
    HealShape(n, q, SourceStart);
    MatMulAgree(InfMatrix(chance, SourceStart), InfMatrix(chance, FullStart),
                HealMatrix(n, q, SourceStart), HealMatrix(n, q, FullStart));
    InfShape(chance, SourceStart);
    ZeroRowProduct(InfMatrix(chance, SourceStart), HealMatrix(n, q, SourceStart), 0);
    MatPowAgree(DayMatrix(n, p, q, SourceStart), DayMatrix(n, p, q, FullStart), days);
  }

  // -------------------------------------------------------------- moments

  /** `ans`, `expected_value_of_square` and `variation`. */
  datatype Statistics = Statistics(expectedValue: real, expectedSquare: real, variation: real)

  function StatisticsOf(dist: seq<real>): Statistics
  {
    Statistics(ExpectedValue(dist), ExpectedSquare(dist), Variation(dist))
  }

  /** The moments of row `initialCases` of `final`; the script's
      `final[initial_cases]` raises IndexError past state `n`. */
  function ChainStatistics(n: nat, initialCases: nat, p: real, q: real, days: nat, start: nat)
    : (r: Result<Statistics>)
    ensures r.Failure? <==> n < initialCases
    ensures r.Failure? ==> r.error == IndexOutOfRange
  {
    if n < initialCases then Failure(IndexOutOfRange)
    else Success(StatisticsOf(FinalMatrix(n, p, q, days, start)[initialCases]))
  }

  /** The script's result, from the matrices as it builds them. */
  function SourceStatistics(n: nat, initialCases: nat, p: real, q: real, days: nat): Result<Statistics>
  {
    ChainStatistics(n, initialCases, p, q, days, SourceStart)
  }

  /** The result from the filled-in chain. */
  function ExactStatistics(n: nat, initialCases: nat, p: real, q: real, days: nat): Result<Statistics>
  {
    ChainStatistics(n, initialCases, p, q, days, FullStart)
  }

  /** The unfilled row and column 0 do not change `ans`,
      `expected_value_of_square` or `variation`: state 0 weighs 0 in every
      moment, and every other state has the same probability. */
  lemma SourceStatisticsExact(n: nat, initialCases: nat, p: real, q: real, days: nat)
    ensures SourceStatistics(n, initialCases, p, q, days) == ExactStatistics(n, initialCases, p, q, days)
  {
    if initialCases <= n {
      FinalAgreesWithFull(n, p, q, days);
      MomentsIgnoreStateZero(FinalMatrix(n, p, q, days, SourceStart)[initialCases],
                             FinalMatrix(n, p, q, days, FullStart)[initialCases]);
    }
  }

  /** For probabilities `p` and `q`: `0 <= ans <= n` and `variation >= 0`. */
  lemma StatisticsBounded(n: nat, initialCases: nat, p: real, q: real, days: nat, start: nat)
    requires IsProbability(p) && IsProbability(q) && initialCases <= n && start <= SourceStart
    ensures var s := ChainStatistics(n, initialCases, p, q, days, start).value;
            0.0 <= s.expectedValue <= n as real && 0.0 <= s.variation
  {
    FinalSubStochastic(n, p, q, days, start);
    SubStochasticRowIsMass(FinalMatrix(n, p, q, days, start), initialCases);
    ExpectedValueAtMostTop(FinalMatrix(n, p, q, days, start)[initialCases]);
    VariationNonNegative(FinalMatrix(n, p, q, days, start)[initialCases]);
  }

  lemma SubStochasticRowIsMass(m: Matrix, i: nat)
    requires SubStochastic(m) && i < |m|
    ensures IsMass(m[i])
  {
  }

  /** With no days the row is a point mass: `ans` is `initial_cases` and the
      variation is 0. */
  lemma StatisticsWithoutDays(n: nat, initialCases: nat, p: real, q: real, start: nat)
    requires initialCases <= n
    ensures ChainStatistics(n, initialCases, p, q, 0, start)
         == Success(Statistics(initialCases as real, (initialCases * initialCases) as real, 0.0))
  {
    PointMassMoments(Identity(n + 1)[initialCases], initialCases);
  }

  // ------------------------------------------------------ sample size

  /** Python's `int()` on a real: truncation toward zero. */
  function Truncate(x: real): (k: int)
    ensures 0.0 <= x ==> k as real <= x < k as real + 1.0
    ensures x < 0.0 ==> k as real - 1.0 < x <= k as real
  {
    if 0.0 <= x then x.Floor else -((-x).Floor)
  }

  /** Chebyshev's bound `variation / epsilon^2 / (1 - accuracy/100)` on the
      number of runs; over the reals, dividing by `epsilon^2` is dividing by
      `epsilon` twice. */
  function ChebyshevBound(variation: real, epsilon: real, accuracyPercentage: real): real
    requires epsilon != 0.0 && accuracyPercentage != 100.0
  {
    variation / epsilon / epsilon / (1.0 - accuracyPercentage / 100.0)
  }

  /** `sim_number`: one more than the Chebyshev bound, truncated toward zero.
      `variation` is a numpy float64, so dividing it by a zero `epsilon * epsilon`
      or by a zero `1 - accuracy/100` raises nothing: it gives an infinity, or
      NaN when the dividend is 0 as well, and `int()` then raises OverflowError
      on the infinity and ValueError on the NaN. */
  function SimNumber(variation: real, epsilon: real, accuracyPercentage: real): (r: Result<int>)
    ensures r.Failure? <==> epsilon == 0.0 || accuracyPercentage == 100.0
    ensures r.Failure? ==> r.error == (if variation == 0.0 then NanToInt else InfiniteToInt)
    ensures r.Success? && -1.0 <= ChebyshevBound(variation, epsilon, accuracyPercentage) ==>
              var bound := ChebyshevBound(variation, epsilon, accuracyPercentage);
              r.value as real - 1.0 <= bound < r.value as real
    ensures r.Success? && ChebyshevBound(variation, epsilon, accuracyPercentage) < -1.0 ==>
              var bound := ChebyshevBound(variation, epsilon, accuracyPercentage);
              r.value as real - 2.0 < bound <= r.value as real - 1.0
  {
    if epsilon == 0.0 || accuracyPercentage == 100.0 then
      Failure(if variation == 0.0 then NanToInt else InfiniteToInt)
    else Success(Truncate(ChebyshevBound(variation, epsilon, accuracyPercentage) + 1.0))
  }

  /** A non-negative variation gives a non-negative bound, whatever the sign
      of `epsilon`. */
  lemma ChebyshevBoundNonNegative(variation: real, epsilon: real, accuracyPercentage: real)
    requires 0.0 <= variation && epsilon != 0.0 && accuracyPercentage < 100.0
    ensures 0.0 <= ChebyshevBound(variation, epsilon, accuracyPercentage)
  {
    if 0.0 < epsilon {
      QuotientNonNegative(variation, epsilon);
      QuotientNonNegative(variation / epsilon, epsilon);
    } else {
      QuotientNonPositive(variation, epsilon);
      QuotientOfNonPositives(variation / epsilon, epsilon);
    }
    QuotientNonNegative(variation / epsilon / epsilon, 1.0 - accuracyPercentage / 100.0);
  }

  lemma QuotientNonNegative(x: real, y: real)
    requires 0.0 <= x && 0.0 < y
    ensures 0.0 <= x / y
  {
    assert x / y * y == x;
  }

  lemma QuotientNonPositive(x: real, y: real)
    requires 0.0 <= x && y < 0.0
    ensures x / y <= 0.0
  {
    assert x / y * y == x;
  }

  lemma QuotientOfNonPositives(x: real, y: real)
    requires x <= 0.0 && y < 0.0
    ensures 0.0 <= x / y
  {
    assert x / y * y == x;
  }

  /** With a non-negative variation, a non-zero `epsilon` and an accuracy
      below 100 percent, at least one simulation is required, and the number
      is the least integer above the Chebyshev bound. */
  lemma SimNumberPositive(variation: real, epsilon: real, accuracyPercentage: real)
    requires 0.0 <= variation && epsilon != 0.0 && accuracyPercentage < 100.0
    ensures SimNumber(variation, epsilon, accuracyPercentage).Success?
    ensures 1 <= SimNumber(variation, epsilon, accuracyPercentage).value
    ensures var bound := ChebyshevBound(variation, epsilon, accuracyPercentage);
            bound < SimNumber(variation, epsilon, accuracyPercentage).value as real <= bound + 1.0
  {
    ChebyshevBoundNonNegative(variation, epsilon, accuracyPercentage);
  }
}
