# Pandemic simulator, modelled in Dafny

The Pandemic-simulator repository estimates the number of sick people in a
population of `n` after `days` days. Each day has two phases:

- In the morning every sick person meets every healthy person and infects them with chance `p`.
- In the evening every sick person recovers with chance `q`.

The repository has two scripts.

`code/deterministic-calculation.py` computes the exact answer. It treats the infected count as a Markov chain on the states `0..n`:

- `infection_chance[i] = 1 - (1 - p)^i`;
- binomial transition matrices `inf` (morning) and `heal` (evening);
- their product `dp` (one day);
- `final = dp^days`;
- the expected value `ans`, the second moment and the variance of row `final[initial_cases]`;
- the number of Monte Carlo runs that Chebyshev's inequality asks for, `sim_number`.

`code/monte-carlo-simulation.py` simulates a single population with random draws, runs it many times and averages the results.

This project models both scripts over Dafny's exact `real`s:

- `outcomes.dfy` (`Outcomes`): the result type. `IndexOutOfRange` stands for Python's IndexError and `DivisionByZero` for its ZeroDivisionError. `InfiniteToInt` and `NanToInt` stand for the OverflowError and ValueError that `int()` raises on an infinite float and on NaN.
- `real_sums.dfy` (`RealSums`): finite sums, powers, binomial coefficients, and the binomial theorem `sum_k C(m,k) a^k b^(m-k) = (a+b)^m`.
- `matrices.dfy` (`Matrices`): square matrices, their product and powers, and which matrix properties the product and powers preserve:
  - non-negative;
  - row sums at most 1 (sub-stochastic);
  - row sums exactly 1 (stochastic);
  - agreement off column 0.
- `moments.dfy` (`Moments`): `ans`, `expected_value_of_square` and `variation` of a row, and the decomposition proving the variance non-negative.
- `exact_chain.dfy` (`ExactChain`): the deterministic script.
  - The matrix builders take their first loop index `start` as a parameter.
  - `SourceStart = 1` is the script as written; `FullStart = 0` fills in every state.
  - `SimNumber` models the sample-size formula.
- `simulation.dfy` (`Simulation`): `simulate_infections` and the averaging loop as pure functions.
  - The random numbers are a stream `draws: nat -> real`: `draws(k)` is the k-th value `np.random.random()` returns, and a cursor counts the draws used so far.
  - The functions give each roll in closed form. For example, the meeting of sick `i` with healthy `j` reads the draw `cursor + Sick(s[..i]) * Healthy(s) + Healthy(s[..j])`.
- `monte_carlo.dfy` (`MonteCarlo`): the same loops written imperatively over arrays, as the script writes them, each proved equal to the closed form in `Simulation`.

Two places where the code is not what its description says:

- **`heal` rows do not sum to 1.** Both builders in `code/deterministic-calculation.py` start their loops at index 1. As a result, `heal[i][0]` is never written: that is the outcome "everybody recovers", with chance `q^i`. Row `i` of `heal` therefore sums to `1 - q^i`, and `dp` is not row-stochastic, although the comments at lines 18, 27 and 36 describe the entries as the probability of going from `i` infected to `j` infected. The model follows the code.
  - This is proved as `ExactChain.HealRowSumAsWritten`.
  - The model also proves the defect harmless for the script's outputs. The two chains agree on every column except 0, and state 0 weighs 0 in every moment, so `ans`, `expected_value_of_square` and `variation` are the same with or without the fix (`ExactChain.SourceStatisticsExact`).
- **The comment at `code/monte-carlo-simulation.py:10-11` is wrong.** It says a person infected on a day can infect others that same day. The code (lines 16-25) reads only the start-of-day snapshot `status`, so that cannot happen. The model follows the code; `Simulation.NoCascade` exhibits a case.

## Model

| member | source | states |
|---|---|---|
| ExactChain.InfectionChanceBounds | code/deterministic-calculation.py:12-16 | of `ExactChain.InfectionChance`, the `infection_chance` vector: `infection_chance[0] = 0`; for a probability `p` every entry `1 - (1-p)^i` is a probability, and the entries never decrease as more people are sick |
| ExactChain.InfShape | code/deterministic-calculation.py:19-25 | of `ExactChain.InfMatrix`, the `inf` builder (entries from `ExactChain.InfEntry`): `inf[i][j] = 0` below the diagonal (the morning never lowers the count); as written, row 0 and column 0 are entirely zero |
| ExactChain.InfNonNegative | code/deterministic-calculation.py:19-25 | for probabilities in `infection_chance`, every entry of `inf` is non-negative |
| ExactChain.InfRowBinomial | code/deterministic-calculation.py:20-25 | written row `i` of `inf` is `i` zeros followed by the binomial distribution of new infections among the `n - i` healthy, each infected with chance `infection_chance[i]` |
| ExactChain.InfRowSum | code/deterministic-calculation.py:20-25 | every written row of `inf` sums to exactly 1 (binomial theorem) |
| ExactChain.InfUnwrittenRow | code/deterministic-calculation.py:19-21 | a row of `inf` before the loops' first index is never written and sums to 0; as written, row 0 of `inf` sums to 0 |
| ExactChain.HealUnwrittenRow | code/deterministic-calculation.py:28-30 | a row of `heal` before the loops' first index is never written and sums to 0; as written, row 0 of `heal` sums to 0 |
| ExactChain.HealShape | code/deterministic-calculation.py:28-34 | of `ExactChain.HealMatrix`, the `heal` builder (entries from `ExactChain.HealEntry`): `heal[i][j] = 0` above the diagonal (the evening never raises the count); as written, row 0 and column 0 are entirely zero |
| ExactChain.HealNonNegative | code/deterministic-calculation.py:28-34 | for a probability `q` every entry of `heal` is non-negative |
| ExactChain.HealEntryBinomial | code/deterministic-calculation.py:34 | `comb(i, i-j) q^(i-j) (1-q)^j`, counted by who recovers, is the binomial term for `j` people staying sick |
| ExactChain.HealRowBinomial | code/deterministic-calculation.py:29-34 | a filled-in row `i` of `heal` is the binomial distribution of who stays sick among `i`, followed by `n - i` zeros |
| ExactChain.HealRowSumFull | code/deterministic-calculation.py:29-34 | with every state filled in, each row of `heal` sums to 1 |
| ExactChain.HealAllRecover | code/deterministic-calculation.py:34 | the entry for "all `i` recover" is `q^i` |
| ExactChain.HealRowDropsAllRecover | code/deterministic-calculation.py:29-34 | as written, row `i >= 1` of `heal` equals the filled-in row with its column-0 entry `q^i` replaced by 0 |
| ExactChain.HealRowSumAsWritten | code/deterministic-calculation.py:29-34 | as written, row `i >= 1` of `heal` sums to `1 - q^i`, not 1 |
| ExactChain.MassLostExample | code/deterministic-calculation.py:29-34 | with `n = 1` and `q = 1/2`, row 1 of `heal` as written sums to 1/2 |
| ExactChain.InfSubStochastic | code/deterministic-calculation.py:19-25 | `inf` has non-negative rows of mass at most 1, and exactly 1 when filled in |
| ExactChain.HealSubStochastic | code/deterministic-calculation.py:28-34 | `heal` has non-negative rows of mass at most 1, and exactly 1 when filled in |
| ExactChain.FinalSubStochastic | code/deterministic-calculation.py:36-42 | of `ExactChain.DayMatrix` (`dp = inf * heal`) and `ExactChain.FinalMatrix` (`final = dp^days`, by `Matrices.MatPow`): as written, every row of `dp` and of `final` is non-negative with mass at most 1 |
| ExactChain.FinalStochastic | code/deterministic-calculation.py:36-42 | filled in, every row of `dp` and of `final` is a probability distribution (non-negative, sums to 1) |
| ExactChain.FinalOneDay | code/deterministic-calculation.py:40-42 | `final` after one day is `dp` itself: the loop's first product with the identity changes nothing |
| ExactChain.FinalStateZeroUnused | code/deterministic-calculation.py:36-42 | as written, after at least one day row 0 and column 0 of `final` are zero |
| ExactChain.InfAgree | code/deterministic-calculation.py:20-25 | `inf` as written and filled in agree on every column but 0 |
| ExactChain.HealAgree | code/deterministic-calculation.py:29-34 | `heal` as written and filled in agree on every column but 0 |
| ExactChain.FinalAgreesWithFull | code/deterministic-calculation.py:36-42 | `final` as written and filled in agree on every transition into a state `j >= 1` |
| ExactChain.ChainStatistics | code/deterministic-calculation.py:44-57 | the moments (`Moments.ExpectedValue` for `ans`, `Moments.ExpectedSquare` for `expected_value_of_square`, `Moments.Variation` for `variation`) of `final[initial_cases]`; fails with IndexError exactly when `initial_cases > n` |
| ExactChain.SourceStatisticsExact | code/deterministic-calculation.py:44-57 | `ans`, `expected_value_of_square` and `variation` computed from the matrices as written equal those of the filled-in chain |
| ExactChain.StatisticsBounded | code/deterministic-calculation.py:44-57 | for probabilities `p` and `q`, `0 <= ans <= n` and `variation >= 0` |
| ExactChain.StatisticsWithoutDays | code/deterministic-calculation.py:40-57 | with 0 days, `ans = initial_cases`, the second moment is its square and `variation = 0` |
| ExactChain.Truncate | code/deterministic-calculation.py:63 | `int()` truncates toward zero: the result is within 1 of its argument and on the zero side of it |
| ExactChain.SimNumber | code/deterministic-calculation.py:59-63 | fails exactly when `epsilon = 0` or the accuracy is 100: the float64 division gives NaN when `variation = 0`, so `int()` raises ValueError, and an infinity otherwise, so `int()` raises OverflowError; otherwise the result is `bound + 1` truncated toward zero, bracketed on each side of 0 |
| ExactChain.ChebyshevBoundNonNegative | code/deterministic-calculation.py:62 | `ExactChain.ChebyshevBound`, `variation / (epsilon * epsilon) / (1 - accuracy/100)`, is `>= 0` for a non-negative variation, any non-zero `epsilon` and an accuracy below 100 |
| ExactChain.SimNumberPositive | code/deterministic-calculation.py:59-63 | with `variation >= 0`, `epsilon != 0` and accuracy below 100, `sim_number` is defined, at least 1, and the least integer above the Chebyshev bound |
| Moments.ExpectedValueBounds | code/deterministic-calculation.py:44-46 | for a non-negative row, `0 <= ans <= (size - 1) * mass` |
| Moments.ExpectedValueAtMostTop | code/deterministic-calculation.py:44-46 | for a non-negative row of mass at most 1 over states `0..n`, `0 <= ans <= n` |
| Moments.DeviationsSum | code/deterministic-calculation.py:51-57 | the weighted squared deviations from any `mean` total `E[X^2] - 2 mean E[X] + mean^2 mass` |
| Moments.VariationDecomposition | code/deterministic-calculation.py:51-57 | `variation` = weighted squared deviations from `ans` + `ans^2 (1 - mass)` |
| Moments.VariationNonNegative | code/deterministic-calculation.py:51-57 | `variation >= 0` for every non-negative row of mass at most 1 |
| Moments.MomentsIgnoreStateZero | code/deterministic-calculation.py:44-57 | rows that agree everywhere but state 0 have the same three moments |
| Moments.PointMassMoments | code/deterministic-calculation.py:44-57 | a row with all its mass on state `k` has `ans = k`, second moment `k^2`, `variation = 0` |
| Matrices.MatMulSubStochastic | code/deterministic-calculation.py:37 | the product of two sub-stochastic matrices is sub-stochastic |
| Matrices.MatMulStochastic | code/deterministic-calculation.py:37 | the product of two stochastic matrices is stochastic |
| Matrices.RowSumOfProduct | code/deterministic-calculation.py:37 | a row of `a * b` sums to the row of `a` weighted by the row sums of `b` |
| Matrices.ProductNonNegative | code/deterministic-calculation.py:37 | the product of non-negative matrices is non-negative |
| Matrices.MatPowSubStochastic | code/deterministic-calculation.py:40-42 | every power of a sub-stochastic matrix is sub-stochastic |
| Matrices.MatPowStochastic | code/deterministic-calculation.py:40-42 | every power of a stochastic matrix is stochastic |
| Matrices.MatMulIdentityLeft | code/deterministic-calculation.py:40-42 | the identity times `d` is `d` |
| Matrices.MatPowZeroRow | code/deterministic-calculation.py:40-42 | a zero row of `d` is a zero row of every power `d^k`, `k >= 1` |
| Matrices.MatPowZeroColumn | code/deterministic-calculation.py:40-42 | a zero column of `d` is a zero column of every power `d^k`, `k >= 1` |
| Matrices.MatPowAgree | code/deterministic-calculation.py:40-42 | matrices agreeing off column 0, the first with row 0 zero off column 0, have powers agreeing off column 0 |
| RealSums.BinomialTheorem | code/deterministic-calculation.py:25 | the binomial terms `C(m,k) a^k b^(m-k)` sum to `(a+b)^m` |
| MonteCarlo.Initialise | code/monte-carlo-simulation.py:5-8 | the loop computes `Simulation.InitialStatus`: IndexError exactly when `initial_cases > n`, otherwise ones at `0..initial_cases-1` and zeros elsewhere |
| Simulation.InitialStatusCounts | code/monte-carlo-simulation.py:5-8 | `Simulation.InitialStatus`, the initial status, has size `n`, is 0/1 and has exactly `initial_cases` sick |
| MonteCarlo.InfectionPhase | code/monte-carlo-simulation.py:16-25 | the double-buffered loops compute `Simulation.Infection`: one roll per (sick, healthy) pair of the snapshot, and `j` becomes sick exactly when some snapshot-sick `i` rolls below `p` on the draw for pair `(i, j)` |
| Simulation.InfectedBeforeIff | code/monte-carlo-simulation.py:17-23 | person `j` is infected in the morning if and only if some person sick at dawn meets `j` with a roll below `infection_prob` |
| Simulation.InfectionOnlyInfects | code/monte-carlo-simulation.py:16-25 | the morning never clears a flag, any change is 0 to 1 with a dawn-sick infector, and it consumes `Sick * Healthy` draws |
| Simulation.InfectionKeepsBinary | code/monte-carlo-simulation.py:16-25 | the morning keeps a 0/1 status 0/1 and never lowers the number sick |
| Simulation.NoInfectionWithoutChance | code/monte-carlo-simulation.py:21-22 | with `infection_prob <= 0` and draws in `[0, 1)` the morning changes nothing |
| Simulation.NoCascade | code/monte-carlo-simulation.py:10-25 | from `[1, 0, 0]`, a hit on the first roll and a miss on the second yield `[1, 1, 0]` after 2 draws: the newly sick person 1 infects nobody that morning |
| MonteCarlo.HealingPhase | code/monte-carlo-simulation.py:28-32 | the in-place loop computes `Simulation.Healing`: each person sick after the morning rolls once, in index order, and recovers when the roll is below `healing_prob` |
| Simulation.HealingOnlyHeals | code/monte-carlo-simulation.py:28-32 | the evening only turns 1 into 0, keeps 0/1 statuses 0/1, and never raises the number sick |
| Simulation.NoHealingWithoutChance | code/monte-carlo-simulation.py:30-31 | with `healing_prob <= 0` and draws in `[0, 1)` the evening changes nothing |
| Simulation.DayKeepsBinary | code/monte-carlo-simulation.py:14-32 | `Simulation.Day`, the morning then the evening, keeps the status 0/1 and consumes `Sick * Healthy` draws in the morning, then one per person sick after the morning |
| Simulation.AfterDaysKeepsBinary | code/monte-carlo-simulation.py:14-32 | through `Simulation.AfterDays`, the day loop, every entry of `status` stays 0 or 1 for any number of days |
| Simulation.CountNeverRises | code/monte-carlo-simulation.py:14-32 | with `infection_prob <= 0` the number sick never increases over any number of days |
| Simulation.CountNeverFalls | code/monte-carlo-simulation.py:14-32 | with `healing_prob <= 0` the number sick never decreases over any number of days |
| Simulation.AllHealthyAbsorbing | code/monte-carlo-simulation.py:14-32 | a day starting all healthy leaves the status unchanged and consumes no draws |
| Simulation.AllHealthyForever | code/monte-carlo-simulation.py:14-32 | an all-healthy population stays all healthy for any number of days |
| Simulation.BinaryCounts | code/monte-carlo-simulation.py:35 | on a 0/1 status, `np.sum` (`Simulation.Total`) is the number sick, and sick plus healthy is `n` |
| MonteCarlo.SumStatus | code/monte-carlo-simulation.py:35 | the loop computes `np.sum(status)` |
| Simulation.Simulate | code/monte-carlo-simulation.py:3-36 | `simulate_infections` fails with IndexError exactly when `initial_cases > n` |
| MonteCarlo.SimulateInfections | code/monte-carlo-simulation.py:3-36 | the imperative simulation computes `Simulation.Simulate`: the final count and the draws consumed |
| Simulation.RunBounded | code/monte-carlo-simulation.py:3-36 | every run (`Simulation.RunOnce`) returns a count in `[0, n]` |
| Simulation.RunWithoutDays | code/monte-carlo-simulation.py:3-36 | with 0 days a run returns `initial_cases` and consumes no draws |
| Simulation.AverageInfected | code/monte-carlo-simulation.py:51-55 | the average fails with ZeroDivisionError when there are no runs, else with IndexError exactly when `initial_cases > n` |
| MonteCarlo.MonteCarloAverage | code/monte-carlo-simulation.py:51-55 | the imperative averaging loop, running the simulations on one shared draw stream, computes `Simulation.AverageInfected` |
| Simulation.TallyBounded | code/monte-carlo-simulation.py:51-52 | `Simulation.Tally`, the summed counts of `runs` runs lie in `[0, runs * n]` |
| Simulation.AverageBounded | code/monte-carlo-simulation.py:51-55 | whenever defined, `average_infected` lies in `[0, n]` |

## Left out

- `np.random.random()` is not modelled as a random source. The simulator takes an arbitrary stream of draws; properties that need the draws in `[0, 1)` assume it (`IsDrawStream`). No distribution, independence or statistical claim is modelled.
- Not modelled, because they are analytic statements about probability rather than behaviour of the code:
  - that the Monte Carlo average converges to `ans`;
  - the Chebyshev guarantee behind `sim_number`;
  - any monotonicity of `ans` in `p`.
- Floating point (numpy `float64`, `scipy.special.comb` returning a float): all arithmetic is exact over `real`. Binomial coefficients are exact integers.
- ExactChain.ChebyshevBound: the division by `epsilon * epsilon` is modelled as two divisions by `epsilon`, which is equal over the reals.
- The `p / (n - 1)` rescaling at `code/monte-carlo-simulation.py:46` is left out, as are all the scripts' hard-coded parameter literals (`n = 100`, `days = 10`, `accuracy_percentage = 95`, ...). Every parameter is an input instead.
- `print` calls and top-level script execution are left out. Both scripts become functions of their parameters.
- Negative integer parameters are excluded by the types: `n`, `initial_cases`, `days` and `num_simulations` are natural numbers, and the model says nothing about negative ones. In Python their effects vary: a negative `initial_cases` down to `-(n + 1)` indexes `final` from the end at `code/deterministic-calculation.py:46` without error, a negative `days`, `initial_cases` or `num_simulations` gives an empty `range` in the simulator (and an average of 0 for `num_simulations`), `n = -1` raises IndexError at `code/deterministic-calculation.py:14`, and a smaller `n` makes `np.zeros` raise ValueError.
- Float overflow and underflow on the success path of `sim_number` (for instance `epsilon * epsilon` rounding to 0 for a tiny non-zero `epsilon`) are not modelled; only the exact zero divisors give the infinite or NaN results.

## Findings

| source | as written | input that shows it | evidently intended | confidence | as-written member | corrected member |
|---|---|---|---|---|---|---|
| code/deterministic-calculation.py:29-34 | the `heal` builder loops start at 1, so `heal[i][0]` (everybody recovers, chance `q^i`) is never written and row `i` sums to `1 - q^i` | `n = 1`, `q = 0.5`: row 1 of `heal` sums to 0.5 instead of 1 | loops from 0, so `heal`, `dp` and `final` are row-stochastic; the moments are unaffected by the omission (`ExactChain.SourceStatisticsExact`) | not executed; proved over exact reals | ExactChain.MassLostExample | ExactChain.FinalStochastic |
