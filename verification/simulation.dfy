/** The Monte Carlo simulator as pure functions: `simulate_infections` on a
    supplied stream of random draws, and the average over repeated runs.

    A status is a sequence of ints, 1 for sick and 0 for healthy, as the
    script's `np.zeros(n, dtype=int)` array. The draws are the successive
    results of `np.random.random()`; a `cursor` counts how many have been
    consumed. */
module Simulation {
  import opened Outcomes

  /** `draws(k)` is the value of the k-th call to `np.random.random()`. */
  type Draws = nat -> real

  /** What `np.random.random()` promises: every draw lies in `[0, 1)`. */
  ghost predicate IsDrawStream(draws: Draws)
  {
    forall k: nat :: 0.0 <= draws(k) < 1.0
  }

  /** A population's status together with the number of draws consumed. */
  datatype State = State(status: seq<int>, cursor: nat)

  /** One simulation's `final_cases` and the draws consumed up to its end. */
  datatype Run = Run(finalCases: int, cursor: nat)

  // ------------------------------------------------------------ counting

  /** The number of entries of `s` equal to `v`. */
  function Count(s: seq<int>, v: int): (c: nat)
    ensures c <= |s|
  {
    if |s| == 0 then 0 else Count(s[..|s| - 1], v) + (if s[|s| - 1] == v then 1 else 0)
  }

  function Sick(s: seq<int>): nat
  {
    Count(s, 1)
  }

  function Healthy(s: seq<int>): nat
  {
    Count(s, 0)
  }

  /** `np.sum(status)`. */
  function Total(s: seq<int>): int
  {
    if |s| == 0 then 0 else Total(s[..|s| - 1]) + s[|s| - 1]
  }

  predicate IsBinary(s: seq<int>)
  {
    forall k :: 0 <= k < |s| ==> s[k] == 0 || s[k] == 1
  }

  lemma CountPrefixStep(s: seq<int>, v: int, i: nat)
    requires i < |s|
    ensures Count(s[..i + 1], v) == Count(s[..i], v) + (if s[i] == v then 1 else 0)
  {
    assert s[..i + 1][..i] == s[..i];
  }

  lemma TotalPrefixStep(s: seq<int>, i: nat)
    requires i < |s|
    ensures Total(s[..i + 1]) == Total(s[..i]) + s[i]
  {
    assert s[..i + 1][..i] == s[..i];
  }

  /** On a 0/1 status the sum of the entries is the number of sick people,
      and the sick and the healthy make up the whole population. */
  lemma {:induction false} BinaryCounts(s: seq<int>)
    requires IsBinary(s)
    ensures Total(s) == Sick(s)
    ensures Sick(s) + Healthy(s) == |s|
  {
    if |s| > 0 {
      BinaryCounts(s[..|s| - 1]);
    }
  }

  /** If every `v` in `s` is matched by a `v` in `t`, `t` has at least as
      many. */
  lemma {:induction false} CountMonotone(s: seq<int>, t: seq<int>, v: int)
    requires |s| == |t|
    requires forall k :: 0 <= k < |s| && s[k] == v ==> t[k] == v
    ensures Count(s, v) <= Count(t, v)
  {
    if |s| > 0 {
      CountMonotone(s[..|s| - 1], t[..|t| - 1], v);
    }
  }

  /** A population with nobody sick has nobody left to count. */
  lemma {:induction false} NoSickEntry(s: seq<int>, k: nat)
    requires Sick(s) == 0 && k < |s|
    ensures s[k] != 1
  {
    if k < |s| - 1 {
      assert s[..|s| - 1][k] == s[k];
      NoSickEntry(s[..|s| - 1], k);
    }
  }

  // ------------------------------------------------------ initialisation

  /** `status = np.zeros(n)` followed by `status[i] = 1` for
      `i < initial_cases`; indexing past the end raises IndexError. */
  function InitialStatus(n: nat, initialCases: nat): (r: Result<seq<int>>)
    ensures r.Failure? <==> n < initialCases
    ensures r.Failure? ==> r.error == IndexOutOfRange
  {
    if n < initialCases then Failure(IndexOutOfRange)
    else Success(seq(n, k => if k < initialCases then 1 else 0))
  }

  /** The initial population is 0/1, of size `n`, with exactly
      `initial_cases` sick. */
  lemma InitialStatusCounts(n: nat, initialCases: nat)
    requires initialCases <= n
    ensures |InitialStatus(n, initialCases).value| == n
    ensures IsBinary(InitialStatus(n, initialCases).value)
    ensures Sick(InitialStatus(n, initialCases).value) == initialCases
  {
    var s := InitialStatus(n, initialCases).value;
    var ones := seq(initialCases, _ => 1);
    assert s == ones + seq(n - initialCases, _ => 0);
    CountOfConstant(ones, 1);
    CountOfConstant(seq(n - initialCases, _ => 0), 0);
    CountConcat(ones, seq(n - initialCases, _ => 0), 1);
  }

  lemma {:induction false} CountOfConstant(s: seq<int>, v: int)
    requires forall k :: 0 <= k < |s| ==> s[k] == v
    ensures Count(s, v) == |s|
    ensures Count(s, 1 - v) == 0
  {
    if |s| > 0 {
      CountOfConstant(s[..|s| - 1], v);
    }
  }

  lemma {:induction false} CountConcat(a: seq<int>, b: seq<int>, v: int)
    ensures Count(a + b, v) == Count(a, v) + Count(b, v)
  {
    if |b| > 0 {
      assert (a + b)[..|a + b| - 1] == a + b[..|b| - 1];
      assert (a + b)[|a + b| - 1] == b[|b| - 1];
      CountConcat(a, b[..|b| - 1], v);
    } else {
      assert a + b == a;
    }
  }

  // ---------------------------------------------------- infection phase

  /** The index of the draw rolled when sick `i` meets healthy `j`. The loops
      visit the snapshot's (sick, healthy) pairs row by row, one draw each:
      every earlier sick row took `Healthy(s)` draws, and this row has taken
      one per healthy person before `j`. */
  function PairDraw(s: seq<int>, cursor: nat, i: nat, j: nat): nat
    requires i <= |s| && j <= |s|
  {
    cursor + Sick(s[..i]) * Healthy(s) + Healthy(s[..j])
  }

  /** Sick `i` infects healthy `j` this morning. */
  predicate Hit(s: seq<int>, draws: Draws, cursor: nat, p: real, i: nat, j: nat)
    requires i < |s| && j < |s|
  {
    s[i] == 1 && s[j] == 0 && draws(PairDraw(s, cursor, i, j)) < p
  }

  /** One of the people `0..i-1` infects `j` this morning. */
  predicate InfectedBefore(s: seq<int>, draws: Draws, cursor: nat, p: real, i: nat, j: nat)
    requires i <= |s| && j < |s|
  {
    0 < i && (InfectedBefore(s, draws, cursor, p, i - 1, j) || Hit(s, draws, cursor, p, i - 1, j))
  }

  /** The morning phase: `next_day_status` starts as a copy of the snapshot
      `s` and is set to 1 wherever some meeting infects; the meetings are
      decided on `s` alone. */
  function Infection(s: seq<int>, draws: Draws, cursor: nat, p: real): (r: State)
    ensures |r.status| == |s|
  {
    State(seq(|s|, j requires 0 <= j < |s| =>
                     if InfectedBefore(s, draws, cursor, p, |s|, j) then 1 else s[j]),
          cursor + Sick(s) * Healthy(s))
  }

  /** Somebody among `0..i-1` infects `j` exactly when there is a person
      `k < i` sick in the snapshot whose meeting with `j` succeeds. */
  lemma {:induction false} InfectedBeforeIff(s: seq<int>, draws: Draws, cursor: nat, p: real, i: nat, j: nat)
    requires i <= |s| && j < |s|
    ensures InfectedBefore(s, draws, cursor, p, i, j)
        <==> exists k :: 0 <= k < i && Hit(s, draws, cursor, p, k, j)
  {
    if 0 < i {
      InfectedBeforeIff(s, draws, cursor, p, i - 1, j);
    }
  }

  /** The morning only infects: every entry stays or rises from 0 to 1, a new
      infection always has an infector who was sick at dawn, and the phase
      uses one draw per (sick, healthy) pair of the snapshot. */
  lemma InfectionOnlyInfects(s: seq<int>, draws: Draws, cursor: nat, p: real)
    ensures forall k :: 0 <= k < |s| ==> s[k] <= Infection(s, draws, cursor, p).status[k]
    ensures forall k :: 0 <= k < |s| && Infection(s, draws, cursor, p).status[k] != s[k] ==>
              s[k] == 0 && Infection(s, draws, cursor, p).status[k] == 1 &&
              exists i :: 0 <= i < |s| && s[i] == 1 && Hit(s, draws, cursor, p, i, k)
    ensures Infection(s, draws, cursor, p).cursor == cursor + Sick(s) * Healthy(s)
  {
    forall k | 0 <= k < |s|
      ensures s[k] <= Infection(s, draws, cursor, p).status[k]
      ensures Infection(s, draws, cursor, p).status[k] != s[k] ==>
                s[k] == 0 && Infection(s, draws, cursor, p).status[k] == 1 &&
                exists i :: 0 <= i < |s| && s[i] == 1 && Hit(s, draws, cursor, p, i, k)
    {
      InfectedBeforeIff(s, draws, cursor, p, |s|, k);
    }
  }

  lemma InfectionKeepsBinary(s: seq<int>, draws: Draws, cursor: nat, p: real)
    requires IsBinary(s)
    ensures IsBinary(Infection(s, draws, cursor, p).status)
    ensures Sick(s) <= Sick(Infection(s, draws, cursor, p).status)
  {
    InfectionOnlyInfects(s, draws, cursor, p);
    CountMonotone(s, Infection(s, draws, cursor, p).status, 1);
  }

  /** With `infection_prob <= 0` no draw in `[0, 1)` is below it: the morning
      changes nobody. */
  lemma NoInfectionWithoutChance(s: seq<int>, draws: Draws, cursor: nat, p: real)
    requires IsDrawStream(draws) && p <= 0.0
    ensures Infection(s, draws, cursor, p).status == s
  {
    forall k | 0 <= k < |s|
      ensures Infection(s, draws, cursor, p).status[k] == s[k]
    {
      InfectedBeforeIff(s, draws, cursor, p, |s|, k);
    }
  }

  // ------------------------------------------------------ healing phase

  /** The evening phase, in place: each person sick after the morning rolls
      once, in index order, and recovers when the roll is below `q`. */
  function Healing(s: seq<int>, draws: Draws, cursor: nat, q: real): (r: State)
    ensures |r.status| == |s|
  {
    State(seq(|s|, i requires 0 <= i < |s| =>
                     if s[i] == 1 && draws(cursor + Sick(s[..i])) < q then 0 else s[i]),
          cursor + Sick(s))
  }

  /** The evening only heals: an entry changes only from 1 to 0, 0/1 stays
      0/1, and the number sick can only fall. */
  lemma HealingOnlyHeals(s: seq<int>, draws: Draws, cursor: nat, q: real)
    ensures forall k :: 0 <= k < |s| && Healing(s, draws, cursor, q).status[k] != s[k] ==>
              s[k] == 1 && Healing(s, draws, cursor, q).status[k] == 0
    ensures IsBinary(s) ==> IsBinary(Healing(s, draws, cursor, q).status)
    ensures IsBinary(s) ==> Sick(Healing(s, draws, cursor, q).status) <= Sick(s)
  {
    CountMonotone(Healing(s, draws, cursor, q).status, s, 1);
  }

  /** With `healing_prob <= 0` nobody recovers. */
  lemma NoHealingWithoutChance(s: seq<int>, draws: Draws, cursor: nat, q: real)
    requires IsDrawStream(draws) && q <= 0.0
    ensures Healing(s, draws, cursor, q).status == s
  {
  }

  // ---------------------------------------------------------------- days

  /** One day: the morning on the dawn snapshot, then the evening on its
      result, drawing on from where the morning stopped. */
  function Day(st: State, draws: Draws, p: real, q: real): (r: State)
    ensures |r.status| == |st.status|
  {
    var morning := Infection(st.status, draws, st.cursor, p);
    Healing(morning.status, draws, morning.cursor, q)
  }

  /** The state after `days` iterations of the day loop. */
  function AfterDays(st: State, draws: Draws, p: real, q: real, days: nat): (r: State)
    ensures |r.status| == |st.status|
  {
    if days == 0 then st else Day(AfterDays(st, draws, p, q, days - 1), draws, p, q)
  }

  /** A day keeps a status 0/1, and the morning rolls one draw per (sick,
      healthy) pair of the snapshot, the evening one per person sick after the
      morning. */
  lemma DayKeepsBinary(st: State, draws: Draws, p: real, q: real)
    requires IsBinary(st.status)
    ensures IsBinary(Day(st, draws, p, q).status)
    ensures Day(st, draws, p, q).cursor
         == st.cursor + Sick(st.status) * Healthy(st.status)
          + Sick(Infection(st.status, draws, st.cursor, p).status)
  {
    InfectionKeepsBinary(st.status, draws, st.cursor, p);
    var morning := Infection(st.status, draws, st.cursor, p);
    HealingOnlyHeals(morning.status, draws, morning.cursor, q);
  }

  lemma {:induction false} AfterDaysKeepsBinary(st: State, draws: Draws, p: real, q: real, days: nat)
    requires IsBinary(st.status)
    ensures IsBinary(AfterDays(st, draws, p, q, days).status)
  {
    if days > 0 {
      AfterDaysKeepsBinary(st, draws, p, q, days - 1);
      DayKeepsBinary(AfterDays(st, draws, p, q, days - 1), draws, p, q);
    }
  }

  /** With `infection_prob <= 0` the number sick never rises, day after day. */
  lemma {:induction false} CountNeverRises(st: State, draws: Draws, p: real, q: real, days: nat)
    requires IsDrawStream(draws) && p <= 0.0 && IsBinary(st.status)
    ensures Sick(AfterDays(st, draws, p, q, days).status) <= Sick(st.status)
  {
    if days > 0 {
      var prev := AfterDays(st, draws, p, q, days - 1);
      CountNeverRises(st, draws, p, q, days - 1);
      AfterDaysKeepsBinary(st, draws, p, q, days - 1);
      NoInfectionWithoutChance(prev.status, draws, prev.cursor, p);
      var morning := Infection(prev.status, draws, prev.cursor, p);
      HealingOnlyHeals(morning.status, draws, morning.cursor, q);
    }
  }

  /** With `healing_prob <= 0` the number sick never falls, day after day. */
  lemma {:induction false} CountNeverFalls(st: State, draws: Draws, p: real, q: real, days: nat)
    requires IsDrawStream(draws) && q <= 0.0 && IsBinary(st.status)
    ensures Sick(st.status) <= Sick(AfterDays(st, draws, p, q, days).status)
  {
    if days > 0 {
      var prev := AfterDays(st, draws, p, q, days - 1);
      CountNeverFalls(st, draws, p, q, days - 1);
      AfterDaysKeepsBinary(st, draws, p, q, days - 1);
      InfectionKeepsBinary(prev.status, draws, prev.cursor, p);
      var morning := Infection(prev.status, draws, prev.cursor, p);
      NoHealingWithoutChance(morning.status, draws, morning.cursor, q);
    }
  }

  /** An all-healthy population stays all healthy and consumes no draws: with
      nobody sick there is no meeting and nobody to heal. */
  lemma AllHealthyAbsorbing(st: State, draws: Draws, p: real, q: real)
    requires IsBinary(st.status) && Sick(st.status) == 0
    ensures Day(st, draws, p, q) == st
  {
    var s := st.status;
    forall k | 0 <= k < |s|
      ensures Infection(s, draws, st.cursor, p).status[k] == s[k]
    {
      InfectedBeforeIff(s, draws, st.cursor, p, |s|, k);
      if InfectedBefore(s, draws, st.cursor, p, |s|, k) {
        var i :| 0 <= i < |s| && Hit(s, draws, st.cursor, p, i, k);
        NoSickEntry(s, i);
      }
    }
    assert Infection(s, draws, st.cursor, p).status == s;
    forall k | 0 <= k < |s|
      ensures Healing(s, draws, st.cursor, q).status[k] == s[k]
    {
      NoSickEntry(s, k);
    }
  }

  lemma {:induction false} AllHealthyForever(st: State, draws: Draws, p: real, q: real, days: nat)
    requires IsBinary(st.status) && Sick(st.status) == 0
    ensures AfterDays(st, draws, p, q, days) == st
  {
    if days > 0 {
      AllHealthyForever(st, draws, p, q, days - 1);
      AllHealthyAbsorbing(st, draws, p, q);
    }
  }

  // ------------------------------------------------- one simulation run

  /** `simulate_infections` from draw `cursor` on, for `initial_cases <= n`. */
  function RunOnce(n: nat, initialCases: nat, p: real, q: real, days: nat, draws: Draws, cursor: nat): Run
    requires initialCases <= n
  {
    var last := AfterDays(State(InitialStatus(n, initialCases).value, cursor), draws, p, q, days);
    Run(Total(last.status), last.cursor)
  }

  /** `simulate_infections`: IndexError when there are more initial cases
      than people, otherwise the final number sick. */
  function Simulate(n: nat, initialCases: nat, p: real, q: real, days: nat, draws: Draws, cursor: nat): (r: Result<Run>)
    ensures r.Failure? <==> n < initialCases
    ensures r.Failure? ==> r.error == IndexOutOfRange
  {
    if n < initialCases then Failure(IndexOutOfRange)
    else Success(RunOnce(n, initialCases, p, q, days, draws, cursor))
  }

  /** Every run returns a count between 0 and `n`. */
  lemma RunBounded(n: nat, initialCases: nat, p: real, q: real, days: nat, draws: Draws, cursor: nat)
    requires initialCases <= n
    ensures 0 <= RunOnce(n, initialCases, p, q, days, draws, cursor).finalCases <= n
  {
    InitialStatusCounts(n, initialCases);
    var st := State(InitialStatus(n, initialCases).value, cursor);
    AfterDaysKeepsBinary(st, draws, p, q, days);
    BinaryCounts(AfterDays(st, draws, p, q, days).status);
  }

  /** With no days the run returns `initial_cases` and consumes no draws. */
  lemma RunWithoutDays(n: nat, initialCases: nat, p: real, q: real, draws: Draws, cursor: nat)
    requires initialCases <= n
    ensures RunOnce(n, initialCases, p, q, 0, draws, cursor) == Run(initialCases, cursor)
  {
    InitialStatusCounts(n, initialCases);
    BinaryCounts(InitialStatus(n, initialCases).value);
  }

  /** The morning decides on the dawn snapshot. When the first meeting
      (0 with 1) succeeds and the second (0 with 2) fails, person 2 stays
      healthy although person 1 is sick before the morning ends: the newly
      sick get no meetings of their own until the next day. */
  lemma NoCascade(s: seq<int>, draws: Draws, p: real)
    requires s == [1, 0, 0] && draws(0) < p <= draws(1)
    ensures Infection(s, draws, 0, p).status == [1, 1, 0]
    ensures Infection(s, draws, 0, p).cursor == 2
  {
    assert s[..0] == [] && s[..1] == [1] && s[..2] == [1, 0];
    assert [1, 0][..1] == [1] && [1][..0] == [];
    assert Sick(s[..0]) == 0 && Healthy(s[..1]) == 0 && Healthy(s[..2]) == 1;
    CountPrefixStep(s, 1, 2);
    CountPrefixStep(s, 0, 2);
    assert s[..3] == s;
    assert Hit(s, draws, 0, p, 0, 1);
    assert !Hit(s, draws, 0, p, 0, 2);
    InfectedBeforeIff(s, draws, 0, p, |s|, 2);
    InfectedBeforeIff(s, draws, 0, p, |s|, 1);
  }

  // ------------------------------------------------ the averaging loop

  /** The summed `final_cases` of `runs` successive simulations sharing one
      draw stream, and where that stream stands afterwards. */
  function Tally(runs: nat, n: nat, initialCases: nat, p: real, q: real, days: nat, draws: Draws): Run
    requires initialCases <= n
  {
    if runs == 0 then Run(0, 0)
    else
      var before := Tally(runs - 1, n, initialCases, p, q, days, draws);
      var run := RunOnce(n, initialCases, p, q, days, draws, before.cursor);
      Run(before.finalCases + run.finalCases, run.cursor)
  }

  /** `average_infected = total_infected_sum / num_simulations`. Zero runs
      divide by zero; otherwise the first run's IndexError surfaces. */
  function AverageInfected(numSimulations: nat, n: nat, initialCases: nat, p: real, q: real, days: nat, draws: Draws): (r: Result<real>)
    ensures r.Failure? <==> numSimulations == 0 || n < initialCases
    ensures r.Failure? ==> r.error == (if numSimulations == 0 then DivisionByZero else IndexOutOfRange)
  {
    if numSimulations == 0 then Failure(DivisionByZero)
    else if n < initialCases then Failure(IndexOutOfRange)
    else Success(Tally(numSimulations, n, initialCases, p, q, days, draws).finalCases as real / numSimulations as real)
  }

  lemma {:induction false} TallyBounded(runs: nat, n: nat, initialCases: nat, p: real, q: real, days: nat, draws: Draws)
    requires initialCases <= n
    ensures 0 <= Tally(runs, n, initialCases, p, q, days, draws).finalCases <= runs * n
  {
    if runs > 0 {
      TallyBounded(runs - 1, n, initialCases, p, q, days, draws);
      var before := Tally(runs - 1, n, initialCases, p, q, days, draws);
      RunBounded(n, initialCases, p, q, days, draws, before.cursor);
      assert runs * n == (runs - 1) * n + n;
    }
  }

  /** The average of runs that each lie in `[0, n]` lies in `[0, n]`. */
  lemma AverageBounded(numSimulations: nat, n: nat, initialCases: nat, p: real, q: real, days: nat, draws: Draws)
    requires AverageInfected(numSimulations, n, initialCases, p, q, days, draws).Success?
    ensures 0.0 <= AverageInfected(numSimulations, n, initialCases, p, q, days, draws).value <= n as real
  {
    TallyBounded(numSimulations, n, initialCases, p, q, days, draws);
    MeanBounded(Tally(numSimulations, n, initialCases, p, q, days, draws).finalCases, numSimulations, n);
  }

  lemma MeanBounded(total: int, count: nat, n: nat)
    requires 0 < count && 0 <= total <= count * n
    ensures 0.0 <= total as real / count as real <= n as real
  {
    var t, c := total as real, count as real;
    assert t / c * c == t;
    assert t <= c * (n as real);
  }
}
