/** `simulate_infections` and the averaging loop as the script writes them:
    loops over a mutable status array that consume the draw stream one roll
    at a time. Each method is proved to compute the functional model of
    module `Simulation`. */
module MonteCarlo {
  import opened Outcomes
  import opened Simulation

  /** `status = np.zeros(n, dtype=int)`, then `status[i] = 1` for each
      `i < initial_cases`; the write at index `n` raises IndexError. */
  method Initialise(n: nat, initialCases: nat) returns (r: Result<seq<int>>)
    ensures r == InitialStatus(n, initialCases)
  {
    var status := new int[n](_ => 0);
    for i := 0 to initialCases
      invariant 0 < i ==> i <= n
      invariant forall k :: 0 <= k < n ==> status[k] == (if k < i then 1 else 0)
    {
      if i >= n {
        return Failure(IndexOutOfRange);
      }
      status[i] := 1;
    }
    assert status[..] == InitialStatus(n, initialCases).value;
    return Success(status[..]);
  }

  /** The morning phase: `next_day_status` starts as a copy of `status`; for
      every sick `i` and healthy `j` of `status`, one roll, and `j` is marked
      sick in the copy when the roll is below `infection_prob`. */
  method InfectionPhase(status: seq<int>, draws: Draws, cursor: nat, p: real) returns (next: seq<int>, after: nat)
    ensures State(next, after) == Infection(status, draws, cursor, p)
  {
    var n := |status|;
    var nextDay := new int[n](k requires 0 <= k < n => status[k]);
    var c := cursor;
    ghost var healthy := Healthy(status);
    for i := 0 to n
      invariant c == cursor + Sick(status[..i]) * healthy
      invariant forall k :: 0 <= k < n ==>
                  nextDay[k] == if InfectedBefore(status, draws, cursor, p, i, k) then 1 else status[k]
    {
      for j := 0 to n
        invariant status[i] == 1 ==> c == PairDraw(status, cursor, i, j)
        invariant status[i] != 1 ==> c == cursor + Sick(status[..i]) * healthy
        invariant forall k :: 0 <= k < n ==>
                    nextDay[k] == if InfectedBefore(status, draws, cursor, p, i, k)
                                     || (k < j && Hit(status, draws, cursor, p, i, k)) then 1 else status[k]
      {
        if status[i] == 1 && status[j] == 0 {
          var roll := draws(c);
          if roll < p {
            nextDay[j] := 1;
          }
          c := c + 1;
        }
        CountPrefixStep(status, 0, j);
      }
      CountPrefixStep(status, 1, i);
      assert status[..n] == status;
      RowDone(Sick(status[..i]), healthy);
    }
    assert status[..n] == status;
    next, after := nextDay[..], c;
  }

  lemma RowDone(before: nat, healthy: nat)
    ensures (before + 1) * healthy == before * healthy + healthy
  {
  }

  /** The evening phase, in place: every person still sick rolls once, in
      index order, and recovers when the roll is below `healing_prob`. */
  method HealingPhase(status: seq<int>, draws: Draws, cursor: nat, q: real) returns (healed: seq<int>, after: nat)
    ensures State(healed, after) == Healing(status, draws, cursor, q)
  {
    var n := |status|;
    var current := new int[n](k requires 0 <= k < n => status[k]);
    var c := cursor;
    for i := 0 to n
      invariant c == cursor + Sick(status[..i])
      invariant forall k :: i <= k < n ==> current[k] == status[k]
      invariant forall k :: 0 <= k < i ==> current[k] == Healing(status, draws, cursor, q).status[k]
    {
      if current[i] == 1 {
        var roll := draws(c);
        if roll < q {
          current[i] := 0;
        }
        c := c + 1;
      }
      CountPrefixStep(status, 1, i);
    }
    assert status[..n] == status;
    healed, after := current[..], c;
  }

  /** `np.sum(status)`. */
  method SumStatus(status: seq<int>) returns (total: int)
    ensures total == Total(status)
  {
    total := 0;
    for i := 0 to |status|
      invariant total == Total(status[..i])
    {
      TotalPrefixStep(status, i);
      total := total + status[i];
    }
    assert status[..|status|] == status;
  }

  /** `simulate_infections(n, initial_cases, infection_prob, healing_prob,
      days)`, reading the draws from `cursor` on; also returns where the
      stream stands at the end. */
  method SimulateInfections(n: nat, initialCases: nat, p: real, q: real, days: nat, draws: Draws, cursor: nat)
    returns (r: Result<Run>)
    ensures r == Simulate(n, initialCases, p, q, days, draws, cursor)
  {
    var init := Initialise(n, initialCases);
    if init.Failure? {
      return Failure(init.error);
    }
    var status, c := init.value, cursor;
    for day := 0 to days
      invariant State(status, c) == AfterDays(State(init.value, cursor), draws, p, q, day)
    {
      var morning, used := InfectionPhase(status, draws, c, p);
      status, c := HealingPhase(morning, draws, used, q);
    }
    var finalCases := SumStatus(status);
    return Success(Run(finalCases, c));
  }

  /** The script's top level: `num_simulations` runs on one draw stream,
      their `final_cases` summed, and the sum divided by the number of
      runs. */
  method MonteCarloAverage(numSimulations: nat, n: nat, initialCases: nat, p: real, q: real, days: nat, draws: Draws)
    returns (r: Result<real>)
    ensures r == AverageInfected(numSimulations, n, initialCases, p, q, days, draws)
  {
    var total, c := 0, 0;
    for i := 0 to numSimulations
      invariant 0 < i ==> initialCases <= n
      invariant initialCases <= n ==> Tally(i, n, initialCases, p, q, days, draws) == Run(total, c)
    {
      var run := SimulateInfections(n, initialCases, p, q, days, draws, c);
      if run.Failure? {
        return Failure(run.error);
      }
      total, c := total + run.value.finalCases, run.value.cursor;
    }
    if numSimulations == 0 {
      return Failure(DivisionByZero);
    }
    return Success(total as real / numSimulations as real);
  }
}
