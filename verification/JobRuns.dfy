/**
  Whole runs of the queue: how often a job can be dispatched, why it stops moving, how far apart
  its retries are, and how much work self-heal can cause in a day.
 */
module JobRuns {
  import opened Domain
  import opened JobQueue
  import opened JobInvariants

  // ----- Dispatches are bounded -----

  /** The step took row i from queued to dispatched. */
  ghost predicate DispatchEdge(s: State, s': State, i: nat) {
    i < |s.jobs| && i < |s'.jobs| && s.jobs[i].status == Queued && s'.jobs[i].status == Dispatched
  }

  ghost function Dispatches(cap: nat, s: State, steps: seq<Step>, i: nat): nat
    decreases |steps|
  {
    if steps == [] then 0
    else
      var init := steps[..|steps| - 1];
      Dispatches(cap, s, init, i) + if DispatchEdge(Exec(cap, s, init), Exec(cap, s, steps), i) then 1 else 0
  }

  /** How many more times a row can be handed out, even if a late result revives it. */
  function Allowance(j: Job): nat {
    if j.attempt >= j.maxAttempts then 0
    else if j.status == Queued then j.maxAttempts - j.attempt
    else j.maxAttempts - j.attempt - 1
  }

  lemma RowSpendsAllowance(j: Job, j': Job, now: int)
    requires RowInv(j, now) && RowStep(j, j', now)
    ensures Allowance(j') + (if j.status == Queued && j'.status == Dispatched then 1 else 0) <= Allowance(j)
    ensures j'.maxAttempts == j.maxAttempts && j'.createdAt == j.createdAt
    ensures j'.kind == j.kind && j'.device == j.device && j'.agent == j.agent
  {
  }

  /** Over any run at all, duplicate and late results included, dispatches only spend the allowance. */
  lemma {:induction false} DispatchesSpendAllowance(cap: nat, s: State, steps: seq<Step>, i: nat)
    requires RowsInv(s) && CapInv(cap, s) && i < |Exec(cap, s, steps).jobs|
    ensures Dispatches(cap, s, steps, i) + Allowance(Exec(cap, s, steps).jobs[i])
            <= if i < |s.jobs| then Allowance(s.jobs[i]) else DEFAULT_MAX_ATTEMPTS
    ensures i < |s.jobs| ==> Exec(cap, s, steps).jobs[i].maxAttempts == s.jobs[i].maxAttempts
    ensures |s.jobs| <= i ==> Exec(cap, s, steps).jobs[i].maxAttempts == DEFAULT_MAX_ATTEMPTS
    decreases |steps|
  {
    if steps != [] {
      var init := steps[..|steps| - 1];
      var before := Exec(cap, s, init);
      StepMovesRows(cap, before, steps[|steps| - 1]);
      RunKeepsCapAndRows(cap, s, init);
      RowsNeverVanish(cap, s, init);
      if i < |before.jobs| {
        DispatchesSpendAllowance(cap, s, init, i);
        RowSpendsAllowance(before.jobs[i], Exec(cap, s, steps).jobs[i], before.now);
      } else {
        NothingBeforeCreation(cap, s, init, i);
        assert FreshRow(Exec(cap, s, steps).jobs[i], before.now);
      }
    }
  }

  lemma {:induction false} RowsNeverVanish(cap: nat, s: State, steps: seq<Step>)
    ensures |s.jobs| <= |Exec(cap, s, steps).jobs|
    decreases |steps|
  {
    if steps != [] {
      RowsNeverVanish(cap, s, steps[..|steps| - 1]);
      StepMovesRows(cap, Exec(cap, s, steps[..|steps| - 1]), steps[|steps| - 1]);
    }
  }

  lemma {:induction false} NothingBeforeCreation(cap: nat, s: State, steps: seq<Step>, i: nat)
    requires |Exec(cap, s, steps).jobs| <= i
    ensures Dispatches(cap, s, steps, i) == 0
    decreases |steps|
  {
    if steps != [] {
      var init := steps[..|steps| - 1];
      StepMovesRows(cap, Exec(cap, s, init), steps[|steps| - 1]);
      NothingBeforeCreation(cap, s, init, i);
    }
  }

  /** No job bounces forever: a job created during a run is dispatched at most max_attempts times. */
  lemma DispatchedAtMostMaxAttempts(cap: nat, s: State, steps: seq<Step>, i: nat)
    requires RowsInv(s) && CapInv(cap, s) && i < |Exec(cap, s, steps).jobs|
    ensures Dispatches(cap, s, steps, i) <= Exec(cap, s, steps).jobs[i].maxAttempts
  {
    DispatchesSpendAllowance(cap, s, steps, i);
  }

  // ----- When a job spends its last attempt -----

  /** At some point of the run the reaper gave up on job i. */
  ghost predicate GivenUp(cap: nat, s: State, steps: seq<Step>, i: nat)
    decreases |steps|
  {
    steps != [] &&
    (var init := steps[..|steps| - 1];
     var before := Exec(cap, s, init);
     GivenUp(cap, s, init, i)
     || (steps[|steps| - 1].ReapStep? && i < |before.jobs| && IsStale(before.jobs[i], before.now)
         && before.jobs[i].attempt + 1 == before.jobs[i].maxAttempts))
  }

  /** Over any run, late results included: a job's attempt equals its maximum exactly when the reaper gave up on it. */
  lemma {:induction false} SpentExactlyWhenGivenUp(cap: nat, s: State, steps: seq<Step>, i: nat)
    requires RowsInv(s) && CapInv(cap, s) && (i < |s.jobs| ==> s.jobs[i].attempt < s.jobs[i].maxAttempts)
    ensures var jobs := Exec(cap, s, steps).jobs;
            && (i < |jobs| ==> (jobs[i].attempt == jobs[i].maxAttempts <==> GivenUp(cap, s, steps, i)))
            && (|jobs| <= i ==> !GivenUp(cap, s, steps, i))
    decreases |steps|
  {
    if steps != [] {
      var init, step := steps[..|steps| - 1], steps[|steps| - 1];
      var before := Exec(cap, s, init);
      SpentExactlyWhenGivenUp(cap, s, init, i);
      RunKeepsCapAndRows(cap, s, init);
      StepMovesRows(cap, before, step);
      if i < |before.jobs| {
        assert RowInv(before.jobs[i], before.now);
        RowSpendsAllowance(before.jobs[i], Exec(cap, s, steps).jobs[i], before.now);
        if before.jobs[i].attempt < before.jobs[i].maxAttempts {
          MaximumReachedExactly(cap, before, step, i);
        } else {
          MaximumStays(cap, before, step, i);
        }
      }
    }
  }

  // ----- Every timely move descends -----

  /** The lexicographic pair (attempts left, status rank) folded into one number. */
  function Rank(j: Job): nat
    requires j.attempt <= j.maxAttempts && (Active(j) ==> j.attempt < j.maxAttempts)
  {
    match j.status
    case Queued => 2 * (j.maxAttempts - j.attempt)
    case Dispatched => 2 * (j.maxAttempts - j.attempt) - 1
    case _ => 0
  }

  lemma TimelyMoveDescends(cap: nat, s: State, step: Step, i: nat)
    requires RowsInv(s) && !IsLate(s, step) && i < |s.jobs|
    ensures |s.jobs| <= |Apply(cap, s, step).jobs| && RowInv(Apply(cap, s, step).jobs[i], Apply(cap, s, step).now)
    ensures Apply(cap, s, step).jobs[i] == s.jobs[i] || Rank(Apply(cap, s, step).jobs[i]) < Rank(s.jobs[i])
  {
    StepMovesRows(cap, s, step);
    RowsKept(cap, s, step);
    match step
    case PollStep(a) => PicksSpec(cap, s, a);
    case HealStep(cands, picks) => HealAppends(s, cands, picks);
    case _ =>
  }

  /** How many steps of a run changed row i. */
  ghost function Moves(cap: nat, s: State, steps: seq<Step>, i: nat): nat
    decreases |steps|
  {
    if steps == [] then 0
    else
      var init := steps[..|steps| - 1];
      var before, after := Exec(cap, s, init), Exec(cap, s, steps);
      Moves(cap, s, init, i) + if i < |before.jobs| && i < |after.jobs| && after.jobs[i] != before.jobs[i] then 1 else 0
  }

  /** A run without late results changes a job at most twice per attempt it has left. */
  lemma {:induction false} MovesBounded(cap: nat, s: State, steps: seq<Step>, i: nat)
    requires CapInv(cap, s) && RowsInv(s) && Timely(cap, s, steps) && i < |s.jobs|
    ensures i < |Exec(cap, s, steps).jobs| && RowInv(Exec(cap, s, steps).jobs[i], Exec(cap, s, steps).now)
    ensures Moves(cap, s, steps, i) + Rank(Exec(cap, s, steps).jobs[i]) <= Rank(s.jobs[i]) <= 2 * s.jobs[i].maxAttempts
    decreases |steps|
  {
    if steps != [] {
      var init := steps[..|steps| - 1];
      MovesBounded(cap, s, init, i);
      RunKeepsCapAndRows(cap, s, init);
      TimelyMoveDescends(cap, Exec(cap, s, init), steps[|steps| - 1], i);
    }
  }

  // ----- Retry spacing -----

  /** When row i first went from dispatched back to queued. */
  ghost function FirstFailure(cap: nat, s: State, steps: seq<Step>, i: nat): Option<int>
    decreases |steps|
  {
    if steps == [] then None
    else
      var init := steps[..|steps| - 1];
      var before, after := Exec(cap, s, init), Exec(cap, s, steps);
      var first := FirstFailure(cap, s, init, i);
      if first.None? && i < |before.jobs| && i < |after.jobs|
         && before.jobs[i].status == Dispatched && after.jobs[i].status == Queued then Some(before.now) else first
  }

  ghost function LastDispatch(cap: nat, s: State, steps: seq<Step>, i: nat): Option<int>
    decreases |steps|
  {
    if steps == [] then None
    else
      var init := steps[..|steps| - 1];
      if DispatchEdge(Exec(cap, s, init), Exec(cap, s, steps), i) then Some(Exec(cap, s, init).now)
      else LastDispatch(cap, s, init, i)
  }

  ghost predicate NeverReaped(cap: nat, s: State, steps: seq<Step>, i: nat)
    decreases |steps|
  {
    steps == [] ||
    (var init := steps[..|steps| - 1];
     var before := Exec(cap, s, init);
     NeverReaped(cap, s, init, i)
     && (steps[|steps| - 1].ReapStep? && i < |before.jobs| ==> !IsStale(before.jobs[i], before.now)))
  }

  /** The waits before the first n retries, added up. */
  function TotalBackoff(n: nat): nat {
    if n == 0 then 0 else TotalBackoff(n - 1) + Backoff(n - 1)
  }

  ghost predicate Spaced(j: Job, first: Option<int>, last: Option<int>, now: int) {
    && (j.attempt == 0 ==> first.None?)
    && (j.attempt > 0 ==> first.Some? && (j.status == Queued ==>
          j.nextAt.Some? && j.nextAt.value >= first.value + TotalBackoff(j.attempt)))
    && (j.attempt > 0 && j.status != Queued ==> last.Some? && last.value >= first.value + TotalBackoff(j.attempt))
    && (last.Some? ==> last.value <= now)
  }

  lemma {:induction false} RunIsSpaced(cap: nat, s: State, steps: seq<Step>, i: nat)
    requires CapInv(cap, s) && RowsInv(s) && Timely(cap, s, steps) && NeverReaped(cap, s, steps, i)
    requires i < |s.jobs| ==> FreshRow(s.jobs[i], s.now)
    ensures i < |Exec(cap, s, steps).jobs| ==>
              Spaced(Exec(cap, s, steps).jobs[i], FirstFailure(cap, s, steps, i), LastDispatch(cap, s, steps, i),
                Exec(cap, s, steps).now)
    ensures |Exec(cap, s, steps).jobs| <= i ==>
        FirstFailure(cap, s, steps, i).None? && LastDispatch(cap, s, steps, i).None?
    decreases |steps|
  {
    if steps != [] {
      var init, step := steps[..|steps| - 1], steps[|steps| - 1];
      var before := Exec(cap, s, init);
      RunIsSpaced(cap, s, init, i);
      RunKeepsCapAndRows(cap, s, init);
      StepMovesRows(cap, before, step);
      ClockAdvances(cap, before, step);
      if i < |before.jobs| {
        SpacedKept(cap, before, step, i, FirstFailure(cap, s, init, i), LastDispatch(cap, s, init, i));
      }
    }
  }

  lemma SpacedKept(cap: nat, s: State, step: Step, i: nat, first: Option<int>, last: Option<int>)
    requires RowsInv(s) && !IsLate(s, step) && i < |s.jobs| && Spaced(s.jobs[i], first, last, s.now)
    requires step.ReapStep? ==> !IsStale(s.jobs[i], s.now)
    ensures var s' := Apply(cap, s, step);
            && i < |s'.jobs|
            && Spaced(s'.jobs[i],
                 if first.None? && s.jobs[i].status == Dispatched && s'.jobs[i].status == Queued
                 then Some(s.now) else first,
                 if DispatchEdge(s, s', i) then Some(s.now) else last, s'.now)
  {
    StepMovesRows(cap, s, step);
    ClockAdvances(cap, s, step);
    match step
    case PollStep(a) => PicksSpec(cap, s, a);
    case HealStep(cands, picks) => HealAppends(s, cands, picks);
    case ResultStep(a, k, rep) => if k == i { ResultKeepsSpacing(s, a, i, rep, first, last); }
    case _ =>
  }

  lemma ResultKeepsSpacing(s: State, a: nat, i: nat, rep: Report, first: Option<int>, last: Option<int>)
    requires i < |s.jobs| && s.jobs[i].status == Dispatched && Spaced(s.jobs[i], first, last, s.now)
    ensures var j := Result(s, a, i, rep).jobs[i];
            Spaced(j, if first.None? && j.status == Queued then Some(s.now) else first, last, s.now)
  {
    if WillRetry(s.jobs[i], rep) {
      assert TotalBackoff(s.jobs[i].attempt + 1) == TotalBackoff(s.jobs[i].attempt) + Backoff(s.jobs[i].attempt);
    }
  }

  /**
    A job that was handed out again after its n-th transient failure, and never reaped, got its last
    dispatch at least the sum of its n backoffs after its first failure; with the default five
    attempts that is seventeen and a half minutes.
   */
  lemma RetriesAreSpaced(cap: nat, s: State, steps: seq<Step>, i: nat)
    requires CapInv(cap, s) && RowsInv(s) && Timely(cap, s, steps) && NeverReaped(cap, s, steps, i)
    requires i < |s.jobs| ==> FreshRow(s.jobs[i], s.now)
    requires i < |Exec(cap, s, steps).jobs|
    requires Exec(cap, s, steps).jobs[i].status != Queued && Exec(cap, s, steps).jobs[i].attempt > 0
    ensures var first, last := FirstFailure(cap, s, steps, i), LastDispatch(cap, s, steps, i);
            && first.Some? && last.Some?
            && last.value - first.value >= TotalBackoff(Exec(cap, s, steps).jobs[i].attempt)
            && (Exec(cap, s, steps).jobs[i].attempt == DEFAULT_MAX_ATTEMPTS - 1 ==> last.value - first.value >= 1050)
  {
    RunIsSpaced(cap, s, steps, i);
    assert TotalBackoff(4) == TotalBackoff(1) + 120 + 300 + 600;
  }
}
