/**
  Self-heal cannot hammer a device: when the sweep is the only source of new jobs for it, at most
  selfHealMaxRounds of its jobs are alive inside any 24-hour window.
 */
module SelfHealBound {
  import opened Domain
  import opened JobQueue
  import opened JobInvariants
  import opened JobRuns

  /**
    The device's jobs from index `from` on form a chain. Any state is chained from the end of its
    table, whatever happened to the device before.
   */
  ghost predicate Chained(s: State, d: nat, from: nat) {
    forall k :: from <= k < |s.jobs| && CollectsFor(s.jobs[k], d) ==> Grounded(s.jobs, d, from, k)
  }

  /**
    No older job of the device is active, those from `from` on had failed when job k was created, and
    fewer than the allowed number, of all older ones, had failed in the day before.
   */
  ghost predicate Grounded(jobs: seq<Job>, d: nat, from: nat, k: int)
    requires from <= k < |jobs|
  {
    && (forall i :: 0 <= i < k && CollectsFor(jobs[i], d) ==> !Active(jobs[i]))
    && (forall i :: from <= i < k && CollectsFor(jobs[i], d) ==> FailedBy(jobs[i], jobs[k].createdAt))
    && |RecentFailures(jobs[..k], d, jobs[k].createdAt - 86400)| < HEAL_ROUNDS
  }

  predicate FailedBy(j: Job, at: int) { j.status == Failed && j.finishedAt.Some? && j.finishedAt.value <= at }

  /** Without late results only active rows move, and a row keeps its identity. */
  ghost predicate OnlyActiveMove(jobs: seq<Job>, jobs': seq<Job>) {
    && |jobs'| == |jobs|
    && forall i :: 0 <= i < |jobs| ==>
         && jobs'[i].kind == jobs[i].kind && jobs'[i].device == jobs[i].device
         && jobs'[i].createdAt == jobs[i].createdAt
         && (Active(jobs[i]) || jobs'[i] == jobs[i])
  }

  lemma TimelyStepsMoveActiveRows(cap: nat, s: State, step: Step)
    requires RowsInv(s) && !IsLate(s, step)
    requires step.PollStep? || step.ResultStep? || step.ReapStep?
    ensures OnlyActiveMove(s.jobs, Apply(cap, s, step).jobs)
  {
    if step.PollStep? { PicksSpec(cap, s, step.agent); }
  }

  /** Rows of a device change only while they are its newest, so the chain's older part is frozen. */
  lemma RowMoveKeepsChain(s: State, s': State, d: nat, from: nat)
    requires Chained(s, d, from) && OnlyActiveMove(s.jobs, s'.jobs)
    ensures Chained(s', d, from)
  {
    forall k | from <= k < |s'.jobs| && CollectsFor(s'.jobs[k], d)
      ensures Grounded(s'.jobs, d, from, k)
    {
      assert CollectsFor(s.jobs[k], d) && Grounded(s.jobs, d, from, k);
      assert forall i :: 0 <= i < k && CollectsFor(s.jobs[i], d) ==> s'.jobs[i] == s.jobs[i];
      SameFailures(s.jobs, s'.jobs, d, k, s.jobs[k].createdAt - 86400);
    }
  }

  lemma SameFailures(jobs: seq<Job>, jobs': seq<Job>, d: nat, k: nat, t: int)
    requires k <= |jobs| == |jobs'|
    requires forall m :: 0 <= m < k ==> jobs'[m].kind == jobs[m].kind && jobs'[m].device == jobs[m].device
    requires forall m :: 0 <= m < k && CollectsFor(jobs[m], d) ==> jobs'[m] == jobs[m]
    ensures RecentFailures(jobs'[..k], d, t) == RecentFailures(jobs[..k], d, t)
  {
    assert forall m :: 0 <= m < k ==> FailedSince(jobs'[m], d, t) == FailedSince(jobs[m], d, t);
  }

  /** What is grounded in a table is grounded in every longer one. */
  lemma GroundedInPrefix(jobs: seq<Job>, jobs': seq<Job>, d: nat, from: nat, k: nat)
    requires jobs <= jobs' && from <= k < |jobs| && Grounded(jobs, d, from, k)
    ensures Grounded(jobs', d, from, k)
  {
    assert jobs'[..k] == jobs[..k];
  }

  /** Appending rows of other devices changes nothing. */
  lemma AppendKeepsChain(s: State, s': State, d: nat, from: nat)
    requires Chained(s, d, from) && s.jobs <= s'.jobs
    requires forall k :: |s.jobs| <= k < |s'.jobs| ==> !CollectsFor(s'.jobs[k], d)
    ensures Chained(s', d, from)
  {
    forall k | from <= k < |s'.jobs| && CollectsFor(s'.jobs[k], d)
      ensures Grounded(s'.jobs, d, from, k)
    {
      GroundedInPrefix(s.jobs, s'.jobs, d, from, k);
    }
  }

  /** What the candidate query says about the device's jobs. */
  lemma EligibleFacts(s: State, d: nat, from: nat)
    requires RowsInv(s) && Chained(s, d, from) && Eligible(s, d)
    ensures forall i :: 0 <= i < |s.jobs| && CollectsFor(s.jobs[i], d) ==> !Active(s.jobs[i])
    ensures forall i :: from <= i < |s.jobs| && CollectsFor(s.jobs[i], d) ==> FailedBy(s.jobs[i], s.now)
    ensures |RecentFailures(s.jobs, d, s.now - DAY)| < HEAL_ROUNDS
  {
    var newest := Latest(s.jobs, d).value;
    assert RowInv(s.jobs[newest], s.now);
    if from <= newest { assert Grounded(s.jobs, d, from, newest); }
  }

  lemma FreshRowsAreNoFailures(jobs: seq<Job>, jobs': seq<Job>, d: nat, now: int)
    requires jobs <= jobs' && forall k :: |jobs| <= k < |jobs'| ==> jobs'[k].status == Queued
    ensures RecentFailures(jobs', d, now - DAY) == RecentFailures(jobs, d, now - DAY)
  {
  }

  /** One row appended for a device whose jobs are settled, few of them failed lately, extends its chain. */
  lemma FreshRowExtendsChain(s: State, s': State, d: nat, from: nat)
    requires Chained(s, d, from) && s.jobs <= s'.jobs && from <= |s.jobs|
    requires forall i :: 0 <= i < |s.jobs| && CollectsFor(s.jobs[i], d) ==> !Active(s.jobs[i])
    requires forall i :: from <= i < |s.jobs| && CollectsFor(s.jobs[i], d) ==> FailedBy(s.jobs[i], s.now)
    requires |RecentFailures(s.jobs, d, s.now - DAY)| < HEAL_ROUNDS
    requires forall k :: |s.jobs| <= k < |s'.jobs| ==> s'.jobs[k].status == Queued && s'.jobs[k].createdAt == s.now
    requires forall i, k :: |s.jobs| <= i < k < |s'.jobs| ==> !CollectsFor(s'.jobs[i], d) || !CollectsFor(s'.jobs[k], d)
    ensures Chained(s', d, from)
  {
    forall k | from <= k < |s'.jobs| && CollectsFor(s'.jobs[k], d)
      ensures Grounded(s'.jobs, d, from, k)
    {
      if k < |s.jobs| {
        GroundedInPrefix(s.jobs, s'.jobs, d, from, k);
      } else {
        assert forall i :: 0 <= i < k && CollectsFor(s'.jobs[i], d) ==> i < |s.jobs| && s'.jobs[i] == s.jobs[i];
        FreshRowsAreNoFailures(s.jobs, s'.jobs[..k], d, s.now);
      }
    }
  }

  /** The sweep enqueues a device at most once: its own first job is then active. */
  lemma {:induction false} HealAddsAtMostOne(s: State, cands: seq<nat>, picks: map<nat, nat>, d: nat)
    ensures var jobs := Heal(s, cands, picks).jobs;
            forall i, k :: |s.jobs| <= i < k < |jobs| ==> !CollectsFor(jobs[i], d) || !CollectsFor(jobs[k], d)
  {
    if cands != [] {
      var init := cands[..|cands| - 1];
      var before := Heal(s, init, picks);
      HealAddsAtMostOne(s, init, picks, d);
      HealAppends(s, init, picks);
      if i :| |s.jobs| <= i < |before.jobs| && CollectsFor(before.jobs[i], d) {
        assert Active(before.jobs[i]) && HasActive(before.jobs, d);
      }
    }
  }

  lemma HealKeepsChain(s: State, cands: seq<nat>, picks: map<nat, nat>, d: nat, from: nat)
    requires RowsInv(s) && Chained(s, d, from) && from <= |s.jobs| && IsCandidateList(s, cands)
    ensures Chained(Heal(s, cands, picks), d, from)
  {
    var s' := Heal(s, cands, picks);
    HealAppends(s, cands, picks);
    if d in cands {
      EligibleFacts(s, d, from);
      HealAddsAtMostOne(s, cands, picks, d);
      FreshRowExtendsChain(s, s', d, from);
    } else {
      AppendKeepsChain(s, s', d, from);
    }
  }

  /** The step is not a scan's or an operator's enqueue of the device. */
  predicate NotEnqueuing(step: Step, d: nat) { step.EnqueueStep? || step.InsertStep? ==> step.device != d }

  ghost predicate NoScanEnqueues(steps: seq<Step>, d: nat) {
    forall k :: 0 <= k < |steps| ==> NotEnqueuing(steps[k], d)
  }

  lemma StepKeepsChain(cap: nat, s: State, step: Step, d: nat, from: nat)
    requires RowsInv(s) && !IsLate(s, step) && Chained(s, d, from) && from <= |s.jobs| && NotEnqueuing(step, d)
    ensures Chained(Apply(cap, s, step), d, from)
  {
    var s' := Apply(cap, s, step);
    if step.PollStep? || step.ResultStep? || step.ReapStep? {
      TimelyStepsMoveActiveRows(cap, s, step);
      RowMoveKeepsChain(s, s', d, from);
    } else if step.HealStep? && IsCandidateList(s, step.cands) {
      HealKeepsChain(s, step.cands, step.picks, d, from);
    } else {
      assert s.jobs <= s'.jobs && forall k :: |s.jobs| <= k < |s'.jobs| ==> !CollectsFor(s'.jobs[k], d);
      AppendKeepsChain(s, s', d, from);
    }
  }

  lemma {:induction false} RunKeepsChain(cap: nat, s: State, steps: seq<Step>, d: nat, from: nat)
    requires CapInv(cap, s) && RowsInv(s) && Timely(cap, s, steps) && Chained(s, d, from) && from <= |s.jobs|
    requires NoScanEnqueues(steps, d)
    ensures Chained(Exec(cap, s, steps), d, from)
    decreases |steps|
  {
    if steps != [] {
      var init := steps[..|steps| - 1];
      RunKeepsChain(cap, s, init, d, from);
      RowsNeverVanish(cap, s, init);
      RunKeepsCapAndRows(cap, s, init);
      StepKeepsChain(cap, Exec(cap, s, init), steps[|steps| - 1], d, from);
    }
  }

  // ----- The window bound -----

  /** A job of the device that was alive at some instant of the day ending at t. */
  ghost predicate AliveIn(j: Job, d: nat, t: int) {
    && CollectsFor(j, d) && j.createdAt <= t
    && (Active(j) || (j.finishedAt.Some? && j.finishedAt.value > t - 86400))
  }

  ghost function AliveJobs(jobs: seq<Job>, d: nat, from: nat, t: int): set<nat> {
    set i | from <= i < |jobs| && AliveIn(jobs[i], d, t)
  }

  /** Those that failed inside the day ending at t. */
  ghost function FailedIn(jobs: seq<Job>, d: nat, from: nat, t: int): set<nat> {
    set i | from <= i < |jobs| && FailedSince(jobs[i], d, t - 86400) && jobs[i].finishedAt.value <= t
  }

  lemma {:induction false} MaxOf(ids: set<nat>) returns (m: nat)
    requires ids != {}
    ensures m in ids && forall i :: i in ids ==> i <= m
  {
    m :| m in ids;
    var rest := ids - {m};
    if rest != {} {
      var m' := MaxOf(rest);
      assert forall i :: i in ids ==> i == m || i in rest;
      m := if m < m' then m' else m;
    } else {
      assert forall i :: i in ids ==> i == m || i in rest;
    }
  }

  lemma WindowBound(s: State, d: nat, from: nat, t: int)
    requires RowsInv(s) && Chained(s, d, from)
    ensures |AliveJobs(s.jobs, d, from, t)| <= HEAL_ROUNDS
  {
    var alive := AliveJobs(s.jobs, d, from, t);
    if alive != {} {
      var m := MaxOf(alive);
      assert Grounded(s.jobs, d, from, m);
      var older := alive - {m};
      var counted := RecentFailures(s.jobs[..m], d, s.jobs[m].createdAt - 86400);
      forall i | i in older
        ensures i in counted
      {
        assert i < m && FailedBy(s.jobs[i], s.jobs[m].createdAt);
        assert FailedSince(s.jobs[i], d, s.jobs[m].createdAt - 86400);
      }
      SubsetCard(older, counted);
    }
  }

  // ----- Dispatches inside the window -----

  ghost predicate Inside(at: int, t: int) { t - 86400 < at <= t }

  ghost function DispatchesIn(cap: nat, s: State, steps: seq<Step>, i: nat, t: int): nat
    decreases |steps|
  {
    if steps == [] then 0
    else
      var init := steps[..|steps| - 1];
      var before := Exec(cap, s, init);
      DispatchesIn(cap, s, init, i, t)
      + if DispatchEdge(before, Exec(cap, s, steps), i) && Inside(before.now, t) then 1 else 0
  }

  /** A job dispatched inside the window is one of the window's alive jobs. */
  lemma {:induction false} DispatchedMeansAlive(cap: nat, s: State, steps: seq<Step>, i: nat, d: nat, t: int)
    requires CapInv(cap, s) && RowsInv(s) && Timely(cap, s, steps) && i < |Exec(cap, s, steps).jobs|
    requires CollectsFor(Exec(cap, s, steps).jobs[i], d)
    ensures DispatchesIn(cap, s, steps, i, t) <= Dispatches(cap, s, steps, i)
    ensures DispatchesIn(cap, s, steps, i, t) > 0 ==>
              Exec(cap, s, steps).now > t - 86400 && AliveIn(Exec(cap, s, steps).jobs[i], d, t)
    decreases |steps|
  {
    if steps != [] {
      var init := steps[..|steps| - 1];
      var before := Exec(cap, s, init);
      RunKeepsCapAndRows(cap, s, init);
      StepMovesRows(cap, before, steps[|steps| - 1]);
      ClockAdvances(cap, before, steps[|steps| - 1]);
      if i < |before.jobs| {
        RowSpendsAllowance(before.jobs[i], Exec(cap, s, steps).jobs[i], before.now);
        DispatchedMeansAlive(cap, s, init, i, d, t);
        assert RowStep(before.jobs[i], Exec(cap, s, steps).jobs[i], before.now);
      } else {
        NoneInsideBeforeCreation(cap, s, init, i, t);
      }
    }
  }

  lemma {:induction false} NoneInsideBeforeCreation(cap: nat, s: State, steps: seq<Step>, i: nat, t: int)
    requires |Exec(cap, s, steps).jobs| <= i
    ensures DispatchesIn(cap, s, steps, i, t) == 0 == Dispatches(cap, s, steps, i)
    decreases |steps|
  {
    if steps != [] {
      var init := steps[..|steps| - 1];
      StepMovesRows(cap, Exec(cap, s, init), steps[|steps| - 1]);
      NoneInsideBeforeCreation(cap, s, init, i, t);
    }
  }

  /** All dispatches inside the day ending at t of the device's jobs from index `from` up to n. */
  ghost function DeviceDispatches(cap: nat, s: State, steps: seq<Step>, d: nat, from: nat, t: int, n: nat): nat
    requires from <= n <= |Exec(cap, s, steps).jobs|
  {
    if n == from then 0
    else
      DeviceDispatches(cap, s, steps, d, from, t, n - 1)
      + if CollectsFor(Exec(cap, s, steps).jobs[n - 1], d) then DispatchesIn(cap, s, steps, n - 1, t) else 0
  }

  /** One job: at most the default number of attempts, and none unless it is alive in the window. */
  lemma JobDispatchesIn(cap: nat, s: State, steps: seq<Step>, d: nat, t: int, i: nat)
    requires CapInv(cap, s) && RowsInv(s) && Timely(cap, s, steps) && i < |Exec(cap, s, steps).jobs|
    requires CollectsFor(Exec(cap, s, steps).jobs[i], d)
    requires i < |s.jobs| && CollectsFor(s.jobs[i], d) ==> s.jobs[i].maxAttempts <= DEFAULT_MAX_ATTEMPTS
    ensures DispatchesIn(cap, s, steps, i, t) <= DEFAULT_MAX_ATTEMPTS
    ensures DispatchesIn(cap, s, steps, i, t) > 0 ==> AliveIn(Exec(cap, s, steps).jobs[i], d, t)
  {
    DispatchedMeansAlive(cap, s, steps, i, d, t);
    DispatchesSpendAllowance(cap, s, steps, i);
    if i < |s.jobs| { RowIdentity(cap, s, steps, i); }
  }

  /** The size of AliveJobs, job by job up to n. */
  ghost function AliveCount(jobs: seq<Job>, d: nat, from: nat, t: int, n: nat): nat
    requires from <= n <= |jobs|
  {
    if n == from then 0 else AliveCount(jobs, d, from, t, n - 1) + if AliveIn(jobs[n - 1], d, t) then 1 else 0
  }

  lemma {:induction false} AliveCountIsCard(jobs: seq<Job>, d: nat, from: nat, t: int, n: nat)
    requires from <= n <= |jobs|
    ensures |set i | from <= i < n && AliveIn(jobs[i], d, t)| == AliveCount(jobs, d, from, t, n)
  {
    var alive := set i | from <= i < n && AliveIn(jobs[i], d, t);
    if n == from {
      assert alive == {};
    } else {
      AliveCountIsCard(jobs, d, from, t, n - 1);
      var before := set i | from <= i < n - 1 && AliveIn(jobs[i], d, t);
      assert alive == if AliveIn(jobs[n - 1], d, t) then before + {n - 1} else before;
    }
  }

  lemma {:induction false} DispatchesPerAliveJob(
    cap: nat, s: State, steps: seq<Step>, d: nat, from: nat, t: int, n: nat
  )
    requires CapInv(cap, s) && RowsInv(s) && Timely(cap, s, steps) && from <= n <= |Exec(cap, s, steps).jobs|
    requires forall i :: from <= i < |s.jobs| && CollectsFor(s.jobs[i], d) ==>
        s.jobs[i].maxAttempts <= DEFAULT_MAX_ATTEMPTS
    ensures DeviceDispatches(cap, s, steps, d, from, t, n)
            <= DEFAULT_MAX_ATTEMPTS * AliveCount(Exec(cap, s, steps).jobs, d, from, t, n)
    decreases n
  {
    if n > from {
      DispatchesPerAliveJob(cap, s, steps, d, from, t, n - 1);
      if CollectsFor(Exec(cap, s, steps).jobs[n - 1], d) { JobDispatchesIn(cap, s, steps, d, t, n - 1); }
    }
  }

  lemma {:induction false} RowIdentity(cap: nat, s: State, steps: seq<Step>, i: nat)
    requires RowsInv(s) && CapInv(cap, s) && i < |s.jobs|
    ensures i < |Exec(cap, s, steps).jobs|
            && Exec(cap, s, steps).jobs[i].kind == s.jobs[i].kind
            && Exec(cap, s, steps).jobs[i].device == s.jobs[i].device
    decreases |steps|
  {
    if steps != [] {
      var init := steps[..|steps| - 1];
      RowIdentity(cap, s, init, i);
      RunKeepsCapAndRows(cap, s, init);
      StepMovesRows(cap, Exec(cap, s, init), steps[|steps| - 1]);
      RowSpendsAllowance(Exec(cap, s, init).jobs[i], Exec(cap, s, steps).jobs[i], Exec(cap, s, init).now);
    }
  }

  /**
    With self-heal the only source of new jobs for a device, any 24-hour window of any run holds at
    most four of its jobs from index `from` on, hence at most four terminal failures and at most
    twenty dispatches of them. From the end of the table this needs nothing of the device's earlier
    history; from its start it covers all jobs of a device whose history is chained.
   */
  lemma SelfHealIsBounded(cap: nat, s: State, steps: seq<Step>, d: nat, from: nat, t: int)
    requires CapInv(cap, s) && RowsInv(s) && Timely(cap, s, steps) && NoScanEnqueues(steps, d)
    requires from <= |s.jobs| && Chained(s, d, from)
    requires forall i :: from <= i < |s.jobs| && CollectsFor(s.jobs[i], d) ==>
        s.jobs[i].maxAttempts <= 5
    ensures var jobs := Exec(cap, s, steps).jobs;
            && from <= |jobs|
            && |AliveJobs(jobs, d, from, t)| <= 4
            && |FailedIn(jobs, d, from, t)| <= 4
            && DeviceDispatches(cap, s, steps, d, from, t, |jobs|) <= 20
  {
    var jobs := Exec(cap, s, steps).jobs;
    RunKeepsCapAndRows(cap, s, steps);
    RowsNeverVanish(cap, s, steps);
    RunKeepsChain(cap, s, steps, d, from);
    WindowBound(Exec(cap, s, steps), d, from, t);
    DispatchesPerAliveJob(cap, s, steps, d, from, t, |jobs|);
    AliveCountIsCard(jobs, d, from, t, |jobs|);
    var failed := FailedIn(jobs, d, from, t);
    forall i | i in failed
      ensures i in AliveJobs(jobs, d, from, t)
    {
      assert RowInv(jobs[i], Exec(cap, s, steps).now);
    }
    SubsetCard(failed, AliveJobs(jobs, d, from, t));
  }

  /** Whatever a device's history, the jobs a run creates for it stay within the bound. */
  lemma NewJobsAreBounded(cap: nat, s: State, steps: seq<Step>, d: nat, t: int)
    requires CapInv(cap, s) && RowsInv(s) && Timely(cap, s, steps) && NoScanEnqueues(steps, d)
    ensures var jobs := Exec(cap, s, steps).jobs;
            && |s.jobs| <= |jobs|
            && |AliveJobs(jobs, d, |s.jobs|, t)| <= 4
            && DeviceDispatches(cap, s, steps, d, |s.jobs|, t, |jobs|) <= 20
  {
    SelfHealIsBounded(cap, s, steps, d, |s.jobs|, t);
  }
}
