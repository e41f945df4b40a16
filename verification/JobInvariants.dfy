/**
  What every step of the queue keeps, and what every run keeps.
 */
module JobInvariants {
  import opened Domain
  import opened JobQueue

  // ----- Every step moves every row along one of five edges -----

  /** The edges of a row's life. `cat` and `status` are whatever the agent reported. */
  ghost predicate RowStep(j: Job, j': Job, now: int) {
    || j' == j
    || (j.status == Queued && (j.nextAt.Some? ==> j.nextAt.value <= now) && j' == Dispatch(j, now))
    || (j.kind == CollectOs && j.attempt + 1 < j.maxAttempts && exists cat :: j' == Requeued(j, cat, now))
    || (exists status, cat :: (status == Done || status == Failed) && j' == Completed(j, status, cat, now))
    || (IsStale(j, now) && j' == Reaped(j, now))
  }

  ghost predicate FreshRow(j: Job, now: int) {
    && j.status == Queued && j.attempt == 0 && j.maxAttempts == DEFAULT_MAX_ATTEMPTS
    && j.nextAt.None? && j.dispatchedAt.None? && j.finishedAt.None? && j.createdAt == now
  }

  ghost predicate TableStep(jobs: seq<Job>, jobs': seq<Job>, now: int) {
    && |jobs| <= |jobs'|
    && (forall i :: 0 <= i < |jobs| ==> RowStep(jobs[i], jobs'[i], now))
    && (forall i :: |jobs| <= i < |jobs'| ==> FreshRow(jobs'[i], now))
  }

  lemma {:induction false} RunnableSpec(jobs: seq<Job>, a: nat, now: int)
    ensures forall k :: k in Runnable(jobs, a, now) <==> 0 <= k < |jobs| && IsRunnable(jobs[k], a, now)
    ensures forall i, k :: 0 <= i < k < |Runnable(jobs, a, now)| ==>
        Runnable(jobs, a, now)[i] < Runnable(jobs, a, now)[k]
  {
    if jobs != [] {
      var init := jobs[..|jobs| - 1];
      RunnableSpec(init, a, now);
      var ready, before := Runnable(jobs, a, now), Runnable(init, a, now);
      assert forall i :: 0 <= i < |before| ==> ready[i] == before[i] && before[i] in before;
    }
  }

  lemma {:induction false} HealAppends(s: State, cands: seq<nat>, picks: map<nat, nat>)
    ensures var s' := Heal(s, cands, picks);
            && s' == s.(jobs := s'.jobs) && s.jobs <= s'.jobs
            && forall i :: |s.jobs| <= i < |s'.jobs| ==>
                 FreshRow(s'.jobs[i], s.now) && s'.jobs[i].kind == CollectOs && s'.jobs[i].device.Some?
                 && s'.jobs[i].device.value in cands
  {
    if cands != [] {
      HealAppends(s, cands[..|cands| - 1], picks);
    }
  }

  lemma StepMovesRows(cap: nat, s: State, step: Step)
    ensures TableStep(s.jobs, Apply(cap, s, step).jobs, s.now)
  {
    match step
    case PollStep(a) =>
      RunnableSpec(s.jobs, a, s.now);
    case HealStep(cands, picks) =>
      HealAppends(s, cands, picks);
    case ResultStep(a, i, rep) =>
      if Apply(cap, s, step).jobs != s.jobs {
        var j := s.jobs[i];
        assert WillRetry(j, rep) ==> Apply(cap, s, step).jobs[i] == Requeued(j, rep.category, s.now);
        assert !WillRetry(j, rep) ==>
          Apply(cap, s, step).jobs[i] == Completed(j, FinalStatus(j, rep), rep.category, s.now);
      }
    case _ =>
  }

  // ----- The invariants -----

  ghost predicate CapInv(cap: nat, s: State) {
    forall a: nat :: |InFlight(s.jobs, a)| <= cap
  }

  /** An active job has an attempt left; a job the reaper gave up on may have spent them all. */
  predicate RowInv(j: Job, now: int) {
    && j.attempt <= j.maxAttempts
    && (Active(j) ==> j.attempt < j.maxAttempts)
    && (j.status == Dispatched ==> j.dispatchedAt.Some? && j.dispatchedAt.value <= now)
    && (j.status == Failed || j.status == Done ==> j.finishedAt.Some?)
    && (j.finishedAt.Some? ==> j.createdAt <= j.finishedAt.value <= now)
    && j.createdAt <= now
  }

  predicate RowsInv(s: State) { forall i :: 0 <= i < |s.jobs| ==> RowInv(s.jobs[i], s.now) }

  /** No device has two active collect jobs. */
  ghost predicate DedupInv(jobs: seq<Job>) {
    forall i, k :: 0 <= i < k < |jobs| && Active(jobs[i]) && Active(jobs[k])
                   && jobs[i].kind == CollectOs && jobs[k].kind == CollectOs && jobs[i].device.Some?
                   ==> jobs[i].device != jobs[k].device
  }

  ghost predicate Inv(cap: nat, s: State) { CapInv(cap, s) && RowsInv(s) && DedupInv(s.jobs) }

  lemma {:induction false} SubsetCard(a: set<nat>, b: set<nat>)
    requires a <= b
    ensures |a| <= |b|
  {
    if a != {} {
      var x :| x in a;
      SubsetCard(a - {x}, b - {x});
    }
  }

  /** A prefix of a strictly rising list: its members come before all others. */
  lemma PrefixComesFirst(ready: seq<nat>, n: nat, i: nat, k: nat)
    requires n <= |ready| && forall x, y :: 0 <= x < y < |ready| ==> ready[x] < ready[y]
    requires i in ready[..n] && k in ready && k !in ready[..n]
    ensures i < k
  {
    var first := ready[..n];
    var x :| 0 <= x < n && first[x] == i;
    var y :| 0 <= y < |ready| && ready[y] == k;
    assert forall z :: 0 <= z < n ==> ready[z] in first;
  }

  /**
    A poll takes the oldest ready jobs, as many as the governor allows; a free slot and a ready
    job always make progress, throttled or not.
   */
  lemma PicksSpec(cap: nat, s: State, a: nat)
    ensures var picks := Picks(cap, s, a);
            && (forall i, k :: 0 <= i < k < |picks| ==> picks[i] < picks[k])
            && (forall k :: k in picks ==> 0 <= k < |s.jobs| && IsRunnable(s.jobs[k], a, s.now))
            && (forall i, k :: i in picks && 0 <= k < |s.jobs| && IsRunnable(s.jobs[k], a, s.now) && k !in picks ==>
              i < k)
            && |InFlight(s.jobs, a)| + |picks| <= Max(cap, |InFlight(s.jobs, a)|)
            && (|InFlight(s.jobs, a)| < cap && (exists k :: 0 <= k < |s.jobs| && IsRunnable(s.jobs[k], a, s.now)) ==>
              picks != [])
  {
    var picks, ready := Picks(cap, s, a), Runnable(s.jobs, a, s.now);
    RunnableSpec(s.jobs, a, s.now);
    assert picks == ready[..|picks|];
    forall k | k in picks
      ensures k in ready
    {
      var n :| 0 <= n < |picks| && picks[n] == k;
      assert ready[n] == k;
    }
    forall i, k | i in picks && 0 <= k < |s.jobs| && IsRunnable(s.jobs[k], a, s.now) && k !in picks
      ensures i < k
    {
      PrefixComesFirst(ready, |picks|, i, k);
    }
    if k :| 0 <= k < |s.jobs| && IsRunnable(s.jobs[k], a, s.now) {
      assert k in ready;
    }
  }

  lemma DispatchFillsSlots(jobs: seq<Job>, picks: seq<nat>, a: nat, now: int)
    requires forall k :: k in picks ==> k < |jobs| && IsRunnable(jobs[k], a, now)
    ensures var after := DispatchAll(jobs, picks, now);
            && InFlight(after, a) == InFlight(jobs, a) + Members(picks)
            && InFlight(jobs, a) !! Members(picks)
            && (forall b: nat :: b != a ==> InFlight(after, b) == InFlight(jobs, b))
  {
  }

  /** A poll adds exactly its picks to its own agent's in-flight set, and nothing to any other's. */
  lemma PollFillsFreeSlots(cap: nat, s: State, a: nat)
    requires Authenticated(s, a)
    ensures var s' := Poll(cap, s, a); var picks := Picks(cap, s, a);
            && InFlight(s'.jobs, a) == InFlight(s.jobs, a) + Members(picks)
            && |InFlight(s'.jobs, a)| == |InFlight(s.jobs, a)| + |picks|
            && |InFlight(s'.jobs, a)| <= Max(cap, |InFlight(s.jobs, a)|)
            && (forall b: nat :: b != a ==> InFlight(s'.jobs, b) == InFlight(s.jobs, b))
  {
    var s', picks := Poll(cap, s, a), Picks(cap, s, a);
    PicksSpec(cap, s, a);
    MembersCard(picks);
    DispatchFillsSlots(s.jobs, picks, a, s.now);
    assert s'.jobs == DispatchAll(s.jobs, picks, s.now);
  }

  /** Only a poll dispatches, so any other step can only shrink an agent's in-flight set. */
  lemma OthersNeverDispatch(cap: nat, s: State, step: Step, a: nat)
    requires !step.PollStep?
    ensures InFlight(Apply(cap, s, step).jobs, a) <= InFlight(s.jobs, a)
  {
    if step.HealStep? {
      HealAppends(s, step.cands, step.picks);
    }
  }

  /** The dispatch cap survives every step, late results included. */
  lemma CapKept(cap: nat, s: State, step: Step)
    requires CapInv(cap, s)
    ensures CapInv(cap, Apply(cap, s, step))
  {
    forall a: nat
      ensures |InFlight(Apply(cap, s, step).jobs, a)| <= cap
    {
      if step.PollStep? && Authenticated(s, step.agent) {
        PollFillsFreeSlots(cap, s, step.agent);
      } else if !step.PollStep? {
        OthersNeverDispatch(cap, s, step, a);
        SubsetCard(InFlight(Apply(cap, s, step).jobs, a), InFlight(s.jobs, a));
      }
    }
  }

  lemma ClockAdvances(cap: nat, s: State, step: Step)
    ensures s.now <= Apply(cap, s, step).now
  {
    if step.HealStep? {
      HealAppends(s, step.cands, step.picks);
    }
  }

  lemma RowKept(j: Job, j': Job, now: int, now': int)
    requires RowInv(j, now) && RowStep(j, j', now) && now <= now'
    ensures RowInv(j', now')
  {
  }

  /** Attempt and timestamp bookkeeping survives every step, late results included. */
  lemma RowsKept(cap: nat, s: State, step: Step)
    requires RowsInv(s)
    ensures RowsInv(Apply(cap, s, step))
  {
    var s' := Apply(cap, s, step);
    StepMovesRows(cap, s, step);
    ClockAdvances(cap, s, step);
    forall i | 0 <= i < |s'.jobs|
      ensures RowInv(s'.jobs[i], s'.now)
    {
      if i < |s.jobs| {
        RowKept(s.jobs[i], s'.jobs[i], s.now, s'.now);
      } else {
        assert FreshRow(s'.jobs[i], s.now);
      }
    }
  }

  /**
    An attempt reaches the maximum in exactly one way: the reaper gives up on a stale collect job in
    its last attempt. A result that settles a job leaves the attempt where it is.
   */
  lemma MaximumReachedExactly(cap: nat, s: State, step: Step, i: nat)
    requires RowsInv(s) && i < |s.jobs| && s.jobs[i].attempt < s.jobs[i].maxAttempts
    ensures i < |Apply(cap, s, step).jobs|
    ensures Apply(cap, s, step).jobs[i].attempt == s.jobs[i].maxAttempts <==>
            step.ReapStep? && IsStale(s.jobs[i], s.now) && s.jobs[i].attempt + 1 == s.jobs[i].maxAttempts
  {
    StepMovesRows(cap, s, step);
    match step
    case PollStep(a) => PicksSpec(cap, s, a);
    case HealStep(cands, picks) => HealAppends(s, cands, picks);
    case _ =>
  }

  /** Once reached it stays: the job is settled and no later step, late results included, counts on. */
  lemma MaximumStays(cap: nat, s: State, step: Step, i: nat)
    requires RowsInv(s) && i < |s.jobs| && s.jobs[i].attempt == s.jobs[i].maxAttempts
    ensures i < |Apply(cap, s, step).jobs|
    ensures var j := Apply(cap, s, step).jobs[i]; j.attempt == j.maxAttempts == s.jobs[i].maxAttempts && !Active(j)
  {
    StepMovesRows(cap, s, step);
    RowsKept(cap, s, step);
    assert RowInv(s.jobs[i], s.now) && RowStep(s.jobs[i], Apply(cap, s, step).jobs[i], s.now);
  }

  // ----- Dedup, and exactly when a late result breaks it -----

  lemma EnqueueKeepsDedup(s: State, d: nat, p: Protocol, pick: Option<nat>)
    requires DedupInv(s.jobs)
    ensures DedupInv(Enqueue(s, d, p, pick).jobs)
  {
  }

  lemma {:induction false} HealKeepsDedup(s: State, cands: seq<nat>, picks: map<nat, nat>)
    requires DedupInv(s.jobs)
    ensures DedupInv(Heal(s, cands, picks).jobs)
  {
    if cands != [] {
      HealKeepsDedup(s, cands[..|cands| - 1], picks);
      var d := cands[|cands| - 1];
      EnqueueKeepsDedup(Heal(s, cands[..|cands| - 1], picks), d, Winrm, if d in picks then Some(picks[d]) else None);
    }
  }

  /** Another active collect job of the same device. */
  ghost predicate Rival(jobs: seq<Job>, i: nat, k: nat) {
    i < |jobs| && k < |jobs| && k != i && jobs[i].kind == CollectOs && jobs[k].kind == CollectOs
    && jobs[i].device.Some? && jobs[k].device == jobs[i].device && Active(jobs[k])
  }

  /** An accepted result that requeues a job which has a rival; the job itself is then not active. */
  ghost predicate Revives(s: State, step: Step) {
    && step.ResultStep? && Authenticated(s, step.agent) && step.job < |s.jobs| && s.jobs[step.job].agent == step.agent
    && WillRetry(s.jobs[step.job], step.report)
    && exists k: nat :: Rival(s.jobs, step.job, k)
  }

  /**
    Any step keeps the rule of one active collect job per device, except in exactly two ways: a late
    result that revives a job beside another active one, and an insert that races another enqueue.
   */
  lemma DedupKeptExactly(cap: nat, s: State, step: Step)
    requires DedupInv(s.jobs)
    ensures DedupInv(Apply(cap, s, step).jobs) <==> !Revives(s, step) && !IsRace(s, step)
  {
    var s' := Apply(cap, s, step);
    match step
    case EnqueueStep(d, p, pick) =>
      EnqueueKeepsDedup(s, d, p, pick);
    case InsertStep(d, a, p, pick) =>
      InsertDedup(s, d, a, p, pick);
    case HealStep(cands, picks) =>
      if IsCandidateList(s, cands) { HealKeepsDedup(s, cands, picks); }
    case ResultStep(a, i, rep) =>
      ResultDedup(s, a, i, rep);
    case PollStep(a) =>
      RunnableSpec(s.jobs, a, s.now);
      NothingRevived(s.jobs, s'.jobs);
    case ReapStep =>
      NothingRevived(s.jobs, s'.jobs);
    case _ =>
  }

  /** An insert keeps the rule exactly when the device has no active job at that moment. */
  lemma InsertDedup(s: State, d: nat, a: nat, p: Protocol, pick: Option<nat>)
    requires DedupInv(s.jobs)
    ensures DedupInv(Insert(s, d, a, p, pick).jobs) <==>
            !(a < |s.agents| && d in s.devices && HasActive(s.jobs, d))
  {
    var jobs' := Insert(s, d, a, p, pick).jobs;
    if a < |s.agents| && d in s.devices && HasActive(s.jobs, d) {
      var i :| 0 <= i < |s.jobs| && CollectsFor(s.jobs[i], d) && Active(s.jobs[i]);
      var n := |s.jobs|;
      assert jobs'[i] == s.jobs[i] && Active(jobs'[n]) && jobs'[n].device == jobs'[i].device;
    }
  }

  /** A step that revives no job keeps the rule. */
  lemma NothingRevived(jobs: seq<Job>, jobs': seq<Job>)
    requires DedupInv(jobs) && |jobs'| == |jobs|
    requires forall k :: 0 <= k < |jobs| ==>
               (Active(jobs'[k]) ==> Active(jobs[k])) && jobs'[k].device == jobs[k].device
                 && jobs'[k].kind == jobs[k].kind
    ensures DedupInv(jobs')
  {
  }

  lemma ResultDedup(s: State, a: nat, i: nat, rep: Report)
    requires DedupInv(s.jobs)
    ensures DedupInv(Result(s, a, i, rep).jobs) <==>
            !(Authenticated(s, a) && i < |s.jobs| && s.jobs[i].agent == a
              && WillRetry(s.jobs[i], rep) && exists k: nat :: Rival(s.jobs, i, k))
  {
    var jobs' := Result(s, a, i, rep).jobs;
    if Authenticated(s, a) && i < |s.jobs| && s.jobs[i].agent == a && WillRetry(s.jobs[i], rep)
      && (exists k: nat :: Rival(s.jobs, i, k)) {
      var k: nat :| Rival(s.jobs, i, k);
      var lo, hi := if i < k then i else k, if i < k then k else i;
      assert jobs'[i] == Requeued(s.jobs[i], rep.category, s.now) && jobs'[k] == s.jobs[k];
      assert Active(jobs'[lo]) && Active(jobs'[hi]) && jobs'[lo].device == jobs'[hi].device;
    } else if jobs' != s.jobs {
      forall x, y | 0 <= x < y < |jobs'| && Active(jobs'[x]) && Active(jobs'[y])
                    && jobs'[x].kind == CollectOs && jobs'[y].kind == CollectOs && jobs'[x].device.Some?
        ensures jobs'[x].device != jobs'[y].device
      {
        if jobs'[x].device == jobs'[y].device {
          var other := if x == i then y else x;
          assert x == i || y == i;
          assert Rival(s.jobs, i, other);
          assert false;
        }
      }
    }
  }

  /** A result for a dispatched job never breaks the rule: the job itself was the device's active one. */
  lemma TimelyResultHasNoRival(jobs: seq<Job>, i: nat)
    requires DedupInv(jobs) && i < |jobs| && Active(jobs[i])
    ensures !exists k: nat :: Rival(jobs, i, k)
  {
  }

  lemma StepKeepsInv(cap: nat, s: State, step: Step)
    requires Inv(cap, s) && !IsLate(s, step) && !IsRace(s, step)
    ensures Inv(cap, Apply(cap, s, step))
  {
    CapKept(cap, s, step);
    RowsKept(cap, s, step);
    DedupKeptExactly(cap, s, step);
    if step.ResultStep? && step.job < |s.jobs| {
      TimelyResultHasNoRival(s.jobs, step.job);
    }
  }

  // ----- Runs -----

  ghost predicate Timely(cap: nat, s: State, steps: seq<Step>)
    decreases |steps|
  {
    steps == [] ||
    (Timely(cap, s, steps[..|steps| - 1]) && !IsLate(Exec(cap, s, steps[..|steps| - 1]), steps[|steps| - 1]))
  }

  ghost predicate Unraced(cap: nat, s: State, steps: seq<Step>)
    decreases |steps|
  {
    steps == [] ||
    (Unraced(cap, s, steps[..|steps| - 1]) && !IsRace(Exec(cap, s, steps[..|steps| - 1]), steps[|steps| - 1]))
  }

  /** Safety over whole runs: dispatch cap, attempt bound and one active job per device. */
  lemma {:induction false} RunKeepsInv(cap: nat, s: State, steps: seq<Step>)
    requires Inv(cap, s) && Timely(cap, s, steps) && Unraced(cap, s, steps)
    ensures Inv(cap, Exec(cap, s, steps))
    decreases |steps|
  {
    if steps != [] {
      RunKeepsInv(cap, s, steps[..|steps| - 1]);
      StepKeepsInv(cap, Exec(cap, s, steps[..|steps| - 1]), steps[|steps| - 1]);
    }
  }

  /** The cap and the attempt bound need no assumption about late results or racing inserts. */
  lemma {:induction false} RunKeepsCapAndRows(cap: nat, s: State, steps: seq<Step>)
    requires CapInv(cap, s) && RowsInv(s)
    ensures CapInv(cap, Exec(cap, s, steps)) && RowsInv(Exec(cap, s, steps))
    decreases |steps|
  {
    if steps != [] {
      RunKeepsCapAndRows(cap, s, steps[..|steps| - 1]);
      CapKept(cap, Exec(cap, s, steps[..|steps| - 1]), steps[|steps| - 1]);
      RowsKept(cap, Exec(cap, s, steps[..|steps| - 1]), steps[|steps| - 1]);
    }
  }
}
