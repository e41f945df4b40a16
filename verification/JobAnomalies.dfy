/**
  Places where the queue does less than its comments promise, each shown on a run: a late result or
  two scans at once can give a device two active jobs, the reaper can spend a job's last attempt, and
  it leaves an orphaned test job holding a dispatch slot.
 */
module JobAnomalies {
  import opened Domain
  import opened JobQueue
  import opened JobInvariants

  lemma ExecSnoc(cap: nat, s: State, steps: seq<Step>, step: Step)
    ensures Exec(cap, s, steps + [step]) == Apply(cap, Exec(cap, s, steps), step)
  {
    assert (steps + [step])[..|steps|] == steps;
  }

  /** A poll of an agent with nothing in flight hands out its single ready job. */
  lemma PollSingle(s: State, a: nat)
    requires Authenticated(s, a) && |s.jobs| == 1 && IsRunnable(s.jobs[0], a, s.now)
    ensures Poll(8, s, a).jobs == [Dispatch(s.jobs[0], s.now)]
    ensures Poll(8, s, a) == s.(jobs := [Dispatch(s.jobs[0], s.now)], agents := Poll(8, s, a).agents)
    ensures Poll(8, s, a).agents == s.agents[a := s.agents[a].(online := true, heartbeat := Some(s.now))]
  {
    assert InFlight(s.jobs, a) == {};
    assert LoadBackoff(s.jobs, a, s.now) == {};
    assert s.jobs[..0] == [];
    assert Runnable(s.jobs, a, s.now) == [0];
  }

  const OK := Report(true, Success, Persisted, Some(1), [])
  const TIMEOUT := Report(false, ConnectTimeout, NoReport, None, [])

  lemma {:induction false} ExecConcat(cap: nat, s: State, a: seq<Step>, b: seq<Step>)
    ensures Exec(cap, s, a + b) == Exec(cap, Exec(cap, s, a), b)
    decreases |b|
  {
    if b == [] {
      assert a + b == a;
    } else {
      var init := b[..|b| - 1];
      ExecConcat(cap, s, a, init);
      assert a + b == (a + init) + [b[|b| - 1]];
      ExecSnoc(cap, s, a + init, b[|b| - 1]);
    }
  }

  lemma ExecTwo(cap: nat, s: State, x: Step, y: Step)
    ensures Exec(cap, s, [x, y]) == Apply(cap, Apply(cap, s, x), y)
  {
    ExecSnoc(cap, s, [x], y);
    ExecSnoc(cap, s, [], x);
    assert [x, y] == [x] + [y] && [] + [x] == [x];
  }

  /** Reaping a queue of one stale job puts it back with one more attempt. */
  lemma ReapSingle(s: State)
    requires |s.jobs| == 1 && s.jobs[0].kind == CollectOs && IsStale(s.jobs[0], s.now)
    requires s.jobs[0].attempt + 1 < s.jobs[0].maxAttempts
    ensures Reap(s).jobs == [Reaped(s.jobs[0], s.now)] && Reap(s) == s.(jobs := Reap(s).jobs)
  {
  }

  /** A dispatched job sits past the stale limit and goes back to the queue. */
  lemma SlowRunIsReaped(s: State)
    requires |s.jobs| == 1 && Authenticated(s, 0)
    requires s.jobs[0] == NewJob(0, Some(7), None, CollectOs, Winrm, s.now)
    ensures var s' := Exec(8, Exec(8, s, [PollStep(0), TickStep(481)]), [ReapStep, PollStep(0)]);
            && s'.jobs == [Dispatch(s.jobs[0].(attempt := 1, nextAt := Some(s.now + 481)), s.now + 481)]
            && s'.devices == s.devices && s'.now == s.now + 481
            && s'.agents == s.agents[0 := s.agents[0].(online := true, heartbeat := Some(s.now + 481))]
  {
    DispatchedAndForgotten(s);
    var s2 := Exec(8, s, [PollStep(0), TickStep(481)]);
    ReapedAndPolled(s2, s.jobs[0]);
    assert s.agents[0 := s2.agents[0]] == s2.agents;
  }

  lemma DispatchedAndForgotten(s: State)
    requires |s.jobs| == 1 && Authenticated(s, 0) && IsRunnable(s.jobs[0], 0, s.now)
    ensures Exec(8, s, [PollStep(0), TickStep(481)])
         == s.(jobs := [Dispatch(s.jobs[0], s.now)], now := s.now + 481,
               agents := s.agents[0 := s.agents[0].(online := true, heartbeat := Some(s.now))])
  {
    PollSingle(s, 0);
    PollThenTick(s, Poll(8, s, 0));
  }

  lemma PollThenTick(s: State, t: State)
    requires Poll(8, s, 0) == t
    ensures Exec(8, s, [PollStep(0), TickStep(481)]) == t.(now := t.now + 481)
  {
    ExecTwo(8, s, PollStep(0), TickStep(481));
  }

  lemma ReapThenPoll(s: State, t: State)
    requires Reap(s) == t
    ensures Exec(8, s, [ReapStep, PollStep(0)]) == Poll(8, t, 0)
  {
    ExecTwo(8, s, ReapStep, PollStep(0));
  }

  lemma ReapedAndPolled(s: State, j: Job)
    requires Authenticated(s, 0) && s.jobs == [Dispatch(j, s.now - 481)]
    requires j.kind == CollectOs && j.agent == 0 && j.attempt + 1 < j.maxAttempts
    ensures var s' := Exec(8, s, [ReapStep, PollStep(0)]);
            && s'.jobs == [Dispatch(j.(attempt := j.attempt + 1, nextAt := Some(s.now)), s.now)]
            && s'.devices == s.devices && s'.now == s.now
            && s'.agents == s.agents[0 := s.agents[0].(online := true, heartbeat := Some(s.now))]
  {
    var back := j.(status := Queued, attempt := j.attempt + 1, dispatchedAt := None, nextAt := Some(s.now));
    var t := s.(jobs := [back]);
    assert Reap(s) == t by { ReapSingle(s); }
    ReapThenPoll(s, t);
    PollSingle(t, 0);
  }

  // ----- An agent that never answers -----

  const CYCLE := [PollStep(0), TickStep(481), ReapStep]

  /** n times: hand out, wait past the stale limit, reap. */
  function Cycles(n: nat): seq<Step> { if n == 0 then [] else Cycles(n - 1) + CYCLE }

  lemma OneCycle(s: State)
    requires |s.jobs| == 1 && Authenticated(s, 0) && IsRunnable(s.jobs[0], 0, s.now) && s.jobs[0].kind == CollectOs
    ensures var s' := Exec(8, s, CYCLE);
            && s'.jobs == [Reaped(Dispatch(s.jobs[0], s.now), s.now + 481)]
            && Authenticated(s', 0) && s'.now == s.now + 481
  {
    DispatchedAndForgotten(s);
    var t := Exec(8, s, [PollStep(0), TickStep(481)]);
    ExecSnoc(8, s, [PollStep(0), TickStep(481)], ReapStep);
    assert CYCLE == [PollStep(0), TickStep(481)] + [ReapStep];
    assert IsStale(t.jobs[0], t.now);
  }

  lemma {:induction false} CyclesCountAttempts(s: State, n: nat)
    requires |s.jobs| == 1 && Authenticated(s, 0) && s.jobs[0] == NewJob(0, Some(7), None, CollectOs, Winrm, s.now)
    requires n <= DEFAULT_MAX_ATTEMPTS
    ensures var s' := Exec(8, s, Cycles(n));
            && |s'.jobs| == 1 && Authenticated(s', 0) && s'.jobs[0].kind == CollectOs
            && s'.jobs[0].attempt == n && s'.jobs[0].maxAttempts == DEFAULT_MAX_ATTEMPTS
            && (n < DEFAULT_MAX_ATTEMPTS ==> IsRunnable(s'.jobs[0], 0, s'.now))
            && (n == DEFAULT_MAX_ATTEMPTS ==> s'.jobs[0].status == Failed)
  {
    if n > 0 {
      CyclesCountAttempts(s, n - 1);
      OneCycle(Exec(8, s, Cycles(n - 1)));
      ExecConcat(8, s, Cycles(n - 1), CYCLE);
    }
  }

  /** From an empty queue: five unanswered hand-outs leave a failed job whose attempt is its maximum. */
  lemma UnansweredJobSpendsAll() returns (s: State, steps: seq<Step>)
    ensures s.jobs == [] && Inv(8, s)
    ensures var jobs := Exec(8, s, steps).jobs;
            |jobs| == 1 && jobs[0].status == Failed && jobs[0].attempt == jobs[0].maxAttempts
  {
    s := OneAgentSite();
    EnqueueFirst(s);
    var first := EnqueueStep(7, Winrm, None);
    CyclesCountAttempts(Exec(8, s, [first]), DEFAULT_MAX_ATTEMPTS);
    steps := [first] + Cycles(DEFAULT_MAX_ATTEMPTS);
    ExecConcat(8, s, [first], Cycles(DEFAULT_MAX_ATTEMPTS));
  }

  /** One site with one online agent, one Windows device, and an empty queue. */
  function OneAgentSite(): (s: State)
    ensures s.jobs == [] && s.now == 0 && Authenticated(s, 0) && s.agents[0].location == Some(0)
    ensures 7 in s.devices && s.devices[7].location == Some(0)
    ensures Inv(8, s)
  {
    var site, device := Agent(Some(0), true, true, Some(0)), Device(Some(0), None, Endpoint, Windows, true);
    var s := State(0, [site], map[7 := device], [], {}, []);
    assert forall a: nat :: InFlight(s.jobs, a) == {};
    s
  }

  lemma EnqueueFirst(s: State)
    requires s == OneAgentSite()
    ensures RouteFor(s, 7) == Enqueued(0)
    ensures Exec(8, s, [EnqueueStep(7, Winrm, None)]) == s.(jobs := [NewJob(0, Some(7), None, CollectOs, Winrm, 0)])
  {
    assert InPool(s.agents[0], OnlineStatus, 0) && RouteFor(s, 7) == Enqueued(0);
    ExecSnoc(8, s, [], EnqueueStep(7, Winrm, None));
    assert [] + [EnqueueStep(7, Winrm, None)] == [EnqueueStep(7, Winrm, None)];
  }

  // ----- Two scans at once -----

  /** Both scans find the device without an active job, and then both insert. */
  lemma RacingScansBreakDedup() returns (s: State, steps: seq<Step>)
    ensures s.jobs == [] && Inv(8, s) && 7 in s.devices && RouteFor(s, 7) == Enqueued(0)
    ensures steps == [InsertStep(7, 0, Winrm, None), InsertStep(7, 0, Winrm, None)] && Timely(8, s, steps)
    ensures !DedupInv(Exec(8, s, steps).jobs)
  {
    s := OneAgentSite();
    EnqueueFirst(s);
    var insert := InsertStep(7, 0, Winrm, None);
    steps := [insert, insert];
    ExecTwo(8, s, insert, insert);
    assert steps[..1] == [insert] && [insert][..0] == [];
    TwoActive(Exec(8, s, steps).jobs);
  }

  // ----- An agent that answers twice -----

  /** A result for a single job of one's own. */
  lemma OkFinishesSingle(s: State)
    requires |s.jobs| == 1 && Authenticated(s, 0) && s.jobs[0].agent == 0 && CollectsFor(s.jobs[0], 7) && 7 in s.devices
    ensures var s' := Result(s, 0, 0, OK);
            && s'.jobs == [Completed(s.jobs[0], Done, Success, s.now)] && s'.agents == s.agents && s'.now == s.now
            && 7 in s'.devices && s'.devices[7].location == s.devices[7].location
  {
  }

  /** Success, a new scan, then the first run's timeout: the finished job is revived beside the new one. */
  lemma LateTimeoutRevives(s: State)
    requires |s.jobs| == 1 && Authenticated(s, 0) && s.agents[0].location == Some(0)
    requires 7 in s.devices && s.devices[7].location == Some(0)
    requires s.jobs[0].agent == 0 && CollectsFor(s.jobs[0], 7) && s.jobs[0].attempt + 1 < s.jobs[0].maxAttempts
    ensures var s2 := Exec(8, s, [ResultStep(0, 0, OK), EnqueueStep(7, Winrm, None)]);
            !DedupInv(Exec(8, s2, [ResultStep(0, 0, TIMEOUT)]).jobs)
  {
    ExecTwo(8, s, ResultStep(0, 0, OK), EnqueueStep(7, Winrm, None));
    OkFinishesSingle(s);
    var s1 := Result(s, 0, 0, OK);
    ScanEnqueuesAgain(s1);
    var s2 := Enqueue(s1, 7, Winrm, None);
    TimeoutRequeues(s2);
    TwoActive(Exec(8, s2, [ResultStep(0, 0, TIMEOUT)]).jobs);
  }

  /** The result handler requeues on a timeout whatever the job's status. */
  lemma TimeoutRequeues(s: State)
    requires |s.jobs| == 2 && Authenticated(s, 0)
    requires s.jobs[0].agent == 0 && s.jobs[0].kind == CollectOs && s.jobs[0].attempt + 1 < s.jobs[0].maxAttempts
    ensures Exec(8, s, [ResultStep(0, 0, TIMEOUT)]).jobs == [Requeued(s.jobs[0], ConnectTimeout, s.now), s.jobs[1]]
  {
    ExecSnoc(8, s, [], ResultStep(0, 0, TIMEOUT));
    assert [] + [ResultStep(0, 0, TIMEOUT)] == [ResultStep(0, 0, TIMEOUT)];
  }

  lemma ScanEnqueuesAgain(s: State)
    requires |s.jobs| == 1 && !Active(s.jobs[0]) && 7 in s.devices && s.devices[7].location == Some(0)
    requires Authenticated(s, 0) && s.agents[0].location == Some(0)
    ensures var s' := Enqueue(s, 7, Winrm, None);
            && s' == s.(jobs := s'.jobs) && |s'.jobs| == 2 && s'.jobs[0] == s.jobs[0]
            && Active(s'.jobs[1]) && CollectsFor(s'.jobs[1], 7)
  {
    assert InPool(s.agents[0], Assigned, 0);
  }

  lemma TwoActive(jobs: seq<Job>)
    requires |jobs| == 2 && Active(jobs[0]) && Active(jobs[1])
    requires CollectsFor(jobs[0], 7) && CollectsFor(jobs[1], 7)
    ensures !DedupInv(jobs)
  {
    assert jobs[0].device == jobs[1].device;
  }

  /**
    The agent answers twice for one job: a slow first run is reaped and re-dispatched, the second
    run succeeds, a new scan enqueues the device again, and then the first run's timeout arrives.
    From an empty queue this leaves the device with two active collect jobs.
   */
  lemma LateResultBreaksDedup() returns (s: State, steps: seq<Step>)
    ensures s.jobs == [] && Inv(8, s)
    ensures !DedupInv(Exec(8, s, steps).jobs)
  {
    s := OneAgentSite();
    EnqueueFirst(s);
    var s1 := Exec(8, s, [EnqueueStep(7, Winrm, None)]);
    SlowRunIsReaped(s1);
    var s2 := Exec(8, Exec(8, s1, [PollStep(0), TickStep(481)]), [ReapStep, PollStep(0)]);
    LateTimeoutRevives(s2);
    steps := [EnqueueStep(7, Winrm, None)];
    ExecConcat(8, s, steps, [PollStep(0), TickStep(481)]);
    steps := steps + [PollStep(0), TickStep(481)];
    ExecConcat(8, s, steps, [ReapStep, PollStep(0)]);
    steps := steps + [ReapStep, PollStep(0)];
    ExecConcat(8, s, steps, [ResultStep(0, 0, OK), EnqueueStep(7, Winrm, None)]);
    steps := steps + [ResultStep(0, 0, OK), EnqueueStep(7, Winrm, None)];
    ExecConcat(8, s, steps, [ResultStep(0, 0, TIMEOUT)]);
    steps := steps + [ResultStep(0, 0, TIMEOUT)];
  }

  /** Exactly which jobs a reap takes out of flight: the stale collect jobs, and no test job. */
  lemma ReapFreesStaleCollectJobs(s: State, a: nat)
    requires RowsInv(s)
    ensures InFlight(Reap(s).jobs, a) == set i | i in InFlight(s.jobs, a)
              && (s.jobs[i].kind == TestJob || s.now - STALE_AFTER <= s.jobs[i].dispatchedAt.value)
  {
    forall i | i in InFlight(s.jobs, a)
      ensures i in InFlight(Reap(s).jobs, a) <==>
          s.jobs[i].kind == TestJob || s.now - STALE_AFTER <= s.jobs[i].dispatchedAt.value
    {
      assert RowInv(s.jobs[i], s.now);
    }
  }

  ghost predicate NoResultFor(steps: seq<Step>, i: nat) {
    forall k :: 0 <= k < |steps| && steps[k].ResultStep? ==> steps[k].job != i
  }

  /** A dispatched test job whose agent died stays in flight through every run that brings no result for it. */
  lemma {:induction false} OrphanedTestJobHoldsSlot(cap: nat, s: State, steps: seq<Step>, i: nat)
    requires i < |s.jobs| && s.jobs[i].kind == TestJob && s.jobs[i].status == Dispatched && NoResultFor(steps, i)
    ensures i in InFlight(Exec(cap, s, steps).jobs, s.jobs[i].agent)
    ensures Exec(cap, s, steps).jobs[i] == s.jobs[i]
    decreases |steps|
  {
    if steps != [] {
      var init, step := steps[..|steps| - 1], steps[|steps| - 1];
      OrphanedTestJobHoldsSlot(cap, s, init, i);
      var before := Exec(cap, s, init);
      match step
      case PollStep(a) => PicksSpec(cap, before, a);
      case HealStep(cands, picks) => HealAppends(before, cands, picks);
      case _ =>
    }
  }
}
