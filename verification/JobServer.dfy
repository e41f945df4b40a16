/**
  The handlers in the form the server runs them: an object whose methods update its tables, loops
  that mark jobs one by one. Each is proved against its step of the queue.
 */
module JobServer {
  import opened Domain
  import opened JobQueue
  import opened JobInvariants

  lemma MarkOneMore(jobs: seq<Job>, picks: seq<nat>, k: nat, now: int)
    requires k < |jobs|
    ensures var marked := DispatchAll(jobs, picks, now);
            DispatchAll(jobs, picks + [k], now) == marked[k := Dispatch(marked[k], now)]
  {
  }

  /** When its turn comes, a candidate still has no active job. */
  lemma StillIdle(s: State, cands: seq<nat>, picks: map<nat, nat>, k: nat)
    requires IsCandidateList(s, cands) && k < |cands|
    ensures cands[k] in s.devices && !HasActive(Heal(s, cands[..k], picks).jobs, cands[k])
  {
    HealAppends(s, cands[..k], picks);
    assert Eligible(s, cands[k]) && cands[k] !in cands[..k];
  }

  /** One more candidate: one enqueue, which adds a job unless the site has no agent. */
  lemma HealOneMore(s: State, cands: seq<nat>, picks: map<nat, nat>, k: nat)
    requires IsCandidateList(s, cands) && k < |cands|
    ensures var before, d := Heal(s, cands[..k], picks), cands[k];
            && d in before.devices
            && Heal(s, cands[..k + 1], picks) == Enqueue(before, d, Winrm, if d in picks then Some(picks[d]) else None)
            && |Heal(s, cands[..k + 1], picks).jobs| ==
               |before.jobs| + if RouteFor(before, d).AgentMissing? then 0 else 1
  {
    assert cands[..k + 1][..k] == cands[..k];
    HealAppends(s, cands[..k], picks);
    StillIdle(s, cands, picks, k);
  }

  class Server {
    const cap: nat
    var now: int
    var agents: seq<Agent>
    var devices: map<nat, Device>
    var jobs: seq<Job>
    var inventory: set<nat>
    var tests: seq<TestRow>

    function View(): State
      reads this
    {
      State(now, agents, devices, jobs, inventory, tests)
    }

    constructor (env: Option<int>, start: State)
      ensures View() == start && cap == DispatchCap(env)
    {
      cap := DispatchCap(env);
      now, agents, devices, jobs, inventory, tests :=
        start.now, start.agents, start.devices, start.jobs, start.inventory, start.tests;
    }

    /** assignedSiteAgent: a scan of the agent list with a running best. */
    method AssignedSiteAgent(loc: nat) returns (best: nat, found: bool)
      ensures Newest(agents, Assigned, loc) == if found then Some(best) else None
    {
      best, found := 0, false;
      for k := 0 to |agents|
        invariant Newest(agents[..k], Assigned, loc) == if found then Some(best) else None
      {
        var a := agents[k];
        assert agents[..k + 1][..k] == agents[..k];
        if a.location == Some(loc) && a.enabled {
          if !found || HbAfter(a.heartbeat, agents[best].heartbeat) {
            best, found := k, true;
          }
        }
      }
      assert agents[..|agents|] == agents;
    }

    /** routeViaSiteAgent for a known device. */
    method RouteViaSiteAgent(d: nat, p: Protocol, pick: Option<nat>) returns (out: RouteOutcome)
      requires d in devices
      modifies this`jobs
      ensures View() == Enqueue(old(View()), d, p, pick)
      ensures out == RouteFor(old(View()), d)
    {
      if devices[d].location.None? {
        return AgentMissing;
      }
      var loc := devices[d].location.value;
      var target;
      var online := Newest(agents, OnlineStatus, loc);
      if online.Some? && AgentOnline(agents[online.value], now) {
        target := online.value;
      } else {
        var best, found := AssignedSiteAgent(loc);
        if !found {
          return AgentMissing;
        }
        target := best;
      }
      if HasActive(jobs, d) {
        return AlreadyQueued(target);
      }
      jobs := jobs + [NewJob(target, Some(d), pick, CollectOs, p, now)];
      out := Enqueued(target);
    }

    /** agentPollJobs: heartbeat, budget, then hand out and mark the ready jobs one at a time. */
    method PollJobs(a: nat) returns (out: seq<nat>)
      modifies this`agents, this`jobs
      ensures View() == Poll(cap, old(View()), a)
      ensures out == if Authenticated(old(View()), a) then Picks(cap, old(View()), a) else []
    {
      out := [];
      if a >= |agents| || !agents[a].enabled {
        return;
      }
      agents := agents[a := agents[a].(online := true, heartbeat := Some(now))];
      var budget := AdaptiveBudget(cap, |InFlight(jobs, a)|, |LoadBackoff(jobs, a, now)|);
      if budget == 0 {
        assert jobs == DispatchAll(jobs, [], now);
        return;
      }
      var rows := Runnable(jobs, a, now);
      if |rows| > budget {
        rows := rows[..budget];
      }
      PicksSpec(cap, old(View()), a);
      assert forall k :: 0 <= k < |rows| ==> rows[k] in rows;
      out := HandOut(rows);
    }

    /** The poll's loop: each row is added to the answer and marked. */
    method HandOut(rows: seq<nat>) returns (out: seq<nat>)
      requires forall k :: 0 <= k < |rows| ==> rows[k] < |jobs|
      modifies this`jobs
      ensures out == rows && jobs == DispatchAll(old(jobs), rows, now)
    {
      out := [];
      for k := 0 to |rows|
        invariant out == rows[..k]
        invariant jobs == DispatchAll(old(jobs), rows[..k], now)
      {
        MarkOneMore(old(jobs), rows[..k], rows[k], now);
        assert rows[..k + 1] == rows[..k] + [rows[k]];
        out := out + [rows[k]];
        jobs := jobs[rows[k] := Dispatch(jobs[rows[k]], now)];
      }
      assert rows[..|rows|] == rows;
    }

    /** agentJobResult. */
    method JobResult(a: nat, i: nat, rep: Report)
      modifies this`jobs, this`devices, this`inventory, this`tests
      ensures View() == Result(old(View()), a, i, rep)
    {
      if a >= |agents| || !agents[a].enabled || i >= |jobs| || jobs[i].agent != a {
        return;
      }
      var j := jobs[i];
      var winner := if rep.winner.Some? then rep.winner else j.cred;
      var status := Failed;
      if rep.success {
        status := Done;
        if j.kind == CollectOs && j.device.Some? && rep.inventory != NoReport {
          if rep.inventory == Persisted {
            inventory := inventory + {j.device.value};
            if j.device.value in devices {
              devices := devices[j.device.value := devices[j.device.value].(up := true)];
              if winner.Some? {
                devices := devices[j.device.value := devices[j.device.value].(cred := winner)];
              }
            }
          } else {
            status := Failed;
          }
        }
      }
      if status == Failed && j.kind == CollectOs && Retryable(rep.category) && j.attempt + 1 < j.maxAttempts {
        jobs := jobs[i := Requeued(j, rep.category, now)];
        return;
      }
      tests := tests + TestRows(j, rep, now);
      jobs := jobs[i := Completed(j, status, rep.category, now)];
    }

    /** StartAgentJobReaper's periodic update. */
    method ReapStale()
      modifies this`jobs
      ensures View() == Reap(old(View()))
    {
      for k := 0 to |jobs|
        invariant |jobs| == |old(jobs)|
        invariant forall i :: 0 <= i < k ==> jobs[i] == Reap(old(View())).jobs[i]
        invariant forall i :: k <= i < |jobs| ==> jobs[i] == old(jobs)[i]
      {
        if IsStale(jobs[k], now) {
          jobs := jobs[k := Reaped(jobs[k], now)];
        }
      }
    }

    /** StartCollectionSelfHeal's sweep over the candidate rows. */
    method SelfHealSweep(cands: seq<nat>, picks: map<nat, nat>) returns (healed: nat)
      requires IsCandidateList(View(), cands)
      modifies this`jobs
      ensures View() == Heal(old(View()), cands, picks)
      ensures healed == |jobs| - |old(jobs)| <= |cands|
    {
      healed := 0;
      assert cands[..0] == [];
      for k := 0 to |cands|
        invariant View() == Heal(old(View()), cands[..k], picks)
        invariant healed == |jobs| - |old(jobs)| <= k
      {
        var d := cands[k];
        HealOneMore(old(View()), cands, picks, k);
        var out := RouteViaSiteAgent(d, Winrm, if d in picks then Some(picks[d]) else None);
        if !out.AgentMissing? {
          healed := healed + 1;
        }
      }
      assert cands[..|cands|] == cands;
    }
  }
}
