/**
  The queue seen from the status page: how the tables the queue writes feed the derived state, and
  what a retry may and may not change there.
 */
module QueueStatus {
  import opened Domain
  import opened JobQueue
  import opened JobInvariants
  import opened AccessMap
  import Status = DeviceStatus

  /** ListDevicesWithActiveAgentJobs. */
  ghost function ActiveDevices(jobs: seq<Job>): set<nat> {
    set i | 0 <= i < |jobs| && jobs[i].kind == CollectOs && Active(jobs[i]) && jobs[i].device.Some? ::
      jobs[i].device.value
  }

  lemma ActiveDevicesSpec(jobs: seq<Job>, d: nat)
    ensures d in ActiveDevices(jobs) <==> HasActive(jobs, d)
  {
  }

  ghost function Sites(agents: seq<Agent>, now: int, onlineOnly: bool): set<nat> {
    set i | 0 <= i < |agents| && agents[i].location.Some? && (onlineOnly ==> AgentOnline(agents[i], now)) ::
      agents[i].location.value
  }

  /**
    What ListDeviceAccessSignals is relied on to return: evidence for every collected inventory and a
    test row for every success. It may return more, from tables outside this model.
   */
  ghost predicate Reports(rows: seq<Signal>, s: State) {
    && (forall d :: d in s.inventory ==> exists p :: Signal(d, p, Evidence) in rows)
    && (forall i :: 0 <= i < |s.tests| && s.tests[i].success ==>
      Signal(s.tests[i].device, s.tests[i].kind, TestResult) in rows)
  }

  /**
    buildStatusMaps over a state of the queue. `rows` and `latest` are what the signal query and the
    latest-per-kind query return; their contents depend on the tables, not on the jobs.
   */
  ghost function MapsOf(
    s: State, rows: seq<Signal>, latest: seq<TestRow>, nvrCams: set<nat>, tested: set<nat>
  ): Status.StatusMaps {
    Status.StatusMaps(
      Merged(rows), Status.Tested(latest), map d: nat | d in tested :: Status.Aggregate(s.tests, d),
      Sites(s.agents, s.now, true), Sites(s.agents, s.now, false), nvrCams, ActiveDevices(s.jobs))
  }

  /**
    A site counts as having agents if one is installed there, and as online if an enabled one reported in
    the last two minutes.
   */
  lemma SitesAreAgents(s: State, rows: seq<Signal>, latest: seq<TestRow>, nvrCams: set<nat>, tested: set<nat>, loc: nat)
    ensures var m := MapsOf(s, rows, latest, nvrCams, tested);
            && (loc in m.anySites <==> exists k :: 0 <= k < |s.agents| && s.agents[k].location == Some(loc))
            && (loc in m.onlineSites <==> exists k :: 0 <= k < |s.agents| && Reporting(s, k, loc))
  {
    var online := Sites(s.agents, s.now, true);
    if k :| 0 <= k < |s.agents| && Reporting(s, k, loc) {
      assert AgentOnline(s.agents[k], s.now) && s.agents[k].location.value in online;
    }
    if loc in online {
      var k :| 0 <= k < |s.agents| && s.agents[k].location == Some(loc) && AgentOnline(s.agents[k], s.now);
      assert Reporting(s, k, loc);
    }
  }

  predicate Reporting(s: State, k: nat, loc: nat)
    requires k < |s.agents|
  {
    && s.agents[k].location == Some(loc) && s.agents[k].enabled && s.agents[k].online
    && s.agents[k].heartbeat.Some? && s.now - s.agents[k].heartbeat.value < 120
  }

  /** A device with a job waiting or running, in any reachable state, is never blamed for it. */
  lemma InFlightNeverBlamed(
    s: State, rows: seq<Signal>, latest: seq<TestRow>, nvrCams: set<nat>, tested: set<nat>, d: nat, dev: Device
  )
    requires HasActive(s.jobs, d)
    ensures var m := MapsOf(s, rows, latest, nvrCams, tested);
            && Status.Derive(m, d, dev).0 !in {Status.CredentialFailed, Status.NotAttempted, Status.NeedsCredential,
              Status.Unmanaged}
            && (Status.Derive(m, d, dev).0 == Status.CollectionFailed ==>
              Status.Legacy(m, d, dev) && Status.SignalFor(m, d).wmiBroken)
  {
    ActiveDevicesSpec(s.jobs, d);
    Status.ActiveIsNeverBlamed(MapsOf(s, rows, latest, nvrCams, tested), d, dev);
  }

  /** A timely result that requeues its job writes nothing a status reads. */
  lemma RequeueLeavesStatus(
    s: State, a: nat, i: nat, rep: Report, rows: seq<Signal>, latest: seq<TestRow>, nvrCams: set<nat>,
    tested: set<nat>
  )
    requires Authenticated(s, a) && i < |s.jobs| && s.jobs[i].agent == a && Active(s.jobs[i])
    requires WillRetry(s.jobs[i], rep)
    ensures MapsOf(Result(s, a, i, rep), rows, latest, nvrCams, tested) == MapsOf(s, rows, latest, nvrCams, tested)
    ensures Reports(rows, Result(s, a, i, rep)) <==> Reports(rows, s)
    ensures Result(s, a, i, rep).devices == s.devices
  {
    var s' := Result(s, a, i, rep);
    forall d: nat
      ensures HasActive(s'.jobs, d) <==> HasActive(s.jobs, d)
    {
      if k :| 0 <= k < |s.jobs| && CollectsFor(s.jobs[k], d) && Active(s.jobs[k]) {
        assert CollectsFor(s'.jobs[k], d) && Active(s'.jobs[k]);
      }
      if k :| 0 <= k < |s'.jobs| && CollectsFor(s'.jobs[k], d) && Active(s'.jobs[k]) {
        assert CollectsFor(s.jobs[k], d) && Active(s.jobs[k]);
      }
    }
    forall d: nat
      ensures d in ActiveDevices(s'.jobs) <==> d in ActiveDevices(s.jobs)
    {
      ActiveDevicesSpec(s'.jobs, d);
      ActiveDevicesSpec(s.jobs, d);
    }
    assert ActiveDevices(s'.jobs) == ActiveDevices(s.jobs);
  }

  /**
    A timely result that settles its job ends the device's in-flight status at once: with one active
    job per device, nothing else keeps it pending.
   */
  lemma SettlingEndsPending(s: State, a: nat, i: nat, rep: Report, d: nat)
    requires DedupInv(s.jobs) && Authenticated(s, a) && i < |s.jobs| && s.jobs[i].agent == a
    requires Active(s.jobs[i]) && CollectsFor(s.jobs[i], d) && !WillRetry(s.jobs[i], rep)
    ensures d in ActiveDevices(s.jobs) && ActiveDevices(Result(s, a, i, rep).jobs) == ActiveDevices(s.jobs) - {d}
  {
    var jobs' := Result(s, a, i, rep).jobs;
    forall e: nat
      ensures e in ActiveDevices(jobs') <==> e in ActiveDevices(s.jobs) && e != d
    {
      ActiveDevicesSpec(jobs', e);
      ActiveDevicesSpec(s.jobs, e);
      if k :| 0 <= k < |s.jobs| && CollectsFor(s.jobs[k], e) && Active(s.jobs[k]) && e != d {
        assert CollectsFor(jobs'[k], e) && Active(jobs'[k]);
      }
      if k :| 0 <= k < |jobs'| && CollectsFor(jobs'[k], e) && Active(jobs'[k]) {
        assert k != i && CollectsFor(s.jobs[k], e) && Active(s.jobs[k]);
      }
    }
    assert HasActive(s.jobs, d);
    ActiveDevicesSpec(s.jobs, d);
    assert ActiveDevices(jobs') == ActiveDevices(s.jobs) - {d};
  }

  /** A persisted success proves the device: it derives to managed, whatever the test history says. */
  lemma PersistedMeansManaged(s: State, a: nat, i: nat, rep: Report, d: nat, dev: Device,
                              rows: seq<Signal>, latest: seq<TestRow>, nvrCams: set<nat>, tested: set<nat>)
    requires Authenticated(s, a) && i < |s.jobs| && s.jobs[i].agent == a && CollectsFor(s.jobs[i], d)
    requires Saves(s.jobs[i], rep)
    requires Reports(rows, Result(s, a, i, rep))
    ensures d in Result(s, a, i, rep).inventory
    ensures Status.Derive(MapsOf(Result(s, a, i, rep), rows, latest, nvrCams, tested), d, dev).0 == Status.Managed
  {
    assert d in Result(s, a, i, rep).inventory;
    var p :| Signal(d, p, Evidence) in rows;
    MergedSpec(rows, d, p);
  }
}
