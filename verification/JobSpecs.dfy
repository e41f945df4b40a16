/**
  What each handler of the queue does, in terms of the tables' columns alone: who gets a job, which
  jobs a poll hands out, when a result settles or requeues a job and what it stores, what the reaper
  takes back, and whom self-heal serves.
 */
module JobSpecs {
  import opened Domain
  import opened JobQueue
  import opened JobInvariants

  // ----- Routing -----

  /** An enabled agent of a location. */
  predicate Serves(s: State, k: nat, loc: nat) {
    k < |s.agents| && s.agents[k].enabled && s.agents[k].location == Some(loc)
  }

  /** One that calls itself online. */
  predicate ClaimsOnline(s: State, k: nat, loc: nat) { Serves(s, k, loc) && s.agents[k].online }

  /** One that is online and was heard from in the last two minutes. */
  predicate Fresh(s: State, k: nat, loc: nat) {
    ClaimsOnline(s, k, loc) && s.agents[k].heartbeat.Some? && s.now - s.agents[k].heartbeat.value < 120
  }

  /** Agent x was heard from later than agent y, or only x ever was. */
  predicate HeardLater(x: Agent, y: Agent) {
    x.heartbeat.Some? && (y.heartbeat.Some? ==> x.heartbeat.value > y.heartbeat.value)
  }

  function Target(out: RouteOutcome): Option<nat> {
    match out
    case AgentMissing => None
    case AlreadyQueued(a) => Some(a)
    case Enqueued(a) => Some(a)
  }

  /**
    A collection only ever goes to an enabled agent of the device's own site, and finds one exactly when
    there is one. A fresh agent is preferred to all others; among the fresh, and among the others if no
    agent is fresh, none was heard from later than the chosen one.
   */
  lemma RouteIsToOwnSite(s: State, d: nat, loc: nat)
    requires d in s.devices && s.devices[d].location == Some(loc)
    ensures var t := Target(RouteFor(s, d));
            && (t.None? <==> forall k: nat :: !Serves(s, k, loc))
            && (t.Some? ==> Serves(s, t.value, loc))
            && ((exists k: nat :: Fresh(s, k, loc)) ==> t.Some? && Fresh(s, t.value, loc))
            && (forall k: nat :: t.Some? && Fresh(s, k, loc) ==> !HeardLater(s.agents[k], s.agents[t.value]))
            && (forall k: nat :: t.Some? && !Fresh(s, t.value, loc) && Serves(s, k, loc) ==>
                  !HeardLater(s.agents[k], s.agents[t.value]))
  {
    var online, any := Newest(s.agents, OnlineStatus, loc), Newest(s.agents, Assigned, loc);
    assert forall k: nat :: Serves(s, k, loc) <==> k < |s.agents| && InPool(s.agents[k], Assigned, loc);
    assert forall k: nat :: ClaimsOnline(s, k, loc) <==> k < |s.agents| && InPool(s.agents[k], OnlineStatus, loc);
    assert forall x: Agent, y: Agent :: HeardLater(x, y) <==> HbAfter(x.heartbeat, y.heartbeat);
  }

  /** Without a site there is no agent; with one, an unsettled collect job of the device is never doubled. */
  lemma RouteOutcomes(s: State, d: nat)
    requires d in s.devices
    ensures s.devices[d].location.None? ==> RouteFor(s, d) == AgentMissing
    ensures RouteFor(s, d).AlreadyQueued? <==> Target(RouteFor(s, d)).Some? && Unsettled(s.jobs, d)
  {
    assert Unsettled(s.jobs, d) <==> HasActive(s.jobs, d);
  }

  ghost predicate Unsettled(jobs: seq<Job>, d: nat) {
    exists i :: 0 <= i < |jobs| && jobs[i].kind == CollectOs && jobs[i].device == Some(d)
                && jobs[i].status != Done && jobs[i].status != Failed
  }

  /** What an enqueue inserts, if anything. */
  lemma EnqueueSpec(s: State, d: nat, p: Protocol, pick: Option<nat>)
    ensures var s' := Enqueue(s, d, p, pick);
            if d in s.devices && RouteFor(s, d).Enqueued? then
              && |s'.jobs| == |s.jobs| + 1 && s' == s.(jobs := s.jobs + [s'.jobs[|s.jobs|]])
              && var j := s'.jobs[|s.jobs|];
              && j.agent == RouteFor(s, d).agent && j.device == Some(d) && j.cred == pick && j.protocol == p
              && j.kind == CollectOs && j.status == Queued && j.attempt == 0 && j.maxAttempts == 5
              && j.nextAt == None && j.dispatchedAt == None && j.finishedAt == None && j.createdAt == s.now
            else s' == s
  {
  }

  /** A test of an agent asks no device for anything and brings no credential; an unknown agent gets none. */
  lemma TestJobSpec(s: State, a: nat)
    ensures var s' := EnqueueTest(s, a);
            if a < |s.agents| then
              && |s'.jobs| == |s.jobs| + 1 && s' == s.(jobs := s.jobs + [s'.jobs[|s.jobs|]])
              && var j := s'.jobs[|s.jobs|];
              && j.agent == a && j.device == None && j.cred == None && j.kind == TestJob && j.status == Queued
              && j.attempt == 0 && j.nextAt == None && j.dispatchedAt == None && j.createdAt == s.now
            else s' == s
  {
  }

  // ----- Polling -----

  ghost function Flying(s: State, a: nat): set<nat> {
    set i | 0 <= i < |s.jobs| && s.jobs[i].agent == a && s.jobs[i].status == Dispatched
  }

  ghost function Ready(s: State, a: nat): set<nat> {
    set i | 0 <= i < |s.jobs| && s.jobs[i].agent == a && s.jobs[i].status == Queued
            && (s.jobs[i].nextAt.Some? ==> s.jobs[i].nextAt.value <= s.now)
  }

  /** Collect jobs waiting out a backoff that a saturated WinRM listener caused. */
  ghost function BackingOff(s: State, a: nat): set<nat> {
    set i | 0 <= i < |s.jobs| && s.jobs[i].agent == a && s.jobs[i].status == Queued && s.jobs[i].kind == CollectOs
            && s.jobs[i].nextAt.Some? && s.jobs[i].nextAt.value > s.now
            && s.jobs[i].category in {NegotiateError, ConnectTimeout}
  }

  ghost function HandedOut(s: State, s': State): set<nat> {
    set i | 0 <= i < |s.jobs| && i < |s'.jobs| && s.jobs[i].status == Queued && s'.jobs[i].status == Dispatched
  }

  /** A disabled or unknown agent gets nothing. */
  lemma PollRefused(cap: nat, s: State, a: nat)
    requires a >= |s.agents| || !s.agents[a].enabled
    ensures Poll(cap, s, a) == s
  {
  }

  /**
    An agent's poll hands out as many ready jobs of its own as the governor allows, the oldest first,
    and changes nothing else but the agent's heartbeat.
   */
  lemma PollHandsOutOldest(cap: nat, s: State, a: nat)
    requires a < |s.agents| && s.agents[a].enabled
    ensures var s' := Poll(cap, s, a);
            var out := HandedOut(s, s');
            var budget := AdaptiveBudget(cap, |Flying(s, a)|, |BackingOff(s, a)|);
            && s'.agents == s.agents[a := s.agents[a].(online := true, heartbeat := Some(s.now))]
            && s' == s.(jobs := s'.jobs, agents := s'.agents)
            && |s'.jobs| == |s.jobs|
            && out <= Ready(s, a)
            && (forall i :: 0 <= i < |s.jobs| ==>
                  s'.jobs[i] ==
                  if i in out then s.jobs[i].(status := Dispatched, dispatchedAt := Some(s.now)) else s.jobs[i])
            && |out| == (if |Ready(s, a)| <= budget then |Ready(s, a)| else budget)
            && (forall i, k :: i in out && k in Ready(s, a) && k !in out ==> i < k)
  {
    var picks := Picks(cap, s, a);
    PicksSpec(cap, s, a);
    RunnableSpec(s.jobs, a, s.now);
    MembersCard(picks);
    MembersCard(Runnable(s.jobs, a, s.now));
    assert Members(Runnable(s.jobs, a, s.now)) == Ready(s, a);
    assert InFlight(s.jobs, a) == Flying(s, a);
    assert LoadBackoff(s.jobs, a, s.now) == BackingOff(s, a);
    assert HandedOut(s, Poll(cap, s, a)) == Members(picks);
  }

  // ----- Results -----

  /** The agent is known and enabled, and the job is its own. */
  predicate Accepts(s: State, a: nat, i: nat) {
    a < |s.agents| && s.agents[a].enabled && i < |s.jobs| && s.jobs[i].agent == a
  }

  /** A collect job of a known device whose success came with an inventory. */
  predicate CarriesInventory(j: Job, rep: Report) {
    rep.success && j.kind == CollectOs && j.device.Some? && rep.inventory != NoReport
  }

  /** The agent failed, or its inventory could not be read or stored. */
  predicate WentWrong(j: Job, rep: Report) {
    !rep.success || (CarriesInventory(j, rep) && rep.inventory != Persisted)
  }

  /** The categories the server takes as final. */
  predicate FinalCategory(c: Category) {
    c in {AuthFailed, Unsupported, WmiAccessDenied, AccessDenied, LockoutSuspected, NamespaceUnavailable}
  }

  predicate Retries(j: Job, rep: Report) {
    WentWrong(j, rep) && j.kind == CollectOs && !FinalCategory(rep.category) && j.attempt + 1 < j.maxAttempts
  }

  lemma ResultRefused(s: State, a: nat, i: nat, rep: Report)
    requires !Accepts(s, a, i)
    ensures Result(s, a, i, rep) == s
  {
  }

  /** A failed attempt goes back to the queue, and nothing is stored. */
  lemma ResultRequeues(s: State, a: nat, i: nat, rep: Report)
    requires Accepts(s, a, i) && Retries(s.jobs[i], rep)
    ensures var j := s.jobs[i];
            var wait :=
              if j.attempt == 0 then 30 else if j.attempt == 1 then 120 else if j.attempt == 2 then 300 else 600;
            Result(s, a, i, rep) ==
              s.(jobs := s.jobs[i := j.(status := Queued, attempt := j.attempt + 1, nextAt := Some(s.now + wait),
                                        dispatchedAt := None, category := rep.category)])
  {
  }

  /** Anything else settles the job: failed if it went wrong, done otherwise. */
  lemma ResultSettles(s: State, a: nat, i: nat, rep: Report)
    requires Accepts(s, a, i) && !Retries(s.jobs[i], rep)
    ensures var j, s' := s.jobs[i], Result(s, a, i, rep);
            && s'.jobs == s.jobs[i := j.(status := if WentWrong(j, rep) then Failed else Done,
                                         category := rep.category, finishedAt := Some(s.now))]
            && s'.agents == s.agents && s'.now == s.now
  {
  }

  /** What a settling result stores: an inventory exactly if it was persisted, and with it the device's credential. */
  lemma ResultStores(s: State, a: nat, i: nat, rep: Report)
    requires Accepts(s, a, i) && !Retries(s.jobs[i], rep)
    ensures var j, s' := s.jobs[i], Result(s, a, i, rep);
            if CarriesInventory(j, rep) && rep.inventory == Persisted then
              var d := j.device.value;
              && s'.inventory == s.inventory + {d}
              && s'.devices.Keys == s.devices.Keys
              && (forall e :: e in s.devices && e != d ==> s'.devices[e] == s.devices[e])
              && (d in s.devices ==>
                    var cred :=
                      if rep.winner.Some? then rep.winner else if j.cred.Some? then j.cred else s.devices[d].cred;
                    s'.devices[d] == s.devices[d].(up := true, cred := cred))
            else
              s'.inventory == s.inventory && s'.devices == s.devices
  {
  }

  /**
    A collect job whose post carried an inventory ends done exactly if the inventory was stored;
    otherwise it is queued for one more attempt, or failed.
   */
  lemma DoneMeansStored(s: State, a: nat, i: nat, d: nat, rep: Report)
    requires Accepts(s, a, i) && s.jobs[i].kind == CollectOs && s.jobs[i].device == Some(d) && rep.inventory != NoReport
    ensures var s' := Result(s, a, i, rep);
            && (s'.jobs[i].status == Done <==> rep.success && rep.inventory == Persisted)
            && (s'.jobs[i].status == Done ==> d in s'.inventory)
            && (s'.jobs[i].status == Queued ==>
                  s'.jobs[i].attempt == s.jobs[i].attempt + 1 && s'.inventory == s.inventory)
            && (s'.jobs[i].status in {Done, Queued, Failed})
  {
  }

  /** The named attempts of a post, in order. */
  function Named(attempts: seq<Attempt>): seq<Attempt> {
    if attempts == [] then []
    else if attempts[0].cred.Some? then [attempts[0]] + Named(attempts[1..])
    else Named(attempts[1..])
  }

  lemma {:induction false} NamedSpec(attempts: seq<Attempt>)
    ensures forall at :: at in Named(attempts) <==> at in attempts && at.cred.Some?
    ensures (forall i :: 0 <= i < |attempts| ==> attempts[i].cred.Some?) ==> Named(attempts) == attempts
  {
    if attempts != [] { NamedSpec(attempts[1..]); }
  }

  predicate RowSays(r: TestRow, d: nat, p: Protocol, now: int, cred: nat, c: Category, success: bool) {
    && r.device == d && r.kind == p && r.at == now && r.cred == cred && r.success == success
    && r.category == if c != Blank then c else if success then Success else GenericError
  }

  lemma {:induction false} AttemptRowsSpec(d: nat, j: Job, attempts: seq<Attempt>, now: int)
    ensures var rows, named := AttemptRows(d, j, attempts, now), Named(attempts);
            && |rows| == |named|
            && (forall k :: 0 <= k < |named| ==> named[k].cred.Some?)
            && forall k :: 0 <= k < |rows| ==>
                 RowSays(rows[k], d, j.protocol, now, named[k].cred.value, named[k].category, named[k].success)
  {
    if attempts != [] { AttemptRowsSpec(d, j, attempts[1..], now); }
  }

  /**
    A settling result of a device's collect job records one row for each attempt that names a
    credential; if none does, one row for the job's own credential, if it has one.
   */
  lemma ResultRecords(s: State, a: nat, i: nat, d: nat, rep: Report)
    requires Accepts(s, a, i) && !Retries(s.jobs[i], rep) && s.jobs[i].kind == CollectOs && s.jobs[i].device == Some(d)
    ensures var j, s', named := s.jobs[i], Result(s, a, i, rep), Named(rep.attempts);
            && s.tests <= s'.tests
            && var rows := s'.tests[|s.tests|..];
               if named != [] then
                 && |rows| == |named| && (forall k :: 0 <= k < |named| ==> named[k].cred.Some?)
                 && forall k :: 0 <= k < |rows| ==>
                      RowSays(rows[k], d, j.protocol, s.now, named[k].cred.value, named[k].category, named[k].success)
               else if j.cred.Some? then
                 |rows| == 1 && RowSays(rows[0], d, j.protocol, s.now, j.cred.value, rep.category, !WentWrong(j, rep))
               else rows == []
  {
    AttemptRowsSpec(d, s.jobs[i], rep.attempts, s.now);
    assert Result(s, a, i, rep).tests[|s.tests|..] == TestRows(s.jobs[i], rep, s.now);
  }

  // ----- Reaping -----

  /** Handed out more than eight minutes ago and still unanswered; collect jobs only. */
  predicate Forgotten(j: Job, now: int) {
    && j.kind == CollectOs && j.status == Dispatched
    && j.dispatchedAt.Some? && now - j.dispatchedAt.value > 480
  }

  /** The reaper requeues a forgotten job at once, or fails it in its last attempt, and touches nothing else. */
  lemma ReapSpec(s: State)
    ensures var s' := Reap(s);
            && s' == s.(jobs := s'.jobs) && |s'.jobs| == |s.jobs|
            && forall i :: 0 <= i < |s.jobs| ==>
                 var j := s.jobs[i];
                 s'.jobs[i] ==
                   if !Forgotten(j, s.now) then j
                   else if j.attempt + 1 < j.maxAttempts then
                     j.(status := Queued, attempt := j.attempt + 1, dispatchedAt := None, nextAt := Some(s.now))
                   else
                     j.(status := Failed, attempt := j.attempt + 1, dispatchedAt := None, nextAt := None,
                        finishedAt := Some(s.now), category := AgentNoResult)
  {
  }

  // ----- Self-heal -----

  /** The device's newest collect job. */
  ghost predicate IsNewest(jobs: seq<Job>, d: nat, k: nat) {
    && k < |jobs| && jobs[k].kind == CollectOs && jobs[k].device == Some(d)
    && forall i :: k < i < |jobs| ==> !(jobs[i].kind == CollectOs && jobs[i].device == Some(d))
  }

  ghost function FailuresInDay(s: State, d: nat): set<nat> {
    set i | 0 <= i < |s.jobs| && s.jobs[i].kind == CollectOs && s.jobs[i].device == Some(d)
            && s.jobs[i].status == Failed && s.jobs[i].finishedAt.Some? && s.jobs[i].finishedAt.value > s.now - 86400
  }

  /**
    Stranded: never collected, nothing under way, and the newest collect job failed more than a quarter
    of an hour ago for a reason of load, with fewer than four failures in a day.
   */
  ghost predicate Stranded(s: State, d: nat) {
    && d in s.devices && d !in s.inventory && !Unsettled(s.jobs, d)
    && |FailuresInDay(s, d)| < 4
    && exists k: nat :: IsNewest(s.jobs, d, k) && FailedUnderLoad(s.jobs[k], s.now)
  }

  predicate FailedUnderLoad(j: Job, now: int) {
    && j.status == Failed && j.category in {NegotiateError, ConnectTimeout, AgentNoResult}
    && j.finishedAt.Some? && now - j.finishedAt.value > 900
  }

  lemma EligibleMeansStranded(s: State, d: nat)
    ensures Eligible(s, d) <==> Stranded(s, d)
  {
    assert Unsettled(s.jobs, d) <==> HasActive(s.jobs, d);
    assert FailuresInDay(s, d) == RecentFailures(s.jobs, d, s.now - DAY);
    var newest := Latest(s.jobs, d);
    if newest.Some? { assert IsNewest(s.jobs, d, newest.value); }
    assert forall k: nat :: IsNewest(s.jobs, d, k) ==> newest == Some(k);
  }

  /**
    Self-heal creates a job only for a stranded device: never one that was collected, is being collected,
    was rejected, failed a moment ago, or failed four times in a day.
   */
  lemma HealServesOnlyStranded(s: State, cands: seq<nat>, picks: map<nat, nat>, i: nat)
    requires IsCandidateList(s, cands) && |s.jobs| <= i < |Heal(s, cands, picks).jobs|
    ensures var j := Heal(s, cands, picks).jobs[i];
            && j.kind == CollectOs && j.protocol == Winrm && j.device.Some? && Stranded(s, j.device.value)
            && j.cred == if j.device.value in picks then Some(picks[j.device.value]) else None
  {
    HealAppends(s, cands, picks);
    HealedJob(s, cands, picks, i);
    EligibleMeansStranded(s, Heal(s, cands, picks).jobs[i].device.value);
  }

  lemma {:induction false} HealedJob(s: State, cands: seq<nat>, picks: map<nat, nat>, i: nat)
    requires |s.jobs| <= i < |Heal(s, cands, picks).jobs|
    ensures var j := Heal(s, cands, picks).jobs[i];
            && j.protocol == Winrm && j.device.Some?
            && j.cred == if j.device.value in picks then Some(picks[j.device.value]) else None
  {
    var init := cands[..|cands| - 1];
    if i < |Heal(s, init, picks).jobs| { HealedJob(s, init, picks, i); }
  }

  /** The newest collect jobs of d and e ended in this order. */
  ghost predicate EndedNoLater(jobs: seq<Job>, d: nat, e: nat) {
    forall k: nat, m: nat :: IsNewest(jobs, d, k) && IsNewest(jobs, e, m)
      && jobs[k].finishedAt.Some? && jobs[m].finishedAt.Some?
      ==> jobs[k].finishedAt.value <= jobs[m].finishedAt.value
  }

  /** At most fifty at a time, the longest stranded first: a stranded device is passed over only for fifty of them. */
  lemma HealOrder(s: State, cands: seq<nat>)
    requires IsCandidateList(s, cands)
    ensures |cands| <= 50 && Distinct(cands)
    ensures forall i :: 0 <= i < |cands| ==> Stranded(s, cands[i])
    ensures forall i, j :: 0 <= i < j < |cands| ==> EndedNoLater(s.jobs, cands[i], cands[j])
    ensures forall d :: Stranded(s, d) && d !in cands ==>
              |cands| == 50 && forall i :: 0 <= i < |cands| ==> EndedNoLater(s.jobs, cands[i], d)
  {
    forall d ensures Eligible(s, d) <==> Stranded(s, d) { EligibleMeansStranded(s, d); }
    forall d: nat, e: nat | FailedAt(s, d) <= FailedAt(s, e)
      ensures EndedNoLater(s.jobs, d, e)
    {
      assert forall k: nat :: IsNewest(s.jobs, d, k) ==> Latest(s.jobs, d) == Some(k);
      assert forall m: nat :: IsNewest(s.jobs, e, m) ==> Latest(s.jobs, e) == Some(m);
    }
  }

  /** Every candidate whose site has an agent gets its job. */
  lemma {:induction false} HealServesAll(s: State, cands: seq<nat>, picks: map<nat, nat>, d: nat)
    requires d in cands && d in s.devices && !Unsettled(s.jobs, d) && Target(RouteFor(s, d)).Some?
    ensures exists i :: |s.jobs| <= i < |Heal(s, cands, picks).jobs| && Heal(s, cands, picks).jobs[i].device == Some(d)
  {
    var init, last := cands[..|cands| - 1], cands[|cands| - 1];
    var before, after := Heal(s, init, picks), Heal(s, cands, picks);
    HealAppends(s, init, picks);
    assert cands == init + [last];
    if d in init {
      HealServesAll(s, init, picks, d);
      var i :| |s.jobs| <= i < |before.jobs| && before.jobs[i].device == Some(d);
      assert after.jobs[i] == before.jobs[i];
    } else {
      assert !HasActive(before.jobs, d);
      assert !HasActive(s.jobs, d);
      assert RouteFor(before, d).Enqueued?;
      assert after.jobs[|before.jobs|].device == Some(d);
    }
  }

  // ----- Waiting times -----

  /** The waits before the retries of a job, one by one. */
  lemma BackoffSchedule(n: nat)
    ensures Backoff(0) == 30 && Backoff(1) == 120 && Backoff(2) == 300
    ensures n >= 3 ==> Backoff(n) == 600
    ensures Backoff(n) <= Backoff(n + 1)
  {
  }
}
