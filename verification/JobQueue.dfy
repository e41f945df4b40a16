/**
  The relay-agent job queue as a state machine: one atomic, total step per handler. A handler
  that answers with an HTTP error leaves the state as it was. `Outside` stands for everything
  else that may write the other tables (scans, operators, direct collection).
 */
module JobQueue {
  import opened Domain

  const STALE_AFTER := 480
  const ONLINE_WINDOW := 120
  const DAY := 86400
  const HEAL_COOLDOWN := 900
  const HEAL_ROUNDS := 4
  const HEAL_LIMIT := 50
  const DEFAULT_MAX_ATTEMPTS := 5

  // ----- Policy: dispatch budget, retry classification, backoff -----

  function Max(a: int, b: int): int { if a < b then b else a }

  /** HIMS_AGENT_DISPATCH_CAP: a value outside 1..64, or none, falls back to 8. */
  function DispatchCap(env: Option<int>): (cap: nat)
    ensures 1 <= cap <= 64
    ensures env.None? ==> cap == 8
    ensures env.Some? ==> cap == env.value || (cap == 8 && !(1 <= env.value <= 64))
  {
    if env.Some? && 1 <= env.value <= 64 then env.value else 8
  }

  function PollBudget(cap: nat, inflight: nat): nat {
    if inflight < cap then cap - inflight else 0
  }

  function ThrottleAt(cap: nat): nat { Max(3, cap / 2) }

  function TrickleBudget(cap: nat): nat { Max(2, cap / 4) }

  /** The governor never overshoots the cap, never starves a free slot, and trickles under load. */
  function AdaptiveBudget(cap: nat, inflight: nat, loadBackoff: nat): (budget: nat)
    ensures inflight + budget <= Max(cap, inflight)
    ensures budget == 0 <==> cap <= inflight
    ensures loadBackoff < 3 || loadBackoff < cap / 2 ==> budget == Max(cap - inflight, 0)
    ensures loadBackoff >= 3 && loadBackoff >= cap / 2 ==> budget <= 2 || budget <= cap / 4
    ensures inflight + budget < cap ==> budget >= 2 && budget >= cap / 4
  {
    var budget := PollBudget(cap, inflight);
    if budget > TrickleBudget(cap) && loadBackoff >= ThrottleAt(cap) then TrickleBudget(cap) else budget
  }

  predicate Retryable(c: Category) {
    match c
    case AuthFailed | Unsupported | WmiAccessDenied | AccessDenied | LockoutSuspected | NamespaceUnavailable => false
    case _ => true
  }

  function Backoff(attempt: nat): nat {
    if attempt == 0 then 30 else if attempt == 1 then 120 else if attempt == 2 then 300 else 600
  }

  // ----- State -----

  datatype State = State(
    now: int, agents: seq<Agent>, devices: map<nat, Device>, jobs: seq<Job>,
    inventory: set<nat>, tests: seq<TestRow>)

  /** Not settled yet. */
  predicate Active(j: Job): (active: bool)
    ensures active <==> j.status != Done && j.status != Failed
  {
    j.status == Queued || j.status == Dispatched
  }

  predicate CollectsFor(j: Job, d: nat) { j.kind == CollectOs && j.device == Some(d) }

  predicate HasActive(jobs: seq<Job>, d: nat) {
    exists i :: 0 <= i < |jobs| && CollectsFor(jobs[i], d) && Active(jobs[i])
  }

  predicate IsRunnable(j: Job, a: nat, now: int) {
    j.agent == a && j.status == Queued && (j.nextAt.None? || j.nextAt.value <= now)
  }

  /** CountDispatchedAgentJobs counts this set. */
  function InFlight(jobs: seq<Job>, a: nat): set<nat> {
    set i | 0 <= i < |jobs| && jobs[i].agent == a && jobs[i].status == Dispatched
  }

  /** CountAgentLoadBackoff counts this set. */
  function LoadBackoff(jobs: seq<Job>, a: nat, now: int): set<nat> {
    set i | 0 <= i < |jobs| && jobs[i].agent == a && jobs[i].kind == CollectOs && jobs[i].status == Queued
            && jobs[i].nextAt.Some? && jobs[i].nextAt.value > now
            && (jobs[i].category == NegotiateError || jobs[i].category == ConnectTimeout)
  }

  // ----- What a handler does to one row -----

  function Dispatch(j: Job, now: int): Job { j.(status := Dispatched, dispatchedAt := Some(now)) }

  function Requeued(j: Job, cat: Category, now: int): Job {
    j.(status := Queued, attempt := j.attempt + 1, nextAt := Some(now + Backoff(j.attempt)),
       dispatchedAt := None, category := cat)
  }

  function Completed(j: Job, status: Status, cat: Category, now: int): Job {
    j.(status := status, category := cat, finishedAt := Some(now))
  }

  predicate IsStale(j: Job, now: int) {
    j.kind == CollectOs && j.status == Dispatched && j.dispatchedAt.Some? && j.dispatchedAt.value < now - STALE_AFTER
  }

  function Reaped(j: Job, now: int): Job {
    var spent := j.attempt + 1 >= j.maxAttempts;
    j.(status := if spent then Failed else Queued, attempt := j.attempt + 1, dispatchedAt := None,
       nextAt := if spent then None else Some(now),
       finishedAt := if spent then Some(now) else j.finishedAt,
       category := if spent then AgentNoResult else j.category)
  }

  function NewJob(a: nat, d: Option<nat>, cred: Option<nat>, kind: JobKind, p: Protocol, now: int): Job {
    Job(a, d, cred, kind, p, Queued, 0, DEFAULT_MAX_ATTEMPTS, None, now, None, None, Blank)
  }

  // ----- Routing to a site agent -----

  predicate HbAfter(a: Option<int>, b: Option<int>) {
    a.Some? && (b.None? || a.value > b.value)
  }

  /** The two agent queries a route makes: status 'online' in the table, or merely assigned. */
  datatype Pool = OnlineStatus | Assigned

  predicate InPool(a: Agent, pool: Pool, loc: nat) {
    a.location == Some(loc) && a.enabled && (pool == OnlineStatus ==> a.online)
  }

  /** The agent of the pool with the newest heartbeat, the earliest listed among equals. */
  function Newest(agents: seq<Agent>, pool: Pool, loc: nat): (best: Option<nat>)
    ensures best.None? <==> forall k :: 0 <= k < |agents| ==> !InPool(agents[k], pool, loc)
    ensures best.Some? ==> best.value < |agents| && InPool(agents[best.value], pool, loc)
    ensures best.Some? ==> forall k :: 0 <= k < |agents| && InPool(agents[k], pool, loc) ==>
              !HbAfter(agents[k].heartbeat, agents[best.value].heartbeat)
    ensures best.Some? ==> forall k :: 0 <= k < best.value && InPool(agents[k], pool, loc) ==>
              HbAfter(agents[best.value].heartbeat, agents[k].heartbeat)
  {
    if agents == [] then None
    else
      var k := |agents| - 1;
      var best := Newest(agents[..k], pool, loc);
      assert forall m :: 0 <= m < k ==> agents[..k][m] == agents[m];
      if InPool(agents[k], pool, loc) && (best.None? || HbAfter(agents[k].heartbeat, agents[best.value].heartbeat))
      then Some(k) else best
  }

  predicate AgentOnline(a: Agent, now: int) {
    a.enabled && a.online && a.heartbeat.Some? && now - a.heartbeat.value < ONLINE_WINDOW
  }

  /** routeViaSiteAgent's choice: the newest online agent if it is fresh, else the newest assigned one. */
  function RouteTarget(agents: seq<Agent>, loc: nat, now: int): (target: Option<nat>)
    ensures target.Some? ==> target.value < |agents|
  {
    var online := Newest(agents, OnlineStatus, loc);
    if online.Some? && AgentOnline(agents[online.value], now) then online else Newest(agents, Assigned, loc)
  }

  datatype RouteOutcome = AgentMissing | AlreadyQueued(agent: nat) | Enqueued(agent: nat)

  function RouteFor(s: State, d: nat): RouteOutcome
    requires d in s.devices
  {
    if s.devices[d].location.None? then AgentMissing
    else
      var target := RouteTarget(s.agents, s.devices[d].location.value, s.now);
      if target.None? then AgentMissing
      else if HasActive(s.jobs, d) then AlreadyQueued(target.value)
      else Enqueued(target.value)
  }

  // ----- Steps -----

  /**
    The insert behind an enqueue; its foreign keys need the agent and the device. No index forbids a
    second active job.
   */
  function Insert(s: State, d: nat, a: nat, p: Protocol, pick: Option<nat>): State {
    if a < |s.agents| && d in s.devices then s.(jobs := s.jobs + [NewJob(a, Some(d), pick, CollectOs, p, s.now)]) else s
  }

  /**
    routeViaSiteAgent run undisturbed. `pick` is the outcome of pickAgentCredID, whose credential list is
    outside this model.
   */
  function Enqueue(s: State, d: nat, p: Protocol, pick: Option<nat>): State {
    if d !in s.devices then s
    else
      var r := RouteFor(s, d);
      if r.Enqueued? then Insert(s, d, r.agent, p, pick) else s
  }

  function EnqueueTest(s: State, a: nat): State {
    if a < |s.agents| then s.(jobs := s.jobs + [NewJob(a, None, None, TestJob, OtherProtocol(0), s.now)]) else s
  }

  /** ListRunnableAgentJobs without its LIMIT: runnable rows in creation order. */
  function Runnable(jobs: seq<Job>, a: nat, now: int): seq<nat> {
    if jobs == [] then []
    else
      var k := |jobs| - 1;
      Runnable(jobs[..k], a, now) + if IsRunnable(jobs[k], a, now) then [k] else []
  }

  function Picks(cap: nat, s: State, a: nat): seq<nat> {
    var budget := AdaptiveBudget(cap, |InFlight(s.jobs, a)|, |LoadBackoff(s.jobs, a, s.now)|);
    var ready := Runnable(s.jobs, a, s.now);
    if |ready| <= budget then ready else ready[..budget]
  }

  function DispatchAll(jobs: seq<Job>, picks: seq<nat>, now: int): (out: seq<Job>)
    ensures |out| == |jobs|
  {
    seq(|jobs|, i requires 0 <= i < |jobs| => if i in picks then Dispatch(jobs[i], now) else jobs[i])
  }

  predicate Authenticated(s: State, a: nat) { a < |s.agents| && s.agents[a].enabled }

  function Poll(cap: nat, s: State, a: nat): State {
    if !Authenticated(s, a) then s
    else
      s.(agents := s.agents[a := s.agents[a].(online := true, heartbeat := Some(s.now))],
         jobs := DispatchAll(s.jobs, Picks(cap, s, a), s.now))
  }

  datatype InventoryOutcome = NoReport | Malformed | NotPersisted | Persisted
  datatype Attempt = Attempt(cred: Option<nat>, category: Category, success: bool)

  /** What an agent posts. An unparsable credential id is `None`; saving the report is an outcome. */
  datatype Report = Report(success: bool, category: Category, inventory: InventoryOutcome,
                           winner: Option<nat>, attempts: seq<Attempt>)

  function FinalStatus(j: Job, rep: Report): Status {
    if !rep.success then Failed
    else if j.kind == CollectOs && j.device.Some? && (rep.inventory == Malformed || rep.inventory == NotPersisted)
    then Failed
    else Done
  }

  predicate WillRetry(j: Job, rep: Report) {
    FinalStatus(j, rep) == Failed && j.kind == CollectOs && Retryable(rep.category) && j.attempt + 1 < j.maxAttempts
  }

  predicate Saves(j: Job, rep: Report) {
    rep.success && j.kind == CollectOs && j.device.Some? && rep.inventory == Persisted
  }

  function WinningCred(j: Job, rep: Report): Option<nat> { if rep.winner.Some? then rep.winner else j.cred }

  function Labelled(c: Category, success: bool): Category {
    if c == Blank then (if success then Success else GenericError) else c
  }

  function AttemptRows(d: nat, j: Job, attempts: seq<Attempt>, now: int): seq<TestRow> {
    if attempts == [] then []
    else
      var at := attempts[0];
      var rest := AttemptRows(d, j, attempts[1..], now);
      if at.cred.None? then rest
      else [TestRow(d, at.cred.value, j.protocol, Labelled(at.category, at.success), at.success, now)] + rest
  }

  function TestRows(j: Job, rep: Report, now: int): seq<TestRow> {
    if j.device.None? || j.kind != CollectOs then []
    else
      var rows := AttemptRows(j.device.value, j, rep.attempts, now);
      var done := FinalStatus(j, rep) == Done;
      if rows == [] && j.cred.Some?
      then [TestRow(j.device.value, j.cred.value, j.protocol, Labelled(rep.category, done), done, now)]
      else rows
  }

  function SavedDevices(devices: map<nat, Device>, j: Job, rep: Report): map<nat, Device> {
    if !Saves(j, rep) || j.device.value !in devices then devices
    else
      var dev := devices[j.device.value].(up := true);
      var cred := WinningCred(j, rep);
      devices[j.device.value := if cred.Some? then dev.(cred := cred) else dev]
  }

  /** agentJobResult. It never reads the job's status: see `IsLate`. */
  function Result(s: State, a: nat, i: nat, rep: Report): State {
    if !Authenticated(s, a) || i >= |s.jobs| || s.jobs[i].agent != a then s
    else
      var j := s.jobs[i];
      if WillRetry(j, rep) then s.(jobs := s.jobs[i := Requeued(j, rep.category, s.now)])
      else
        s.(jobs := s.jobs[i := Completed(j, FinalStatus(j, rep), rep.category, s.now)],
           devices := SavedDevices(s.devices, j, rep),
           inventory := if Saves(j, rep) then s.inventory + {j.device.value} else s.inventory,
           tests := s.tests + TestRows(j, rep, s.now))
  }

  function Reap(s: State): State {
    s.(jobs := seq(|s.jobs|, i requires 0 <= i < |s.jobs| =>
         if IsStale(s.jobs[i], s.now) then Reaped(s.jobs[i], s.now) else s.jobs[i]))
  }

  // ----- Self-heal -----

  predicate LoadInduced(c: Category) { c == NegotiateError || c == ConnectTimeout || c == AgentNoResult }

  /** The newest collect job of a device. */
  function Latest(jobs: seq<Job>, d: nat): (k: Option<nat>)
    ensures k.None? <==> forall i :: 0 <= i < |jobs| ==> !CollectsFor(jobs[i], d)
    ensures k.Some? ==> k.value < |jobs| && CollectsFor(jobs[k.value], d)
    ensures k.Some? ==> forall i :: k.value < i < |jobs| ==> !CollectsFor(jobs[i], d)
  {
    if jobs == [] then None
    else if CollectsFor(jobs[|jobs| - 1], d) then Some(|jobs| - 1)
    else
      assert forall m :: 0 <= m < |jobs| - 1 ==> jobs[..|jobs| - 1][m] == jobs[m];
      Latest(jobs[..|jobs| - 1], d)
  }

  predicate FailedSince(j: Job, d: nat, t: int) {
    CollectsFor(j, d) && j.status == Failed && j.finishedAt.Some? && j.finishedAt.value > t
  }

  function RecentFailures(jobs: seq<Job>, d: nat, t: int): set<nat> {
    set i | 0 <= i < |jobs| && FailedSince(jobs[i], d, t)
  }

  /** The WHERE clause of ListSelfHealCandidates. */
  predicate Eligible(s: State, d: nat) {
    var k := Latest(s.jobs, d);
    && d in s.devices
    && k.Some? && s.jobs[k.value].status == Failed && LoadInduced(s.jobs[k.value].category)
    && s.jobs[k.value].finishedAt.Some? && s.jobs[k.value].finishedAt.value < s.now - HEAL_COOLDOWN
    && d !in s.inventory
    && !HasActive(s.jobs, d)
    && |RecentFailures(s.jobs, d, s.now - DAY)| < HEAL_ROUNDS
  }

  function FailedAt(s: State, d: nat): int {
    var k := Latest(s.jobs, d);
    if k.Some? && s.jobs[k.value].finishedAt.Some? then s.jobs[k.value].finishedAt.value else 0
  }

  /** The rows ListSelfHealCandidates may return: eligible devices, oldest failure first, at most 50. */
  ghost predicate IsCandidateList(s: State, cands: seq<nat>) {
    && |cands| <= HEAL_LIMIT
    && (forall i, j :: 0 <= i < j < |cands| ==> cands[i] != cands[j] && FailedAt(s, cands[i]) <= FailedAt(s, cands[j]))
    && (forall i :: 0 <= i < |cands| ==> Eligible(s, cands[i]))
    && (forall d :: d in s.devices && Eligible(s, d) && d !in cands ==>
          |cands| == HEAL_LIMIT && forall i :: 0 <= i < |cands| ==> FailedAt(s, cands[i]) <= FailedAt(s, d))
  }

  /** The sweep's loop: each candidate goes through the same routing as a scan. */
  function Heal(s: State, cands: seq<nat>, picks: map<nat, nat>): State {
    if cands == [] then s
    else
      var before := Heal(s, cands[..|cands| - 1], picks);
      var d := cands[|cands| - 1];
      Enqueue(before, d, Winrm, if d in picks then Some(picks[d]) else None)
  }

  // ----- The machine -----

  /**
    An EnqueueStep checks and inserts at once. An InsertStep is the insert of a handler that routed and
    checked some time before, so what it saw then may no longer hold.
   */
  datatype Step =
    | EnqueueStep(device: nat, protocol: Protocol, pick: Option<nat>)
    | InsertStep(device: nat, agent: nat, protocol: Protocol, pick: Option<nat>)
    | TestStep(agent: nat)
    | PollStep(agent: nat)
    | ResultStep(agent: nat, job: nat, report: Report)
    | ReapStep
    | HealStep(cands: seq<nat>, picks: map<nat, nat>)
    | TickStep(seconds: nat)
    | OutsideStep(agents: seq<Agent>, devices: map<nat, Device>, inventory: set<nat>, tests: seq<TestRow>)

  ghost function Apply(cap: nat, s: State, step: Step): State {
    match step
    case EnqueueStep(d, p, pick) => Enqueue(s, d, p, pick)
    case InsertStep(d, a, p, pick) => Insert(s, d, a, p, pick)
    case TestStep(a) => EnqueueTest(s, a)
    case PollStep(a) => Poll(cap, s, a)
    case ResultStep(a, i, rep) => Result(s, a, i, rep)
    case ReapStep => Reap(s)
    case HealStep(cands, picks) => if IsCandidateList(s, cands) then Heal(s, cands, picks) else s
    case TickStep(dt) => s.(now := s.now + dt)
    case OutsideStep(agents, devices, inventory, tests) =>
      s.(agents := agents, devices := devices, inventory := inventory, tests := tests)
  }

  /** A result for a job that is not waiting for one: a duplicate, or one posted after the reaper acted. */
  predicate IsLate(s: State, step: Step) {
    step.ResultStep? && step.job < |s.jobs| && s.jobs[step.job].status != Dispatched
  }

  /** An insert that comes when the device has an active job after all. */
  predicate IsRace(s: State, step: Step) {
    && step.InsertStep? && step.agent < |s.agents| && step.device in s.devices
    && HasActive(s.jobs, step.device)
  }

  ghost function Exec(cap: nat, s: State, steps: seq<Step>): State
    decreases |steps|
  {
    if steps == [] then s else Apply(cap, Exec(cap, s, steps[..|steps| - 1]), steps[|steps| - 1])
  }
}
