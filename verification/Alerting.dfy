/**
  The alert engine: rule matching, maintenance windows, the open/resolve/escalate queries and one
  evaluation pass, over a store shared by several engines and by operators.
 */
module Alerting {
  import opened Domain

  datatype Health = HealthUp | HealthDown | HealthWarning | HealthUnknown

  datatype Rule = Rule(id: nat, trigger: Health, minFailures: nat, category: Option<nat>,
                       autoWorkOrder: bool, escalateAfterMinutes: nat, enabled: bool)

  datatype Check = Check(id: nat, device: nat, location: Option<nat>, category: nat,
                         health: Health, failures: nat, enabled: bool)

  datatype Scope = EverythingScope | DeviceScope(device: Option<nat>) | SiteScope(location: Option<nat>)

  datatype Window = Window(scope: Scope, startsAt: nat, endsAt: nat)

  datatype Phase = Open | Acknowledged | Resolved

  /** An alert row; its id is its position. A deleted check leaves the reference empty. */
  datatype Alert = Alert(rule: nat, device: nat, check: Option<nat>, phase: Phase,
                         openedAt: nat, escalated: bool, workOrder: Option<nat>)

  datatype EventKind = WasOpened | WasAcknowledged | WasResolved | WasEscalated

  datatype Event = Event(alert: nat, kind: EventKind)

  datatype Store = Store(rules: seq<Rule>, checks: seq<Check>, windows: seq<Window>, now: nat,
                         alerts: seq<Alert>, events: seq<Event>, orders: nat)

  datatype Tally = Tally(openings: nat, workOrders: nat, resolved: nat, suppressed: nat, escalated: nat)

  datatype Progress = Progress(store: Store, tally: Tally)

  const MINUTE: nat := 60

  // ----- Decisions -----

  predicate Matches(r: Rule, c: Check) {
    c.health == r.trigger && c.failures >= r.minFailures && (r.category.None? || r.category.value == c.category)
  }

  /** A pair the pass looks at: both rows listed as enabled, and matching. */
  predicate Due(r: Rule, c: Check) { r.enabled && c.enabled && Matches(r, c) }

  predicate IsActive(w: Window, now: nat) { w.startsAt <= now < w.endsAt }

  /** The window names this check's device, its exact location, or everything. */
  predicate Shields(w: Window, c: Check) {
    match w.scope
    case EverythingScope => true
    case DeviceScope(device) => device == Some(c.device)
    case SiteScope(location) => location.Some? && c.location == location
  }

  predicate Suppressed(windows: seq<Window>, now: nat, c: Check) {
    exists k :: 0 <= k < |windows| && IsActive(windows[k], now) && Shields(windows[k], c)
  }

  predicate IsOpenFor(a: Alert, rule: nat, check: nat) {
    a.phase != Resolved && a.rule == rule && a.check == Some(check)
  }

  predicate HasOpen(alerts: seq<Alert>, rule: nat, check: nat) {
    exists i :: 0 <= i < |alerts| && IsOpenFor(alerts[i], rule, check)
  }

  predicate RuleKnown(rules: seq<Rule>, id: nat) { exists k :: 0 <= k < |rules| && rules[k].id == id }

  predicate CheckKnown(checks: seq<Check>, id: nat) { exists k :: 0 <= k < |checks| && checks[k].id == id }

  predicate CheckIsUp(checks: seq<Check>, id: nat) {
    exists k :: 0 <= k < |checks| && checks[k].id == id && checks[k].health == HealthUp
  }

  predicate Recovered(s: Store, a: Alert) {
    a.phase != Resolved && a.check.Some? && CheckIsUp(s.checks, a.check.value)
  }

  predicate RuleGaveUp(rules: seq<Rule>, a: Alert, now: nat) {
    exists k :: 0 <= k < |rules| && rules[k].id == a.rule && rules[k].escalateAfterMinutes > 0
                && a.openedAt + rules[k].escalateAfterMinutes * MINUTE < now
  }

  predicate Stale(s: Store, a: Alert) { a.phase == Open && !a.escalated && RuleGaveUp(s.rules, a, s.now) }

  // ----- Queries -----

  /** The positions of the set flags, in order: the ids an UPDATE returns. */
  function Ids(flags: seq<bool>): (ids: seq<nat>)
    ensures forall k :: 0 <= k < |ids| ==> ids[k] < |flags|
  {
    if flags == [] then []
    else
      var n := |flags| - 1;
      Ids(flags[..n]) + if flags[n] then [n] else []
  }

  function Stamp(ids: seq<nat>, kind: EventKind): seq<Event> {
    if ids == [] then [] else Stamp(ids[..|ids| - 1], kind) + [Event(ids[|ids| - 1], kind)]
  }

  function RecoveredFlags(s: Store): (flags: seq<bool>)
    ensures |flags| == |s.alerts|
  {
    seq(|s.alerts|, i requires 0 <= i < |s.alerts| => Recovered(s, s.alerts[i]))
  }

  function StaleFlags(s: Store): (flags: seq<bool>)
    ensures |flags| == |s.alerts|
  {
    seq(|s.alerts|, i requires 0 <= i < |s.alerts| => Stale(s, s.alerts[i]))
  }

  function CloseRecovered(s: Store): (alerts: seq<Alert>)
    ensures |alerts| == |s.alerts|
  {
    seq(|s.alerts|, i requires 0 <= i < |s.alerts| =>
      if Recovered(s, s.alerts[i]) then s.alerts[i].(phase := Resolved) else s.alerts[i])
  }

  function FlagStale(s: Store): (alerts: seq<Alert>)
    ensures |alerts| == |s.alerts|
  {
    seq(|s.alerts|, i requires 0 <= i < |s.alerts| =>
      if Stale(s, s.alerts[i]) then s.alerts[i].(escalated := true) else s.alerts[i])
  }

  /** Resolve recovered alerts and log each. */
  function Recover(s: Store): Store {
    s.(alerts := CloseRecovered(s), events := s.events + Stamp(Ids(RecoveredFlags(s)), WasResolved))
  }

  /** Escalate stale alerts and log each. */
  function Escalate(s: Store): Store {
    s.(alerts := FlagStale(s), events := s.events + Stamp(Ids(StaleFlags(s)), WasEscalated))
  }

  /** OpenAlert returns a row: both references exist and no unresolved alert holds the slot. */
  predicate CanOpen(s: Store, r: Rule, c: Check) {
    RuleKnown(s.rules, r.id) && CheckKnown(s.checks, c.id) && !HasOpen(s.alerts, r.id, c.id)
  }

  /** fire: open, log, and create and link the work order when the rule asks for it. */
  function Fire(s: Store, r: Rule, c: Check): Store {
    if !CanOpen(s, r, c) then s
    else
      var order := if r.autoWorkOrder then Some(s.orders) else None;
      s.(alerts := s.alerts + [Alert(r.id, c.device, Some(c.id), Open, s.now, false, order)],
         events := s.events + [Event(|s.alerts|, WasOpened)],
         orders := s.orders + if r.autoWorkOrder then 1 else 0)
  }

  function Acknowledge(s: Store, i: nat): Store {
    if i < |s.alerts| && s.alerts[i].phase == Open
    then s.(alerts := s.alerts[i := s.alerts[i].(phase := Acknowledged)],
            events := s.events + [Event(i, WasAcknowledged)])
    else s
  }

  function ResolveByHand(s: Store, i: nat): Store {
    if i < |s.alerts| && s.alerts[i].phase != Resolved
    then s.(alerts := s.alerts[i := s.alerts[i].(phase := Resolved)], events := s.events + [Event(i, WasResolved)])
    else s
  }

  // ----- The pass -----

  /** One (rule, check) pair of the nested loop. */
  function FirePair(p: Progress, r: Rule, c: Check): Progress {
    if !Due(r, c) then p
    else if Suppressed(p.store.windows, p.store.now, c) then p.(tally := p.tally.(suppressed := p.tally.suppressed + 1))
    else if !CanOpen(p.store, r, c) then p
    else Progress(Fire(p.store, r, c),
                  p.tally.(openings := p.tally.openings + 1,
                           workOrders := p.tally.workOrders + if r.autoWorkOrder then 1 else 0))
  }

  predicate InGrid(s: Store, k: nat, j: nat) { k <= |s.rules| && j <= |s.checks| && (k == |s.rules| ==> j == 0) }

  /** After all checks against the first k rules and the first j checks against rule k. */
  function FireUpTo(s: Store, start: Tally, k: nat, j: nat): Progress
    requires InGrid(s, k, j)
    decreases k, j
  {
    if j > 0 then FirePair(FireUpTo(s, start, k, j - 1), s.rules[k], s.checks[j - 1])
    else if k > 0 then FireUpTo(s, start, k - 1, |s.checks|)
    else Progress(s, start)
  }

  function RecoverTally(s: Store): Tally { Tally(0, 0, |Ids(RecoveredFlags(s))|, 0, 0) }

  function Fired(s: Store): Progress { FireUpTo(Recover(s), RecoverTally(s), |s.rules|, 0) }

  /** Evaluate: resolve, then fire every pair, then escalate. */
  function Pass(s: Store): Progress {
    var fired := Fired(s);
    Progress(Escalate(fired.store), fired.tally.(escalated := |Ids(StaleFlags(fired.store))|))
  }

  // ----- Invariants -----

  /** At most one unresolved alert per rule and check. */
  ghost predicate OneOpen(alerts: seq<Alert>) {
    forall i, k, rule, check :: 0 <= i < k < |alerts| && IsOpenFor(alerts[i], rule, check) ==>
      !IsOpenFor(alerts[k], rule, check)
  }

  /** No work order is linked to two alerts, and each linked one exists. */
  ghost predicate OwnOrder(alerts: seq<Alert>, orders: nat) {
    && (forall i :: 0 <= i < |alerts| && alerts[i].workOrder.Some? ==> alerts[i].workOrder.value < orders)
    && (forall i, k :: 0 <= i < k < |alerts| && alerts[i].workOrder.Some? ==>
      alerts[k].workOrder != alerts[i].workOrder)
  }

  function Times(events: seq<Event>, i: nat, kind: EventKind): nat { multiset(events)[Event(i, kind)] }

  /** The timeline of one alert says exactly what happened to it. */
  ghost predicate TimelineOf(events: seq<Event>, i: nat, a: Alert) {
    && Times(events, i, WasOpened) == 1
    && Times(events, i, WasResolved) == (if a.phase == Resolved then 1 else 0)
    && Times(events, i, WasEscalated) == (if a.escalated then 1 else 0)
    && (a.phase == Acknowledged ==> Times(events, i, WasAcknowledged) == 1)
    && (a.phase == Open ==> Times(events, i, WasAcknowledged) == 0)
    && Times(events, i, WasAcknowledged) <= 1
  }

  ghost predicate Timeline(s: Store) {
    && (forall i :: 0 <= i < |s.alerts| ==> TimelineOf(s.events, i, s.alerts[i]))
    && (forall e :: e in s.events ==> e.alert < |s.alerts|)
  }

  /** Primary keys, and the trigger values the rules table admits. */
  ghost predicate WellKeyed(rules: seq<Rule>, checks: seq<Check>) {
    && (forall i, k :: 0 <= i < k < |rules| ==> rules[i].id != rules[k].id)
    && (forall i, k :: 0 <= i < k < |checks| ==> checks[i].id != checks[k].id)
    && (forall i :: 0 <= i < |rules| ==> rules[i].trigger == HealthDown || rules[i].trigger == HealthWarning)
  }

  ghost predicate Inv(s: Store) {
    && OneOpen(s.alerts)
    && OwnOrder(s.alerts, s.orders)
    && Timeline(s)
    && (forall i :: 0 <= i < |s.alerts| ==> s.alerts[i].openedAt <= s.now)
  }

  lemma {:induction false} IdsCount(flags: seq<bool>, i: nat)
    ensures multiset(Ids(flags))[i] == if i < |flags| && flags[i] then 1 else 0
  {
    if flags != [] {
      var n := |flags| - 1;
      IdsCount(flags[..n], i);
    }
  }

  lemma {:induction false} StampCount(ids: seq<nat>, kind: EventKind, i: nat, other: EventKind)
    ensures Times(Stamp(ids, kind), i, other) == if kind == other then multiset(ids)[i] else 0
  {
    if ids != [] {
      var n := |ids| - 1;
      assert ids == ids[..n] + [ids[n]];
      StampCount(ids[..n], kind, i, other);
    }
  }

  lemma {:induction false} StampAlerts(ids: seq<nat>, kind: EventKind, bound: nat)
    requires forall k :: 0 <= k < |ids| ==> ids[k] < bound
    ensures forall e :: e in Stamp(ids, kind) ==> e.alert < bound
  {
    if ids != [] { StampAlerts(ids[..|ids| - 1], kind, bound); }
  }

  /** Logging a batch adds one event of its kind for each flagged alert and nothing else. */
  lemma BatchLogged(events: seq<Event>, flags: seq<bool>, kind: EventKind, i: nat, other: EventKind)
    ensures Times(events + Stamp(Ids(flags), kind), i, other)
         == Times(events, i, other) + if kind == other && i < |flags| && flags[i] then 1 else 0
  {
    IdsCount(flags, i);
    StampCount(Ids(flags), kind, i, other);
  }

  /** A row that may be resolved, escalated or detached from its check, but is otherwise the same. */
  predicate Advances(x: Alert, y: Alert) {
    && y.rule == x.rule && y.workOrder == x.workOrder && y.openedAt == x.openedAt
    && (y.check == x.check || y.check.None?)
    && (x.phase == Resolved ==> y.phase == Resolved)
  }

  lemma AdvancingKeepsKeys(x: seq<Alert>, y: seq<Alert>, orders: nat)
    requires OneOpen(x) && OwnOrder(x, orders)
    requires |x| == |y| && forall i :: 0 <= i < |x| ==> Advances(x[i], y[i])
    ensures OneOpen(y) && OwnOrder(y, orders)
  {
    forall i, k, rule, check | 0 <= i < k < |y| && IsOpenFor(y[i], rule, check)
      ensures !IsOpenFor(y[k], rule, check)
    {
      assert Advances(x[i], y[i]) && Advances(x[k], y[k]);
      assert IsOpenFor(x[i], rule, check);
    }
    assert forall i :: 0 <= i < |x| ==> Advances(x[i], y[i]) && y[i].workOrder == x[i].workOrder;
  }

  lemma RecoverTimeline(s: Store, i: nat)
    requires i < |s.alerts| && TimelineOf(s.events, i, s.alerts[i])
    ensures TimelineOf(Recover(s).events, i, Recover(s).alerts[i])
  {
    BatchLogged(s.events, RecoveredFlags(s), WasResolved, i, WasOpened);
    BatchLogged(s.events, RecoveredFlags(s), WasResolved, i, WasResolved);
    BatchLogged(s.events, RecoveredFlags(s), WasResolved, i, WasEscalated);
    BatchLogged(s.events, RecoveredFlags(s), WasResolved, i, WasAcknowledged);
  }

  lemma EscalateTimeline(s: Store, i: nat)
    requires i < |s.alerts| && TimelineOf(s.events, i, s.alerts[i])
    ensures TimelineOf(Escalate(s).events, i, Escalate(s).alerts[i])
  {
    BatchLogged(s.events, StaleFlags(s), WasEscalated, i, WasOpened);
    BatchLogged(s.events, StaleFlags(s), WasEscalated, i, WasResolved);
    BatchLogged(s.events, StaleFlags(s), WasEscalated, i, WasEscalated);
    BatchLogged(s.events, StaleFlags(s), WasEscalated, i, WasAcknowledged);
  }

  lemma RecoverKeepsInv(s: Store)
    requires Inv(s)
    ensures Inv(Recover(s))
  {
    var t := Recover(s);
    forall i | 0 <= i < |t.alerts|
      ensures TimelineOf(t.events, i, t.alerts[i])
    {
      RecoverTimeline(s, i);
    }
    StampAlerts(Ids(RecoveredFlags(s)), WasResolved, |s.alerts|);
    AdvancingKeepsKeys(s.alerts, t.alerts, s.orders);
  }

  lemma EscalateKeepsInv(s: Store)
    requires Inv(s)
    ensures Inv(Escalate(s))
  {
    var t := Escalate(s);
    forall i | 0 <= i < |t.alerts|
      ensures TimelineOf(t.events, i, t.alerts[i])
    {
      EscalateTimeline(s, i);
    }
    StampAlerts(Ids(StaleFlags(s)), WasEscalated, |s.alerts|);
    AdvancingKeepsKeys(s.alerts, t.alerts, s.orders);
  }

  /** No event mentions an alert that does not exist yet. */
  lemma NoEarlyEvent(s: Store, kind: EventKind)
    requires Timeline(s)
    ensures Times(s.events, |s.alerts|, kind) == 0
  {
    if Event(|s.alerts|, kind) in s.events { assert false; }
  }

  /** One more event leaves every other count alone. */
  lemma OneMoreEvent(events: seq<Event>, e: Event, i: nat)
    ensures forall kind :: Times(events + [e], i, kind) == Times(events, i, kind) + if e == Event(i, kind) then 1 else 0
  {
  }

  lemma FireTimeline(s: Store, r: Rule, c: Check)
    requires Timeline(s)
    ensures Timeline(Fire(s, r, c))
  {
    var t := Fire(s, r, c);
    if CanOpen(s, r, c) {
      forall i | 0 <= i < |t.alerts|
        ensures TimelineOf(t.events, i, t.alerts[i])
      {
        OneMoreEvent(s.events, Event(|s.alerts|, WasOpened), i);
        if i < |s.alerts| {
          assert TimelineOf(s.events, i, s.alerts[i]);
        } else {
          NoEarlyEvent(s, WasOpened);
          NoEarlyEvent(s, WasResolved);
          NoEarlyEvent(s, WasEscalated);
          NoEarlyEvent(s, WasAcknowledged);
        }
      }
    }
  }

  lemma OpeningKeepsOneOpen(alerts: seq<Alert>, a: Alert)
    requires OneOpen(alerts) && a.check.Some? && !HasOpen(alerts, a.rule, a.check.value)
    ensures OneOpen(alerts + [a])
  {
    var all := alerts + [a];
    forall i, k, rule, check | 0 <= i < k < |all| && IsOpenFor(all[i], rule, check)
      ensures !IsOpenFor(all[k], rule, check)
    {
      assert IsOpenFor(alerts[i], rule, check);
    }
  }

  lemma FireKeepsInv(s: Store, r: Rule, c: Check)
    requires Inv(s)
    ensures Inv(Fire(s, r, c))
  {
    FireTimeline(s, r, c);
    var t := Fire(s, r, c);
    if CanOpen(s, r, c) {
      var n := |s.alerts|;
      assert t.alerts[..n] == s.alerts && t.alerts == s.alerts + [t.alerts[n]];
      OpeningKeepsOneOpen(s.alerts, t.alerts[n]);
    }
  }

  lemma HandKeepsInv(s: Store, i: nat, phase: Phase, kind: EventKind)
    requires Inv(s) && i < |s.alerts| && s.alerts[i].phase != Resolved
    requires (phase == Acknowledged && kind == WasAcknowledged && s.alerts[i].phase == Open)
        || (phase == Resolved && kind == WasResolved)
    ensures Inv(s.(alerts := s.alerts[i := s.alerts[i].(phase := phase)], events := s.events + [Event(i, kind)]))
  {
    var t := s.(alerts := s.alerts[i := s.alerts[i].(phase := phase)], events := s.events + [Event(i, kind)]);
    forall k | 0 <= k < |t.alerts|
      ensures TimelineOf(t.events, k, t.alerts[k])
    {
      assert TimelineOf(s.events, k, s.alerts[k]);
      OneMoreEvent(s.events, Event(i, kind), k);
    }
    AdvancingKeepsKeys(s.alerts, t.alerts, s.orders);
  }

  // ----- Edits from outside -----

  function ForgetChecks(alerts: seq<Alert>, checks: seq<Check>): (out: seq<Alert>)
    ensures |out| == |alerts|
  {
    seq(|alerts|, i requires 0 <= i < |alerts| =>
      if alerts[i].check.Some? && !CheckKnown(checks, alerts[i].check.value)
      then alerts[i].(check := None) else alerts[i])
  }

  /** Any edit of rules, checks, windows and work orders; a check that disappears is cleared from its alerts. */
  function Edit(
    s: Store, rules: seq<Rule>, checks: seq<Check>, windows: seq<Window>, elapsed: nat, newOrders: nat
  ): Store {
    s.(rules := rules, checks := checks, windows := windows, now := s.now + elapsed,
       orders := s.orders + newOrders, alerts := ForgetChecks(s.alerts, checks))
  }

  lemma EditKeepsInv(s: Store, rules: seq<Rule>, checks: seq<Check>, windows: seq<Window>, elapsed: nat, newOrders: nat)
    requires Inv(s)
    ensures Inv(Edit(s, rules, checks, windows, elapsed, newOrders))
  {
    var t := Edit(s, rules, checks, windows, elapsed, newOrders);
    forall i | 0 <= i < |t.alerts|
      ensures TimelineOf(t.events, i, t.alerts[i])
    {
      assert TimelineOf(s.events, i, s.alerts[i]);
    }
    AdvancingKeepsKeys(s.alerts, t.alerts, s.orders);
  }

  lemma {:induction false} FireUpToKeepsInv(s: Store, start: Tally, k: nat, j: nat)
    requires InGrid(s, k, j) && Inv(s)
    ensures Inv(FireUpTo(s, start, k, j).store)
    decreases k, j
  {
    if j > 0 {
      FireUpToKeepsInv(s, start, k, j - 1);
      FireKeepsInv(FireUpTo(s, start, k, j - 1).store, s.rules[k], s.checks[j - 1]);
    } else if k > 0 {
      FireUpToKeepsInv(s, start, k - 1, |s.checks|);
    }
  }

  /** A whole undisturbed pass keeps the invariant too. */
  lemma PassKeepsInv(s: Store)
    requires Inv(s)
    ensures Inv(Pass(s).store)
  {
    RecoverKeepsInv(s);
    FireUpToKeepsInv(Recover(s), RecoverTally(s), |s.rules|, 0);
    EscalateKeepsInv(Fired(s).store);
  }

  // ----- What a pass does -----

  /** What a pass should do with a pair, read off the store as it is once recovered alerts are resolved. */
  datatype Outcome = NotMatching | Shielded | AlreadyOpen | Opens

  function OutcomeOf(m: Store, r: Rule, c: Check): Outcome {
    if !Due(r, c) then NotMatching
    else if Suppressed(m.windows, m.now, c) then Shielded
    else if HasOpen(m.alerts, r.id, c.id) then AlreadyOpen
    else Opens
  }

  /** How many of the processed pairs have the given outcome. */
  function Count(m: Store, k: nat, j: nat, o: Outcome): nat
    requires InGrid(m, k, j)
    decreases k, j
  {
    if j > 0 then Count(m, k, j - 1, o) + (if OutcomeOf(m, m.rules[k], m.checks[j - 1]) == o then 1 else 0)
    else if k > 0 then Count(m, k - 1, |m.checks|, o)
    else 0
  }

  /** How many of the processed pairs open an alert under an auto-work-order rule. */
  function OrderCount(m: Store, k: nat, j: nat): nat
    requires InGrid(m, k, j)
    decreases k, j
  {
    if j > 0 then
      OrderCount(m, k, j - 1)
      + if OutcomeOf(m, m.rules[k], m.checks[j - 1]) == Opens && m.rules[k].autoWorkOrder then 1 else 0
    else if k > 0 then OrderCount(m, k - 1, |m.checks|)
    else 0
  }

  predicate Before(k': nat, j': nat, k: nat, j: nat) { k' < k || (k' == k && j' < j) }

  predicate OnlyAlerts(m: Store, t: Store) {
    t.rules == m.rules && t.checks == m.checks && t.windows == m.windows && t.now == m.now
  }

  lemma {:induction false} FireFrame(m: Store, start: Tally, k: nat, j: nat)
    requires InGrid(m, k, j)
    ensures var t := FireUpTo(m, start, k, j).store;
            && OnlyAlerts(m, t)
            && |m.alerts| <= |t.alerts| && t.alerts[..|m.alerts|] == m.alerts
    decreases k, j
  {
    if j > 0 {
      FireFrame(m, start, k, j - 1);
    } else if k > 0 {
      FireFrame(m, start, k - 1, |m.checks|);
    }
  }

  /** Opening one slot fills that slot and no other. */
  lemma FireFillsItsSlot(s: Store, r: Rule, c: Check, rule: nat, check: nat)
    ensures HasOpen(Fire(s, r, c).alerts, rule, check)
       <==> HasOpen(s.alerts, rule, check) || (CanOpen(s, r, c) && rule == r.id && check == c.id)
  {
    if CanOpen(s, r, c) {
      var t := Fire(s, r, c);
      if HasOpen(s.alerts, rule, check) {
        var i :| 0 <= i < |s.alerts| && IsOpenFor(s.alerts[i], rule, check);
        assert IsOpenFor(t.alerts[i], rule, check);
      }
      if rule == r.id && check == c.id {
        assert IsOpenFor(t.alerts[|s.alerts|], rule, check);
      }
    }
  }

  /** At any point of the loop a slot is taken exactly if it was, or if its pair was processed and opens. */
  lemma {:induction false} SlotAt(m: Store, start: Tally, k: nat, j: nat, k': nat, j': nat)
    requires InGrid(m, k, j) && WellKeyed(m.rules, m.checks) && k' < |m.rules| && j' < |m.checks|
    ensures HasOpen(FireUpTo(m, start, k, j).store.alerts, m.rules[k'].id, m.checks[j'].id)
       <==> HasOpen(m.alerts, m.rules[k'].id, m.checks[j'].id)
            || (Before(k', j', k, j) && OutcomeOf(m, m.rules[k'], m.checks[j']) == Opens)
    decreases k, j
  {
    if j > 0 {
      var r, c := m.rules[k], m.checks[j - 1];
      var p := FireUpTo(m, start, k, j - 1);
      SlotAt(m, start, k, j - 1, k', j');
      FireFrame(m, start, k, j - 1);
      FireFillsItsSlot(p.store, r, c, m.rules[k'].id, m.checks[j'].id);
      if k' == k && j' == j - 1 {
        assert RuleKnown(m.rules, r.id) && CheckKnown(m.checks, c.id);
      } else {
        assert m.rules[k'].id != r.id || m.checks[j'].id != c.id;
      }
    } else if k > 0 {
      SlotAt(m, start, k - 1, |m.checks|, k', j');
    }
  }

  lemma {:induction false} FireCounts(m: Store, start: Tally, k: nat, j: nat)
    requires InGrid(m, k, j) && WellKeyed(m.rules, m.checks)
    ensures var p := FireUpTo(m, start, k, j);
            && p.tally == start.(openings := start.openings + Count(m, k, j, Opens),
                                 suppressed := start.suppressed + Count(m, k, j, Shielded),
                                 workOrders := start.workOrders + OrderCount(m, k, j))
            && |p.store.alerts| == |m.alerts| + Count(m, k, j, Opens)
            && p.store.orders == m.orders + OrderCount(m, k, j)
    decreases k, j
  {
    if j > 0 {
      FireCounts(m, start, k, j - 1);
      FireFrame(m, start, k, j - 1);
      SlotAt(m, start, k, j - 1, k, j - 1);
      assert RuleKnown(m.rules, m.rules[k].id) && CheckKnown(m.checks, m.checks[j - 1].id);
    } else if k > 0 {
      FireCounts(m, start, k - 1, |m.checks|);
    }
  }

  /** Processed pairs that match, however they end. */
  function DueCount(m: Store, k: nat, j: nat): nat
    requires InGrid(m, k, j)
    decreases k, j
  {
    if j > 0 then DueCount(m, k, j - 1) + if Due(m.rules[k], m.checks[j - 1]) then 1 else 0
    else if k > 0 then DueCount(m, k - 1, |m.checks|)
    else 0
  }

  lemma {:induction false} OutcomesPartition(m: Store, k: nat, j: nat)
    requires InGrid(m, k, j)
    ensures Count(m, k, j, Opens) + Count(m, k, j, Shielded) + Count(m, k, j, AlreadyOpen) == DueCount(m, k, j)
    decreases k, j
  {
    if j > 0 { OutcomesPartition(m, k, j - 1); } else if k > 0 { OutcomesPartition(m, k - 1, |m.checks|); }
  }

  /** Escalating leaves every slot as it is. */
  lemma EscalateKeepsSlots(s: Store, rule: nat, check: nat)
    ensures HasOpen(Escalate(s).alerts, rule, check) <==> HasOpen(s.alerts, rule, check)
  {
    assert forall i :: 0 <= i < |s.alerts| ==>
      (IsOpenFor(FlagStale(s)[i], rule, check) <==> IsOpenFor(s.alerts[i], rule, check));
  }

  /**
    After an undisturbed pass every matching pair outside maintenance has an unresolved alert, every
    other pair has one exactly if it had one once recovered alerts were resolved.
   */
  lemma PassFillsSlots(s: Store, k: nat, j: nat)
    requires WellKeyed(s.rules, s.checks) && k < |s.rules| && j < |s.checks|
    ensures var r, c := s.rules[k], s.checks[j];
            HasOpen(Pass(s).store.alerts, r.id, c.id) <==>
              HasOpen(Recover(s).alerts, r.id, c.id) || (Due(r, c) && !Suppressed(s.windows, s.now, c))
  {
    SlotAt(Recover(s), RecoverTally(s), |s.rules|, 0, k, j);
    EscalateKeepsSlots(Fired(s).store, s.rules[k].id, s.checks[j].id);
  }

  /** Matching pairs = opened + suppressed + already open; work orders are the openings under auto rules. */
  lemma PassAccounts(s: Store)
    requires WellKeyed(s.rules, s.checks)
    ensures var m, p, n := Recover(s), Pass(s), |s.rules|;
            && p.tally.openings + p.tally.suppressed + Count(m, n, 0, AlreadyOpen) == DueCount(m, n, 0)
            && p.tally.openings == Count(m, n, 0, Opens) && p.tally.suppressed == Count(m, n, 0, Shielded)
            && p.tally.openings == |p.store.alerts| - |s.alerts|
            && p.tally.workOrders == OrderCount(m, n, 0) == p.store.orders - s.orders
  {
    FireCounts(Recover(s), RecoverTally(s), |s.rules|, 0);
    OutcomesPartition(Recover(s), |s.rules|, 0);
  }

  /**
    What a pass does to an alert that was already there: it ends resolved exactly if it was or its
    check is up, and escalated exactly if it was or it is still open past its rule's limit. An alert
    whose check was deleted is therefore never resolved by a pass.
   */
  lemma PassResolvesExactly(s: Store, i: nat)
    requires i < |s.alerts|
    ensures |s.alerts| <= |Pass(s).store.alerts|
    ensures var a, b := s.alerts[i], Pass(s).store.alerts[i];
            && (b.phase == Resolved <==> a.phase == Resolved || (a.check.Some? && CheckIsUp(s.checks, a.check.value)))
            && (b.phase != Resolved ==> b.phase == a.phase)
            && (a.check.None? ==> b.phase == a.phase)
            && (b.escalated <==> a.escalated || (b.phase == Open && RuleGaveUp(s.rules, a, s.now)))
            && b.rule == a.rule && b.check == a.check && b.workOrder == a.workOrder
  {
    FireFrame(Recover(s), RecoverTally(s), |s.rules|, 0);
    assert Fired(s).store.alerts[i] == Recover(s).alerts[i];
  }

  // ----- A pass in plain terms -----

  /** A maintenance window that is running and names everything, the check's device, or its exact location. */
  ghost predicate InMaintenance(s: Store, c: Check) {
    exists k :: 0 <= k < |s.windows| && s.windows[k].startsAt <= s.now && s.now < s.windows[k].endsAt
                && (s.windows[k].scope == EverythingScope
                    || s.windows[k].scope == DeviceScope(Some(c.device))
                    || (c.location.Some? && s.windows[k].scope == SiteScope(c.location)))
  }

  /** An alert of the pair that nobody resolved. */
  ghost predicate Unresolved(alerts: seq<Alert>, rule: nat, check: nat) {
    exists i :: 0 <= i < |alerts| && alerts[i].rule == rule && alerts[i].check == Some(check)
                && (alerts[i].phase == Open || alerts[i].phase == Acknowledged)
  }

  lemma PlainTerms(s: Store, alerts: seq<Alert>, r: Rule, c: Check)
    ensures Suppressed(s.windows, s.now, c) <==> InMaintenance(s, c)
    ensures HasOpen(alerts, r.id, c.id) <==> Unresolved(alerts, r.id, c.id)
  {
    if Suppressed(s.windows, s.now, c) {
      var k :| 0 <= k < |s.windows| && IsActive(s.windows[k], s.now) && Shields(s.windows[k], c);
      assert s.windows[k].startsAt <= s.now;
    }
    if InMaintenance(s, c) {
      var k :| 0 <= k < |s.windows| && s.windows[k].startsAt <= s.now && s.now < s.windows[k].endsAt
               && (s.windows[k].scope == EverythingScope
                   || s.windows[k].scope == DeviceScope(Some(c.device))
                   || (c.location.Some? && s.windows[k].scope == SiteScope(c.location)));
      assert IsActive(s.windows[k], s.now) && Shields(s.windows[k], c);
    }
    if HasOpen(alerts, r.id, c.id) {
      var i :| 0 <= i < |alerts| && IsOpenFor(alerts[i], r.id, c.id);
      assert alerts[i].rule == r.id;
    }
    if Unresolved(alerts, r.id, c.id) {
      var i :| 0 <= i < |alerts| && alerts[i].rule == r.id && alerts[i].check == Some(c.id)
               && (alerts[i].phase == Open || alerts[i].phase == Acknowledged);
      assert IsOpenFor(alerts[i], r.id, c.id);
    }
  }

  /**
    After a pass an enabled rule and an enabled check have an unresolved alert if the check is in the
    rule's status with at least its number of failures and of its category, outside maintenance; and
    otherwise, as for any other pair, exactly if they had one and the check is not up.
   */
  lemma PassInPlainTerms(s: Store, k: nat, j: nat)
    requires WellKeyed(s.rules, s.checks) && k < |s.rules| && j < |s.checks|
    ensures var r, c := s.rules[k], s.checks[j];
            Unresolved(Pass(s).store.alerts, r.id, c.id) <==>
              || (Unresolved(s.alerts, r.id, c.id) && c.health != HealthUp)
              || (r.enabled && c.enabled && c.health == r.trigger && r.minFailures <= c.failures
                  && (r.category.Some? ==> r.category == Some(c.category)) && !InMaintenance(s, c))
  {
    var r, c := s.rules[k], s.checks[j];
    PassFillsSlots(s, k, j);
    PlainTerms(s, Pass(s).store.alerts, r, c);
    PlainTerms(s, s.alerts, r, c);
    RecoveredSlot(s, j, r.id);
  }

  lemma RecoveredSlot(s: Store, j: nat, rule: nat)
    requires WellKeyed(s.rules, s.checks) && j < |s.checks|
    ensures var c := s.checks[j];
            HasOpen(Recover(s).alerts, rule, c.id) <==> HasOpen(s.alerts, rule, c.id) && c.health != HealthUp
  {
    var c := s.checks[j];
    assert CheckIsUp(s.checks, c.id) <==> c.health == HealthUp;
    if HasOpen(s.alerts, rule, c.id) && c.health != HealthUp {
      var i :| 0 <= i < |s.alerts| && IsOpenFor(s.alerts[i], rule, c.id);
      assert IsOpenFor(Recover(s).alerts[i], rule, c.id);
    }
  }

  /**
    What a new alert says: the rule, the check and its device, open since now, with an order if the rule
    asks for one.
   */
  lemma NewAlertFields(s: Store, r: Rule, c: Check)
    requires CanOpen(s, r, c)
    ensures var t := Fire(s, r, c); var a := t.alerts[|s.alerts|];
            && t.alerts == s.alerts + [a]
            && a.rule == r.id && a.device == c.device && a.check == Some(c.id)
            && a.phase == Open && a.openedAt == s.now && !a.escalated
            && a.workOrder == (if r.autoWorkOrder then Some(s.orders) else None)
            && t.orders == s.orders + (if r.autoWorkOrder then 1 else 0)
  {
  }

  /** Escalation: an open alert, not yet escalated, older than its rule's limit in minutes, if the rule has one. */
  lemma EscalatesExactly(s: Store, i: nat)
    requires i < |s.alerts|
    ensures var a, b := s.alerts[i], Escalate(s).alerts[i];
            && b == a.(escalated := b.escalated)
            && (b.escalated && !a.escalated <==>
                  && a.phase == Open && !a.escalated
                  && exists k :: 0 <= k < |s.rules| && s.rules[k].id == a.rule
                                 && s.rules[k].escalateAfterMinutes > 0
                                 && s.now - a.openedAt > 60 * s.rules[k].escalateAfterMinutes)
  {
  }

  lemma {:induction false} IdsCard(flags: seq<bool>)
    ensures |Ids(flags)| == |set i: nat | i < |flags| && flags[i]|
  {
    var hits := set i: nat | i < |flags| && flags[i];
    if flags == [] {
      assert hits == {};
    } else {
      var n: nat := |flags| - 1;
      IdsCard(flags[..n]);
      var before := set i: nat | i < |flags[..n]| && flags[..n][i];
      assert hits == if flags[n] then before + {n} else before;
    }
  }

  /** The alerts whose status a pass changes to resolved. */
  ghost function ResolvedBy(s: Store, t: Store): set<nat> {
    set i: nat | i < |s.alerts| && i < |t.alerts| && s.alerts[i].phase != Resolved && t.alerts[i].phase == Resolved
  }

  ghost function EscalatedBy(s: Store, t: Store): set<nat> {
    set i: nat | i < |s.alerts| && i < |t.alerts| && !s.alerts[i].escalated && t.alerts[i].escalated
  }

  lemma SweepCounts(s: Store)
    ensures |Ids(RecoveredFlags(s))| == |ResolvedBy(s, Recover(s))|
    ensures |Ids(StaleFlags(s))| == |EscalatedBy(s, Escalate(s))|
  {
    var gone, late := RecoveredFlags(s), StaleFlags(s);
    IdsCard(gone);
    IdsCard(late);
    assert ResolvedBy(s, Recover(s)) == set i: nat | i < |gone| && gone[i];
    assert EscalatedBy(s, Escalate(s)) == set i: nat | i < |late| && late[i];
  }

  /** The resolved and escalated counts of a pass are the alerts whose columns it changes. */
  lemma PassReports(s: Store)
    requires WellKeyed(s.rules, s.checks)
    ensures Pass(s).tally.resolved == |ResolvedBy(s, Pass(s).store)|
    ensures Pass(s).tally.escalated == |EscalatedBy(s, Pass(s).store)|
  {
    FireCounts(Recover(s), RecoverTally(s), |s.rules|, 0);
    SweepCounts(s);
    SweepCounts(Fired(s).store);
    OnlyRecoveryResolves(s);
    OnlyEscalationEscalates(s);
  }

  lemma OnlyRecoveryResolves(s: Store)
    ensures ResolvedBy(s, Pass(s).store) == ResolvedBy(s, Recover(s))
  {
    var m := Recover(s);
    FireFrame(m, RecoverTally(s), |s.rules|, 0);
    assert forall i: nat :: i < |s.alerts| ==> Fired(s).store.alerts[i] == m.alerts[i];
  }

  lemma OnlyEscalationEscalates(s: Store)
    requires WellKeyed(s.rules, s.checks)
    ensures EscalatedBy(s, Pass(s).store) == EscalatedBy(Fired(s).store, Escalate(Fired(s).store))
  {
    var m, f := Recover(s), Fired(s).store;
    FireFrame(m, RecoverTally(s), |s.rules|, 0);
    assert forall i: nat :: i < |s.alerts| ==> f.alerts[i] == m.alerts[i];
    forall i: nat | i in EscalatedBy(f, Escalate(f))
      ensures i < |s.alerts|
    {
      if i >= |s.alerts| { OpeningsSettle(m, RecoverTally(s), |s.rules|, 0, i); }
    }
  }

  /** A deleted check is cleared from its alerts, a kept one stays, and nothing else of an alert changes. */
  lemma DeletedCheckIsForgotten(
    s: Store, rules: seq<Rule>, checks: seq<Check>, windows: seq<Window>, elapsed: nat, newOrders: nat, i: nat
  )
    requires i < |s.alerts|
    ensures var a, b := s.alerts[i], Edit(s, rules, checks, windows, elapsed, newOrders).alerts[i];
            && b == a.(check := b.check) && (b.check.Some? ==> b.check == a.check)
            && (b.check.Some? <==>
                  a.check.Some? && exists k :: 0 <= k < |checks| && checks[k].id == a.check.value)
  {
  }

  // ----- Repeating a pass -----

  /** An alert that neither recovers nor goes stale at this instant. */
  predicate Settled(s: Store, a: Alert) { !Recovered(s, a) && !Stale(s, a) }

  /** A freshly opened alert is not of a recovered check, because no rule triggers on up. */
  lemma {:induction false} OpeningsSettle(m: Store, start: Tally, k: nat, j: nat, i: nat)
    requires InGrid(m, k, j) && WellKeyed(m.rules, m.checks)
    requires |m.alerts| <= i < |FireUpTo(m, start, k, j).store.alerts|
    ensures Settled(m, FireUpTo(m, start, k, j).store.alerts[i])
    decreases k, j
  {
    FireFrame(m, start, k, j);
    if j > 0 {
      var p := FireUpTo(m, start, k, j - 1);
      FireFrame(m, start, k, j - 1);
      if i < |p.store.alerts| {
        OpeningsSettle(m, start, k, j - 1, i);
      } else {
        assert Due(m.rules[k], m.checks[j - 1]);
        assert !CheckIsUp(m.checks, m.checks[j - 1].id);
      }
    } else if k > 0 {
      OpeningsSettle(m, start, k - 1, |m.checks|, i);
    }
  }

  lemma PassSettles(s: Store, i: nat)
    requires WellKeyed(s.rules, s.checks) && i < |Pass(s).store.alerts|
    ensures Settled(Pass(s).store, Pass(s).store.alerts[i])
  {
    var m := Recover(s);
    FireFrame(m, RecoverTally(s), |s.rules|, 0);
    var f := Fired(s).store;
    if i < |s.alerts| {
      assert f.alerts[i] == m.alerts[i] && !Recovered(s, m.alerts[i]);
    } else {
      OpeningsSettle(m, RecoverTally(s), |s.rules|, 0, i);
    }
  }

  lemma {:induction false} NoneFlagged(flags: seq<bool>)
    requires forall i :: 0 <= i < |flags| ==> !flags[i]
    ensures Ids(flags) == []
  {
    if flags != [] { NoneFlagged(flags[..|flags| - 1]); }
  }

  /** A store whose alerts are all settled is left alone by both sweeps. */
  lemma SettledSweeps(s: Store)
    requires forall i :: 0 <= i < |s.alerts| ==> Settled(s, s.alerts[i])
    ensures Recover(s) == s && Escalate(s) == s
    ensures Ids(RecoveredFlags(s)) == [] && Ids(StaleFlags(s)) == []
  {
    NoneFlagged(RecoveredFlags(s));
    NoneFlagged(StaleFlags(s));
    assert CloseRecovered(s) == s.alerts && FlagStale(s) == s.alerts;
  }

  /** Firing opens nothing when every unsuppressed matching pair already has its alert. */
  lemma {:induction false} NothingToFire(m: Store, start: Tally, k: nat, j: nat)
    requires InGrid(m, k, j)
    requires forall k', j' :: 0 <= k' < |m.rules| && 0 <= j' < |m.checks| ==>
        OutcomeOf(m, m.rules[k'], m.checks[j']) != Opens
    ensures FireUpTo(m, start, k, j).store == m
    ensures FireUpTo(m, start, k, j).tally == start.(suppressed := start.suppressed + Count(m, k, j, Shielded))
    decreases k, j
  {
    if j > 0 {
      NothingToFire(m, start, k, j - 1);
      assert OutcomeOf(m, m.rules[k], m.checks[j - 1]) != Opens;
    } else if k > 0 {
      NothingToFire(m, start, k - 1, |m.checks|);
    }
  }

  lemma {:induction false} SameShielded(m: Store, t: Store, k: nat, j: nat)
    requires OnlyAlerts(m, t) && InGrid(m, k, j)
    ensures Count(m, k, j, Shielded) == Count(t, k, j, Shielded)
    decreases k, j
  {
    if j > 0 { SameShielded(m, t, k, j - 1); } else if k > 0 { SameShielded(m, t, k - 1, |m.checks|); }
  }

  /**
    Repeating a pass with nothing changed touches nothing: no alert, event or work order; only the
    suppressed pairs are counted again.
   */
  lemma PassIsIdempotent(s: Store)
    requires WellKeyed(s.rules, s.checks)
    ensures var once := Pass(s); var twice := Pass(once.store);
            && twice.store == once.store
            && twice.tally == Tally(0, 0, 0, once.tally.suppressed, 0)
  {
    var m, t, n := Recover(s), Pass(s).store, |s.rules|;
    FireFrame(m, RecoverTally(s), n, 0);
    forall i | 0 <= i < |t.alerts|
      ensures Settled(t, t.alerts[i])
    {
      PassSettles(s, i);
    }
    SettledSweeps(t);
    forall k, j | 0 <= k < |t.rules| && 0 <= j < |t.checks|
      ensures OutcomeOf(t, t.rules[k], t.checks[j]) != Opens
    {
      PassFillsSlots(s, k, j);
    }
    NothingToFire(t, RecoverTally(t), n, 0);
    SameShielded(m, t, n, 0);
    FireCounts(m, RecoverTally(s), n, 0);
  }

  // ----- The engine over stored rows -----

  datatype Suppression = Suppression(everything: bool, devices: set<nat>, locations: set<nat>)

  predicate Blocks(sp: Suppression, c: Check) {
    sp.everything || c.device in sp.devices || (c.location.Some? && c.location.value in sp.locations)
  }

  class Engine {
    var rules: seq<Rule>
    var checks: seq<Check>
    var windows: seq<Window>
    var now: nat
    var alerts: seq<Alert>
    var events: seq<Event>
    var orders: nat

    constructor (s: Store)
      ensures View() == s
    {
      rules, checks, windows, now := s.rules, s.checks, s.windows, s.now;
      alerts, events, orders := s.alerts, s.events, s.orders;
    }

    function View(): Store
      reads this
    {
      Store(rules, checks, windows, now, alerts, events, orders)
    }

    /** loadSuppression: blocks answers for every check as the active windows do one by one. */
    method LoadSuppression() returns (sp: Suppression)
      ensures forall c :: Blocks(sp, c) <==> Suppressed(windows, now, c)
    {
      sp := Suppression(false, {}, {});
      for k := 0 to |windows|
        invariant forall c :: Blocks(sp, c) <==> Suppressed(windows[..k], now, c)
      {
        ghost var was := sp;
        var w := windows[k];
        if IsActive(w, now) {
          match w.scope
          case EverythingScope => sp := sp.(everything := true);
          case DeviceScope(device) => if device.Some? { sp := sp.(devices := sp.devices + {device.value}); }
          case SiteScope(location) => if location.Some? { sp := sp.(locations := sp.locations + {location.value}); }
        }
        forall c ensures Blocks(sp, c) <==> Suppressed(windows[..k + 1], now, c) {
          OneMoreWindow(windows, k, now, c);
          assert Blocks(sp, c) <==> Blocks(was, c) || (IsActive(w, now) && Shields(w, c));
        }
      }
      assert windows[..|windows|] == windows;
    }

    /** The query behind recovery: close the rows and return their ids. */
    method ResolveRecoveredAlerts() returns (ids: seq<nat>)
      modifies this`alerts
      ensures ids == Ids(RecoveredFlags(old(View()))) && alerts == CloseRecovered(old(View()))
    {
      ids := Ids(RecoveredFlags(View()));
      alerts := CloseRecovered(View());
    }

    /** The query behind escalation. */
    method EscalateStaleAlerts() returns (ids: seq<nat>)
      modifies this`alerts
      ensures ids == Ids(StaleFlags(old(View()))) && alerts == FlagStale(old(View()))
    {
      ids := Ids(StaleFlags(View()));
      alerts := FlagStale(View());
    }

    /** Log one event for each returned id; the count is what the pass reports. */
    method Log(ids: seq<nat>, kind: EventKind) returns (n: nat)
      modifies this`events
      ensures events == old(events) + Stamp(ids, kind) && n == |ids|
    {
      n := 0;
      for k := 0 to |ids|
        invariant events == old(events) + Stamp(ids[..k], kind) && n == k
      {
        assert ids[..k + 1][..k] == ids[..k];
        n := n + 1;
        events := events + [Event(ids[k], kind)];
      }
      assert ids[..|ids|] == ids;
    }

    method FireAlert(r: Rule, c: Check, res: Tally) returns (out: Tally)
      requires Due(r, c) && !Suppressed(windows, now, c)
      modifies this`alerts, this`events, this`orders
      ensures Progress(View(), out) == FirePair(Progress(old(View()), res), r, c)
    {
      out := res;
      if !CanOpen(View(), r, c) {
        return;
      }
      var id := |alerts|;
      alerts := alerts + [Alert(r.id, c.device, Some(c.id), Open, now, false, None)];
      out := out.(openings := out.openings + 1);
      events := events + [Event(id, WasOpened)];
      if !r.autoWorkOrder {
        return;
      }
      var order := orders;
      orders := orders + 1;
      alerts := alerts[id := alerts[id].(workOrder := Some(order))];
      out := out.(workOrders := out.workOrders + 1);
    }

    /** One full pass. */
    method Evaluate() returns (res: Tally)
      modifies this`alerts, this`events, this`orders
      ensures Progress(View(), res) == Pass(old(View()))
    {
      var ids := ResolveRecoveredAlerts();
      var n := Log(ids, WasResolved);
      res := Tally(0, 0, n, 0, 0);
      ghost var m, start := View(), res;
      var sp := LoadSuppression();
      for k := 0 to |rules|
        invariant OnlyAlerts(m, View()) && Progress(View(), res) == FireUpTo(m, start, k, 0)
      {
        for j := 0 to |checks|
          invariant OnlyAlerts(m, View()) && Progress(View(), res) == FireUpTo(m, start, k, j)
        {
          var r, c := rules[k], checks[j];
          if !Due(r, c) {
            continue;
          }
          if Blocks(sp, c) {
            res := res.(suppressed := res.suppressed + 1);
            continue;
          }
          res := FireAlert(r, c, res);
        }
      }
      var stale := EscalateStaleAlerts();
      n := Log(stale, WasEscalated);
      res := res.(escalated := n);
    }
  }

  lemma OneMoreWindow(windows: seq<Window>, k: nat, now: nat, c: Check)
    requires k < |windows|
    ensures Suppressed(windows[..k + 1], now, c) <==>
            Suppressed(windows[..k], now, c) || (IsActive(windows[k], now) && Shields(windows[k], c))
  {
    var more := windows[..k + 1];
    if Suppressed(windows[..k], now, c) {
      var i :| 0 <= i < k && IsActive(windows[..k][i], now) && Shields(windows[..k][i], c);
      assert IsActive(more[i], now) && Shields(more[i], c);
    }
    if IsActive(windows[k], now) && Shields(windows[k], c) {
      assert IsActive(more[k], now) && Shields(more[k], c);
    }
    if Suppressed(more, now, c) {
      var i :| 0 <= i < k + 1 && IsActive(more[i], now) && Shields(more[i], c);
      assert i < k ==> IsActive(windows[..k][i], now) && Shields(windows[..k][i], c);
    }
  }
}
