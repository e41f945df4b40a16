/**
  Runs of the alert store call by call: several engines, operators and the rest of the system
  interleave their single database calls, and a handler's later calls are owed until it makes them.
 */
module AlertRuns {
  import opened Domain
  import opened Alerting

  /**
    The store, the timeline events owed by handlers under way, the alerts whose work order is still to
    be created, and the created orders still to be linked to their alert.
   */
  datatype Shared = Shared(store: Store, owed: seq<Event>, toOrder: set<nat>, toLink: map<nat, nat>)

  function Quiet(s: Store): Shared { Shared(s, [], {}, map[]) }

  /**
    One call. The rule and check an Opening carries may be out of date. Logging, Ordering and Linking
    are the later calls of a handler, in any order and at any time.
   */
  datatype Call =
    | Recovering
    | Opening(rule: Rule, check: Check)
    | Escalating
    | Acking(alert: nat)
    | Resolving(alert: nat)
    | Logging(n: nat)
    | Ordering(alert: nat)
    | Linking(alert: nat)
    | Editing(rules: seq<Rule>, checks: seq<Check>, windows: seq<Window>, elapsed: nat, newOrders: nat)

  /** The rows a query changes; the events of a handler are owed. */
  function Changed(sh: Shared, t: Store): Shared
    requires sh.store.events <= t.events
  {
    sh.(store := t.(events := sh.store.events), owed := sh.owed + t.events[|sh.store.events|..])
  }

  /** The insert alone: without the work order, which takes two more calls. */
  function Insert(s: Store, r: Rule, c: Check): Store { Fire(s, r.(autoWorkOrder := false), c) }

  /** Insert the n-th event still owed. */
  function Write(sh: Shared, n: nat): Shared {
    if n < |sh.owed|
    then sh.(store := sh.store.(events := sh.store.events + [sh.owed[n]]), owed := sh.owed[..n] + sh.owed[n + 1..])
    else sh
  }

  /** Insert the work order owed to alert i. */
  function CreateOrder(sh: Shared, i: nat): Shared {
    if i in sh.toOrder
    then sh.(store := sh.store.(orders := sh.store.orders + 1),
             toOrder := sh.toOrder - {i}, toLink := sh.toLink[i := sh.store.orders])
    else sh
  }

  /** SetAlertWorkOrder. */
  function Link(sh: Shared, i: nat): Shared {
    var alerts := sh.store.alerts;
    if i in sh.toLink && i < |alerts|
    then sh.(store := sh.store.(alerts := alerts[i := alerts[i].(workOrder := Some(sh.toLink[i]))]),
             toLink := sh.toLink - {i})
    else sh
  }

  function Make(sh: Shared, call: Call): Shared {
    var s := sh.store;
    match call
    case Recovering => Changed(sh, Recover(s))
    case Opening(r, c) =>
      var next := Changed(sh, Insert(s, r, c));
      if CanOpen(s, r, c) && r.autoWorkOrder then next.(toOrder := next.toOrder + {|s.alerts|}) else next
    case Escalating => Changed(sh, Escalate(s))
    case Acking(i) => Changed(sh, Acknowledge(s, i))
    case Resolving(i) => Changed(sh, ResolveByHand(s, i))
    case Logging(n) => Write(sh, n)
    case Ordering(i) => CreateOrder(sh, i)
    case Linking(i) => Link(sh, i)
    case Editing(rules, checks, windows, elapsed, newOrders) =>
      sh.(store := Edit(s, rules, checks, windows, elapsed, newOrders))
  }

  function Run(sh: Shared, calls: seq<Call>): Shared {
    if calls == [] then sh else Make(Run(sh, calls[..|calls| - 1]), calls[|calls| - 1])
  }

  // ----- The store as it will be once everything owed is done -----

  /** The alerts with the orders already created for them. */
  function Claims(alerts: seq<Alert>, toLink: map<nat, nat>): (out: seq<Alert>)
    ensures |out| == |alerts|
  {
    seq(|alerts|, i requires 0 <= i < |alerts| =>
      if i in toLink then alerts[i].(workOrder := Some(toLink[i])) else alerts[i])
  }

  function View(sh: Shared): Store {
    sh.store.(alerts := Claims(sh.store.alerts, sh.toLink), events := sh.store.events + sh.owed)
  }

  /** Orders are owed only to alerts that have none. */
  ghost predicate Tidy(sh: Shared) {
    && (forall i :: i in sh.toOrder ==> i < |sh.store.alerts| && sh.store.alerts[i].workOrder.None? && i !in sh.toLink)
    && (forall i :: i in sh.toLink ==> i < |sh.store.alerts| && sh.store.alerts[i].workOrder.None?)
  }

  ghost predicate SharedInv(sh: Shared) { Tidy(sh) && Inv(View(sh)) }

  /** A query that treats alerts alike whatever their orders does to the view what it does to the store. */
  lemma ViewOfChange(sh: Shared, t: Store, v: Store)
    requires sh.store.events <= t.events
    requires v == t.(alerts := Claims(t.alerts, sh.toLink), events := View(sh).events + t.events[|sh.store.events|..])
    ensures View(Changed(sh, t)) == v
  {
  }

  lemma SameSlots(sh: Shared, rule: nat, check: nat)
    ensures HasOpen(View(sh).alerts, rule, check) <==> HasOpen(sh.store.alerts, rule, check)
  {
    assert forall i :: 0 <= i < |sh.store.alerts| ==>
      (IsOpenFor(View(sh).alerts[i], rule, check) <==> IsOpenFor(sh.store.alerts[i], rule, check));
  }

  lemma RecoverInView(sh: Shared)
    ensures View(Make(sh, Recovering)) == Recover(View(sh))
  {
    assert RecoveredFlags(View(sh)) == RecoveredFlags(sh.store);
    assert CloseRecovered(View(sh)) == Claims(CloseRecovered(sh.store), sh.toLink);
    ViewOfChange(sh, Recover(sh.store), Recover(View(sh)));
  }

  lemma EscalateInView(sh: Shared)
    ensures View(Make(sh, Escalating)) == Escalate(View(sh))
  {
    assert StaleFlags(View(sh)) == StaleFlags(sh.store);
    assert FlagStale(View(sh)) == Claims(FlagStale(sh.store), sh.toLink);
    ViewOfChange(sh, Escalate(sh.store), Escalate(View(sh)));
  }

  lemma InsertInView(sh: Shared, r: Rule, c: Check)
    requires Tidy(sh)
    ensures View(Changed(sh, Insert(sh.store, r, c))) == Insert(View(sh), r, c)
  {
    SameSlots(sh, r.id, c.id);
    var t, v := Insert(sh.store, r, c), Insert(View(sh), r, c);
    assert v.alerts == Claims(t.alerts, sh.toLink);
    ViewOfChange(sh, t, v);
  }

  lemma AcknowledgeInView(sh: Shared, i: nat)
    ensures View(Changed(sh, Acknowledge(sh.store, i))) == Acknowledge(View(sh), i)
  {
    var t, v := Acknowledge(sh.store, i), Acknowledge(View(sh), i);
    assert v.alerts == Claims(t.alerts, sh.toLink);
    ViewOfChange(sh, t, v);
  }

  lemma ResolveInView(sh: Shared, i: nat)
    ensures View(Changed(sh, ResolveByHand(sh.store, i))) == ResolveByHand(View(sh), i)
  {
    var t, v := ResolveByHand(sh.store, i), ResolveByHand(View(sh), i);
    assert v.alerts == Claims(t.alerts, sh.toLink);
    ViewOfChange(sh, t, v);
  }

  lemma EditInView(sh: Shared, rules: seq<Rule>, checks: seq<Check>, windows: seq<Window>, elapsed: nat, newOrders: nat)
    ensures View(Make(sh, Editing(rules, checks, windows, elapsed, newOrders)))
        == Edit(View(sh), rules, checks, windows, elapsed, newOrders)
  {
    assert ForgetChecks(View(sh).alerts, checks) == Claims(ForgetChecks(sh.store.alerts, checks), sh.toLink);
  }

  /** Linking makes real what the view already shows. */
  lemma LinkInView(sh: Shared, i: nat)
    ensures View(Link(sh, i)) == View(sh)
  {
    var after := Link(sh, i);
    if i in sh.toLink && i < |sh.store.alerts| {
      forall k | 0 <= k < |sh.store.alerts|
        ensures Claims(after.store.alerts, after.toLink)[k] == Claims(sh.store.alerts, sh.toLink)[k]
      {
        assert k != i ==> (k in after.toLink <==> k in sh.toLink);
      }
      assert Claims(after.store.alerts, after.toLink) == Claims(sh.store.alerts, sh.toLink);
    }
  }

  /** The order of the timeline rows does not matter. */
  lemma InvIgnoresEventOrder(s: Store, events: seq<Event>)
    requires Inv(s) && multiset(events) == multiset(s.events)
    ensures Inv(s.(events := events))
  {
    forall i | 0 <= i < |s.alerts|
      ensures TimelineOf(events, i, s.alerts[i])
    {
      assert TimelineOf(s.events, i, s.alerts[i]);
    }
    forall e | e in events
      ensures e.alert < |s.alerts|
    {
      assert e in multiset(s.events);
    }
  }

  lemma LogKeepsInv(sh: Shared, n: nat)
    requires SharedInv(sh) && n < |sh.owed|
    ensures Inv(View(Write(sh, n)))
  {
    var after := View(Write(sh, n));
    assert sh.owed == sh.owed[..n] + [sh.owed[n]] + sh.owed[n + 1..];
    assert multiset(after.events) == multiset(View(sh).events);
    InvIgnoresEventOrder(View(sh), after.events);
  }

  /** A new order belongs to the one alert it was created for. */
  lemma NewOrderKeepsInv(s: Store, i: nat)
    requires Inv(s) && i < |s.alerts| && s.alerts[i].workOrder.None?
    ensures Inv(s.(alerts := s.alerts[i := s.alerts[i].(workOrder := Some(s.orders))], orders := s.orders + 1))
  {
    var t := s.(alerts := s.alerts[i := s.alerts[i].(workOrder := Some(s.orders))], orders := s.orders + 1);
    forall k | 0 <= k < |t.alerts|
      ensures TimelineOf(t.events, k, t.alerts[k])
    {
      assert TimelineOf(s.events, k, s.alerts[k]);
    }
    NewOrderKeepsKeys(s.alerts, s.orders, i);
  }

  lemma NewOrderKeepsKeys(alerts: seq<Alert>, orders: nat, i: nat)
    requires OneOpen(alerts) && OwnOrder(alerts, orders) && i < |alerts| && alerts[i].workOrder.None?
    ensures OneOpen(alerts[i := alerts[i].(workOrder := Some(orders))])
    ensures OwnOrder(alerts[i := alerts[i].(workOrder := Some(orders))], orders + 1)
  {
    var t := alerts[i := alerts[i].(workOrder := Some(orders))];
    forall k, m, rule, check | 0 <= k < m < |t| && IsOpenFor(t[k], rule, check)
      ensures !IsOpenFor(t[m], rule, check)
    {
      assert IsOpenFor(alerts[k], rule, check);
      assert !IsOpenFor(alerts[m], rule, check);
    }
  }

  lemma OrderKeepsInv(sh: Shared, i: nat)
    requires SharedInv(sh) && i in sh.toOrder
    ensures Inv(View(CreateOrder(sh, i)))
  {
    var v, after := View(sh), View(CreateOrder(sh, i));
    NewOrderKeepsInv(v, i);
    assert after.alerts == v.alerts[i := v.alerts[i].(workOrder := Some(v.orders))];
  }

  /** A query that keeps every alert's order keeps the books tidy. */
  lemma ChangeKeepsTidy(sh: Shared, t: Store)
    requires Tidy(sh) && sh.store.events <= t.events && |sh.store.alerts| <= |t.alerts|
    requires forall i :: 0 <= i < |sh.store.alerts| ==> t.alerts[i].workOrder == sh.store.alerts[i].workOrder
    ensures Tidy(Changed(sh, t))
  {
  }

  lemma CallKeepsTidy(sh: Shared, call: Call)
    requires Tidy(sh)
    ensures Tidy(Make(sh, call))
  {
    var s := sh.store;
    match call
    case Recovering => ChangeKeepsTidy(sh, Recover(s));
    case Opening(r, c) => ChangeKeepsTidy(sh, Insert(s, r, c));
    case Escalating => ChangeKeepsTidy(sh, Escalate(s));
    case Acking(i) => ChangeKeepsTidy(sh, Acknowledge(s, i));
    case Resolving(i) => ChangeKeepsTidy(sh, ResolveByHand(s, i));
    case _ =>
  }

  lemma CallKeepsInv(sh: Shared, call: Call)
    requires SharedInv(sh)
    ensures SharedInv(Make(sh, call))
  {
    CallKeepsTidy(sh, call);
    var v := View(sh);
    match call
    case Recovering => RecoverInView(sh); RecoverKeepsInv(v);
    case Opening(r, c) => InsertInView(sh, r, c); FireKeepsInv(v, r.(autoWorkOrder := false), c);
    case Escalating => EscalateInView(sh); EscalateKeepsInv(v);
    case Acking(i) =>
      AcknowledgeInView(sh, i);
      if i < |v.alerts| && v.alerts[i].phase == Open { HandKeepsInv(v, i, Acknowledged, WasAcknowledged); }
    case Resolving(i) =>
      ResolveInView(sh, i);
      if i < |v.alerts| && v.alerts[i].phase != Resolved { HandKeepsInv(v, i, Resolved, WasResolved); }
    case Logging(n) => if n < |sh.owed| { LogKeepsInv(sh, n); }
    case Ordering(i) => if i in sh.toOrder { OrderKeepsInv(sh, i); }
    case Linking(i) => LinkInView(sh, i);
    case Editing(rules, checks, windows, elapsed, newOrders) =>
      EditInView(sh, rules, checks, windows, elapsed, newOrders);
      EditKeepsInv(v, rules, checks, windows, elapsed, newOrders);
  }

  /** Every interleaving of single calls keeps the shared invariant. */
  lemma {:induction false} RunKeepsInv(sh: Shared, calls: seq<Call>)
    requires SharedInv(sh)
    ensures SharedInv(Run(sh, calls))
  {
    if calls != [] {
      RunKeepsInv(sh, calls[..|calls| - 1]);
      CallKeepsInv(Run(sh, calls[..|calls| - 1]), calls[|calls| - 1]);
    }
  }

  lemma QuietView(s: Store)
    ensures View(Quiet(s)) == s && Tidy(Quiet(s))
  {
    assert Claims(s.alerts, map[]) == s.alerts;
    assert s.events + [] == s.events;
  }

  /** Work orders stay apart even in the raw table, and the slots are those of the view. */
  lemma RawGuarantees(sh: Shared)
    requires SharedInv(sh)
    ensures OneOpen(sh.store.alerts)
    ensures OwnOrder(sh.store.alerts, sh.store.orders)
    ensures forall i :: i in sh.toOrder || i in sh.toLink ==>
        i < |sh.store.alerts| && sh.store.alerts[i].workOrder.None?
  {
    var v := View(sh);
    forall i, k, rule, check | 0 <= i < k < |sh.store.alerts| && IsOpenFor(sh.store.alerts[i], rule, check)
      ensures !IsOpenFor(sh.store.alerts[k], rule, check)
    {
      assert IsOpenFor(v.alerts[i], rule, check);
      assert !IsOpenFor(v.alerts[k], rule, check);
    }
    forall i | 0 <= i < |sh.store.alerts| && sh.store.alerts[i].workOrder.Some?
      ensures v.alerts[i] == sh.store.alerts[i]
    {
    }
  }

  /**
    The whole promise. From a quiet sound store, under any interleaving: at every moment at most one
    unresolved alert per rule and check and no work order on two alerts; and whenever nothing is owed,
    every timeline says exactly what happened to its alert.
   */
  lemma RunsAreSound(s: Store, calls: seq<Call>)
    requires Inv(s)
    ensures var sh := Run(Quiet(s), calls);
            && OneOpen(sh.store.alerts) && OwnOrder(sh.store.alerts, sh.store.orders)
            && (sh.owed == [] && sh.toLink == map[] ==> Inv(sh.store))
  {
    QuietView(s);
    RunKeepsInv(Quiet(s), calls);
    var sh := Run(Quiet(s), calls);
    RawGuarantees(sh);
    if sh.owed == [] && sh.toLink == map[] {
      assert View(sh).alerts == sh.store.alerts && View(sh).events == sh.store.events;
    }
  }

  // ----- The handlers are their calls -----

  function FireCalls(s: Store, r: Rule, c: Check): seq<Call> {
    [Opening(r, c), Logging(0)] + if r.autoWorkOrder then [Ordering(|s.alerts|), Linking(|s.alerts|)] else []
  }

  /** Undisturbed, the calls of fire add up to fire. */
  lemma FireIsItsCalls(s: Store, r: Rule, c: Check)
    ensures Run(Quiet(s), FireCalls(s, r, c)) == Quiet(Fire(s, r, c))
  {
    var n := |s.alerts|;
    var one := Make(Quiet(s), Opening(r, c));
    var two := Make(one, Logging(0));
    RunTwo(Quiet(s), Opening(r, c), Logging(0));
    assert s.events + [] == s.events;
    if r.autoWorkOrder {
      var first := [Opening(r, c), Logging(0)];
      RunConcat(Quiet(s), first, [Ordering(n), Linking(n)]);
      RunTwo(two, Ordering(n), Linking(n));
      assert Make(Make(two, Ordering(n)), Linking(n)) == Quiet(Fire(s, r, c)) by { OrderAndLink(s, r, c, two); }
    } else {
      assert FireCalls(s, r, c) == [Opening(r, c), Logging(0)];
    }
  }

  lemma OrderAndLink(s: Store, r: Rule, c: Check, two: Shared)
    requires r.autoWorkOrder && two == Make(Make(Quiet(s), Opening(r, c)), Logging(0))
    ensures Make(Make(two, Ordering(|s.alerts|)), Linking(|s.alerts|)) == Quiet(Fire(s, r, c))
  {
  }

  // ----- A whole pass, call by call -----

  /** n times: write the first event still owed. */
  function LogCalls(n: nat): seq<Call> { if n == 0 then [] else [Logging(0)] + LogCalls(n - 1) }

  lemma WriteFirst(sh: Shared)
    requires sh.owed != []
    ensures Write(sh, 0) == sh.(store := sh.store.(events := sh.store.events + [sh.owed[0]]), owed := sh.owed[1..])
  {
    assert sh.owed[..0] + sh.owed[1..] == sh.owed[1..];
  }

  lemma FirstThenRest(a: seq<Event>, b: seq<Event>)
    requires b != []
    ensures a + [b[0]] + b[1..] == a + b
  {
  }

  lemma RunCons(sh: Shared, x: Call, rest: seq<Call>)
    ensures Run(sh, [x] + rest) == Run(Make(sh, x), rest)
  {
    RunConcat(sh, [x], rest);
    assert [x][..0] == [];
  }

  function AfterLogs(sh: Shared, n: nat): Shared
    decreases n
  {
    if n == 0 then sh else AfterLogs(Write(sh, 0), n - 1)
  }

  lemma {:induction false} RunIsLogs(sh: Shared, n: nat)
    ensures Run(sh, LogCalls(n)) == AfterLogs(sh, n)
    decreases n
  {
    if n > 0 {
      RunCons(sh, Logging(0), LogCalls(n - 1));
      RunIsLogs(Write(sh, 0), n - 1);
    }
  }

  /** What is owed, written out. */
  function Logged(sh: Shared): Shared { sh.(store := sh.store.(events := sh.store.events + sh.owed), owed := []) }

  /** Every owed event written in order. */
  lemma {:induction false} LogAll(sh: Shared)
    ensures AfterLogs(sh, |sh.owed|) == Logged(sh)
    decreases |sh.owed|
  {
    if sh.owed == [] {
      assert sh.store.events + sh.owed == sh.store.events;
    } else {
      WriteFirst(sh);
      LogAll(Write(sh, 0));
      FirstThenRest(sh.store.events, sh.owed);
    }
  }

  /** One update, then one event for each of the n rows it returned. */
  function SweepCalls(update: Call, n: nat): seq<Call> { [update] + LogCalls(n) }

  lemma SweepIsItsCalls(sh: Shared, update: Call, n: nat)
    ensures Run(sh, SweepCalls(update, n)) == AfterLogs(Make(sh, update), n)
  {
    RunCons(sh, update, LogCalls(n));
    RunIsLogs(Make(sh, update), n);
  }

  lemma RecoverIsItsCalls(s: Store)
    ensures Run(Quiet(s), SweepCalls(Recovering, |Recover(s).events| - |s.events|)) == Quiet(Recover(s))
  {
    SweepIsItsCalls(Quiet(s), Recovering, |Recover(s).events| - |s.events|);
    LogsAfterChange(s, Recover(s));
  }

  lemma EscalateIsItsCalls(s: Store)
    ensures Run(Quiet(s), SweepCalls(Escalating, |Escalate(s).events| - |s.events|)) == Quiet(Escalate(s))
  {
    SweepIsItsCalls(Quiet(s), Escalating, |Escalate(s).events| - |s.events|);
    LogsAfterChange(s, Escalate(s));
  }

  lemma LogsAfterChange(s: Store, t: Store)
    requires s.events <= t.events
    ensures AfterLogs(Changed(Quiet(s), t), |t.events| - |s.events|) == Quiet(t)
  {
    LogAll(Changed(Quiet(s), t));
    ChangedThenLogged(s, t);
  }

  lemma ChangedThenLogged(s: Store, t: Store)
    requires s.events <= t.events
    ensures |Changed(Quiet(s), t).owed| == |t.events| - |s.events|
    ensures Logged(Changed(Quiet(s), t)) == Quiet(t)
  {
    var owed := t.events[|s.events|..];
    assert [] + owed == owed;
    assert s.events + owed == t.events;
  }

  /** The calls of the nested loop up to a point: those of fire for every matching pair outside maintenance. */
  function LoopCalls(m: Store, start: Tally, k: nat, j: nat): seq<Call>
    requires InGrid(m, k, j)
    decreases k, j
  {
    if j > 0 then
      var p := FireUpTo(m, start, k, j - 1);
      var r, c := m.rules[k], m.checks[j - 1];
      LoopCalls(m, start, k, j - 1)
      + if Due(r, c) && !Suppressed(p.store.windows, p.store.now, c) then FireCalls(p.store, r, c) else []
    else if k > 0 then LoopCalls(m, start, k - 1, |m.checks|)
    else []
  }

  lemma {:induction false} LoopIsItsCalls(m: Store, start: Tally, k: nat, j: nat)
    requires InGrid(m, k, j)
    ensures Run(Quiet(m), LoopCalls(m, start, k, j)) == Quiet(FireUpTo(m, start, k, j).store)
    decreases k, j
  {
    if j > 0 {
      LoopIsItsCalls(m, start, k, j - 1);
      var p := FireUpTo(m, start, k, j - 1);
      var r, c := m.rules[k], m.checks[j - 1];
      FirePairStore(p, r, c);
      var more := if Due(r, c) && !Suppressed(p.store.windows, p.store.now, c) then FireCalls(p.store, r, c) else [];
      RunConcat(Quiet(m), LoopCalls(m, start, k, j - 1), more);
      FireIsItsCalls(p.store, r, c);
    } else if k > 0 {
      LoopIsItsCalls(m, start, k - 1, |m.checks|);
    }
  }

  lemma FirePairStore(p: Progress, r: Rule, c: Check)
    ensures FirePair(p, r, c).store ==
            if Due(r, c) && !Suppressed(p.store.windows, p.store.now, c) then Fire(p.store, r, c) else p.store
  {
  }

  /** All calls of one undisturbed pass, in order. */
  function PassCalls(s: Store): seq<Call> {
    var m := Recover(s);
    var f := Fired(s).store;
    SweepCalls(Recovering, |m.events| - |s.events|)
    + LoopCalls(m, RecoverTally(s), |m.rules|, 0)
    + SweepCalls(Escalating, |Escalate(f).events| - |f.events|)
  }

  /** They lead from a quiet store to the store of the pass, with nothing owed. */
  lemma PassIsItsCalls(s: Store)
    ensures Run(Quiet(s), PassCalls(s)) == Quiet(Pass(s).store)
  {
    var m := Recover(s);
    var f := Fired(s).store;
    var sweep := SweepCalls(Recovering, |m.events| - |s.events|);
    var loop := LoopCalls(m, RecoverTally(s), |m.rules|, 0);
    var last := SweepCalls(Escalating, |Escalate(f).events| - |f.events|);
    RecoverIsItsCalls(s);
    LoopIsItsCalls(m, RecoverTally(s), |m.rules|, 0);
    EscalateIsItsCalls(f);
    RunConcat(Quiet(s), sweep, loop);
    RunConcat(Quiet(s), sweep + loop, last);
  }

  lemma RunTwo(sh: Shared, x: Call, y: Call)
    ensures Run(sh, [x, y]) == Make(Make(sh, x), y)
  {
    assert [x, y][..1] == [x] && [x][..0] == [];
    assert Run(sh, []) == sh && Run(sh, [x]) == Make(sh, x);
  }

  lemma {:induction false} RunConcat(sh: Shared, a: seq<Call>, b: seq<Call>)
    ensures Run(sh, a + b) == Run(Run(sh, a), b)
    decreases |b|
  {
    if b == [] {
      assert a + b == a;
    } else {
      var init := b[..|b| - 1];
      RunConcat(sh, a, init);
      assert (a + b)[..|a + b| - 1] == a + init;
    }
  }
}
