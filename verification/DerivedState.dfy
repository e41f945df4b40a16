/**
  When each management state is derived, read off the history of credential tests, the proofs, the
  collect jobs under way and the agents of the device's site.
 */
module DerivedState {
  import opened Domain
  import opened AccessMap
  import opened DeviceStatus

  /** What the tests of a device tell. */
  datatype Facts = Facts(
    tested: bool, anySuccess: bool, webLogin: bool, faulted: bool, denied: bool, rejected: bool, brokenWmi: bool)

  ghost predicate SomeRow(rows: seq<TestRow>, d: nat) { exists i :: 0 <= i < |rows| && rows[i].device == d }

  ghost predicate SomeSuccess(rows: seq<TestRow>, d: nat) {
    exists i :: 0 <= i < |rows| && rows[i].device == d && rows[i].success
  }

  ghost predicate SomeWebLogin(rows: seq<TestRow>, d: nat) {
    exists i :: 0 <= i < |rows| && rows[i].device == d && rows[i].success && rows[i].kind in {HttpBasic, Http}
  }

  ghost predicate SomeOf(rows: seq<TestRow>, d: nat, categories: set<Category>) {
    exists i :: 0 <= i < |rows| && rows[i].device == d && rows[i].category in categories
  }

  ghost predicate SomeWinrmFault(rows: seq<TestRow>, d: nat) {
    exists i :: 0 <= i < |rows| && rows[i].device == d && rows[i].kind == Winrm && rows[i].category == OperationFault
  }

  /** From the aggregate: any test ever. */
  ghost function HistoryFacts(hist: seq<TestRow>, d: nat): Facts {
    Facts(SomeRow(hist, d), SomeSuccess(hist, d), SomeWebLogin(hist, d), SomeOf(hist, d, {OperationFault}),
          SomeOf(hist, d, {AccessDenied, WmiAccessDenied}), SomeOf(hist, d, {AuthFailed}),
          SomeOf(hist, d, {NamespaceUnavailable}))
  }

  /** From the fallback: the newest test of each kind; a fault counts only over WinRM, a broken repository never. */
  ghost function NewestFacts(latest: seq<TestRow>, d: nat): Facts {
    Facts(SomeRow(latest, d), SomeSuccess(latest, d), SomeWebLogin(latest, d), SomeWinrmFault(latest, d),
          SomeOf(latest, d, {AccessDenied, WmiAccessDenied}), SomeOf(latest, d, {AuthFailed}), false)
  }

  lemma TraitsAreRows(rows: seq<TestRow>, d: nat)
    ensures Any(rows, d, Present) <==> SomeRow(rows, d)
    ensures Any(rows, d, Succeeded) <==> SomeSuccess(rows, d)
    ensures Any(rows, d, WebSucceeded) <==> SomeWebLogin(rows, d)
    ensures Any(rows, d, WinrmFaulted) <==> SomeWinrmFault(rows, d)
  {
    AnyMeansSome(rows, d, Present);
    AnyMeansSome(rows, d, Succeeded);
    AnyMeansSome(rows, d, WebSucceeded);
    AnyMeansSome(rows, d, WinrmFaulted);
  }

  lemma CategoriesAreRows(rows: seq<TestRow>, d: nat)
    ensures Any(rows, d, Faulted) <==> SomeOf(rows, d, {OperationFault})
    ensures Any(rows, d, DeniedAccess) <==> SomeOf(rows, d, {AccessDenied, WmiAccessDenied})
    ensures Any(rows, d, Rejected) <==> SomeOf(rows, d, {AuthFailed})
    ensures Any(rows, d, BrokenWmi) <==> SomeOf(rows, d, {NamespaceUnavailable})
  {
    AnyMeansSome(rows, d, Faulted);
    AnyMeansSome(rows, d, DeniedAccess);
    AnyMeansSome(rows, d, Rejected);
    AnyMeansSome(rows, d, BrokenWmi);
  }

  // ----- From facts to the state -----

  /** No method is proven, and no recorder stands in for one. */
  predicate Open(m: StatusMaps, d: nat, dev: Device) {
    AccessOf(m.access, d).proven == {} && !(dev.deviceClass == Camera && d in m.nvrCams)
  }

  /** The site has an agent, but none online. */
  predicate AgentsDown(m: StatusMaps, dev: Device) {
    exists loc :: loc in m.anySites && dev.location == Some(loc) && loc !in m.onlineSites
  }

  predicate OnWindows(dev: Device) { dev.os == Windows || dev.deviceClass == Endpoint }

  predicate ExpectsCredential(dev: Device) {
    || dev.os == Linux
    || dev.deviceClass in
         {Switch, Router, Firewall, ServerClass, WirelessController, VirtualHost, NvrClass, Pbx, Database}
  }

  /** No test says that a credential is valid for something less than collection. */
  predicate NothingHalfWorks(f: Facts) { !f.faulted && !f.webLogin && !(f.denied && !f.anySuccess) }

  /** A clean rejection, and no credential that authenticated. */
  predicate OnlyRejected(f: Facts) { f.rejected && !f.anySuccess && !f.faulted && !f.denied }

  /** The signal record and the test map carry these facts. */
  ghost predicate Reads(m: StatusMaps, d: nat, f: Facts) {
    && SignalFor(m, d) == CredSignal(f.anySuccess, f.webLogin, f.faulted, f.denied, f.rejected, f.brokenWmi)
    && (WinrmLegacy(TestOf(m.test, d)) ==> f.faulted)
    && (d in m.test && m.test[d].tested <==> f.tested)
    && (f.webLogin ==> f.anySuccess)
    && (!f.tested ==> !f.anySuccess && !f.webLogin && !f.faulted && !f.denied && !f.rejected && !f.brokenWmi)
  }

  /** An authenticated but faulted host goes to an agent, unless its WMI repository is broken. */
  lemma LegacyStates(m: StatusMaps, d: nat, dev: Device, f: Facts)
    requires Reads(m, d, f)
    ensures var state := Derive(m, d, dev).0;
            && (state == Managed <==> !Open(m, d, dev))
            && (state == NeedsAgent <==> Open(m, d, dev) && f.faulted && !f.brokenWmi && !AgentsDown(m, dev))
            && (state == WebAuthenticated <==> Open(m, d, dev) && !f.faulted && f.webLogin)
            && (state == NotAuthorized <==> Open(m, d, dev) && !f.faulted && !f.webLogin && f.denied && !f.anySuccess)
  {
  }

  /** A job under way shows as pending, or as offline where the site's agents are down. */
  lemma PendingStates(m: StatusMaps, d: nat, dev: Device, f: Facts)
    requires Reads(m, d, f)
    ensures var state := Derive(m, d, dev).0;
            && (state == PendingCollection <==>
                  Open(m, d, dev) && NothingHalfWorks(f) && d in m.active && !AgentsDown(m, dev))
            && (state == AgentOffline <==>
                  && Open(m, d, dev) && AgentsDown(m, dev)
                  && ((f.faulted && !f.brokenWmi) || (NothingHalfWorks(f) && d in m.active)))
            && (state == CredentialFailed <==> Open(m, d, dev) && d !in m.active && OnlyRejected(f))
  {
  }

  /** Something was tried in vain, or nothing was ever tried. */
  lemma SettledStates(m: StatusMaps, d: nat, dev: Device, f: Facts)
    requires Reads(m, d, f)
    ensures var state := Derive(m, d, dev).0;
            var idle := Open(m, d, dev) && !f.tested && d !in m.active && dev.cred.None?;
            && (state == CollectionFailed <==>
                  && Open(m, d, dev)
                  && ((f.faulted && f.brokenWmi)
                      || (NothingHalfWorks(f) && d !in m.active && !OnlyRejected(f) && (dev.cred.Some? || f.tested))))
            && (state == NotAttempted <==> idle && OnWindows(dev))
            && (state == NeedsCredential <==> idle && !OnWindows(dev) && ExpectsCredential(dev))
            && (state == Unmanaged <==> idle && !OnWindows(dev) && !ExpectsCredential(dev))
  {
  }

  /** The protocols named beside the state. */
  lemma NamedProtocols(m: StatusMaps, d: nat, dev: Device)
    ensures var (state, means) := Derive(m, d, dev); var proven := AccessOf(m.access, d).proven;
            && (state == Managed ==> means == if proven != {} then proven else {Nvr})
            && (state == WebAuthenticated ==> means == {Http})
            && (state != Managed && state != WebAuthenticated ==> means == {})
  {
  }

  // ----- From the history to facts -----

  lemma NoRowNoFact(rows: seq<TestRow>, d: nat)
    requires !SomeRow(rows, d)
    ensures HistoryFacts(rows, d) == Facts(false, false, false, false, false, false, false)
    ensures NewestFacts(rows, d) == Facts(false, false, false, false, false, false, false)
  {
  }

  lemma AggregateReads(m: StatusMaps, hist: seq<TestRow>, latest: seq<TestRow>, d: nat)
    requires BuiltFrom(m, hist, latest, true)
    ensures Reads(m, d, HistoryFacts(hist, d))
  {
    AggregateIsSignal(m, hist, latest, d);
    HowAuthenticated(hist, d);
    TraitsAreRows(hist, d);
    CategoriesAreRows(hist, d);
    SomeNewestRow(m, hist, latest, d);
    if !SomeRow(hist, d) { NoRowNoFact(hist, d); }
  }

  lemma FallbackReads(m: StatusMaps, hist: seq<TestRow>, latest: seq<TestRow>, d: nat)
    requires BuiltFrom(m, hist, latest, false)
    ensures Reads(m, d, NewestFacts(latest, d))
  {
    FallbackSpec(latest, d);
    HowAuthenticated(latest, d);
    TestedSpec(latest, d);
    TraitsAreRows(latest, d);
    CategoriesAreRows(latest, d);
    if !SomeRow(latest, d) { NoRowNoFact(latest, d); }
  }

  /** A device counts as tested in the map exactly if it ever was. */
  lemma SomeNewestRow(m: StatusMaps, hist: seq<TestRow>, latest: seq<TestRow>, d: nat)
    requires BuiltFrom(m, hist, latest, true)
    ensures d in m.test && m.test[d].tested <==> SomeRow(hist, d)
  {
    TestedSpec(latest, d);
    SomeRowSomeNewest(hist, latest, d);
    TraitsAreRows(hist, d);
  }

  /**
    All states at once, for every device and every history. `aggregated` says whether the signals come
    from the whole history or, as a fallback, from the newest rows.
   */
  lemma StatesFromHistory(
    m: StatusMaps, hist: seq<TestRow>, latest: seq<TestRow>, aggregated: bool, d: nat, dev: Device
  )
    requires BuiltFrom(m, hist, latest, aggregated)
    ensures var f := if aggregated then HistoryFacts(hist, d) else NewestFacts(latest, d);
            var open, state := Open(m, d, dev), Derive(m, d, dev).0;
            var idle := open && !f.tested && d !in m.active && dev.cred.None?;
            && (state == Managed <==> !open)
            && (state == NeedsAgent <==> open && f.faulted && !f.brokenWmi && !AgentsDown(m, dev))
            && (state == WebAuthenticated <==> open && !f.faulted && f.webLogin)
            && (state == NotAuthorized <==> open && !f.faulted && !f.webLogin && f.denied && !f.anySuccess)
            && (state == PendingCollection <==> open && NothingHalfWorks(f) && d in m.active && !AgentsDown(m, dev))
            && (state == AgentOffline <==>
                  && open && AgentsDown(m, dev)
                  && ((f.faulted && !f.brokenWmi) || (NothingHalfWorks(f) && d in m.active)))
            && (state == CredentialFailed <==> open && d !in m.active && OnlyRejected(f))
            && (state == CollectionFailed <==>
                  && open
                  && ((f.faulted && f.brokenWmi)
                      || (NothingHalfWorks(f) && d !in m.active && !OnlyRejected(f) && (dev.cred.Some? || f.tested))))
            && (state == NotAttempted <==> idle && OnWindows(dev))
            && (state == NeedsCredential <==> idle && !OnWindows(dev) && ExpectsCredential(dev))
            && (state == Unmanaged <==> idle && !OnWindows(dev) && !ExpectsCredential(dev))
  {
    var f := if aggregated then HistoryFacts(hist, d) else NewestFacts(latest, d);
    if aggregated { AggregateReads(m, hist, latest, d); } else { FallbackReads(m, hist, latest, d); }
    LegacyStates(m, d, dev, f);
    PendingStates(m, d, dev, f);
    SettledStates(m, d, dev, f);
  }

  /** The last test time of a device is that of one of its rows, and no row is later. */
  lemma {:induction false} LastTested(rows: seq<TestRow>, d: nat)
    requires forall i :: 0 <= i < |rows| ==> rows[i].at > 0
    ensures var last := TestOf(Tested(rows), d).lastTestedAt;
            && (forall i :: 0 <= i < |rows| && rows[i].device == d ==> rows[i].at <= last)
            && (SomeRow(rows, d) ==> exists i :: 0 <= i < |rows| && rows[i].device == d && rows[i].at == last)
            && (!SomeRow(rows, d) ==> last == 0)
  {
    if rows != [] {
      var init, r := rows[..|rows| - 1], rows[|rows| - 1];
      LastTested(init, d);
      assert forall i :: 0 <= i < |init| ==> init[i] == rows[i];
      var was := TestOf(Tested(init), d);
      assert TestOf(Tested(rows), d) == if r.device == d then NoteRow(was, r) else was;
      assert SomeRow(rows, d) <==> SomeRow(init, d) || r.device == d;
    }
  }
}
