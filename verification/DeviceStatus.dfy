/**
  Management status: the per-kind test map, the all-history credential signals, the precedence
  chain that derives a state.
 */
module DeviceStatus {
  import opened Domain
  import opened AccessMap

  datatype Management =
    | Managed | Unmanaged | NeedsCredential | CredentialFailed | NeedsAgent | AgentOffline
    | CollectionFailed | PendingCollection | NotAttempted | WebAuthenticated | NotAuthorized

  /** DeviceCredentialSignals: an aggregate over every test row of a device. */
  datatype CredSignal = CredSignal(
    anySuccess: bool, webSuccess: bool, legacyAuthOk: bool, notAuthorized: bool, authRejected: bool, wmiBroken: bool)

  const NO_SIGNAL := CredSignal(false, false, false, false, false, false)

  predicate AuthenticatedAny(c: CredSignal) { c.anySuccess || c.legacyAuthOk || c.notAuthorized }

  predicate Denied(c: Category) { c == AccessDenied || c == WmiAccessDenied }

  predicate IsAuthFailure(c: Category) { c == AuthFailed || Denied(c) }

  /** What the queries and the fallback look for in a test row. */
  datatype Trait =
    | Present | Succeeded | WebSucceeded | Faulted | WinrmFaulted | DeniedAccess | Rejected | BrokenWmi
    | FailedAuth | Authenticating | Visible

  /**
    `Authenticating` rows prove that a credential authenticated by some method; `Visible` ones are
    those the fallback recognises as such.
   */
  predicate Has(r: TestRow, t: Trait) {
    match t
    case Present => true
    case Succeeded => r.success
    case WebSucceeded => r.success && IsWeb(r.kind)
    case Faulted => r.category == OperationFault
    case WinrmFaulted => r.kind == Winrm && r.category == OperationFault
    case DeniedAccess => Denied(r.category)
    case Rejected => r.category == AuthFailed
    case BrokenWmi => r.category == NamespaceUnavailable
    case FailedAuth => !r.success && IsAuthFailure(r.category)
    case Authenticating => r.success || r.category == OperationFault || Denied(r.category)
    case Visible => r.success || (r.kind == Winrm && r.category == OperationFault) || Denied(r.category)
  }

  /** Some row of the device has the trait: SQL's bool_or. */
  predicate Any(rows: seq<TestRow>, d: nat, t: Trait) {
    rows != [] && (Any(rows[..|rows| - 1], d, t) || (rows[|rows| - 1].device == d && Has(rows[|rows| - 1], t)))
  }

  lemma {:induction false} AnyMeansSome(rows: seq<TestRow>, d: nat, t: Trait)
    ensures Any(rows, d, t) <==> exists i :: 0 <= i < |rows| && rows[i].device == d && Has(rows[i], t)
  {
    if rows != [] {
      var init := rows[..|rows| - 1];
      AnyMeansSome(init, d, t);
      assert forall i :: 0 <= i < |init| ==> init[i] == rows[i];
    }
  }

  function Aggregate(hist: seq<TestRow>, d: nat): CredSignal {
    CredSignal(Any(hist, d, Succeeded), Any(hist, d, WebSucceeded), Any(hist, d, Faulted),
               Any(hist, d, DeniedAccess), Any(hist, d, Rejected), Any(hist, d, BrokenWmi))
  }

  // ----- The latest test per (device, kind) -----

  datatype TestStatus = TestStatus(
    tested: bool, authFailed: bool, lastTestedAt: int, successKinds: set<Protocol>, failedKinds: set<Protocol>,
    kindCategory: map<Protocol, Category>)

  const UNTESTED := TestStatus(false, false, 0, {}, {}, map[])

  ghost predicate OnePerKind(rows: seq<TestRow>) {
    forall i, k :: 0 <= i < k < |rows| ==> rows[i].device != rows[k].device || rows[i].kind != rows[k].kind
  }

  /** The row is in the list, or an equally recent or newer one of its device and kind is. */
  ghost predicate Represented(r: TestRow, latest: seq<TestRow>) {
    exists i :: 0 <= i < |latest| && latest[i].device == r.device && latest[i].kind == r.kind && r.at <= latest[i].at
  }

  /** LatestDeviceKindResults: one newest row per device and kind, ties broken either way. */
  ghost predicate IsLatest(latest: seq<TestRow>, hist: seq<TestRow>) {
    && (forall i :: 0 <= i < |latest| ==> latest[i] in hist)
    && OnePerKind(latest)
    && (forall i :: 0 <= i < |hist| ==> Represented(hist[i], latest))
  }

  function NoteRow(t: TestStatus, r: TestRow): TestStatus {
    TestStatus(
      true,
      t.authFailed || (!r.success && IsAuthFailure(r.category)),
      if r.at > t.lastTestedAt then r.at else t.lastTestedAt,
      if r.success then t.successKinds + {r.kind} else t.successKinds,
      if r.success then t.failedKinds else t.failedKinds + {r.kind},
      if r.kind in t.kindCategory then t.kindCategory else t.kindCategory[r.kind := r.category])
  }

  function TestOf(m: map<nat, TestStatus>, d: nat): TestStatus { if d in m then m[d] else UNTESTED }

  function Tested(rows: seq<TestRow>): map<nat, TestStatus> {
    if rows == [] then map[]
    else
      var m := Tested(rows[..|rows| - 1]);
      var r := rows[|rows| - 1];
      m[r.device := NoteRow(TestOf(m, r.device), r)]
  }

  /** deviceTestMap, row by row. */
  method DeviceTestMap(rows: seq<TestRow>) returns (m: map<nat, TestStatus>)
    ensures m == Tested(rows)
  {
    m := map[];
    for k := 0 to |rows|
      invariant m == Tested(rows[..k])
    {
      var r := rows[k];
      assert rows[..k + 1][..k] == rows[..k];
      var t := if r.device in m then m[r.device] else UNTESTED;
      t := t.(tested := true);
      if r.at > t.lastTestedAt { t := t.(lastTestedAt := r.at); }
      if r.kind !in t.kindCategory { t := t.(kindCategory := t.kindCategory[r.kind := r.category]); }
      if r.success {
        t := t.(successKinds := t.successKinds + {r.kind});
      } else {
        t := t.(failedKinds := t.failedKinds + {r.kind});
        if IsAuthFailure(r.category) { t := t.(authFailed := true); }
      }
      m := m[r.device := t];
    }
    assert rows[..|rows|] == rows;
  }

  ghost predicate SeesDenied(t: TestStatus) { exists k :: k in t.kindCategory && Denied(t.kindCategory[k]) }

  ghost predicate SeesRejected(t: TestStatus) { exists k :: k in t.kindCategory && t.kindCategory[k] == AuthFailed }

  predicate WinrmLegacy(t: TestStatus) { Winrm in t.kindCategory && t.kindCategory[Winrm] == OperationFault }

  /** A kind that has a category has a row. */
  lemma {:induction false} CategoriesHaveRows(rows: seq<TestRow>, d: nat, k: Protocol)
    ensures k in TestOf(Tested(rows), d).kindCategory ==>
        exists i :: 0 <= i < |rows| && rows[i].device == d && rows[i].kind == k
  {
    if rows != [] {
      var init, r := rows[..|rows| - 1], rows[|rows| - 1];
      CategoriesHaveRows(init, d, k);
      if k in TestOf(Tested(init), d).kindCategory {
        var i :| 0 <= i < |init| && init[i].device == d && init[i].kind == k;
        assert rows[i] == init[i];
      } else if k in TestOf(Tested(rows), d).kindCategory {
        assert r.device == d && r.kind == k;
      }
    }
  }

  lemma NoteRowSpec(t: TestStatus, r: TestRow)
    requires r.kind !in t.kindCategory
    ensures var t' := NoteRow(t, r);
            && (SeesDenied(t') <==> SeesDenied(t) || Denied(r.category))
            && (SeesRejected(t') <==> SeesRejected(t) || r.category == AuthFailed)
            && (WinrmLegacy(t') <==> WinrmLegacy(t) || (r.kind == Winrm && r.category == OperationFault))
  {
    var t' := NoteRow(t, r);
    assert t'.kindCategory == t.kindCategory[r.kind := r.category];
    assert r.kind in t'.kindCategory;
    if k :| k in t.kindCategory && Denied(t.kindCategory[k]) { assert t'.kindCategory[k] == t.kindCategory[k]; }
    if k :| k in t.kindCategory && t.kindCategory[k] == AuthFailed { assert t'.kindCategory[k] == t.kindCategory[k]; }
  }

  /** What the folded map says about a device, as a statement about its rows. */
  lemma TestedSpec(rows: seq<TestRow>, d: nat)
    requires OnePerKind(rows)
    ensures var t := TestOf(Tested(rows), d);
            && (d in Tested(rows) <==> t.tested)
            && (t.tested <==> Any(rows, d, Present))
            && (t.authFailed <==> Any(rows, d, FailedAuth))
            && (t.successKinds != {} <==> Any(rows, d, Succeeded))
            && (HttpBasic in t.successKinds || Http in t.successKinds <==> Any(rows, d, WebSucceeded))
            && (WinrmLegacy(t) <==> Any(rows, d, WinrmFaulted))
            && (SeesDenied(t) <==> Any(rows, d, DeniedAccess))
            && (SeesRejected(t) <==> Any(rows, d, Rejected))
  {
    OutcomesSpec(rows, d);
    CategoriesSpec(rows, d);
  }

  lemma {:induction false} OutcomesSpec(rows: seq<TestRow>, d: nat)
    ensures var t := TestOf(Tested(rows), d);
            && (d in Tested(rows) <==> t.tested)
            && (t.tested <==> Any(rows, d, Present))
            && (t.authFailed <==> Any(rows, d, FailedAuth))
            && (t.successKinds != {} <==> Any(rows, d, Succeeded))
            && (HttpBasic in t.successKinds || Http in t.successKinds <==> Any(rows, d, WebSucceeded))
  {
    if rows != [] {
      var init, r := rows[..|rows| - 1], rows[|rows| - 1];
      OutcomesSpec(init, d);
      assert TestOf(Tested(rows), d) ==
        if r.device == d then NoteRow(TestOf(Tested(init), d), r) else TestOf(Tested(init), d);
    }
  }

  lemma {:induction false} CategoriesSpec(rows: seq<TestRow>, d: nat)
    requires OnePerKind(rows)
    ensures var t := TestOf(Tested(rows), d);
            && (WinrmLegacy(t) <==> Any(rows, d, WinrmFaulted))
            && (SeesDenied(t) <==> Any(rows, d, DeniedAccess))
            && (SeesRejected(t) <==> Any(rows, d, Rejected))
  {
    if rows != [] {
      var init, r := rows[..|rows| - 1], rows[|rows| - 1];
      CategoriesSpec(init, d);
      assert TestOf(Tested(rows), d) ==
        if r.device == d then NoteRow(TestOf(Tested(init), d), r) else TestOf(Tested(init), d);
      if r.device == d {
        FreshKind(rows, d);
        NoteRowSpec(TestOf(Tested(init), d), r);
      }
    }
  }

  lemma FreshKind(rows: seq<TestRow>, d: nat)
    requires OnePerKind(rows) && rows != [] && rows[|rows| - 1].device == d
    ensures rows[|rows| - 1].kind !in TestOf(Tested(rows[..|rows| - 1]), d).kindCategory
  {
    CategoriesHaveRows(rows[..|rows| - 1], d, rows[|rows| - 1].kind);
  }

  // ----- Deriving the state -----

  datatype StatusMaps = StatusMaps(
    access: map<nat, Access>, test: map<nat, TestStatus>, cred: map<nat, CredSignal>,
    onlineSites: set<nat>, anySites: set<nat>, nvrCams: set<nat>, active: set<nat>)

  predicate WindowsLike(dev: Device) { dev.os == Windows || dev.deviceClass == Endpoint }

  predicate Credentialed(c: DeviceClass) {
    c == Switch || c == Router || c == Firewall || c == ServerClass || c == WirelessController
    || c == VirtualHost || c == NvrClass || c == Pbx || c == Database
  }

  /** The signals synthesised from the latest-per-kind map when the aggregate is missing. */
  function Fallback(t: TestStatus): CredSignal {
    var denied := exists k :: k in t.kindCategory && Denied(t.kindCategory[k]);
    var rejected := exists k :: k in t.kindCategory && t.kindCategory[k] == AuthFailed;
    CredSignal(
      t.successKinds != {}, HttpBasic in t.successKinds || Http in t.successKinds, WinrmLegacy(t),
      denied, rejected || (t.authFailed && !denied && !rejected), false)
  }

  /** The loops of the fallback: over the kinds that succeeded, then over the category per kind. */
  method FallbackSignals(t: TestStatus) returns (cs: CredSignal)
    ensures cs == Fallback(t)
  {
    cs := NO_SIGNAL.(anySuccess := |t.successKinds| > 0);
    var kinds := t.successKinds;
    while kinds != {}
      invariant kinds <= t.successKinds
      invariant cs == NO_SIGNAL.(anySuccess := |t.successKinds| > 0,
                                 webSuccess := exists k :: k in t.successKinds - kinds && IsWeb(k))
      decreases kinds
    {
      var k :| k in kinds;
      if IsWeb(k) { cs := cs.(webSuccess := true); }
      kinds := kinds - {k};
    }
    cs := cs.(legacyAuthOk := WinrmLegacy(t));
    var rest := t.kindCategory.Keys;
    while rest != {}
      invariant rest <= t.kindCategory.Keys
      invariant cs == NO_SIGNAL.(anySuccess := |t.successKinds| > 0,
                                 webSuccess := exists k :: k in t.successKinds && IsWeb(k),
                                 legacyAuthOk := WinrmLegacy(t),
                                 notAuthorized := exists k ::
                                   k in t.kindCategory.Keys - rest && Denied(t.kindCategory[k]),
                                 authRejected := exists k ::
                                   k in t.kindCategory.Keys - rest && t.kindCategory[k] == AuthFailed)
      decreases rest
    {
      var k :| k in rest;
      if Denied(t.kindCategory[k]) {
        cs := cs.(notAuthorized := true);
      } else if t.kindCategory[k] == AuthFailed {
        cs := cs.(authRejected := true);
      }
      rest := rest - {k};
    }
    if t.authFailed && !cs.notAuthorized && !cs.authRejected {
      cs := cs.(authRejected := true);
    }
  }

  /** The aggregate when it has a row for the device, else the fallback. */
  function SignalFor(m: StatusMaps, d: nat): CredSignal {
    if d in m.cred then m.cred[d] else if d in m.test then Fallback(m.test[d]) else NO_SIGNAL
  }

  predicate SiteAgentDown(m: StatusMaps, dev: Device) {
    dev.location.Some? && dev.location.value in m.anySites && dev.location.value !in m.onlineSites
  }

  predicate ViaRecorder(m: StatusMaps, d: nat, dev: Device) { dev.deviceClass == Camera && d in m.nvrCams }

  predicate Legacy(m: StatusMaps, d: nat, dev: Device) {
    SignalFor(m, d).legacyAuthOk || (WindowsLike(dev) && WinrmLegacy(TestOf(m.test, d)))
  }

  /** deriveManagement: the state, and the protocols the device is managed by. */
  function Derive(m: StatusMaps, d: nat, dev: Device): (Management, set<Protocol>) {
    var da := AccessOf(m.access, d);
    var cs := SignalFor(m, d);
    if da.proven != {} then (Managed, da.proven)
    else if ViaRecorder(m, d, dev) then (Managed, {Nvr})
    else if Legacy(m, d, dev) then
      if cs.wmiBroken then (CollectionFailed, {})
      else if SiteAgentDown(m, dev) then (AgentOffline, {})
      else (NeedsAgent, {})
    else if cs.webSuccess then (WebAuthenticated, {Http})
    else if cs.notAuthorized && !cs.anySuccess then (NotAuthorized, {})
    else if d in m.active then
      if SiteAgentDown(m, dev) then (AgentOffline, {}) else (PendingCollection, {})
    else if cs.authRejected && !AuthenticatedAny(cs) then (CredentialFailed, {})
    else if dev.cred.Some? then (CollectionFailed, {})
    else if d in m.test && m.test[d].tested then (CollectionFailed, {})
    else if WindowsLike(dev) then (NotAttempted, {})
    else if Credentialed(dev.deviceClass) || dev.os == Linux then (NeedsCredential, {})
    else (Unmanaged, {})
  }

  // ----- While a job is in flight -----

  /**
    A device with an active collect job is never shown as settled: no blame on the credential, no
    "not attempted"; a collection failure only for a legacy host whose WMI repository is broken.
   */
  lemma ActiveIsNeverBlamed(m: StatusMaps, d: nat, dev: Device)
    requires d in m.active
    ensures Derive(m, d, dev).0 !in {CredentialFailed, NotAttempted, NeedsCredential, Unmanaged}
    ensures Derive(m, d, dev).0 == CollectionFailed <==>
              AccessOf(m.access, d).proven == {} && !ViaRecorder(m, d, dev) && Legacy(m, d, dev)
                && SignalFor(m, d).wmiBroken
    ensures Derive(m, d, dev).0 == AgentOffline ==> SiteAgentDown(m, dev)
  {
  }

  // ----- credential_failed, from the aggregate and from the fallback -----

  /** The maps are built from this test history; `aggregated` says whether the signal query answered. */
  ghost predicate BuiltFrom(m: StatusMaps, hist: seq<TestRow>, latest: seq<TestRow>, aggregated: bool) {
    && IsLatest(latest, hist)
    && m.test == Tested(latest)
    && (forall d: nat :: d in m.cred <==> aggregated && Any(hist, d, Present))
    && (forall d: nat :: d in m.cred ==> m.cred[d] == Aggregate(hist, d))
  }

  lemma LatestIsHistory(hist: seq<TestRow>, latest: seq<TestRow>, d: nat, t: Trait)
    requires IsLatest(latest, hist) && Any(latest, d, t)
    ensures Any(hist, d, t)
  {
    AnyMeansSome(latest, d, t);
    AnyMeansSome(hist, d, t);
    var i :| 0 <= i < |latest| && latest[i].device == d && Has(latest[i], t);
    assert latest[i] in hist;
  }

  /** A device has a test row exactly when it has a newest one. */
  lemma SomeRowSomeNewest(hist: seq<TestRow>, latest: seq<TestRow>, d: nat)
    requires IsLatest(latest, hist)
    ensures Any(hist, d, Present) <==> Any(latest, d, Present)
  {
    AnyMeansSome(hist, d, Present);
    AnyMeansSome(latest, d, Present);
    if Any(hist, d, Present) {
      var i :| 0 <= i < |hist| && hist[i].device == d;
      assert Represented(hist[i], latest);
      var k :| 0 <= k < |latest| && latest[k].device == d;
      assert Has(latest[k], Present);
    }
    if Any(latest, d, Present) { LatestIsHistory(hist, latest, d, Present); }
  }

  /** Authenticating and visible rows, split by how. */
  lemma {:induction false} HowAuthenticated(rows: seq<TestRow>, d: nat)
    ensures Any(rows, d, Authenticating) <==>
        Any(rows, d, Succeeded) || Any(rows, d, Faulted) || Any(rows, d, DeniedAccess)
    ensures Any(rows, d, Visible) <==>
        Any(rows, d, Succeeded) || Any(rows, d, WinrmFaulted) || Any(rows, d, DeniedAccess)
    ensures Any(rows, d, WebSucceeded) ==> Any(rows, d, Succeeded)
    ensures Any(rows, d, WinrmFaulted) ==> Any(rows, d, Faulted)
    ensures Any(rows, d, Rejected) ==> Any(rows, d, Present)
    ensures Any(rows, d, FailedAuth) ==> Any(rows, d, Rejected) || Any(rows, d, DeniedAccess)
  {
    if rows != [] { HowAuthenticated(rows[..|rows| - 1], d); }
  }

  /**
    From the aggregate: credential_failed exactly when some credential was cleanly rejected, no
    credential ever authenticated by any method, and nothing manages the device or is in flight.
   */
  lemma CredentialFailedExact(m: StatusMaps, hist: seq<TestRow>, latest: seq<TestRow>, d: nat, dev: Device)
    requires BuiltFrom(m, hist, latest, true)
    ensures Derive(m, d, dev).0 == CredentialFailed <==>
              && AccessOf(m.access, d).proven == {} && !ViaRecorder(m, d, dev) && d !in m.active
              && Any(hist, d, Rejected) && !Any(hist, d, Authenticating)
  {
    AggregateIsSignal(m, hist, latest, d);
    HowAuthenticated(hist, d);
  }

  /** With an aggregate the signals are its own, and the test map adds no legacy sign of its own. */
  lemma AggregateIsSignal(m: StatusMaps, hist: seq<TestRow>, latest: seq<TestRow>, d: nat)
    requires BuiltFrom(m, hist, latest, true)
    ensures SignalFor(m, d) == Aggregate(hist, d)
    ensures WinrmLegacy(TestOf(m.test, d)) ==> Any(hist, d, Faulted)
  {
    TestedSpec(latest, d);
    NothingWithoutRows(hist, d);
    if Any(latest, d, Present) { LatestIsHistory(hist, latest, d, Present); }
    if Any(latest, d, WinrmFaulted) {
      LatestIsHistory(hist, latest, d, WinrmFaulted);
      HowAuthenticated(hist, d);
    }
  }

  lemma {:induction false} NothingWithoutRows(rows: seq<TestRow>, d: nat)
    ensures !Any(rows, d, Present) ==> Aggregate(rows, d) == NO_SIGNAL
  {
    if rows != [] { NothingWithoutRows(rows[..|rows| - 1], d); }
  }

  lemma FallbackSpec(latest: seq<TestRow>, d: nat)
    requires OnePerKind(latest)
    ensures Fallback(TestOf(Tested(latest), d)) ==
            CredSignal(Any(latest, d, Succeeded), Any(latest, d, WebSucceeded), Any(latest, d, WinrmFaulted),
                       Any(latest, d, DeniedAccess),
                       Any(latest, d, Rejected) || (Any(latest, d, FailedAuth) && !Any(latest, d, DeniedAccess)),
                       false)
    ensures Any(latest, d, FailedAuth) ==> Any(latest, d, Rejected) || Any(latest, d, DeniedAccess)
  {
    TestedSpec(latest, d);
    var t := TestOf(Tested(latest), d);
    HowAuthenticated(latest, d);
  }

  /** Superseded within its kind, or an operation fault on a kind other than WinRM. */
  predicate Hidden(r: TestRow, latest: seq<TestRow>) { r in latest ==> !Has(r, Visible) }

  /**
    From the fallback: credential_failed exactly when some newest row is a clean rejection and no
    newest row is visibly authenticated.
   */
  lemma FallbackExact(m: StatusMaps, hist: seq<TestRow>, latest: seq<TestRow>, d: nat, dev: Device)
    requires BuiltFrom(m, hist, latest, false)
    ensures Derive(m, d, dev).0 == CredentialFailed <==>
              && AccessOf(m.access, d).proven == {} && !ViaRecorder(m, d, dev) && d !in m.active
              && Any(latest, d, Rejected) && !Any(latest, d, Visible)
  {
    HowAuthenticated(latest, d);
    TestedSpec(latest, d);
    FallbackSpec(latest, d);
  }

  /**
    So the fallback blames a device of which some credential did authenticate exactly when, next to
    a rejection, every authenticating row of the device is hidden from it.
   */
  lemma FallbackFalseAlarm(m: StatusMaps, hist: seq<TestRow>, latest: seq<TestRow>, d: nat, dev: Device)
    requires BuiltFrom(m, hist, latest, false)
    ensures Derive(m, d, dev).0 == CredentialFailed && Any(hist, d, Authenticating) <==>
              && AccessOf(m.access, d).proven == {} && !ViaRecorder(m, d, dev) && d !in m.active
              && Any(latest, d, Rejected) && Any(hist, d, Authenticating)
              && forall i :: 0 <= i < |hist| && hist[i].device == d && Has(hist[i], Authenticating) ==>
                Hidden(hist[i], latest)
  {
    FallbackExact(m, hist, latest, d, dev);
    NothingVisible(hist, latest, d);
  }

  lemma NothingVisible(hist: seq<TestRow>, latest: seq<TestRow>, d: nat)
    requires forall i :: 0 <= i < |latest| ==> latest[i] in hist
    ensures !Any(latest, d, Visible) <==>
            forall i :: 0 <= i < |hist| && hist[i].device == d && Has(hist[i], Authenticating) ==>
              Hidden(hist[i], latest)
  {
    AnyMeansSome(latest, d, Visible);
    if Any(latest, d, Visible) {
      var i :| 0 <= i < |latest| && latest[i].device == d && Has(latest[i], Visible);
      var k :| 0 <= k < |hist| && hist[k] == latest[i];
      assert Has(hist[k], Authenticating) && !Hidden(hist[k], latest);
    } else {
      forall i | 0 <= i < |hist| && hist[i].device == d && Has(hist[i], Authenticating)
        ensures Hidden(hist[i], latest)
      {
        if hist[i] in latest {
          var k :| 0 <= k < |latest| && latest[k] == hist[i];
        }
      }
    }
  }

  /** A history whose newest rows are one rejection and nothing visible, on a fleet that knows nothing else. */
  lemma RejectionAlarms(d: nat, dev: Device, hist: seq<TestRow>, latest: seq<TestRow>)
    requires dev.deviceClass != Camera && IsLatest(latest, hist)
    requires Any(latest, d, Rejected) && !Any(latest, d, Visible)
    ensures var m := StatusMaps(map[], Tested(latest), map[], {}, {}, {}, {});
            BuiltFrom(m, hist, latest, false) && Derive(m, d, dev).0 == CredentialFailed
  {
    FallbackExact(StatusMaps(map[], Tested(latest), map[], {}, {}, {}, {}), hist, latest, d, dev);
  }

  /** The first way of hiding a working credential: a later rejection of another one of the same kind. */
  lemma MaskedDenialAlarms(d: nat, dev: Device) returns (m: StatusMaps, hist: seq<TestRow>, latest: seq<TestRow>)
    requires dev.deviceClass != Camera
    ensures BuiltFrom(m, hist, latest, false) && Derive(m, d, dev).0 == CredentialFailed
    ensures |hist| == 2 && hist[0] == TestRow(d, 1, Winrm, AccessDenied, false, 10) && hist[0] !in latest
  {
    var rejected := TestRow(d, 2, Winrm, AuthFailed, false, 20);
    hist, latest := [TestRow(d, 1, Winrm, AccessDenied, false, 10), rejected], [rejected];
    assert hist[1] == rejected == latest[0] && latest[..0] == [];
    RejectionAlarms(d, dev, hist, latest);
    m := StatusMaps(map[], Tested(latest), map[], {}, {}, {}, {});
  }

  /** The second: an operation fault recorded by an agent job whose protocol is WMI. */
  lemma WmiFaultAlarms(d: nat, dev: Device) returns (m: StatusMaps, hist: seq<TestRow>)
    requires dev.deviceClass != Camera
    ensures BuiltFrom(m, hist, hist, false) && Derive(m, d, dev).0 == CredentialFailed
    ensures |hist| == 2 && hist[0] == TestRow(d, 1, Wmi, OperationFault, false, 10)
  {
    hist := [TestRow(d, 1, Wmi, OperationFault, false, 10), TestRow(d, 2, Ssh, AuthFailed, false, 20)];
    assert hist[0].kind == Wmi && hist[1].kind == Ssh;
    var first := [hist[0]];
    assert hist[..1] == first && first[..0] == [];
    assert !Any([], d, Visible) && !Any(first, d, Visible);
    assert !Any(hist, d, Visible) && Any(hist, d, Rejected);
    RejectionAlarms(d, dev, hist, hist);
    m := StatusMaps(map[], Tested(hist), map[], {}, {}, {}, {});
  }
}
