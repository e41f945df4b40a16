/**
  The coverage report and the sidebar badge: both count the devices by their derived state, and the
  report adds buckets, protocols, source labels and failures read off the same rows.
 */
module CoverageReport {
  import opened Domain
  import opened AccessMap
  import opened DeviceStatus

  datatype Coverage = Coverage(total: nat, managed: nat, credentialFailed: nat, notTested: nat, noCredentialBound: nat,
                               byProtocol: map<Protocol, nat>, labels: map<Protocol, set<Proof>>,
                               failed: map<Protocol, nat>)

  /** How many of the first n devices derive to `managed`. */
  function ManagedCount(m: StatusMaps, devs: seq<(nat, Device)>): nat {
    if devs == [] then 0
    else
      var (d, dev) := devs[|devs| - 1];
      ManagedCount(m, devs[..|devs| - 1]) + if Derive(m, d, dev).0 == Managed then 1 else 0
  }

  /** How many devices derive to `managed` by protocol p. */
  function ManagedByCount(m: StatusMaps, devs: seq<(nat, Device)>, p: Protocol): nat {
    if devs == [] then 0
    else
      var (d, dev) := devs[|devs| - 1];
      ManagedByCount(m, devs[..|devs| - 1], p)
      + if Derive(m, d, dev).0 == Managed && p in Derive(m, d, dev).1 then 1 else 0
  }

  datatype Bucket = ManagedBucket | CredentialFailedBucket | NotTestedBucket | NoCredentialBoundBucket

  /** Where the report puts a device, as a statement about its derived state and its newest test rows. */
  function BucketOf(m: StatusMaps, latest: seq<TestRow>, d: nat, dev: Device): Bucket {
    if Derive(m, d, dev).0 == Managed then ManagedBucket
    else if Any(latest, d, FailedAuth) then CredentialFailedBucket
    else if !Any(latest, d, Present) then NotTestedBucket
    else NoCredentialBoundBucket
  }

  function InBucket(m: StatusMaps, latest: seq<TestRow>, devs: seq<(nat, Device)>, b: Bucket): nat {
    if devs == [] then 0
    else
      var (d, dev) := devs[|devs| - 1];
      InBucket(m, latest, devs[..|devs| - 1], b) + if BucketOf(m, latest, d, dev) == b then 1 else 0
  }

  function CountFor(counts: map<Protocol, nat>, p: Protocol): nat { if p in counts then counts[p] else 0 }

  function LabelsFor(labels: map<Protocol, set<Proof>>, p: Protocol): set<Proof> {
    if p in labels then labels[p] else {}
  }

  // ----- The protocols a device is counted under -----

  /** Its proofs, or the recorder it is a channel of. */
  function Credit(m: StatusMaps, d: nat, dev: Device): map<Protocol, Proof> {
    var da := AccessOf(m.access, d);
    if da.proven != {} then da.provenSrc else if ViaRecorder(m, d, dev) then map[Nvr := ByEvidence] else map[]
  }

  /**
    A device is counted under exactly the protocols it derives to be managed by, labelled by how its
    signals prove them.
   */
  lemma CreditSpec(m: StatusMaps, signals: seq<Signal>, d: nat, dev: Device)
    requires m.access == Merged(signals)
    ensures var (state, protocols) := Derive(m, d, dev);
            Credit(m, d, dev).Keys == if state == Managed then protocols else {}
    ensures forall p :: p in Credit(m, d, dev) ==>
              Credit(m, d, dev)[p] == if AccessOf(m.access, d).proven != {} then Label(signals, d, p) else ByEvidence
  {
    forall p: Protocol
      ensures var da := AccessOf(m.access, d);
              (p in da.provenSrc <==> p in da.proven) && (p in da.proven ==> da.provenSrc[p] == Label(signals, d, p))
    {
      MergedSpec(signals, d, p);
    }
  }

  /** The labels under which devices count for protocol p. */
  function Labels(m: StatusMaps, devs: seq<(nat, Device)>, p: Protocol): set<Proof> {
    if devs == [] then {}
    else
      var (d, dev) := devs[|devs| - 1];
      var credit := Credit(m, d, dev);
      Labels(m, devs[..|devs| - 1], p) + if p in credit then {credit[p]} else {}
  }

  /** The one label the report prints. */
  function PrintedLabel(labels: set<Proof>): Proof {
    if |labels| > 1 || Mixed in labels then Mixed else if ByEvidence in labels then ByEvidence else ByTest
  }

  /** Mixed exactly when some device counts by more than a test and some device by more than evidence. */
  lemma PrintedLabelSpec(labels: set<Proof>)
    ensures PrintedLabel(labels) == Mixed <==>
        exists x, y :: x in labels && y in labels && x != ByTest && y != ByEvidence
    ensures PrintedLabel(labels) == ByEvidence <==> labels == {ByEvidence}
  {
    if labels != {} {
      var x :| x in labels;
      var rest := labels - {x};
      assert labels == rest + {x};
      if rest != {} {
        var y :| y in rest;
        assert |rest| > 0;
      } else {
        assert labels == {x};
      }
    }
  }

  /** The inner loop: one more device, and its label, for each protocol it counts under. */
  method Tally(counts: map<Protocol, nat>, labels: map<Protocol, set<Proof>>, credit: map<Protocol, Proof>)
    returns (out: map<Protocol, nat>, marked: map<Protocol, set<Proof>>)
    ensures forall p :: CountFor(out, p) == CountFor(counts, p) + if p in credit then 1 else 0
    ensures forall p :: LabelsFor(marked, p) == LabelsFor(labels, p) + if p in credit then {credit[p]} else {}
  {
    out, marked := counts, labels;
    var rest := credit.Keys;
    while rest != {}
      invariant rest <= credit.Keys
      invariant forall p :: CountFor(out, p) == CountFor(counts, p) + if p in credit.Keys - rest then 1 else 0
      invariant forall p :: LabelsFor(marked, p) ==
                  LabelsFor(labels, p) + if p in credit.Keys - rest then {credit[p]} else {}
      decreases rest
    {
      var p :| p in rest;
      out := out[p := CountFor(out, p) + 1];
      marked := marked[p := LabelsFor(marked, p) + {credit[p]}];
      rest := rest - {p};
    }
  }

  // ----- Failures by protocol -----

  /** The newest rows of protocol p that failed. */
  function FailingRows(latest: seq<TestRow>, p: Protocol): nat {
    if latest == [] then 0
    else
      var r := latest[|latest| - 1];
      FailingRows(latest[..|latest| - 1], p) + if r.kind == p && !r.success then 1 else 0
  }

  /** The protocols whose newest test of the device failed. */
  function Failing(t: TestStatus): set<Protocol> { t.failedKinds - t.successKinds }

  ghost function FailingDevices(test: map<nat, TestStatus>, keys: set<nat>, p: Protocol): set<nat> {
    set d | d in keys && p in Failing(TestOf(test, d))
  }

  /** A kind counted as failed or succeeded has a category. */
  lemma {:induction false} KindsHaveCategories(rows: seq<TestRow>, d: nat)
    ensures var t := TestOf(Tested(rows), d); t.failedKinds + t.successKinds <= t.kindCategory.Keys
  {
    if rows != [] { KindsHaveCategories(rows[..|rows| - 1], d); }
  }

  /** One more newest row fails its own device for its own protocol, and no other. */
  lemma FailingGrows(rows: seq<TestRow>, p: Protocol)
    requires OnePerKind(rows) && rows != []
    ensures var init, r := rows[..|rows| - 1], rows[|rows| - 1];
            && (forall d: nat :: p in Failing(TestOf(Tested(rows), d)) <==>
                  p in Failing(TestOf(Tested(init), d)) || (d == r.device && p == r.kind && !r.success))
            && (p == r.kind ==> p !in Failing(TestOf(Tested(init), r.device)))
  {
    var init, r := rows[..|rows| - 1], rows[|rows| - 1];
    FreshKind(rows, r.device);
    KindsHaveCategories(init, r.device);
    assert forall d: nat ::
      TestOf(Tested(rows), d) == if d == r.device then NoteRow(TestOf(Tested(init), d), r) else TestOf(Tested(init), d);
  }

  /** As many devices fail for p as newest rows do. */
  lemma {:induction false} FailingCount(rows: seq<TestRow>, p: Protocol)
    requires OnePerKind(rows)
    ensures |FailingDevices(Tested(rows), Tested(rows).Keys, p)| == FailingRows(rows, p)
  {
    if rows == [] {
      assert FailingDevices(Tested(rows), {}, p) == {};
    } else {
      var init, r := rows[..|rows| - 1], rows[|rows| - 1];
      FailingCount(init, p);
      FailingGrows(rows, p);
      FailingSetGrows(Tested(init), Tested(rows), r.device, p == r.kind && !r.success, p);
    }
  }

  lemma FailingSetGrows(test: map<nat, TestStatus>, test': map<nat, TestStatus>, e: nat, fails: bool, p: Protocol)
    requires test'.Keys == test.Keys + {e}
    requires forall d: nat :: p in Failing(TestOf(test', d)) <==> p in Failing(TestOf(test, d)) || (d == e && fails)
    requires fails ==> p !in Failing(TestOf(test, e))
    ensures |FailingDevices(test', test'.Keys, p)| == |FailingDevices(test, test.Keys, p)| + if fails then 1 else 0
  {
    var before := FailingDevices(test, test.Keys, p);
    assert FailingDevices(test', test'.Keys, p) == if fails then before + {e} else before;
  }

  /** One more device for each of the protocols. */
  method CountEach(counts: map<Protocol, nat>, protocols: set<Protocol>) returns (out: map<Protocol, nat>)
    ensures forall p :: CountFor(out, p) == CountFor(counts, p) + if p in protocols then 1 else 0
  {
    out := counts;
    var rest := protocols;
    while rest != {}
      invariant rest <= protocols
      invariant forall p :: CountFor(out, p) == CountFor(counts, p) + if p in protocols - rest then 1 else 0
      decreases rest
    {
      var p :| p in rest;
      out := out[p := CountFor(out, p) + 1];
      rest := rest - {p};
    }
  }

  lemma FailingOneMore(test: map<nat, TestStatus>, keys: set<nat>, d: nat, p: Protocol)
    requires d !in keys
    ensures |FailingDevices(test, keys + {d}, p)| ==
              |FailingDevices(test, keys, p)| + if p in Failing(TestOf(test, d)) then 1 else 0
  {
    var before := FailingDevices(test, keys, p);
    assert FailingDevices(test, keys + {d}, p) == if p in Failing(TestOf(test, d)) then before + {d} else before;
  }

  /** The failure loop over the test map, in any order: per protocol, the number of newest tests that failed. */
  method CountFailures(test: map<nat, TestStatus>, ghost latest: seq<TestRow>) returns (failed: map<Protocol, nat>)
    requires test == Tested(latest) && OnePerKind(latest)
    ensures forall p :: CountFor(failed, p) == FailingRows(latest, p)
  {
    failed := map[];
    var rest := test.Keys;
    while rest != {}
      invariant rest <= test.Keys
      invariant forall p :: CountFor(failed, p) == |FailingDevices(test, test.Keys - rest, p)|
      decreases rest
    {
      var d :| d in rest;
      forall p { FailingOneMore(test, test.Keys - rest, d, p); }
      assert test.Keys - (rest - {d}) == (test.Keys - rest) + {d};
      failed := CountEach(failed, Failing(test[d]));
      rest := rest - {d};
    }
    assert test.Keys - {} == test.Keys;
    forall p ensures CountFor(failed, p) == FailingRows(latest, p) {
      FailingCount(latest, p);
    }
  }

  // ----- The report -----

  lemma TestFacts(test: map<nat, TestStatus>, latest: seq<TestRow>, d: nat)
    requires test == Tested(latest) && OnePerKind(latest)
    ensures d in test && test[d].authFailed <==> Any(latest, d, FailedAuth)
    ensures d !in test || !test[d].tested <==> !Any(latest, d, Present)
    ensures d in test ==> Any(latest, d, Present)
  {
    TestedSpec(latest, d);
  }

  /** The report's branches decide the bucket. */
  method Classify(m: StatusMaps, d: nat, dev: Device, ghost signals: seq<Signal>, ghost latest: seq<TestRow>)
    returns (b: Bucket, credit: map<Protocol, Proof>)
    requires m.access == Merged(signals) && m.test == Tested(latest) && OnePerKind(latest)
    ensures b == BucketOf(m, latest, d, dev) && credit == Credit(m, d, dev)
  {
    TestFacts(m.test, latest, d);
    var da := AccessOf(m.access, d);
    credit := map[];
    if da.proven != {} {
      b, credit := ManagedBucket, da.provenSrc;
    } else if dev.deviceClass == Camera && d in m.nvrCams {
      b, credit := ManagedBucket, map[Nvr := ByEvidence];
    } else if d in m.test && m.test[d].authFailed {
      b := CredentialFailedBucket;
    } else if d !in m.test || !m.test[d].tested {
      b := NotTestedBucket;
    } else {
      b := NoCredentialBoundBucket;
    }
  }

  /**
    accessCoverage: a device is counted managed exactly when its state derives to managed, under
    exactly the protocols it derives to be managed by and with the labels of its proofs; the other
    three buckets follow its newest test rows; the four add up to the total; and a protocol's failures
    are its newest tests that failed.
   */
  method AccessCoverage(m: StatusMaps, devs: seq<(nat, Device)>, ghost signals: seq<Signal>, ghost latest: seq<TestRow>)
    returns (c: Coverage)
    requires m.access == Merged(signals) && m.test == Tested(latest) && OnePerKind(latest)
    ensures c.total == |devs|
    ensures c.managed == ManagedCount(m, devs)
    ensures c.credentialFailed == InBucket(m, latest, devs, CredentialFailedBucket)
    ensures c.notTested == InBucket(m, latest, devs, NotTestedBucket)
    ensures c.noCredentialBound == InBucket(m, latest, devs, NoCredentialBoundBucket)
    ensures c.managed + c.credentialFailed + c.notTested + c.noCredentialBound == c.total
    ensures forall p :: CountFor(c.byProtocol, p) == ManagedByCount(m, devs, p)
    ensures forall p :: LabelsFor(c.labels, p) == Labels(m, devs, p)
    ensures forall p :: CountFor(c.failed, p) == FailingRows(latest, p)
  {
    c := Coverage(|devs|, 0, 0, 0, 0, map[], map[], map[]);
    for k := 0 to |devs|
      invariant c.total == |devs| && Buckets(c, m, latest, devs[..k]) && Credited(c, m, devs[..k])
    {
      var b, credit := Classify(m, devs[k].0, devs[k].1, signals, latest);
      var counts, labels := Tally(c.byProtocol, c.labels, credit);
      ghost var before := c;
      c := c.(byProtocol := counts, labels := labels);
      CreditStep(before, c, m, devs, k);
      BucketStep(c, m, latest, devs, k);
      match b
      case ManagedBucket => c := c.(managed := c.managed + 1);
      case CredentialFailedBucket => c := c.(credentialFailed := c.credentialFailed + 1);
      case NotTestedBucket => c := c.(notTested := c.notTested + 1);
      case NoCredentialBoundBucket => c := c.(noCredentialBound := c.noCredentialBound + 1);
    }
    assert devs[..|devs|] == devs;
    var failed := CountFailures(m.test, latest);
    c := c.(failed := failed);
    ManagedBucketIsManaged(m, latest, devs);
    forall p ensures CreditCount(m, devs, p) == ManagedByCount(m, devs, p) {
      CreditCountIsManagedBy(m, signals, devs, p);
    }
  }

  predicate Buckets(c: Coverage, m: StatusMaps, latest: seq<TestRow>, devs: seq<(nat, Device)>) {
    && c.managed == InBucket(m, latest, devs, ManagedBucket)
    && c.credentialFailed == InBucket(m, latest, devs, CredentialFailedBucket)
    && c.notTested == InBucket(m, latest, devs, NotTestedBucket)
    && c.noCredentialBound == InBucket(m, latest, devs, NoCredentialBoundBucket)
    && c.managed + c.credentialFailed + c.notTested + c.noCredentialBound == |devs|
  }

  lemma BucketStep(c: Coverage, m: StatusMaps, latest: seq<TestRow>, devs: seq<(nat, Device)>, k: nat)
    requires k < |devs| && Buckets(c, m, latest, devs[..k])
    ensures forall b :: InBucket(m, latest, devs[..k + 1], b)
                     == InBucket(m, latest, devs[..k], b)
                        + if BucketOf(m, latest, devs[k].0, devs[k].1) == b then 1 else 0
  {
    assert devs[..k + 1][..k] == devs[..k];
  }

  ghost predicate Credited(c: Coverage, m: StatusMaps, devs: seq<(nat, Device)>) {
    && (forall p :: CountFor(c.byProtocol, p) == CreditCount(m, devs, p))
    && (forall p :: LabelsFor(c.labels, p) == Labels(m, devs, p))
  }

  lemma CreditStep(c: Coverage, c': Coverage, m: StatusMaps, devs: seq<(nat, Device)>, k: nat)
    requires k < |devs| && Credited(c, m, devs[..k])
    requires var credit := Credit(m, devs[k].0, devs[k].1);
             && (forall p :: CountFor(c'.byProtocol, p) == CountFor(c.byProtocol, p) + if p in credit then 1 else 0)
             && (forall p :: LabelsFor(c'.labels, p) ==
                   LabelsFor(c.labels, p) + if p in credit then {credit[p]} else {})
    ensures Credited(c', m, devs[..k + 1])
  {
    assert devs[..k + 1][..k] == devs[..k];
    forall p: Protocol
      ensures CountFor(c'.byProtocol, p) == CreditCount(m, devs[..k + 1], p)
          && LabelsFor(c'.labels, p) == Labels(m, devs[..k + 1], p)
    {
      assert CountFor(c.byProtocol, p) == CreditCount(m, devs[..k], p)
        && LabelsFor(c.labels, p) == Labels(m, devs[..k], p);
    }
  }

  function CreditCount(m: StatusMaps, devs: seq<(nat, Device)>, p: Protocol): nat {
    if devs == [] then 0
    else
      var (d, dev) := devs[|devs| - 1];
      CreditCount(m, devs[..|devs| - 1], p) + if p in Credit(m, d, dev) then 1 else 0
  }

  lemma {:induction false} CreditCountIsManagedBy(
    m: StatusMaps, signals: seq<Signal>, devs: seq<(nat, Device)>, p: Protocol
  )
    requires m.access == Merged(signals)
    ensures CreditCount(m, devs, p) == ManagedByCount(m, devs, p)
  {
    if devs != [] {
      var (d, dev) := devs[|devs| - 1];
      CreditCountIsManagedBy(m, signals, devs[..|devs| - 1], p);
      CreditSpec(m, signals, d, dev);
    }
  }

  lemma {:induction false} ManagedBucketIsManaged(m: StatusMaps, latest: seq<TestRow>, devs: seq<(nat, Device)>)
    ensures InBucket(m, latest, devs, ManagedBucket) == ManagedCount(m, devs)
  {
    if devs != [] { ManagedBucketIsManaged(m, latest, devs[..|devs| - 1]); }
  }

  // ----- Where the report and the derived state disagree about credential failures -----

  /** Counted as not tested means no test was ever recorded, so no state that rests on a test is derived. */
  lemma NotTestedHasNoVerdict(
    m: StatusMaps, hist: seq<TestRow>, latest: seq<TestRow>, aggregated: bool, d: nat, dev: Device
  )
    requires BuiltFrom(m, hist, latest, aggregated) && BucketOf(m, latest, d, dev) == NotTestedBucket
    ensures !Any(hist, d, Present)
    ensures Derive(m, d, dev).0 !in {CredentialFailed, WebAuthenticated, NotAuthorized, NeedsAgent}
  {
    SomeRowSomeNewest(hist, latest, d);
    TestFacts(m.test, latest, d);
    NoRowsNoVerdict(m, d, dev);
  }

  lemma NoRowsNoVerdict(m: StatusMaps, d: nat, dev: Device)
    requires d !in m.cred && d !in m.test
    ensures Derive(m, d, dev).0 !in {CredentialFailed, WebAuthenticated, NotAuthorized, NeedsAgent}
  {
  }

  /** Neither recorded as managed nor reached through a recorder. */
  predicate Unproven(m: StatusMaps, d: nat, dev: Device) {
    AccessOf(m.access, d).proven == {} && !ViaRecorder(m, d, dev)
  }

  lemma ManagedIffProven(m: StatusMaps, d: nat, dev: Device)
    ensures Derive(m, d, dev).0 == Managed <==> !Unproven(m, d, dev)
  {
  }

  /**
    From the aggregate the report misses a device derived credential_failed exactly when no newest row
    is a failed authentication, and counts a device that is not exactly when some newest row is one
    while a job is in flight, a credential did authenticate, or nothing was cleanly rejected.
   */
  lemma AggregateDisagreesExactly(m: StatusMaps, hist: seq<TestRow>, latest: seq<TestRow>, d: nat, dev: Device)
    requires BuiltFrom(m, hist, latest, true)
    ensures Derive(m, d, dev).0 == CredentialFailed && BucketOf(m, latest, d, dev) != CredentialFailedBucket <==>
              && Unproven(m, d, dev) && d !in m.active
              && Any(hist, d, Rejected) && !Any(hist, d, Authenticating) && !Any(latest, d, FailedAuth)
    ensures Derive(m, d, dev).0 != CredentialFailed && BucketOf(m, latest, d, dev) == CredentialFailedBucket <==>
              && Unproven(m, d, dev) && Any(latest, d, FailedAuth)
              && (d in m.active || Any(hist, d, Authenticating) || !Any(hist, d, Rejected))
  {
    CredentialFailedExact(m, hist, latest, d, dev);
    ManagedIffProven(m, d, dev);
  }

  /** From the fallback the report misses none, and counts one too many exactly as above in terms of the newest rows. */
  lemma FallbackDisagreesExactly(m: StatusMaps, hist: seq<TestRow>, latest: seq<TestRow>, d: nat, dev: Device)
    requires BuiltFrom(m, hist, latest, false)
    ensures Derive(m, d, dev).0 == CredentialFailed ==> BucketOf(m, latest, d, dev) == CredentialFailedBucket
    ensures Derive(m, d, dev).0 != CredentialFailed && BucketOf(m, latest, d, dev) == CredentialFailedBucket <==>
              && Unproven(m, d, dev) && Any(latest, d, FailedAuth)
              && (d in m.active || Any(latest, d, Visible) || !Any(latest, d, Rejected))
  {
    FallbackExact(m, hist, latest, d, dev);
    ManagedIffProven(m, d, dev);
    RejectedIsFailedAuth(latest, d);
  }

  /** A rejection that did not fail would be a success. */
  lemma {:induction false} RejectedIsFailedAuth(rows: seq<TestRow>, d: nat)
    ensures Any(rows, d, Rejected) ==> Any(rows, d, FailedAuth) || Any(rows, d, Visible)
  {
    if rows != [] { RejectedIsFailedAuth(rows[..|rows| - 1], d); }
  }

  lemma TwoRows(a: TestRow, b: TestRow, e: nat, t: Trait)
    ensures Any([a, b], e, t) <==> (a.device == e && Has(a, t)) || (b.device == e && Has(b, t))
    ensures Any([b], e, t) <==> b.device == e && Has(b, t)
  {
    assert [a, b][..1] == [a] && [a][..0] == [] && [b][..0] == [];
    assert Any([a], e, t) <==> a.device == e && Has(a, t);
  }

  /** The maps of a fleet that knows one device, and only its tests. */
  function OneDevice(hist: seq<TestRow>, latest: seq<TestRow>, d: nat): StatusMaps {
    StatusMaps(map[], Tested(latest), map[d := Aggregate(hist, d)], {}, {}, {}, {})
  }

  lemma OneDeviceIsBuilt(hist: seq<TestRow>, latest: seq<TestRow>, d: nat)
    requires IsLatest(latest, hist) && Any(hist, d, Present) && forall e: nat :: e != d ==> !Any(hist, e, Present)
    ensures BuiltFrom(OneDevice(hist, latest, d), hist, latest, true)
  {
  }

  /** The report misses a failure: a later timeout of the same kind hides the rejection from it. */
  lemma ReportMissesFailure(rejected: TestRow, silent: TestRow, d: nat, dev: Device)
    requires rejected.device == silent.device == d && rejected.kind == silent.kind && rejected.at < silent.at
    requires rejected.category == AuthFailed && silent.category == ConnectTimeout
    requires !rejected.success && !silent.success
    requires dev.deviceClass != Camera
    ensures var m := OneDevice([rejected, silent], [silent], d);
            && BuiltFrom(m, [rejected, silent], [silent], true)
            && Derive(m, d, dev).0 == CredentialFailed
            && BucketOf(m, [silent], d, dev) != CredentialFailedBucket
  {
    var hist, latest := [rejected, silent], [silent];
    forall e: nat ensures Any(hist, e, Present) <==> e == d { TwoRows(rejected, silent, e, Present); }
    TwoRows(rejected, silent, d, Rejected);
    TwoRows(rejected, silent, d, Authenticating);
    TwoRows(rejected, silent, d, FailedAuth);
    SilentIsLatest(rejected, silent);
    RejectedOnlyBefore(hist, latest, d, dev);
  }

  lemma RejectedOnlyBefore(hist: seq<TestRow>, latest: seq<TestRow>, d: nat, dev: Device)
    requires IsLatest(latest, hist) && (forall e: nat :: Any(hist, e, Present) <==> e == d) && dev.deviceClass != Camera
    requires Any(hist, d, Rejected) && !Any(hist, d, Authenticating) && !Any(latest, d, FailedAuth)
    ensures BuiltFrom(OneDevice(hist, latest, d), hist, latest, true)
    ensures Derive(OneDevice(hist, latest, d), d, dev).0 == CredentialFailed
    ensures BucketOf(OneDevice(hist, latest, d), latest, d, dev) != CredentialFailedBucket
  {
    BlamedFromRows(hist, latest, d, dev);
    AggregateDisagreesExactly(OneDevice(hist, latest, d), hist, latest, d, dev);
  }

  /** On a fleet that knows one device and only its tests, a rejection and no authentication are enough. */
  lemma BlamedFromRows(hist: seq<TestRow>, latest: seq<TestRow>, d: nat, dev: Device)
    requires IsLatest(latest, hist) && (forall e: nat :: Any(hist, e, Present) <==> e == d) && dev.deviceClass != Camera
    requires Any(hist, d, Rejected) && !Any(hist, d, Authenticating)
    ensures BuiltFrom(OneDevice(hist, latest, d), hist, latest, true)
    ensures Derive(OneDevice(hist, latest, d), d, dev).0 == CredentialFailed
  {
    OneDeviceIsBuilt(hist, latest, d);
    CredentialFailedExact(OneDevice(hist, latest, d), hist, latest, d, dev);
  }

  /** The report invents one: a credential that is valid but not authorized counts as failed. */
  lemma ReportCountsDenied(denied: TestRow, d: nat, dev: Device)
    requires denied.device == d && denied.category == AccessDenied && !denied.success && dev.deviceClass != Camera
    ensures var m := OneDevice([denied], [denied], d);
            && BuiltFrom(m, [denied], [denied], true)
            && Derive(m, d, dev).0 == NotAuthorized
            && BucketOf(m, [denied], d, dev) == CredentialFailedBucket
  {
    var hist := [denied];
    forall e: nat, t: Trait ensures Any(hist, e, t) <==> e == d && Has(denied, t) { TwoRows(denied, denied, e, t); }
    SelfIsLatest(denied);
    OneDeviceIsBuilt(hist, hist, d);
    TestFacts(OneDevice(hist, hist, d).test, hist, d);
    TestedSpec(hist, d);
  }

  /** One rejected credential is enough: the other was never answered, let alone rejected. */
  lemma UnansweredCredentialIsBlamed(rejected: TestRow, silent: TestRow, d: nat, dev: Device)
    requires rejected.device == silent.device == d && rejected.cred != silent.cred && rejected.kind != silent.kind
    requires rejected.category == AuthFailed && silent.category == ConnectTimeout
    requires !rejected.success && !silent.success
    requires dev.deviceClass != Camera
    ensures var rows := [rejected, silent];
            && BuiltFrom(OneDevice(rows, rows, d), rows, rows, true)
            && Derive(OneDevice(rows, rows, d), d, dev).0 == CredentialFailed
  {
    var rows := [rejected, silent];
    forall e: nat ensures Any(rows, e, Present) <==> e == d { TwoRows(rejected, silent, e, Present); }
    TwoRows(rejected, silent, d, Rejected);
    TwoRows(rejected, silent, d, Authenticating);
    PairIsLatest(rejected, silent);
    BlamedFromRows(rows, rows, d, dev);
  }

  lemma PairIsLatest(a: TestRow, b: TestRow)
    requires a.kind != b.kind
    ensures IsLatest([a, b], [a, b])
  {
    var rows := [a, b];
    assert rows[0] == a && rows[1] == b;
    forall i | 0 <= i < |rows| ensures Represented(rows[i], rows) {
      assert rows[i].device == rows[i].device;
    }
  }

  lemma SelfIsLatest(r: TestRow)
    ensures IsLatest([r], [r])
  {
    var hist := [r];
    assert hist[0] == r;
    forall i | 0 <= i < |hist| ensures Represented(hist[i], hist) {
      assert hist[0].device == hist[i].device;
    }
  }

  lemma SilentIsLatest(older: TestRow, newer: TestRow)
    requires older.device == newer.device && older.kind == newer.kind && older.at <= newer.at
    ensures IsLatest([newer], [older, newer])
  {
    var hist, latest := [older, newer], [newer];
    assert hist[1] == newer && latest[0] == newer;
    forall i | 0 <= i < |hist| ensures Represented(hist[i], latest) {
      assert latest[0].device == hist[i].device;
    }
  }

  /** badgeCounts' unmanaged number agrees with the report's: everything that is not managed. */
  method UnmanagedBadge(m: StatusMaps, devs: seq<(nat, Device)>) returns (unmanaged: nat)
    ensures unmanaged + ManagedCount(m, devs) == |devs|
  {
    unmanaged := 0;
    for k := 0 to |devs|
      invariant unmanaged + ManagedCount(m, devs[..k]) == k
    {
      assert devs[..k + 1][..k] == devs[..k];
      var (d, dev) := devs[k];
      if Derive(m, d, dev).0 != Managed {
        unmanaged := unmanaged + 1;
      }
    }
    assert devs[..|devs|] == devs;
  }
}
