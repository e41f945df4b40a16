/**
  The vendor fingerprint library a scan uses, and seeding the stored rows from the built-in catalog.
 */
module Fingerprints {
  import opened Domain

  datatype Exclusion = Exclusion(kind: string, pattern: string)

  datatype Print = Print(kind: string, pattern: string, vendor: string, deviceType: string,
                         confidence: nat, model: string, exclusions: seq<Exclusion>)

  /** The exclusions column: JSON of the expected shape, or anything else. */
  datatype Blob = Listed(exclusions: seq<Exclusion>) | Unreadable

  datatype Source = Builtin | User

  datatype Row = Row(id: nat, kind: string, pattern: string, vendor: string, deviceType: string,
                     confidence: nat, model: string, exclusions: Blob,
                     enabled: bool, priority: nat, source: Source)

  const BUILTIN_PRIORITY: nat := 100

  function DecodeExclusions(b: Blob): seq<Exclusion> { if b.Listed? then b.exclusions else [] }

  function EncodeExclusions(ex: seq<Exclusion>): Blob { Listed(ex) }

  function ToPrint(r: Row): Print {
    Print(r.kind, r.pattern, r.vendor, r.deviceType, r.confidence, r.model, DecodeExclusions(r.exclusions))
  }

  // ----- Keys -----

  /** The map key both loops use: kind|pattern as one string. */
  function Key(kind: string, pattern: string): string { kind + "|" + pattern }

  /** The kinds the table and the catalog admit hold no separator. */
  predicate CleanKind(kind: string) { kind in {"oid", "service", "sysname", "port", "http", "ssh"} }

  lemma CleanKindHasNoBar(kind: string)
    requires CleanKind(kind)
    ensures '|' !in kind
  {
  }

  /** Joining is injective when the kind holds no separator; the pattern may. */
  lemma KeyIsInjective(k: string, p: string, k': string, p': string)
    requires '|' !in k && '|' !in k'
    ensures Key(k, p) == Key(k', p') <==> k == k' && p == p'
  {
    if Key(k, p) == Key(k', p') {
      var s := Key(k, p);
      assert s[|k|] == '|' && s[|k'|] == '|';
      assert forall i :: 0 <= i < |k| ==> s[i] == k[i];
      assert forall i :: 0 <= i < |k'| ==> s[i] == k'[i];
      assert |k| == |k'|;
      assert k == s[..|k|] && k' == s[..|k'|];
      assert p == s[|k| + 1..] && p' == s[|k'| + 1..];
    }
  }

  predicate SameRule(kind: string, pattern: string, kind': string, pattern': string) {
    kind == kind' && pattern == pattern'
  }

  /** Unique (kind, pattern), unique ids below the next one, known kinds. */
  ghost predicate ValidRows(rows: seq<Row>, next: nat) {
    && (forall i :: 0 <= i < |rows| ==> CleanKind(rows[i].kind) && rows[i].id < next)
    && (forall i, k :: 0 <= i < k < |rows| ==> rows[i].id != rows[k].id)
    && (forall i, k :: 0 <= i < k < |rows| ==> !SameRule(rows[i].kind, rows[i].pattern, rows[k].kind, rows[k].pattern))
  }

  ghost predicate ValidCatalog(lib: seq<Print>) {
    && (forall i :: 0 <= i < |lib| ==> CleanKind(lib[i].kind))
    && (forall i, k :: 0 <= i < k < |lib| ==> !SameRule(lib[i].kind, lib[i].pattern, lib[k].kind, lib[k].pattern))
  }

  predicate RowIs(r: Row, kind: string, pattern: string) { SameRule(r.kind, r.pattern, kind, pattern) }

  predicate HasRow(rows: seq<Row>, kind: string, pattern: string) {
    exists i :: 0 <= i < |rows| && RowIs(rows[i], kind, pattern)
  }

  /** The catalog entry of a rule, if any. */
  function CatalogFor(lib: seq<Print>, kind: string, pattern: string): (p: Option<Print>)
    ensures p.Some? ==> p.value in lib && SameRule(p.value.kind, p.value.pattern, kind, pattern)
    ensures p.None? ==> forall q :: q in lib ==> !SameRule(q.kind, q.pattern, kind, pattern)
  {
    if lib == [] then None
    else
      var last := lib[|lib| - 1];
      if SameRule(last.kind, last.pattern, kind, pattern) then Some(last)
      else CatalogFor(lib[..|lib| - 1], kind, pattern)
  }

  // ----- The scan's library -----

  function EnabledPrints(rows: seq<Row>): seq<Print> {
    if rows == [] then []
    else EnabledPrints(rows[..|rows| - 1]) + if rows[|rows| - 1].enabled then [ToPrint(rows[|rows| - 1])] else []
  }

  /** Catalog entries no stored row, enabled or not, shadows. */
  function Unshadowed(rows: seq<Row>, lib: seq<Print>): seq<Print> {
    if lib == [] then []
    else
      var last := lib[|lib| - 1];
      Unshadowed(rows, lib[..|lib| - 1]) + if HasRow(rows, last.kind, last.pattern) then [] else [last]
  }

  function ScanLibrary(rows: seq<Row>, lib: seq<Print>): seq<Print> { EnabledPrints(rows) + Unshadowed(rows, lib) }

  predicate RowGives(rows: seq<Row>, i: nat, p: Print) { i < |rows| && rows[i].enabled && ToPrint(rows[i]) == p }

  lemma {:induction false} EnabledPrintsSpec(rows: seq<Row>, p: Print)
    ensures p in EnabledPrints(rows) <==> exists i: nat :: RowGives(rows, i, p)
  {
    if rows != [] {
      var n := |rows| - 1;
      EnabledPrintsSpec(rows[..n], p);
      if i: nat :| RowGives(rows, i, p) {
        assert i < n ==> RowGives(rows[..n], i, p);
      }
      if i: nat :| RowGives(rows[..n], i, p) {
        assert RowGives(rows, i, p);
      }
      if rows[n].enabled && ToPrint(rows[n]) == p {
        assert RowGives(rows, n, p);
      }
    }
  }

  lemma {:induction false} UnshadowedSpec(rows: seq<Row>, lib: seq<Print>, p: Print)
    ensures p in Unshadowed(rows, lib) <==> p in lib && !HasRow(rows, p.kind, p.pattern)
  {
    if lib != [] { UnshadowedSpec(rows, lib[..|lib| - 1], p); }
  }

  /** What is in the library: enabled rows, and catalog entries with no row at all. */
  lemma ScanLibrarySpec(rows: seq<Row>, lib: seq<Print>, p: Print)
    ensures p in ScanLibrary(rows, lib) <==>
            (exists i: nat :: RowGives(rows, i, p)) || (p in lib && !HasRow(rows, p.kind, p.pattern))
  {
    EnabledPrintsSpec(rows, p);
    UnshadowedSpec(rows, lib, p);
  }

  // ----- Planning and applying the seed -----

  predicate ExclusionsEqual(a: seq<Exclusion>, b: seq<Exclusion>) {
    |a| == |b| && forall i :: 0 <= i < |a| ==> a[i].kind == b[i].kind && a[i].pattern == b[i].pattern
  }

  predicate BuiltinRowMatchesCatalog(r: Row, p: Print) {
    && r.vendor == p.vendor && r.deviceType == p.deviceType && r.confidence == p.confidence && r.model == p.model
    && ExclusionsEqual(DecodeExclusions(r.exclusions), p.exclusions)
  }

  /** For a row of the same rule, matching the catalog means standing for the very same print. */
  lemma MatchesMeansSamePrint(r: Row, p: Print)
    requires RowIs(r, p.kind, p.pattern)
    ensures BuiltinRowMatchesCatalog(r, p) <==> ToPrint(r) == p
  {
    var ex := DecodeExclusions(r.exclusions);
    if BuiltinRowMatchesCatalog(r, p) {
      assert forall i :: 0 <= i < |ex| ==> ex[i] == p.exclusions[i];
      assert ex == p.exclusions;
    }
  }

  datatype Action = Create | Refresh(id: nat) | Preserve(id: nat) | UpToDate(id: nat)

  function ActionOn(row: Option<Row>, p: Print): Action {
    if row.None? then Create
    else if row.value.source != Builtin then Preserve(row.value.id)
    else if !BuiltinRowMatchesCatalog(row.value, p) then Refresh(row.value.id)
    else UpToDate(row.value.id)
  }

  /** The stored row of a rule, if any. */
  function RowFor(rows: seq<Row>, kind: string, pattern: string): (r: Option<Row>)
    ensures r.Some? ==> r.value in rows && RowIs(r.value, kind, pattern)
    ensures r.None? <==> !HasRow(rows, kind, pattern)
  {
    if rows == [] then None
    else
      var n := |rows| - 1;
      if RowIs(rows[n], kind, pattern) then Some(rows[n]) else RowFor(rows[..n], kind, pattern)
  }

  /** The action planBuiltinSeed plans for one entry. */
  function ActionFor(rows: seq<Row>, p: Print): Action { ActionOn(RowFor(rows, p.kind, p.pattern), p) }

  lemma TheRowFor(rows: seq<Row>, next: nat, i: nat, p: Print)
    requires ValidRows(rows, next) && i < |rows| && RowIs(rows[i], p.kind, p.pattern)
    ensures RowFor(rows, p.kind, p.pattern) == Some(rows[i])
  {
    var r := RowFor(rows, p.kind, p.pattern);
    assert HasRow(rows, p.kind, p.pattern);
    var k :| 0 <= k < |rows| && rows[k] == r.value;
    assert k == i;
  }

  /** The refresh query's new row. */
  function RefreshedFrom(r: Row, p: Print): Row {
    r.(vendor := p.vendor, deviceType := p.deviceType, confidence := p.confidence, model := p.model,
       exclusions := EncodeExclusions(p.exclusions))
  }

  function BuiltinRow(p: Print, id: nat): Row {
    Row(id, p.kind, p.pattern, p.vendor, p.deviceType, p.confidence, p.model, EncodeExclusions(p.exclusions),
        true, BUILTIN_PRIORITY, Builtin)
  }

  predicate Drifted(r: Row, lib: seq<Print>) {
    var p := CatalogFor(lib, r.kind, r.pattern);
    r.source == Builtin && p.Some? && !BuiltinRowMatchesCatalog(r, p.value)
  }

  /** What seeding does to one stored row. */
  function SeededRow(r: Row, lib: seq<Print>): Row {
    if Drifted(r, lib) then RefreshedFrom(r, CatalogFor(lib, r.kind, r.pattern).value) else r
  }

  function SeededRows(rows: seq<Row>, lib: seq<Print>): (out: seq<Row>)
    ensures |out| == |rows|
  {
    seq(|rows|, i requires 0 <= i < |rows| => SeededRow(rows[i], lib))
  }

  /** The rows seeding adds, in catalog order. */
  function Created(rows: seq<Row>, lib: seq<Print>, next: nat): (out: seq<Row>)
    ensures |out| <= |lib|
  {
    if lib == [] then []
    else
      var init, last := Created(rows, lib[..|lib| - 1], next), lib[|lib| - 1];
      init + if HasRow(rows, last.kind, last.pattern) then [] else [BuiltinRow(last, next + |init|)]
  }

  /** The table after seeding. */
  function Seeded(rows: seq<Row>, lib: seq<Print>, next: nat): seq<Row> {
    SeededRows(rows, lib) + Created(rows, lib, next)
  }

  lemma {:induction false} CreatedRow(rows: seq<Row>, lib: seq<Print>, next: nat, i: nat)
    requires i < |Created(rows, lib, next)|
    ensures exists k :: 0 <= k < |lib| && Created(rows, lib, next)[i] == BuiltinRow(lib[k], next + i)
                        && !HasRow(rows, lib[k].kind, lib[k].pattern)
  {
    var n := |lib| - 1;
    var init := Created(rows, lib[..n], next);
    if i < |init| {
      CreatedRow(rows, lib[..n], next, i);
      var k :| 0 <= k < |lib[..n]| && init[i] == BuiltinRow(lib[..n][k], next + i)
        && !HasRow(rows, lib[..n][k].kind, lib[..n][k].pattern);
      assert lib[k] == lib[..n][k];
    } else {
      assert Created(rows, lib, next)[i] == BuiltinRow(lib[n], next + i);
    }
  }

  lemma {:induction false} CreatedCovers(rows: seq<Row>, lib: seq<Print>, next: nat, p: Print)
    requires p in lib && !HasRow(rows, p.kind, p.pattern)
    ensures exists i :: 0 <= i < |Created(rows, lib, next)| && Created(rows, lib, next)[i] == BuiltinRow(p, next + i)
  {
    var n := |lib| - 1;
    var init, all := Created(rows, lib[..n], next), Created(rows, lib, next);
    if p == lib[n] {
      assert all[|init|] == BuiltinRow(p, next + |init|);
    } else {
      CreatedCovers(rows, lib[..n], next, p);
      var i :| 0 <= i < |init| && init[i] == BuiltinRow(p, next + i);
      assert all[i] == BuiltinRow(p, next + i);
    }
  }

  // ----- What seeding promises -----

  /**
    Ids, enabled flags, priorities, rules and sources stay; operator rows stay whole; additions are
    enabled built-ins.
   */
  lemma SeedKeepsOperatorData(rows: seq<Row>, lib: seq<Print>, next: nat, i: nat)
    requires i < |Seeded(rows, lib, next)|
    ensures var r := Seeded(rows, lib, next)[i];
            if i < |rows| then
              && r.id == rows[i].id && r.enabled == rows[i].enabled && r.priority == rows[i].priority
              && r.source == rows[i].source && r.kind == rows[i].kind && r.pattern == rows[i].pattern
              && (rows[i].source == User ==> r == rows[i])
            else
              r.enabled && r.priority == 100 && r.source == Builtin && r.id >= next && ToPrint(r) in lib
                && !HasRow(rows, r.kind, r.pattern)
  {
    if i >= |rows| { CreatedRow(rows, lib, next, i - |rows|); }
  }

  lemma {:induction false} CreatedAreDistinct(rows: seq<Row>, lib: seq<Print>, next: nat, i: nat, k: nat)
    requires ValidCatalog(lib) && i < k < |Created(rows, lib, next)|
    ensures var x, y := Created(rows, lib, next)[i], Created(rows, lib, next)[k];
            !SameRule(x.kind, x.pattern, y.kind, y.pattern) && x.id != y.id
  {
    var n := |lib| - 1;
    var init := Created(rows, lib[..n], next);
    if k < |init| {
      CreatedAreDistinct(rows, lib[..n], next, i, k);
    } else {
      CreatedRow(rows, lib[..n], next, i);
    }
  }

  /** Seeding never makes a duplicate: keys and ids stay unique. */
  lemma SeedKeepsValid(rows: seq<Row>, lib: seq<Print>, next: nat)
    requires ValidRows(rows, next) && ValidCatalog(lib)
    ensures ValidRows(Seeded(rows, lib, next), next + |Created(rows, lib, next)|)
  {
    var all, n := Seeded(rows, lib, next), |rows|;
    forall i | 0 <= i < |all|
      ensures CleanKind(all[i].kind) && all[i].id < next + |Created(rows, lib, next)|
    {
      if i >= n { CreatedRow(rows, lib, next, i - n); }
    }
    forall i, k | 0 <= i < k < |all|
      ensures all[i].id != all[k].id && !SameRule(all[i].kind, all[i].pattern, all[k].kind, all[k].pattern)
    {
      if n <= i {
        CreatedAreDistinct(rows, lib, next, i - n, k - n);
      } else if n <= k {
        CreatedRow(rows, lib, next, k - n);
        assert RowIs(rows[i], all[i].kind, all[i].pattern);
      }
    }
  }

  /** After seeding every catalog entry has a row. */
  lemma SeedCovers(rows: seq<Row>, lib: seq<Print>, next: nat, p: Print)
    requires p in lib
    ensures HasRow(Seeded(rows, lib, next), p.kind, p.pattern)
  {
    var all := Seeded(rows, lib, next);
    if HasRow(rows, p.kind, p.pattern) {
      var i :| 0 <= i < |rows| && RowIs(rows[i], p.kind, p.pattern);
      assert RowIs(all[i], p.kind, p.pattern);
    } else {
      CreatedCovers(rows, lib, next, p);
      var i :| 0 <= i < |Created(rows, lib, next)| && Created(rows, lib, next)[i] == BuiltinRow(p, next + i);
      assert RowIs(all[|rows| + i], p.kind, p.pattern);
    }
  }

  /** A built-in row of a catalog rule stands for exactly the catalog's print once seeded. */
  lemma SeededRowIsCatalog(rows: seq<Row>, lib: seq<Print>, next: nat, i: nat, p: Print)
    requires ValidRows(rows, next) && ValidCatalog(lib) && p in lib
    requires i < |Seeded(rows, lib, next)| && RowIs(Seeded(rows, lib, next)[i], p.kind, p.pattern)
    requires Seeded(rows, lib, next)[i].source == Builtin
    ensures ToPrint(Seeded(rows, lib, next)[i]) == p
  {
    var r := Seeded(rows, lib, next)[i];
    if i < |rows| {
      var q := CatalogFor(lib, rows[i].kind, rows[i].pattern);
      assert q == Some(p) by { CatalogIs(lib, p); }
      MatchesMeansSamePrint(rows[i], p);
    } else {
      CreatedRow(rows, lib, next, i - |rows|);
      var k :| 0 <= k < |lib| && r == BuiltinRow(lib[k], next + i - |rows|);
      var at :| 0 <= at < |lib| && lib[at] == p;
      assert at == k;
    }
  }

  lemma CatalogIs(lib: seq<Print>, p: Print)
    requires ValidCatalog(lib) && p in lib
    ensures CatalogFor(lib, p.kind, p.pattern) == Some(p)
  {
    var q := CatalogFor(lib, p.kind, p.pattern);
    var i :| 0 <= i < |lib| && lib[i] == p;
    var k :| 0 <= k < |lib| && lib[k] == q.value;
    assert i == k;
  }

  /** A second plan has only preserve and up-to-date entries, so seeding again changes nothing. */
  lemma SeedIsIdempotent(rows: seq<Row>, lib: seq<Print>, next: nat, p: Print)
    requires ValidRows(rows, next) && ValidCatalog(lib) && p in lib
    ensures var a := ActionFor(Seeded(rows, lib, next), p);
            a.Preserve? || a.UpToDate?
  {
    var all := Seeded(rows, lib, next);
    SeedCovers(rows, lib, next, p);
    var i :| 0 <= i < |all| && RowIs(all[i], p.kind, p.pattern);
    SeedKeepsValid(rows, lib, next);
    TheRowFor(all, next + |Created(rows, lib, next)|, i, p);
    if all[i].source == Builtin {
      SeededRowIsCatalog(rows, lib, next, i, p);
      MatchesMeansSamePrint(all[i], p);
    }
  }

  // ----- Meaning -----

  /** The same prints, in any order. */
  ghost predicate SamePrints(x: seq<Print>, y: seq<Print>) { forall p :: p in x <==> p in y }

  ghost predicate NoEnabledDrift(rows: seq<Row>, lib: seq<Print>) {
    forall i :: 0 <= i < |rows| && rows[i].enabled ==> !Drifted(rows[i], lib)
  }

  /** A row that seeding leaves alone still gives its print, and a created row gives the catalog's. */
  lemma GivesAfterSeed(rows: seq<Row>, lib: seq<Print>, next: nat, p: Print)
    requires NoEnabledDrift(rows, lib)
    requires (exists i: nat :: RowGives(rows, i, p)) || (p in lib && !HasRow(rows, p.kind, p.pattern))
    ensures exists i: nat :: RowGives(Seeded(rows, lib, next), i, p)
  {
    var all := Seeded(rows, lib, next);
    if i: nat :| RowGives(rows, i, p) {
      assert !Drifted(rows[i], lib) && all[i] == rows[i];
      assert RowGives(all, i, p);
    } else {
      CreatedCovers(rows, lib, next, p);
      var made := Created(rows, lib, next);
      var i: nat :| i < |made| && made[i] == BuiltinRow(p, next + i);
      assert all[|rows| + i] == made[i] && ToPrint(made[i]) == p;
      assert RowGives(all, |rows| + i, p);
    }
  }

  lemma SeedKeepsPrint(rows: seq<Row>, lib: seq<Print>, next: nat, p: Print)
    requires NoEnabledDrift(rows, lib)
    requires p in ScanLibrary(rows, lib)
    ensures p in ScanLibrary(Seeded(rows, lib, next), lib)
  {
    ScanLibrarySpec(rows, lib, p);
    ScanLibrarySpec(Seeded(rows, lib, next), lib, p);
    GivesAfterSeed(rows, lib, next, p);
  }

  lemma SeedAddsNoPrint(rows: seq<Row>, lib: seq<Print>, next: nat, p: Print)
    requires NoEnabledDrift(rows, lib)
    requires p in ScanLibrary(Seeded(rows, lib, next), lib)
    ensures p in ScanLibrary(rows, lib)
  {
    var all := Seeded(rows, lib, next);
    ScanLibrarySpec(rows, lib, p);
    ScanLibrarySpec(all, lib, p);
    if p in lib { SeedCovers(rows, lib, next, p); }
    var i: nat :| RowGives(all, i, p);
    if i < |rows| {
      assert RowGives(rows, i, p);
    } else {
      CreatedRow(rows, lib, next, i - |rows|);
    }
  }

  /** An enabled drifted row's print is gone after seeding. */
  lemma DriftedPrintIsLost(rows: seq<Row>, lib: seq<Print>, next: nat, i: nat)
    requires ValidRows(rows, next) && ValidCatalog(lib)
    requires i < |rows| && rows[i].enabled && Drifted(rows[i], lib)
    ensures ToPrint(rows[i]) in ScanLibrary(rows, lib) && ToPrint(rows[i]) !in ScanLibrary(Seeded(rows, lib, next), lib)
  {
    var all, x := Seeded(rows, lib, next), ToPrint(rows[i]);
    var p := CatalogFor(lib, rows[i].kind, rows[i].pattern).value;
    ScanLibrarySpec(rows, lib, x);
    assert RowGives(rows, i, x);
    ScanLibrarySpec(all, lib, x);
    MatchesMeansSamePrint(rows[i], p);
    assert RowIs(all[i], x.kind, x.pattern);
    SeedKeepsValid(rows, lib, next);
    assert ToPrint(all[i]) == p && p != x;
    forall k: nat ensures !RowGives(all, k, x) {
      if k < |all| && k != i { assert !RowIs(all[k], x.kind, x.pattern); }
    }
  }

  /** Seeding keeps the set of prints a scan uses exactly when no enabled built-in row has drifted from the catalog. */
  lemma SeedKeepsMeaningExactly(rows: seq<Row>, lib: seq<Print>, next: nat)
    requires ValidRows(rows, next) && ValidCatalog(lib)
    ensures SamePrints(ScanLibrary(rows, lib), ScanLibrary(Seeded(rows, lib, next), lib)) <==> NoEnabledDrift(rows, lib)
  {
    if NoEnabledDrift(rows, lib) {
      forall p ensures p in ScanLibrary(rows, lib) <==> p in ScanLibrary(Seeded(rows, lib, next), lib) {
        if p in ScanLibrary(rows, lib) { SeedKeepsPrint(rows, lib, next, p); }
        if p in ScanLibrary(Seeded(rows, lib, next), lib) { SeedAddsNoPrint(rows, lib, next, p); }
      }
    } else {
      var i :| 0 <= i < |rows| && rows[i].enabled && Drifted(rows[i], lib);
      DriftedPrintIsLost(rows, lib, next, i);
    }
  }

  // ----- The handlers over stored rows -----

  lemma {:induction false} KeyedAs(rows: seq<Row>, kind: string, pattern: string)
    requires CleanKind(kind) && forall i :: 0 <= i < |rows| ==> CleanKind(rows[i].kind)
    ensures Key(kind, pattern) in ByKey(rows) <==> HasRow(rows, kind, pattern)
    ensures HasRow(rows, kind, pattern) ==> Some(ByKey(rows)[Key(kind, pattern)]) == RowFor(rows, kind, pattern)
  {
    if rows != [] {
      var n := |rows| - 1;
      KeyedAs(rows[..n], kind, pattern);
      assert HasRow(rows, kind, pattern) <==> RowFor(rows, kind, pattern).Some?;
      assert HasRow(rows[..n], kind, pattern) <==> RowFor(rows[..n], kind, pattern).Some?;
      CleanKindHasNoBar(kind);
      CleanKindHasNoBar(rows[n].kind);
      KeyIsInjective(rows[n].kind, rows[n].pattern, kind, pattern);
    }
  }

  /** The string-keyed map of rows both loops build. */
  function ByKey(rows: seq<Row>): map<string, Row> {
    if rows == [] then map[]
    else ByKey(rows[..|rows| - 1])[Key(rows[|rows| - 1].kind, rows[|rows| - 1].pattern) := rows[|rows| - 1]]
  }

  function PlanOf(rows: seq<Row>, lib: seq<Print>): (plan: seq<Action>)
    ensures |plan| == |lib|
  {
    seq(|lib|, i requires 0 <= i < |lib| => ActionFor(rows, lib[i]))
  }

  /** planBuiltinSeed: the string keys pick the same rows as the (kind, pattern) pairs. */
  method PlanBuiltinSeed(rows: seq<Row>, lib: seq<Print>) returns (plan: seq<Action>)
    requires forall i :: 0 <= i < |rows| ==> CleanKind(rows[i].kind)
    requires forall i :: 0 <= i < |lib| ==> CleanKind(lib[i].kind)
    ensures plan == PlanOf(rows, lib)
  {
    var byKey: map<string, Row> := map[];
    for k := 0 to |rows|
      invariant byKey == ByKey(rows[..k])
    {
      assert rows[..k + 1][..k] == rows[..k];
      byKey := byKey[Key(rows[k].kind, rows[k].pattern) := rows[k]];
    }
    assert rows[..|rows|] == rows;
    plan := [];
    for k := 0 to |lib|
      invariant plan == PlanOf(rows, lib)[..k]
    {
      var p := lib[k];
      KeyedAs(rows, p.kind, p.pattern);
      var key := Key(p.kind, p.pattern);
      var row := if key in byKey then Some(byKey[key]) else None;
      assert row == RowFor(rows, p.kind, p.pattern);
      plan := plan + [ActionOn(row, p)];
    }
  }

  /** How many catalog entries get an action of each kind. */
  function Count(rows: seq<Row>, lib: seq<Print>): (n: Counts)
    ensures n.created + n.refreshed + n.preserved + n.upToDate == |lib|
  {
    if lib == [] then Counts(0, 0, 0, 0)
    else
      Bump(Count(rows, lib[..|lib| - 1]), ActionFor(rows, lib[|lib| - 1]))
  }

  datatype Counts = Counts(created: nat, refreshed: nat, preserved: nat, upToDate: nat)

  /** The refresh query: one id, built-in rows only. */
  function RefreshById(rows: seq<Row>, id: nat, p: Print): (out: seq<Row>)
    ensures |out| == |rows|
  {
    seq(|rows|, i requires 0 <= i < |rows| =>
      if rows[i].id == id && rows[i].source == Builtin then RefreshedFrom(rows[i], p) else rows[i])
  }

  /** Looking at one more catalog entry changes only the row of that rule. */
  lemma SeededRowSnoc(r: Row, lib: seq<Print>, k: nat)
    requires ValidCatalog(lib) && k < |lib|
    ensures !RowIs(r, lib[k].kind, lib[k].pattern) ==> SeededRow(r, lib[..k + 1]) == SeededRow(r, lib[..k])
    ensures RowIs(r, lib[k].kind, lib[k].pattern) ==>
              && SeededRow(r, lib[..k]) == r
              && SeededRow(r, lib[..k + 1]) ==
                 if r.source == Builtin && !BuiltinRowMatchesCatalog(r, lib[k]) then RefreshedFrom(r, lib[k]) else r
  {
    assert lib[..k + 1][..k] == lib[..k];
    if RowIs(r, lib[k].kind, lib[k].pattern) {
      assert CatalogFor(lib[..k], r.kind, r.pattern).None?;
    }
  }

  /** An entry with no row: one insert, whose key is free. */
  lemma CreateStep(rows: seq<Row>, lib: seq<Print>, next: nat, k: nat)
    requires ValidRows(rows, next) && ValidCatalog(lib) && k < |lib| && !HasRow(rows, lib[k].kind, lib[k].pattern)
    ensures !HasRow(Seeded(rows, lib[..k], next), lib[k].kind, lib[k].pattern)
    ensures Seeded(rows, lib[..k + 1], next)
         == Seeded(rows, lib[..k], next) + [BuiltinRow(lib[k], next + |Created(rows, lib[..k], next)|)]
    ensures |Created(rows, lib[..k + 1], next)| == |Created(rows, lib[..k], next)| + 1
  {
    assert lib[..k + 1][..k] == lib[..k];
    var p, now := lib[k], Seeded(rows, lib[..k], next);
    forall i | 0 <= i < |now|
      ensures !RowIs(now[i], p.kind, p.pattern)
    {
      if i < |rows| {
        assert !RowIs(rows[i], p.kind, p.pattern);
      } else {
        CreatedRow(rows, lib[..k], next, i - |rows|);
      }
    }
    forall i | 0 <= i < |rows|
      ensures SeededRow(rows[i], lib[..k + 1]) == SeededRow(rows[i], lib[..k])
    {
      SeededRowSnoc(rows[i], lib, k);
      assert !RowIs(rows[i], p.kind, p.pattern);
    }
    assert SeededRows(rows, lib[..k + 1]) == SeededRows(rows, lib[..k]);
  }

  /** An entry with a row: at most that row is refreshed, found again by its id. */
  lemma UpdateStep(rows: seq<Row>, lib: seq<Print>, next: nat, k: nat, at: nat)
    requires ValidRows(rows, next) && ValidCatalog(lib) && k < |lib| && at < |rows|
    requires RowIs(rows[at], lib[k].kind, lib[k].pattern)
    ensures Seeded(rows, lib[..k + 1], next)
         == if ActionFor(rows, lib[k]).Refresh? then RefreshById(Seeded(rows, lib[..k], next), rows[at].id, lib[k])
            else Seeded(rows, lib[..k], next)
    ensures Created(rows, lib[..k + 1], next) == Created(rows, lib[..k], next)
  {
    assert lib[..k + 1][..k] == lib[..k];
    var p, x, y := lib[k], Seeded(rows, lib[..k], next), Seeded(rows, lib[..k + 1], next);
    TheRowFor(rows, next, at, p);
    assert HasRow(rows, p.kind, p.pattern);
    assert Created(rows, lib[..k + 1], next) == Created(rows, lib[..k], next);
    forall i | 0 <= i < |x|
      ensures y[i] ==
              if ActionFor(rows, p).Refresh? && x[i].id == rows[at].id && x[i].source == Builtin
              then RefreshedFrom(x[i], p) else x[i]
    {
      if i < |rows| {
        SeededRowSnoc(rows[i], lib, k);
        assert i != at ==> !RowIs(rows[i], p.kind, p.pattern);
      } else {
        CreatedRow(rows, lib[..k], next, i - |rows|);
      }
    }
  }

  class FingerprintTable {
    var rows: seq<Row>
    var next: nat

    ghost predicate Valid()
      reads this
    {
      ValidRows(rows, next)
    }

    constructor ()
      ensures Valid() && rows == []
    {
      rows, next := [], 0;
    }

    /** scanFingerprintLibrary. */
    method ScanFingerprintLibrary(lib: seq<Print>) returns (out: seq<Print>)
      requires Valid() && ValidCatalog(lib)
      ensures out == ScanLibrary(rows, lib)
    {
      out := [];
      var have: map<string, Row> := map[];
      for k := 0 to |rows|
        invariant out == EnabledPrints(rows[..k]) && have == ByKey(rows[..k])
      {
        assert rows[..k + 1][..k] == rows[..k];
        if rows[k].enabled {
          out := out + [ToPrint(rows[k])];
        }
        have := have[Key(rows[k].kind, rows[k].pattern) := rows[k]];
      }
      assert rows[..|rows|] == rows;
      for k := 0 to |lib|
        invariant out == EnabledPrints(rows) + Unshadowed(rows, lib[..k])
      {
        assert lib[..k + 1][..k] == lib[..k];
        KeyedAs(rows, lib[k].kind, lib[k].pattern);
        if Key(lib[k].kind, lib[k].pattern) !in have {
          out := out + [lib[k]];
        }
      }
      assert lib[..|lib|] == lib;
    }

    /** The insert query; the unique index demands a free key. */
    method CreateVendorFingerprint(p: Print)
      requires !HasRow(rows, p.kind, p.pattern)
      modifies this
      ensures rows == old(rows) + [BuiltinRow(p, old(next))] && next == old(next) + 1
    {
      rows := rows + [BuiltinRow(p, next)];
      next := next + 1;
    }

    /** One entry of the plan. */
    method ApplyEntry(p: Print, action: Action)
      requires action.Create? ==> !HasRow(rows, p.kind, p.pattern)
      modifies this
      ensures rows == Entered(old(rows), old(next), p, action)
      ensures next == old(next) + if action.Create? then 1 else 0
    {
      match action
      case Create => CreateVendorFingerprint(p);
      case Refresh(id) => rows := RefreshById(rows, id, p);
      case Preserve(_) =>
      case UpToDate(_) =>
    }

    /** seedVendorFingerprints: plan against the rows as listed, then apply entry by entry. */
    method SeedVendorFingerprints(lib: seq<Print>) returns (n: Counts)
      requires Valid() && ValidCatalog(lib)
      modifies this
      ensures Valid() && rows == Seeded(old(rows), lib, old(next))
      ensures n == Count(old(rows), lib)
    {
      ghost var was, first := rows, next;
      var plan := PlanBuiltinSeed(rows, lib);
      forall k | 0 <= k < |lib| ensures EntryFits(was, lib, first, k) {
        EntryStep(was, lib, first, k);
      }
      n := ApplyPlan(lib, plan);
      SeedKeepsValid(was, lib, first);
    }

    /** The seed handler's loop over the plan. */
    method ApplyPlan(lib: seq<Print>, plan: seq<Action>) returns (n: Counts)
      requires plan == PlanOf(rows, lib) && forall k :: 0 <= k < |lib| ==> EntryFits(rows, lib, next, k)
      modifies this
      ensures rows == Seeded(old(rows), lib, old(next)) && next == old(next) + |Created(old(rows), lib, old(next))|
      ensures n == Count(old(rows), lib)
    {
      ghost var was, first := rows, next;
      n := Counts(0, 0, 0, 0);
      SeedNothing(was, lib, first);
      for k := 0 to |lib|
        invariant rows == Seeded(was, lib[..k], first) && next == first + |Created(was, lib[..k], first)|
        invariant n == Count(was, lib[..k])
      {
        assert EntryFits(was, lib, first, k);
        n := Bump(n, plan[k]);
        ApplyEntry(lib[k], plan[k]);
      }
      assert lib[..|lib|] == lib;
    }
  }

  function Bump(n: Counts, action: Action): (m: Counts)
    ensures m.created + m.refreshed + m.preserved + m.upToDate == n.created + n.refreshed + n.preserved + n.upToDate + 1
  {
    match action
    case Create => n.(created := n.created + 1)
    case Refresh(_) => n.(refreshed := n.refreshed + 1)
    case Preserve(_) => n.(preserved := n.preserved + 1)
    case UpToDate(_) => n.(upToDate := n.upToDate + 1)
  }

  /** The rows after one planned entry. */
  function Entered(rows: seq<Row>, next: nat, p: Print, action: Action): seq<Row> {
    match action
    case Create => rows + [BuiltinRow(p, next)]
    case Refresh(id) => RefreshById(rows, id, p)
    case _ => rows
  }

  lemma SeedNothing(rows: seq<Row>, lib: seq<Print>, next: nat)
    ensures lib[..0] == [] && Seeded(rows, lib[..0], next) == rows && Created(rows, lib[..0], next) == []
  {
    assert SeededRows(rows, []) == rows;
  }

  /**
    The action planned for entry k is possible after the entries before it, and leads to the table after k
    + 1 entries.
   */
  ghost predicate EntryFits(rows: seq<Row>, lib: seq<Print>, next: nat, k: nat)
    requires k < |lib|
  {
    var now, more := Seeded(rows, lib[..k], next), |Created(rows, lib[..k], next)|;
    var action := ActionFor(rows, lib[k]);
    && (action.Create? ==> !HasRow(now, lib[k].kind, lib[k].pattern))
    && Seeded(rows, lib[..k + 1], next) == Entered(now, next + more, lib[k], action)
    && |Created(rows, lib[..k + 1], next)| == more + (if action.Create? then 1 else 0)
    && Count(rows, lib[..k + 1]) == Bump(Count(rows, lib[..k]), action)
  }

  lemma CountSnoc(rows: seq<Row>, lib: seq<Print>, k: nat)
    requires k < |lib|
    ensures Count(rows, lib[..k + 1]) == Bump(Count(rows, lib[..k]), ActionFor(rows, lib[k]))
  {
    assert lib[..k + 1][..k] == lib[..k];
  }

  lemma FreshEntry(rows: seq<Row>, lib: seq<Print>, next: nat, k: nat)
    requires ValidRows(rows, next) && ValidCatalog(lib) && k < |lib| && !HasRow(rows, lib[k].kind, lib[k].pattern)
    ensures EntryFits(rows, lib, next, k)
  {
    CreateStep(rows, lib, next, k);
    CountSnoc(rows, lib, k);
  }

  lemma HeldEntry(rows: seq<Row>, lib: seq<Print>, next: nat, k: nat, at: nat)
    requires ValidRows(rows, next) && ValidCatalog(lib) && k < |lib| && at < |rows|
    requires RowIs(rows[at], lib[k].kind, lib[k].pattern)
    ensures EntryFits(rows, lib, next, k)
  {
    TheRowFor(rows, next, at, lib[k]);
    UpdateStep(rows, lib, next, k, at);
    CountSnoc(rows, lib, k);
  }

  /** Applying an action planned against the first listing stays right as the table changes under the loop. */
  lemma EntryStep(rows: seq<Row>, lib: seq<Print>, next: nat, k: nat)
    requires ValidRows(rows, next) && ValidCatalog(lib) && k < |lib|
    ensures EntryFits(rows, lib, next, k)
  {
    if at: nat :| at < |rows| && RowIs(rows[at], lib[k].kind, lib[k].pattern) {
      HeldEntry(rows, lib, next, k, at);
    } else {
      FreshEntry(rows, lib, next, k);
    }
  }

  // ----- What the four counts count -----

  datatype Fate = Added | KeptAside | Renewed | LeftAlone

  /**
    The fate of a catalog entry, read off the stored rows: added if it has no row, kept aside if an
    operator owns its rule, renewed or left alone if its built-in row differs from it or not.
   */
  ghost predicate Meets(rows: seq<Row>, p: Print, fate: Fate) {
    match fate
    case Added => !exists r :: r in rows && RowIs(r, p.kind, p.pattern)
    case KeptAside => exists r :: r in rows && RowIs(r, p.kind, p.pattern) && r.source == User
    case Renewed => exists r :: r in rows && RowIs(r, p.kind, p.pattern) && r.source == Builtin && ToPrint(r) != p
    case LeftAlone => exists r :: r in rows && RowIs(r, p.kind, p.pattern) && r.source == Builtin && ToPrint(r) == p
  }

  ghost function Meeting(rows: seq<Row>, lib: seq<Print>, fate: Fate): set<Print> {
    set p | p in lib && Meets(rows, p, fate)
  }

  /** The count the seed handler reports for a fate. */
  function Reported(n: Counts, fate: Fate): nat {
    match fate
    case Added => n.created
    case KeptAside => n.preserved
    case Renewed => n.refreshed
    case LeftAlone => n.upToDate
  }

  lemma ActionMeansFate(rows: seq<Row>, next: nat, p: Print, n: Counts, fate: Fate)
    requires ValidRows(rows, next)
    ensures Reported(Bump(n, ActionFor(rows, p)), fate) == Reported(n, fate) + if Meets(rows, p, fate) then 1 else 0
  {
    if HasRow(rows, p.kind, p.pattern) {
      var at :| 0 <= at < |rows| && RowIs(rows[at], p.kind, p.pattern);
      TheRowFor(rows, next, at, p);
      MatchesMeansSamePrint(rows[at], p);
      assert rows[at] in rows;
      assert forall r :: r in rows && RowIs(r, p.kind, p.pattern) ==> r == rows[at];
    } else {
      assert forall r :: r in rows ==> !RowIs(r, p.kind, p.pattern);
    }
  }

  lemma MeetingGrows(rows: seq<Row>, init: seq<Print>, last: Print, fate: Fate)
    requires last !in init
    ensures |Meeting(rows, init + [last], fate)| ==
            |Meeting(rows, init, fate)| + if Meets(rows, last, fate) then 1 else 0
  {
    var before := Meeting(rows, init, fate);
    assert Meeting(rows, init + [last], fate) == if Meets(rows, last, fate) then before + {last} else before;
  }

  /** Each count the seed handler reports is the number of catalog entries that meet that fate. */
  lemma {:induction false} CountsMean(rows: seq<Row>, lib: seq<Print>, next: nat, fate: Fate)
    requires ValidRows(rows, next) && ValidCatalog(lib)
    ensures Reported(Count(rows, lib), fate) == |Meeting(rows, lib, fate)|
  {
    if lib == [] {
      assert Meeting(rows, lib, fate) == {};
    } else {
      var init, last := lib[..|lib| - 1], lib[|lib| - 1];
      CountsMean(rows, init, next, fate);
      ActionMeansFate(rows, next, last, Count(rows, init), fate);
      assert lib == init + [last];
      MeetingGrows(rows, init, last, fate);
    }
  }
}
