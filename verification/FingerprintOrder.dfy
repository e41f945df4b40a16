/**
  Which print wins a match, and what seeding does to it: the set of prints may be kept while the
  listing order decides a tie differently.
 */
module FingerprintOrder {
  import opened Domain
  import opened Fingerprints

  // ----- The winner of a library -----

  function KindRank(kind: string): nat {
    if kind == "oid" then 0
    else if kind == "service" then 1
    else if kind == "sysname" then 2
    else if kind == "http" then 3
    else if kind == "ssh" then 4
    else 5
  }

  predicate Outranks(p: Print, q: Print) {
    p.confidence > q.confidence || (p.confidence == q.confidence && KindRank(p.kind) < KindRank(q.kind))
  }

  /** The head of the stable sort: a firing print none outranks, the first of those. */
  ghost predicate IsWinner(lib: seq<Print>, fires: set<Print>, p: Print) {
    && p in fires
    && (forall q :: q in lib && q in fires ==> !Outranks(q, p))
    && exists i :: 0 <= i < |lib| && lib[i] == p && forall k :: 0 <= k < i && lib[k] in fires ==> Outranks(p, lib[k])
  }

  /**
    Two libraries with the same prints pick winners of the same confidence and kind rank, so the same
    print unless there is a tie.
   */
  lemma WinnersTie(x: seq<Print>, y: seq<Print>, fires: set<Print>, p: Print, q: Print)
    requires SamePrints(x, y) && IsWinner(x, fires, p) && IsWinner(y, fires, q)
    ensures p.confidence == q.confidence && KindRank(p.kind) == KindRank(q.kind)
    ensures (forall r :: r in x && r in fires && r != p ==> Outranks(p, r)) ==> q == p
  {
    assert q in y && p in x;
  }

  /** Another order of the same prints crowns another winner. */
  ghost predicate OrderMatters(x: seq<Print>, fires: set<Print>, p: Print) {
    exists y: seq<Print>, q: Print :: multiset(y) == multiset(x) && IsWinner(y, fires, q) && q != p
  }

  /** Exactly when some other firing print ties with the winner. */
  lemma OrderMattersExactly(x: seq<Print>, fires: set<Print>, p: Print)
    requires IsWinner(x, fires, p)
    ensures OrderMatters(x, fires, p) <==> exists r :: r in x && r in fires && r != p && !Outranks(p, r)
  {
    if OrderMatters(x, fires, p) {
      var y, q :| multiset(y) == multiset(x) && IsWinner(y, fires, q) && q != p;
      SameElements(x, y);
      WinnersTie(x, y, fires, p, q);
      assert q in x && q in fires && !Outranks(p, q);
    }
    if r :| r in x && r in fires && r != p && !Outranks(p, r) {
      var y := MovedToFront(x, r);
      SameElements(x, y);
      assert IsWinner(y, fires, r);
    }
  }

  lemma MovedToFront(x: seq<Print>, r: Print) returns (y: seq<Print>)
    requires r in x
    ensures multiset(y) == multiset(x) && y != [] && y[0] == r
  {
    var i :| 0 <= i < |x| && x[i] == r;
    y := [r] + x[..i] + x[i + 1..];
    assert x == x[..i] + [r] + x[i + 1..];
  }

  lemma SameElements<T>(x: seq<T>, y: seq<T>)
    requires multiset(x) == multiset(y)
    ensures forall r :: r in x <==> r in y
  {
    forall r ensures r in x <==> r in y {
      assert r in multiset(x) <==> r in multiset(y);
    }
  }

  /** Confidence decides; among equals the channel does: oid, service, sysname, http, ssh, then anything else. */
  lemma OutranksSpec(p: Print, q: Print)
    ensures p.confidence > q.confidence ==> Outranks(p, q)
    ensures p.confidence < q.confidence ==> !Outranks(p, q)
    ensures p.confidence == q.confidence ==>
              (Outranks(p, q) <==> exists i, k :: 0 <= i < k <= 5 && OnChannel(p.kind, i) && OnChannel(q.kind, k))
  {
    ChannelIsRank(p.kind);
    ChannelIsRank(q.kind);
  }

  lemma ChannelIsRank(kind: string)
    ensures OnChannel(kind, KindRank(kind)) && KindRank(kind) <= 5
    ensures forall i :: OnChannel(kind, i) ==> i == KindRank(kind)
  {
  }

  /** The i-th channel; the last place is shared by all others. */
  predicate OnChannel(kind: string, i: int) {
    var channels := ["oid", "service", "sysname", "http", "ssh"];
    if 0 <= i < 5 then kind == channels[i] else i == 5 && kind !in channels
  }

  // ----- Winners by precedence -----

  ghost predicate Precedes(xs: seq<Print>, q: Print, p: Print) {
    exists a, b :: 0 <= a < b < |xs| && xs[a] == q && xs[b] == p
  }

  /** Without repeats, a print wins exactly when it fires, none outranks it, and no tied one precedes it. */
  lemma WinnerByPrecedence(xs: seq<Print>, fires: set<Print>, p: Print)
    requires forall q :: !Precedes(xs, q, q)
    ensures IsWinner(xs, fires, p) <==>
              && p in xs && p in fires
              && (forall q :: q in xs && q in fires ==> !Outranks(q, p))
              && (forall q :: q in fires && q != p && Precedes(xs, q, p) ==> Outranks(p, q))
  {
    if IsWinner(xs, fires, p) {
      var i :| 0 <= i < |xs| && xs[i] == p && forall k :: 0 <= k < i && xs[k] in fires ==> Outranks(p, xs[k]);
      forall q | q in fires && q != p && Precedes(xs, q, p)
        ensures Outranks(p, q)
      {
        var a, b :| 0 <= a < b < |xs| && xs[a] == q && xs[b] == p;
        assert !Precedes(xs, p, p);
        assert b == i;
      }
    }
    if p in xs && p in fires && forall q :: q in fires && q != p && Precedes(xs, q, p) ==> Outranks(p, q) {
      var i :| 0 <= i < |xs| && xs[i] == p;
      forall k | 0 <= k < i && xs[k] in fires
        ensures Outranks(p, xs[k])
      {
        assert Precedes(xs, xs[k], p);
        assert !Precedes(xs, p, p);
      }
    }
  }

  /** A row giving q is listed before a row giving p. */
  ghost predicate ComesBefore(rows: seq<Row>, q: Print, p: Print) {
    exists i: nat, k: nat :: i < k && RowGives(rows, i, q) && RowGives(rows, k, p)
  }

  lemma PrecedesSnoc(xs: seq<Print>, x: Print, q: Print, p: Print)
    ensures Precedes(xs + [x], q, p) <==> Precedes(xs, q, p) || (q in xs && p == x)
  {
    var all := xs + [x];
    if Precedes(xs, q, p) {
      var a, b :| 0 <= a < b < |xs| && xs[a] == q && xs[b] == p;
      assert all[a] == q && all[b] == p;
    }
    if q in xs && p == x {
      var a :| 0 <= a < |xs| && xs[a] == q;
      assert all[a] == q && all[|xs|] == p;
    }
    if Precedes(all, q, p) {
      var a, b :| 0 <= a < b < |all| && all[a] == q && all[b] == p;
      assert xs[a] == q;
      assert b < |xs| ==> xs[b] == p;
    }
  }

  lemma ComesBeforeSnoc(rows: seq<Row>, q: Print, p: Print)
    requires rows != []
    ensures var n := |rows| - 1;
            ComesBefore(rows, q, p) <==>
              ComesBefore(rows[..n], q, p) || (RowGives(rows, n, p) && exists i: nat :: RowGives(rows[..n], i, q))
  {
    var n := |rows| - 1;
    assert forall i: nat, r: Print :: i < n ==> (RowGives(rows, i, r) <==> RowGives(rows[..n], i, r));
    if ComesBefore(rows, q, p) {
      var i: nat, k: nat :| i < k && RowGives(rows, i, q) && RowGives(rows, k, p);
      assert RowGives(rows[..n], i, q);
      if k < n { assert RowGives(rows[..n], k, p); }
    }
    if ComesBefore(rows[..n], q, p) {
      var i: nat, k: nat :| i < k && RowGives(rows[..n], i, q) && RowGives(rows[..n], k, p);
      assert RowGives(rows, i, q) && RowGives(rows, k, p);
    }
    if RowGives(rows, n, p) && exists i: nat :: RowGives(rows[..n], i, q) {
      var i: nat :| RowGives(rows[..n], i, q);
      assert RowGives(rows, i, q);
    }
  }

  /** The enabled prints stand in the order of their rows. */
  lemma {:induction false} EnabledInRowOrder(rows: seq<Row>, q: Print, p: Print)
    ensures Precedes(EnabledPrints(rows), q, p) <==> ComesBefore(rows, q, p)
  {
    if rows != [] {
      var n := |rows| - 1;
      EnabledInRowOrder(rows[..n], q, p);
      EnabledPrintsSpec(rows[..n], q);
      ComesBeforeSnoc(rows, q, p);
      if rows[n].enabled {
        PrecedesSnoc(EnabledPrints(rows[..n]), ToPrint(rows[n]), q, p);
      } else {
        assert EnabledPrints(rows) == EnabledPrints(rows[..n]);
      }
    }
  }

  /** Unshadowed entries stand in catalog order. */
  lemma {:induction false} UnshadowedInCatalogOrder(rows: seq<Row>, lib: seq<Print>, q: Print, p: Print)
    ensures Precedes(Unshadowed(rows, lib), q, p) ==> Precedes(lib, q, p)
  {
    if lib != [] {
      var n := |lib| - 1;
      UnshadowedInCatalogOrder(rows, lib[..n], q, p);
      UnshadowedSpec(rows, lib[..n], q);
      assert lib == lib[..n] + [lib[n]];
      PrecedesSnoc(lib[..n], lib[n], q, p);
      PrecedesSnoc(Unshadowed(rows, lib[..n]), lib[n], q, p);
    }
  }

  lemma {:induction false} PrecedesConcat(xs: seq<Print>, ys: seq<Print>, q: Print, p: Print)
    ensures Precedes(xs + ys, q, p) <==> Precedes(xs, q, p) || Precedes(ys, q, p) || (q in xs && p in ys)
  {
    if ys == [] {
      assert xs + ys == xs;
    } else {
      var n := |ys| - 1;
      PrecedesConcat(xs, ys[..n], q, p);
      PrecedesSnoc(xs + ys[..n], ys[n], q, p);
      PrecedesSnoc(ys[..n], ys[n], q, p);
      assert xs + ys == xs + ys[..n] + [ys[n]] && ys == ys[..n] + [ys[n]];
    }
  }

  /** In a scan library a stored print precedes the later stored ones and every catalog one. */
  lemma LibraryPrecedence(rows: seq<Row>, lib: seq<Print>, q: Print, p: Print)
    ensures Precedes(ScanLibrary(rows, lib), q, p) <==>
              || ComesBefore(rows, q, p)
              || Precedes(Unshadowed(rows, lib), q, p)
              || ((exists i: nat :: RowGives(rows, i, q)) && p in lib && !HasRow(rows, p.kind, p.pattern))
  {
    PrecedesConcat(EnabledPrints(rows), Unshadowed(rows, lib), q, p);
    EnabledInRowOrder(rows, q, p);
    EnabledPrintsSpec(rows, q);
    UnshadowedSpec(rows, lib, p);
  }

  /** No two rows, and no two catalog entries, of one rule. */
  ghost predicate OneRowPerRule(rows: seq<Row>) {
    forall i, k :: 0 <= i < k < |rows| ==> !SameRule(rows[i].kind, rows[i].pattern, rows[k].kind, rows[k].pattern)
  }

  /** A scan library lists no print twice. */
  lemma LibraryHasNoRepeats(rows: seq<Row>, lib: seq<Print>, p: Print)
    requires OneRowPerRule(rows) && ValidCatalog(lib)
    ensures !Precedes(ScanLibrary(rows, lib), p, p)
  {
    LibraryPrecedence(rows, lib, p, p);
    UnshadowedInCatalogOrder(rows, lib, p, p);
    if i: nat :| RowGives(rows, i, p) {
      assert RowIs(rows[i], p.kind, p.pattern);
    }
  }

  // ----- Listings -----

  predicate LexLess(a: string, b: string) {
    b != [] && (a == [] || a[0] < b[0] || (a[0] == b[0] && LexLess(a[1..], b[1..])))
  }

  /** The listing order of the rows, as far as vendor; rows equal so far are ordered by pattern. */
  predicate ListsBefore(x: Row, y: Row) {
    if x.source != y.source then x.source == User
    else if x.priority != y.priority then x.priority < y.priority
    else if x.confidence != y.confidence then x.confidence > y.confidence
    else if x.kind != y.kind then LexLess(x.kind, y.kind)
    else if x.vendor != y.vendor then LexLess(x.vendor, y.vendor)
    else LexLess(x.pattern, y.pattern)
  }

  /** User rows come first, then lower priorities, then higher confidence; kind, vendor and pattern only break ties. */
  lemma ListingOrder(x: Row, y: Row)
    ensures x.source == User && y.source == Builtin ==> ListsBefore(x, y) && !ListsBefore(y, x)
    ensures x.source == y.source && x.priority < y.priority ==> ListsBefore(x, y) && !ListsBefore(y, x)
    ensures x.source == y.source && x.priority == y.priority && x.confidence > y.confidence ==>
              ListsBefore(x, y) && !ListsBefore(y, x)
    ensures x.source == y.source && x.priority == y.priority && x.confidence == y.confidence ==>
              (ListsBefore(x, y) <==>
                 || (x.kind != y.kind && LexLess(x.kind, y.kind))
                 || (x.kind == y.kind && x.vendor != y.vendor && LexLess(x.vendor, y.vendor))
                 || (x.kind == y.kind && x.vendor == y.vendor && LexLess(x.pattern, y.pattern)))
  {
  }

  /** A strict listing order, whatever the collation. */
  ghost predicate Strict(before: (Row, Row) -> bool) { forall x, y :: before(x, y) ==> !before(y, x) }

  ghost predicate ListedBy(before: (Row, Row) -> bool, rows: seq<Row>) {
    forall i, k :: 0 <= i < k < |rows| ==> before(rows[i], rows[k])
  }

  lemma {:induction false} LexLessIsStrict(a: string, b: string)
    requires LexLess(a, b)
    ensures !LexLess(b, a)
    decreases |a|
  {
    if a != [] && a[0] == b[0] { LexLessIsStrict(a[1..], b[1..]); }
  }

  lemma ListsBeforeIsStrict()
    ensures Strict(ListsBefore)
  {
    forall x, y | ListsBefore(x, y)
      ensures !ListsBefore(y, x)
    {
      if x.kind != y.kind {
        if LexLess(x.kind, y.kind) { LexLessIsStrict(x.kind, y.kind); }
      } else if x.vendor != y.vendor {
        if LexLess(x.vendor, y.vendor) { LexLessIsStrict(x.vendor, y.vendor); }
      } else if LexLess(x.pattern, y.pattern) {
        LexLessIsStrict(x.pattern, y.pattern);
      }
    }
  }

  // ----- Seeding and the winner -----

  /** A listing of the seeded table. */
  ghost predicate Relisted(
    before: (Row, Row) -> bool, rows: seq<Row>, lib: seq<Print>, next: nat, after: seq<Row>
  ) {
    ListedBy(before, after) && multiset(after) == multiset(Seeded(rows, lib, next))
  }

  /** A listing of a valid table is valid: no row is listed twice. */
  lemma RelistedIsValid(before: (Row, Row) -> bool, rows: seq<Row>, lib: seq<Print>, next: nat, after: seq<Row>)
    requires ValidRows(rows, next) && ValidCatalog(lib) && Strict(before) && Relisted(before, rows, lib, next, after)
    ensures OneRowPerRule(after)
    ensures forall r :: r in after <==> r in Seeded(rows, lib, next)
  {
    SameElements(after, Seeded(rows, lib, next));
    SeedKeepsValid(rows, lib, next);
    var all := Seeded(rows, lib, next);
    forall i, k | 0 <= i < k < |after|
      ensures !SameRule(after[i].kind, after[i].pattern, after[k].kind, after[k].pattern)
    {
      assert after[i] in all && after[k] in all;
      var a :| 0 <= a < |all| && all[a] == after[i];
      var b :| 0 <= b < |all| && all[b] == after[k];
      assert before(after[i], after[k]) && !before(after[k], after[i]);
    }
  }

  /** The library depends on the rows only as a set, up to order. */
  lemma SameRowsSamePrints(x: seq<Row>, y: seq<Row>, lib: seq<Print>)
    requires forall r :: r in x <==> r in y
    ensures SamePrints(ScanLibrary(x, lib), ScanLibrary(y, lib))
    ensures forall kind, pattern :: HasRow(x, kind, pattern) <==> HasRow(y, kind, pattern)
  {
    HasRowIn(x, y);
    HasRowIn(y, x);
    forall p ensures p in ScanLibrary(x, lib) <==> p in ScanLibrary(y, lib) {
      ScanLibrarySpec(x, lib, p);
      ScanLibrarySpec(y, lib, p);
      GivesIn(x, y, p);
      GivesIn(y, x, p);
    }
  }

  lemma HasRowIn(x: seq<Row>, y: seq<Row>)
    requires forall r :: r in x ==> r in y
    ensures forall kind, pattern :: HasRow(x, kind, pattern) ==> HasRow(y, kind, pattern)
  {
    forall kind, pattern | HasRow(x, kind, pattern)
      ensures HasRow(y, kind, pattern)
    {
      var i :| 0 <= i < |x| && RowIs(x[i], kind, pattern);
      assert x[i] in y;
    }
  }

  lemma GivesIn(x: seq<Row>, y: seq<Row>, p: Print)
    requires forall r :: r in x ==> r in y
    ensures (exists i: nat :: RowGives(x, i, p)) ==> exists k: nat :: RowGives(y, k, p)
  {
    if i: nat :| RowGives(x, i, p) {
      assert x[i] in y;
      var k: nat :| k < |y| && y[k] == x[i];
      assert RowGives(y, k, p);
    }
  }

  /** After seeding no catalog entry is left to append. */
  lemma NothingUnshadowed(rows: seq<Row>, lib: seq<Print>, next: nat, after: seq<Row>)
    requires forall r :: r in after <==> r in Seeded(rows, lib, next)
    ensures Unshadowed(after, lib) == []
  {
    SameRowsSamePrints(after, Seeded(rows, lib, next), lib);
    forall p | p in lib
      ensures HasRow(after, p.kind, p.pattern)
    {
      SeedCovers(rows, lib, next, p);
    }
    AllShadowed(after, lib);
  }

  lemma {:induction false} AllShadowed(rows: seq<Row>, lib: seq<Print>)
    requires forall p :: p in lib ==> HasRow(rows, p.kind, p.pattern)
    ensures Unshadowed(rows, lib) == []
  {
    if lib != [] { AllShadowed(rows, lib[..|lib| - 1]); }
  }

  /** An enabled row of the seeded table is a stored row as it was, or stands for a catalog entry that had none. */
  lemma OldOrNew(rows: seq<Row>, lib: seq<Print>, next: nat, r: Row)
    requires NoEnabledDrift(rows, lib) && r in Seeded(rows, lib, next) && r.enabled
    ensures r in rows || (ToPrint(r) in lib && !HasRow(rows, r.kind, r.pattern))
  {
    var all := Seeded(rows, lib, next);
    var i :| 0 <= i < |all| && all[i] == r;
    if i < |rows| {
      assert !Drifted(rows[i], lib);
    } else {
      CreatedRow(rows, lib, next, i - |rows|);
    }
  }

  /** Two stored rows keep their order from one listing to the next. */
  lemma OldOrderKept(
    before: (Row, Row) -> bool, rows: seq<Row>, after: seq<Row>, i: nat, k: nat, q: Print, p: Print
  )
    requires Strict(before) && ListedBy(before, rows) && ListedBy(before, after)
    requires i < k && RowGives(after, i, q) && RowGives(after, k, p) && after[i] in rows && after[k] in rows
    ensures ComesBefore(rows, q, p)
  {
    var j: nat :| j < |rows| && rows[j] == after[i];
    var m: nat :| m < |rows| && rows[m] == after[k];
    assert before(rows[j], rows[m]) && !before(rows[m], rows[j]);
    assert j < m;
    assert RowGives(rows, j, q) && RowGives(rows, m, p);
  }

  /** A print that ties with the winner and is listed before it after seeding was not stored before. */
  lemma OvertakerIsNew(
    before: (Row, Row) -> bool, rows: seq<Row>, lib: seq<Print>, next: nat, after: seq<Row>,
    fires: set<Print>, p: Print, q: Print
  )
    requires ValidRows(rows, next) && ValidCatalog(lib) && NoEnabledDrift(rows, lib)
    requires Strict(before) && ListedBy(before, rows) && Relisted(before, rows, lib, next, after)
    requires IsWinner(ScanLibrary(rows, lib), fires, p)
    requires q in fires && q != p && !Outranks(p, q) && ComesBefore(after, q, p)
    ensures q in lib && !HasRow(rows, q.kind, q.pattern)
  {
    RelistedIsValid(before, rows, lib, next, after);
    var i: nat, k: nat :| i < k && RowGives(after, i, q) && RowGives(after, k, p);
    OldOrNew(rows, lib, next, after[i]);
    OldOrNew(rows, lib, next, after[k]);
    if after[i] in rows {
      forall r ensures !Precedes(ScanLibrary(rows, lib), r, r) { LibraryHasNoRepeats(rows, lib, r); }
      WinnerByPrecedence(ScanLibrary(rows, lib), fires, p);
      LibraryPrecedence(rows, lib, q, p);
      var j: nat :| j < |rows| && rows[j] == after[i];
      assert RowGives(rows, j, q);
      if after[k] in rows { OldOrderKept(before, rows, after, i, k, q, p); }
    }
  }

  /**
    When the set of prints is kept, the winner is kept if and only if no catalog entry that had no row,
    fires and ties with it is listed before it once the table is seeded. The listing order may be any
    strict one.
   */
  lemma SeedKeepsWinnerExactly(
    before: (Row, Row) -> bool, rows: seq<Row>, lib: seq<Print>, next: nat, after: seq<Row>,
    fires: set<Print>, p: Print
  )
    requires ValidRows(rows, next) && ValidCatalog(lib) && NoEnabledDrift(rows, lib)
    requires Strict(before) && ListedBy(before, rows) && Relisted(before, rows, lib, next, after)
    requires IsWinner(ScanLibrary(rows, lib), fires, p)
    ensures IsWinner(ScanLibrary(after, lib), fires, p) <==>
            !exists q :: q in lib && !HasRow(rows, q.kind, q.pattern)
                         && q in fires && q != p && !Outranks(p, q) && ComesBefore(after, q, p)
  {
    RelistedIsValid(before, rows, lib, next, after);
    SeedKeepsMeaningExactly(rows, lib, next);
    SameRowsSamePrints(after, Seeded(rows, lib, next), lib);
    forall r ensures !Precedes(ScanLibrary(after, lib), r, r) { LibraryHasNoRepeats(after, lib, r); }
    WinnerByPrecedence(ScanLibrary(after, lib), fires, p);
    NothingUnshadowed(rows, lib, next, after);
    assert ScanLibrary(after, lib) == EnabledPrints(after);
    forall q ensures Precedes(ScanLibrary(after, lib), q, p) <==> ComesBefore(after, q, p) {
      EnabledInRowOrder(after, q, p);
    }
    forall q | q in fires && q != p && !Outranks(p, q) && ComesBefore(after, q, p)
      ensures q in lib && !HasRow(rows, q.kind, q.pattern)
    {
      OvertakerIsNew(before, rows, lib, next, after, fires, p, q);
    }
  }

  /**
    So seeding an empty table hands a tie between two catalog entries to the later one whenever the
    listing puts that one first.
   */
  lemma SeedFlipsTie(
    before: (Row, Row) -> bool, lib: seq<Print>, next: nat, after: seq<Row>, i: nat, k: nat
  )
    requires ValidCatalog(lib) && i < k < |lib| && lib[i].confidence == lib[k].confidence && lib[i].kind == lib[k].kind
    requires Strict(before) && Relisted(before, [], lib, next, after)
    requires forall m: nat, n: nat :: before(BuiltinRow(lib[k], m), BuiltinRow(lib[i], n))
    ensures IsWinner(ScanLibrary([], lib), {lib[i], lib[k]}, lib[i])
    ensures !IsWinner(ScanLibrary(after, lib), {lib[i], lib[k]}, lib[i])
  {
    var p, q, fires := lib[i], lib[k], {lib[i], lib[k]};
    AllUnshadowed(lib);
    assert lib[i] == p;
    assert IsWinner(lib, fires, p);
    RelistedIsValid(before, [], lib, next, after);
    var x := CreatedIsListed(lib, next, after, p);
    var y := CreatedIsListed(lib, next, after, q);
    assert before(after[y], after[x]) && !before(after[x], after[y]);
    assert y < x && RowGives(after, y, q) && RowGives(after, x, p);
    SeedKeepsWinnerExactly(before, [], lib, next, after, fires, p);
  }

  lemma {:induction false} AllUnshadowed(lib: seq<Print>)
    ensures ScanLibrary([], lib) == lib
  {
    if lib != [] {
      AllUnshadowed(lib[..|lib| - 1]);
      assert lib == lib[..|lib| - 1] + [lib[|lib| - 1]];
    }
  }

  lemma CreatedIsListed(lib: seq<Print>, next: nat, after: seq<Row>, p: Print) returns (at: nat)
    requires p in lib && forall r :: r in after <==> r in Seeded([], lib, next)
    ensures at < |after| && exists id: nat :: after[at] == BuiltinRow(p, id)
  {
    CreatedCovers([], lib, next, p);
    var made := Created([], lib, next);
    var i: nat :| i < |made| && made[i] == BuiltinRow(p, next + i);
    assert Seeded([], lib, next)[i] == made[i];
    assert made[i] in after;
    at :| 0 <= at < |after| && after[at] == made[i];
  }

  const BIG_IP := Print("service", "BIG-IP", "F5 Networks", "load_balancer", 84, "", [])
  const NETSCALER := Print("service", "NetScaler", "Citrix", "load_balancer", 84, "", [])

  /**
    Two shipped entries: BIG-IP is declared first and wins a tie until both are stored, then NetScaler is
    listed first.
   */
  lemma ShippedTieFlips(lib: seq<Print>, next: nat, after: seq<Row>, i: nat, k: nat)
    requires ValidCatalog(lib) && i < k < |lib| && lib[i] == BIG_IP && lib[k] == NETSCALER
    requires Relisted(ListsBefore, [], lib, next, after)
    ensures IsWinner(ScanLibrary([], lib), {BIG_IP, NETSCALER}, BIG_IP)
    ensures !IsWinner(ScanLibrary(after, lib), {BIG_IP, NETSCALER}, BIG_IP)
  {
    ListsBeforeIsStrict();
    assert NETSCALER.vendor[0] < BIG_IP.vendor[0];
    assert LexLess(NETSCALER.vendor, BIG_IP.vendor);
    SeedFlipsTie(ListsBefore, lib, next, after, i, k);
  }
}
