/**
  Scan accounting: workers report hosts in any interleaving, a retry pass follows, and no known
  device is lost. The host list may name an address twice (site scans do not deduplicate
  overlapping subnets), so the results say exactly what a repeat changes.
 */
module ScanAccounting {
  import opened Domain

  const MAX_ATTEMPTS := 3

  datatype Disposition = NewlyDiscovered | KnownSeen | KnownRecovered | KnownUnreachable

  datatype Row = Row(ip: nat, disposition: Disposition, retries: nat)

  /** A worker probes, then counts under the mutex, then writes its row. */
  datatype Phase = Waiting | Counted | Finished

  /** What is fixed for one run: the hosts, each visit's own probe outcome, the known addresses in scope. */
  datatype Scope = Scope(hosts: seq<nat>, alive: seq<bool>, known: set<nat>)

  predicate ValidScope(c: Scope) {
    |c.alive| == |c.hosts| && forall ip :: ip in c.known ==> ip in c.hosts
  }

  datatype Scan = Scan(phases: seq<Phase>, seenAlive: set<nat>, newCount: nat, seenCount: nat, rows: seq<Row>)

  function Start(c: Scope): Scan {
    Scan(seq(|c.hosts|, _ => Waiting), {}, 0, 0, [])
  }

  function DispositionFor(c: Scope, ip: nat): Disposition { if ip in c.known then KnownSeen else NewlyDiscovered }

  /** The next atomic action of the worker for host i. */
  function Advance(c: Scope, s: Scan, i: nat): Scan
    requires |c.alive| == |c.hosts|
  {
    if i >= |c.hosts| || i >= |s.phases| then s
    else
      var ip := c.hosts[i];
      match s.phases[i]
      case Waiting =>
        if !c.alive[i] then s.(phases := s.phases[i := Finished])
        else if ip in c.known
        then s.(phases := s.phases[i := Counted], seenAlive := s.seenAlive + {ip}, seenCount := s.seenCount + 1)
        else s.(phases := s.phases[i := Counted], seenAlive := s.seenAlive + {ip}, newCount := s.newCount + 1)
      case Counted => s.(phases := s.phases[i := Finished], rows := s.rows + [Row(ip, DispositionFor(c, ip), 0)])
      case Finished => s
  }

  /** Any interleaving: the order in which workers get to act. */
  function Sweep(c: Scope, schedule: seq<nat>): Scan
    requires |c.alive| == |c.hosts|
  {
    if schedule == [] then Start(c) else Advance(c, Sweep(c, schedule[..|schedule| - 1]), schedule[|schedule| - 1])
  }

  predicate Complete(s: Scan) { forall i :: 0 <= i < |s.phases| ==> s.phases[i] == Finished }

  // ----- Counting -----

  function CountTrue(bs: seq<bool>): nat {
    if bs == [] then 0 else CountTrue(bs[..|bs| - 1]) + if bs[|bs| - 1] then 1 else 0
  }

  lemma {:induction false} CountFlip(bs: seq<bool>, i: nat)
    requires i < |bs| && !bs[i]
    ensures CountTrue(bs[i := true]) == CountTrue(bs) + 1
  {
    var init := bs[..|bs| - 1];
    if i == |bs| - 1 {
      assert bs[i := true][..|bs| - 1] == init;
    } else {
      assert bs[i := true][..|bs| - 1] == init[i := true];
      CountFlip(init, i);
    }
  }

  lemma {:induction false} CountNone(bs: seq<bool>)
    requires forall i :: 0 <= i < |bs| ==> !bs[i]
    ensures CountTrue(bs) == 0
  {
    if bs != [] { CountNone(bs[..|bs| - 1]); }
  }

  lemma {:induction false} CountIsCard(bs: seq<bool>)
    ensures CountTrue(bs) == |set i: nat | i < |bs| && bs[i]|
  {
    var hits := set i: nat | i < |bs| && bs[i];
    if bs == [] {
      assert hits == {};
    } else {
      var n: nat := |bs| - 1;
      CountIsCard(bs[..n]);
      var before := set i: nat | i < |bs[..n]| && bs[..n][i];
      assert hits == if bs[n] then before + {n} else before;
    }
  }

  function RowsAt(rows: seq<Row>, ip: nat): nat {
    if rows == [] then 0 else RowsAt(rows[..|rows| - 1], ip) + if rows[|rows| - 1].ip == ip then 1 else 0
  }

  /** found_count: the rows whose outcome is not 'missed'. */
  function Found(rows: seq<Row>): nat {
    if rows == [] then 0
    else Found(rows[..|rows| - 1]) + if rows[|rows| - 1].disposition == KnownUnreachable then 0 else 1
  }

  /** Host visits counted so far, split by whether the address is known. */
  function Flags(c: Scope, s: Scan, known: bool): seq<bool>
    requires |c.alive| == |c.hosts| == |s.phases|
  {
    seq(|c.hosts|, i requires 0 <= i < |c.hosts| =>
      s.phases[i] != Waiting && c.alive[i] && (c.hosts[i] in c.known) == known)
  }

  function CountedVisits(c: Scope, s: Scan): seq<bool>
    requires |c.alive| == |c.hosts| == |s.phases|
  {
    seq(|c.hosts|, i requires 0 <= i < |c.hosts| => s.phases[i] != Waiting && c.alive[i])
  }

  function RecordedVisits(c: Scope, s: Scan): seq<bool>
    requires |c.alive| == |c.hosts| == |s.phases|
  {
    seq(|c.hosts|, i requires 0 <= i < |c.hosts| => s.phases[i] == Finished && c.alive[i])
  }

  function RecordedAt(c: Scope, s: Scan, ip: nat): seq<bool>
    requires |c.alive| == |c.hosts| == |s.phases|
  {
    seq(|c.hosts|, i requires 0 <= i < |c.hosts| => s.phases[i] == Finished && c.alive[i] && c.hosts[i] == ip)
  }

  /** The scan's visits to ip that found it alive. */
  function AliveAt(c: Scope, ip: nat): seq<bool>
    requires |c.alive| == |c.hosts|
  {
    seq(|c.hosts|, i requires 0 <= i < |c.hosts| => c.alive[i] && c.hosts[i] == ip)
  }

  /** The first n visits, marked where a known address was found alive. */
  function KnownAlive(c: Scope, n: nat): seq<bool>
    requires |c.alive| == |c.hosts| && n <= |c.hosts|
  {
    seq(n, i requires 0 <= i < n => c.alive[i] && c.hosts[i] in c.known)
  }

  function AliveVisits(c: Scope, ip: nat): nat
    requires |c.alive| == |c.hosts|
  {
    CountTrue(AliveAt(c, ip))
  }

  ghost predicate CountersInv(c: Scope, s: Scan)
    requires |c.alive| == |c.hosts| == |s.phases|
  {
    && s.seenCount == CountTrue(Flags(c, s, true))
    && s.newCount == CountTrue(Flags(c, s, false))
    && s.newCount + s.seenCount == CountTrue(CountedVisits(c, s))
  }

  ghost predicate RowsInv(c: Scope, s: Scan)
    requires |c.alive| == |c.hosts| == |s.phases|
  {
    && (forall ip: nat :: RowsAt(s.rows, ip) == CountTrue(RecordedAt(c, s, ip)))
    && |s.rows| == CountTrue(RecordedVisits(c, s)) == Found(s.rows)
    && (forall k :: 0 <= k < |s.rows| ==> s.rows[k] == Row(s.rows[k].ip, DispositionFor(c, s.rows[k].ip), 0))
  }

  ghost predicate SweepInv(c: Scope, s: Scan) {
    && |c.alive| == |c.hosts| == |s.phases|
    && (forall i :: 0 <= i < |c.hosts| && s.phases[i] == Counted ==> c.alive[i])
    && (forall i :: 0 <= i < |c.hosts| && s.phases[i] != Waiting && c.alive[i] ==> c.hosts[i] in s.seenAlive)
    && (forall ip :: ip in s.seenAlive ==>
      exists i :: 0 <= i < |c.hosts| && s.phases[i] != Waiting && c.alive[i] && c.hosts[i] == ip)
    && CountersInv(c, s) && RowsInv(c, s)
  }

  lemma CountingKeepsCounters(c: Scope, s: Scan, i: nat)
    requires |c.alive| == |c.hosts| == |s.phases| && CountersInv(c, s)
    requires i < |c.hosts| && s.phases[i] == Waiting && c.alive[i]
    ensures CountersInv(c, Advance(c, s, i))
  {
    var s' := Advance(c, s, i);
    var known := c.hosts[i] in c.known;
    CountFlip(Flags(c, s, known), i);
    CountFlip(CountedVisits(c, s), i);
    assert Flags(c, s', known) == Flags(c, s, known)[i := true];
    assert Flags(c, s', !known) == Flags(c, s, !known);
    assert CountedVisits(c, s') == CountedVisits(c, s)[i := true];
  }

  lemma CountingKeepsRows(c: Scope, s: Scan, i: nat)
    requires SweepInv(c, s) && i < |c.hosts| && s.phases[i] == Waiting
    ensures RowsInv(c, Advance(c, s, i))
  {
    var s' := Advance(c, s, i);
    assert RecordedVisits(c, s') == RecordedVisits(c, s);
    forall ip: nat
      ensures RecordedAt(c, s', ip) == RecordedAt(c, s, ip)
    {
    }
  }

  lemma RecordingKeepsRows(c: Scope, s: Scan, i: nat)
    requires SweepInv(c, s) && i < |c.hosts| && s.phases[i] == Counted
    ensures RowsInv(c, Advance(c, s, i))
  {
    var s' := Advance(c, s, i);
    assert s'.rows[..|s.rows|] == s.rows;
    CountFlip(RecordedVisits(c, s), i);
    assert RecordedVisits(c, s') == RecordedVisits(c, s)[i := true];
    forall ip: nat
      ensures RowsAt(s'.rows, ip) == CountTrue(RecordedAt(c, s', ip))
    {
      if ip == c.hosts[i] {
        CountFlip(RecordedAt(c, s, ip), i);
        assert RecordedAt(c, s', ip) == RecordedAt(c, s, ip)[i := true];
      } else {
        assert RecordedAt(c, s', ip) == RecordedAt(c, s, ip);
      }
    }
  }

  lemma QuietKeepsCounters(c: Scope, s: Scan, i: nat)
    requires |c.alive| == |c.hosts| == |s.phases| && CountersInv(c, s)
    requires i < |c.hosts| && (s.phases[i] == Waiting ==> !c.alive[i])
    ensures CountersInv(c, Advance(c, s, i))
  {
    var s' := Advance(c, s, i);
    assert Flags(c, s', true) == Flags(c, s, true) && Flags(c, s', false) == Flags(c, s, false);
    assert CountedVisits(c, s') == CountedVisits(c, s);
  }

  lemma AdvanceKeepsSeen(c: Scope, s: Scan, i: nat)
    requires SweepInv(c, s) && i < |c.hosts| && s.phases[i] != Finished
    ensures forall ip :: ip in Advance(c, s, i).seenAlive ==>
              exists k :: 0 <= k < |c.hosts| && Advance(c, s, i).phases[k] != Waiting && c.alive[k] && c.hosts[k] == ip
  {
    var s' := Advance(c, s, i);
    forall ip | ip in s'.seenAlive
      ensures exists k :: 0 <= k < |c.hosts| && s'.phases[k] != Waiting && c.alive[k] && c.hosts[k] == ip
    {
      if ip in s.seenAlive {
        var k :| 0 <= k < |c.hosts| && s.phases[k] != Waiting && c.alive[k] && c.hosts[k] == ip;
        assert s'.phases[k] != Waiting;
      } else {
        assert s'.phases[i] != Waiting && c.hosts[i] == ip;
      }
    }
  }

  lemma AdvanceKeepsInv(c: Scope, s: Scan, i: nat)
    requires SweepInv(c, s)
    ensures SweepInv(c, Advance(c, s, i))
  {
    if i < |c.hosts| && s.phases[i] != Finished {
      if s.phases[i] == Waiting { CountingKeepsRows(c, s, i); } else { RecordingKeepsRows(c, s, i); }
      if s.phases[i] == Waiting && c.alive[i] { CountingKeepsCounters(c, s, i); } else { QuietKeepsCounters(c, s, i); }
      AdvanceKeepsSeen(c, s, i);
    }
  }

  lemma {:induction false} SweepKeepsInv(c: Scope, schedule: seq<nat>)
    requires |c.alive| == |c.hosts|
    ensures SweepInv(c, Sweep(c, schedule))
  {
    if schedule == [] {
      var s := Start(c);
      CountNone(Flags(c, s, true));
      CountNone(Flags(c, s, false));
      CountNone(CountedVisits(c, s));
      CountNone(RecordedVisits(c, s));
      forall ip: nat ensures CountTrue(RecordedAt(c, s, ip)) == 0 { CountNone(RecordedAt(c, s, ip)); }
    } else {
      SweepKeepsInv(c, schedule[..|schedule| - 1]);
      AdvanceKeepsInv(c, Sweep(c, schedule[..|schedule| - 1]), schedule[|schedule| - 1]);
    }
  }

  /**
    Every complete interleaving ends alike: one row per visit that found its host alive, seenAlive
    exactly the addresses found alive, and as many rows as both counters together.
   */
  lemma SweepOutcome(c: Scope, schedule: seq<nat>)
    requires |c.alive| == |c.hosts| && Complete(Sweep(c, schedule))
    ensures var s := Sweep(c, schedule);
            && (forall ip: nat :: RowsAt(s.rows, ip) == AliveVisits(c, ip))
            && (forall ip :: ip in s.seenAlive <==> exists i :: 0 <= i < |c.hosts| && c.alive[i] && c.hosts[i] == ip)
            && s.seenCount == CountTrue(KnownAlive(c, |c.hosts|)) == |AliveVisitsTo(c, true)|
            && s.newCount == |AliveVisitsTo(c, false)|
            && Found(s.rows) == |s.rows| == s.newCount + s.seenCount
            && (forall k :: 0 <= k < |s.rows| ==>
                  s.rows[k] == Row(s.rows[k].ip, if s.rows[k].ip in c.known then KnownSeen else NewlyDiscovered, 0))
            && (forall k :: 0 <= k < |s.rows| ==> FoundAlive(c, s.rows[k].ip))
  {
    var s := Sweep(c, schedule);
    SweepKeepsInv(c, schedule);
    forall ip: nat ensures RecordedAt(c, s, ip) == AliveAt(c, ip) { }
    assert Flags(c, s, true) == KnownAlive(c, |c.hosts|);
    assert RecordedVisits(c, s) == CountedVisits(c, s);
    FlagsAreVisits(c, s, true);
    FlagsAreVisits(c, s, false);
    forall k | 0 <= k < |s.rows|
      ensures FoundAlive(c, s.rows[k].ip)
    {
      RowCounted(s.rows, k);
      NoVisits(c, s.rows[k].ip);
    }
  }

  /** The visits that found a known, or an unknown, address alive. */
  ghost function AliveVisitsTo(c: Scope, known: bool): set<nat>
    requires |c.alive| == |c.hosts|
  {
    set i: nat | i < |c.hosts| && c.alive[i] && (c.hosts[i] in c.known <==> known)
  }

  ghost predicate FoundAlive(c: Scope, ip: nat)
    requires |c.alive| == |c.hosts|
  {
    exists i :: 0 <= i < |c.hosts| && c.alive[i] && c.hosts[i] == ip
  }

  lemma FlagsAreVisits(c: Scope, s: Scan, known: bool)
    requires |c.alive| == |c.hosts| == |s.phases| && Complete(s)
    ensures CountTrue(Flags(c, s, known)) == |AliveVisitsTo(c, known)|
  {
    var flags := Flags(c, s, known);
    CountIsCard(flags);
    assert AliveVisitsTo(c, known) == set i: nat | i < |flags| && flags[i];
  }

  lemma {:induction false} RowCounted(rows: seq<Row>, k: nat)
    requires k < |rows|
    ensures RowsAt(rows, rows[k].ip) > 0
  {
    if k < |rows| - 1 { RowCounted(rows[..|rows| - 1], k); }
  }

  // ----- The retry pass -----

  /** Some targeted attempt from the k-th on gets an answer; the first that does. */
  function FirstAnswer(responds: (nat, nat) -> bool, ip: nat, k: nat): Option<nat>
    decreases MAX_ATTEMPTS + 1 - k
  {
    if k > MAX_ATTEMPTS then None else if responds(ip, k) then Some(k) else FirstAnswer(responds, ip, k + 1)
  }

  function RetryRow(responds: (nat, nat) -> bool, ip: nat): Row {
    var answer := FirstAnswer(responds, ip, 1);
    if answer.Some? then Row(ip, KnownRecovered, answer.value) else Row(ip, KnownUnreachable, MAX_ATTEMPTS)
  }

  function RetryRows(responds: (nat, nat) -> bool, missed: seq<nat>): (rows: seq<Row>)
    ensures |rows| == |missed|
  {
    if missed == [] then []
    else RetryRows(responds, missed[..|missed| - 1]) + [RetryRow(responds, missed[|missed| - 1])]
  }

  /** The known addresses the sweep missed, in the iteration order of knownByIP. */
  method ListMissed(order: seq<nat>, seenAlive: set<nat>) returns (missed: seq<nat>)
    requires Distinct(order)
    ensures forall ip :: ip in missed <==> ip in order && ip !in seenAlive
    ensures Distinct(missed)
  {
    missed := [];
    for k := 0 to |order|
      invariant forall ip :: ip in missed <==> ip in order[..k] && ip !in seenAlive
      invariant forall i, j :: 0 <= i < j < |missed| ==> missed[i] != missed[j]
    {
      assert order[..k + 1] == order[..k] + [order[k]];
      if order[k] !in seenAlive {
        missed := missed + [order[k]];
      }
    }
    assert order[..|order|] == order;
  }

  /** The row names the first of three probes that was answered, or says that none was. */
  ghost predicate RetryTells(responds: (nat, nat) -> bool, row: Row) {
    if exists k :: 1 <= k <= 3 && responds(row.ip, k) then
      && row.disposition == KnownRecovered && 1 <= row.retries <= 3
      && responds(row.ip, row.retries) && forall k :: 1 <= k < row.retries ==> !responds(row.ip, k)
    else
      row.disposition == KnownUnreachable && row.retries == 3
  }

  lemma RetryRowTells(responds: (nat, nat) -> bool, ip: nat)
    ensures RetryTells(responds, RetryRow(responds, ip)) && RetryRow(responds, ip).ip == ip
  {
    assert FirstAnswer(responds, ip, 4) == None;
    assert FirstAnswer(responds, ip, 3) == if responds(ip, 3) then Some(3) else None;
    assert FirstAnswer(responds, ip, 2) == if responds(ip, 2) then Some(2) else FirstAnswer(responds, ip, 3);
    assert FirstAnswer(responds, ip, 1) == if responds(ip, 1) then Some(1) else FirstAnswer(responds, ip, 2);
  }

  /** Up to three targeted probes of one address. */
  method ProbeMissed(responds: (nat, nat) -> bool, ip: nat) returns (row: Row)
    ensures row == RetryRow(responds, ip) && RetryTells(responds, row) && row.ip == ip
  {
    RetryRowTells(responds, ip);
    var attempt := 1;
    while attempt <= MAX_ATTEMPTS
      invariant 1 <= attempt <= MAX_ATTEMPTS + 1
      invariant FirstAnswer(responds, ip, 1) == FirstAnswer(responds, ip, attempt)
      invariant forall k :: 1 <= k < attempt ==> !responds(ip, k)
    {
      if responds(ip, attempt) {
        return Row(ip, KnownRecovered, attempt);
      }
      attempt := attempt + 1;
    }
    row := Row(ip, KnownUnreachable, MAX_ATTEMPTS);
  }

  lemma AppendRow(rows: seq<Row>, row: Row)
    ensures forall ip: nat :: RowsAt(rows + [row], ip) == RowsAt(rows, ip) + if row.ip == ip then 1 else 0
    ensures Found(rows + [row]) == Found(rows) + if row.disposition == KnownUnreachable then 0 else 1
  {
    assert (rows + [row])[..|rows|] == rows;
  }

  /**
    retryMissedKnown: `order` is the iteration order of knownByIP, `responds` the outcome of each
    targeted probe. Every known address not seen alive gets exactly one row, its disposition and
    retry count those of its first answering attempt, or unreachable after the last.
   */
  method RetryMissedKnown(
    known: set<nat>, seenAlive: set<nat>, order: seq<nat>, responds: (nat, nat) -> bool, rows0: seq<Row>
  )
    returns (rows: seq<Row>, recovered: nat, missedCount: nat)
    requires Distinct(order) && (forall ip :: ip in order <==> ip in known)
    ensures forall ip: nat :: RowsAt(rows, ip) == RowsAt(rows0, ip) + if ip in known - seenAlive then 1 else 0
    ensures recovered + missedCount == |known - seenAlive| == |rows| - |rows0|
    ensures Found(rows) == Found(rows0) + recovered
    ensures rows0 <= rows
    ensures forall k :: |rows0| <= k < |rows| ==>
        rows[k].ip in known - seenAlive && rows[k] == RetryRow(responds, rows[k].ip)
  {
    var missed := ListMissed(order, seenAlive);
    rows, recovered, missedCount := rows0, 0, 0;
    for k := 0 to |missed|
      invariant rows == rows0 + RetryRows(responds, missed[..k])
      invariant recovered + missedCount == k && Found(rows) == Found(rows0) + recovered
    {
      assert missed[..k + 1][..k] == missed[..k];
      var row := ProbeMissed(responds, missed[k]);
      AppendRow(rows, row);
      rows := rows + [row];
      if row.disposition == KnownRecovered {
        recovered := recovered + 1;
      } else {
        missedCount := missedCount + 1;
      }
    }
    assert missed[..|missed|] == missed;
    MembersCard(missed);
    assert Members(missed) == known - seenAlive;
    forall ip: nat
      ensures RowsAt(rows, ip) == RowsAt(rows0, ip) + if ip in known - seenAlive then 1 else 0
    {
      RetryRowPerAddress(responds, missed, rows0, ip);
    }
    forall k | |rows0| <= k < |rows|
      ensures rows[k].ip in known - seenAlive && rows[k] == RetryRow(responds, rows[k].ip)
    {
      RetryRowsSpec(responds, missed, k - |rows0|);
      assert missed[k - |rows0|] in missed;
    }
  }

  /** One row per missed address. */
  lemma RetryRowPerAddress(responds: (nat, nat) -> bool, missed: seq<nat>, rows0: seq<Row>, ip: nat)
    requires Distinct(missed)
    ensures RowsAt(rows0 + RetryRows(responds, missed), ip) == RowsAt(rows0, ip) + if ip in missed then 1 else 0
  {
    RetryRowsCount(responds, missed, rows0, ip);
    DistinctCount(missed, ip);
  }

  lemma {:induction false} RetryRowsCount(responds: (nat, nat) -> bool, missed: seq<nat>, rows0: seq<Row>, ip: nat)
    ensures RowsAt(rows0 + RetryRows(responds, missed), ip) == RowsAt(rows0, ip) + multiset(missed)[ip]
  {
    if missed == [] {
      assert rows0 + RetryRows(responds, missed) == rows0;
    } else {
      var init, last := missed[..|missed| - 1], missed[|missed| - 1];
      RetryRowsCount(responds, init, rows0, ip);
      var before, row := rows0 + RetryRows(responds, init), RetryRow(responds, last);
      assert rows0 + RetryRows(responds, missed) == before + [row];
      AppendRow(before, row);
      assert missed == init + [last];
    }
  }

  lemma {:induction false} DistinctCount(ids: seq<nat>, ip: nat)
    requires Distinct(ids)
    ensures multiset(ids)[ip] == if ip in ids then 1 else 0
  {
    if ids != [] {
      var init, last := ids[..|ids| - 1], ids[|ids| - 1];
      DistinctCount(init, ip);
      assert ids == init + [last];
    }
  }

  lemma {:induction false} RetryRowsSpec(responds: (nat, nat) -> bool, missed: seq<nat>, k: nat)
    requires k < |missed|
    ensures RetryRows(responds, missed)[k] == RetryRow(responds, missed[k])
  {
    if k < |missed| - 1 { RetryRowsSpec(responds, missed[..|missed| - 1], k); }
  }

  // ----- The whole scan -----

  /** The known addresses whose visits up to n found them alive. */
  function SeenKnown(c: Scope, n: nat): set<nat>
    requires |c.alive| == |c.hosts| && n <= |c.hosts|
  {
    if n == 0 then {}
    else if c.alive[n - 1] && c.hosts[n - 1] in c.known then SeenKnown(c, n - 1) + {c.hosts[n - 1]}
    else SeenKnown(c, n - 1)
  }

  lemma {:induction false} SeenKnownSpec(c: Scope, n: nat)
    requires |c.alive| == |c.hosts| && n <= |c.hosts|
    ensures forall ip :: ip in SeenKnown(c, n) <==>
        exists i :: 0 <= i < n && c.alive[i] && c.hosts[i] in c.known && c.hosts[i] == ip
  {
    if n > 0 { SeenKnownSpec(c, n - 1); }
  }

  /** Two alive visits to one known address. */
  ghost predicate Repeated(c: Scope, n: nat)
    requires |c.alive| == |c.hosts| && n <= |c.hosts|
  {
    exists i, k :: 0 <= i < k < n && c.alive[i] && c.alive[k] && c.hosts[i] == c.hosts[k] && c.hosts[i] in c.known
  }

  /** The seen counter counts visits, so it exceeds the number of addresses exactly when one is repeated. */
  lemma {:induction false} SeenCountVersusAddresses(c: Scope, n: nat)
    requires |c.alive| == |c.hosts| && n <= |c.hosts|
    ensures |SeenKnown(c, n)| <= CountTrue(KnownAlive(c, n))
    ensures |SeenKnown(c, n)| == CountTrue(KnownAlive(c, n)) <==> !Repeated(c, n)
  {
    if n > 0 {
      SeenCountVersusAddresses(c, n - 1);
      assert KnownAlive(c, n)[..n - 1] == KnownAlive(c, n - 1);
      RepeatedGrows(c, n);
      CardAdd(SeenKnown(c, n - 1), c.hosts[n - 1]);
    }
  }

  lemma CardAdd(ips: set<nat>, ip: nat)
    ensures |ips + {ip}| == |ips| + if ip in ips then 0 else 1
  {
    if ip in ips { assert ips + {ip} == ips; }
  }

  lemma RepeatedGrows(c: Scope, n: nat)
    requires |c.alive| == |c.hosts| && 0 < n <= |c.hosts|
    ensures Repeated(c, n) <==> Repeated(c, n - 1) || (KnownAlive(c, n)[n - 1] && c.hosts[n - 1] in SeenKnown(c, n - 1))
  {
    SeenKnownSpec(c, n - 1);
    if Repeated(c, n - 1) {
      var i, k :| 0 <= i < k < n - 1 && c.alive[i] && c.alive[k] && c.hosts[i] == c.hosts[k] && c.hosts[i] in c.known;
      assert Repeated(c, n);
    }
    if KnownAlive(c, n)[n - 1] && c.hosts[n - 1] in SeenKnown(c, n - 1) {
      var i :| 0 <= i < n - 1 && c.alive[i] && c.hosts[i] in c.known && c.hosts[i] == c.hosts[n - 1];
      assert Repeated(c, n);
    }
  }

  /**
    The whole scan under any interleaving, any map order and any retry outcomes. Every known address
    has at least one row, and exactly one unless the host list visited it alive more than once; the
    found count equals new + seen + recovered; and seen + recovered + missed equals the number of
    known addresses exactly when no known address was visited alive twice.
   */
  method ScanJob(c: Scope, schedule: seq<nat>, order: seq<nat>, responds: (nat, nat) -> bool)
    returns (rows: seq<Row>, newCount: nat, seen: nat, recovered: nat, missed: nat)
    requires ValidScope(c) && Complete(Sweep(c, schedule))
    requires Distinct(order) && (forall ip :: ip in order <==> ip in c.known)
    ensures forall ip :: ip in c.known ==> RowsAt(rows, ip) == if AliveVisits(c, ip) == 0 then 1 else AliveVisits(c, ip)
    ensures forall ip: nat :: ip !in c.known ==> RowsAt(rows, ip) == AliveVisits(c, ip)
    ensures forall k :: 0 <= k < |rows| ==> RowTells(c, responds, rows[k])
    ensures seen == |AliveVisitsTo(c, true)| && newCount == |AliveVisitsTo(c, false)|
    ensures Found(rows) == newCount + seen + recovered && |rows| == Found(rows) + missed
    ensures seen + recovered + missed >= |c.known|
    ensures seen + recovered + missed == |c.known| <==> !Repeated(c, |c.hosts|)
    ensures Distinct(c.hosts) ==>
              seen + recovered + missed == |c.known| && forall ip :: ip in c.known ==> RowsAt(rows, ip) == 1
  {
    var s := Sweep(c, schedule);
    SweepOutcome(c, schedule);
    newCount, seen := s.newCount, s.seenCount;
    rows, recovered, missed := RetryMissedKnown(c.known, s.seenAlive, order, responds, s.rows);
    SeenPlusMissed(c, s.seenAlive);
    forall ip: nat
      ensures AliveVisits(c, ip) == 0 <==> ip !in s.seenAlive
    {
      NoVisits(c, ip);
    }
    forall k | 0 <= k < |rows|
      ensures RowTells(c, responds, rows[k])
    {
      if k >= |s.rows| { RetryRowTells(responds, rows[k].ip); }
    }
    if Distinct(c.hosts) { DistinctHostsOneVisit(c); }
  }

  /** What a result row says about its address. */
  ghost predicate RowTells(c: Scope, responds: (nat, nat) -> bool, row: Row)
    requires |c.alive| == |c.hosts|
  {
    if FoundAlive(c, row.ip) then
      row.retries == 0 && row.disposition == if row.ip in c.known then KnownSeen else NewlyDiscovered
    else
      row.ip in c.known && RetryTells(responds, row)
  }

  /** A host list that names a known address twice: the counter says two where one address was seen. */
  lemma RepeatedHostIsCountedTwice()
    ensures var c, schedule := Scope([5, 5], [true, true], {5}), [0, 0, 1, 1];
            && ValidScope(c) && Complete(Sweep(c, schedule)) && Repeated(c, |c.hosts|)
            && Sweep(c, schedule).seenCount == 2 && Sweep(c, schedule).seenAlive == {5}
  {
    var c := Scope([5, 5], [true, true], {5});
    assert [0, 0, 1, 1][..3] == [0, 0, 1] && [0, 0, 1][..2] == [0, 0] && [0, 0][..1] == [0] && [0][..0] == [];
    var s0 := Start(c);
    var s1 := Advance(c, s0, 0);
    var s2 := Advance(c, s1, 0);
    var s3 := Advance(c, s2, 1);
    assert Sweep(c, []) == s0 && Sweep(c, [0]) == s1 && Sweep(c, [0, 0]) == s2 && Sweep(c, [0, 0, 1]) == s3;
    assert c.alive[0] && c.alive[1] && c.hosts[0] == c.hosts[1];
  }

  /** Known addresses seen and known addresses missed make up all known ones; visits may exceed addresses. */
  lemma SeenPlusMissed(c: Scope, seenAlive: set<nat>)
    requires |c.alive| == |c.hosts|
    requires forall ip :: ip in seenAlive <==> exists i :: 0 <= i < |c.hosts| && c.alive[i] && c.hosts[i] == ip
    ensures var seen := CountTrue(KnownAlive(c, |c.hosts|));
            && seen + |c.known - seenAlive| >= |c.known|
            && (seen + |c.known - seenAlive| == |c.known| <==> !Repeated(c, |c.hosts|))
  {
    SeenCountVersusAddresses(c, |c.hosts|);
    SeenKnownSpec(c, |c.hosts|);
    assert SeenKnown(c, |c.hosts|) == c.known * seenAlive;
    assert c.known == (c.known * seenAlive) + (c.known - seenAlive);
    assert |(c.known * seenAlive) + (c.known - seenAlive)| == |c.known * seenAlive| + |c.known - seenAlive|;
  }

  lemma {:induction false} CountPositive(bs: seq<bool>)
    ensures CountTrue(bs) == 0 <==> forall i :: 0 <= i < |bs| ==> !bs[i]
  {
    if bs != [] {
      CountPositive(bs[..|bs| - 1]);
      assert forall i :: 0 <= i < |bs| - 1 ==> bs[..|bs| - 1][i] == bs[i];
    }
  }

  lemma NoVisits(c: Scope, ip: nat)
    requires |c.alive| == |c.hosts|
    ensures AliveVisits(c, ip) == 0 <==> !exists i :: 0 <= i < |c.hosts| && c.alive[i] && c.hosts[i] == ip
  {
    CountPositive(AliveAt(c, ip));
    if i :| 0 <= i < |c.hosts| && c.alive[i] && c.hosts[i] == ip { assert AliveAt(c, ip)[i]; }
  }

  /** A host list that names no address twice visits each at most once, so nothing is repeated. */
  lemma DistinctHostsOneVisit(c: Scope)
    requires |c.alive| == |c.hosts| && Distinct(c.hosts)
    ensures forall ip: nat :: AliveVisits(c, ip) <= 1
    ensures !Repeated(c, |c.hosts|)
  {
    forall ip: nat ensures AliveVisits(c, ip) <= 1 {
      OneVisitUpTo(c, ip, |c.hosts|);
      assert AliveAt(c, ip)[..|c.hosts|] == AliveAt(c, ip);
    }
  }

  lemma {:induction false} OneVisitUpTo(c: Scope, ip: nat, n: nat)
    requires |c.alive| == |c.hosts| && n <= |c.hosts| && Distinct(c.hosts)
    ensures CountTrue(AliveAt(c, ip)[..n]) <= 1
    ensures CountTrue(AliveAt(c, ip)[..n]) == 1 ==> exists i :: 0 <= i < n && c.hosts[i] == ip
  {
    if n > 0 {
      OneVisitUpTo(c, ip, n - 1);
      assert AliveAt(c, ip)[..n][..n - 1] == AliveAt(c, ip)[..n - 1];
    }
  }
}
