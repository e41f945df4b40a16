/**
  One fleet-wide CCTV collection: workers publish a new summary record for each device by copying the
  current one, and readers load whichever record is current.
 */
module Fleet {
  import opened Domain

  datatype Cat = NvrCat | DvrCat | CameraCat | OtherCat(code: nat)

  datatype ItemStatus = Collected | NotCollected | Skipped

  datatype Item = Item(device: nat, was: Cat, now: Cat, status: ItemStatus, channels: nat, storage: nat)

  /** The last credential test of a device, as far as the skip guard reads it. */
  datatype WebTest = WebTest(authFailed: bool, success: bool, at: int)

  datatype NvrInfo = NvrInfo(channels: nat, storage: nat)

  /** What collecting yields: the classification evidence of a success, or a failure. */
  datatype Outcome = Success(evidence: seq<Cat>) | Failure

  /** A device of the run, with what its worker will meet. */
  datatype Target = Target(id: nat, category: Cat, lastTest: Option<WebTest>, startedAt: int,
                           outcome: Outcome, info: Option<NvrInfo>)

  const AUTH_SKIP_WINDOW: int := 6 * 3600

  predicate ShouldSkip(t: WebTest, now: int) { t.authFailed && !t.success && now - t.at < AUTH_SKIP_WINDOW }

  predicate IsRecorder(c: Cat) { c == NvrCat || c == DvrCat }

  /** recorderCategory: the first recorder signal wins, else the device is a camera. */
  function RecorderCategory(evs: seq<Cat>): (c: Cat)
    ensures IsRecorder(c) || c == CameraCat
    ensures c == CameraCat <==> forall i :: 0 <= i < |evs| ==> !IsRecorder(evs[i])
    ensures c != CameraCat ==>
              exists i :: 0 <= i < |evs| && evs[i] == c && forall k :: 0 <= k < i ==> !IsRecorder(evs[k])
  {
    if evs == [] then CameraCat
    else if IsRecorder(evs[0]) then evs[0]
    else
      var c := RecorderCategory(evs[1..]);
      assert c != CameraCat ==>
          exists i :: 0 <= i < |evs| && evs[i] == c && forall k :: 0 <= k < i ==> !IsRecorder(evs[k]) by {
        if i :| 0 <= i < |evs[1..]| && evs[1..][i] == c && forall k :: 0 <= k < i ==> !IsRecorder(evs[1..][k]) {
          assert evs[i + 1] == c;
          assert forall k :: 0 < k < i + 1 ==> evs[k] == evs[1..][k - 1];
        }
      }
      c
  }

  /** The row a worker publishes for its device. */
  function ItemOf(t: Target): Item {
    if t.lastTest.Some? && ShouldSkip(t.lastTest.value, t.startedAt)
    then Item(t.id, t.category, t.category, Skipped, 0, 0)
    else if t.outcome.Failure? then Item(t.id, t.category, t.category, NotCollected, 0, 0)
    else
      var c := RecorderCategory(t.outcome.evidence);
      var found := IsRecorder(c) && t.info.Some?;
      var info := if found then t.info.value else NvrInfo(0, 0);
      Item(t.id, t.category, c, Collected, info.channels, info.storage)
  }

  // ----- Counters -----

  datatype Counters = Counters(collected: nat, failed: nat, skipped: nat,
                               nvrs: nat, dvrs: nat, cameras: nat, channels: nat)

  const ZERO := Counters(0, 0, 0, 0, 0, 0, 0)

  function One(b: bool): nat { if b then 1 else 0 }

  function Plus(x: Counters, y: Counters): Counters {
    Counters(x.collected + y.collected, x.failed + y.failed, x.skipped + y.skipped,
             x.nvrs + y.nvrs, x.dvrs + y.dvrs, x.cameras + y.cameras, x.channels + y.channels)
  }

  /** What one row is worth. */
  function Worth(it: Item): Counters {
    var got := it.status == Collected;
    Counters(One(got), One(it.status == NotCollected), One(it.status == Skipped),
             One(got && it.now == NvrCat), One(got && it.now == DvrCat), One(got && it.now == CameraCat),
             if got then it.channels else 0)
  }

  /** What a list of rows is worth: the independent reading of the counters. */
  function Sum(items: seq<Item>): Counters {
    if items == [] then ZERO else Plus(Sum(items[..|items| - 1]), Worth(items[|items| - 1]))
  }

  /** A collected row carries one of the three categories. */
  predicate WellFormed(it: Item) { it.status == Collected ==> IsRecorder(it.now) || it.now == CameraCat }

  /** Each row counts once, and each collected row once by category. */
  lemma {:induction false} SumLaws(items: seq<Item>)
    requires forall i :: 0 <= i < |items| ==> WellFormed(items[i])
    ensures var c := Sum(items);
            && c.collected + c.failed + c.skipped == |items|
            && c.nvrs + c.dvrs + c.cameras == c.collected
  {
    if items != [] {
      SumLaws(items[..|items| - 1]);
      assert WellFormed(items[|items| - 1]);
    }
  }

  lemma PlusSwaps(x: Counters, y: Counters, z: Counters)
    ensures Plus(Plus(x, y), z) == Plus(Plus(x, z), y)
  {
  }

  /** A row is worth the same wherever it stands. */
  lemma {:induction false} SumInsert(before: seq<Item>, it: Item, after: seq<Item>)
    ensures Sum(before + [it] + after) == Plus(Sum(before + after), Worth(it))
  {
    if after == [] {
      SumSnoc(before, it);
      assert before + [it] + after == before + [it] && before + after == before;
    } else {
      var init, last := after[..|after| - 1], after[|after| - 1];
      var x, y := before + [it] + init, before + init;
      SumInsert(before, it, init);
      SumSnoc(x, last);
      SumSnoc(y, last);
      PlusSwaps(Sum(y), Worth(it), Worth(last));
      assert before + [it] + after == x + [last] && before + after == y + [last];
    }
  }

  lemma SumSnoc(items: seq<Item>, it: Item)
    ensures Sum(items + [it]) == Plus(Sum(items), Worth(it))
  {
    assert (items + [it])[..|items|] == items;
  }

  /** The last row of one list, found and removed in the other. */
  lemma DropFromBoth(x: seq<Item>, y: seq<Item>) returns (i: nat)
    requires multiset(x) == multiset(y) && x != []
    ensures i < |y| && y[i] == x[|x| - 1]
    ensures multiset(x[..|x| - 1]) == multiset(y[..i] + y[i + 1..])
  {
    var n := |x| - 1;
    assert x == x[..n] + [x[n]];
    assert x[n] in multiset(y);
    i :| 0 <= i < |y| && y[i] == x[n];
    assert y == y[..i] + [y[i]] + y[i + 1..];
    assert multiset(x[..n]) == multiset(x) - multiset{x[n]};
    assert multiset(y[..i] + y[i + 1..]) == multiset(y) - multiset{x[n]};
  }

  /** The counters do not depend on the order of the rows. */
  lemma {:induction false} SumIgnoresOrder(x: seq<Item>, y: seq<Item>)
    requires multiset(x) == multiset(y)
    ensures Sum(x) == Sum(y)
  {
    if x == [] {
      assert |multiset(y)| == 0;
    } else {
      var i := DropFromBoth(x, y);
      SumIgnoresOrder(x[..|x| - 1], y[..i] + y[i + 1..]);
      SumInsert(y[..i], y[i], y[i + 1..]);
      assert y == y[..i] + [y[i]] + y[i + 1..];
    }
  }

  // ----- What the counters count -----

  ghost function WithStatus(items: seq<Item>, status: ItemStatus): set<nat> {
    set i: nat | i < |items| && items[i].status == status
  }

  predicate IsCollectedAs(it: Item, c: Cat) { it.status == Collected && it.now == c }

  ghost function CollectedAs(items: seq<Item>, c: Cat): set<nat> {
    set i: nat | i < |items| && IsCollectedAs(items[i], c)
  }

  function ChannelTotal(items: seq<Item>): nat {
    if items == [] then 0
    else
      var it := items[|items| - 1];
      ChannelTotal(items[..|items| - 1]) + if it.status == Collected then it.channels else 0
  }

  lemma WithStatusSnoc(items: seq<Item>, status: ItemStatus)
    requires items != []
    ensures |WithStatus(items, status)| ==
            |WithStatus(items[..|items| - 1], status)| + if items[|items| - 1].status == status then 1 else 0
  {
    var n: nat := |items| - 1;
    var before := WithStatus(items[..n], status);
    assert WithStatus(items, status) == if items[n].status == status then before + {n} else before;
  }

  lemma CollectedAsSnoc(items: seq<Item>, c: Cat)
    requires items != []
    ensures |CollectedAs(items, c)| ==
            |CollectedAs(items[..|items| - 1], c)| + if IsCollectedAs(items[|items| - 1], c) then 1 else 0
  {
    var n: nat, init := |items| - 1, items[..|items| - 1];
    var before, all := CollectedAs(init, c), CollectedAs(items, c);
    assert forall i: nat :: i < n ==> init[i] == items[i];
    if IsCollectedAs(items[n], c) { assert all == before + {n}; } else { assert all == before; }
  }

  /** Each counter is the number of rows it names, and the channels are those of the collected rows. */
  lemma {:induction false} SumMeans(items: seq<Item>)
    ensures var c := Sum(items);
            && c.collected == |WithStatus(items, Collected)| && c.failed == |WithStatus(items, NotCollected)|
            && c.skipped == |WithStatus(items, Skipped)|
            && c.nvrs == |CollectedAs(items, NvrCat)| && c.dvrs == |CollectedAs(items, DvrCat)|
            && c.cameras == |CollectedAs(items, CameraCat)|
            && c.channels == ChannelTotal(items)
  {
    if items == [] {
      assert forall status :: WithStatus(items, status) == {};
      assert forall c :: CollectedAs(items, c) == {};
    } else {
      SumMeans(items[..|items| - 1]);
      WithStatusSnoc(items, Collected);
      WithStatusSnoc(items, NotCollected);
      WithStatusSnoc(items, Skipped);
      CollectedAsSnoc(items, NvrCat);
      CollectedAsSnoc(items, DvrCat);
      CollectedAsSnoc(items, CameraCat);
    }
  }

  /**
    A device is skipped exactly if its last test was an authentication failure less than six hours ago;
    otherwise its row is collected exactly if collecting worked, under the category its evidence names,
    and only recorders bring channels and disks.
   */
  lemma ItemTells(t: Target)
    ensures var it := ItemOf(t);
            && it.device == t.id && it.was == t.category && WellFormed(it)
            && (it.status == Skipped <==>
                  t.lastTest.Some? && t.lastTest.value.authFailed && !t.lastTest.value.success
                  && t.startedAt - t.lastTest.value.at < 21600)
            && (it.status == Collected <==> it.status != Skipped && t.outcome.Success?)
            && (it.status == Collected ==> it.now == RecorderCategory(t.outcome.evidence))
            && (it.status != Collected ==> it.now == t.category)
            && (it.status == Collected && it.now in {NvrCat, DvrCat} && t.info.Some? ==>
                  it.channels == t.info.value.channels && it.storage == t.info.value.storage)
            && (it.status != Collected || it.now == CameraCat || t.info.None? ==> it.channels == 0 && it.storage == 0)
  {
  }

  // ----- Snapshots as values -----

  datatype Snapshot = Snapshot(running: bool, total: nat, done: nat, counters: Counters, items: seq<Item>)

  /** What every record a reader can load satisfies. */
  ghost predicate Consistent(s: Snapshot) {
    && s.done == |s.items| <= s.total
    && s.counters == Sum(s.items)
    && s.done == s.counters.collected + s.counters.failed + s.counters.skipped
    && s.counters.collected == s.counters.nvrs + s.counters.dvrs + s.counters.cameras
    && (forall i :: 0 <= i < |s.items| ==> WellFormed(s.items[i]))
    && (!s.running ==> s.done == s.total)
  }

  /** The summary with one more row. */
  function AddItem(s: Snapshot, it: Item): Snapshot {
    s.(done := s.done + 1, counters := Plus(s.counters, Worth(it)), items := s.items + [it])
  }

  lemma AddItemConsistent(s: Snapshot, it: Item)
    requires Consistent(s) && s.running && WellFormed(it) && s.done < s.total
    ensures Consistent(AddItem(s, it))
  {
    var t := AddItem(s, it);
    assert t.items[..|t.items| - 1] == s.items;
    SumLaws(t.items);
  }

  // ----- The rows of a run, in whatever order the workers finish -----

  function ItemsOf(ts: seq<Target>): (items: seq<Item>)
    ensures |items| == |ts|
  {
    seq(|ts|, i requires 0 <= i < |ts| => ItemOf(ts[i]))
  }

  /** The rows of the finished workers among the first n devices. */
  ghost function Rows(items: seq<Item>, n: nat, finished: set<nat>): multiset<Item>
    requires n <= |items|
  {
    if n == 0 then multiset{}
    else if n - 1 in finished then Rows(items, n - 1, finished) + multiset{items[n - 1]}
    else Rows(items, n - 1, finished)
  }

  lemma {:induction false} RowsGrow(items: seq<Item>, n: nat, finished: set<nat>, w: nat)
    requires n <= |items| && w < |items| && w !in finished
    ensures Rows(items, n, finished + {w}) ==
            if w < n then Rows(items, n, finished) + multiset{items[w]} else Rows(items, n, finished)
  {
    if n > 0 {
      RowsGrow(items, n - 1, finished, w);
      var rows := Rows(items, n - 1, finished);
      assert rows + multiset{items[w]} + multiset{items[n - 1]} == rows + multiset{items[n - 1]} + multiset{items[w]};
    }
  }

  lemma {:induction false} RowsAll(items: seq<Item>, n: nat, finished: set<nat>)
    requires n <= |items| && forall i: nat :: i < n ==> i in finished
    ensures Rows(items, n, finished) == multiset(items[..n])
  {
    if n > 0 {
      RowsAll(items, n - 1, finished);
      assert items[..n] == items[..n - 1] + [items[n - 1]];
    }
  }

  lemma {:induction false} RowsNone(items: seq<Item>, n: nat)
    requires n <= |items|
    ensures Rows(items, n, {}) == multiset{}
  {
    if n > 0 { RowsNone(items, n - 1); }
  }

  // ----- Records on the heap -----

  class Record {
    var running: bool
    var total: nat
    var done: nat
    var counters: Counters
    var items: array<Item>

    constructor (s: Snapshot)
      ensures View() == s && fresh(items)
    {
      running, total, done, counters := s.running, s.total, s.done, s.counters;
      items := new Item[|s.items|](i requires 0 <= i < |s.items| => s.items[i]);
      new;
      assert items[..] == s.items;
    }

    function View(): Snapshot
      reads this, items
    {
      Snapshot(running, total, done, counters, items[..])
    }

    method Append(it: Item)
      modifies this`items
      ensures fresh(items) && items[..] == old(items[..]) + [it]
    {
      var was := items[..] + [it];
      items := new Item[|was|](i requires 0 <= i < |was| => was[i]);
      assert items[..] == was;
    }
  }

  /** The copy a worker changes: one more row, and the counters its status calls for. */
  method WithItem(cur: Record, it: Item) returns (cp: Record)
    ensures fresh(cp) && fresh(cp.items) && cp.View() == AddItem(cur.View(), it)
  {
    cp := new Record(cur.View());
    cp.Append(it);
    cp.done := cp.done + 1;
    var c := cp.counters;
    if it.status == Skipped {
      c := c.(skipped := c.skipped + 1);
    } else if it.status == Collected {
      c := c.(collected := c.collected + 1, channels := c.channels + it.channels);
      match it.now
      case NvrCat => c := c.(nvrs := c.nvrs + 1);
      case DvrCat => c := c.(dvrs := c.dvrs + 1);
      case CameraCat => c := c.(cameras := c.cameras + 1);
      case OtherCat(_) =>
    } else {
      c := c.(failed := c.failed + 1);
    }
    cp.counters := c;
  }

  method Stopped(cur: Record) returns (cp: Record)
    ensures fresh(cp) && fresh(cp.items) && cp.View() == cur.View().(running := false)
  {
    cp := new Record(cur.View());
    cp.running := false;
  }

  /**
    The summaries of a run, oldest first: all consistent, all but the last of a running collection,
    each with the rows of the one before plus at most one.
   */
  ghost predicate History(log: seq<Snapshot>) {
    && log != []
    && (forall k :: 0 <= k < |log| ==> Consistent(log[k]))
    && (forall k :: 0 <= k < |log| - 1 ==> log[k].running && log[k].done == k)
    && (forall k :: 0 <= k < |log| - 1 ==> log[k].items <= log[k + 1].items)
    && |log| == Last(log).done + if Last(log).running then 1 else 2
  }

  function Last(log: seq<Snapshot>): Snapshot
    requires log != []
  {
    log[|log| - 1]
  }

  lemma HistoryGrows(log: seq<Snapshot>, s: Snapshot)
    requires History(log) && Last(log).running && Consistent(s) && Last(log).items <= s.items
    requires s.done == Last(log).done + if s.running then 1 else 0
    ensures History(log + [s])
  {
    var all := log + [s];
    assert forall k :: 0 <= k < |log| ==> all[k] == log[k];
    assert Last(all) == s && all[|log| - 1] == Last(log);
  }

  lemma HistoryAdds(log: seq<Snapshot>, it: Item)
    requires History(log) && Last(log).running && WellFormed(it) && Last(log).done < Last(log).total
    ensures History(log + [AddItem(Last(log), it)])
  {
    AddItemConsistent(Last(log), it);
    HistoryGrows(log, AddItem(Last(log), it));
  }

  lemma HistoryEnds(log: seq<Snapshot>)
    requires History(log) && Last(log).running && Last(log).done == Last(log).total
    ensures History(log + [Last(log).(running := false)])
  {
    HistoryGrows(log, Last(log).(running := false));
  }

  /** In mid-run: the summary holds the rows of the finished workers, and the others are still to come. */
  ghost predicate Midway(ts: seq<Target>, s: Snapshot, pending: set<nat>, finished: set<nat>) {
    && s.running && s.total == |ts| && s.done + |pending| == |ts|
    && (forall i: nat :: i < |ts| ==> (i in pending <==> i !in finished))
    && (forall i: nat :: i in pending ==> i < |ts|)
    && multiset(s.items) == Rows(ItemsOf(ts), |ts|, finished)
  }

  /** Any pending worker may be the next to finish. */
  lemma MidwayStep(ts: seq<Target>, s: Snapshot, pending: set<nat>, finished: set<nat>, w: nat)
    requires Midway(ts, s, pending, finished) && w in pending
    ensures WellFormed(ItemOf(ts[w])) && s.done < s.total
    ensures Midway(ts, AddItem(s, ItemOf(ts[w])), pending - {w}, finished + {w})
  {
    RowsGrow(ItemsOf(ts), |ts|, finished, w);
    assert |pending - {w}| == |pending| - 1;
  }

  lemma MidwayEnds(ts: seq<Target>, s: Snapshot, finished: set<nat>)
    requires Midway(ts, s, {}, finished) && Consistent(s)
    ensures s.done == s.total == |ts| && multiset(s.items) == multiset(ItemsOf(ts)) && s.counters == Sum(ItemsOf(ts))
  {
    RowsAll(ItemsOf(ts), |ts|, finished);
    assert ItemsOf(ts)[..|ts|] == ItemsOf(ts);
    SumIgnoresOrder(s.items, ItemsOf(ts));
  }

  /** One worker per device. */
  method Workers(n: nat) returns (pending: set<nat>)
    ensures |pending| == n && forall i: nat :: i in pending <==> i < n
  {
    pending := {};
    for d := 0 to n
      invariant |pending| == d && forall i: nat :: i in pending <==> i < d
    {
      pending := pending + {d};
    }
  }

  class FleetRun {
    /** What a reader loads. */
    var current: Record
    /** Every record stored so far, oldest first, and what it said when it was stored. */
    ghost var stored: seq<Record>
    ghost var log: seq<Snapshot>

    /** Every record ever stored still says what it said, and together they form a proper history. */
    ghost predicate Valid()
      reads this, stored, set r | r in stored :: r.items
    {
      && History(log) && |stored| == |log| && current == stored[|stored| - 1]
      && (forall k :: 0 <= k < |stored| ==> stored[k].View() == log[k])
    }

    /** The start handler stores an empty running summary. */
    constructor (total: nat)
      ensures Valid() && fresh(current) && fresh(current.items)
      ensures log == [Snapshot(true, total, 0, ZERO, [])]
    {
      current := new Record(Snapshot(true, total, 0, ZERO, []));
      stored, log := [current], [Snapshot(true, total, 0, ZERO, [])];
    }

    /** Making a record current: the history gains it, older records are not touched. */
    method Store(cp: Record)
      requires Valid() && History(log + [cp.View()])
      modifies this
      ensures Valid() && stored == old(stored) + [cp] && log == old(log) + [cp.View()] && current == cp
    {
      ghost var s := cp.View();
      current := cp;
      stored, log := stored + [cp], log + [s];
    }

    /** A worker's update for its row: copy the current record, change the copy, store it. */
    method Publish(it: Item)
      requires Valid() && WellFormed(it) && Last(log).running && Last(log).done < Last(log).total
      modifies this
      ensures Valid() && fresh(current) && fresh(current.items)
      ensures stored == old(stored) + [current] && log == old(log) + [AddItem(Last(old(log)), it)]
    {
      HistoryAdds(log, it);
      var cp := WithItem(current, it);
      assert cp.View() == AddItem(Last(log), it);
      Store(cp);
    }

    /** The last update: the same rows and counters, no longer running. */
    method Finish()
      requires Valid() && Last(log).running && Last(log).done == Last(log).total
      modifies this
      ensures Valid() && fresh(current) && fresh(current.items)
      ensures stored == old(stored) + [current] && log == old(log) + [Last(old(log)).(running := false)]
    {
      HistoryEnds(log);
      var cp := Stopped(current);
      assert cp.View() == Last(log).(running := false);
      Store(cp);
    }

    /**
      runCCTVFleet: the workers' updates happen one at a time in any order. Every stored record is
      consistent, no earlier record ever changes, and the last holds one row per device, with the
      same counters for every order.
     */
    method RunFleet(ts: seq<Target>)
      requires Valid() && log == [Snapshot(true, |ts|, 0, ZERO, [])]
      modifies this
      ensures Valid() && old(stored) <= stored && old(log) <= log && |log| == |ts| + 2
      ensures var last := current.View();
              && !last.running && last.done == last.total == |ts|
              && multiset(last.items) == multiset(ItemsOf(ts))
              && last.counters == Sum(ItemsOf(ts))
    {
      var pending := Workers(|ts|);
      ghost var finished: set<nat> := {};
      RowsNone(ItemsOf(ts), |ts|);
      while pending != {}
        invariant Valid() && old(stored) <= stored && old(log) <= log
        invariant Midway(ts, Last(log), pending, finished)
        decreases |pending|
      {
        var w :| w in pending;
        MidwayStep(ts, Last(log), pending, finished, w);
        Publish(ItemOf(ts[w]));
        pending, finished := pending - {w}, finished + {w};
      }
      MidwayEnds(ts, Last(log), finished);
      Finish();
      assert current.View() == Last(log);
    }
  }
}
