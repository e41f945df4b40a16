/**
  The access map: raw (device, protocol, source) signals merged into what each device is bound to
  and what it is proven manageable by.
 */
module AccessMap {
  import opened Domain

  datatype Source = BoundCredential | Evidence | TestResult

  datatype Signal = Signal(device: nat, protocol: Protocol, source: Source)

  /** How a protocol was proven. */
  datatype Proof = ByEvidence | ByTest | Mixed

  datatype Access = Access(protocols: map<Protocol, Source>, proven: set<Protocol>, provenSrc: map<Protocol, Proof>)

  const NO_ACCESS := Access(map[], {}, map[])

  /** A web login that merely answers 2xx proves a page, not management. */
  predicate Proves(r: Signal) {
    r.source == Evidence || (r.source == TestResult && !IsWeb(r.protocol))
  }

  function ProofOf(source: Source): Proof { if source == Evidence then ByEvidence else ByTest }

  function MergeRow(da: Access, r: Signal): Access {
    var p := r.protocol;
    var shown := if p !in da.protocols || (da.protocols[p] != BoundCredential && r.source == BoundCredential)
                 then da.protocols[p := r.source] else da.protocols;
    if !Proves(r) then da.(protocols := shown)
    else
      var how := if p !in da.provenSrc || da.provenSrc[p] == ProofOf(r.source) then ProofOf(r.source) else Mixed;
      Access(shown, da.proven + {p}, da.provenSrc[p := how])
  }

  function AccessOf(m: map<nat, Access>, d: nat): Access { if d in m then m[d] else NO_ACCESS }

  function Merged(rows: seq<Signal>): map<nat, Access> {
    if rows == [] then map[]
    else
      var m := Merged(rows[..|rows| - 1]);
      var r := rows[|rows| - 1];
      m[r.device := MergeRow(AccessOf(m, r.device), r)]
  }

  /** buildAccessMap, row by row. */
  method BuildAccessMap(rows: seq<Signal>) returns (m: map<nat, Access>)
    ensures m == Merged(rows)
  {
    m := map[];
    for k := 0 to |rows|
      invariant m == Merged(rows[..k])
    {
      var r := rows[k];
      assert rows[..k + 1][..k] == rows[..k];
      var da := if r.device in m then m[r.device] else NO_ACCESS;
      if r.protocol !in da.protocols || (da.protocols[r.protocol] != BoundCredential && r.source == BoundCredential) {
        da := da.(protocols := da.protocols[r.protocol := r.source]);
      }
      if r.source == Evidence || r.source == TestResult {
        var authOnlyHttp := IsWeb(r.protocol) && r.source == TestResult;
        if !authOnlyHttp {
          da := da.(proven := da.proven + {r.protocol});
          if r.protocol !in da.provenSrc || da.provenSrc[r.protocol] == ProofOf(r.source) {
            da := da.(provenSrc := da.provenSrc[r.protocol := ProofOf(r.source)]);
          } else {
            da := da.(provenSrc := da.provenSrc[r.protocol := Mixed]);
          }
        }
      }
      m := m[r.device := da];
    }
    assert rows[..|rows|] == rows;
  }

  ghost predicate HasEvidence(rows: seq<Signal>, d: nat, p: Protocol) { Signal(d, p, Evidence) in rows }

  /** A passing credential test that is more than a web login. */
  ghost predicate PassedTest(rows: seq<Signal>, d: nat, p: Protocol) {
    Signal(d, p, TestResult) in rows && p != HttpBasic && p != Http
  }

  /** The label the report shows for a proof, as a statement about the rows. */
  ghost function Label(rows: seq<Signal>, d: nat, p: Protocol): Proof {
    if !PassedTest(rows, d, p) then ByEvidence else if HasEvidence(rows, d, p) then Mixed else ByTest
  }

  /** The first row of a device and protocol. */
  function FirstSource(rows: seq<Signal>, d: nat, p: Protocol): Option<Source> {
    if rows == [] then None
    else
      var first := FirstSource(rows[..|rows| - 1], d, p);
      var r := rows[|rows| - 1];
      if first.None? && r.device == d && r.protocol == p then Some(r.source) else first
  }

  lemma InSplit(rows: seq<Signal>, r: Signal)
    requires rows != []
    ensures r in rows <==> r in rows[..|rows| - 1] || r == rows[|rows| - 1]
  {
    assert rows == rows[..|rows| - 1] + [rows[|rows| - 1]];
  }

  /**
    What the merged map means: a protocol is proven exactly by an evidence row or a non-web test
    row; its label says which; a bound credential is shown exactly when some row is bound, and
    otherwise the first row's source is.
   */
  lemma {:induction false} MergedSpec(rows: seq<Signal>, d: nat, p: Protocol)
    ensures var da := AccessOf(Merged(rows), d);
            && (p in da.proven <==> HasEvidence(rows, d, p) || PassedTest(rows, d, p))
            && (p in da.provenSrc <==> p in da.proven)
            && (p in da.proven ==> da.provenSrc[p] == Label(rows, d, p))
            && (p in da.protocols <==> FirstSource(rows, d, p).Some?)
            && (FirstSource(rows, d, p).None? <==> forall source :: Signal(d, p, source) !in rows)
            && (p in da.protocols ==> (da.protocols[p] == BoundCredential <==> Signal(d, p, BoundCredential) in rows))
            && (p in da.protocols && Signal(d, p, BoundCredential) !in rows ==>
              da.protocols[p] == FirstSource(rows, d, p).value)
  {
    if rows != [] {
      var r := rows[|rows| - 1];
      MergedSpec(rows[..|rows| - 1], d, p);
      forall source: Source
        ensures Signal(d, p, source) in rows <==>
            Signal(d, p, source) in rows[..|rows| - 1] || Signal(d, p, source) == r
      {
        InSplit(rows, Signal(d, p, source));
      }
      var before, after := AccessOf(Merged(rows[..|rows| - 1]), d), AccessOf(Merged(rows), d);
      if r.device == d && r.protocol == p {
        assert after == MergeRow(before, r);
      } else if r.device == d {
        assert after == MergeRow(before, r);
        assert p in after.proven <==> p in before.proven;
      } else {
        assert after == before;
      }
    }
  }

  /** Row order never matters for proofs, their labels, or whether a binding is shown; nor do repeats. */
  lemma ProofsIgnoreOrder(xs: seq<Signal>, ys: seq<Signal>, d: nat)
    requires forall r :: r in xs <==> r in ys
    ensures var x, y := AccessOf(Merged(xs), d), AccessOf(Merged(ys), d);
            && x.proven == y.proven && x.provenSrc == y.provenSrc && x.protocols.Keys == y.protocols.Keys
            && forall p :: p in x.protocols ==>
              (x.protocols[p] == BoundCredential <==> y.protocols[p] == BoundCredential)
  {
    forall p: Protocol
      ensures p in AccessOf(Merged(xs), d).proven <==> p in AccessOf(Merged(ys), d).proven
      ensures p in AccessOf(Merged(xs), d).provenSrc <==> p in AccessOf(Merged(ys), d).provenSrc
      ensures p in AccessOf(Merged(xs), d).provenSrc ==>
          AccessOf(Merged(xs), d).provenSrc[p] == AccessOf(Merged(ys), d).provenSrc[p]
      ensures p in AccessOf(Merged(xs), d).protocols <==> p in AccessOf(Merged(ys), d).protocols
      ensures p in AccessOf(Merged(xs), d).protocols ==>
                (AccessOf(Merged(xs), d).protocols[p] == BoundCredential <==>
                  AccessOf(Merged(ys), d).protocols[p] == BoundCredential)
    {
      MergedSpec(xs, d, p);
      MergedSpec(ys, d, p);
    }
  }

  /** The displayed source of an unbound protocol does depend on order: the first row wins. */
  lemma DisplayDependsOnOrder(d: nat)
    ensures AccessOf(Merged([Signal(d, Ssh, Evidence), Signal(d, Ssh, TestResult)]), d).protocols[Ssh]
         != AccessOf(Merged([Signal(d, Ssh, TestResult), Signal(d, Ssh, Evidence)]), d).protocols[Ssh]
  {
    var e, t := Signal(d, Ssh, Evidence), Signal(d, Ssh, TestResult);
    assert [e, t][..1] == [e] && [t, e][..1] == [t] && [e][..0] == [] && [t][..0] == [];
    assert FirstSource([], d, Ssh) == None;
    assert FirstSource([e], d, Ssh) == Some(Evidence);
    assert FirstSource([t], d, Ssh) == Some(TestResult);
    MergedSpec([e, t], d, Ssh);
    MergedSpec([t, e], d, Ssh);
  }

  /** What the report displays for a protocol, if anything. */
  function Display(rows: seq<Signal>, d: nat, p: Protocol): Option<Source> {
    var shown := AccessOf(Merged(rows), d).protocols;
    if p in shown then Some(shown[p]) else None
  }

  /** Two orders of the same rows display different sources. */
  ghost predicate OrderMatters(rows: seq<Signal>, d: nat, p: Protocol) {
    exists xs: seq<Signal>, ys: seq<Signal> ::
      multiset(xs) == multiset(rows) && multiset(ys) == multiset(rows) && Display(xs, d, p) != Display(ys, d, p)
  }

  /** The display depends on row order exactly when the protocol is unbound and has rows of both other sources. */
  lemma OrderMattersExactly(rows: seq<Signal>, d: nat, p: Protocol)
    ensures OrderMatters(rows, d, p) <==>
            Signal(d, p, BoundCredential) !in rows && Signal(d, p, Evidence) in rows && Signal(d, p, TestResult) in rows
  {
    if OrderMatters(rows, d, p) {
      var xs, ys :| multiset(xs) == multiset(rows) && multiset(ys) == multiset(rows)
        && Display(xs, d, p) != Display(ys, d, p);
      SameRows(xs, rows);
      SameRows(ys, rows);
      MergedSpec(xs, d, p);
      MergedSpec(ys, d, p);
      FirstSourceIsARow(xs, d, p);
      FirstSourceIsARow(ys, d, p);
    }
    if Signal(d, p, BoundCredential) !in rows && Signal(d, p, Evidence) in rows && Signal(d, p, TestResult) in rows {
      var xs := MovedToFront(rows, Signal(d, p, Evidence));
      var ys := MovedToFront(rows, Signal(d, p, TestResult));
      SameRows(xs, rows);
      SameRows(ys, rows);
      FrontIsFirst(xs, d, p);
      FrontIsFirst(ys, d, p);
      DisplayIsFirst(xs, d, p);
      DisplayIsFirst(ys, d, p);
      assert Display(xs, d, p) == Some(Evidence) && Display(ys, d, p) == Some(TestResult);
    }
  }

  lemma DisplayIsFirst(rows: seq<Signal>, d: nat, p: Protocol)
    requires Signal(d, p, BoundCredential) !in rows
    ensures Display(rows, d, p) == FirstSource(rows, d, p)
  {
    MergedSpec(rows, d, p);
  }

  lemma SameRows(xs: seq<Signal>, ys: seq<Signal>)
    requires multiset(xs) == multiset(ys)
    ensures forall r :: r in xs <==> r in ys
  {
    forall r ensures r in xs <==> r in ys {
      assert r in multiset(xs) <==> r in multiset(ys);
    }
  }

  lemma MovedToFront(rows: seq<Signal>, r: Signal) returns (out: seq<Signal>)
    requires r in rows
    ensures multiset(out) == multiset(rows) && out != [] && out[0] == r
  {
    var i :| 0 <= i < |rows| && rows[i] == r;
    out := [r] + rows[..i] + rows[i + 1..];
    assert rows == rows[..i] + [r] + rows[i + 1..];
  }

  lemma {:induction false} FrontIsFirst(rows: seq<Signal>, d: nat, p: Protocol)
    requires rows != [] && rows[0].device == d && rows[0].protocol == p
    ensures FirstSource(rows, d, p) == Some(rows[0].source)
  {
    if |rows| > 1 {
      FrontIsFirst(rows[..|rows| - 1], d, p);
    } else {
      assert rows[..0] == [];
    }
  }

  lemma {:induction false} FirstSourceIsARow(rows: seq<Signal>, d: nat, p: Protocol)
    ensures FirstSource(rows, d, p).Some? ==> Signal(d, p, FirstSource(rows, d, p).value) in rows
  {
    if rows != [] {
      FirstSourceIsARow(rows[..|rows| - 1], d, p);
      if FirstSource(rows, d, p).Some? { InSplit(rows, Signal(d, p, FirstSource(rows, d, p).value)); }
    }
  }

  /** More signals never take a proof away. */
  lemma ProofsOnlyGrow(xs: seq<Signal>, ys: seq<Signal>, d: nat)
    requires forall r :: r in xs ==> r in ys
    ensures AccessOf(Merged(xs), d).proven <= AccessOf(Merged(ys), d).proven
  {
    forall p | p in AccessOf(Merged(xs), d).proven
      ensures p in AccessOf(Merged(ys), d).proven
    {
      MergedSpec(xs, d, p);
      MergedSpec(ys, d, p);
    }
  }

  /** Successful web tests alone, however many, never make a device managed; neither do bindings. */
  lemma WebTestsProveNothing(rows: seq<Signal>, d: nat)
    requires forall r :: r in rows && r.device == d ==>
        r.source == BoundCredential || (r.source == TestResult && (r.protocol == HttpBasic || r.protocol == Http))
    ensures AccessOf(Merged(rows), d).proven == {}
  {
    forall p: Protocol
      ensures p !in AccessOf(Merged(rows), d).proven
    {
      MergedSpec(rows, d, p);
    }
  }
}
