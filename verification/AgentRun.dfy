/**
  One collect job from the inside: the candidate credentials the server hands out, the agent's
  ordered loop over them, the headline category of a failed Windows ladder, and what the server
  then binds.
 */
module AgentRun {
  import opened Domain
  import opened JobQueue

  const MAX_CANDIDATES := 8

  // ----- The candidate list -----

  /** A stored credential; its index is its identifier and its place in ListCredentials. */
  datatype Credential = Credential(kind: Protocol, opens: bool)

  predicate KindMatches(kind: Protocol, p: Protocol) {
    if p == Winrm || p == Wmi then kind == Winrm || kind == Wmi else kind == Ssh || kind == OtherProtocol(1) /* cli */
  }

  predicate Usable(creds: seq<Credential>, i: nat) { i < |creds| && creds[i].opens }

  predicate Offered(creds: seq<Credential>, bound: Option<nat>, p: Protocol, i: nat) {
    Usable(creds, i) && (bound == Some(i) || KindMatches(creds[i].kind, p))
  }

  /** add(): skip a repeat, a full list, or a credential that does not decrypt. */
  function Add(out: seq<nat>, creds: seq<Credential>, i: nat): seq<nat> {
    if i in out || |out| >= MAX_CANDIDATES || !Usable(creds, i) then out else out + [i]
  }

  function Bound(creds: seq<Credential>, bound: Option<nat>): seq<nat> {
    if bound.Some? then Add([], creds, bound.value) else []
  }

  /** The list after the bound credential and the first n stored ones. */
  function CandidatesUpTo(creds: seq<Credential>, bound: Option<nat>, p: Protocol, n: nat): seq<nat>
    requires n <= |creds|
  {
    if n == 0 then Bound(creds, bound)
    else
      var out := CandidatesUpTo(creds, bound, p, n - 1);
      if KindMatches(creds[n - 1].kind, p) then Add(out, creds, n - 1) else out
  }

  function Candidates(creds: seq<Credential>, bound: Option<nat>, p: Protocol): seq<nat> {
    CandidatesUpTo(creds, bound, p, |creds|)
  }

  /** osCandidateCreds with its growing slice and seen-map. */
  method OsCandidateCreds(creds: seq<Credential>, bound: Option<nat>, p: Protocol) returns (out: seq<nat>)
    ensures out == Candidates(creds, bound, p)
  {
    out := [];
    var seen: set<nat> := {};
    if bound.Some? && bound.value < |creds| && creds[bound.value].opens {
      out, seen := [bound.value], {bound.value};
    }
    for n := 0 to |creds|
      invariant out == CandidatesUpTo(creds, bound, p, n)
      invariant forall i :: i in seen <==> i in out
    {
      if KindMatches(creds[n].kind, p) && n !in seen && |out| < MAX_CANDIDATES && creds[n].opens {
        out, seen := out + [n], seen + {n};
      }
    }
  }

  lemma {:induction false} CandidatesUpToSpec(creds: seq<Credential>, bound: Option<nat>, p: Protocol, n: nat)
    requires n <= |creds|
    ensures var out := CandidatesUpTo(creds, bound, p, n);
            && |out| <= MAX_CANDIDATES && Distinct(out)
            && (forall i :: i in out ==> Offered(creds, bound, p, i) && (bound == Some(i) || i < n))
            && (bound.Some? && Usable(creds, bound.value) ==> out != [] && out[0] == bound.value)
            && (forall i :: 0 <= i < n && KindMatches(creds[i].kind, p) && Usable(creds, i) && i !in out ==>
                  |out| == MAX_CANDIDATES && forall k :: k in out ==> bound == Some(k) || k < i)
  {
    if n > 0 {
      CandidatesUpToSpec(creds, bound, p, n - 1);
    }
  }

  /**
    The list is distinct and at most eight long, starts with the bound credential when that one
    decrypts, holds only usable Windows (or shell) credentials, and leaves a usable one out only
    when it is full of earlier ones.
   */
  lemma CandidatesSpec(creds: seq<Credential>, bound: Option<nat>, p: Protocol)
    ensures var out := Candidates(creds, bound, p);
            && |out| <= MAX_CANDIDATES && Distinct(out)
            && (forall i :: i in out ==> Offered(creds, bound, p, i))
            && (bound.Some? && Usable(creds, bound.value) ==> out != [] && out[0] == bound.value)
            && (forall i: nat :: Offered(creds, bound, p, i) && i !in out ==>
                  |out| == MAX_CANDIDATES && forall k :: k in out ==> bound == Some(k) || k < i)
  {
    CandidatesUpToSpec(creds, bound, p, |creds|);
  }

  /**
    Besides the bound one, a Windows job offers WinRM and WMI credentials, any other job SSH and CLI ones,
    all that decrypt.
   */
  lemma CandidateKinds(creds: seq<Credential>, bound: Option<nat>, p: Protocol, i: nat)
    requires i < |creds| && bound != Some(i)
    ensures var kinds := if p in {Winrm, Wmi} then {Winrm, Wmi} else {Ssh, OtherProtocol(1)};
            var out := Candidates(creds, bound, p);
            && (i in out ==> creds[i].kind in kinds && creds[i].opens)
            && (|out| < 8 ==> (i in out <==> creds[i].kind in kinds && creds[i].opens))
            && |out| <= 8
  {
    CandidatesSpec(creds, bound, p);
  }

  /** The direct path and the agent's WMI path try the same list. */
  lemma WinrmAndWmiAgree(creds: seq<Credential>, bound: Option<nat>, n: nat)
    requires n <= |creds|
    ensures CandidatesUpTo(creds, bound, Winrm, n) == CandidatesUpTo(creds, bound, Wmi, n)
  {
  }

  // ----- The Windows ladder -----

  /** One rung's outcome, or the whole ladder's. */
  datatype Answer = Works | Fails(category: Category)

  predicate Reached(c: Category) { c == AuthFailed || c == AccessDenied || c == WmiAccessDenied || c == WmiAuthFailed }

  predicate Transient(c: Category) { c == ConnectTimeout || c == NegotiateError }

  predicate Informative(c: Category) { c != Blank && c != GenericError }

  function FirstReached(w: Category, m: Category, n: Category): Option<Category> {
    if Reached(m) then Some(m) else if Reached(w) then Some(w) else if Reached(n) then Some(n) else None
  }

  /** windowsFinalCat: native, WinRM shell, WMI. */
  function FinalCat(n: Category, w: Category, m: Category): Category {
    if Reached(n) then n
    else if m == NamespaceUnavailable then m
    else if Transient(n) then n
    else if Transient(w) then w
    else if FirstReached(w, m, n).Some? then FirstReached(w, m, n).value
    else if Informative(w) then w else if Informative(m) then m else if Informative(n) then n
    else if w != Blank then w else if m != Blank then m else n
  }

  /** The headline is one rung's own category, and is uninformative only when every rung was. */
  lemma HeadlineIsInformative(n: Category, w: Category, m: Category)
    ensures FinalCat(n, w, m) in {n, w, m}
    ensures Informative(FinalCat(n, w, m)) <==> Informative(n) || Informative(w) || Informative(m)
    ensures Reached(n) ==> FinalCat(n, w, m) == n
  {
  }

  /** The rungs of the Windows ladder. */
  datatype Rung = Native | Shell | WmiRung

  /** What a rung reported. */
  function Said(n: Category, w: Category, m: Category, r: Rung): Category {
    match r case Native => n case Shell => w case WmiRung => m
  }

  /**
    How much a rung's report tells, as one scale: verdicts of the native client, a broken WMI repository,
    a listener that is only overloaded, verdicts of the other rungs, any other named cause, and last a
    nameless error or nothing at all.
   */
  function Weight(r: Rung, c: Category): nat {
    if c in {AuthFailed, AccessDenied, WmiAccessDenied, WmiAuthFailed} then
      match r case Native => 12 case WmiRung => 8 case Shell => 7
    else if r == WmiRung && c == NamespaceUnavailable then 11
    else if r != WmiRung && c in {ConnectTimeout, NegotiateError} then (if r == Native then 10 else 9)
    else if c != Blank && c != GenericError then
      match r case Shell => 6 case WmiRung => 5 case Native => 4
    else if c == GenericError then
      match r case Shell => 3 case WmiRung => 2 case Native => 1
    else 0
  }

  /** The headline is the report that tells most. */
  lemma HeadlineTellsMost(n: Category, w: Category, m: Category, best: Rung)
    requires forall r: Rung :: Weight(r, Said(n, w, m, r)) <= Weight(best, Said(n, w, m, best))
    ensures FinalCat(n, w, m) == Said(n, w, m, best)
  {
    assert Weight(Native, Said(n, w, m, Native)) <= Weight(best, Said(n, w, m, best));
    assert Weight(Shell, Said(n, w, m, Shell)) <= Weight(best, Said(n, w, m, best));
    assert Weight(WmiRung, Said(n, w, m, WmiRung)) <= Weight(best, Said(n, w, m, best));
  }

  /** A failed ladder ends on the headline of the rungs it climbed. */
  lemma LadderHeadline(onWindows: bool, native: Answer, winrm: Answer, wmi: Answer)
    ensures CollectWindows(onWindows, native, winrm, wmi).Fails? ==>
              && winrm.Fails? && (onWindows ==> native.Fails?)
              && var n := if onWindows then native.category else Blank;
                 var climbed := onWindows && winrm != Fails(AuthFailed);
                 && (climbed ==> wmi.Fails?)
                 && CollectWindows(onWindows, native, winrm, wmi)
                    == Fails(FinalCat(n, winrm.category, if climbed then wmi.category else Blank))
  {
  }

  /**
    The storm guard: once a WinRM rung failed for a transient reason, the job settles without
    retry exactly when the native client got a definite verdict or the WMI repository is broken.
   */
  lemma StormGuard(n: Category, w: Category, m: Category)
    requires Transient(n) || Transient(w)
    ensures !Retryable(FinalCat(n, w, m)) <==>
        (Reached(n) && n != WmiAuthFailed) || (!Reached(n) && m == NamespaceUnavailable)
  {
  }

  /**
    A rejected credential is meant to be terminal. Among the categories that prove the credential
    was evaluated, exactly wmi_auth_failed is still retried, so a host that answers only over WMI
    has a rejected credential re-tried until the attempts run out.
   */
  lemma RetriedRejection(c: Category)
    ensures Reached(c) && Retryable(c) <==> c == WmiAuthFailed
    ensures Transient(c) ==> Retryable(c) && LoadInduced(c)
  {
  }

  /** collectWindows: a clean WinRM rejection, or an agent not on Windows, skips the WMI rung. */
  function CollectWindows(onWindows: bool, native: Answer, winrm: Answer, wmi: Answer): Answer {
    var ncat := if onWindows && native.Fails? then native.category else Blank;
    if onWindows && native.Works? then Works
    else if winrm.Works? then Works
    else if winrm.category == AuthFailed || !onWindows then Fails(FinalCat(ncat, winrm.category, Blank))
    else if wmi.Works? then Works
    else Fails(FinalCat(ncat, winrm.category, wmi.category))
  }

  /** Success means a rung that may be used worked; a failure carries a rung's own category. */
  lemma LadderSpec(onWindows: bool, native: Answer, winrm: Answer, wmi: Answer)
    ensures CollectWindows(onWindows, native, winrm, wmi).Works? <==>
              (onWindows && native.Works?) || winrm.Works? || (onWindows && wmi.Works? && winrm != Fails(AuthFailed))
    ensures forall c :: CollectWindows(onWindows, native, winrm, wmi) == Fails(c) && c != Blank ==>
              (onWindows && native == Fails(c)) || winrm == Fails(c) || (onWindows && wmi == Fails(c))
    // a host reached only over WMI and rejected there ends on the one rejection that is retried
    ensures forall n, w :: !Reached(n) && !Transient(n) && !Transient(w) ==>
              (w != AuthFailed ==>
                 CollectWindows(true, Fails(n), Fails(w), Fails(WmiAuthFailed)) == Fails(WmiAuthFailed))
  {
  }

  // ----- The credential loop -----

  function AttemptFor(cred: Option<nat>, answer: Answer): Attempt {
    match answer
    case Works => Attempt(cred, Success, true)
    case Fails(c) => Attempt(cred, c, false)
  }

  predicate StopsLoop(answer: Answer) { answer == Works || answer == Fails(ConnectTimeout) }

  /** The candidates actually tried: all, or up to the first success or silent listener. */
  function Tried(creds: seq<Option<nat>>, answers: seq<Answer>): (n: nat)
    requires |creds| == |answers|
    ensures n <= |creds| && (creds != [] ==> n > 0)
    ensures forall i :: 0 <= i < n - 1 ==> !StopsLoop(answers[i])
    ensures 0 < n < |creds| ==> StopsLoop(answers[n - 1])
  {
    if creds == [] then 0
    else if StopsLoop(answers[0]) then 1
    else 1 + Tried(creds[1..], answers[1..])
  }

  /** A legacy server sends one credential without an identifier instead of a list. */
  function Effective(creds: seq<Option<nat>>): seq<Option<nat>> { if creds == [] then [None] else creds }

  /** One attempt for each of the first n candidates. */
  function AttemptsOf(creds: seq<Option<nat>>, answers: seq<Answer>, n: nat): (out: seq<Attempt>)
    requires n <= |creds| == |answers|
    ensures |out| == n && forall i :: 0 <= i < n ==> out[i] == AttemptFor(creds[i], answers[i])
  {
    if n == 0 then [] else AttemptsOf(creds, answers, n - 1) + [AttemptFor(creds[n - 1], answers[n - 1])]
  }

  function RunReport(creds: seq<Option<nat>>, answers: seq<Answer>, saved: InventoryOutcome): Report
    requires |answers| == |Effective(creds)|
  {
    var n := Tried(Effective(creds), answers);
    var attempts := AttemptsOf(Effective(creds), answers, n);
    var last := attempts[n - 1];
    Report(last.success, last.category, if last.success then saved else NoReport, last.cred, attempts)
  }

  /** runJob: try each candidate in order, stop at the first success or silent listener, post once. */
  method RunJob(kind: JobKind, creds: seq<Option<nat>>, answers: seq<Answer>, saved: InventoryOutcome)
    returns (posts: seq<Report>)
    requires |answers| == |Effective(creds)|
    ensures |posts| == 1
    ensures kind == CollectOs ==> posts[0] == RunReport(creds, answers, saved)
    ensures kind == TestJob ==> posts[0] == Report(true, Success, NoReport, None, [])
  {
    posts := [];
    if kind == TestJob {
      posts := [Report(true, Success, NoReport, None, [])];
      return;
    }
    var cands := if |creds| == 0 then [None] else creds;
    var attempts := TryInOrder(cands, answers);
    var last := attempts[|attempts| - 1];
    posts := [Report(last.success, last.category, if last.success then saved else NoReport, last.cred, attempts)];
  }

  /** The credential loop of runJob. */
  method TryInOrder(cands: seq<Option<nat>>, answers: seq<Answer>) returns (tried: seq<Attempt>)
    requires |answers| == |cands| && cands != []
    ensures tried == AttemptsOf(cands, answers, Tried(cands, answers))
  {
    tried := [];
    for k := 0 to |cands|
      invariant tried == AttemptsOf(cands, answers, k)
      invariant forall i :: 0 <= i < k ==> !StopsLoop(answers[i])
    {
      tried := tried + [AttemptFor(cands[k], answers[k])];
      if StopsLoop(answers[k]) {
        TriedIs(cands, answers, k + 1);
        return;
      }
    }
    TriedIs(cands, answers, |cands|);
  }

  lemma {:induction false} TriedIs(creds: seq<Option<nat>>, answers: seq<Answer>, n: nat)
    requires |creds| == |answers| && 0 < n <= |creds|
    requires forall i :: 0 <= i < n - 1 ==> !StopsLoop(answers[i])
    requires n == |creds| || StopsLoop(answers[n - 1])
    ensures Tried(creds, answers) == n
  {
    if !StopsLoop(answers[0]) && n > 1 {
      TriedIs(creds[1..], answers[1..], n - 1);
    }
  }

  /**
    The post in terms of the candidates: attempts are a prefix of the list with one outcome each;
    success names the first credential that works; failure means none of the tried ones worked and
    either all were tried or the last met a silent listener.
   */
  lemma RunReportSpec(creds: seq<Option<nat>>, answers: seq<Answer>, saved: InventoryOutcome)
    requires |answers| == |Effective(creds)|
    ensures var r := RunReport(creds, answers, saved); var all := Effective(creds); var n := |r.attempts|;
            && 0 < n <= |all|
            && (forall i :: 0 <= i < n ==> r.attempts[i].cred == all[i] && r.attempts[i].success == answers[i].Works?)
            && (forall i :: 0 <= i < n ==>
                  r.attempts[i].category == if answers[i].Works? then Success else answers[i].category)
            && (forall i :: 0 <= i < n - 1 ==> !answers[i].Works? && answers[i] != Fails(ConnectTimeout))
            && r.success == answers[n - 1].Works?
            && (r.success ==> r.category == Success && r.inventory == saved)
            && (!r.success ==> r.inventory == NoReport)
            && (r.success ==> r.winner == all[n - 1])
            && (!r.success ==> n == |all| || answers[n - 1] == Fails(ConnectTimeout))
            && (!r.success ==> answers[n - 1] == Fails(r.category))
  {
  }

  // ----- Server and agent together -----

  function Offer(cands: seq<nat>): seq<Option<nat>> {
    seq(|cands|, i requires 0 <= i < |cands| => Some(cands[i]))
  }

  lemma {:induction false} RowPerAttempt(d: nat, j: Job, attempts: seq<Attempt>, now: int)
    requires forall i :: 0 <= i < |attempts| ==> attempts[i].cred.Some?
    ensures var rows := AttemptRows(d, j, attempts, now);
            && |rows| == |attempts|
            && forall i :: 0 <= i < |rows| ==>
                 rows[i] == TestRow(d, attempts[i].cred.value, j.protocol,
                                    Labelled(attempts[i].category, attempts[i].success), attempts[i].success, now)
  {
    if attempts != [] {
      RowPerAttempt(d, j, attempts[1..], now);
    }
  }

  /** A winning run in terms of the candidates: it stops at the first that works. */
  lemma WinningRun(cands: seq<nat>, answers: seq<Answer>) returns (k: nat)
    requires cands != [] && |answers| == |cands| && RunReport(Offer(cands), answers, Persisted).success
    ensures k < |cands| && answers[k].Works? && forall m :: 0 <= m < k ==> !answers[m].Works?
    ensures var r := RunReport(Offer(cands), answers, Persisted);
            && |r.attempts| == k + 1 && r.winner == Some(cands[k]) && r.inventory == Persisted
            && forall m :: 0 <= m <= k ==> r.attempts[m].cred == Some(cands[m]) && r.attempts[m].success == (m == k)
  {
    RunReportSpec(Offer(cands), answers, Persisted);
    k := |RunReport(Offer(cands), answers, Persisted).attempts| - 1;
  }

  /** What the result handler does with a persisted success. */
  lemma SuccessIsStored(s: State, a: nat, i: nat, d: nat, r: Report)
    requires Authenticated(s, a) && i < |s.jobs| && s.jobs[i].agent == a && CollectsFor(s.jobs[i], d) && d in s.devices
    requires r.success && r.inventory == Persisted && r.winner.Some?
    requires AttemptRows(d, s.jobs[i], r.attempts, s.now) != []
    ensures var s' := Result(s, a, i, r);
            && s'.jobs[i].status == Done && d in s'.inventory
            && s'.devices == s.devices[d := s.devices[d].(up := true, cred := r.winner)]
            && s'.tests == s.tests + AttemptRows(d, s.jobs[i], r.attempts, s.now)
  {
  }

  /**
    End to end: the candidate list the server built at the poll, from the credential bound then, the
    agent's loop and the result handler together bind exactly the first working candidate, mark the
    device up, record one test row per credential tried, and put the winner first in the next list;
    whatever was bound to the device in between.
   */
  lemma WinnerIsBound(
    s: State, a: nat, i: nat, d: nat, creds: seq<Credential>, bound: Option<nat>, answers: seq<Answer>
  ) returns (k: nat)
    requires Authenticated(s, a) && i < |s.jobs| && s.jobs[i].agent == a && CollectsFor(s.jobs[i], d) && d in s.devices
    requires var cands := Candidates(creds, bound, s.jobs[i].protocol); cands != [] && |answers| == |cands|
    requires RunReport(Offer(Candidates(creds, bound, s.jobs[i].protocol)), answers, Persisted).success
    ensures var cands := Candidates(creds, bound, s.jobs[i].protocol);
            var s' := Result(s, a, i, RunReport(Offer(cands), answers, Persisted));
            && k < |cands| && answers[k].Works? && (forall m :: 0 <= m < k ==> !answers[m].Works?)
            && s'.jobs[i].status == Done && d in s'.inventory
            && s'.devices == s.devices[d := s.devices[d].(up := true, cred := Some(cands[k]))]
            && OneRowPerTry(s'.tests[|s.tests|..], d, cands, k)
            && var next := Candidates(creds, Some(cands[k]), s.jobs[i].protocol); next != [] && next[0] == cands[k]
  {
    var p := s.jobs[i].protocol;
    var cands := Candidates(creds, bound, p);
    var r := RunReport(Offer(cands), answers, Persisted);
    k := WinningRun(cands, answers);
    RowPerAttempt(d, s.jobs[i], r.attempts, s.now);
    SuccessIsStored(s, a, i, d, r);
    WinnerComesFirst(creds, bound, p, k);
    assert Result(s, a, i, r).tests[|s.tests|..] == AttemptRows(d, s.jobs[i], r.attempts, s.now);
  }

  /**
    Success or failure: a post holds at most eight attempts, in the order of the list, none of one
    credential twice.
   */
  lemma AttemptsAreDistinct(
    creds: seq<Credential>, bound: Option<nat>, p: Protocol, answers: seq<Answer>, saved: InventoryOutcome
  )
    requires var cands := Candidates(creds, bound, p); |answers| == |Effective(Offer(cands))|
    ensures var cands := Candidates(creds, bound, p);
            var attempts := RunReport(Offer(cands), answers, saved).attempts;
            && 0 < |attempts| <= MAX_CANDIDATES
            && (forall i, k :: 0 <= i < k < |attempts| ==> attempts[i].cred != attempts[k].cred)
            && (cands != [] ==>
                  |attempts| <= |cands| && forall i :: 0 <= i < |attempts| ==> attempts[i].cred == Some(cands[i]))
  {
    CandidatesSpec(creds, bound, p);
    RunReportSpec(Offer(Candidates(creds, bound, p)), answers, saved);
  }

  /** The new test rows: one per candidate tried, in order, the last a success. */
  ghost predicate OneRowPerTry(rows: seq<TestRow>, d: nat, cands: seq<nat>, k: nat) {
    && |rows| == k + 1 <= |cands|
    && forall m :: 0 <= m <= k ==> rows[m].device == d && rows[m].cred == cands[m] && rows[m].success == (m == k)
  }

  /** The bound winner heads the next candidate list. */
  lemma WinnerComesFirst(creds: seq<Credential>, bound: Option<nat>, p: Protocol, k: nat)
    requires k < |Candidates(creds, bound, p)|
    ensures var next := Candidates(creds, Some(Candidates(creds, bound, p)[k]), p);
            next != [] && next[0] == Candidates(creds, bound, p)[k]
  {
    var cands := Candidates(creds, bound, p);
    CandidatesSpec(creds, bound, p);
    assert cands[k] in cands;
    CandidatesSpec(creds, Some(cands[k]), p);
  }
}
