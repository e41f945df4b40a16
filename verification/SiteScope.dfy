/**
  Site scope two ways: inScope walks up the location tree with a bound, eiLocScope walks down with
  a worklist. Both meet arbitrary parent maps, cycles and self-loops included.
 */
module SiteScope {
  import opened Domain

  /** The nil UUID. */
  const NIL: nat := 0
  const WALK_LIMIT := 64

  type Parents = map<nat, nat>

  /** k steps up from loc, if every step exists. */
  function Ancestor(parent: Parents, loc: nat, k: nat): Option<nat> {
    if k == 0 then Some(loc)
    else
      var below := Ancestor(parent, loc, k - 1);
      if below.Some? && below.value in parent then Some(parent[below.value]) else None
  }

  /** loc lies in the subtree of root. */
  ghost predicate Below(parent: Parents, root: nat, loc: nat) {
    exists k: nat :: Ancestor(parent, loc, k) == Some(root)
  }

  /** The walk reaches root in k steps, before its limit and without stepping onto nil or a self-loop. */
  ghost predicate ReachedAt(parent: Parents, root: nat, loc: nat, k: nat) {
    && Ancestor(parent, loc, k) == Some(root)
    && (forall m: nat :: m < k ==> Ancestor(parent, loc, m) != Some(root))
    && (forall m: nat :: 1 <= m <= k ==> Ancestor(parent, loc, m) != Some(NIL))
  }

  lemma {:induction false} AncestorExists(parent: Parents, loc: nat, k: nat, m: nat)
    requires m <= k && Ancestor(parent, loc, k).Some?
    ensures Ancestor(parent, loc, m).Some?
  {
    if m < k { AncestorExists(parent, loc, k - 1, m); }
  }

  /** A self-loop repeats for ever, so nothing new lies beyond it. */
  lemma {:induction false} SelfLoopStays(parent: Parents, loc: nat, m: nat, k: nat)
    requires m <= k && Ancestor(parent, loc, m).Some? && Ancestor(parent, loc, m).value in parent
    requires parent[Ancestor(parent, loc, m).value] == Ancestor(parent, loc, m).value
    ensures Ancestor(parent, loc, k) == Ancestor(parent, loc, m)
  {
    if m < k { SelfLoopStays(parent, loc, m, k - 1); }
  }

  /** inScope: the bounded walk up. */
  method InScope(userSite: Option<nat>, deviceLoc: Option<nat>, parent: Parents) returns (visible: bool)
    ensures userSite.None? ==> visible
    ensures userSite.Some? && deviceLoc.None? ==> !visible
    ensures userSite.Some? && deviceLoc.Some? ==>
              (visible <==> exists k: nat :: k < WALK_LIMIT && ReachedAt(parent, userSite.value, deviceLoc.value, k))
  {
    if userSite.None? {
      return true;
    }
    if deviceLoc.None? {
      return false;
    }
    var site, loc := userSite.value, deviceLoc.value;
    var cur := loc;
    for i := 0 to WALK_LIMIT
      invariant Ancestor(parent, loc, i) == Some(cur)
      invariant forall m: nat :: m < i ==> Ancestor(parent, loc, m) != Some(site)
      invariant forall m: nat :: 1 <= m <= i ==> Ancestor(parent, loc, m) != Some(NIL)
    {
      if cur == site {
        assert ReachedAt(parent, site, loc, i);
        return true;
      }
      if cur !in parent || parent[cur] == NIL || parent[cur] == cur {
        forall k: nat | ReachedAt(parent, site, loc, k)
          ensures false
        {
          assert i < k;
          AncestorExists(parent, loc, k, i + 1);
          assert Ancestor(parent, loc, i + 1) == Some(parent[cur]);
          if parent[cur] == cur { SelfLoopStays(parent, loc, i, k); }
        }
        return false;
      }
      cur := parent[cur];
    }
    visible := false;
  }

  /** One kids[] entry of eiLocScope. */
  function Kids(parent: Parents, p: nat): set<nat> { set c | c in parent && parent[c] == p }

  /** The worklist's invariant: everything noted lies below root, and every child of a seen location is noted. */
  ghost predicate WorkInv(parent: Parents, root: nat, seen: set<nat>, stack: seq<nat>) {
    && (forall n :: n in seen || n in stack ==> Below(parent, root, n) && n in parent.Keys + {root})
    && (root in seen || root in stack)
    && (forall c :: c in parent && parent[c] in seen ==> c in seen || c in stack)
  }

  lemma SkipKeepsWork(parent: Parents, root: nat, seen: set<nat>, stack: seq<nat>, n: nat)
    requires WorkInv(parent, root, seen, stack + [n]) && n in seen
    ensures WorkInv(parent, root, seen, stack)
  {
    assert forall c :: c in stack + [n] <==> c in stack || c == n;
  }

  lemma VisitKeepsWork(parent: Parents, root: nat, seen: set<nat>, stack: seq<nat>, n: nat, kids: seq<nat>)
    requires WorkInv(parent, root, seen, stack + [n])
    requires forall c :: c in kids <==> c in Kids(parent, n)
    ensures WorkInv(parent, root, seen + {n}, stack + kids)
  {
    assert forall c :: c in stack + [n] <==> c in stack || c == n;
    assert forall c :: c in stack + kids <==> c in stack || c in kids;
    forall c | c in kids
      ensures Below(parent, root, c)
    {
      assert n in stack + [n];
      ChildBelow(parent, root, c);
    }
  }

  /**
    descend: the worklist walk down. `order` stands for the map's iteration order, which lays out
    each kids[] slice.
   */
  method Descend(parent: Parents, root: nat, order: seq<nat>) returns (seen: set<nat>)
    requires forall c :: c in parent <==> c in order
    ensures forall loc :: loc in seen <==> Below(parent, root, loc)
  {
    seen := {};
    var stack := [root];
    assert Ancestor(parent, root, 0) == Some(root);
    while |stack| > 0
      invariant WorkInv(parent, root, seen, stack)
      decreases parent.Keys + {root} - seen, |stack|
    {
      var n := stack[|stack| - 1];
      var rest := stack[..|stack| - 1];
      assert stack == rest + [n];
      stack := rest;
      if n in seen {
        SkipKeepsWork(parent, root, seen, rest, n);
        continue;
      }
      var kids := KidSlice(parent, n, order);
      VisitKeepsWork(parent, root, seen, rest, n, kids);
      seen := seen + {n};
      stack := rest + kids;
    }
    ClosedHoldsSubtree(parent, root, seen);
  }

  lemma ClosedHoldsSubtree(parent: Parents, root: nat, seen: set<nat>)
    requires root in seen
    requires forall c :: c in parent && parent[c] in seen ==> c in seen
    ensures forall loc :: Below(parent, root, loc) ==> loc in seen
  {
    forall loc: nat | Below(parent, root, loc)
      ensures loc in seen
    {
      var k: nat :| Ancestor(parent, loc, k) == Some(root);
      ClosedHoldsChain(parent, root, seen, loc, k);
    }
  }

  /** kids[n] as a slice: the children of n in iteration order. */
  method KidSlice(parent: Parents, n: nat, order: seq<nat>) returns (kids: seq<nat>)
    requires forall c :: c in parent <==> c in order
    ensures forall c :: c in kids <==> c in Kids(parent, n)
  {
    kids := [];
    for i := 0 to |order|
      invariant forall c :: c in kids <==> c in order[..i] && c in Kids(parent, n)
    {
      assert order[..i + 1] == order[..i] + [order[i]];
      if parent[order[i]] == n {
        kids := kids + [order[i]];
      }
    }
    assert order[..|order|] == order;
  }

  lemma ChildBelow(parent: Parents, root: nat, c: nat)
    requires c in parent && Below(parent, root, parent[c])
    ensures Below(parent, root, c)
  {
    var k: nat :| Ancestor(parent, parent[c], k) == Some(root);
    StepBelow(parent, c, k);
  }

  /** One step up from c, then k from its parent, is k + 1 steps from c. */
  lemma {:induction false} StepBelow(parent: Parents, c: nat, k: nat)
    requires c in parent
    ensures Ancestor(parent, c, k + 1) == Ancestor(parent, parent[c], k)
  {
    if k == 0 {
      assert Ancestor(parent, c, 0) == Some(c);
    } else {
      StepBelow(parent, c, k - 1);
    }
  }

  lemma {:induction false} ClosedHoldsChain(parent: Parents, root: nat, seen: set<nat>, loc: nat, k: nat)
    requires root in seen && Ancestor(parent, loc, k) == Some(root)
    requires forall c :: c in parent && parent[c] in seen ==> c in seen
    ensures loc in seen
    decreases k
  {
    if k > 0 {
      AncestorExists(parent, loc, k, 1);
      assert Ancestor(parent, loc, 0) == Some(loc) && loc in parent;
      StepBelow(parent, loc, k - 1);
      ClosedHoldsChain(parent, root, seen, parent[loc], k - 1);
    }
  }

  // ----- When the two walks agree -----

  /** The first time the walk meets site. */
  lemma FirstMeeting(parent: Parents, site: nat, loc: nat, k: nat) returns (first: nat)
    requires Ancestor(parent, loc, k) == Some(site)
    ensures first <= k && Ancestor(parent, loc, first) == Some(site)
    ensures forall m: nat :: m < first ==> Ancestor(parent, loc, m) != Some(site)
  {
    first := 0;
    while Ancestor(parent, loc, first) != Some(site)
      invariant first <= k
      invariant forall m: nat :: m < first ==> Ancestor(parent, loc, m) != Some(site)
      decreases k - first
    {
      first := first + 1;
    }
  }

  /** The distinct locations a walk from loc visits in its first n steps. */
  ghost function Visited(parent: Parents, loc: nat, n: nat): set<nat> {
    set k: nat | k <= n && Ancestor(parent, loc, k).Some? :: Ancestor(parent, loc, k).value
  }

  /** Two equal stops make the walk periodic from there on. */
  lemma {:induction false} Periodic(parent: Parents, loc: nat, a: nat, b: nat, n: nat)
    requires Ancestor(parent, loc, a).Some? && Ancestor(parent, loc, a) == Ancestor(parent, loc, b)
    ensures Ancestor(parent, loc, a + n) == Ancestor(parent, loc, b + n)
  {
    if n > 0 { Periodic(parent, loc, a, b, n - 1); }
  }

  /** Before it first meets site a walk never repeats itself, so it has visited one location per step. */
  lemma {:induction false} NoRepeatBeforeFirst(parent: Parents, site: nat, loc: nat, first: nat, n: nat)
    requires n <= first && Ancestor(parent, loc, first) == Some(site)
    requires forall m: nat :: m < first ==> Ancestor(parent, loc, m) != Some(site)
    ensures |Visited(parent, loc, n)| == n + 1
  {
    AncestorExists(parent, loc, first, n);
    var here := Ancestor(parent, loc, n).value;
    if n == 0 {
      assert Visited(parent, loc, 0) == {here};
    } else {
      NoRepeatBeforeFirst(parent, site, loc, first, n - 1);
      var before := Visited(parent, loc, n - 1);
      if here in before {
        var m: nat :| m <= n - 1 && Ancestor(parent, loc, m) == Some(here);
        Periodic(parent, loc, n, m, first - n);
        assert false;
      }
      assert Visited(parent, loc, n) == before + {here};
    }
  }

  /**
    The two walks agree on every parent map, cycles and self-loops included, whenever the chain up
    from the location meets at most 64 distinct locations and never the nil id.
   */
  lemma WalksAgree(parent: Parents, site: nat, loc: nat)
    requires forall n: nat :: |Visited(parent, loc, n)| <= WALK_LIMIT
    requires forall m: nat :: m > 0 ==> Ancestor(parent, loc, m) != Some(NIL)
    ensures (exists k: nat :: k < WALK_LIMIT && ReachedAt(parent, site, loc, k)) <==> Below(parent, site, loc)
  {
    if Below(parent, site, loc) {
      var k: nat :| Ancestor(parent, loc, k) == Some(site);
      var first := FirstMeeting(parent, site, loc, k);
      NoRepeatBeforeFirst(parent, site, loc, first, first);
      assert ReachedAt(parent, site, loc, first);
    }
  }

  /**
    Without those limits, exactly when they differ: the location is in the subtree, but the walk up
    first meets the site after 64 or more steps, or only across the nil id.
   */
  lemma WalksDifferExactly(parent: Parents, site: nat, loc: nat)
    ensures Below(parent, site, loc) && !(exists k: nat :: k < WALK_LIMIT && ReachedAt(parent, site, loc, k)) <==>
            exists k: nat :: CutOff(parent, site, loc, k)
  {
    if Below(parent, site, loc) && !(exists k: nat :: k < WALK_LIMIT && ReachedAt(parent, site, loc, k)) {
      var k: nat :| Ancestor(parent, loc, k) == Some(site);
      var first := FirstMeeting(parent, site, loc, k);
      assert !(first < WALK_LIMIT && ReachedAt(parent, site, loc, first));
      assert CutOff(parent, site, loc, first);
    }
    forall j: nat, k: nat | ReachedAt(parent, site, loc, j) && j < WALK_LIMIT
      ensures !CutOff(parent, site, loc, k)
    {
    }
  }

  /** The walk first meets the site at step k, but beyond its limit or across the nil id. */
  ghost predicate CutOff(parent: Parents, site: nat, loc: nat, k: nat) {
    && FirstAt(parent, site, loc, k)
    && (k >= WALK_LIMIT || exists m: nat :: 1 <= m <= k && Ancestor(parent, loc, m) == Some(NIL))
  }

  ghost predicate FirstAt(parent: Parents, site: nat, loc: nat, k: nat) {
    Ancestor(parent, loc, k) == Some(site) && forall m: nat :: m < k ==> Ancestor(parent, loc, m) != Some(site)
  }

  /** A plain chain of 65 locations, 1 under 2 under ... under 65. */
  function Chain(n: nat): Parents {
    if n <= 1 then map[] else Chain(n - 1)[n - 1 := n]
  }

  lemma {:induction false} ChainAncestor(n: nat, k: nat)
    requires k < n
    ensures Ancestor(Chain(n), 1, k) == Some(1 + k)
  {
    if k > 0 {
      ChainAncestor(n, k - 1);
      ChainStep(n, k);
    }
  }

  lemma {:induction false} ChainStep(n: nat, c: nat)
    requires 1 <= c < n
    ensures c in Chain(n) && Chain(n)[c] == c + 1
  {
    if c < n - 1 { ChainStep(n - 1, c); }
  }

  /** The bound bites: 65 locations deep, the site report shows a device its own user cannot open. */
  lemma DeepChainDiffers()
    ensures Below(Chain(65), 65, 1) && !(exists k: nat :: k < WALK_LIMIT && ReachedAt(Chain(65), 65, 1, k))
  {
    ChainAncestor(65, 64);
    forall k: nat | k < WALK_LIMIT ensures Ancestor(Chain(65), 1, k) != Some(65) {
      ChainAncestor(65, k);
    }
  }

  /** And it bites there first: 64 locations deep, the walk up still arrives. */
  lemma LimitIsReached()
    ensures exists k: nat :: k < WALK_LIMIT && ReachedAt(Chain(64), 64, 1, k)
  {
    ChainAncestor(64, 63);
    forall m: nat | m < 63 ensures Ancestor(Chain(64), 1, m) == Some(1 + m) { ChainAncestor(64, m); }
    assert ReachedAt(Chain(64), 64, 1, 63);
  }

  /** The nil identifier cuts the walk up but not the walk down. */
  lemma NilLocationDiffers()
    ensures var parent: Parents := map[2 := NIL, NIL := 1];
            Below(parent, 1, 2) && !(exists k: nat :: k < WALK_LIMIT && ReachedAt(parent, 1, 2, k))
  {
    var parent: Parents := map[2 := NIL, NIL := 1];
    assert Ancestor(parent, 2, 0) == Some(2);
    assert Ancestor(parent, 2, 1) == Some(NIL);
    assert Ancestor(parent, 2, 2) == Some(1);
    assert Below(parent, 1, 2);
    forall k: nat | ReachedAt(parent, 1, 2, k)
      ensures k == 0
    {
    }
  }

  // ----- Intersecting the requester's scope with an explicit one -----

  /** eiLocScope: `None` means unrestricted; otherwise the allowed locations, possibly none. */
  method LocScope(
    parent: Parents, requester: Option<nat>, chosen: Option<nat>, order: seq<nat>
  ) returns (scope: Option<set<nat>>)
    requires forall c :: c in parent <==> c in order
    ensures scope.None? <==> requester.None? && chosen.None?
    ensures scope.Some? ==> forall loc :: loc in scope.value <==>
              && (requester.Some? ==> Below(parent, requester.value, loc))
              && (chosen.Some? ==> Below(parent, chosen.value, loc))
  {
    if requester.None? && chosen.None? {
      return None;
    }
    var req, exp: set<nat> := {}, {};
    if requester.Some? { req := Descend(parent, requester.value, order); }
    if chosen.Some? { exp := Descend(parent, chosen.value, order); }
    var base := if chosen.Some? then exp else req;
    scope := Some(set k | k in base && (requester.None? || k in req) && (chosen.None? || k in exp));
  }
}
