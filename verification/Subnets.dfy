/**
  Subnet matching: the scan's matcher and the Data Quality matcher, and the action that assigns
  unassigned devices to sites. A prefix is as in section 3.1 of RFC 4632.
 */
module Subnets {
  import opened Domain

  /** An address as a family and a number; ::ffff:a.b.c.d is a V6 address. */
  datatype Addr = V4(n: nat) | V6(n: nat)

  const V4_BITS: nat := 32
  const V6_BITS: nat := 128
  const MAPPED_BASE: nat := 0xFFFF * 0x1_0000_0000

  datatype Prefix = Prefix(addr: Addr, bits: nat)

  function Width(a: Addr): nat { if a.V4? then V4_BITS else V6_BITS }

  predicate IsValid(p: Prefix) { p.bits <= Width(p.addr) }

  /** n >> k. */
  function ShiftRight(n: nat, k: nat): nat { if k == 0 then n else ShiftRight(n / 2, k - 1) }

  /** n << k. */
  function ShiftLeft(n: nat, k: nat): nat { if k == 0 then n else ShiftLeft(n, k - 1) * 2 }

  lemma {:induction false} ShiftBack(n: nat, k: nat)
    ensures ShiftRight(ShiftLeft(n, k), k) == n
  {
    if k > 0 { ShiftBack(n, k - 1); }
  }

  /** The network part of an address under a prefix length. */
  function Network(a: Addr, bits: nat): nat
    requires bits <= Width(a)
  {
    ShiftRight(a.n, Width(a) - bits)
  }

  /** netip.Prefix.Contains: same family and same network part; a mapped address is not in a V4 prefix. */
  predicate Contains(p: Prefix, ip: Addr) {
    IsValid(p) && p.addr.V4? == ip.V4? && Network(ip, p.bits) == Network(p.addr, p.bits)
  }

  /** netip.Addr.Unmap. */
  function Unmap(a: Addr): Addr {
    if a.V6? && MAPPED_BASE <= a.n < MAPPED_BASE + 0x1_0000_0000 then V4(a.n - MAPPED_BASE) else a
  }

  lemma {:induction false} ShiftsAgree(n: nat, k: nat, q: nat)
    ensures ShiftRight(n, k) == q <==> ShiftLeft(q, k) <= n < ShiftLeft(q + 1, k)
  {
    if k > 0 { ShiftsAgree(n / 2, k - 1, q); }
  }

  lemma {:induction false} ShiftIsTimes(q: nat, k: nat)
    ensures ShiftLeft(q, k) == q * ShiftLeft(1, k)
  {
    if k > 0 { ShiftIsTimes(q, k - 1); }
  }

  /** n lies in the q-th block of 2^k numbers. */
  ghost predicate InBlock(q: nat, k: nat, n: nat) { q * ShiftLeft(1, k) <= n < (q + 1) * ShiftLeft(1, k) }

  ghost predicate ShareBlock(k: nat, b: nat, n: nat) { exists q: nat :: InBlock(q, k, b) && InBlock(q, k, n) }

  lemma BlocksAgree(n: nat, k: nat, q: nat)
    ensures ShiftRight(n, k) == q <==> InBlock(q, k, n)
  {
    ShiftsAgree(n, k, q);
    ShiftIsTimes(q, k);
    ShiftIsTimes(q + 1, k);
  }

  lemma SameBlock(b: nat, n: nat, k: nat)
    ensures ShiftRight(b, k) == ShiftRight(n, k) <==> ShareBlock(k, b, n)
  {
    var q := ShiftRight(b, k);
    BlocksAgree(b, k, q);
    BlocksAgree(n, k, q);
    if p: nat :| InBlock(p, k, b) && InBlock(p, k, n) {
      BlocksAgree(b, k, p);
      BlocksAgree(n, k, p);
    }
  }

  /** A block of 2^k numbers. */
  lemma BlockSizes(k: nat)
    ensures ShiftLeft(1, 0) == 1 && ShiftLeft(1, 1) == 2 && ShiftLeft(1, 8) == 256
    ensures ShiftLeft(1, k + 1) == 2 * ShiftLeft(1, k)
  {
    assert ShiftLeft(1, 4) == 16;
  }

  /**
    A prefix of an IPv4 address holds exactly the addresses of one aligned block of 2^(32 - bits), and a
    prefix of an IPv6 address those of one block of 2^(128 - bits). Families do not mix.
   */
  lemma PrefixIsABlock(b: nat, n: nat, bits: nat)
    ensures bits <= 32 ==>
              (Contains(Prefix(V4(b), bits), V4(n)) <==> ShareBlock(32 - bits, b, n))
    ensures bits <= 128 ==>
              (Contains(Prefix(V6(b), bits), V6(n)) <==> ShareBlock(128 - bits, b, n))
    ensures bits > 32 ==> !Contains(Prefix(V4(b), bits), V4(n))
    ensures bits > 128 ==> !Contains(Prefix(V6(b), bits), V6(n))
    ensures !Contains(Prefix(V4(b), bits), V6(n)) && !Contains(Prefix(V6(b), bits), V4(n))
  {
    if bits <= 32 { SameBlock(b, n, 32 - bits); }
    if bits <= 128 { SameBlock(b, n, 128 - bits); }
  }

  /** The IPv4-mapped addresses are the 2^32 from ::ffff:0:0 on, and nothing else is unmapped. */
  lemma UnmapSpec(a: Addr)
    ensures a.V4? ==> Unmap(a) == a
    ensures a.V6? && 0xFFFF_0000_0000 <= a.n <= 0xFFFF_FFFF_FFFF ==> Unmap(a) == V4(a.n - 0xFFFF_0000_0000)
    ensures a.V6? && !(0xFFFF_0000_0000 <= a.n <= 0xFFFF_FFFF_FFFF) ==> Unmap(a) == a
  {
  }

  /** Two prefixes of one length that share an address are the same network. */
  lemma EqualLengthSameNetwork(p: Prefix, q: Prefix, ip: Addr)
    requires Contains(p, ip) && Contains(q, ip) && p.bits == q.bits
    ensures p.addr.V4? == q.addr.V4? && Network(p.addr, p.bits) == Network(q.addr, q.bits)
    ensures Masked(p) == Masked(q)
  {
  }

  /** netip.Prefix.Masked: host bits cleared. */
  function Masked(p: Prefix): Prefix
    requires IsValid(p)
  {
    var n := ShiftLeft(Network(p.addr, p.bits), Width(p.addr) - p.bits);
    Prefix(if p.addr.V4? then V4(n) else V6(n), p.bits)
  }

  /** Masking keeps the set of contained addresses, so it does not matter that the table stores masked CIDRs. */
  lemma MaskedContainsSame(p: Prefix, ip: Addr)
    requires IsValid(p)
    ensures Contains(Masked(p), ip) <==> Contains(p, ip)
  {
    ShiftBack(Network(p.addr, p.bits), Width(p.addr) - p.bits);
  }

  // ----- The two matchers -----

  datatype Subnet = Subnet(cidr: Prefix, location: nat)

  predicate Covers(subs: seq<Subnet>, i: nat, ip: Addr) { i < |subs| && Contains(subs[i].cidr, ip) }

  /** A location kind missing from the rank table counts as zero. */
  function RankOf(rank: map<nat, nat>, loc: nat): nat { if loc in rank then rank[loc] else 0 }

  ghost predicate IsLongest(subs: seq<Subnet>, i: nat, ip: Addr) {
    Covers(subs, i, ip) && forall k: nat :: Covers(subs, k, ip) ==> subs[k].cidr.bits <= subs[i].cidr.bits
  }

  /** The first declared of the longest covering subnets. */
  ghost predicate IsFirstLongest(subs: seq<Subnet>, i: nat, ip: Addr) {
    IsLongest(subs, i, ip) && forall k: nat :: k < i ==> !IsLongest(subs, k, ip)
  }

  /** The first declared of the highest-ranked among the longest covering subnets. */
  ghost predicate IsFirstRanked(subs: seq<Subnet>, rank: map<nat, nat>, i: nat, ip: Addr) {
    && IsLongest(subs, i, ip)
    && (forall k: nat :: IsLongest(subs, k, ip) ==> RankOf(rank, subs[k].location) <= RankOf(rank, subs[i].location))
    && (forall k: nat :: k < i && IsLongest(subs, k, ip) ==>
      RankOf(rank, subs[k].location) < RankOf(rank, subs[i].location))
  }

  /** Candidate x beats candidate y: a longer prefix, or an equal one with a higher rank. */
  predicate Beats(rank: map<nat, nat>, x: Subnet, y: Subnet) {
    x.cidr.bits > y.cidr.bits || (x.cidr.bits == y.cidr.bits && RankOf(rank, x.location) > RankOf(rank, y.location))
  }

  /** The index matchSubnet settles on after the first n candidates; subnetLocationFor is the case without ranks. */
  function BestUpTo(subs: seq<Subnet>, rank: map<nat, nat>, ip: Addr, n: nat): (best: Option<nat>)
    requires n <= |subs|
    ensures best.Some? ==> best.value < n
  {
    if n == 0 then None
    else
      var best := BestUpTo(subs, rank, ip, n - 1);
      if Covers(subs, n - 1, ip) && (best.None? || Beats(rank, subs[n - 1], subs[best.value]))
      then Some(n - 1) else best
  }

  function Best(subs: seq<Subnet>, rank: map<nat, nat>, ip: Addr): Option<nat> { BestUpTo(subs, rank, ip, |subs|) }

  /** The running best covers, nothing seen so far beats it, and it beats everything that covers before it. */
  lemma {:induction false} BestUpToSpec(subs: seq<Subnet>, rank: map<nat, nat>, ip: Addr, n: nat)
    requires n <= |subs|
    ensures var best := BestUpTo(subs, rank, ip, n);
            && (best.None? <==> forall k: nat :: k < n ==> !Covers(subs, k, ip))
            && (best.Some? ==>
                  && Covers(subs, best.value, ip)
                  && (forall k: nat :: k < n && Covers(subs, k, ip) ==> !Beats(rank, subs[k], subs[best.value]))
                  && (forall k: nat :: k < best.value && Covers(subs, k, ip) ==>
                    Beats(rank, subs[best.value], subs[k])))
  {
    if n > 0 { BestUpToSpec(subs, rank, ip, n - 1); }
  }

  /** What the running best means: a covering subnet of maximal length, then of maximal rank, then declared first. */
  lemma BestSpec(subs: seq<Subnet>, rank: map<nat, nat>, ip: Addr)
    ensures Best(subs, rank, ip).None? <==> forall k: nat :: !Covers(subs, k, ip)
    ensures forall i: nat :: Best(subs, rank, ip) == Some(i) ==> IsFirstRanked(subs, rank, i, ip)
  {
    BestUpToSpec(subs, rank, ip, |subs|);
  }

  /** Without ranks: the first declared of the longest. */
  lemma UnrankedBestSpec(subs: seq<Subnet>, ip: Addr)
    ensures Best(subs, map[], ip).None? <==> forall k: nat :: !Covers(subs, k, ip)
    ensures forall i: nat :: Best(subs, map[], ip) == Some(i) ==> IsFirstLongest(subs, i, ip)
  {
    BestUpToSpec(subs, map[], ip, |subs|);
    assert forall loc :: RankOf(map[], loc) == 0;
  }

  function LocationAt(subs: seq<Subnet>, at: Option<nat>): Option<nat>
    requires at.Some? ==> at.value < |subs|
  {
    if at.Some? then Some(subs[at.value].location) else None
  }

  /** subnetLocationFor, the scan's matcher: longest prefix, first declared among equals, no unmapping. */
  method SubnetLocationFor(subs: seq<Subnet>, ip: Addr) returns (best: Option<nat>)
    ensures best == LocationAt(subs, Best(subs, map[], ip))
  {
    best := None;
    var bestBits: int := -1;
    ghost var at: Option<nat> := None;
    for i := 0 to |subs|
      invariant at == BestUpTo(subs, map[], ip, i) && best == LocationAt(subs, at)
      invariant bestBits == if at.Some? then subs[at.value].cidr.bits else -1
    {
      var p := subs[i].cidr;
      if Contains(p, ip) && p.bits > bestBits {
        bestBits, best, at := p.bits, Some(subs[i].location), Some(i);
      }
    }
  }

  /** matchSubnet, the Data Quality matcher: unmap, longest prefix, then the more specific location kind. */
  method MatchSubnet(subs: seq<Subnet>, rank: map<nat, nat>, addr: Addr) returns (best: Option<nat>)
    ensures best == SiteFor(subs, rank, addr)
  {
    var ip := Unmap(addr);
    best := None;
    var bestBits: int, bestRank: int := -1, -1;
    ghost var at: Option<nat> := None;
    for i := 0 to |subs|
      invariant at == BestUpTo(subs, rank, ip, i) && best == LocationAt(subs, at)
      invariant bestBits == if at.Some? then subs[at.value].cidr.bits else -1
      invariant bestRank == if at.Some? then RankOf(rank, subs[at.value].location) else -1
    {
      var c := subs[i];
      if Contains(c.cidr, ip) {
        var b, r := c.cidr.bits, RankOf(rank, c.location);
        if b > bestBits || (b == bestBits && r > bestRank) {
          best, bestBits, bestRank, at := Some(c.location), b, r, Some(i);
        }
      }
    }
  }

  /** What matchSubnet returns. */
  function SiteFor(subs: seq<Subnet>, rank: map<nat, nat>, addr: Addr): Option<nat> {
    LocationAt(subs, Best(subs, rank, Unmap(addr)))
  }

  /** The two matchers give the same answer for an address. */
  predicate Agree(subs: seq<Subnet>, rank: map<nat, nat>, ip: Addr) {
    LocationAt(subs, Best(subs, map[], ip)) == SiteFor(subs, rank, ip)
  }

  /**
    For every address, subnet list and rank table: the two matchers agree exactly when both or neither
    find a covering subnet, the scan's under the address as given and the other's under the unmapped
    one, and the first longest of the former lies at the site of the first ranked of the latter.
   */
  lemma MatchersAgreeExactly(subs: seq<Subnet>, rank: map<nat, nat>, ip: Addr)
    ensures Agree(subs, rank, ip) <==>
              && ((exists i: nat :: Covers(subs, i, ip)) <==> (exists k: nat :: Covers(subs, k, Unmap(ip))))
              && forall i: nat, k: nat :: IsFirstLongest(subs, i, ip) && IsFirstRanked(subs, rank, k, Unmap(ip)) ==>
                   subs[i].location == subs[k].location
  {
    UnrankedBestSpec(subs, ip);
    BestSpec(subs, rank, Unmap(ip));
    FirstLongestIsUnique(subs, ip);
    FirstRankedIsUnique(subs, rank, Unmap(ip));
  }

  lemma FirstLongestIsUnique(subs: seq<Subnet>, ip: Addr)
    ensures forall i: nat, k: nat :: IsFirstLongest(subs, i, ip) && IsFirstLongest(subs, k, ip) ==> i == k
  {
  }

  lemma FirstRankedIsUnique(subs: seq<Subnet>, rank: map<nat, nat>, ip: Addr)
    ensures forall i: nat, k: nat :: IsFirstRanked(subs, rank, i, ip) && IsFirstRanked(subs, rank, k, ip) ==> i == k
  {
  }

  /**
    On an address that is not IPv4-mapped both find the same network or none, so they agree exactly when
    the first declared longest subnet already has the highest location rank among the longest ones.
   */
  lemma PlainAddressAgreesExactly(subs: seq<Subnet>, rank: map<nat, nat>, ip: Addr)
    requires Unmap(ip) == ip
    ensures var scan, quality := Best(subs, map[], ip), Best(subs, rank, ip);
            && (scan.Some? <==> quality.Some?)
            && (scan.Some? ==>
                  && IsValid(subs[scan.value].cidr) && IsValid(subs[quality.value].cidr)
                  && Masked(subs[scan.value].cidr) == Masked(subs[quality.value].cidr))
            && (Agree(subs, rank, ip) <==>
                  (scan.Some? ==> forall k: nat :: IsLongest(subs, k, ip) ==>
                     RankOf(rank, subs[k].location) <= RankOf(rank, subs[scan.value].location)))
  {
    UnrankedBestSpec(subs, ip);
    BestSpec(subs, rank, ip);
    var scan, quality := Best(subs, map[], ip), Best(subs, rank, ip);
    if scan.Some? {
      EqualLengthSameNetwork(subs[scan.value].cidr, subs[quality.value].cidr, ip);
    }
  }

  /**
    On an IPv4-mapped address the scan's matcher meets only V6 prefixes and the other only V4 ones, so
    they agree exactly when neither kind covers it, or both do and name the same site.
   */
  lemma MappedAddressAgreesExactly(subs: seq<Subnet>, rank: map<nat, nat>, ip: Addr)
    requires Unmap(ip) != ip
    ensures forall i: nat :: Covers(subs, i, ip) ==> subs[i].cidr.addr.V6?
    ensures forall k: nat :: Covers(subs, k, Unmap(ip)) ==> subs[k].cidr.addr.V4?
    ensures Agree(subs, rank, ip) <==>
              || (forall k: nat :: !Covers(subs, k, ip) && !Covers(subs, k, Unmap(ip)))
              || (exists i: nat, k: nat :: IsFirstLongest(subs, i, ip) && IsFirstRanked(subs, rank, k, Unmap(ip))
                                           && subs[i].location == subs[k].location)
  {
    UnrankedBestSpec(subs, ip);
    BestSpec(subs, rank, Unmap(ip));
    MatchersAgreeExactly(subs, rank, ip);
    var scan, quality := Best(subs, map[], ip), Best(subs, rank, Unmap(ip));
    if scan.Some? && quality.Some? {
      assert IsFirstLongest(subs, scan.value, ip) && IsFirstRanked(subs, rank, quality.value, Unmap(ip));
    }
  }

  /**
    Where no V6 prefix covers it, an IPv4-mapped address is invisible to the scan, so any V4 cover splits
    the matchers.
   */
  lemma MappedAddressSplitsMatchers(subs: seq<Subnet>, rank: map<nat, nat>, ip: Addr)
    requires Unmap(ip) != ip && forall k: nat :: !Covers(subs, k, ip)
    ensures Best(subs, map[], ip) == None
    ensures Agree(subs, rank, ip) <==> forall k: nat :: !Covers(subs, k, Unmap(ip))
  {
    UnrankedBestSpec(subs, ip);
    BestSpec(subs, rank, Unmap(ip));
  }

  /** No network is declared at two sites. */
  ghost predicate OneSitePerCidr(subs: seq<Subnet>) {
    forall i, k :: 0 <= i < k < |subs| && IsValid(subs[i].cidr) && IsValid(subs[k].cidr)
      && Masked(subs[i].cidr) == Masked(subs[k].cidr)
      ==> subs[i].location == subs[k].location
  }

  /**
    When no CIDR is declared at two sites the ranks do not matter: the matchers agree exactly when both
    or neither find a cover and every longest one of the address lies at the site of every longest one
    of the unmapped address.
   */
  lemma UniqueCidrsAgreeExactly(subs: seq<Subnet>, rank: map<nat, nat>, ip: Addr)
    requires OneSitePerCidr(subs)
    ensures Agree(subs, rank, ip) <==>
              && ((exists i: nat :: Covers(subs, i, ip)) <==> (exists k: nat :: Covers(subs, k, Unmap(ip))))
              && forall i: nat, k: nat :: IsLongest(subs, i, ip) && IsLongest(subs, k, Unmap(ip)) ==>
                   subs[i].location == subs[k].location
  {
    UnrankedBestSpec(subs, ip);
    BestSpec(subs, rank, Unmap(ip));
    LongestShareSite(subs, ip);
    LongestShareSite(subs, Unmap(ip));
    var scan, quality := Best(subs, map[], ip), Best(subs, rank, Unmap(ip));
    if scan.Some? && quality.Some? {
      assert IsLongest(subs, scan.value, ip) && IsLongest(subs, quality.value, Unmap(ip));
    }
  }

  lemma LongestShareSite(subs: seq<Subnet>, ip: Addr)
    requires OneSitePerCidr(subs)
    ensures forall i: nat, k: nat :: IsLongest(subs, i, ip) && IsLongest(subs, k, ip) ==>
        subs[i].location == subs[k].location
  {
    forall i: nat, k: nat | IsLongest(subs, i, ip) && IsLongest(subs, k, ip)
      ensures subs[i].location == subs[k].location
    {
      EqualLengthSameNetwork(subs[i].cidr, subs[k].cidr, ip);
      if i < k { assert Masked(subs[i].cidr) == Masked(subs[k].cidr); }
    }
  }

  /** In particular they always agree there on an address that is not IPv4-mapped. */
  lemma MatchersAgreeOnUniqueCidrs(subs: seq<Subnet>, rank: map<nat, nat>, ip: Addr)
    requires Unmap(ip) == ip && OneSitePerCidr(subs)
    ensures Agree(subs, rank, ip)
  {
    UniqueCidrsAgreeExactly(subs, rank, ip);
    LongestShareSite(subs, ip);
  }

  /** A location without a rank loses a tie to any ranked one. */
  lemma UnrankedLosesTies(subs: seq<Subnet>, rank: map<nat, nat>, addr: Addr, i: nat, k: nat)
    requires IsLongest(subs, i, Unmap(addr)) && IsLongest(subs, k, Unmap(addr))
    requires subs[i].location !in rank && subs[k].location in rank && rank[subs[k].location] > 0
    ensures SiteFor(subs, rank, addr).Some? && SiteFor(subs, rank, addr) != Some(subs[i].location)
  {
    BestSpec(subs, rank, Unmap(addr));
  }

  // ----- Reconciling unassigned devices -----

  datatype Placed = Placed(id: nat, ip: Option<Addr>, location: Option<nat>)

  ghost predicate UniqueIds(devs: seq<Placed>) {
    forall i, k :: 0 <= i < k < |devs| ==> devs[i].id != devs[k].id
  }

  /** The site an unassigned device is matched to. */
  function Target(subs: seq<Subnet>, rank: map<nat, nat>, dev: Placed): Option<nat> {
    if dev.location.Some? || dev.ip.None? then None else SiteFor(subs, rank, dev.ip.value)
  }

  function Unassigned(devs: seq<Placed>): nat {
    if devs == [] then 0 else Unassigned(devs[..|devs| - 1]) + if devs[|devs| - 1].location.None? then 1 else 0
  }

  /** The ids matched to a site, in device order. */
  function MatchedTo(subs: seq<Subnet>, rank: map<nat, nat>, devs: seq<Placed>, loc: nat): seq<nat> {
    if devs == [] then []
    else
      var dev := devs[|devs| - 1];
      MatchedTo(subs, rank, devs[..|devs| - 1], loc) + if Target(subs, rank, dev) == Some(loc) then [dev.id] else []
  }

  function Group(byLoc: map<nat, seq<nat>>, loc: nat): seq<nat> { if loc in byLoc then byLoc[loc] else [] }

  /** The per-site counts, added up. */
  ghost function Total(byLoc: map<nat, seq<nat>>, keys: set<nat>): nat {
    if keys == {} then 0
    else
      var k :| k in keys;
      |Group(byLoc, k)| + Total(byLoc, keys - {k})
  }

  lemma {:induction false} TotalAt(byLoc: map<nat, seq<nat>>, keys: set<nat>, k: nat)
    requires k in keys
    ensures Total(byLoc, keys) == |Group(byLoc, k)| + Total(byLoc, keys - {k})
  {
    var first :| first in keys && Total(byLoc, keys) == |Group(byLoc, first)| + Total(byLoc, keys - {first});
    if first != k {
      TotalAt(byLoc, keys - {first}, k);
      TotalAt(byLoc, keys - {k}, first);
      assert keys - {first} - {k} == keys - {k} - {first};
    }
  }

  lemma {:induction false} TotalSame(x: map<nat, seq<nat>>, y: map<nat, seq<nat>>, keys: set<nat>)
    requires forall k :: k in keys ==> Group(x, k) == Group(y, k)
    ensures Total(x, keys) == Total(y, keys)
  {
    if keys != {} {
      var k :| k in keys;
      TotalSame(x, y, keys - {k});
      TotalAt(x, keys, k);
      TotalAt(y, keys, k);
    }
  }

  lemma GroupGrows(byLoc: map<nat, seq<nat>>, loc: nat, id: nat)
    ensures var byLoc' := byLoc[loc := Group(byLoc, loc) + [id]];
            Total(byLoc', byLoc'.Keys) == Total(byLoc, byLoc.Keys) + 1
  {
    var byLoc' := byLoc[loc := Group(byLoc, loc) + [id]];
    TotalAt(byLoc', byLoc'.Keys, loc);
    TotalSame(byLoc, byLoc', byLoc.Keys - {loc});
    assert byLoc'.Keys - {loc} == byLoc.Keys - {loc};
    if loc in byLoc { TotalAt(byLoc, byLoc.Keys, loc); } else { assert byLoc.Keys - {loc} == byLoc.Keys; }
  }

  /**
    The matching half of reconcileSites: every unassigned device is either grouped under the site
    its address matches or counted unmatched, and the per-site counts add up to the matched ones.
   */
  method PlanReconcile(subs: seq<Subnet>, rank: map<nat, nat>, devs: seq<Placed>)
    returns (byLoc: map<nat, seq<nat>>, matched: nat, unmatched: nat)
    ensures Groups(subs, rank, devs, byLoc)
    ensures matched + unmatched == Unassigned(devs) && unmatched == UnmatchedCount(subs, rank, devs)
    ensures Total(byLoc, byLoc.Keys) == matched
  {
    byLoc, matched, unmatched := map[], 0, 0;
    for k := 0 to |devs|
      invariant Groups(subs, rank, devs[..k], byLoc)
      invariant matched + unmatched == Unassigned(devs[..k]) && unmatched == UnmatchedCount(subs, rank, devs[..k])
      invariant Total(byLoc, byLoc.Keys) == matched
    {
      var d := devs[k];
      assert devs[..k + 1][..k] == devs[..k];
      if d.location.Some? {
        continue;
      }
      if d.ip.None? {
        unmatched := unmatched + 1;
        continue;
      }
      var loc := MatchSubnet(subs, rank, d.ip.value);
      assert loc == Target(subs, rank, d);
      if loc.None? {
        unmatched := unmatched + 1;
        continue;
      }
      GroupsGrow(subs, rank, devs, k, byLoc, loc.value);
      GroupGrows(byLoc, loc.value, d.id);
      byLoc := byLoc[loc.value := Group(byLoc, loc.value) + [d.id]];
      matched := matched + 1;
    }
    assert devs[..|devs|] == devs;
  }

  /** The map holds exactly the non-empty groups of matched ids. */
  ghost predicate Groups(subs: seq<Subnet>, rank: map<nat, nat>, devs: seq<Placed>, byLoc: map<nat, seq<nat>>) {
    && (forall loc: nat :: Group(byLoc, loc) == MatchedTo(subs, rank, devs, loc))
    && (forall loc :: loc in byLoc ==> byLoc[loc] != [])
  }

  lemma GroupsGrow(
    subs: seq<Subnet>, rank: map<nat, nat>, devs: seq<Placed>, k: nat, byLoc: map<nat, seq<nat>>, loc: nat
  )
    requires k < |devs| && Groups(subs, rank, devs[..k], byLoc) && Target(subs, rank, devs[k]) == Some(loc)
    ensures Groups(subs, rank, devs[..k + 1], byLoc[loc := Group(byLoc, loc) + [devs[k].id]])
  {
    var more, seen := byLoc[loc := Group(byLoc, loc) + [devs[k].id]], devs[..k + 1];
    forall l: nat ensures Group(more, l) == MatchedTo(subs, rank, seen, l) {
      GroupGains(subs, rank, devs, k, byLoc, loc, l);
    }
  }

  lemma GroupGains(
    subs: seq<Subnet>, rank: map<nat, nat>, devs: seq<Placed>, k: nat, byLoc: map<nat, seq<nat>>, loc: nat,
    l: nat
  )
    requires k < |devs| && Target(subs, rank, devs[k]) == Some(loc)
    requires Group(byLoc, l) == MatchedTo(subs, rank, devs[..k], l)
    ensures Group(byLoc[loc := Group(byLoc, loc) + [devs[k].id]], l) == MatchedTo(subs, rank, devs[..k + 1], l)
  {
    var more := devs[..k + 1];
    assert more[..|more| - 1] == devs[..k] && more[|more| - 1] == devs[k];
  }

  /** BulkAssignClassification with only a location. */
  function BulkAssign(devs: seq<Placed>, ids: seq<nat>, loc: nat): (out: seq<Placed>)
    ensures |out| == |devs|
  {
    seq(|devs|, i requires 0 <= i < |devs| => if devs[i].id in ids then devs[i].(location := Some(loc)) else devs[i])
  }

  /** The outcome promised by the action: matched devices move to their match, all others stay. */
  function Reconciled(subs: seq<Subnet>, rank: map<nat, nat>, devs: seq<Placed>): (out: seq<Placed>)
    ensures |out| == |devs|
  {
    seq(|devs|, i requires 0 <= i < |devs| =>
      if Target(subs, rank, devs[i]).Some? then devs[i].(location := Target(subs, rank, devs[i])) else devs[i])
  }

  lemma {:induction false} InGroup(subs: seq<Subnet>, rank: map<nat, nat>, devs: seq<Placed>, loc: nat, i: nat)
    requires UniqueIds(devs) && i < |devs|
    ensures devs[i].id in MatchedTo(subs, rank, devs, loc) <==> Target(subs, rank, devs[i]) == Some(loc)
  {
    var init, last := devs[..|devs| - 1], devs[|devs| - 1];
    if i < |init| {
      InGroup(subs, rank, init, loc, i);
    } else {
      MatchedIdsAreDevices(subs, rank, init, loc);
    }
  }

  lemma {:induction false} MatchedIdsAreDevices(subs: seq<Subnet>, rank: map<nat, nat>, devs: seq<Placed>, loc: nat)
    ensures forall id :: id in MatchedTo(subs, rank, devs, loc) ==> exists i :: 0 <= i < |devs| && devs[i].id == id
  {
    if devs != [] {
      var init := devs[..|devs| - 1];
      MatchedIdsAreDevices(subs, rank, init, loc);
      forall id | id in MatchedTo(subs, rank, devs, loc)
        ensures exists i :: 0 <= i < |devs| && devs[i].id == id
      {
        if id in MatchedTo(subs, rank, init, loc) {
          var i :| 0 <= i < |init| && init[i].id == id;
          assert devs[i].id == id;
        } else {
          assert devs[|devs| - 1].id == id;
        }
      }
    }
  }

  /** The apply half: one bulk update per site, in any map order, adds up to the promised outcome. */
  method ApplyReconcile(
    subs: seq<Subnet>, rank: map<nat, nat>, devs: seq<Placed>
  ) returns (out: seq<Placed>, unmatched: nat)
    requires UniqueIds(devs)
    ensures out == Reconciled(subs, rank, devs) && unmatched == UnmatchedCount(subs, rank, devs)
  {
    var byLoc, matched, unmatched' := PlanReconcile(subs, rank, devs);
    out, unmatched := devs, unmatched';
    forall i | 0 <= i < |devs| && Target(subs, rank, devs[i]).Some?
      ensures Target(subs, rank, devs[i]).value in byLoc
    {
      var loc := Target(subs, rank, devs[i]).value;
      InGroup(subs, rank, devs, loc, i);
      assert Group(byLoc, loc) != [];
    }
    var rest := byLoc.Keys;
    while rest != {}
      invariant rest <= byLoc.Keys
      invariant |out| == |devs|
      invariant forall i :: 0 <= i < |devs| ==>
                  out[i] == if Target(subs, rank, devs[i]).Some? && Target(subs, rank, devs[i]).value !in rest
                            then devs[i].(location := Target(subs, rank, devs[i])) else devs[i]
      decreases rest
    {
      var loc :| loc in rest;
      forall i | 0 <= i < |devs|
        ensures devs[i].id in byLoc[loc] <==> Target(subs, rank, devs[i]) == Some(loc)
      {
        InGroup(subs, rank, devs, loc, i);
        assert Group(byLoc, loc) == MatchedTo(subs, rank, devs, loc);
      }
      out := BulkAssign(out, byLoc[loc], loc);
      rest := rest - {loc};
    }
  }

  /**
    A device moves exactly if it has an address, no site, and some subnet covers the unmapped address;
    it then moves to the site of the first of the highest-ranked among the longest ones. Its id and
    address stay.
   */
  lemma ReconcileMovesOnlyMatches(subs: seq<Subnet>, rank: map<nat, nat>, devs: seq<Placed>, i: nat)
    requires i < |devs|
    ensures var before, after := devs[i], Reconciled(subs, rank, devs)[i];
            && after == before.(location := after.location)
            && (before.location.Some? || before.ip.None? ==> after == before)
            && (before.location.None? && before.ip.Some? ==>
                  && (after.location.Some? <==> exists k: nat :: Covers(subs, k, Unmap(before.ip.value)))
                  && forall k: nat :: IsFirstRanked(subs, rank, k, Unmap(before.ip.value)) ==>
                       after.location == Some(subs[k].location))
  {
    if devs[i].ip.Some? {
      BestSpec(subs, rank, Unmap(devs[i].ip.value));
      FirstRankedIsUnique(subs, rank, Unmap(devs[i].ip.value));
    }
  }

  /** A second pass matches nothing and leaves the same devices unmatched. */
  lemma {:induction false} ReconcileIsIdempotent(subs: seq<Subnet>, rank: map<nat, nat>, devs: seq<Placed>)
    ensures var after := Reconciled(subs, rank, devs);
            && (forall loc: nat :: MatchedTo(subs, rank, after, loc) == [])
            && Reconciled(subs, rank, after) == after
            && Unassigned(after) == UnmatchedCount(subs, rank, devs) == UnmatchedCount(subs, rank, after)
  {
    if devs != [] {
      var init := devs[..|devs| - 1];
      ReconcileIsIdempotent(subs, rank, init);
      assert Reconciled(subs, rank, devs)[..|devs| - 1] == Reconciled(subs, rank, init);
      assert Reconciled(subs, rank, Reconciled(subs, rank, devs)) == Reconciled(subs, rank, devs);
    }
  }

  /** Unassigned devices without a match. */
  function UnmatchedCount(subs: seq<Subnet>, rank: map<nat, nat>, devs: seq<Placed>): nat {
    if devs == [] then 0
    else
      var dev := devs[|devs| - 1];
      UnmatchedCount(subs, rank, devs[..|devs| - 1])
      + if dev.location.None? && Target(subs, rank, dev).None? then 1 else 0
  }
}
