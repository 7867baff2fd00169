/**
  Connecting to a domain: a race over its candidates and, if they all fail, a second race over what an
  international resolution yields.  This is where the race, the resolver and its cache meet.
*/
module ConnectFallback {
  import opened Common
  import opened RecencyList
  import opened Caches
  import opened HappyEyeballs
  import opened DnsResolvers

  datatype Outcome =
    | Connected(ip: IpAddr, international: bool)
    | NoCandidates
    | ResolveFailed
    | NoInternational   // the error raised when the second resolution succeeds with an empty list
    | BothFailed

  /** What the world does in one resolution: DoH's answer (None for an error), probe latencies, clock readings. */
  datatype Resolution = Resolution(doh: Option<seq<IpAddr>>, latency: nat -> nat, t: Times)

  predicate HasAnswer(r: Resolution) { r.doh.Some? && r.doh.value != [] }

  ghost predicate SomeUp(ips: seq<IpAddr>, up: nat -> bool) {
    exists i: nat :: i < |ips| && up(i)
  }

  /** ip is the address of an attempt that succeeds. */
  ghost predicate Reaches(ips: seq<IpAddr>, up: nat -> bool, ip: IpAddr) {
    exists i: nat :: i < |ips| && up(i) && ips[i] == ip
  }

  /** list is what the resolution's answer becomes, with or without IPv6 probed; nothing if there is no answer. */
  ghost predicate Resolves(r: Resolution, isPublic: IpAddr -> bool, timeout: nat, list: seq<IpAddr>) {
    && (list != [] <==> HasAnswer(r))
    && (list != [] ==> exists probe: bool :: Answered(r.doh.value, isPublic, r.latency, probe, timeout, list))
  }

  /** The cache has this list in front for the domain, or none if it has no room for any. */
  ghost predicate CachedInFront(
    cfg: Config, items: seq<(string, Entry<seq<IpAddr>>)>, domain: string, list: seq<IpAddr>)
  {
    && (cfg.maxEntries >= 1 ==> HasKey(items, domain))
    && (HasKey(items, domain) ==> items[0].0 == domain && items[0].1.value == list)
  }

  /** One race over a list: an address that was reached, or None when none can be. */
  method Race(ips: seq<IpAddr>, up: nat -> bool, t0: nat) returns (winner: Option<IpAddr>)
    requires ips != []
    ensures winner.Some? <==> SomeUp(ips, up)
    ensures winner.Some? ==> Reaches(ips, up, winner.value)
  {
    var status, started, events := RunHappyEyeballs(|ips|, up, t0);
    winner := if status.Won? then Some(ips[status.index]) else None;
  }

  /**
    The fallback.  The failed list is dropped first, so whatever happens it is not served again: the
    cache ends with the international list, or without one for the domain.
   */
  method GoInternational(
    resolver: DnsResolver, domain: string, second: Resolution, isPublic: IpAddr -> bool, up: nat -> bool, t0: nat)
    returns (r: Outcome, ghost international: seq<IpAddr>)
    requires resolver.Valid()
    modifies resolver.cache, resolver.cache.clock
    modifies resolver.ipProber`breaker, resolver.ipProber.bestIpCache, resolver.ipProber.bestIpCache.clock
    ensures resolver.Valid()
    ensures Resolves(second, isPublic, resolver.ipProber.probeTimeout, international)
    ensures international != [] ==>
      Answered(second.doh.value, isPublic, second.latency, old(resolver.ProbesNow(second.t)),
               resolver.ipProber.probeTimeout, international)
    ensures r == ResolveFailed <==> !HasAnswer(second)
    ensures r.Connected? <==> HasAnswer(second) && SomeUp(international, up)
    ensures r.Connected? ==> r.international && Reaches(international, up, r.ip)
    ensures r == BothFailed <==> HasAnswer(second) && !SomeUp(international, up)
    ensures if HasAnswer(second) then CachedInFront(resolver.cache.cfg, resolver.cache.Items(), domain, international)
            else !HasKey(resolver.cache.Items(), domain)
  {
    resolver.Invalidate(domain);
    var list := resolver.ResolveInternational(domain, second.doh, isPublic, second.latency, second.t);
    if list.None? {
      return ResolveFailed, [];
    }
    if list.value == [] {
      return NoInternational, [];
    }
    international := list.value;
    assert Resolves(second, isPublic, resolver.ipProber.probeTimeout, international);
    var winner := Race(list.value, up, t0);
    r := if winner.Some? then Connected(winner.value, true) else BothFailed;
  }

  /**
    `connect_with_fallback` of both connectors.  It connects exactly when a candidate accepts or, after
    all of them failed, an international address does; the error about an empty international answer is
    never raised.
   */
  method ConnectWithFallback(
    resolver: DnsResolver, domain: string, first: Resolution, second: Resolution, isPublic: IpAddr -> bool,
    up: nat -> bool, upThere: nat -> bool, t0: nat, t1: nat)
    returns (r: Outcome, ghost candidates: seq<IpAddr>, ghost international: seq<IpAddr>)
    requires resolver.Valid()
    modifies resolver.cache, resolver.cache.clock
    modifies resolver.ipProber`breaker, resolver.ipProber.bestIpCache, resolver.ipProber.bestIpCache.clock
    ensures resolver.Valid()
    ensures var hit := GetResult(resolver.cache.cfg, old(resolver.cache.Abs()), domain, first.t.checked);
            if hit.Some? then candidates == hit.value && candidates != []
            else Resolves(first, isPublic, resolver.ipProber.probeTimeout, candidates)
    ensures r == NoCandidates <==> candidates == []
    ensures r.Connected? && !r.international <==> SomeUp(candidates, up)
    ensures r.Connected? && !r.international ==> Reaches(candidates, up, r.ip)
    ensures r.Connected? && r.international ==> Reaches(international, upThere, r.ip)
    ensures candidates != [] && !SomeUp(candidates, up) ==>
      && Resolves(second, isPublic, resolver.ipProber.probeTimeout, international)
      && (r == ResolveFailed <==> !HasAnswer(second))
      && (r.Connected? <==> HasAnswer(second) && SomeUp(international, upThere))
      && (if HasAnswer(second) then CachedInFront(resolver.cache.cfg, resolver.cache.Items(), domain, international)
          else !HasKey(resolver.cache.Items(), domain))
    ensures r != NoInternational
  {
    international := [];
    var list := resolver.GetCandidates(domain, first.doh, isPublic, first.latency, first.t);
    candidates := list;
    ghost var hit := GetResult(resolver.cache.cfg, old(resolver.cache.Abs()), domain, first.t.checked);
    assert hit.None? ==> Resolves(first, isPublic, resolver.ipProber.probeTimeout, candidates);
    if list == [] {
      return NoCandidates, candidates, international;
    }
    var winner := Race(list, up, t0);
    if winner.Some? {
      return Connected(winner.value, false), candidates, international;
    }
    r, international := GoInternational(resolver, domain, second, isPublic, upThere, t1);
  }

  /** `connect_with_ips`: the same over addresses resolved beforehand, the plain form when there are none. */
  method ConnectWithIps(
    resolver: DnsResolver, domain: string, ips: seq<IpAddr>, first: Resolution, second: Resolution,
    isPublic: IpAddr -> bool, up: nat -> bool, upThere: nat -> bool, t0: nat, t1: nat)
    returns (r: Outcome, ghost candidates: seq<IpAddr>, ghost international: seq<IpAddr>)
    requires resolver.Valid()
    modifies resolver.cache, resolver.cache.clock
    modifies resolver.ipProber`breaker, resolver.ipProber.bestIpCache, resolver.ipProber.bestIpCache.clock
    ensures resolver.Valid()
    ensures var hit := GetResult(resolver.cache.cfg, old(resolver.cache.Abs()), domain, first.t.checked);
            if ips != [] then candidates == ips
            else if hit.Some? then candidates == hit.value && candidates != []
            else Resolves(first, isPublic, resolver.ipProber.probeTimeout, candidates)
    ensures r == NoCandidates <==> candidates == []
    ensures r.Connected? && !r.international <==> SomeUp(candidates, up)
    ensures r.Connected? && !r.international ==> Reaches(candidates, up, r.ip)
    ensures r.Connected? && r.international ==> Reaches(international, upThere, r.ip)
    ensures candidates != [] && !SomeUp(candidates, up) ==>
      && Resolves(second, isPublic, resolver.ipProber.probeTimeout, international)
      && (r == ResolveFailed <==> !HasAnswer(second))
      && (r.Connected? <==> HasAnswer(second) && SomeUp(international, upThere))
      && (if HasAnswer(second) then CachedInFront(resolver.cache.cfg, resolver.cache.Items(), domain, international)
          else !HasKey(resolver.cache.Items(), domain))
    ensures r != NoInternational
  {
    if ips == [] {
      r, candidates, international :=
        ConnectWithFallback(resolver, domain, first, second, isPublic, up, upThere, t0, t1);
      return;
    }
    candidates, international := ips, [];
    var winner := Race(ips, up, t0);
    if winner.Some? {
      return Connected(winner.value, false), candidates, international;
    }
    r, international := GoInternational(resolver, domain, second, isPublic, upThere, t1);
  }
}
