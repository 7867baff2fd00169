/** The resolver: cached address lists, filled from DoH answers through the prober's ranking. */
module DnsResolvers {
  import opened Common
  import opened RecencyList
  import opened Caches
  import opened IpProbers

  const MAX_REPROBED: nat := 50

  /** `filter_ips` at the public level; isPublic is its test.  Filtering everything out keeps everything. */
  function FilterIps(ips: seq<IpAddr>, isPublic: IpAddr -> bool): (r: seq<IpAddr>)
    ensures ips != [] ==> r != []
    ensures r == ips || forall ip :: ip in r <==> ip in ips && isPublic(ip)
  {
    var kept := Filter(isPublic, ips);
    FilterMembers(isPublic, ips);
    if kept == [] then ips else kept
  }

  /** The filter leaves, in order, the public addresses, or every address if none is public. */
  lemma WhatFilterLeaves(ips: seq<IpAddr>, isPublic: IpAddr -> bool) returns (at: seq<nat>)
    ensures PickedFrom(FilterIps(ips, isPublic), ips, at)
    ensures forall j: nat :: j in at <==>
      j < |ips| && (isPublic(ips[j]) || forall k :: 0 <= k < |ips| ==> !isPublic(ips[k]))
  {
    FilterMembers(isPublic, ips);
    if Filter(isPublic, ips) == [] {
      at := EveryPlace(ips);
    } else {
      at := FilterPicks(isPublic, ips);
    }
  }

  /** list is what an answer becomes: a ranking of its filtered addresses, or all of it if none is reachable. */
  ghost predicate Answered(
    ips: seq<IpAddr>, isPublic: IpAddr -> bool, latency: nat -> nat, probeIpv6: bool, timeout: nat, list: seq<IpAddr>)
  {
    exists ranked :: Ranks(Timed(ToProbe(FilterIps(ips, isPublic), probeIpv6), latency), timeout, ranked)
      && list == if ranked == [] then ips else ranked
  }

  /** list is a ranking of some of the answer's public addresses, or of all if none is public. */
  ghost predicate Reranked(
    ips: seq<IpAddr>, isPublic: IpAddr -> bool, latency: nat -> nat, timeout: nat, list: seq<IpAddr>)
  {
    list != [] && exists probe: bool :: Ranks(Timed(ToProbe(FilterIps(ips, isPublic), probe), latency), timeout, list)
  }

  /** What the sort of the cached domains by access time yields: each once, most recently accessed first. */
  ghost predicate AccessListing(listing: seq<string>, items: seq<(string, Entry<seq<IpAddr>>)>) {
    && Distinct(listing)
    && (forall d :: d in listing <==> HasKey(items, d))
    && forall i, j :: 0 <= i < j < |listing| ==> AccessedAt(items, listing[i]) >= AccessedAt(items, listing[j])
  }

  ghost function AccessedAt(items: seq<(string, Entry<seq<IpAddr>>)>, d: string): nat {
    if HasKey(items, d) then Lookup(items, d).lastAccessed else 0
  }

  /** When each step of a call reads the clock. */
  datatype Times = Times(
    now: nat, checked: nat, started: nat, recorded: nat,
    bestStored: nat, bestEvict: nat, bestReading: nat, stored: nat, evictAt: nat, reading: nat)

  ghost predicate NonEmptyLists(items: seq<(string, Entry<seq<IpAddr>>)>) {
    forall p :: p in items ==> p.1.value != []
  }

  /** No operation of the cache puts an empty list in it, if no insert does. */
  lemma ApplyKeepsNonEmpty(cfg: Config, s: State<string, seq<IpAddr>>, op: Op<string, seq<IpAddr>>)
    requires NonEmptyLists(s.items) && (op.Insert? ==> op.value != [])
    ensures NonEmptyLists(Caches.Apply(cfg, s, op).items)
  {
    var s' := Caches.Apply(cfg, s, op);
    forall p | p in s'.items ensures p.1.value != [] {
      if op.Get? && HasKey(s.items, op.key) && p.0 == op.key {
        assert (op.key, Lookup(s.items, op.key)) in s.items;
      }
    }
  }

  /** s' is s with list inserted for the domain; another cache may have fixed the clock's origin before. */
  ghost predicate Stored(
    cfg: Config, s: State<string, seq<IpAddr>>, s': State<string, seq<IpAddr>>,
    domain: string, list: seq<IpAddr>, t: Times)
  {
    exists base: Option<nat> ::
      s' == Caches.Apply(
        cfg, State(s.items, s.lastEvictNs, base, s.skipped), Op.Insert(domain, list, t.stored, t.evictAt, t.reading))
  }

  /** With room for one domain the one just stored is there, in front. */
  ghost predicate InFront(cfg: Config, s': State<string, seq<IpAddr>>, domain: string, list: seq<IpAddr>, t: Times) {
    && (cfg.maxEntries >= 1 ==> HasKey(s'.items, domain))
    && (HasKey(s'.items, domain) ==> s'.items[0] == (domain, Entry(list, t.stored, t.stored)))
  }

  /** Replacing the list of a cached domain, within the limit, changes nothing for the others. */
  lemma ReplacingKeepsOthers(
    cfg: Config, s: State<string, seq<IpAddr>>, s': State<string, seq<IpAddr>>,
    domain: string, list: seq<IpAddr>, t: Times)
    requires Stored(cfg, s, s', domain, list, t) && HasKey(s.items, domain) && |s.items| <= cfg.maxEntries
    ensures |s'.items| <= cfg.maxEntries && HasKey(s'.items, domain) && Lookup(s'.items, domain).value == list
    ensures forall d :: d != domain && HasKey(s.items, d) ==>
      HasKey(s'.items, d) && Lookup(s'.items, d) == Lookup(s.items, d)
  {
    var base: Option<nat> :|
      s' == Caches.Apply(
        cfg, State(s.items, s.lastEvictNs, base, s.skipped), Op.Insert(domain, list, t.stored, t.evictAt, t.reading));
    var rest := DropKeys(s.items, {domain});
    var e := Entry(list, t.stored, t.stored);
    DropPresentKey(s.items, domain);
    assert s'.items == [(domain, e)] + rest;
    assert s'.items[0].0 == domain;
    forall d | d != domain && HasKey(s.items, d)
      ensures HasKey(s'.items, d) && Lookup(s'.items, d) == Lookup(s.items, d)
    {
      DropKeysLookup(s.items, {domain}, d);
      InFrontLookup((domain, e), rest, d);
    }
  }

  lemma TakenOut(s: seq<string>, k: nat)
    requires k < |s| && Distinct(s)
    ensures Distinct(s[..k] + s[k + 1..])
    ensures forall d :: d in s[..k] + s[k + 1..] <==> d in s && d != s[k]
  {
    var rest := s[..k] + s[k + 1..];
    forall d ensures d in rest <==> d in s && d != s[k] {
      if d in s && d != s[k] {
        var i :| 0 <= i < |s| && s[i] == d;
        assert rest[if i < k then i else i - 1] == d;
      }
    }
  }

  lemma Dropped<E(!new)>(items: seq<(string, E)>, k: string)
    ensures !HasKey(DropKeys(items, {k}), k)
  {
    var rest := DropKeys(items, {k});
    assert forall i :: 0 <= i < |rest| ==> rest[i] in rest;
  }

  class DnsResolver {
    const ipProber: IpProber
    const cache: EvictableCache<string, seq<IpAddr>>

    ghost predicate Valid()
      reads this, ipProber, ipProber.bestIpCache, cache
    {
      && ipProber.Valid() && cache.Valid()
      && cache as object != ipProber.bestIpCache as object
      && NonEmptyLists(cache.Items())
    }

    constructor (ipProber: IpProber, cache: EvictableCache<string, seq<IpAddr>>)
      requires ipProber.Valid() && cache.Valid() && cache.Items() == []
      requires cache as object != ipProber.bestIpCache as object
      ensures Valid() && this.ipProber == ipProber && this.cache == cache
    {
      this.ipProber, this.cache := ipProber, cache;
    }

    /** Every hit has a first element. */
    lemma HitsAreNonEmpty(domain: string, checked: nat)
      requires Valid()
      ensures GetResult(cache.cfg, cache.Abs(), domain, checked).Some? ==>
        GetResult(cache.cfg, cache.Abs(), domain, checked).value != []
    {
      if HasKey(cache.Items(), domain) {
        assert (domain, Lookup(cache.Items(), domain)) in cache.Items();
      }
    }

    /** Filters, ranks, falls back to the unfiltered answer when nothing is reachable, and caches the list. */
    method RankAndStore(domain: string, ips: seq<IpAddr>, isPublic: IpAddr -> bool, latency: nat -> nat, t: Times)
      returns (list: seq<IpAddr>)
      requires Valid() && ips != []
      modifies cache, cache.clock, ipProber`breaker, ipProber.bestIpCache, ipProber.bestIpCache.clock
      ensures Valid() && list != []
      ensures Stored(cache.cfg, old(cache.Abs()), cache.Abs(), domain, list, t)
      ensures InFront(cache.cfg, cache.Abs(), domain, list, t)
      ensures Answered(ips, isPublic, latency, old(ProbesNow(t)), ipProber.probeTimeout, list)
    {
      var filtered := FilterIps(ips, isPublic);
      var ranked := ipProber.SelectRankedIps(
        domain, filtered, latency, t.started, t.recorded, t.bestStored, t.bestEvict, t.bestReading);
      list := if ranked == [] then ips else ranked;
      Store(domain, list, t);
    }

    predicate ProbesNow(t: Times)
      reads ipProber
    {
      ProbesIpv6(ipProber.breakerCfg, ipProber.breaker, t.started)
    }

    method Store(domain: string, list: seq<IpAddr>, t: Times)
      requires Valid() && list != []
      modifies cache, cache.clock
      ensures Valid()
      ensures cache.Abs()
           == Caches.Apply(cache.cfg, old(cache.Abs()), Op.Insert(domain, list, t.stored, t.evictAt, t.reading))
      ensures InFront(cache.cfg, cache.Abs(), domain, list, t)
      ensures forall p :: p in cache.Items() ==> p in old(cache.Items()) || (p.0 == domain && p.1.value == list)
    {
      ghost var s := cache.Abs();
      ApplyKeepsNonEmpty(cache.cfg, s, Op.Insert(domain, list, t.stored, t.evictAt, t.reading));
      JustInsertedSurvives(cache.cfg, s, domain, list, t.stored, t.evictAt, t.reading);
      cache.Insert(domain, list, t.stored, t.evictAt, t.reading);
    }

    /** The cache once a lookup of the domain has been made. */
    ghost function AfterLookup(domain: string, t: Times): State<string, seq<IpAddr>>
      requires cache.Valid()
      reads this, cache, cache.clock
    {
      Caches.Apply(cache.cfg, cache.Abs(), Op.Get(domain, t.now, t.checked))
    }

    method Cached(domain: string, t: Times) returns (hit: Option<seq<IpAddr>>)
      requires Valid()
      modifies cache
      ensures Valid() && hit == GetResult(cache.cfg, old(cache.Abs()), domain, t.checked)
      ensures cache.Abs() == Caches.Apply(cache.cfg, old(cache.Abs()), Op.Get(domain, t.now, t.checked))
      ensures hit.Some? ==> hit.value != []
    {
      HitsAreNonEmpty(domain, t.checked);
      ApplyKeepsNonEmpty(cache.cfg, cache.Abs(), Op.Get(domain, t.now, t.checked));
      hit := cache.Get(domain, t.now, t.checked);
    }

    /** doh is the DoH client's answer, None for its error. */
    method Resolve(domain: string, doh: Option<seq<IpAddr>>, isPublic: IpAddr -> bool, latency: nat -> nat, t: Times)
      returns (best: Option<IpAddr>)
      requires Valid()
      modifies cache, cache.clock, ipProber`breaker, ipProber.bestIpCache, ipProber.bestIpCache.clock
      ensures Valid()
      ensures var hit := GetResult(cache.cfg, old(cache.Abs()), domain, t.checked);
              && (hit.Some? ==> hit.value != [] && best == Some(hit.value[0]))
              && (hit.None? ==> (best.Some? <==> doh.Some? && doh.value != []))
      ensures best.Some? && GetResult(cache.cfg, old(cache.Abs()), domain, t.checked).None? ==>
        exists list :: list != [] && list[0] == best.value
          && Answered(doh.value, isPublic, latency, old(ProbesNow(t)), ipProber.probeTimeout, list)
          && Stored(cache.cfg, old(AfterLookup(domain, t)), cache.Abs(), domain, list, t)
          && InFront(cache.cfg, cache.Abs(), domain, list, t)
      ensures best.None? || GetResult(cache.cfg, old(cache.Abs()), domain, t.checked).Some? ==>
        cache.Abs() == old(AfterLookup(domain, t))
    {
      var hit := Cached(domain, t);
      if hit.Some? {
        return Some(hit.value[0]);
      }
      if doh.None? || doh.value == [] {
        return None;
      }
      var list := RankAndStore(domain, doh.value, isPublic, latency, t);
      best := Some(list[0]);
    }

    method GetCandidates(
      domain: string, doh: Option<seq<IpAddr>>, isPublic: IpAddr -> bool, latency: nat -> nat, t: Times)
      returns (list: seq<IpAddr>)
      requires Valid()
      modifies cache, cache.clock, ipProber`breaker, ipProber.bestIpCache, ipProber.bestIpCache.clock
      ensures Valid()
      ensures var hit := GetResult(cache.cfg, old(cache.Abs()), domain, t.checked);
              && (hit.Some? ==> list == hit.value)
              && (list == [] <==> hit.None? && (doh.None? || doh.value == []))
              && (hit.None? && list != [] ==>
                  Answered(doh.value, isPublic, latency, old(ProbesNow(t)), ipProber.probeTimeout, list))
              && (if hit.None? && list != []
                  then && Stored(cache.cfg, old(AfterLookup(domain, t)), cache.Abs(), domain, list, t)
                       && InFront(cache.cfg, cache.Abs(), domain, list, t)
                  else cache.Abs() == old(AfterLookup(domain, t)))
    {
      var hit := Cached(domain, t);
      if hit.Some? {
        return hit.value;
      }
      if doh.None? || doh.value == [] {
        return [];
      }
      list := RankAndStore(domain, doh.value, isPublic, latency, t);
    }

    method ResolveInternational(
      domain: string, doh: Option<seq<IpAddr>>, isPublic: IpAddr -> bool, latency: nat -> nat, t: Times)
      returns (list: Option<seq<IpAddr>>)
      requires Valid()
      modifies cache, cache.clock, ipProber`breaker, ipProber.bestIpCache, ipProber.bestIpCache.clock
      ensures Valid()
      ensures list.Some? <==> doh.Some? && doh.value != []
      ensures list.Some? ==>
        list.value != [] && Answered(doh.value, isPublic, latency, old(ProbesNow(t)), ipProber.probeTimeout, list.value)
      ensures list.None? ==> cache.Abs() == old(cache.Abs())
      ensures list.Some? ==> Stored(cache.cfg, old(cache.Abs()), cache.Abs(), domain, list.value, t)
      ensures list.Some? ==> InFront(cache.cfg, cache.Abs(), domain, list.value, t)
    {
      if doh.None? || doh.value == [] {
        return None;
      }
      var found := RankAndStore(domain, doh.value, isPublic, latency, t);
      list := Some(found);
    }

    /** Drops what is cached about a domain, its list and its best address. */
    method Invalidate(domain: string)
      requires Valid()
      modifies cache, ipProber.bestIpCache
      ensures Valid() && !HasKey(cache.Items(), domain)
      ensures cache.Abs() == Caches.Apply(cache.cfg, old(cache.Abs()), Op.Remove(domain))
      ensures !HasKey(ipProber.bestIpCache.Items(), domain)
    {
      ApplyKeepsNonEmpty(cache.cfg, cache.Abs(), Op.Remove(domain));
      Dropped(cache.Items(), domain);
      var list := cache.Remove(domain);
      Dropped(ipProber.bestIpCache.Items(), domain);
      var best := ipProber.bestIpCache.Remove(domain);
    }

    /**
      `reprobe_all`: the fifty most recently accessed domains are resolved again, finishing in any order,
      and a list is replaced only by a ranking of the new answer.
     */
    method ReprobeAll(
      listing: seq<string>, doh: string -> Option<seq<IpAddr>>, isPublic: IpAddr -> bool,
      latency: string -> (nat -> nat), t: string -> Times)
      requires Valid() && AccessListing(listing, cache.Items())
      modifies cache, cache.clock, ipProber`breaker, ipProber.bestIpCache, ipProber.bestIpCache.clock
      ensures Valid()
      ensures forall p :: p in cache.Items() ==>
        p in old(cache.Items()) || Refreshed(listing, doh, isPublic, latency, p)
      ensures old(|cache.Items()|) <= cache.cfg.maxEntries ==>
        ReprobedBut([], listing, doh, isPublic, latency, old(cache.Items()), cache.Items())
    {
      var tasks := listing[..Reprobed(listing)];
      ghost var before := cache.Items();
      while tasks != []
        invariant Valid() && Distinct(tasks) && forall d :: d in tasks ==> d in listing[..Reprobed(listing)]
        invariant forall p :: p in cache.Items() ==>
          p in before || Refreshed(listing, doh, isPublic, latency, p)
        invariant |before| <= cache.cfg.maxEntries ==>
          |cache.Items()| <= cache.cfg.maxEntries &&
          ReprobedBut(tasks, listing, doh, isPublic, latency, before, cache.Items())
        decreases |tasks|
      {
        var k :| 0 <= k < |tasks|;
        var domain := tasks[k];
        ghost var left, now := tasks, cache.Items();
        tasks := tasks[..k] + tasks[k + 1..];
        TakenOut(left, k);
        ReprobeOne(domain, doh(domain), isPublic, latency(domain), t(domain));
        if |before| <= cache.cfg.maxEntries {
          OneMoreReprobed(left, k, listing, doh, isPublic, latency, before, now, cache.Items());
        }
      }
    }

    /** One task of `reprobe_all`. */
    method ReprobeOne(
      domain: string, answer: Option<seq<IpAddr>>, isPublic: IpAddr -> bool, latency: nat -> nat, t: Times)
      requires Valid()
      modifies cache, cache.clock, ipProber`breaker, ipProber.bestIpCache, ipProber.bestIpCache.clock
      ensures Valid()
      ensures forall p :: p in cache.Items() ==>
        || p in old(cache.Items())
        || (p.0 == domain && answer.Some? &&
            Reranked(answer.value, isPublic, latency, ipProber.probeTimeout, p.1.value))
      ensures old(|cache.Items()|) <= cache.cfg.maxEntries && HasKey(old(cache.Items()), domain) ==>
        && |cache.Items()| <= cache.cfg.maxEntries
        && Treated(answer, isPublic, latency, domain, old(cache.Items()), cache.Items())
        && forall d :: d != domain && HasKey(old(cache.Items()), d) ==>
             Untouched(d, old(cache.Items()), cache.Items())
    {
      if answer.Some? && answer.value != [] {
        var ranked := Reprobe(domain, answer.value, isPublic, latency, t);
        if ranked != [] && old(|cache.Items()|) <= cache.cfg.maxEntries && HasKey(old(cache.Items()), domain) {
          ReplacingKeepsOthers(cache.cfg, old(cache.Abs()), cache.Abs(), domain, ranked, t);
        }
      }
    }

    /** p belongs to one of the fifty domains, and is a ranking of its new answer. */
    ghost predicate Refreshed(
      listing: seq<string>, doh: string -> Option<seq<IpAddr>>, isPublic: IpAddr -> bool,
      latency: string -> (nat -> nat), p: (string, Entry<seq<IpAddr>>))
    {
      && p.0 in listing[..Reprobed(listing)]
      && doh(p.0).Some? && Reranked(doh(p.0).value, isPublic, latency(p.0), ipProber.probeTimeout, p.1.value)
    }

    /** d is still cached, with the same entry. */
    ghost predicate Untouched(
      d: string, before: seq<(string, Entry<seq<IpAddr>>)>, after: seq<(string, Entry<seq<IpAddr>>)>)
      requires HasKey(before, d)
    {
      HasKey(after, d) && Lookup(after, d) == Lookup(before, d)
    }

    /** d is still cached, with the ranking of its new answer, or as it was if nothing new is reachable. */
    ghost predicate Treated(
      answer: Option<seq<IpAddr>>, isPublic: IpAddr -> bool, latency: nat -> nat,
      d: string, before: seq<(string, Entry<seq<IpAddr>>)>, after: seq<(string, Entry<seq<IpAddr>>)>)
      requires HasKey(before, d)
    {
      if answer.None? || answer.value == [] then Untouched(d, before, after) else
      exists probe: bool, ranked ::
        && Ranks(Timed(ToProbe(FilterIps(answer.value, isPublic), probe), latency), ipProber.probeTimeout, ranked)
        && (if ranked == [] then Untouched(d, before, after)
            else HasKey(after, d) && Lookup(after, d).value == ranked)
    }

    /** Each of the fifty domains but those of the tasks left has been treated, and no other touched. */
    ghost predicate ReprobedBut(
      left: seq<string>, listing: seq<string>, doh: string -> Option<seq<IpAddr>>, isPublic: IpAddr -> bool,
      latency: string -> (nat -> nat),
      before: seq<(string, Entry<seq<IpAddr>>)>, after: seq<(string, Entry<seq<IpAddr>>)>)
    {
      forall d :: HasKey(before, d) ==>
        if d in listing[..Reprobed(listing)] && d !in left
        then Treated(doh(d), isPublic, latency(d), d, before, after)
        else Untouched(d, before, after)
    }

    lemma TreatedOnce(
      answer: Option<seq<IpAddr>>, isPublic: IpAddr -> bool, latency: nat -> nat, d: string,
      before: seq<(string, Entry<seq<IpAddr>>)>, now: seq<(string, Entry<seq<IpAddr>>)>,
      after: seq<(string, Entry<seq<IpAddr>>)>)
      requires HasKey(before, d) && Untouched(d, before, now) && Treated(answer, isPublic, latency, d, now, after)
      ensures Treated(answer, isPublic, latency, d, before, after)
    {
    }

    lemma StaysTreated(
      answer: Option<seq<IpAddr>>, isPublic: IpAddr -> bool, latency: nat -> nat, d: string,
      before: seq<(string, Entry<seq<IpAddr>>)>, now: seq<(string, Entry<seq<IpAddr>>)>,
      after: seq<(string, Entry<seq<IpAddr>>)>)
      requires HasKey(before, d) && Treated(answer, isPublic, latency, d, before, now)
      requires HasKey(now, d) && Untouched(d, now, after)
      ensures Treated(answer, isPublic, latency, d, before, after)
    {
    }

    lemma OneMoreReprobed(
      left: seq<string>, k: nat, listing: seq<string>, doh: string -> Option<seq<IpAddr>>, isPublic: IpAddr -> bool,
      latency: string -> (nat -> nat), before: seq<(string, Entry<seq<IpAddr>>)>,
      now: seq<(string, Entry<seq<IpAddr>>)>, after: seq<(string, Entry<seq<IpAddr>>)>)
      requires k < |left| && Distinct(left) && left[k] in listing[..Reprobed(listing)]
      requires ReprobedBut(left, listing, doh, isPublic, latency, before, now)
      requires HasKey(before, left[k]) && HasKey(now, left[k])
      requires Treated(doh(left[k]), isPublic, latency(left[k]), left[k], now, after)
      requires forall d :: d != left[k] && HasKey(now, d) ==> Untouched(d, now, after)
      ensures ReprobedBut(left[..k] + left[k + 1..], listing, doh, isPublic, latency, before, after)
    {
      TakenOut(left, k);
      var rest := left[..k] + left[k + 1..];
      forall d | HasKey(before, d)
        ensures if d in listing[..Reprobed(listing)] && d !in rest
                then Treated(doh(d), isPublic, latency(d), d, before, after)
                else Untouched(d, before, after)
      {
        assert d in rest <==> d in left && d != left[k];
        if d == left[k] {
          TreatedOnce(doh(d), isPublic, latency(d), d, before, now, after);
        } else {
          if d in listing[..Reprobed(listing)] && d !in left {
            StaysTreated(doh(d), isPublic, latency(d), d, before, now, after);
          }
        }
      }
    }

    function Reprobed(listing: seq<string>): (n: nat)
      ensures n <= |listing| && n <= 50 && (n == 50 || n == |listing|)
    {
      if |listing| > MAX_REPROBED then MAX_REPROBED else |listing|
    }

    method Reprobe(domain: string, ips: seq<IpAddr>, isPublic: IpAddr -> bool, latency: nat -> nat, t: Times)
      returns (ranked: seq<IpAddr>)
      requires Valid()
      modifies cache, cache.clock, ipProber`breaker, ipProber.bestIpCache, ipProber.bestIpCache.clock
      ensures Valid()
      ensures Ranks(Timed(ToProbe(FilterIps(ips, isPublic), old(ProbesNow(t))), latency), ipProber.probeTimeout, ranked)
      ensures ranked == [] ==> cache.Items() == old(cache.Items())
      ensures ranked != [] ==> Reranked(ips, isPublic, latency, ipProber.probeTimeout, ranked)
      ensures ranked != [] ==> Stored(cache.cfg, old(cache.Abs()), cache.Abs(), domain, ranked, t)
      ensures ranked != [] ==> InFront(cache.cfg, cache.Abs(), domain, ranked, t)
      ensures forall p :: p in cache.Items() ==> p in old(cache.Items()) || (p.0 == domain && p.1.value == ranked)
    {
      var dropped := ipProber.bestIpCache.Remove(domain);
      ranked := ipProber.SelectRankedIps(
        domain, FilterIps(ips, isPublic), latency, t.started, t.recorded, t.bestStored, t.bestEvict, t.bestReading);
      if ranked != [] {
        Store(domain, ranked, t);
      }
    }
  }
}
