/**
  Latency probing of a domain's addresses: attempts run concurrently, results are ranked by latency,
  and IPv6 is left out for a while after it failed several times in a row.
*/
module IpProbers {
  import opened Common
  import opened RecencyList
  import opened Sorting
  import opened Caches

  const MIN_RESULTS_FOR_FAST_RETURN: nat := 3

  // Instants and latencies are in nanoseconds.
  const FAST_RETURN_TIMEOUT: nat := 200_000_000

  // ---------- The IPv6 breaker ----------

  datatype BreakerConfig = BreakerConfig(enabled: bool, threshold: nat, recovery: nat)

  datatype Breaker = Breaker(consecutiveFailures: nat, disabledUntil: Option<nat>)

  predicate ProbesIpv6(cfg: BreakerConfig, b: Breaker, now: nat) {
    cfg.enabled && (cfg.threshold == 0 || b.disabledUntil.None? || now >= b.disabledUntil.value)
  }

  function Recorded(cfg: BreakerConfig, b: Breaker, success: bool, now: nat): Breaker {
    if cfg.threshold == 0 then b
    else if success then Breaker(0, None)
    else
      var n := b.consecutiveFailures + 1;
      Breaker(n, if n >= cfg.threshold then Some(now + cfg.recovery) else b.disabledUntil)
  }

  /** Outcomes recorded one after another, each with its time. */
  function AfterOutcomes(cfg: BreakerConfig, outcomes: seq<(bool, nat)>): Breaker {
    if outcomes == [] then Breaker(0, None) else
    var n := |outcomes| - 1;
    Recorded(cfg, AfterOutcomes(cfg, outcomes[..n]), outcomes[n].0, outcomes[n].1)
  }

  /** The number of failures at the end of the run. */
  function TrailingFailures(outcomes: seq<(bool, nat)>): nat {
    if outcomes == [] || outcomes[|outcomes| - 1].0 then 0 else 1 + TrailingFailures(outcomes[..|outcomes| - 1])
  }

  /**
    In every run the breaker counts the failures since the last success, is set exactly when they
    have reached the threshold, and holds until the recovery time after the latest of them.  A threshold
    of zero switches it off; IPv6 is not probed at all unless that is enabled.
   */
  lemma {:induction false} BreakerInEveryRun(cfg: BreakerConfig, outcomes: seq<(bool, nat)>, now: nat)
    ensures var b := AfterOutcomes(cfg, outcomes);
            && (cfg.threshold == 0 ==> b == Breaker(0, None))
            && (cfg.threshold > 0 ==>
                  && b.consecutiveFailures == TrailingFailures(outcomes)
                  && (b.disabledUntil.Some? <==> TrailingFailures(outcomes) >= cfg.threshold)
                  && (b.disabledUntil.Some? ==> b.disabledUntil.value == outcomes[|outcomes| - 1].1 + cfg.recovery))
            && (ProbesIpv6(cfg, b, now) <==>
                (cfg.enabled && (cfg.threshold == 0 || TrailingFailures(outcomes) < cfg.threshold ||
                                 now >= outcomes[|outcomes| - 1].1 + cfg.recovery)))
  {
    if outcomes != [] {
      BreakerInEveryRun(cfg, outcomes[..|outcomes| - 1], now);
    }
  }

  // ---------- Ranking ----------

  /** An address and how long its probe took; failed and timed-out probes take longer than any timeout. */
  type Probe = (IpAddr, nat)

  function Latency(p: Probe): int { p.1 }

  function Insert(p: Probe, s: seq<Probe>): seq<Probe> {
    if s == [] || p.1 < s[0].1 then [p] + s else [s[0]] + Insert(p, s[1..])
  }

  /** The library's stable sort by latency. */
  function SortByLatency(s: seq<Probe>): seq<Probe> {
    if s == [] then [] else Insert(s[|s| - 1], SortByLatency(s[..|s| - 1]))
  }

  lemma {:induction false} InsertKeepsAll(p: Probe, s: seq<Probe>)
    ensures multiset(Insert(p, s)) == multiset(s) + multiset{p}
  {
    if s != [] && p.1 >= s[0].1 {
      InsertKeepsAll(p, s[1..]);
      assert s == [s[0]] + s[1..];
    }
  }

  ghost predicate NoneFaster(least: int, s: seq<Probe>) {
    forall i :: 0 <= i < |s| ==> least <= Latency(s[i])
  }

  lemma SortedCons(p: Probe, s: seq<Probe>)
    requires SortedBy(Latency, s) && NoneFaster(p.1, s)
    ensures SortedBy(Latency, [p] + s)
  {
  }

  lemma {:induction false} InsertKeepsBound(p: Probe, s: seq<Probe>, least: int)
    requires NoneFaster(least, s) && least <= p.1
    ensures NoneFaster(least, Insert(p, s))
  {
    if s != [] && p.1 >= s[0].1 {
      InsertKeepsBound(p, s[1..], least);
    }
  }

  lemma {:induction false} InsertSorted(p: Probe, s: seq<Probe>)
    requires SortedBy(Latency, s)
    ensures SortedBy(Latency, Insert(p, s))
  {
    if s == [] || p.1 < s[0].1 {
      assert NoneFaster(p.1, s);
      SortedCons(p, s);
    } else {
      InsertSorted(p, s[1..]);
      assert NoneFaster(s[0].1, s[1..]);
      InsertKeepsBound(p, s[1..], s[0].1);
      SortedCons(s[0], Insert(p, s[1..]));
    }
  }

  lemma {:induction false} SortSorts(s: seq<Probe>)
    ensures multiset(SortByLatency(s)) == multiset(s) && SortedBy(Latency, SortByLatency(s))
  {
    if s != [] {
      var n := |s| - 1;
      SortSorts(s[..n]);
      InsertSorted(s[n], SortByLatency(s[..n]));
      InsertKeepsAll(s[n], SortByLatency(s[..n]));
      assert s == s[..n] + [s[n]];
    }
  }

  predicate TakesAsLong(p: Probe, latency: nat) { p.1 == latency }

  lemma {:induction false} FilterInsert(p: Probe, s: seq<Probe>, latency: nat)
    requires SortedBy(Latency, s)
    ensures Filter((q: Probe) => TakesAsLong(q, latency), Insert(p, s))
         == Filter((q: Probe) => TakesAsLong(q, latency), s) + if TakesAsLong(p, latency) then [p] else []
  {
    var same := (q: Probe) => TakesAsLong(q, latency);
    if s == [] || p.1 < s[0].1 {
      FilterConcat(same, [p], s);
      if TakesAsLong(p, latency) {
        SlowerThan(p, s);
      }
    } else {
      FilterInsert(p, s[1..], latency);
      FilterConcat(same, [s[0]], Insert(p, s[1..]));
      FilterConcat(same, [s[0]], s[1..]);
      assert s == [s[0]] + s[1..];
    }
  }

  lemma SlowerThan(p: Probe, s: seq<Probe>)
    requires SortedBy(Latency, s) && (s != [] ==> p.1 < s[0].1)
    ensures Filter((q: Probe) => TakesAsLong(q, p.1), s) == []
  {
    var same := (q: Probe) => TakesAsLong(q, p.1);
    FilterMembers(same, s);
    forall i | 0 <= i < |s| ensures !same(s[i]) {
      assert Latency(s[0]) <= Latency(s[i]);
    }
  }

  /** The sort is stable: probes that take as long as each other keep their order. */
  lemma {:induction false} SortIsStable(s: seq<Probe>, latency: nat)
    ensures Filter((q: Probe) => TakesAsLong(q, latency), SortByLatency(s))
         == Filter((q: Probe) => TakesAsLong(q, latency), s)
  {
    if s != [] {
      var n := |s| - 1;
      SortIsStable(s[..n], latency);
      SortSorts(s[..n]);
      FilterInsert(s[n], SortByLatency(s[..n]), latency);
    }
  }

  function Addresses(s: seq<Probe>): (r: seq<IpAddr>)
    ensures |r| == |s| && forall i :: 0 <= i < |s| ==> r[i] == s[i].0
  {
    seq(|s|, i requires 0 <= i < |s| => s[i].0)
  }

  function Timed(ips: seq<IpAddr>, latency: nat -> nat): (r: seq<Probe>)
    ensures |r| == |ips| && forall i :: 0 <= i < |ips| ==> r[i] == (ips[i], latency(i))
  {
    seq(|ips|, i requires 0 <= i < |ips| => (ips[i], latency(i)))
  }

  lemma MiddleOut<T>(a: seq<T>, x: T, b: seq<T>)
    ensures multiset(a + [x] + b) == multiset(a + b) + multiset{x}
  {
  }

  lemma DropOne<T>(s: seq<T>, i: nat)
    requires i < |s|
    ensures multiset(s) == multiset(s[..i] + s[i + 1..]) + multiset{s[i]}
  {
    assert s == s[..i] + [s[i]] + s[i + 1..];
    MiddleOut(s[..i], s[i], s[i + 1..]);
  }

  lemma AddressesConcat(a: seq<Probe>, b: seq<Probe>)
    ensures Addresses(a + b) == Addresses(a) + Addresses(b)
  {
  }

  lemma AddressesAround(before: seq<Probe>, p: Probe, behind: seq<Probe>)
    ensures Addresses(before + [p] + behind) == Addresses(before) + [p.0] + Addresses(behind)
  {
    AddressesConcat(before + [p], behind);
    AddressesConcat(before, [p]);
  }

  lemma AddressesBut(before: seq<Probe>, p: Probe, behind: seq<Probe>)
    ensures multiset(Addresses(before + [p] + behind)) == multiset(Addresses(before + behind)) + multiset{p.0}
  {
    AddressesConcat(before, behind);
    AddressesAround(before, p, behind);
    MiddleOut(Addresses(before), p.0, Addresses(behind));
  }

  lemma AddressesWithout(s: seq<Probe>, i: nat)
    requires i < |s|
    ensures multiset(Addresses(s)) == multiset(Addresses(s[..i] + s[i + 1..])) + multiset{s[i].0}
  {
    AddressesBut(s[..i], s[i], s[i + 1..]);
    assert s == s[..i] + [s[i]] + s[i + 1..];
  }

  lemma AddressesTail(s: seq<Probe>)
    requires s != []
    ensures multiset(Addresses(s)) == multiset(Addresses(s[1..])) + multiset{s[0].0}
  {
    assert Addresses(s) == [s[0].0] + Addresses(s[1..]);
  }

  lemma {:induction false} AddressesOfSub(a: seq<Probe>, b: seq<Probe>)
    requires multiset(a) <= multiset(b)
    ensures multiset(Addresses(a)) <= multiset(Addresses(b))
    decreases |a|
  {
    if a != [] {
      var i := Position(b, a[0], multiset(a));
      TailMultiset(a);
      DropOne(b, i);
      AddressesOfSub(a[1..], b[..i] + b[i + 1..]);
      AddressesTail(a);
      AddressesWithout(b, i);
    }
  }

  lemma Position(b: seq<Probe>, p: Probe, sub: multiset<Probe>) returns (i: nat)
    requires sub <= multiset(b) && p in sub
    ensures i < |b| && b[i] == p && p in multiset(b)
  {
    assert p in multiset(b);
    i :| 0 <= i < |b| && b[i] == p;
  }

  function OnlyV4(ips: seq<IpAddr>): seq<IpAddr> {
    Filter((ip: IpAddr) => ip.V4?, ips)
  }

  predicate HasV6(ips: seq<IpAddr>) {
    exists i :: 0 <= i < |ips| && ips[i].V6?
  }

  lemma EitherFamily(ips: seq<IpAddr>)
    ensures OnlyV4(ips) == [] && ips != [] ==> HasV6(ips)
  {
    FilterMembers((ip: IpAddr) => ip.V4?, ips);
    if ips != [] {
      assert ips[0] in ips;
    }
  }

  /** What is probed: everything, or the IPv4 addresses when IPv6 is out and there are some. */
  function ToProbe(ips: seq<IpAddr>, probeIpv6: bool): seq<IpAddr> {
    if probeIpv6 || (OnlyV4(ips) == [] && ips != []) then ips else OnlyV4(ips)
  }

  /** Probed are, in order, the IPv4 addresses, and the others too if they may be or there is nothing else. */
  lemma WhatIsProbed(ips: seq<IpAddr>, probeIpv6: bool) returns (at: seq<nat>)
    ensures PickedFrom(ToProbe(ips, probeIpv6), ips, at)
    ensures forall j: nat :: j in at <==>
      j < |ips| && (probeIpv6 || ips[j].V4? || forall k :: 0 <= k < |ips| ==> ips[k].V6?)
  {
    FilterMembers((ip: IpAddr) => ip.V4?, ips);
    if probeIpv6 || forall k :: 0 <= k < |ips| ==> ips[k].V6? {
      at := EveryPlace(ips);
    } else {
      var k :| 0 <= k < |ips| && !ips[k].V6?;
      assert ips[k] in OnlyV4(ips);
      at := FilterPicks((ip: IpAddr) => ip.V4?, ips);
    }
  }

  /** Outside the breaker's leave an IPv6 address is probed only when the list has no other kind. */
  lemma Ipv6OnlyWhenAllowed(cfg: BreakerConfig, b: Breaker, now: nat, ips: seq<IpAddr>, ip: IpAddr)
    requires ip in ToProbe(ips, ProbesIpv6(cfg, b, now)) && ip.V6?
    ensures ProbesIpv6(cfg, b, now) || forall other :: other in ips ==> other.V6?
  {
    FilterMembers((ip: IpAddr) => ip.V4?, ips);
    if other :| other in ips && !other.V6? {
      assert other in OnlyV4(ips);
    }
  }

  /**
    What the collection may end with: every probe accounted for, the reachable ones collected, and
    either none unfinished or at least three collected out of more than three.
   */
  ghost predicate Collected(
    probes: seq<Probe>, timeout: nat, results: seq<Probe>, failed: multiset<Probe>, unfinished: multiset<Probe>)
  {
    && multiset(results) + failed + unfinished == multiset(probes)
    && (forall p :: p in results ==> p.1 < timeout)
    && (forall p :: p in failed ==> p.1 >= timeout)
    && (unfinished == multiset{} || (|results| >= MIN_RESULTS_FOR_FAST_RETURN && Fast(probes)))
  }

  // ---------- The collection as a transition system ----------

  /**
    The probes of one call and when each gets its turn: turns come in list order, after any waits.
    Probes are named by their index.
   */
  datatype Probing = Probing(probes: seq<Probe>, starts: seq<nat>, timeout: nat)

  predicate InTurn(w: Probing) {
    && |w.starts| == |w.probes|
    && forall i, j :: 0 <= i < j < |w.starts| ==> w.starts[i] <= w.starts[j]
  }

  predicate Answers(w: Probing, i: nat) {
    i < |w.probes| && w.probes[i].1 < w.timeout
  }

  /** When the answer of probe i comes in. */
  function Due(w: Probing, i: nat): nat
    requires InTurn(w) && i < |w.probes|
  {
    w.starts[i] + w.probes[i].1
  }

  /** finished lists the probes with an answer in the order they came in; now counts from the start. */
  datatype Collecting = Collecting(tasks: set<nat>, finished: seq<nat>, failed: set<nat>, now: nat, stopped: bool)

  datatype Finish = Finish(index: nat, at: nat)

  function AllBelow(n: nat): (r: set<nat>)
    ensures forall i: nat :: i in r <==> i < n
  {
    if n == 0 then {} else AllBelow(n - 1) + {n - 1}
  }

  function StartOf(probes: seq<Probe>): Collecting {
    Collecting(AllBelow(|probes|), [], {}, 0, false)
  }

  /** No answer is due before that of probe i; probes that get none may give up at any time. */
  predicate ComesNext(w: Probing, tasks: set<nat>, i: nat)
    requires InTurn(w)
  {
    Answers(w, i) ==> forall j :: j in tasks && Answers(w, j) ==> Due(w, i) <= Due(w, j)
  }

  predicate CanFinish(w: Probing, s: Collecting, e: Finish)
    requires InTurn(w)
  {
    && !s.stopped && e.index in s.tasks && s.now <= e.at
    && ComesNext(w, s.tasks, e.index)
    && (Answers(w, e.index) ==> Due(w, e.index) <= e.at)
  }

  predicate Fast(probes: seq<Probe>) { |probes| > MIN_RESULTS_FOR_FAST_RETURN }

  predicate StopsFast(w: Probing, finished: seq<nat>, at: nat) {
    Fast(w.probes) && |finished| >= MIN_RESULTS_FOR_FAST_RETURN && at >= FAST_RETURN_TIMEOUT
  }

  function AfterFinish(w: Probing, s: Collecting, e: Finish): Collecting {
    var answers := Answers(w, e.index);
    var finished := if answers then s.finished + [e.index] else s.finished;
    var failed := if answers then s.failed else s.failed + {e.index};
    Collecting(s.tasks - {e.index}, finished, failed, e.at, StopsFast(w, finished, e.at))
  }

  function AfterFinishes(w: Probing, s: Collecting, events: seq<Finish>): Option<Collecting>
    requires InTurn(w)
    decreases |events|
  {
    if events == [] then Some(s) else
    if CanFinish(w, s, events[0]) then AfterFinishes(w, AfterFinish(w, s, events[0]), events[1..]) else None
  }

  predicate Ended(s: Collecting) { s.stopped || s.tasks == {} }

  /** events leads from the start of the collection to s. */
  ghost predicate Reaches(w: Probing, events: seq<Finish>, s: Collecting) {
    InTurn(w) && AfterFinishes(w, StartOf(w.probes), events) == Some(s)
  }

  predicate AllIndices(indices: seq<nat>, n: nat) {
    forall i :: 0 <= i < |indices| ==> indices[i] < n
  }

  /** The probes of these indices. */
  function Pick(probes: seq<Probe>, indices: seq<nat>): (r: seq<Probe>)
    requires AllIndices(indices, |probes|)
    ensures |r| == |indices| && forall i :: 0 <= i < |indices| ==> r[i] == probes[indices[i]]
  {
    seq(|indices|, i requires 0 <= i < |indices| => probes[indices[i]])
  }

  /** Some waits and some timing of the probes end the collection with these results. */
  ghost predicate CollectsTo(probes: seq<Probe>, timeout: nat, results: seq<Probe>) {
    exists w: Probing, events, s :: EndsWith(w, events, s, results) && w.probes == probes && w.timeout == timeout
  }

  ghost predicate EndsWith(w: Probing, events: seq<Finish>, s: Collecting, results: seq<Probe>) {
    && Reaches(w, events, s) && Ended(s)
    && AllIndices(s.finished, |w.probes|)
    && results == Pick(w.probes, s.finished)
  }

  // ---------- What every collection keeps ----------

  /** Every probe is in flight, has answered or has failed, and answers have come in as they were due. */
  ghost predicate CollectingWell(w: Probing, s: Collecting) {
    && InTurn(w)
    && Distinct(s.finished) && AllIndices(s.finished, |w.probes|)
    && s.tasks !! s.failed
    && (forall i :: i in s.finished ==> i !in s.tasks && i !in s.failed && Answers(w, i))
    && (forall i :: i in s.failed ==> i < |w.probes| && !Answers(w, i))
    && (forall i: nat :: i < |w.probes| <==> i in s.tasks || i in s.failed || i in s.finished)
    && (s.stopped ==> Fast(w.probes) && |s.finished| >= MIN_RESULTS_FOR_FAST_RETURN)
  }

  ghost predicate InDueOrder(w: Probing, s: Collecting)
    requires CollectingWell(w, s)
  {
    forall i, j :: i in s.finished && j in s.tasks && Answers(w, j) ==> Due(w, i) <= Due(w, j)
  }

  lemma StartIsWell(w: Probing)
    requires InTurn(w)
    ensures CollectingWell(w, StartOf(w.probes)) && InDueOrder(w, StartOf(w.probes))
  {
  }

  lemma FinishKeepsWell(w: Probing, s: Collecting, e: Finish)
    requires CollectingWell(w, s) && CanFinish(w, s, e)
    ensures CollectingWell(w, AfterFinish(w, s, e))
  {
  }

  lemma FinishKeepsOrder(w: Probing, s: Collecting, e: Finish)
    requires CollectingWell(w, s) && InDueOrder(w, s) && CanFinish(w, s, e)
    ensures CollectingWell(w, AfterFinish(w, s, e)) && InDueOrder(w, AfterFinish(w, s, e))
  {
    FinishKeepsWell(w, s, e);
  }

  lemma {:induction false} FinishesKeepWell(w: Probing, s: Collecting, events: seq<Finish>)
    requires CollectingWell(w, s) && InDueOrder(w, s) && AfterFinishes(w, s, events).Some?
    ensures var end := AfterFinishes(w, s, events).value; CollectingWell(w, end) && InDueOrder(w, end)
    decreases |events|
  {
    if events != [] {
      FinishKeepsOrder(w, s, events[0]);
      FinishesKeepWell(w, AfterFinish(w, s, events[0]), events[1..]);
    }
  }

  lemma EveryCollection(w: Probing, events: seq<Finish>, s: Collecting)
    requires Reaches(w, events, s)
    ensures CollectingWell(w, s) && InDueOrder(w, s)
  {
    StartIsWell(w);
    FinishesKeepWell(w, StartOf(w.probes), events);
  }

  lemma {:induction false} StoppedLate(w: Probing, s: Collecting, events: seq<Finish>)
    requires InTurn(w) && AfterFinishes(w, s, events).Some? && (s.stopped ==> s.now >= 200_000_000)
    ensures var end := AfterFinishes(w, s, events).value; end.stopped ==> end.now >= 200_000_000
    decreases |events|
  {
    if events != [] {
      StoppedLate(w, AfterFinish(w, s, events[0]), events[1..]);
    }
  }

  /**
    A collection over at most three probes, or over before 200 ms, has every answer; any other lacks some
    only when it has at least three.
   */
  lemma EarlyEndMissesNothing(w: Probing, events: seq<Finish>, s: Collecting)
    requires Reaches(w, events, s) && Ended(s)
    ensures |w.probes| <= 3 || s.now < 200_000_000 || |s.finished| < 3 ==>
              forall i: nat :: i in s.finished <==> i < |w.probes| && w.probes[i].1 < w.timeout
  {
    EveryCollection(w, events, s);
    StoppedLate(w, StartOf(w.probes), events);
  }

  // ---------- What was collected, as a bag ----------

  /** The probes below n whose indices are in the set. */
  ghost function Bag(probes: seq<Probe>, indices: set<nat>, n: nat): multiset<Probe>
    requires n <= |probes|
  {
    if n == 0 then multiset{} else
    var rest := Bag(probes, indices, n - 1);
    if n - 1 in indices then rest + multiset{probes[n - 1]} else rest
  }

  /** How often p is among them. */
  function Count(probes: seq<Probe>, indices: set<nat>, n: nat, p: Probe): nat
    requires n <= |probes|
  {
    if n == 0 then 0 else
    Count(probes, indices, n - 1, p) + if n - 1 in indices && probes[n - 1] == p then 1 else 0
  }

  lemma {:induction false} BagCounts(probes: seq<Probe>, indices: set<nat>, n: nat, p: Probe)
    requires n <= |probes|
    ensures Bag(probes, indices, n)[p] == Count(probes, indices, n, p)
  {
    if n > 0 {
      BagCounts(probes, indices, n - 1, p);
    }
  }

  lemma {:induction false} CountAll(probes: seq<Probe>, a: set<nat>, b: set<nat>, c: set<nat>, n: nat, p: Probe)
    requires n <= |probes| && a !! b && a !! c && b !! c
    requires forall i: nat :: i < n ==> i in a || i in b || i in c
    ensures Count(probes, a, n, p) + Count(probes, b, n, p) + Count(probes, c, n, p) == multiset(probes[..n])[p]
  {
    if n > 0 {
      CountAll(probes, a, b, c, n - 1, p);
      assert probes[..n] == probes[..n - 1] + [probes[n - 1]];
    }
  }

  lemma BagOfThree(probes: seq<Probe>, a: set<nat>, b: set<nat>, c: set<nat>)
    requires a !! b && a !! c && b !! c
    requires forall i: nat :: i < |probes| ==> i in a || i in b || i in c
    ensures Bag(probes, a, |probes|) + Bag(probes, b, |probes|) + Bag(probes, c, |probes|) == multiset(probes)
  {
    var n := |probes|;
    assert probes[..n] == probes;
    forall p ensures (Bag(probes, a, n) + Bag(probes, b, n) + Bag(probes, c, n))[p] == multiset(probes)[p] {
      BagCounts(probes, a, n, p);
      BagCounts(probes, b, n, p);
      BagCounts(probes, c, n, p);
      CountAll(probes, a, b, c, n, p);
    }
  }

  lemma {:induction false} CountOneMore(probes: seq<Probe>, a: set<nat>, k: nat, n: nat, p: Probe)
    requires n <= |probes| && k !in a
    ensures Count(probes, a + {k}, n, p) == Count(probes, a, n, p) + if k < n && probes[k] == p then 1 else 0
  {
    if n > 0 {
      CountOneMore(probes, a, k, n - 1, p);
    }
  }

  lemma {:induction false} CountNone(probes: seq<Probe>, n: nat, p: Probe)
    requires n <= |probes|
    ensures Count(probes, {}, n, p) == 0
  {
    if n > 0 {
      CountNone(probes, n - 1, p);
    }
  }

  lemma BagOfNone(probes: seq<Probe>)
    ensures Bag(probes, {}, |probes|) == multiset{}
  {
    forall p ensures Bag(probes, {}, |probes|)[p] == 0 {
      BagCounts(probes, {}, |probes|, p);
      CountNone(probes, |probes|, p);
    }
  }

  lemma {:induction false} PickCounts(probes: seq<Probe>, indices: seq<nat>, p: Probe)
    requires Distinct(indices) && AllIndices(indices, |probes|)
    ensures multiset(Pick(probes, indices))[p] == Count(probes, Elements(indices), |probes|, p)
  {
    if indices == [] {
      CountNone(probes, |probes|, p);
      assert Elements(indices) == {};
    } else {
      var n := |indices| - 1;
      var init, last := indices[..n], indices[n];
      assert indices == init + [last];
      PickCounts(probes, init, p);
      CountOneMore(probes, Elements(init), last, |probes|, p);
      assert Elements(indices) == Elements(init) + {last};
      assert Pick(probes, indices) == Pick(probes, init) + [probes[last]];
    }
  }

  lemma BagOfPick(probes: seq<Probe>, indices: seq<nat>)
    requires Distinct(indices) && AllIndices(indices, |probes|)
    ensures multiset(Pick(probes, indices)) == Bag(probes, Elements(indices), |probes|)
  {
    forall p ensures multiset(Pick(probes, indices))[p] == Bag(probes, Elements(indices), |probes|)[p] {
      PickCounts(probes, indices, p);
      BagCounts(probes, Elements(indices), |probes|, p);
    }
  }

  lemma {:induction false} InBag(probes: seq<Probe>, a: set<nat>, n: nat, p: Probe)
    requires n <= |probes| && p in Bag(probes, a, n)
    ensures exists i: nat :: i < n && i in a && probes[i] == p
  {
    if p in Bag(probes, a, n - 1) {
      InBag(probes, a, n - 1, p);
    } else {
      assert n - 1 in a && probes[n - 1] == p;
    }
  }

  lemma WellIsCollected(w: Probing, s: Collecting)
    requires CollectingWell(w, s) && Ended(s)
    ensures Collected(w.probes, w.timeout, Pick(w.probes, s.finished),
                      Bag(w.probes, s.failed, |w.probes|), Bag(w.probes, s.tasks, |w.probes|))
  {
    BagOfPick(w.probes, s.finished);
    BagOfThree(w.probes, Elements(s.finished), s.failed, s.tasks);
    assert forall k :: 0 <= k < |s.finished| ==> s.finished[k] in s.finished;
    forall p | p in Bag(w.probes, s.failed, |w.probes|) ensures p.1 >= w.timeout {
      InBag(w.probes, s.failed, |w.probes|, p);
    }
    BagOfNone(w.probes);
  }

  /** However the probes finish, the collection accounts for them all. */
  lemma CollectionIsSound(probes: seq<Probe>, timeout: nat, results: seq<Probe>)
    returns (failed: multiset<Probe>, unfinished: multiset<Probe>)
    requires CollectsTo(probes, timeout, results)
    ensures Collected(probes, timeout, results, failed, unfinished)
  {
    var w: Probing, events, s :| EndsWith(w, events, s, results) && w.probes == probes && w.timeout == timeout;
    EveryCollection(w, events, s);
    WellIsCollected(w, s);
    failed, unfinished := Bag(probes, s.failed, |probes|), Bag(probes, s.tasks, |probes|);
  }

  // ---------- Runs ----------

  lemma {:induction false} FinishAppend(w: Probing, s: Collecting, events: seq<Finish>, e: Finish)
    requires InTurn(w) && AfterFinishes(w, s, events).Some? && CanFinish(w, AfterFinishes(w, s, events).value, e)
    ensures AfterFinishes(w, s, events + [e]) == Some(AfterFinish(w, AfterFinishes(w, s, events).value, e))
    decreases |events|
  {
    var all := events + [e];
    if events != [] {
      assert all[1..] == events[1..] + [e];
      FinishAppend(w, AfterFinish(w, s, events[0]), events[1..], e);
    } else {
      assert all[1..] == [];
    }
  }

  lemma ExtendCollection(w: Probing, events: seq<Finish>, s: Collecting, e: Finish)
    requires Reaches(w, events, s) && CanFinish(w, s, e)
    ensures Reaches(w, events + [e], AfterFinish(w, s, e))
  {
    FinishAppend(w, StartOf(w.probes), events, e);
  }

  lemma FinishFirst(w: Probing, s: Collecting, e: Finish, next: Collecting, rest: seq<Finish>, end: Collecting)
    returns (events: seq<Finish>)
    requires InTurn(w) && CanFinish(w, s, e) && next == AfterFinish(w, s, e)
    requires AfterFinishes(w, next, rest) == Some(end)
    ensures AfterFinishes(w, s, events) == Some(end)
  {
    events := [e] + rest;
    assert events[1..] == rest;
  }

  /** The one of some probes whose answer is due first. */
  lemma {:induction false} DueFirst(w: Probing, some: set<nat>) returns (k: nat)
    requires InTurn(w) && some != {} && forall i :: i in some ==> i < |w.probes|
    ensures k in some && forall j :: j in some ==> Due(w, k) <= Due(w, j)
    decreases some
  {
    k :| k in some;
    if some - {k} != {} {
      var other := DueFirst(w, some - {k});
      if Due(w, other) < Due(w, k) {
        k := other;
      }
    }
  }

  lemma SomethingComesNext(w: Probing, tasks: set<nat>) returns (k: nat)
    requires InTurn(w) && tasks != {} && forall i :: i in tasks ==> i < |w.probes|
    ensures k in tasks && ComesNext(w, tasks, k)
  {
    k := DueFirst(w, tasks);
  }

  /** A collection can always be brought to its end. */
  lemma {:induction false} CollectionEnds(w: Probing, s: Collecting) returns (events: seq<Finish>, end: Collecting)
    requires InTurn(w) && forall i :: i in s.tasks ==> i < |w.probes|
    ensures AfterFinishes(w, s, events) == Some(end) && Ended(end)
    decreases s.tasks
  {
    if Ended(s) {
      return [], s;
    }
    var k := SomethingComesNext(w, s.tasks);
    var e := Finish(k, s.now + Due(w, k));
    var next := AfterFinish(w, s, e);
    var rest;
    rest, end := CollectionEnds(w, next);
    events := FinishFirst(w, s, e, next, rest, end);
  }

  /** ranked is the outcome of a collection, sorted by latency. */
  ghost predicate Ranks(probes: seq<Probe>, timeout: nat, ranked: seq<IpAddr>) {
    exists results :: CollectsTo(probes, timeout, results) && ranked == Addresses(SortByLatency(results))
  }

  /**
    A ranking is a latency-sorted sub-multiset of the addresses probed, all of them reachable; it is
    empty only if none is reachable, and it leaves a reachable one out only if it has three others.
   */
  lemma RankingIsSound(probes: seq<Probe>, timeout: nat, ranked: seq<IpAddr>) returns (sorted: seq<Probe>)
    requires Ranks(probes, timeout, ranked)
    ensures ranked == Addresses(sorted) && SortedBy(Latency, sorted) && multiset(sorted) <= multiset(probes)
    ensures forall p :: p in sorted ==> p.1 < timeout
    ensures multiset(ranked) <= multiset(Addresses(probes))
    ensures |ranked| < MIN_RESULTS_FOR_FAST_RETURN || |probes| <= MIN_RESULTS_FOR_FAST_RETURN ==>
      forall p :: p in probes && p.1 < timeout ==> p in sorted && multiset(sorted)[p] == multiset(probes)[p]
    ensures ranked == [] <==> forall p :: p in probes ==> p.1 >= timeout
  {
    var results :| CollectsTo(probes, timeout, results) && ranked == Addresses(SortByLatency(results));
    var failed, unfinished := CollectionIsSound(probes, timeout, results);
    sorted := SortByLatency(results);
    SortSorts(results);
    SameLength(sorted, results);
    assert forall p :: p in sorted <==> p in multiset(sorted);
    assert forall p :: p in results <==> p in multiset(results);
    assert forall p :: p in probes <==> p in multiset(probes);
    AddressesOfSub(sorted, probes);
    if unfinished == multiset{} && results == [] {
      assert multiset(results) == multiset{};
    }
  }

  lemma NoneIsV6(results: seq<Probe>)
    requires forall p :: p in results ==> p.0.V4?
    ensures !HasV6(Addresses(results))
  {
    assert forall i :: 0 <= i < |results| ==> results[i] in results;
  }

  // ---------- Whether IPv6 is seen ----------

  predicate V6Answers(probes: seq<Probe>, timeout: nat, i: nat) {
    i < |probes| && probes[i].0.V6? && probes[i].1 < timeout
  }

  ghost predicate SomeV6Answers(probes: seq<Probe>, timeout: nat) {
    exists i: nat :: V6Answers(probes, timeout, i)
  }

  /** An IPv4 address that answers; each IPv6 address that answers stands later in the list or is no faster. */
  ghost predicate AheadOfV6(probes: seq<Probe>, timeout: nat, i: nat) {
    && i < |probes| && probes[i].0.V4? && probes[i].1 < timeout
    && forall v: nat :: V6Answers(probes, timeout, v) ==> i < v || probes[i].1 <= probes[v].1
  }

  ghost function Ahead(probes: seq<Probe>, timeout: nat): set<nat> {
    set i: nat | i < |probes| && AheadOfV6(probes, timeout, i)
  }

  /** What finishes while an answering IPv6 address is in flight is ahead of it. */
  lemma FinishedIsAhead(w: Probing, s: Collecting, i: nat)
    requires CollectingWell(w, s) && InDueOrder(w, s) && i in s.finished && w.probes[i].0.V4?
    requires forall v: nat :: V6Answers(w.probes, w.timeout, v) ==> v in s.tasks
    ensures i in Ahead(w.probes, w.timeout)
  {
    forall v: nat | V6Answers(w.probes, w.timeout, v) ensures i < v || w.probes[i].1 <= w.probes[v].1 {
      assert Due(w, i) <= Due(w, v);
      assert v != i;
    }
  }

  lemma AllAreV4(w: Probing, s: Collecting)
    requires CollectingWell(w, s) && !HasV6(Addresses(Pick(w.probes, s.finished)))
    ensures forall i :: i in s.finished ==> w.probes[i].0.V4?
  {
    var results := Pick(w.probes, s.finished);
    forall i | i in s.finished ensures w.probes[i].0.V4? {
      var k :| 0 <= k < |s.finished| && s.finished[k] == i;
      assert Addresses(results)[k] == w.probes[i].0;
    }
  }

  lemma SeenUnlessOutrun(probes: seq<Probe>, timeout: nat, ranked: seq<IpAddr>)
    requires Ranks(probes, timeout, ranked) && SomeV6Answers(probes, timeout)
    requires !Fast(probes) || |Ahead(probes, timeout)| < MIN_RESULTS_FOR_FAST_RETURN
    ensures HasV6(ranked)
  {
    var results :| CollectsTo(probes, timeout, results) && ranked == Addresses(SortByLatency(results));
    SortKeepsFamilies(results);
    var w: Probing, events, s :| EndsWith(w, events, s, results) && w.probes == probes && w.timeout == timeout;
    EveryCollection(w, events, s);
    if !HasV6(Addresses(results)) {
      AllAreV4(w, s);
      EndedWithoutV6(w, s);
    }
  }

  lemma EndedWithoutV6(w: Probing, s: Collecting)
    requires CollectingWell(w, s) && InDueOrder(w, s) && Ended(s) && SomeV6Answers(w.probes, w.timeout)
    requires forall i :: i in s.finished ==> w.probes[i].0.V4?
    ensures Fast(w.probes) && |Ahead(w.probes, w.timeout)| >= MIN_RESULTS_FOR_FAST_RETURN
  {
    forall v: nat | V6Answers(w.probes, w.timeout, v) ensures v in s.tasks {
      assert Answers(w, v) && v !in s.finished;
    }
    var v: nat :| V6Answers(w.probes, w.timeout, v);
    assert v in s.tasks;
    forall i | i in s.finished ensures i in Ahead(w.probes, w.timeout) {
      FinishedIsAhead(w, s, i);
    }
    DistinctCardinality(s.finished);
    SubsetSize(Elements(s.finished), Ahead(w.probes, w.timeout));
  }

  // ---------- Runs that do not see it ----------

  /** The earliest turn of probe n - 1 that lets no answer of an IPv6 address below n come in before the timeout. */
  function LateTurn(probes: seq<Probe>, timeout: nat, n: nat): nat
    requires n <= |probes|
  {
    if n == 0 then 0 else
    var before := LateTurn(probes, timeout, n - 1);
    if V6Answers(probes, timeout, n - 1) && timeout - probes[n - 1].1 > before
    then timeout - probes[n - 1].1 else before
  }

  lemma {:induction false} LateTurnGrows(probes: seq<Probe>, timeout: nat, m: nat, n: nat)
    requires m <= n <= |probes|
    ensures LateTurn(probes, timeout, m) <= LateTurn(probes, timeout, n)
  {
    if m < n {
      LateTurnGrows(probes, timeout, m, n - 1);
    }
  }

  lemma {:induction false} AheadIsInTime(probes: seq<Probe>, timeout: nat, i: nat, n: nat)
    requires AheadOfV6(probes, timeout, i) && n <= i + 1 && n <= |probes|
    ensures LateTurn(probes, timeout, n) + probes[i].1 <= timeout
  {
    if n > 0 {
      AheadIsInTime(probes, timeout, i, n - 1);
    }
  }

  function LateTurns(probes: seq<Probe>, timeout: nat): Probing {
    Probing(probes, seq(|probes|, i requires 0 <= i < |probes| => LateTurn(probes, timeout, i + 1)), timeout)
  }

  lemma LateTurnsInTurn(probes: seq<Probe>, timeout: nat)
    ensures InTurn(LateTurns(probes, timeout))
    ensures forall v: nat :: V6Answers(probes, timeout, v) ==> Due(LateTurns(probes, timeout), v) >= timeout
    ensures forall i :: i in Ahead(probes, timeout) ==> Due(LateTurns(probes, timeout), i) <= timeout
  {
    var w := LateTurns(probes, timeout);
    forall i, j | 0 <= i < j < |w.starts| ensures w.starts[i] <= w.starts[j] {
      LateTurnGrows(probes, timeout, i + 1, j + 1);
    }
    forall i | i in Ahead(probes, timeout) ensures Due(w, i) <= timeout {
      AheadIsInTime(probes, timeout, i, i + 1);
    }
  }

  /** Only IPv4 answers are in, too few of them to stop, and nothing that is ahead has been lost. */
  ghost predicate CanStopWithoutV6(w: Probing, s: Collecting) {
    && w == LateTurns(w.probes, w.timeout)
    && !s.stopped && |s.finished| < MIN_RESULTS_FOR_FAST_RETURN <= |Ahead(w.probes, w.timeout)| && Fast(w.probes)
    && (forall i :: i in s.tasks ==> i < |w.probes|)
    && OnlyV4Finished(w, s)
    && (forall i :: i in Ahead(w.probes, w.timeout) ==> i in s.tasks || i in s.finished)
  }

  lemma SomeAheadLeft(ahead: set<nat>, finished: seq<nat>) returns (a: nat)
    requires |finished| < |ahead|
    ensures a in ahead && a !in finished
  {
    if forall i :: i in ahead ==> i in finished {
      SubsetSize(ahead, Elements(finished));
      ElementsSize(finished);
      assert false;
    }
    a :| a in ahead && a !in finished;
  }

  lemma {:induction false} ElementsSize(s: seq<nat>)
    ensures |Elements(s)| <= |s|
  {
    if s != [] {
      ElementsSize(s[1..]);
      assert Elements(s) == {s[0]} + Elements(s[1..]);
    }
  }

  /** The next IPv4 address answers, after the fast return's deadline. */
  lemma V4Answers(w: Probing, s: Collecting) returns (e: Finish)
    requires CanStopWithoutV6(w, s)
    ensures InTurn(w) && CanFinish(w, s, e)
    ensures e.index in s.tasks && Answers(w, e.index) && w.probes[e.index].0.V4? && e.at >= FAST_RETURN_TIMEOUT
  {
    LateTurnsInTurn(w.probes, w.timeout);
    var a := SomeAheadLeft(Ahead(w.probes, w.timeout), s.finished);
    var some := set i | i in s.tasks && Answers(w, i) && w.probes[i].0.V4?;
    assert a in some;
    var k := DueFirst(w, some);
    forall j | j in s.tasks && Answers(w, j) ensures Due(w, k) <= Due(w, j) {
      assert w.probes[j].0.V4? ==> j in some;
      assert w.probes[j].0.V6? ==> V6Answers(w.probes, w.timeout, j);
    }
    e := Finish(k, s.now + Due(w, k) + FAST_RETURN_TIMEOUT);
  }

  lemma {:induction false} StopsWithoutV6(w: Probing, s: Collecting) returns (events: seq<Finish>, end: Collecting)
    requires CanStopWithoutV6(w, s)
    ensures InTurn(w) && AfterFinishes(w, s, events) == Some(end) && end.stopped
    ensures OnlyV4Finished(w, end)
    decreases s.tasks
  {
    var e := V4Answers(w, s);
    var next := AfterFinish(w, s, e);
    var rest: seq<Finish> := [];
    end := next;
    if !next.stopped {
      rest, end := StopsWithoutV6(w, next);
    }
    events := FinishFirst(w, s, e, next, rest, end);
  }

  ghost predicate OnlyV4Finished(w: Probing, s: Collecting) {
    AllIndices(s.finished, |w.probes|) && forall k :: 0 <= k < |s.finished| ==> w.probes[s.finished[k]].0.V4?
  }

  lemma RankedWithoutV6(w: Probing, events: seq<Finish>, s: Collecting) returns (ranked: seq<IpAddr>)
    requires Reaches(w, events, s) && Ended(s)
    requires OnlyV4Finished(w, s)
    ensures Ranks(w.probes, w.timeout, ranked) && !HasV6(ranked)
  {
    var results := Pick(w.probes, s.finished);
    assert EndsWith(w, events, s, results);
    ranked := Addresses(SortByLatency(results));
    NoneIsV6(results);
    SortKeepsFamilies(results);
    assert CollectsTo(w.probes, w.timeout, results);
  }

  lemma Absent(probes: seq<Probe>, timeout: nat) returns (ranked: seq<IpAddr>)
    requires !SomeV6Answers(probes, timeout)
    ensures Ranks(probes, timeout, ranked) && !HasV6(ranked)
  {
    var w := LateTurns(probes, timeout);
    LateTurnsInTurn(probes, timeout);
    var events, s := CollectionEnds(w, StartOf(probes));
    EveryCollection(w, events, s);
    forall k | 0 <= k < |s.finished| ensures probes[s.finished[k]].0.V4? {
      assert s.finished[k] in s.finished && !V6Answers(probes, timeout, s.finished[k]);
    }
    ranked := RankedWithoutV6(w, events, s);
  }

  lemma Outrun(probes: seq<Probe>, timeout: nat) returns (ranked: seq<IpAddr>)
    requires Fast(probes) && |Ahead(probes, timeout)| >= MIN_RESULTS_FOR_FAST_RETURN
    ensures Ranks(probes, timeout, ranked) && !HasV6(ranked)
  {
    var w := LateTurns(probes, timeout);
    var events, s := StopsWithoutV6(w, StartOf(probes));
    ranked := RankedWithoutV6(w, events, s);
  }

  /**
    A fast return counts as an IPv6 failure when IPv6 was merely later: of three IPv4 addresses and an
    IPv6 address behind them, all reachable, a run of the collection can leave out the last.
   */
  lemma FastReturnMissesIpv6(a: Probe, b: Probe, c: Probe, late: Probe, timeout: nat) returns (ranked: seq<IpAddr>)
    requires a.0.V4? && b.0.V4? && c.0.V4? && late.0.V6?
    requires a.1 < timeout && b.1 < timeout && c.1 < timeout && late.1 < timeout
    ensures Ranks([a, b, c, late], timeout, ranked) && SomeV6Answers([a, b, c, late], timeout) && !HasV6(ranked)
  {
    var probes := [a, b, c, late];
    assert V6Answers(probes, timeout, 3);
    assert forall i: nat :: i < 3 ==> AheadOfV6(probes, timeout, i);
    SubsetSize({0, 1, 2}, Ahead(probes, timeout));
    ranked := Outrun(probes, timeout);
  }

  /**
    Over all waits and timings, the breaker is sure to hear of a reachable IPv6 address exactly when
    there is one and no fast return can come before it: the list has at most three addresses, or
    fewer than three answering IPv4 addresses that stand before every answering IPv6 address or are
    no slower.
   */
  lemma Ipv6SeenIffNotOutrun(probes: seq<Probe>, timeout: nat)
    ensures (forall ranked :: Ranks(probes, timeout, ranked) ==> HasV6(ranked)) <==>
              SomeV6Answers(probes, timeout) &&
              (!Fast(probes) || |Ahead(probes, timeout)| < MIN_RESULTS_FOR_FAST_RETURN)
  {
    if SomeV6Answers(probes, timeout) &&
       (!Fast(probes) || |Ahead(probes, timeout)| < MIN_RESULTS_FOR_FAST_RETURN) {
      forall ranked | Ranks(probes, timeout, ranked) ensures HasV6(ranked) {
        SeenUnlessOutrun(probes, timeout, ranked);
      }
    } else {
      var ranked;
      if SomeV6Answers(probes, timeout) {
        ranked := Outrun(probes, timeout);
      } else {
        ranked := Absent(probes, timeout);
      }
    }
  }

  /** For example, an IPv6 address at the head of the list that is faster than the IPv4 addresses is never missed. */
  lemma FasterHeadIsSeen(v: Probe, a: Probe, b: Probe, c: Probe, timeout: nat, ranked: seq<IpAddr>)
    requires v.0.V6? && v.1 < a.1 && v.1 < b.1 && v.1 < c.1 && v.1 < timeout
    requires Ranks([v, a, b, c], timeout, ranked)
    ensures HasV6(ranked)
  {
    var probes := [v, a, b, c];
    assert V6Answers(probes, timeout, 0);
    assert forall i: nat :: !AheadOfV6(probes, timeout, i);
    assert Ahead(probes, timeout) == {};
    SeenUnlessOutrun(probes, timeout, ranked);
  }

  datatype IpSelectResult = BestIp(ip: IpAddr) | AllUnreachable(ips: seq<IpAddr>)

  datatype IpProbeResult = IpProbeResult(ip: IpAddr, latency: nat, reachable: bool)

  /** The first of the fastest reachable addresses, or all of them when none is reachable. */
  method PickBest(results: seq<IpProbeResult>) returns (r: IpSelectResult)
    ensures r.BestIp? <==> exists i :: 0 <= i < |results| && results[i].reachable
    ensures r.BestIp? ==> exists i :: 0 <= i < |results| && results[i].ip == r.ip && IsFirstFastest(results, i)
    ensures r.AllUnreachable? ==> |r.ips| == |results| && forall i :: 0 <= i < |results| ==> r.ips[i] == results[i].ip
  {
    var best := -1;
    for i := 0 to |results|
      invariant -1 <= best < i
      invariant best == -1 ==> forall j :: 0 <= j < i ==> !results[j].reachable
      invariant best >= 0 ==> IsFirstFastest(results[..i], best)
    {
      assert results[..i + 1] == results[..i] + [results[i]];
      if results[i].reachable && (best == -1 || results[i].latency < results[best].latency) {
        best := i;
      }
    }
    assert results[..|results|] == results;
    if best == -1 {
      return AllUnreachable(seq(|results|, i requires 0 <= i < |results| => results[i].ip));
    }
    r := BestIp(results[best].ip);
  }

  predicate IsFirstFastest(results: seq<IpProbeResult>, i: nat)
    requires i < |results|
  {
    && results[i].reachable
    && (forall j :: 0 <= j < |results| && results[j].reachable ==> results[i].latency <= results[j].latency)
    && (forall j :: 0 <= j < i && results[j].reachable ==> results[i].latency < results[j].latency)
  }

  // ---------- The prober ----------

  class IpProber {
    const probeTimeout: nat
    const breakerCfg: BreakerConfig
    const bestIpCache: EvictableCache<string, IpAddr>
    var breaker: Breaker

    ghost predicate Valid()
      reads this, bestIpCache
    {
      bestIpCache.Valid()
    }

    constructor (probeTimeout: nat, breakerCfg: BreakerConfig, cache: EvictableCache<string, IpAddr>)
      requires cache.Valid()
      ensures Valid() && this.probeTimeout == probeTimeout && this.breakerCfg == breakerCfg && bestIpCache == cache
      ensures breaker == Breaker(0, None)
    {
      this.probeTimeout, this.breakerCfg, bestIpCache := probeTimeout, breakerCfg, cache;
      breaker := Breaker(0, None);
    }

    method RecordIpv6ProbeResult(success: bool, now: nat)
      modifies this`breaker
      ensures breaker == Recorded(breakerCfg, old(breaker), success, now)
    {
      if breakerCfg.threshold == 0 {
        return;
      }
      if success {
        breaker := breaker.(consecutiveFailures := 0);
        if breaker.disabledUntil.Some? {
          breaker := breaker.(disabledUntil := None);
        }
      } else {
        var failures := breaker.consecutiveFailures + 1;
        breaker := breaker.(consecutiveFailures := failures);
        if failures >= breakerCfg.threshold {
          breaker := breaker.(disabledUntil := Some(now + breakerCfg.recovery));
        }
      }
    }

    /** The streaming collection: the waits of the probes and the time each is noticed are arbitrary. */
    method Collect(probes: seq<Probe>) returns (results: seq<Probe>)
      ensures CollectsTo(probes, probeTimeout, results)
    {
      var starts := ArbitraryTurns(|probes|);
      ghost var events, s;
      results, events, s := CollectLoop(Probing(probes, starts, probeTimeout));
    }

    method ArbitraryTurns(n: nat) returns (starts: seq<nat>)
      ensures |starts| == n && forall i, j :: 0 <= i < j < n ==> starts[i] <= starts[j]
    {
      starts := [];
      var last: nat := 0;
      while |starts| < n
        invariant |starts| <= n && forall i :: 0 <= i < |starts| ==> starts[i] <= last
        invariant forall i, j :: 0 <= i < j < |starts| ==> starts[i] <= starts[j]
      {
        var next: nat :| next >= last;
        starts, last := starts + [next], next;
      }
    }

    method CollectLoop(w: Probing) returns (results: seq<Probe>, ghost events: seq<Finish>, ghost s: Collecting)
      requires InTurn(w)
      ensures EndsWith(w, events, s, results)
    {
      var fastReturnEnabled := |w.probes| > MIN_RESULTS_FOR_FAST_RETURN;
      var tasks := AllBelow(|w.probes|);
      var finished: seq<nat> := [];
      var now: nat := 0;
      results, events, s := [], [], StartOf(w.probes);
      while tasks != {}
        invariant Reaches(w, events, s) && s == Collecting(tasks, finished, s.failed, now, false)
        invariant (forall i :: i in tasks ==> i < |w.probes|)
        invariant AllIndices(finished, |w.probes|) && results == Pick(w.probes, finished)
        decreases tasks
      {
        ghost var first := SomethingComesNext(w, tasks);
        var k: nat :| k in tasks && ComesNext(w, tasks, k);
        var answers := w.probes[k].1 < w.timeout;
        var soonest := if answers && Due(w, k) > now then Due(w, k) else now;
        var at: nat :| at >= soonest;
        ExtendCollection(w, events, s, Finish(k, at));
        events, s := events + [Finish(k, at)], AfterFinish(w, s, Finish(k, at));
        tasks, now := tasks - {k}, at;
        if answers {
          results, finished := results + [w.probes[k]], finished + [k];
        }
        if fastReturnEnabled && |results| >= MIN_RESULTS_FOR_FAST_RETURN && at >= FAST_RETURN_TIMEOUT {
          break;
        }
      }
      // the source's second loop is entered only with fewer than three results and tasks left: never
      assert !(|results| < MIN_RESULTS_FOR_FAST_RETURN && tasks != {});
    }

    /** Collects, and ranks what was collected; also whether an IPv6 address is among it. */
    method CollectAndRank(probes: seq<Probe>) returns (ranked: seq<IpAddr>, ipv6Reachable: bool)
      ensures Ranks(probes, probeTimeout, ranked) && ipv6Reachable == HasV6(ranked)
    {
      var results := Collect(probes);
      ipv6Reachable := HasV6(Addresses(results));
      ranked := Addresses(SortByLatency(results));
      SortKeepsFamilies(results);
    }

    /**
      `select_ranked_ips`.  latency gives the i-th probed address's latency; started, recorded and
      stored are when the breaker is asked, when it is told, and when the winner is cached.
     */
    method SelectRankedIps(
      domain: string, ips: seq<IpAddr>, latency: nat -> nat,
      started: nat, recorded: nat, stored: nat, evictAt: nat, reading: nat)
      returns (ranked: seq<IpAddr>)
      requires Valid()
      modifies this`breaker, bestIpCache, bestIpCache.clock
      ensures Valid()
      ensures var probed := ToProbe(ips, ProbesIpv6(breakerCfg, old(breaker), started));
              Ranks(Timed(probed, latency), probeTimeout, ranked)
      // the breaker hears of this call only if it allowed IPv6 and there was some
      ensures breaker == if ProbesIpv6(breakerCfg, old(breaker), started) && HasV6(ips)
                         then Recorded(breakerCfg, old(breaker), HasV6(ranked), recorded) else old(breaker)
      // the head of the ranking is what is remembered
      ensures ranked != [] ==>
        bestIpCache.Abs() == Caches.Apply(
          bestIpCache.cfg, old(bestIpCache.Abs()), Op.Insert(domain, ranked[0], stored, evictAt, reading))
      ensures ranked == [] ==> bestIpCache.Abs() == old(bestIpCache.Abs())
    {
      if ips == [] {
        NothingToRank(latency);
        return [];
      }
      var ipv4Ips, hasIpv6 := OnlyV4(ips), HasV6(ips);
      var probeIpv6 := ProbesIpv6(breakerCfg, breaker, started);
      var mustProbeIpv6 := ipv4Ips == [] && hasIpv6;
      EitherFamily(ips);
      var ipsToProbe := if probeIpv6 || mustProbeIpv6 then ips else ipv4Ips;
      var ipv6Reachable;
      ranked, ipv6Reachable := CollectAndRank(Timed(ipsToProbe, latency));
      if probeIpv6 && hasIpv6 {
        RecordIpv6ProbeResult(ipv6Reachable, recorded);
      }
      if ranked != [] {
        bestIpCache.Insert(domain, ranked[0], stored, evictAt, reading);
      }
    }

    lemma NothingToRank(latency: nat -> nat)
      ensures Ranks(Timed([], latency), probeTimeout, [])
    {
      var none := Timed([], latency);
      assert EndsWith(Probing(none, [], probeTimeout), [], StartOf(none), []);
      assert CollectsTo(none, probeTimeout, []);
    }
  }

  lemma {:induction false} SortKeepsFamilies(results: seq<Probe>)
    ensures HasV6(Addresses(results)) <==> HasV6(Addresses(SortByLatency(results)))
  {
    SortSorts(results);
    var sorted := SortByLatency(results);
    if HasV6(Addresses(results)) {
      FamiliesWithin(results, sorted);
    }
    if HasV6(Addresses(sorted)) {
      FamiliesWithin(sorted, results);
    }
  }

  lemma {:induction false} FamiliesWithin(a: seq<Probe>, b: seq<Probe>)
    requires multiset(a) <= multiset(b) && HasV6(Addresses(a))
    ensures HasV6(Addresses(b))
  {
    AddressesOfSub(a, b);
    var x, y := Addresses(a), Addresses(b);
    var i :| 0 <= i < |x| && x[i].V6?;
    assert x[i] in multiset(y);
  }
}
