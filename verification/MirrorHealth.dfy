/**
  Mirror health: a mirror that fails several times in a row is set aside for a while, and among the
  usable ones the fastest on average is preferred.  Response times are reals; instants are numbers.
*/
module MirrorHealths {
  import opened Common

  datatype Health = Health(
    consecutiveFailures: nat, totalSuccesses: nat, totalFailures: nat,
    avgResponseTime: real, responseTimeCount: nat, disabledAt: Option<nat>)

  const DEFAULT: Health := Health(0, 0, 0, 0.0, 0, None)

  datatype Config = Config(threshold: nat, recovery: nat)

  predicate ValidConfig(cfg: Config) { cfg.threshold >= 1 }

  datatype Event = Success(ms: real) | Failure(at: nat) | Query(at: nat)

  // ---------- One mirror ----------

  function Average(h: Health, ms: real): real {
    if h.responseTimeCount == 0 then ms else 0.3 * ms + 0.7 * h.avgResponseTime
  }

  predicate Recovers(cfg: Config, h: Health, now: nat) {
    h.disabledAt.Some? && SaturatingSub(now, h.disabledAt.value) >= cfg.recovery
  }

  function Step(cfg: Config, h: Health, e: Event): Health {
    match e
    case Success(ms) =>
      Health(0, h.totalSuccesses + 1, h.totalFailures, Average(h, ms), h.responseTimeCount + 1, None)
    case Failure(at) =>
      var n := h.consecutiveFailures + 1;
      h.(consecutiveFailures := n, totalFailures := h.totalFailures + 1,
         disabledAt := if n >= cfg.threshold && h.disabledAt.None? then Some(at) else h.disabledAt)
    case Query(at) =>
      if Recovers(cfg, h, at) then h.(disabledAt := None, consecutiveFailures := 0) else h
  }

  predicate Available(cfg: Config, h: Health, now: nat) {
    h.disabledAt.None? || Recovers(cfg, h, now)
  }

  function Run(cfg: Config, h: Health, events: seq<Event>): Health {
    if events == [] then h else Step(cfg, Run(cfg, h, events[..|events| - 1]), events[|events| - 1])
  }

  function Times(events: seq<Event>): seq<real> {
    if events == [] then [] else
    var n := |events| - 1;
    Times(events[..n]) + if events[n].Success? then [events[n].ms] else []
  }

  predicate Within(x: real, s: seq<real>) {
    (exists i :: 0 <= i < |s| && s[i] <= x) && (exists i :: 0 <= i < |s| && x <= s[i])
  }

  lemma BlendWithin(ms: real, avg: real, s: seq<real>)
    requires Within(avg, s)
    ensures Within(0.3 * ms + 0.7 * avg, s + [ms])
  {
    var t := s + [ms];
    var lo :| 0 <= lo < |s| && s[lo] <= avg;
    var hi :| 0 <= hi < |s| && avg <= s[hi];
    assert t[lo] == s[lo] && t[hi] == s[hi] && t[|s|] == ms;
    var x := 0.3 * ms + 0.7 * avg;
    assert if ms <= avg then t[|s|] <= x <= t[hi] else t[lo] <= x <= t[|s|];
  }

  /**
    In every run from a fresh record: the mirror is marked disabled exactly while its consecutive
    failures have reached the threshold, and the average lies between the least and the greatest
    response time recorded.
   */
  lemma {:induction false} EveryRun(cfg: Config, events: seq<Event>)
    requires ValidConfig(cfg)
    ensures var h := Run(cfg, DEFAULT, events);
            && (h.disabledAt.Some? <==> h.consecutiveFailures >= cfg.threshold)
            && h.responseTimeCount == h.totalSuccesses == |Times(events)|
            && (if Times(events) == [] then h.avgResponseTime == 0.0 else Within(h.avgResponseTime, Times(events)))
  {
    if events != [] {
      var n := |events| - 1;
      EveryRun(cfg, events[..n]);
      var h := Run(cfg, DEFAULT, events[..n]);
      assert Times(events[..n]) + [] == Times(events[..n]);
      match events[n]
      case Success(ms) =>
        if Times(events[..n]) == [] {
          assert Times(events)[0] == ms;
        } else {
          BlendWithin(ms, h.avgResponseTime, Times(events[..n]));
        }
      case Failure(_) =>
      case Query(_) =>
    }
  }

  /** When the failures among the events happened. */
  function FailureTimes(events: seq<Event>): seq<nat> {
    if events == [] then [] else
    var n := |events| - 1;
    FailureTimes(events[..n]) + if events[n].Failure? then [events[n].at] else []
  }

  /** The j-th event clears the record: a success, or a query once the recovery time is over. */
  predicate Resets(cfg: Config, events: seq<Event>, j: nat)
    requires j < |events|
  {
    match events[j]
    case Success(_) => true
    case Failure(_) => false
    case Query(at) =>
      var disabledAt := Run(cfg, DEFAULT, events[..j]).disabledAt;
      disabledAt.Some? && (cfg.recovery == 0 || at >= disabledAt.value + cfg.recovery)
  }

  /** Event m - 1 is the last to clear the record, or m is 0 and none is. */
  ghost predicate LastReset(cfg: Config, events: seq<Event>, m: nat) {
    && m <= |events|
    && (m > 0 ==> Resets(cfg, events, m - 1))
    && forall j :: m <= j < |events| ==> !Resets(cfg, events, j)
  }

  lemma LastResetKept(cfg: Config, events: seq<Event>, m: nat)
    requires events != [] && LastReset(cfg, events[..|events| - 1], m) && !Resets(cfg, events, |events| - 1)
    ensures LastReset(cfg, events, m)
  {
    var n := |events| - 1;
    forall j: nat | j < n ensures Resets(cfg, events, j) == Resets(cfg, events[..n], j) {
      assert events[..n][..j] == events[..j];
    }
  }

  /**
    In every run: the consecutive failures are exactly the failures since the record was last cleared,
    and the mirror is disabled since the one of them that reached the threshold, if there is one.
   */
  lemma {:induction false} FailuresSinceReset(cfg: Config, events: seq<Event>) returns (m: nat)
    requires ValidConfig(cfg)
    ensures LastReset(cfg, events, m)
    ensures var h := Run(cfg, DEFAULT, events);
            var failures := FailureTimes(events[m..]);
            && h.consecutiveFailures == |failures|
            && h.disabledAt == if |failures| >= cfg.threshold then Some(failures[cfg.threshold - 1]) else None
  {
    m := 0;
    if events != [] {
      var n := |events| - 1;
      m := FailuresSinceReset(cfg, events[..n]);
      if Resets(cfg, events, n) {
        m := |events|;
        assert events[m..] == [];
      } else {
        LastResetKept(cfg, events, m);
        assert events[m..][..n - m] == events[..n][m..];
        assert FailureTimes(events[..n][m..]) + [] == FailureTimes(events[..n][m..]);
      }
    }
  }

  // ---------- The average ----------

  /** 0.7 to the k-th */
  function Decay(k: nat): real {
    if k == 0 then 1.0 else 0.7 * Decay(k - 1)
  }

  /** Of n response times the i-th weighs 0.7^(n-1-i), all but the first 0.3 times that. */
  function Weight(n: nat, i: nat): real
    requires i < n
  {
    if i == 0 then Decay(n - 1) else 0.3 * Decay(n - 1 - i)
  }

  /** The weighted sum of the first i of the times. */
  function WeightedSum(times: seq<real>, i: nat): real
    requires i <= |times|
  {
    if i == 0 then 0.0 else WeightedSum(times, i - 1) + Weight(|times|, i - 1) * times[i - 1]
  }

  lemma {:induction false} OneMoreTime(times: seq<real>, ms: real, i: nat)
    requires i <= |times|
    ensures WeightedSum(times + [ms], i) == 0.7 * WeightedSum(times, i)
  {
    if i > 0 {
      OneMoreTime(times, ms, i - 1);
      assert Weight(|times| + 1, i - 1) == 0.7 * Weight(|times|, i - 1);
    }
  }

  /** In every run the average is the exponentially weighted sum of all the response times. */
  lemma {:induction false} AverageIsWeighted(cfg: Config, events: seq<Event>)
    requires ValidConfig(cfg)
    ensures Run(cfg, DEFAULT, events).avgResponseTime == WeightedSum(Times(events), |Times(events)|)
  {
    if events != [] {
      var n := |events| - 1;
      var before := Times(events[..n]);
      AverageIsWeighted(cfg, events[..n]);
      EveryRun(cfg, events[..n]);
      assert before + [] == before;
      if events[n].Success? {
        OneMoreTime(before, events[n].ms, |before|);
        assert Decay(0) == 1.0;
      }
    }
  }

  /**
    Once disabled at time t a mirror stays disabled since t, whatever further failures and whatever
    queries before t + recovery come, as long as no success does; a query from t on answers
    "unavailable" exactly in that time.
   */
  lemma {:induction false} DisabledUntilRecovery(cfg: Config, h: Health, events: seq<Event>, now: nat)
    requires h.disabledAt.Some?
    requires forall i :: 0 <= i < |events| ==> !events[i].Success?
    requires forall i :: 0 <= i < |events| && events[i].Query? ==>
      h.disabledAt.value <= events[i].at < h.disabledAt.value + cfg.recovery
    ensures Run(cfg, h, events).disabledAt == h.disabledAt
    ensures now >= h.disabledAt.value ==>
      (Available(cfg, Run(cfg, h, events), now) <==> now >= h.disabledAt.value + cfg.recovery)
  {
    if events != [] {
      DisabledUntilRecovery(cfg, h, events[..|events| - 1], now);
    }
  }

  // ---------- The tracker ----------

  /** None is a mirror never heard of, slower than any average. */
  predicate NoSlower(a: Option<real>, b: Option<real>) {
    b.None? || (a.Some? && a.value <= b.value)
  }

  function HealthIn(health: map<string, Health>, mirror: string): Health {
    if mirror in health then health[mirror] else DEFAULT
  }

  function TimeIn(health: map<string, Health>, mirror: string): Option<real> {
    if mirror in health then Some(health[mirror].avgResponseTime) else None
  }

  /** The tracker's map after one event of a mirror; a query of an unknown mirror records nothing. */
  function HealthStep(cfg: Config, health: map<string, Health>, mirror: string, e: Event): map<string, Health> {
    if e.Query? && mirror !in health then health else health[mirror := Step(cfg, HealthIn(health, mirror), e)]
  }

  class MirrorHealthTracker {
    var health: map<string, Health>
    const cfg: Config

    constructor (failureThreshold: nat, recovery: nat)
      ensures health == map[] && cfg.recovery == recovery && ValidConfig(cfg)
      ensures cfg.threshold == if failureThreshold >= 1 then failureThreshold else 1
    {
      health := map[];
      cfg := Config(if failureThreshold >= 1 then failureThreshold else 1, recovery);
    }

    function HealthOf(mirror: string): Health
      reads this
    {
      HealthIn(health, mirror)
    }

    function TimeOf(mirror: string): Option<real>
      reads this
    {
      TimeIn(health, mirror)
    }

    method RecordSuccess(mirror: string, ms: real)
      modifies this
      ensures health == HealthStep(cfg, old(health), mirror, Success(ms))
    {
      var h := HealthOf(mirror);
      h := h.(consecutiveFailures := 0, totalSuccesses := h.totalSuccesses + 1);
      if h.responseTimeCount == 0 {
        h := h.(avgResponseTime := ms);
      } else {
        h := h.(avgResponseTime := 0.3 * ms + 0.7 * h.avgResponseTime);
      }
      h := h.(responseTimeCount := h.responseTimeCount + 1);
      if h.disabledAt.Some? {
        h := h.(disabledAt := None);
      }
      health := health[mirror := h];
    }

    method RecordFailure(mirror: string, now: nat)
      modifies this
      ensures health == HealthStep(cfg, old(health), mirror, Failure(now))
    {
      var h := HealthOf(mirror);
      h := h.(consecutiveFailures := h.consecutiveFailures + 1, totalFailures := h.totalFailures + 1);
      if h.consecutiveFailures >= cfg.threshold && h.disabledAt.None? {
        h := h.(disabledAt := Some(now));
      }
      health := health[mirror := h];
    }

    method IsAvailable(mirror: string, now: nat) returns (r: bool)
      modifies this
      ensures r == Available(cfg, old(HealthOf(mirror)), now)
      ensures health == HealthStep(cfg, old(health), mirror, Query(now))
      ensures health.Keys == old(health).Keys
      ensures HealthOf(mirror) == Step(cfg, old(HealthOf(mirror)), Query(now))
      ensures forall m :: m != mirror ==> HealthOf(m) == old(HealthOf(m))
    {
      if mirror in health {
        var h := health[mirror];
        if h.disabledAt.Some? {
          if SaturatingSub(now, h.disabledAt.value) >= cfg.recovery {
            health := health[mirror := h.(disabledAt := None, consecutiveFailures := 0)];
            return true;
          }
          return false;
        }
        return true;
      }
      return true;
    }

    /** The mirrors of a list that are available, in order; asking lets those whose time is up recover. */
    method AvailableOnes(mirrors: seq<string>, now: nat) returns (available: seq<string>)
      modifies this
      ensures health == AskAll(cfg, old(health), mirrors, now)
      ensures available == Usable(cfg, old(health), mirrors, now)
    {
      available := [];
      for i := 0 to |mirrors|
        invariant health == AskAll(cfg, old(health), mirrors[..i], now)
        invariant available == Usable(cfg, old(health), mirrors[..i], now)
      {
        assert mirrors[..i + 1][..i] == mirrors[..i];
        AskedOnce(cfg, old(health), mirrors[..i], mirrors[i], now);
        var ok := IsAvailable(mirrors[i], now);
        if ok {
          available := available + [mirrors[i]];
        }
      }
      assert mirrors[..|mirrors|] == mirrors;
    }

    /** The first of the fastest available mirrors. */
    method GetBestMirror(mirrors: seq<string>, now: nat) returns (best: Option<string>)
      modifies this
      ensures health.Keys == old(health).Keys
      ensures forall m :: HealthOf(m) == Asked(cfg, old(health), mirrors, m, now)
      ensures var usable := Usable(cfg, old(health), mirrors, now);
              && (best.None? <==> usable == [])
              && (best.Some? ==>
                    exists i :: 0 <= i < |usable| && usable[i] == best.value && FirstFastest(old(health), usable, i))
    {
      var available := AvailableOnes(mirrors, now);
      AskedOnce(cfg, old(health), mirrors, "", now);
      forall m ensures TimeOf(m) == TimeIn(old(health), m) && HealthOf(m) == Asked(cfg, old(health), mirrors, m, now) {
        AskedOnce(cfg, old(health), mirrors, m, now);
      }
      if available == [] {
        return None;
      }
      if |available| == 1 {
        assert FirstFastest(old(health), available, 0);
        return Some(available[0]);
      }
      var k := 0;
      for i := 1 to |available|
        invariant 0 <= k < i
        invariant forall j :: 0 <= j < i ==> NoSlower(TimeOf(available[k]), TimeOf(available[j]))
        invariant forall j :: 0 <= j < k ==> !NoSlower(TimeOf(available[j]), TimeOf(available[k]))
      {
        if !NoSlower(TimeOf(available[k]), TimeOf(available[i])) {
          k := i;
        }
      }
      assert FirstFastest(old(health), available, k);
      best := Some(available[k]);
    }
  }

  /** No mirror of the list is faster than the i-th, and each one before it is slower. */
  ghost predicate FirstFastest(health: map<string, Health>, mirrors: seq<string>, i: nat)
    requires i < |mirrors|
  {
    && (forall j :: 0 <= j < |mirrors| ==> NoSlower(TimeIn(health, mirrors[i]), TimeIn(health, mirrors[j])))
    && (forall j :: 0 <= j < i ==> !NoSlower(TimeIn(health, mirrors[j]), TimeIn(health, mirrors[i])))
  }

  lemma PositiveAverage(x: real, s: seq<real>)
    requires Within(x, s) && forall i :: 0 <= i < |s| ==> s[i] > 0.0
    ensures x > 0.0
  {
  }

  /**
    A mirror without a success keeps an average of zero through any number of failures, so while it is
    not disabled it is preferred to every mirror that has ever answered, if answers take positive time.
   */
  lemma OnlyFailuresBeatSuccesses(cfg: Config, failing: seq<Event>, answering: seq<Event>)
    requires ValidConfig(cfg) && Times(failing) == [] && Times(answering) != []
    requires forall i :: 0 <= i < |Times(answering)| ==> Times(answering)[i] > 0.0
    ensures Run(cfg, DEFAULT, failing).avgResponseTime < Run(cfg, DEFAULT, answering).avgResponseTime
  {
    EveryRun(cfg, failing);
    EveryRun(cfg, answering);
    PositiveAverage(Run(cfg, DEFAULT, answering).avgResponseTime, Times(answering));
  }

  // ---------- Which mirror is chosen ----------

  /** The tracker's map after any events of any mirrors. */
  function HealthAfter(cfg: Config, calls: seq<(string, Event)>): map<string, Health> {
    if calls == [] then map[] else
    var n := |calls| - 1;
    HealthStep(cfg, HealthAfter(cfg, calls[..n]), calls[n].0, calls[n].1)
  }

  /** The events of mirror m since it is on record. */
  function EventsOf(calls: seq<(string, Event)>, m: string): seq<Event> {
    if calls == [] then [] else
    var n := |calls| - 1;
    var earlier := EventsOf(calls[..n], m);
    if calls[n].0 == m && !(calls[n].1.Query? && earlier == []) then earlier + [calls[n].1] else earlier
  }

  /** Each mirror has its own run; it is on record when it has succeeded or failed. */
  lemma {:induction false} MirrorsAreIndependent(cfg: Config, calls: seq<(string, Event)>, m: string)
    ensures HealthIn(HealthAfter(cfg, calls), m) == Run(cfg, DEFAULT, EventsOf(calls, m))
    ensures m in HealthAfter(cfg, calls) <==> EventsOf(calls, m) != []
  {
    if calls != [] {
      var n := |calls| - 1;
      MirrorsAreIndependent(cfg, calls[..n], m);
      var earlier := EventsOf(calls[..n], m);
      assert (earlier + [calls[n].1])[..|earlier|] == earlier;
    }
  }

  ghost predicate PositiveTimes(events: seq<Event>) {
    forall i :: 0 <= i < |events| && events[i].Success? ==> events[i].ms > 0.0
  }

  ghost predicate PositiveCalls(calls: seq<(string, Event)>) {
    forall i :: 0 <= i < |calls| && calls[i].1.Success? ==> calls[i].1.ms > 0.0
  }

  lemma {:induction false} TimesArePositive(events: seq<Event>)
    requires PositiveTimes(events)
    ensures forall i :: 0 <= i < |Times(events)| ==> Times(events)[i] > 0.0
  {
    if events != [] {
      TimesArePositive(events[..|events| - 1]);
    }
  }

  lemma {:induction false} EventsArePositive(calls: seq<(string, Event)>, m: string)
    requires PositiveCalls(calls)
    ensures PositiveTimes(EventsOf(calls, m))
  {
    if calls != [] {
      EventsArePositive(calls[..|calls| - 1], m);
    }
  }

  predicate Answered(health: map<string, Health>, m: string) {
    HealthIn(health, m).totalSuccesses > 0
  }

  /** With positive times an average is positive exactly when the mirror has answered, and 0 otherwise. */
  lemma AverageTellsAnswered(cfg: Config, calls: seq<(string, Event)>, m: string)
    requires ValidConfig(cfg) && PositiveCalls(calls)
    ensures var h := HealthIn(HealthAfter(cfg, calls), m);
            if Answered(HealthAfter(cfg, calls), m) then h.avgResponseTime > 0.0 else h.avgResponseTime == 0.0
    ensures Answered(HealthAfter(cfg, calls), m) ==> m in HealthAfter(cfg, calls)
  {
    var events := EventsOf(calls, m);
    MirrorsAreIndependent(cfg, calls, m);
    EventsArePositive(calls, m);
    TimesArePositive(events);
    EveryRun(cfg, events);
    if Times(events) != [] {
      PositiveAverage(Run(cfg, DEFAULT, events).avgResponseTime, Times(events));
    }
  }

  /**
    After any events: the chosen mirror is on record if any usable one is, its weighted response time is
    then the least of those on record, and no earlier one in the list has the same.
   */
  lemma ChosenIsFastest(cfg: Config, calls: seq<(string, Event)>, usable: seq<string>, i: nat, j: nat)
    requires ValidConfig(cfg) && i < |usable| && j < |usable|
    requires FirstFastest(HealthAfter(cfg, calls), usable, i) && EventsOf(calls, usable[j]) != []
    ensures EventsOf(calls, usable[i]) != []
    ensures var chosen, other := Times(EventsOf(calls, usable[i])), Times(EventsOf(calls, usable[j]));
            && WeightedSum(chosen, |chosen|) <= WeightedSum(other, |other|)
            && (j < i ==> WeightedSum(chosen, |chosen|) < WeightedSum(other, |other|))
  {
    var health := HealthAfter(cfg, calls);
    MirrorsAreIndependent(cfg, calls, usable[i]);
    MirrorsAreIndependent(cfg, calls, usable[j]);
    AverageIsWeighted(cfg, EventsOf(calls, usable[i]));
    AverageIsWeighted(cfg, EventsOf(calls, usable[j]));
    assert NoSlower(TimeIn(health, usable[i]), TimeIn(health, usable[j]));
  }

  /** On record, but without a single success. */
  predicate OnlyFailed(health: map<string, Health>, m: string) {
    m in health && !Answered(health, m)
  }

  /**
    After any events with positive times, if some usable mirror has answered: the one chosen has answered
    exactly when no usable mirror is on record without a success.
   */
  lemma ChosenHasAnswered(cfg: Config, calls: seq<(string, Event)>, usable: seq<string>, i: nat, j: nat)
    requires ValidConfig(cfg) && PositiveCalls(calls)
    requires i < |usable| && FirstFastest(HealthAfter(cfg, calls), usable, i)
    requires j < |usable| && Answered(HealthAfter(cfg, calls), usable[j])
    ensures var health := HealthAfter(cfg, calls);
            Answered(health, usable[i]) <==> forall k :: 0 <= k < |usable| ==> !OnlyFailed(health, usable[k])
  {
    var health := HealthAfter(cfg, calls);
    AverageTellsAnswered(cfg, calls, usable[i]);
    AverageTellsAnswered(cfg, calls, usable[j]);
    assert NoSlower(TimeIn(health, usable[i]), TimeIn(health, usable[j]));
    if k :| 0 <= k < |usable| && OnlyFailed(health, usable[k]) {
      AverageTellsAnswered(cfg, calls, usable[k]);
      assert NoSlower(TimeIn(health, usable[i]), TimeIn(health, usable[k]));
    }
  }

  /** The smallest input: mirror a answers, mirror b fails once, and b is chosen. */
  method FailedMirrorIsChosen(a: string, b: string, threshold: nat, recovery: nat, now: nat)
    returns (best: Option<string>)
    requires a != b && threshold > 1
    ensures best == Some(b)
  {
    var tracker := new MirrorHealthTracker(threshold, recovery);
    tracker.RecordSuccess(a, 20.0);
    tracker.RecordFailure(b, now);
    BothUsable(tracker.cfg, tracker.health, a, b, now);
    ghost var health := tracker.health;
    assert !NoSlower(TimeIn(health, a), TimeIn(health, b));
    best := tracker.GetBestMirror([a, b], now);
  }

  lemma BothUsable(cfg: Config, health: map<string, Health>, a: string, b: string, now: nat)
    requires Available(cfg, HealthIn(health, a), now) && Available(cfg, HealthIn(health, b), now)
    ensures Usable(cfg, health, [a, b], now) == [a, b]
  {
    FilterAll((m: string) => Available(cfg, HealthIn(health, m), now), [a, b]);
  }

  /** The record of m once every mirror of the list has been asked whether it is available. */
  function Asked(cfg: Config, health: map<string, Health>, mirrors: seq<string>, m: string, now: nat): Health {
    if m in mirrors then Step(cfg, HealthIn(health, m), Query(now)) else HealthIn(health, m)
  }

  function Usable(cfg: Config, health: map<string, Health>, mirrors: seq<string>, now: nat): seq<string> {
    Filter((m: string) => Available(cfg, HealthIn(health, m), now), mirrors)
  }

  /** Usable are, in order, the mirrors not disabled and those disabled no less than the recovery time ago. */
  lemma WhatIsUsable(cfg: Config, health: map<string, Health>, mirrors: seq<string>, now: nat) returns (at: seq<nat>)
    ensures PickedFrom(Usable(cfg, health, mirrors, now), mirrors, at)
    ensures forall j: nat :: j in at <==>
      j < |mirrors| &&
      var disabledAt := HealthIn(health, mirrors[j]).disabledAt;
      disabledAt.None? || cfg.recovery == 0 || now >= disabledAt.value + cfg.recovery
  {
    var available := (m: string) => Available(cfg, HealthIn(health, m), now);
    at := FilterPicks(available, mirrors);
    assert Exactly(available, mirrors, at);
  }

  /** Asking every mirror of a list, in order. */
  function AskAll(cfg: Config, health: map<string, Health>, mirrors: seq<string>, now: nat): map<string, Health> {
    if mirrors == [] then health else
    var n := |mirrors| - 1;
    HealthStep(cfg, AskAll(cfg, health, mirrors[..n], now), mirrors[n], Query(now))
  }

  /** However often a list names a mirror, asking it once at that time is all that happens to it. */
  lemma {:induction false} AskedOnce(
    cfg: Config, health: map<string, Health>, mirrors: seq<string>, m: string, now: nat)
    ensures var after := AskAll(cfg, health, mirrors, now);
            && after.Keys == health.Keys
            && HealthIn(after, m) == Asked(cfg, health, mirrors, m, now)
            && TimeIn(after, m) == TimeIn(health, m)
            && Available(cfg, HealthIn(after, m), now) == Available(cfg, HealthIn(health, m), now)
  {
    if mirrors != [] {
      var n := |mirrors| - 1;
      AskedOnce(cfg, health, mirrors[..n], m, now);
      QueryTwice(cfg, HealthIn(health, m), now);
      assert mirrors == mirrors[..n] + [mirrors[n]];
    }
  }

  /** Asking again at the same time gives the same answer and changes nothing more. */
  lemma QueryTwice(cfg: Config, h: Health, now: nat)
    ensures var h' := Step(cfg, h, Query(now));
            Available(cfg, h', now) == Available(cfg, h, now) && Step(cfg, h', Query(now)) == h'
  {
  }
}
