/**
  The streaming connection race: addresses remembered from earlier successes are dialled at once,
  DoH is asked only after they have had their trial time, and each address the resolver streams back
  is dialled as it arrives unless it was seen before.  An attempt is named by its place in the order
  of dialling.
*/
module StreamRace {
  import opened Common
  import opened RecencyList
  import WorkingIps

  const TRIAL_TIMEOUT: nat := 2000   // milliseconds
  const CHANNEL_CAPACITY: nat := 32

  datatype Status =
    | Racing
    | Won(index: nat)
    | DohReturnedNothing   // the error raised when every branch of the select is disabled
    | EveryIpFailed        // the error raised when the last pending attempt fails

  datatype State = State(
    dialled: seq<IpAddr>,
    pending: set<nat>,
    failed: set<nat>,
    seenIps: set<IpAddr>,
    trialDeadline: Option<nat>,
    dnsStarted: bool,
    dnsDone: bool,
    dnsStarts: seq<nat>,     // when the resolver was started
    received: seq<IpAddr>,   // taken from the channel so far
    queue: seq<IpAddr>,      // in the channel
    toCome: seq<IpAddr>,     // not yet sent by the resolver
    closed: bool,            // every sender is gone
    now: nat,
    status: Status)

  datatype Event =
    | Completes(index: nat, at: nat)   // select: an attempt finished
    | DeadlineFires(at: nat)           // select: the trial time of the remembered addresses is over
    | Receives(at: nat)                // select: an address came out of the channel
    | AllDisabled(at: nat)             // select: the else branch
    | Sends(at: nat)                   // resolver: an address enters the channel
    | Closes(at: nat)                  // resolver: the last sender is dropped

  /** {0, ..., n-1} */
  ghost function Indices(n: nat): (r: set<nat>)
    ensures forall i: nat :: i in r <==> i < n
  {
    if n == 0 then {} else Indices(n - 1) + {n - 1}
  }

  /** The state on entering the loop; answers is what the resolver will send, in order, once started. */
  ghost function Start(working: seq<IpAddr>, answers: seq<IpAddr>, t0: nat): State {
    State(working, Indices(|working|), {}, Elements(working),
          if working != [] then Some(t0 + TRIAL_TIMEOUT) else None,
          working == [], false, if working == [] then [t0] else [], [], [], answers, false, t0, Racing)
  }

  predicate DeadlineBranch(s: State) { s.trialDeadline.Some? && !s.dnsStarted }

  predicate ReceiveBranch(s: State) { s.dnsStarted && !s.dnsDone }

  predicate Enabled(s: State, e: Event) {
    && s.status == Racing
    && s.now <= e.at
    && match e
       case Completes(i, _) => i in s.pending
       case DeadlineFires(at) => DeadlineBranch(s) && s.trialDeadline.value <= at
       case Receives(_) => ReceiveBranch(s) && s.queue != []
       case AllDisabled(_) =>
         s.pending == {} && !DeadlineBranch(s) && (ReceiveBranch(s) ==> s.queue == [] && s.closed)
       case Sends(_) => s.dnsStarted && s.toCome != [] && |s.queue| < CHANNEL_CAPACITY
       case Closes(_) => s.dnsStarted && s.toCome == [] && !s.closed
  }

  function Next(up: nat -> bool, s: State, e: Event): State
    requires Enabled(s, e)
  {
    match e
    case Completes(i, at) =>
      var s1 := s.(pending := s.pending - {i}, now := at);
      if up(i) then s1.(status := Won(i)) else
      var s2 := s1.(failed := s1.failed + {i});
      if s.dnsDone && s2.pending == {} then s2.(status := EveryIpFailed) else s2
    case DeadlineFires(at) => s.(dnsStarted := true, dnsStarts := s.dnsStarts + [at], now := at)
    case Receives(at) =>
      var ip := s.queue[0];
      var s1 := s.(queue := s.queue[1..], received := s.received + [ip], now := at);
      if ip in s.seenIps then s1 else
      s1.(seenIps := s.seenIps + {ip}, dialled := s.dialled + [ip], pending := s.pending + {|s.dialled|})
    case AllDisabled(at) =>
      if !s.dnsStarted then s.(now := at) else
      var s1 := s.(dnsDone := true, now := at);
      if s1.pending == {} then s1.(status := DohReturnedNothing) else s1
    case Sends(at) => s.(queue := s.queue + [s.toCome[0]], toCome := s.toCome[1..], now := at)
    case Closes(at) => s.(closed := true, now := at)
  }

  function After(up: nat -> bool, s: State, events: seq<Event>): Option<State>
    decreases |events|
  {
    if events == [] then Some(s) else
    if Enabled(s, events[0]) then After(up, Next(up, s, events[0]), events[1..]) else None
  }

  // ---------- What every run keeps ----------

  /** Which attempts are where: each one dialled is in flight, failed, or the winner. */
  ghost predicate Attempts(up: nat -> bool, s: State) {
    && s.pending !! s.failed
    && (forall i: nat :: i < |s.dialled| <==> i in s.pending || i in s.failed || s.status == Won(i))
    && (forall i :: i in s.failed ==> !up(i))
    && (s.status.Won? ==> up(s.status.index) && s.status.index < |s.dialled|)
  }

  /** Nothing the resolver sends is lost, and an address is dialled once however often it is sent. */
  ghost predicate Addresses(working: seq<IpAddr>, answers: seq<IpAddr>, s: State) {
    && s.received + s.queue + s.toCome == answers
    && s.seenIps == Elements(s.dialled) == Elements(working) + Elements(s.received)
    && working <= s.dialled
    && (Distinct(working) ==> Distinct(s.dialled))
    && |s.queue| <= CHANNEL_CAPACITY
  }

  /** When the resolver runs, and how a race can end. */
  ghost predicate Phases(working: seq<IpAddr>, t0: nat, s: State) {
    && s.trialDeadline == (if working != [] then Some(t0 + TRIAL_TIMEOUT) else None)
    && t0 <= s.now
    && (s.dnsStarted <==> |s.dnsStarts| == 1) && |s.dnsStarts| <= 1
    && (s.dnsStarted ==> s.dnsStarts[0] >= if working != [] then t0 + TRIAL_TIMEOUT else t0)
    && (!s.dnsStarted ==> working != [] && s.received == [] && s.queue == [] && !s.closed)
    && (s.closed ==> s.toCome == [])
    && (s.dnsDone <==> s.status == DohReturnedNothing)
    && s.status != EveryIpFailed
    && (s.status == DohReturnedNothing ==> s.dnsStarted && s.closed && s.queue == [] && s.pending == {})
  }

  ghost predicate Inv(working: seq<IpAddr>, answers: seq<IpAddr>, up: nat -> bool, t0: nat, s: State) {
    Attempts(up, s) && Addresses(working, answers, s) && Phases(working, t0, s)
  }

  lemma StartInv(working: seq<IpAddr>, answers: seq<IpAddr>, up: nat -> bool, t0: nat)
    ensures Inv(working, answers, up, t0, Start(working, answers, t0))
  {
  }

  lemma AttemptsKept(up: nat -> bool, s: State, e: Event)
    requires Attempts(up, s) && Enabled(s, e)
    ensures Attempts(up, Next(up, s, e))
  {
    if e.Completes? {
      assert s.pending == s.pending - {e.index} + {e.index};
    }
  }

  lemma ReceiveKeepsAddresses(working: seq<IpAddr>, answers: seq<IpAddr>, s: State, s': State)
    requires Addresses(working, answers, s) && s.queue != []
    requires s'.queue == s.queue[1..] && s'.toCome == s.toCome && s'.received == s.received + [s.queue[0]]
    requires if s.queue[0] in s.seenIps then s'.dialled == s.dialled && s'.seenIps == s.seenIps
             else s'.dialled == s.dialled + [s.queue[0]] && s'.seenIps == s.seenIps + {s.queue[0]}
    ensures Addresses(working, answers, s')
  {
    var ip := s.queue[0];
    assert s.queue == [ip] + s.queue[1..];
    assert s'.received + s'.queue == s.received + s.queue;
    assert Elements(s'.received) == Elements(s.received) + {ip};
    if ip in s.seenIps {
      assert Elements(s'.received) + Elements(working) == s.seenIps;
    } else {
      assert Elements(s'.dialled) == Elements(s.dialled) + {ip};
      assert ip !in Elements(s.dialled);
    }
  }

  lemma AddressesKept(working: seq<IpAddr>, answers: seq<IpAddr>, up: nat -> bool, s: State, e: Event)
    requires Addresses(working, answers, s) && Enabled(s, e)
    ensures Addresses(working, answers, Next(up, s, e))
  {
    if e.Receives? {
      ReceiveKeepsAddresses(working, answers, s, Next(up, s, e));
    } else if e.Sends? {
      assert s.toCome == [s.toCome[0]] + s.toCome[1..];
      assert s.received + (s.queue + [s.toCome[0]]) + s.toCome[1..] == s.received + s.queue + s.toCome;
    }
  }

  lemma PhasesKept(working: seq<IpAddr>, t0: nat, up: nat -> bool, s: State, e: Event)
    requires Phases(working, t0, s) && Enabled(s, e)
    ensures Phases(working, t0, Next(up, s, e))
    ensures e.AllDisabled? ==> Next(up, s, e).status == DohReturnedNothing
  {
  }

  function Measure(s: State): nat {
    3 * |s.toCome| + 2 * |s.queue| + |s.pending|
      + (if s.closed then 0 else 1) + (if s.dnsStarted then 0 else 1) + (if s.status == Racing then 1 else 0)
  }

  lemma StepKeepsInv(working: seq<IpAddr>, answers: seq<IpAddr>, up: nat -> bool, t0: nat, s: State, e: Event)
    requires Inv(working, answers, up, t0, s) && Enabled(s, e)
    ensures Inv(working, answers, up, t0, Next(up, s, e))
    ensures Measure(Next(up, s, e)) < Measure(s)
    ensures e.AllDisabled? ==> Next(up, s, e).status == DohReturnedNothing
  {
    AttemptsKept(up, s, e);
    AddressesKept(working, answers, up, s, e);
    PhasesKept(working, t0, up, s, e);
    MeasureFalls(working, t0, up, s, e);
  }

  lemma MeasureFalls(working: seq<IpAddr>, t0: nat, up: nat -> bool, s: State, e: Event)
    requires Phases(working, t0, s) && Enabled(s, e)
    ensures Measure(Next(up, s, e)) < Measure(s)
  {
    var s' := Next(up, s, e);
    if e.Completes? {
      assert s'.pending == s.pending - {e.index} && |s'.pending| == |s.pending| - 1;
    } else if e.Receives? {
      assert |s'.pending| <= |s.pending| + 1;
    }
  }

  lemma {:induction false} RunKeepsInv(
    working: seq<IpAddr>, answers: seq<IpAddr>, up: nat -> bool, t0: nat, s: State, events: seq<Event>)
    requires Inv(working, answers, up, t0, s) && After(up, s, events).Some?
    ensures Inv(working, answers, up, t0, After(up, s, events).value)
    ensures |events| + Measure(After(up, s, events).value) <= Measure(s)
    decreases |events|
  {
    if events != [] {
      StepKeepsInv(working, answers, up, t0, s, events[0]);
      RunKeepsInv(working, answers, up, t0, Next(up, s, events[0]), events[1..]);
    }
  }

  lemma {:induction false} IndicesSize(n: nat)
    ensures |Indices(n)| == n
  {
    if n > 0 {
      IndicesSize(n - 1);
      assert Indices(n) == Indices(n - 1) + {n - 1};
    }
  }

  /**
    Every run of the race: it invariably keeps Inv, and its length is bounded by the addresses
    remembered and streamed, so any finite delivery ends it.
   */
  lemma EveryRace(working: seq<IpAddr>, answers: seq<IpAddr>, up: nat -> bool, t0: nat, events: seq<Event>)
    requires After(up, Start(working, answers, t0), events).Some?
    ensures Inv(working, answers, up, t0, After(up, Start(working, answers, t0), events).value)
    ensures |events| <= 3 * |answers| + |working| + 3
  {
    StartInv(working, answers, up, t0);
    IndicesSize(|working|);
    RunKeepsInv(working, answers, up, t0, Start(working, answers, t0), events);
  }

  /**
    The race fails only after the resolver was started, its channel closed and drained, and every
    remembered and every streamed address was dialled and failed, each exactly once if the remembered
    list has no duplicates.  The message is then always the one about DoH: the other is never raised.
   */
  lemma FailureMeansEverythingFailed(
    working: seq<IpAddr>, answers: seq<IpAddr>, up: nat -> bool, t0: nat, events: seq<Event>)
    requires After(up, Start(working, answers, t0), events).Some?
    requires var s := After(up, Start(working, answers, t0), events).value; s.status != Racing && !s.status.Won?
    ensures var s := After(up, Start(working, answers, t0), events).value;
            && s.status == DohReturnedNothing
            && |s.dnsStarts| == 1 && s.closed && s.received == answers
            && Elements(s.dialled) == Elements(working) + Elements(answers)
            && (Distinct(working) ==> Distinct(s.dialled))
            && s.failed == Indices(|s.dialled|) && forall i: nat :: i < |s.dialled| ==> !up(i)
  {
    EveryRace(working, answers, up, t0, events);
    var s := After(up, Start(working, answers, t0), events).value;
    assert s.received + s.queue + s.toCome == s.received;
  }

  /** A race dials the remembered addresses first, then addresses the resolver sent, and nothing else. */
  lemma OnlyKnownAddresses(
    working: seq<IpAddr>, answers: seq<IpAddr>, up: nat -> bool, t0: nat, events: seq<Event>)
    requires After(up, Start(working, answers, t0), events).Some?
    ensures var s := After(up, Start(working, answers, t0), events).value;
            && Inv(working, answers, up, t0, s)
            && working <= s.dialled && Elements(s.dialled) <= Elements(working) + Elements(answers)
  {
    EveryRace(working, answers, up, t0, events);
    var s := After(up, Start(working, answers, t0), events).value;
    assert forall ip :: ip in s.received ==> ip in s.received + s.queue + s.toCome;
  }

  /**
    What can happen next, in every run, by what has happened so far: an attempt dialled and not failed can
    complete; the resolver starts when the trial time is over, in flight or not; an address it has sent
    can be taken, in order, and is dialled unless it was.
   */
  lemma WhatCanHappen(
    working: seq<IpAddr>, answers: seq<IpAddr>, up: nat -> bool, t0: nat, events: seq<Event>, i: nat, at: nat)
    requires After(up, Start(working, answers, t0), events).Some?
    ensures var s := After(up, Start(working, answers, t0), events).value;
            var racing := s.status == Racing && s.now <= at;
            && |s.received| + |s.queue| <= |answers|
            && (Enabled(s, Completes(i, at)) <==> racing && i < |s.dialled| && i !in s.failed)
            && (Enabled(s, DeadlineFires(at)) <==> racing && s.dnsStarts == [] && at >= t0 + 2000)
            && (Enabled(s, Receives(at)) <==> racing && s.dnsStarts != [] && |s.queue| > 0)
            && (Enabled(s, Sends(at)) <==>
                racing && s.dnsStarts != [] && |s.queue| < 32 && |s.received| + |s.queue| < |answers|)
            && (Enabled(s, Receives(at)) ==>
                && var ip, s' := answers[|s.received|], Next(up, s, Receives(at));
                && s'.received == s.received + [ip]
                && s'.dialled == s.dialled + if ip in s.dialled then [] else [ip])
  {
    EveryRace(working, answers, up, t0, events);
    var s := After(up, Start(working, answers, t0), events).value;
    if s.queue != [] {
      assert answers[|s.received|] == (s.received + s.queue + s.toCome)[|s.received|] == s.queue[0];
      assert s.queue[0] in s.seenIps <==> s.queue[0] in Elements(s.dialled);
    }
  }

  /** While racing some select branch or some resolver step is enabled, so a race can always end. */
  lemma SomethingEnabled(working: seq<IpAddr>, answers: seq<IpAddr>, up: nat -> bool, t0: nat, s: State)
    returns (e: Event)
    requires Inv(working, answers, up, t0, s) && s.status == Racing
    ensures Enabled(s, e)
  {
    if s.pending != {} {
      var i :| i in s.pending;
      e := Completes(i, s.now);
    } else if !s.dnsStarted {
      e := DeadlineFires(s.now + s.trialDeadline.value);
    } else if s.queue != [] {
      e := Receives(s.now);
    } else if s.toCome != [] {
      e := Sends(s.now);
    } else if !s.closed {
      e := Closes(s.now);
    } else {
      e := AllDisabled(s.now);
    }
  }

  lemma {:induction false} RaceCanFinish(
    working: seq<IpAddr>, answers: seq<IpAddr>, up: nat -> bool, t0: nat, s: State) returns (rest: seq<Event>)
    requires Inv(working, answers, up, t0, s)
    ensures After(up, s, rest).Some? && After(up, s, rest).value.status != Racing
    decreases Measure(s)
  {
    if s.status != Racing {
      return [];
    }
    var e := SomethingEnabled(working, answers, up, t0, s);
    StepKeepsInv(working, answers, up, t0, s, e);
    var tail := RaceCanFinish(working, answers, up, t0, Next(up, s, e));
    rest := [e] + tail;
    assert rest[1..] == tail;
  }

  // ---------- The loop ----------

  lemma {:induction false} AfterAppend(up: nat -> bool, s: State, events: seq<Event>, e: Event)
    requires After(up, s, events).Some? && Enabled(After(up, s, events).value, e)
    ensures After(up, s, events + [e]) == Some(Next(up, After(up, s, events).value, e))
    decreases |events|
  {
    var all := events + [e];
    if events != [] {
      assert all[1..] == events[1..] + [e];
      AfterAppend(up, Next(up, s, events[0]), events[1..], e);
    } else {
      assert all[1..] == [];
    }
  }

  ghost function Reached(
    working: seq<IpAddr>, answers: seq<IpAddr>, up: nat -> bool, t0: nat, events: seq<Event>): Option<State> {
    After(up, Start(working, answers, t0), events)
  }

  lemma Extend(
    working: seq<IpAddr>, answers: seq<IpAddr>, up: nat -> bool, t0: nat, events: seq<Event>, s: State, e: Event)
    requires Reached(working, answers, up, t0, events) == Some(s) && Enabled(s, e)
    ensures Reached(working, answers, up, t0, events + [e]) == Some(Next(up, s, e))
    ensures Measure(Next(up, s, e)) < Measure(s)
    ensures e.AllDisabled? ==> Next(up, s, e).status == DohReturnedNothing
    ensures !s.dnsDone
  {
    EveryRace(working, answers, up, t0, events);
    StepKeepsInv(working, answers, up, t0, s, e);
    AfterAppend(up, Start(working, answers, t0), events, e);
  }

  /**
    `connect_stream`: the local variables of the source, its loop and its select.  The choice of
    branch and its time are arbitrary, and so are the resolver's steps in between.
   */
  method ConnectStream(working: seq<IpAddr>, answers: seq<IpAddr>, up: nat -> bool, t0: nat)
    returns (result: Status, dialled: seq<IpAddr>, ghost events: seq<Event>)
    ensures exists s ::
      Reached(working, answers, up, t0, events) == Some(s) && s.status == result && s.dialled == dialled
    ensures result.Won? || result == DohReturnedNothing
    ensures result.Won? ==> up(result.index) && result.index < |dialled|
    ensures working <= dialled && Elements(dialled) <= Elements(working) + Elements(answers)
    ensures !result.Won? ==>
      && Elements(dialled) == Elements(working) + Elements(answers)
      && forall i: nat :: i < |dialled| ==> !up(i)
  {
    var pending: set<nat> := {};
    var seenIps: set<IpAddr> := {};
    for i := 0 to |working|
      invariant pending == Indices(i) && seenIps == Elements(working[..i])
    {
      assert working[..i + 1] == working[..i] + [working[i]];
      seenIps := seenIps + {working[i]};
      pending := pending + {i};
    }
    assert working[..|working|] == working;
    ghost var s;
    result, dialled, events, s := RaceLoop(working, answers, up, t0, pending, seenIps);
    OnlyKnownAddresses(working, answers, up, t0, events);
    if !result.Won? {
      FailureMeansEverythingFailed(working, answers, up, t0, events);
    }
  }

  method RaceLoop(
    working: seq<IpAddr>, answers: seq<IpAddr>, up: nat -> bool, t0: nat, pending0: set<nat>, seenIps0: set<IpAddr>)
    returns (result: Status, dialled: seq<IpAddr>, ghost events: seq<Event>, ghost s: State)
    requires pending0 == Indices(|working|) && seenIps0 == Elements(working)
    ensures Reached(working, answers, up, t0, events) == Some(s)
    ensures s.status == result != Racing && s.dialled == dialled
  {
    var pending, seenIps := pending0, seenIps0;
    dialled := working;
    var queue: seq<IpAddr>, toCome, closed := [], answers, false;
    var dnsStarted, dnsDone := working == [], false;
    var trialDeadline: Option<nat> := if working != [] then Some(t0 + TRIAL_TIMEOUT) else None;
    var now: nat := t0;
    s, events := Start(working, answers, t0), [];
    while true
      invariant Reached(working, answers, up, t0, events) == Some(s) && !dnsDone
      invariant s == State(dialled, pending, s.failed, seenIps, trialDeadline, dnsStarted, dnsDone, s.dnsStarts,
                           s.received, queue, toCome, closed, now, Racing)
      decreases Measure(s)
    {
      var at: nat :| at >= now;
      ghost var e;
      if
      case pending != {} =>
        var i :| i in pending;
        e := Completes(i, at);
        Extend(working, answers, up, t0, events, s, e);
        events, s := events + [e], Next(up, s, e);
        pending, now := pending - {i}, at;
        if up(i) {
          return Won(i), dialled, events, s;
        }
        if dnsDone && pending == {} {
          return EveryIpFailed, dialled, events, s;
        }
      case trialDeadline.Some? && !dnsStarted =>
        at := if at < trialDeadline.value then trialDeadline.value else at;
        e := DeadlineFires(at);
        Extend(working, answers, up, t0, events, s, e);
        events, s := events + [e], Next(up, s, e);
        dnsStarted, now := true, at;
      case dnsStarted && !dnsDone && queue != [] =>
        e := Receives(at);
        Extend(working, answers, up, t0, events, s, e);
        events, s := events + [e], Next(up, s, e);
        var ip := queue[0];
        queue, now := queue[1..], at;
        if ip in seenIps {
          continue;
        }
        seenIps := seenIps + {ip};
        pending := pending + {|dialled|};
        dialled := dialled + [ip];
      case dnsStarted && toCome != [] && |queue| < CHANNEL_CAPACITY =>
        e := Sends(at);
        Extend(working, answers, up, t0, events, s, e);
        events, s := events + [e], Next(up, s, e);
        queue, toCome, now := queue + [toCome[0]], toCome[1..], at;
      case dnsStarted && toCome == [] && !closed =>
        e := Closes(at);
        Extend(working, answers, up, t0, events, s, e);
        events, s := events + [e], Next(up, s, e);
        closed, now := true, at;
      case pending == {} && !(trialDeadline.Some? && !dnsStarted) &&
           (dnsStarted && !dnsDone ==> queue == [] && closed) =>
        e := AllDisabled(at);
        Extend(working, answers, up, t0, events, s, e);
        events, s := events + [e], Next(up, s, e);
        now := at;
        if dnsStarted {
          dnsDone := true;
          if pending == {} {
            return DohReturnedNothing, dialled, events, s;
          }
        }
    }
  }

  /** The race over a domain's remembered addresses, and the winner remembered for the next one. */
  method ConnectDomain(
    store: WorkingIps.WorkingIpStore, domain: string, answers: seq<IpAddr>, up: nat -> bool, t0: nat)
    returns (result: Status, dialled: seq<IpAddr>)
    modifies store
    ensures result.Won? || result == DohReturnedNothing
    ensures result.Won? ==> result.index < |dialled| && up(result.index)
    ensures old(store.ListOf(domain)) <= dialled
    ensures Elements(dialled) <= Elements(old(store.ListOf(domain))) + Elements(answers)
    ensures !result.Won? ==>
      && Elements(dialled) == Elements(old(store.ListOf(domain))) + Elements(answers)
      && forall i: nat :: i < |dialled| ==> !up(i)
    ensures result.Won? ==>
      store.ListOf(domain) == WorkingIps.AfterSuccess(old(store.ListOf(domain)), dialled[result.index])
    ensures result.Won? ==> forall d :: d != domain ==> store.ListOf(d) == old(store.ListOf(d))
    ensures !result.Won? ==> store.data == old(store.data)
  {
    var working := store.Get(domain);
    ghost var events;
    result, dialled, events := ConnectStream(working, answers, up, t0);
    if result.Won? {
      store.RecordSuccess(domain, dialled[result.index]);
    }
  }
}
