/**
  The staggered connection race over a list of candidate addresses (section 5 of RFC 8305), as both
  connectors run it, and the fallback built on it.  An attempt is named by its candidate's index.
*/
module HappyEyeballs {
  import opened Common

  // Milliseconds.
  const INITIAL_DELAY: nat := 100
  const SUBSEQUENT_DELAY: nat := 50

  datatype Status = Racing | Won(index: nat) | AllFailed

  datatype State = State(
    nextIdx: nat,
    pending: set<nat>,
    failed: set<nat>,
    timer: nat,
    moreCandidates: bool,
    now: nat,
    started: seq<nat>,      // when each launched attempt was launched
    status: Status)

  datatype Event = Completes(index: nat, at: nat) | TimerFires(at: nat)

  /** The state on entering the loop at time t0: the first candidate is launched at once. */
  function Start(n: nat, t0: nat): State
    requires n > 0
  {
    State(1, {0}, {}, t0 + INITIAL_DELAY, 1 < n, t0, [t0], Racing)
  }

  /** Which branches of the select can be taken; up(i) says whether attempt i succeeds. */
  predicate Enabled(s: State, e: Event) {
    && s.status == Racing
    && s.now <= e.at
    && match e
       case Completes(i, _) => i in s.pending
       case TimerFires(at) => s.moreCandidates && s.timer <= at
  }

  function Next(n: nat, up: nat -> bool, s: State, e: Event): State {
    match e
    case Completes(i, at) =>
      var s1 := s.(pending := s.pending - {i}, now := at);
      if up(i) then s1.(status := Won(i)) else
      var s2 := s1.(failed := s1.failed + {i});
      if !s.moreCandidates && s2.pending == {} then s2.(status := AllFailed) else s2
    case TimerFires(at) =>
      var s1 := s.(
        pending := s.pending + {s.nextIdx}, nextIdx := s.nextIdx + 1, started := s.started + [at], now := at);
      if s1.nextIdx < n then s1.(timer := at + SUBSEQUENT_DELAY) else s1.(moreCandidates := false)
  }

  function After(n: nat, up: nat -> bool, s: State, events: seq<Event>): Option<State>
    decreases |events|
  {
    if events == [] then Some(s) else
    if Enabled(s, events[0]) then After(n, up, Next(n, up, s, events[0]), events[1..]) else None
  }

  // ---------- What every run keeps ----------

  /** Launched attempts are the prefix, each failed, in flight or the winner. */
  ghost predicate Attempts(up: nat -> bool, s: State) {
    && s.pending !! s.failed
    && (forall i: nat :: i < s.nextIdx <==> i in s.pending || i in s.failed || s.status == Won(i))
    && (forall i :: i in s.failed ==> !up(i))
    && (s.status.Won? ==> up(s.status.index) && s.status.index < s.nextIdx)
  }

  /** When candidates are left, and how a race can end. */
  ghost predicate Phases(n: nat, s: State) {
    && 1 <= s.nextIdx <= n
    && s.moreCandidates == (s.nextIdx < n)
    && (s.status == AllFailed ==> s.pending == {} && !s.moreCandidates)
    && (s.status == Racing ==> s.pending != {} || s.moreCandidates)
  }

  function Earliest(t0: nat, i: nat): int {
    if i == 0 then t0 else t0 + INITIAL_DELAY + SUBSEQUENT_DELAY * (i - 1)
  }

  /** No attempt starts before its time, and the timer runs from the latest start. */
  ghost predicate Paced(t0: nat, s: State) {
    && |s.started| == s.nextIdx > 0
    && s.started[0] == t0 <= s.now
    && (s.moreCandidates ==> s.timer == s.started[s.nextIdx - 1] + if s.nextIdx == 1 then 100 else 50)
    && forall i :: 0 <= i < |s.started| ==> s.started[i] >= Earliest(t0, i)
  }

  ghost predicate Inv(n: nat, up: nat -> bool, t0: nat, s: State) {
    Attempts(up, s) && Phases(n, s) && Paced(t0, s)
  }

  lemma AttemptsKept(n: nat, up: nat -> bool, s: State, e: Event)
    requires Attempts(up, s) && Enabled(s, e)
    ensures Attempts(up, Next(n, up, s, e))
  {
    if e.Completes? {
      assert s.pending == s.pending - {e.index} + {e.index};
    }
  }

  lemma PhasesKept(n: nat, up: nat -> bool, s: State, e: Event)
    requires Phases(n, s) && Enabled(s, e)
    ensures Phases(n, Next(n, up, s, e))
    ensures Measure(n, Next(n, up, s, e)) < Measure(n, s)
  {
    var s' := Next(n, up, s, e);
    if e.Completes? {
      assert s'.pending == s.pending - {e.index} && |s'.pending| == |s.pending| - 1;
    } else {
      assert |s'.pending| <= |s.pending| + 1;
    }
  }

  lemma PacedKept(n: nat, up: nat -> bool, t0: nat, s: State, e: Event)
    requires Paced(t0, s) && Enabled(s, e)
    ensures Paced(t0, Next(n, up, s, e))
  {
  }

  lemma StepKeepsInv(n: nat, up: nat -> bool, t0: nat, s: State, e: Event)
    requires Inv(n, up, t0, s) && Enabled(s, e)
    ensures Inv(n, up, t0, Next(n, up, s, e))
    ensures Measure(n, Next(n, up, s, e)) < Measure(n, s)
  {
    AttemptsKept(n, up, s, e);
    PhasesKept(n, up, s, e);
    PacedKept(n, up, t0, s, e);
  }

  function Measure(n: nat, s: State): int {
    2 * (n - s.nextIdx) + |s.pending|
  }

  /** Every state of every run, and the number of steps it can have taken. */
  lemma {:induction false} RunKeepsInv(n: nat, up: nat -> bool, t0: nat, s: State, events: seq<Event>)
    requires Inv(n, up, t0, s) && After(n, up, s, events).Some?
    ensures Inv(n, up, t0, After(n, up, s, events).value)
    ensures |events| <= Measure(n, s)
    decreases |events|
  {
    if events != [] {
      StepKeepsInv(n, up, t0, s, events[0]);
      RunKeepsInv(n, up, t0, Next(n, up, s, events[0]), events[1..]);
    }
  }

  /**
    Over n candidates, every run: launched attempts are a prefix, split into failed, in flight and
    the winner; candidate i is launched no earlier than 100 + 50(i-1) ms after the first; the winner
    is an attempt that succeeded; "all failed" is reported only when every candidate was tried and
    failed; the select always has an enabled branch while racing; and there are at most 2n-1 steps.
   */
  lemma EveryRace(n: nat, up: nat -> bool, t0: nat, events: seq<Event>)
    requires n > 0 && After(n, up, Start(n, t0), events).Some?
    ensures var s := After(n, up, Start(n, t0), events).value;
            && Inv(n, up, t0, s)
            && (s.status == AllFailed ==> forall i: nat :: i < n ==> i in s.failed && !up(i))
            && (s.status.Won? ==> s.status.index < n && up(s.status.index))
            && (s.status == Racing ==> s.pending != {} || s.moreCandidates)
    ensures |events| <= 2 * n - 1
  {
    RunKeepsInv(n, up, t0, Start(n, t0), events);
  }

  /**
    In every run the next candidate can be launched exactly when there is one, none has won, and 100 ms
    have passed since the first was launched, or 50 ms since a later one; and an attempt can complete
    exactly when it was launched and has not failed.
   */
  lemma LaunchedWhenDue(n: nat, up: nat -> bool, t0: nat, events: seq<Event>, i: nat, at: nat)
    requires n > 0 && After(n, up, Start(n, t0), events).Some?
    ensures var s := After(n, up, Start(n, t0), events).value;
            && |s.started| > 0
            && (Enabled(s, TimerFires(at)) <==>
                s.status == Racing && |s.started| < n && at >= s.now &&
                at >= s.started[|s.started| - 1] + if |s.started| == 1 then 100 else 50)
            && (Enabled(s, Completes(i, at)) <==>
                s.status == Racing && i < |s.started| && i !in s.failed && at >= s.now)
            && (Enabled(s, TimerFires(at)) ==>
                Next(n, up, s, TimerFires(at)).started == s.started + [at])
  {
    EveryRace(n, up, t0, events);
  }

  /** A race cannot get stuck: it can be continued to a result from any state it reaches. */
  lemma {:induction false} RaceCanFinish(n: nat, up: nat -> bool, t0: nat, s: State) returns (rest: seq<Event>)
    requires Inv(n, up, t0, s)
    ensures After(n, up, s, rest).Some? && After(n, up, s, rest).value.status != Racing
    decreases Measure(n, s)
  {
    if s.status != Racing {
      return [];
    }
    var e;
    if s.pending != {} {
      var i :| i in s.pending;
      e := Completes(i, s.now);
    } else {
      e := TimerFires(s.now + s.timer);
    }
    StepKeepsInv(n, up, t0, s, e);
    var tail := RaceCanFinish(n, up, t0, Next(n, up, s, e));
    rest := [e] + tail;
    assert rest[1..] == tail;
  }

  // ---------- The loop ----------

  lemma {:induction false} AfterAppend(n: nat, up: nat -> bool, s: State, events: seq<Event>, e: Event)
    requires After(n, up, s, events).Some? && Enabled(After(n, up, s, events).value, e)
    ensures After(n, up, s, events + [e]) == Some(Next(n, up, After(n, up, s, events).value, e))
    decreases |events|
  {
    var all := events + [e];
    if events != [] {
      assert all[1..] == events[1..] + [e];
      AfterAppend(n, up, Next(n, up, s, events[0]), events[1..], e);
    } else {
      assert all[1..] == [];
    }
  }

  function Reached(n: nat, up: nat -> bool, t0: nat, events: seq<Event>): Option<State>
    requires n > 0
  {
    After(n, up, Start(n, t0), events)
  }

  lemma Extend(n: nat, up: nat -> bool, t0: nat, events: seq<Event>, s: State, e: Event)
    requires n > 0 && Reached(n, up, t0, events) == Some(s) && Enabled(s, e)
    ensures Reached(n, up, t0, events + [e]) == Some(Next(n, up, s, e))
    ensures 0 <= Measure(n, Next(n, up, s, e)) < Measure(n, s)
  {
    EveryRace(n, up, t0, events);
    StepKeepsInv(n, up, t0, s, e);
    AfterAppend(n, up, Start(n, t0), events, e);
  }

  lemma Verdict(n: nat, up: nat -> bool, t0: nat, events: seq<Event>, s: State)
    requires n > 0 && Reached(n, up, t0, events) == Some(s)
    ensures s.status.Won? ==> s.status.index < n && up(s.status.index)
    ensures s.status == AllFailed ==> forall i: nat :: i < n ==> !up(i)
  {
    EveryRace(n, up, t0, events);
  }

  lemma NeverStuck(n: nat, up: nat -> bool, t0: nat, events: seq<Event>, s: State)
    requires n > 0 && Reached(n, up, t0, events) == Some(s) && s.status == Racing
    ensures s.pending != {} || s.moreCandidates
  {
    EveryRace(n, up, t0, events);
  }

  /** The branch for an attempt that finished: the state it leads to. */
  lemma CompletionStep(n: nat, up: nat -> bool, t0: nat, events: seq<Event>, s: State, i: nat, at: nat)
    returns (next: State)
    requires n > 0 && Reached(n, up, t0, events) == Some(s) && Enabled(s, Completes(i, at))
    ensures Reached(n, up, t0, events + [Completes(i, at)]) == Some(next)
    ensures next == State(s.nextIdx, s.pending - {i}, next.failed, s.timer, s.moreCandidates, at, s.started,
                          next.status)
    ensures next.status == if up(i) then Won(i) else
                           if !s.moreCandidates && s.pending - {i} == {} then AllFailed else Racing
    ensures 0 <= Measure(n, next) < Measure(n, s)
  {
    Extend(n, up, t0, events, s, Completes(i, at));
    next := Next(n, up, s, Completes(i, at));
  }

  /** The branch for the timer. */
  lemma TimerStep(n: nat, up: nat -> bool, t0: nat, events: seq<Event>, s: State, at: nat) returns (next: State)
    requires n > 0 && Reached(n, up, t0, events) == Some(s) && Enabled(s, TimerFires(at))
    ensures Reached(n, up, t0, events + [TimerFires(at)]) == Some(next)
    ensures next == State(s.nextIdx + 1, s.pending + {s.nextIdx}, s.failed, next.timer, s.nextIdx + 1 < n, at,
                          s.started + [at], Racing)
    ensures next.timer == if s.nextIdx + 1 < n then at + SUBSEQUENT_DELAY else s.timer
    ensures 0 <= Measure(n, next) < Measure(n, s)
  {
    EveryRace(n, up, t0, events);
    Extend(n, up, t0, events, s, TimerFires(at));
    next := Next(n, up, s, TimerFires(at));
  }

  /**
    The race as the connectors run it.  Which enabled branch is taken, and when, is arbitrary; the
    choices made are the events returned.  A single candidate is dialled without the loop.
   */
  method RunHappyEyeballs(n: nat, up: nat -> bool, t0: nat)
    returns (result: Status, started: seq<nat>, ghost events: seq<Event>)
    requires n > 0
    ensures n == 1 ==> result == if up(0) then Won(0) else AllFailed
    ensures n > 1 ==>
      exists s :: Reached(n, up, t0, events) == Some(s) && s.status == result && s.started == started
    ensures result.Won? ==> result.index < n && up(result.index)
    ensures result == AllFailed ==> forall i: nat :: i < n ==> !up(i)
    ensures result != Racing
  {
    if n == 1 {
      return if up(0) then Won(0) else AllFailed, [t0], [];
    }
    ghost var s;
    result, started, events, s := RaceLoop(n, up, t0);
    Verdict(n, up, t0, events, s);
  }

  method RaceLoop(n: nat, up: nat -> bool, t0: nat)
    returns (result: Status, started: seq<nat>, ghost events: seq<Event>, ghost s: State)
    requires n > 1
    ensures Reached(n, up, t0, events) == Some(s) && s.status == result != Racing && s.started == started
  {
    var pending: set<nat>, nextIdx: nat := {0}, 1;
    var delayTimer: nat := t0 + INITIAL_DELAY;
    var moreCandidates := nextIdx < n;
    var now: nat := t0;
    started, events, s := [t0], [], Start(n, t0);
    while true
      invariant Reached(n, up, t0, events) == Some(s)
      invariant s == State(nextIdx, pending, s.failed, delayTimer, moreCandidates, now, started, Racing)
      decreases Measure(n, s)
    {
      NeverStuck(n, up, t0, events, s);
      var later: nat :| later >= now;
      if
      case pending != {} =>
        var i :| i in pending;
        ghost var next := CompletionStep(n, up, t0, events, s, i, later);
        events, s := events + [Completes(i, later)], next;
        pending, now := pending - {i}, later;
        if up(i) {
          return Won(i), started, events, s;
        }
        if !moreCandidates && pending == {} {
          return AllFailed, started, events, s;
        }
      case moreCandidates =>
        var at := if later < delayTimer then delayTimer else later;
        ghost var next := TimerStep(n, up, t0, events, s, at);
        events, s := events + [TimerFires(at)], next;
        pending, now, started := pending + {nextIdx}, at, started + [at];
        nextIdx := nextIdx + 1;
        if nextIdx < n {
          delayTimer := at + SUBSEQUENT_DELAY;
        } else {
          moreCandidates := false;
        }
    }
  }

  /** The sequential tunnel dial: the first address in order that accepts, or the last one's error. */
  method TryConnectTcp(n: nat, up: nat -> bool) returns (result: Status, lastErr: Option<nat>)
    ensures result.Won? ==> result.index < n && up(result.index) && forall j: nat :: j < result.index ==> !up(j)
    ensures result == AllFailed <==> forall j: nat :: j < n ==> !up(j)
    ensures result == AllFailed ==> lastErr == if n == 0 then None else Some(n - 1)
    ensures result != Racing
  {
    lastErr := None;
    for i := 0 to n
      invariant forall j: nat :: j < i ==> !up(j)
      invariant lastErr == if i == 0 then None else Some(i - 1)
    {
      if up(i) {
        return Won(i), lastErr;
      }
      lastErr := Some(i);
    }
    result := AllFailed;
  }
}
