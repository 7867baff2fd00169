/**
  The same cache under concurrency: `get` and `insert` touch the map and the LRU index in separate
  atomic steps, so threads interleave between them.  Only keys matter here: no TTL, no remove, no clear.
*/
module CacheInterleaving {
  import opened Common
  import opened RecencyList

  type Tid = int

  /** Where a thread stands between two atomic steps. */
  datatype Pc<K> =
    | Idle
    | Putting(key: K, inserting: bool)      // map step done, index step to come
    | Measuring                             // about to read the map's length
    | Deciding(excess: nat)                 // over the limit; throttle test to come
    | Locking(excess: nat)                  // waiting for the index lock
    | Popping(left: nat)                    // holds the lock, about to pop
    | Removing(victim: K, left: nat)        // holds the lock, victim popped but still in the map

  datatype State<K> = State(store: set<K>, index: seq<K>, threads: map<Tid, Pc<K>>)

  datatype Action<K> =
    | GetHit(t: Tid, key: K)
    | GetMiss(t: Tid, key: K)
    | InsertMap(t: Tid, key: K)
    | PutIndex(t: Tid)
    | Measure(t: Tid)
    | Throttle(t: Tid, skip: bool)
    | Lock(t: Tid)
    | Pop(t: Tid)
    | RemoveVictim(t: Tid)

  predicate HoldsLock<K>(pc: Pc<K>) {
    pc.Popping? || pc.Removing?
  }

  ghost predicate LockFree<K>(s: State<K>) {
    forall t :: t in s.threads ==> !HoldsLock(s.threads[t])
  }

  ghost predicate Enabled<K(!new)>(s: State<K>, a: Action<K>) {
    && a.t in s.threads
    && var pc := s.threads[a.t];
       match a
       case GetHit(_, key) => pc.Idle? && key in s.store
       case GetMiss(_, key) => pc.Idle? && key !in s.store
       case InsertMap(_, _) => pc.Idle?
       case PutIndex(_) => pc.Putting? && LockFree(s)
       case Measure(_) => pc.Measuring?
       case Throttle(_, _) => pc.Deciding?
       case Lock(_) => pc.Locking? && LockFree(s)
       case Pop(_) => pc.Popping?
       case RemoveVictim(_) => pc.Removing?
  }

  ghost function Next<K(!new)>(max: nat, s: State<K>, a: Action<K>): State<K>
    requires Enabled(s, a)
  {
    var pc := s.threads[a.t];
    match a
    case GetHit(t, key) => s.(threads := s.threads[t := Putting(key, false)])
    case GetMiss(_, _) => s
    case InsertMap(t, key) => s.(store := s.store + {key}, threads := s.threads[t := Putting(key, true)])
    case PutIndex(t) =>
      s.(index := Touch(s.index, pc.key), threads := s.threads[t := if pc.inserting then Measuring else Idle])
    case Measure(t) =>
      var excess := SaturatingSub(|s.store|, max);
      s.(threads := s.threads[t := if excess == 0 then Idle else Deciding(excess)])
    case Throttle(t, skip) => s.(threads := s.threads[t := if skip then Idle else Locking(pc.excess)])
    case Lock(t) => s.(threads := s.threads[t := Popping(pc.excess)])
    case Pop(t) =>
      if pc.left == 0 || s.index == [] then s.(threads := s.threads[t := Idle]) else
      var n := |s.index| - 1;
      s.(index := s.index[..n], threads := s.threads[t := Removing(s.index[n], pc.left - 1)])
    case RemoveVictim(t) => s.(store := s.store - {pc.victim}, threads := s.threads[t := Popping(pc.left)])
  }

  ghost predicate Quiescent<K>(s: State<K>) {
    forall t :: t in s.threads ==> s.threads[t] == Idle
  }

  ghost predicate Initial<K>(s: State<K>) {
    s.store == {} && s.index == [] && Quiescent(s)
  }

  /** The evictor can still reach k: it is indexed, or some thread is about to index or to remove it. */
  ghost predicate Covered<K(!new)>(s: State<K>, k: K) {
    || k in s.index
    || (exists t :: t in s.threads && s.threads[t].Putting? && s.threads[t].key == k)
    || (exists t :: t in s.threads && s.threads[t].Removing? && s.threads[t].victim == k)
  }

  ghost predicate MutualExclusion<K>(s: State<K>) {
    forall t, u :: t in s.threads && u in s.threads && HoldsLock(s.threads[t]) && HoldsLock(s.threads[u]) ==> t == u
  }

  ghost predicate Inv<K(!new)>(s: State<K>) {
    && MutualExclusion(s)
    && Distinct(s.index)
    && forall k :: k in s.store ==> Covered(s, k)
  }

  /** A step moves only one thread; a key covered through another thread stays covered. */
  lemma CoverKept<K(!new)>(max: nat, s: State<K>, a: Action<K>, k: K)
    requires Enabled(s, a) && Covered(s, k) && k in Next(max, s, a).store
    ensures Covered(Next(max, s, a), k)
  {
    var s' := Next(max, s, a);
    if k in s.index {
      if a.Pop? && k !in s'.index {
        assert s.index == s.index[..|s.index| - 1] + [s.index[|s.index| - 1]];
        assert s'.threads[a.t].Removing? && s'.threads[a.t].victim == k;
      }
    } else if t :| t in s.threads && s.threads[t].Putting? && s.threads[t].key == k {
      assert t != a.t ==> s'.threads[t] == s.threads[t];
    } else {
      var t :| t in s.threads && s.threads[t].Removing? && s.threads[t].victim == k;
      assert t != a.t ==> s'.threads[t] == s.threads[t];
    }
  }

  lemma StepKeepsInv<K(!new)>(max: nat, s: State<K>, a: Action<K>)
    requires Enabled(s, a) && Inv(s)
    ensures Inv(Next(max, s, a))
  {
    var s' := Next(max, s, a);
    if a.PutIndex? {
      TouchDistinct(s.index, s.threads[a.t].key);
    }
    forall k | k in s'.store ensures Covered(s', k) {
      if k in s.store {
        CoverKept(max, s, a, k);
      } else {
        assert s'.threads[a.t].Putting? && s'.threads[a.t].key == k;
      }
    }
  }

  /** The state after the threads take the steps acts in that order, if each is enabled in its turn. */
  ghost function After<K(!new)>(max: nat, s: State<K>, acts: seq<Action<K>>): Option<State<K>>
    decreases |acts|
  {
    if acts == [] then Some(s) else
    if Enabled(s, acts[0]) then After(max, Next(max, s, acts[0]), acts[1..]) else None
  }

  lemma {:induction false} RunKeepsInv<K(!new)>(max: nat, s: State<K>, acts: seq<Action<K>>)
    requires Inv(s) && After(max, s, acts).Some?
    ensures Inv(After(max, s, acts).value)
    decreases |acts|
  {
    if acts != [] {
      StepKeepsInv(max, s, acts[0]);
      RunKeepsInv(max, Next(max, s, acts[0]), acts[1..]);
    }
  }

  /**
    In every state of every interleaving of any number of threads, a key of the map is in the index,
    or is the key of a put in flight, or is the key the one evictor has just popped.  Once all
    threads are idle nothing in the map is out of the evictor's reach.
   */
  lemma EveryInterleavingCovers<K(!new)>(max: nat, s0: State<K>, acts: seq<Action<K>>)
    requires Initial(s0) && After(max, s0, acts).Some?
    ensures var s := After(max, s0, acts).value;
            && Inv(s)
            && (Quiescent(s) ==> s.store <= Elements(s.index) && |s.store| <= |s.index|)
  {
    RunKeepsInv(max, s0, acts);
    var s := After(max, s0, acts).value;
    if Quiescent(s) {
      forall k | k in s.store ensures k in Elements(s.index) {
        assert Covered(s, k);
      }
      SubsetSize(s.store, Elements(s.index));
      DistinctCardinality(s.index);
    }
  }

  // ---------- The other inclusion ----------

  /** How far the two structures may differ while the only thread is at pc. */
  ghost predicate InStep<K(!new)>(s: State<K>, t: Tid) {
    s.threads.Keys == {t} && Distinct(s.index) &&
    match s.threads[t]
    case Putting(key, _) => key in s.store && s.store == Elements(s.index) + {key}
    case Removing(victim, _) => victim !in s.index && s.store == Elements(s.index) + {victim}
    case _ => s.store == Elements(s.index)
  }

  lemma LastElement<K(!new)>(index: seq<K>)
    requires Distinct(index) && index != []
    ensures var n := |index| - 1; index[n] !in index[..n] && Elements(index) == Elements(index[..n]) + {index[n]}
  {
    assert index == index[..|index| - 1] + [index[|index| - 1]];
  }

  lemma OneThreadPut<K(!new)>(max: nat, s: State<K>, t: Tid)
    requires InStep(s, t) && Enabled(s, PutIndex(t))
    ensures InStep(Next(max, s, PutIndex(t)), t)
  {
    TouchDistinct(s.index, s.threads[t].key);
  }

  lemma OneThreadPop<K(!new)>(max: nat, s: State<K>, t: Tid)
    requires InStep(s, t) && Enabled(s, Pop(t))
    ensures InStep(Next(max, s, Pop(t)), t)
  {
    if s.threads[t].left > 0 && s.index != [] {
      LastElement(s.index);
    }
  }

  lemma OneThreadStep<K(!new)>(max: nat, s: State<K>, a: Action<K>, t: Tid)
    requires InStep(s, t) && Enabled(s, a)
    ensures InStep(Next(max, s, a), t)
  {
    assert a.t == t;
    if a.PutIndex? {
      OneThreadPut(max, s, t);
    } else if a.Pop? {
      OneThreadPop(max, s, t);
    } else {
      var s' := Next(max, s, a);
      assert s'.index == s.index && s'.threads.Keys == {t};
    }
  }

  /** With a single thread the map and the index hold the same keys whenever it is idle. */
  lemma {:induction false} OneThreadKeepsThemEqual<K(!new)>(max: nat, s: State<K>, acts: seq<Action<K>>, t: Tid)
    requires InStep(s, t) && After(max, s, acts).Some?
    ensures var e := After(max, s, acts).value;
            InStep(e, t) && (Quiescent(e) ==> e.store == Elements(e.index))
    decreases |acts|
  {
    if acts != [] {
      OneThreadStep(max, s, acts[0], t);
      OneThreadKeepsThemEqual(max, Next(max, s, acts[0]), acts[1..], t);
    }
  }

  lemma Prepend<K(!new)>(
    max: nat, s: State<K>, a: Action<K>, next: State<K>, rest: seq<Action<K>>, end: State<K>)
    returns (acts: seq<Action<K>>)
    requires Enabled(s, a) && next == Next(max, s, a) && After(max, next, rest) == Some(end)
    ensures After(max, s, acts) == Some(end)
  {
    acts := [a] + rest;
    assert acts[1..] == rest;
  }

  // ---------- A run that leaves a stale key, for every limit and any two threads ----------

  ghost function AllIdle(ts: set<Tid>): (m: map<Tid, Pc<nat>>)
    ensures m.Keys == ts
  {
    map t | t in ts :: Idle
  }

  /** Only t is busy. */
  ghost function At(ts: set<Tid>, t: Tid, pc: Pc<nat>): map<Tid, Pc<nat>> {
    AllIdle(ts)[t := pc]
  }

  /** Besides t, only u is busy: it is about to index key 0. */
  ghost function WithLatePut(ts: set<Tid>, t: Tid, u: Tid, pc: Pc<nat>): map<Tid, Pc<nat>> {
    AllIdle(ts)[u := Putting(0, false)][t := pc]
  }

  ghost function Upto(n: nat): (r: set<nat>)
    ensures forall k: nat :: k in r <==> k < n
    ensures |r| == n
  {
    if n == 0 then {} else Upto(n - 1) + {n - 1}
  }

  /** n - 1, ..., 1, 0 */
  ghost function Down(n: nat): (r: seq<nat>)
    ensures |r| == n && forall k :: 0 <= k < n ==> r[k] == n - 1 - k
  {
    seq(n, k requires 0 <= k < n => n - 1 - k)
  }

  lemma {:induction false} WithoutAbsent<T(!new)>(s: seq<T>, x: T)
    requires x !in s
    ensures Without(s, x) == s
  {
    if s != [] {
      WithoutAbsent(s[1..], x);
      assert s == [s[0]] + s[1..];
    }
  }

  lemma TouchDown(n: nat)
    ensures Touch(Down(n), n) == Down(n + 1)
  {
    WithoutAbsent(Down(n), n);
  }

  lemma PutNext(max: nat, ts: set<Tid>, t: Tid, n: nat, rest: seq<Action<nat>>, end: State<nat>)
    returns (acts: seq<Action<nat>>)
    requires t in ts && After(max, State(Upto(n + 1), Down(n + 1), At(ts, t, Measuring)), rest) == Some(end)
    ensures After(max, State(Upto(n), Down(n), AllIdle(ts)), acts) == Some(end)
  {
    var put := State(Upto(n + 1), Down(n), At(ts, t, Putting(n, true)));
    var indexed := State(Upto(n + 1), Down(n + 1), At(ts, t, Measuring));
    TouchDown(n);
    assert At(ts, t, Putting(n, true))[t := Measuring] == At(ts, t, Measuring);
    acts := Prepend(max, put, PutIndex(t), indexed, rest, end);
    acts := Prepend(max, State(Upto(n), Down(n), AllIdle(ts)), InsertMap(t, n), put, acts, end);
  }

  lemma MeasureWithin(max: nat, ts: set<Tid>, t: Tid, n: nat, rest: seq<Action<nat>>, end: State<nat>)
    returns (acts: seq<Action<nat>>)
    requires t in ts && n <= max && After(max, State(Upto(n), Down(n), AllIdle(ts)), rest) == Some(end)
    ensures After(max, State(Upto(n), Down(n), At(ts, t, Measuring)), acts) == Some(end)
  {
    assert At(ts, t, Measuring)[t := Idle] == AllIdle(ts);
    acts := Prepend(max, State(Upto(n), Down(n), At(ts, t, Measuring)), Measure(t),
                    State(Upto(n), Down(n), AllIdle(ts)), rest, end);
  }

  /** The keys 0 to n - 1 are in, in that order, and all threads idle. */
  ghost function Filled(ts: set<Tid>, n: nat): State<nat> {
    State(Upto(n), Down(n), AllIdle(ts))
  }

  lemma InsertFits(max: nat, ts: set<Tid>, t: Tid, n: nat, rest: seq<Action<nat>>, end: State<nat>)
    returns (acts: seq<Action<nat>>)
    requires t in ts && n < max && After(max, Filled(ts, n + 1), rest) == Some(end)
    ensures After(max, Filled(ts, n), acts) == Some(end)
  {
    acts := MeasureWithin(max, ts, t, n + 1, rest, end);
    acts := PutNext(max, ts, t, n, acts, end);
  }

  /** Thread t inserts the keys n, ..., max - 1, which all fit. */
  lemma {:induction false} Fill(max: nat, ts: set<Tid>, t: Tid, n: nat, rest: seq<Action<nat>>, end: State<nat>)
    returns (acts: seq<Action<nat>>)
    requires t in ts && n <= max && After(max, Filled(ts, max), rest) == Some(end)
    ensures After(max, Filled(ts, n), acts) == Some(end)
    decreases max - n
  {
    if n == max {
      acts := rest;
    } else {
      var later := Fill(max, ts, t, n + 1, rest, end);
      acts := InsertFits(max, ts, t, n, later, end);
    }
  }

  /** t finds the cache over its limit by one and goes for the lock; u hits key 0 before it gets there. */
  lemma HitBeforeLock(max: nat, ts: set<Tid>, t: Tid, u: Tid, rest: seq<Action<nat>>, end: State<nat>)
    returns (acts: seq<Action<nat>>)
    requires t in ts && u in ts && t != u
    requires After(max, State(Upto(max + 1), Down(max + 1), WithLatePut(ts, t, u, Locking(1))), rest) == Some(end)
    ensures After(max, State(Upto(max + 1), Down(max + 1), At(ts, t, Measuring)), acts) == Some(end)
  {
    var store, index := Upto(max + 1), Down(max + 1);
    var measured := State(store, index, At(ts, t, Deciding(1)));
    var decided := State(store, index, At(ts, t, Locking(1)));
    var hit := State(store, index, WithLatePut(ts, t, u, Locking(1)));
    assert At(ts, t, Measuring)[t := Deciding(1)] == At(ts, t, Deciding(1));
    assert At(ts, t, Deciding(1))[t := Locking(1)] == At(ts, t, Locking(1));
    assert At(ts, t, Locking(1))[u := Putting(0, false)] == WithLatePut(ts, t, u, Locking(1));
    acts := Prepend(max, decided, GetHit(u, 0), hit, rest, end);
    acts := Prepend(max, measured, Throttle(t, false), decided, acts, end);
    acts := Prepend(max, State(store, index, At(ts, t, Measuring)), Measure(t), measured, acts, end);
  }

  /** t gets the lock and evicts key 0, the oldest. */
  lemma EvictZero(max: nat, ts: set<Tid>, t: Tid, u: Tid, rest: seq<Action<nat>>, end: State<nat>)
    returns (acts: seq<Action<nat>>)
    requires t in ts && u in ts && t != u
    requires var evicted := State(Upto(max + 1) - {0}, Down(max + 1)[..max], WithLatePut(ts, t, u, Popping(0)));
             After(max, evicted, rest) == Some(end)
    ensures After(max, State(Upto(max + 1), Down(max + 1), WithLatePut(ts, t, u, Locking(1))), acts) == Some(end)
  {
    var store, index := Upto(max + 1), Down(max + 1);
    var locked := State(store, index, WithLatePut(ts, t, u, Popping(1)));
    var popped := State(store, index[..max], WithLatePut(ts, t, u, Removing(0, 0)));
    var removed := State(store - {0}, index[..max], WithLatePut(ts, t, u, Popping(0)));
    assert WithLatePut(ts, t, u, Locking(1))[t := Popping(1)] == WithLatePut(ts, t, u, Popping(1));
    assert WithLatePut(ts, t, u, Popping(1))[t := Removing(0, 0)] == WithLatePut(ts, t, u, Removing(0, 0));
    assert WithLatePut(ts, t, u, Removing(0, 0))[t := Popping(0)] == WithLatePut(ts, t, u, Popping(0));
    acts := Prepend(max, popped, RemoveVictim(t), removed, rest, end);
    acts := Prepend(max, locked, Pop(t), popped, acts, end);
    acts := Prepend(max, State(store, index, WithLatePut(ts, t, u, Locking(1))), Lock(t), locked, acts, end);
  }

  /** t is done; then u indexes the evicted key again. */
  lemma LatePut(max: nat, ts: set<Tid>, t: Tid, u: Tid, store: set<nat>, index: seq<nat>)
    returns (acts: seq<Action<nat>>)
    requires t in ts && u in ts && t != u
    ensures After(max, State(store, index, WithLatePut(ts, t, u, Popping(0))), acts)
         == Some(State(store, Touch(index, 0), AllIdle(ts)))
  {
    var waiting := State(store, index, At(ts, u, Putting(0, false)));
    var end := State(store, Touch(index, 0), AllIdle(ts));
    assert WithLatePut(ts, t, u, Popping(0))[t := Idle] == At(ts, u, Putting(0, false));
    assert At(ts, u, Putting(0, false))[u := Idle] == AllIdle(ts);
    acts := Prepend(max, waiting, PutIndex(u), end, [], end);
    acts := Prepend(max, State(store, index, WithLatePut(ts, t, u, Popping(0))), Pop(t), waiting, acts, end);
  }

  /**
    Any two threads can leave a stale index, whatever the limit: a `get` that hit the oldest key before
    an eviction took it indexes it again afterwards, and the index keeps a key the map has lost.
   */
  lemma TwoThreadsLeaveStaleIndex(max: nat, ts: set<Tid>, t: Tid, u: Tid)
    returns (acts: seq<Action<nat>>, s: State<nat>)
    requires t in ts && u in ts && t != u
    ensures After(max, State({}, [], AllIdle(ts)), acts) == Some(s)
    ensures Quiescent(s) && s.threads.Keys == ts && 0 in s.index && 0 !in s.store
  {
    var store, index := Upto(max + 1) - {0}, Down(max + 1)[..max];
    s := State(store, Touch(index, 0), AllIdle(ts));
    acts := LatePut(max, ts, t, u, store, index);
    acts := EvictZero(max, ts, t, u, acts, s);
    acts := HitBeforeLock(max, ts, t, u, acts, s);
    acts := PutNext(max, ts, t, max, acts, s);
    acts := Fill(max, ts, t, 0, acts, s);
    assert State(Upto(0), Down(0), AllIdle(ts)) == State({}, [], AllIdle(ts));
  }

  /** Whenever all of the threads ts are idle, after any run from an empty cache, map and index have the same keys. */
  ghost predicate AlwaysEqual(max: nat, ts: set<Tid>) {
    forall acts: seq<Action<nat>> :: EqualAfter(max, ts, acts)
  }

  ghost predicate EqualAfter(max: nat, ts: set<Tid>, acts: seq<Action<nat>>) {
    var end := After(max, State({}, [], AllIdle(ts)), acts);
    end.Some? && Quiescent(end.value) ==> end.value.store == Elements(end.value.index)
  }

  lemma NoThreadNoStep(max: nat, acts: seq<Action<nat>>)
    ensures EqualAfter(max, {}, acts)
  {
    assert AllIdle({}) == map[];
  }

  lemma OneThreadStaysEqual(max: nat, t: Tid, acts: seq<Action<nat>>)
    ensures EqualAfter(max, {t}, acts)
  {
    if After(max, State({}, [], AllIdle({t})), acts).Some? {
      OneThreadKeepsThemEqual(max, State({}, [], AllIdle({t})), acts, t);
    }
  }

  lemma Someone(ts: set<Tid>) returns (t: Tid)
    requires |ts| > 0
    ensures t in ts && |ts - {t}| == |ts| - 1
  {
    assert (forall u: Tid :: u !in ts) ==> ts == {};
    t :| t in ts;
  }

  /** For every limit: map and index agree at every idle moment of every run exactly when at most one thread runs. */
  lemma EqualIffOneThread(max: nat, ts: set<Tid>)
    ensures AlwaysEqual(max, ts) <==> |ts| <= 1
  {
    if |ts| == 0 {
      forall acts ensures EqualAfter(max, ts, acts) {
        NoThreadNoStep(max, acts);
      }
    } else {
      var t := Someone(ts);
      if |ts| == 1 {
        assert ts - {t} == {};
        assert ts == {t};
        forall acts ensures EqualAfter(max, ts, acts) {
          OneThreadStaysEqual(max, t, acts);
        }
      } else {
        var u := Someone(ts - {t});
        var acts, s := TwoThreadsLeaveStaleIndex(max, ts, t, u);
        assert !EqualAfter(max, ts, acts);
      }
    }
  }

  // ---------- Progress ----------

  /** Some thread can move unless every thread is idle: no lock is waited for in vain. */
  lemma NoDeadlock<K(!new)>(s: State<K>)
    requires !Quiescent(s)
    ensures exists a :: Enabled(s, a) && s.threads[a.t] != Idle
  {
    var t: Tid;
    if LockFree(s) {
      t :| t in s.threads && s.threads[t] != Idle;
    } else {
      t :| t in s.threads && HoldsLock(s.threads[t]);
    }
    var pc := s.threads[t];
    var a: Action<K> := match pc
      case Putting(_, _) => PutIndex(t)
      case Measuring => Measure(t)
      case Deciding(_) => Throttle(t, false)
      case Locking(_) => Lock(t)
      case Popping(_) => Pop(t)
      case _ => RemoveVictim(t);
    assert Enabled(s, a);
  }
}
