/**
  The evictable cache: a concurrent map of entries and a separate LRU index of keys, with lazy TTL
  and an evictor that runs at most once a millisecond.  Seen from one thread it is one recency list.
*/
module Caches {
  import opened Common
  import opened RecencyList
  import opened Sorting

  const MIN_EVICT_INTERVAL_NS: nat := 1_000_000

  /** Instants are nanoseconds on the monotone clock. */
  datatype Entry<V> = Entry(value: V, lastAccessed: nat, createdAt: nat)

  datatype Config = Config(maxEntries: nat, ttl: Option<nat>)

  // ---------- The recency list the cache refines ----------

  /**
    items is most recent first.  base is the process-wide origin of the evictor's clock, fixed the
    first time it is read.  skipped counts the inserts that found the cache over its limit and were
    throttled since it was last within the limit.
   */
  datatype State<K, V> = State(items: seq<(K, Entry<V>)>, lastEvictNs: nat, base: Option<nat>, skipped: nat)

  datatype Op<K, V> =
    | Get(key: K, now: nat, checked: nat)
    | Insert(key: K, value: V, now: nat, evictAt: nat, reading: nat)
    | Remove(key: K)
    | Clear
    | Evict(olderThan: Option<nat>, now: nat, evictAt: nat, reading: nat)
    | OtherCacheReadsClock(reading: nat)

  predicate Outlived<V>(e: Entry<V>, ttl: Option<nat>, t: nat) {
    ttl.Some? && SaturatingSub(t, e.createdAt) > ttl.value
  }

  function BaseAfter(base: Option<nat>, reading: nat): (b: nat) {
    if base.Some? then base.value else reading
  }

  predicate Throttled(base: Option<nat>, lastEvictNs: nat, evictAt: nat, reading: nat) {
    SaturatingSub(SaturatingSub(evictAt, BaseAfter(base, reading)), lastEvictNs) < MIN_EVICT_INTERVAL_NS
  }

  ghost function Trim<K, V>(max: nat, s: State<K, V>, evictAt: nat, reading: nat, inserted: nat): State<K, V> {
    if |s.items| <= max then s.(skipped := 0) else
    var base := BaseAfter(s.base, reading);
    if Throttled(s.base, s.lastEvictNs, evictAt, reading) then
      s.(base := Some(base), skipped := s.skipped + inserted)
    else
      State(s.items[..max], SaturatingSub(evictAt, base), Some(base), 0)
  }

  ghost function OutlivedKeys<K(!new), V(!new)>(items: seq<(K, Entry<V>)>, ttl: Option<nat>, t: nat): set<K> {
    set p | p in items && Outlived(p.1, ttl, t) :: p.0
  }

  ghost function Apply<K(!new), V(!new)>(cfg: Config, s: State<K, V>, op: Op<K, V>): State<K, V> {
    match op
    case Get(k, now, checked) =>
      if !HasKey(s.items, k) then s else
      var e := Lookup(s.items, k);
      var touched := if Outlived(e, cfg.ttl, checked) then [] else [(k, e.(lastAccessed := now))];
      s.(items := touched + DropKeys(s.items, {k}))
    case Insert(k, v, now, evictAt, reading) =>
      Trim(cfg.maxEntries, s.(items := [(k, Entry(v, now, now))] + DropKeys(s.items, {k})), evictAt, reading, 1)
    case Remove(k) => s.(items := DropKeys(s.items, {k}))
    case Clear => s.(items := [])
    case Evict(olderThan, now, evictAt, reading) =>
      Trim(cfg.maxEntries, s.(items := DropKeys(s.items, OutlivedKeys(s.items, olderThan, now))), evictAt, reading, 0)
    case OtherCacheReadsClock(reading) => s.(base := Some(BaseAfter(s.base, reading)))
  }

  ghost function GetResult<K(!new), V(!new)>(cfg: Config, s: State<K, V>, k: K, checked: nat): Option<V> {
    if HasKey(s.items, k) && !Outlived(Lookup(s.items, k), cfg.ttl, checked) then Some(Lookup(s.items, k).value)
    else None
  }

  // ---------- What every run keeps ----------

  /** op reads the clock at or after t, in the order the code reads it. */
  predicate Timely<K, V>(op: Op<K, V>, t: nat) {
    match op
    case Get(_, now, checked) => t <= now <= checked
    case Insert(_, _, now, evictAt, reading) => t <= now <= evictAt <= reading
    case Evict(_, now, evictAt, reading) => t <= now <= evictAt <= reading
    case OtherCacheReadsClock(reading) => t <= reading
    case _ => true
  }

  function TimeAfter<K, V>(op: Op<K, V>, t: nat): nat {
    match op
    case Get(_, _, checked) => checked
    case Insert(_, _, _, _, reading) => reading
    case Evict(_, _, _, reading) => reading
    case OtherCacheReadsClock(reading) => reading
    case _ => t
  }

  function AccessTime<V>(e: Entry<V>): int {
    e.lastAccessed
  }

  ghost predicate Good<K(!new), V(!new)>(cfg: Config, s: State<K, V>, t: nat) {
    && Ordered(AccessTime, s.items)
    && (forall p :: p in s.items ==> p.1.createdAt <= p.1.lastAccessed <= t)
    && |s.items| <= cfg.maxEntries + s.skipped
  }

  lemma {:induction false} DropPresentKey<K(!new), V(!new)>(items: seq<(K, Entry<V>)>, k: K)
    requires HasKey(items, k)
    ensures |DropKeys(items, {k})| < |items|
  {
    if items[0].0 != k {
      var i :| 0 <= i < |items| && items[i].0 == k;
      assert items[1..][i - 1].0 == k;
      DropPresentKey(items[1..], k);
    }
  }

  lemma TrimKeepsGood<K(!new), V(!new)>(cfg: Config, s: State<K, V>, evictAt: nat, reading: nat, inserted: nat)
    requires Good(cfg, s.(skipped := s.skipped + inserted), reading)
    ensures Good(cfg, Trim(cfg.maxEntries, s, evictAt, reading, inserted), reading)
  {
    if |s.items| > cfg.maxEntries {
      assert forall p :: p in s.items[..cfg.maxEntries] ==> p in s.items;
    }
  }

  lemma GetKeepsGood<K(!new), V(!new)>(cfg: Config, s: State<K, V>, k: K, now: nat, checked: nat, t: nat)
    requires Good(cfg, s, t) && t <= now <= checked
    ensures Good(cfg, Apply(cfg, s, Op.Get(k, now, checked)), checked)
  {
    if HasKey(s.items, k) {
      var e := Lookup(s.items, k);
      var d := DropKeys(s.items, {k});
      assert [] + d == d;
      DropKeysKeepsOrder(AccessTime, s.items, {k});
      DropPresentKey(s.items, k);
      TouchKeepsOrder(AccessTime, s.items, k, e.(lastAccessed := now), t);
    }
  }

  lemma StepKeepsGood<K(!new), V(!new)>(cfg: Config, s: State<K, V>, op: Op<K, V>, t: nat)
    requires Good(cfg, s, t) && Timely(op, t)
    ensures Good(cfg, Apply(cfg, s, op), TimeAfter(op, t))
  {
    match op
    case Get(k, now, checked) => GetKeepsGood(cfg, s, k, now, checked, t);
    case Insert(k, v, now, evictAt, reading) =>
      TouchKeepsOrder(AccessTime, s.items, k, Entry(v, now, now), t);
      TrimKeepsGood(cfg, s.(items := [(k, Entry(v, now, now))] + DropKeys(s.items, {k})), evictAt, reading, 1);
    case Remove(k) => DropKeysKeepsOrder(AccessTime, s.items, {k});
    case Clear =>
    case Evict(olderThan, now, evictAt, reading) =>
      var ks := OutlivedKeys(s.items, olderThan, now);
      DropKeysKeepsOrder(AccessTime, s.items, ks);
      TrimKeepsGood(cfg, s.(items := DropKeys(s.items, ks)), evictAt, reading, 0);
    case OtherCacheReadsClock(reading) =>
  }

  ghost predicate TimelyRun<K, V>(ops: seq<Op<K, V>>) {
    |ops| > 0 ==> var n := |ops| - 1; TimelyRun(ops[..n]) && Timely(ops[n], EndTime(ops[..n]))
  }

  function EndTime<K, V>(ops: seq<Op<K, V>>): nat {
    if |ops| == 0 then 0 else var n := |ops| - 1; TimeAfter(ops[n], EndTime(ops[..n]))
  }

  ghost function Run<K(!new), V(!new)>(cfg: Config, ops: seq<Op<K, V>>): State<K, V> {
    if |ops| == 0 then State([], 0, None, 0) else var n := |ops| - 1; Apply(cfg, Run(cfg, ops[..n]), ops[n])
  }

  /** After any run: keys distinct, most recently accessed first, and the size within its bound. */
  lemma {:induction false} RunKeepsGood<K(!new), V(!new)>(cfg: Config, ops: seq<Op<K, V>>)
    requires TimelyRun(ops)
    ensures Good(cfg, Run(cfg, ops), EndTime(ops))
  {
    if |ops| > 0 {
      var n := |ops| - 1;
      RunKeepsGood(cfg, ops[..n]);
      StepKeepsGood(cfg, Run(cfg, ops[..n]), ops[n], EndTime(ops[..n]));
    }
  }

  // ---------- What a lookup returns ----------

  /** The value and time of the last insert of k that no remove of k and no clear followed. */
  function LastInsert<K(==), V>(ops: seq<Op<K, V>>, k: K): Option<(V, nat)> {
    if |ops| == 0 then None else
    var n := |ops| - 1;
    match ops[n]
    case Insert(k', v, now, _, _) => if k' == k then Some((v, now)) else LastInsert(ops[..n], k)
    case Remove(k') => if k' == k then None else LastInsert(ops[..n], k)
    case Clear => None
    case _ => LastInsert(ops[..n], k)
  }

  lemma {:induction false} EntriesAreLastInserts<K(!new), V(!new)>(cfg: Config, ops: seq<Op<K, V>>)
    ensures forall p :: p in Run(cfg, ops).items ==> LastInsert(ops, p.0) == Some((p.1.value, p.1.createdAt))
  {
    if |ops| > 0 {
      var n := |ops| - 1;
      EntriesAreLastInserts(cfg, ops[..n]);
      var s, s' := Run(cfg, ops[..n]), Run(cfg, ops);
      forall p | p in s'.items ensures LastInsert(ops, p.0) == Some((p.1.value, p.1.createdAt)) {
        if ops[n].Get? && HasKey(s.items, ops[n].key) && p.0 == ops[n].key {
          assert (p.0, Lookup(s.items, p.0)) in s.items;
        }
      }
    }
  }

  /** A hit is the value of the latest insert of that key, and no older than the TTL. */
  lemma GetReturnsLatest<K(!new), V(!new)>(cfg: Config, ops: seq<Op<K, V>>, k: K, checked: nat)
    requires GetResult(cfg, Run(cfg, ops), k, checked).Some?
    ensures LastInsert(ops, k).Some?
    ensures GetResult(cfg, Run(cfg, ops), k, checked) == Some(LastInsert(ops, k).value.0)
    ensures cfg.ttl.Some? ==> SaturatingSub(checked, LastInsert(ops, k).value.1) <= cfg.ttl.value
  {
    EntriesAreLastInserts(cfg, ops);
    assert (k, Lookup(Run(cfg, ops).items, k)) in Run(cfg, ops).items;
  }

  /**
    After any run, a lookup of a cached key returns the value of its latest insert, unless the insert was
    longer ago than the TTL: at exactly the TTL it still hits.
   */
  lemma HitIffYoung<K(!new), V(!new)>(cfg: Config, ops: seq<Op<K, V>>, k: K, checked: nat)
    requires HasKey(Run(cfg, ops).items, k)
    ensures LastInsert(ops, k).Some?
    ensures var (v, t) := LastInsert(ops, k).value;
            GetResult(cfg, Run(cfg, ops), k, checked) ==
              if cfg.ttl.None? || checked <= t + cfg.ttl.value then Some(v) else None
  {
    EntriesAreLastInserts(cfg, ops);
    assert (k, Lookup(Run(cfg, ops).items, k)) in Run(cfg, ops).items;
  }

  /** When k was last asked for or inserted. */
  function LastUse<K(==), V>(ops: seq<Op<K, V>>, k: K): nat {
    if |ops| == 0 then 0 else
    var n := |ops| - 1;
    match ops[n]
    case Get(k', now, _) => if k' == k then now else LastUse(ops[..n], k)
    case Insert(k', _, now, _, _) => if k' == k then now else LastUse(ops[..n], k)
    case _ => LastUse(ops[..n], k)
  }

  lemma {:induction false} AccessedWhenLastUsed<K(!new), V(!new)>(cfg: Config, ops: seq<Op<K, V>>)
    ensures forall p :: p in Run(cfg, ops).items ==> p.1.lastAccessed == LastUse(ops, p.0)
  {
    if |ops| > 0 {
      var n := |ops| - 1;
      AccessedWhenLastUsed(cfg, ops[..n]);
      var s, s' := Run(cfg, ops[..n]), Run(cfg, ops);
      forall p | p in s'.items ensures p.1.lastAccessed == LastUse(ops, p.0) {
        if ops[n].Get? && p.0 == ops[n].key {
          var i :| 0 <= i < |s'.items| && s'.items[i] == p;
          assert s'.items == s.items ==> s.items[i].0 == p.0;
        }
      }
    }
  }

  /** After any timely run the cached keys stand in the order of their last use, the latest first. */
  lemma OrderedByLastUse<K(!new), V(!new)>(cfg: Config, ops: seq<Op<K, V>>, i: nat, j: nat)
    requires TimelyRun(ops) && i < j < |Run(cfg, ops).items|
    ensures var items := Run(cfg, ops).items;
            items[i].0 != items[j].0 && LastUse(ops, items[i].0) >= LastUse(ops, items[j].0)
  {
    RunKeepsGood(cfg, ops);
    AccessedWhenLastUsed(cfg, ops);
    var items := Run(cfg, ops).items;
    assert Precedes(AccessTime, items[i], items[j]);
  }

  // ---------- When a key stays ----------

  /** How old an entry may be for a lookup, or for an evict, to leave it. */
  predicate Young<V>(e: Entry<V>, limit: Option<nat>, t: nat) {
    limit.None? || t <= e.createdAt + limit.value
  }

  /** A removal of some keys leaves exactly the others, with their entries. */
  lemma {:induction false} DropKeysLookup<K(!new), V(!new)>(items: seq<(K, Entry<V>)>, ks: set<K>, k: K)
    requires HasKey(items, k)
    ensures HasKey(DropKeys(items, ks), k) <==> k !in ks
    ensures k !in ks ==> Lookup(DropKeys(items, ks), k) == Lookup(items, k)
  {
    if HasKey(DropKeys(items, ks), k) {
      assert (k, Lookup(DropKeys(items, ks), k)) in DropKeys(items, ks);
    }
    var rest := DropKeys(items[1..], ks);
    if items[0].0 == k {
      if k !in ks {
        assert DropKeys(items, ks)[0] == items[0];
      }
    } else {
      var i :| 0 <= i < |items| && items[i].0 == k;
      assert items[1..][i - 1].0 == k;
      DropKeysLookup(items[1..], ks, k);
      if k !in ks && items[0].0 !in ks {
        var j :| 0 <= j < |rest| && rest[j].0 == k;
        assert DropKeys(items, ks) == [items[0]] + rest && ([items[0]] + rest)[j + 1].0 == k;
        assert ([items[0]] + rest)[1..] == rest;
      }
    }
  }

  lemma EntryOfKey<K(!new), V(!new)>(items: seq<(K, Entry<V>)>, k: K, p: (K, Entry<V>))
    requires Ordered(AccessTime, items) && p in items && p.0 == k
    ensures HasKey(items, k) && Lookup(items, k) == p.1
  {
    forall x, y | 0 <= x < y < |items| ensures items[x].0 != items[y].0 {
      assert Precedes(AccessTime, items[x], items[y]);
    }
    var i :| 0 <= i < |items| && items[i] == p;
    assert items[i].0 == k;
    var q := (k, Lookup(items, k));
    var j :| 0 <= j < |items| && items[j] == q;
  }

  /** A lookup drops the key it asks for exactly when its entry is too old, and no other key. */
  lemma GetKeepsKey<K(!new), V(!new)>(cfg: Config, s: State<K, V>, k: K, asked: K, now: nat, checked: nat)
    requires HasKey(s.items, k)
    ensures var s' := Apply(cfg, s, Op.Get(asked, now, checked));
            var e := Lookup(s.items, k);
            && (HasKey(s'.items, k) <==> asked != k || Young(e, cfg.ttl, checked))
            && (asked == k && Young(e, cfg.ttl, checked) ==> s'.items[0] == (k, e.(lastAccessed := now)))
            && (asked != k ==> Lookup(s'.items, k) == e)
  {
    var dropped := DropKeys(s.items, {asked});
    DropKeysLookup(s.items, {asked}, k);
    var s' := Apply(cfg, s, Op.Get(asked, now, checked));
    if s'.items == [] + dropped {
      assert [] + dropped == dropped;
    } else if asked == k {
      assert s'.items[0].0 == k;
    } else if s'.items != s.items {
      InFrontLookup(s'.items[0], dropped, k);
      assert s'.items == [s'.items[0]] + dropped;
    }
  }

  lemma InFrontLookup<K(!new), V(!new)>(p: (K, Entry<V>), items: seq<(K, Entry<V>)>, k: K)
    requires p.0 != k && HasKey(items, k)
    ensures HasKey([p] + items, k) && Lookup([p] + items, k) == Lookup(items, k)
  {
    var i :| 0 <= i < |items| && items[i].0 == k;
    assert ([p] + items)[i + 1].0 == k;
    assert ([p] + items)[1..] == items;
  }

  /** An insert or a removal of another key leaves k with its entry, unless the insert evicts. */
  lemma OthersKeepKey<K(!new), V(!new)>(cfg: Config, s: State<K, V>, k: K, op: Op<K, V>)
    requires HasKey(s.items, k)
    requires (op.Insert? || op.Remove?) && op.key != k
    requires op.Insert? ==>
      |DropKeys(s.items, {op.key})| < cfg.maxEntries || Throttled(s.base, s.lastEvictNs, op.evictAt, op.reading)
    ensures HasKey(Apply(cfg, s, op).items, k) && Lookup(Apply(cfg, s, op).items, k) == Lookup(s.items, k)
  {
    DropKeysLookup(s.items, {op.key}, k);
    if op.Insert? {
      InFrontLookup((op.key, Entry(op.value, op.now, op.now)), DropKeys(s.items, {op.key}), k);
    }
  }

  /**
    An evict that finds the cache within its limit, or is throttled, drops exactly the entries that have
    outlived the age given, none if no age is given; the others keep their entries.
   */
  lemma EvictDropsOld<K(!new), V(!new)>(
    cfg: Config, s: State<K, V>, k: K, olderThan: Option<nat>, now: nat, evictAt: nat, reading: nat)
    requires Ordered(AccessTime, s.items) && HasKey(s.items, k)
    requires |s.items| <= cfg.maxEntries || Throttled(s.base, s.lastEvictNs, evictAt, reading)
    ensures var s' := Apply(cfg, s, Op.Evict(olderThan, now, evictAt, reading));
            && (HasKey(s'.items, k) <==> Young(Lookup(s.items, k), olderThan, now))
            && (HasKey(s'.items, k) ==> Lookup(s'.items, k) == Lookup(s.items, k))
  {
    var gone := OutlivedKeys(s.items, olderThan, now);
    assert (k, Lookup(s.items, k)) in s.items;
    if k in gone {
      var p :| p in s.items && Outlived(p.1, olderThan, now) && p.0 == k;
      EntryOfKey(s.items, k, p);
    }
    DropKeysLookup(s.items, gone, k);
  }

  // ---------- What an eviction removes ----------

  /** Minus the access time, so that a sort by it puts the most recently accessed entry first. */
  ghost function Staleness<K, V>(): ((K, Entry<V>)) -> int {
    (p: (K, Entry<V>)) => 0 - (p.1.lastAccessed as int)
  }

  lemma EvictionKeepsFront<K(!new), V(!new)>(cfg: Config, s: State<K, V>, evictAt: nat, reading: nat)
    requires |s.items| > cfg.maxEntries && !Throttled(s.base, s.lastEvictNs, evictAt, reading)
    ensures Apply(cfg, s, Op.Evict(None, evictAt, evictAt, reading)).items == s.items[..cfg.maxEntries]
  {
    DropNoKeys(s.items, OutlivedKeys(s.items, None, evictAt));
  }

  /**
    An unthrottled eviction of an oversized cache keeps maxEntries entries, the front of the list,
    and everything evicted was accessed no later than anything kept.
   */
  lemma EvictionKeepsMostRecent<K(!new), V(!new)>(cfg: Config, s: State<K, V>, evictAt: nat, reading: nat)
    requires Ordered(AccessTime, s.items) && |s.items| > cfg.maxEntries
    requires !Throttled(s.base, s.lastEvictNs, evictAt, reading)
    ensures var kept := Apply(cfg, s, Op.Evict(None, evictAt, evictAt, reading)).items;
            var evicted := s.items[cfg.maxEntries..];
            && kept + evicted == s.items && |kept| == cfg.maxEntries
            && forall i, j :: 0 <= i < |kept| && 0 <= j < |evicted| ==> Precedes(AccessTime, kept[i], evicted[j])
  {
    EvictionKeepsFront(cfg, s, evictAt, reading);
  }

  /**
    The list order alone decides what a full sort of the entries by access time would decide: when
    no two entries share an access time, the evictor keeps the first maxEntries of that sort.
   */
  lemma EvictionMatchesFullSort<K(!new), V(!new)>(
    cfg: Config, s: State<K, V>, evictAt: nat, reading: nat, listing: seq<(K, Entry<V>)>)
    requires Ordered(AccessTime, s.items) && |s.items| > cfg.maxEntries
    requires !Throttled(s.base, s.lastEvictNs, evictAt, reading)
    requires multiset(listing) == multiset(s.items) && SortedBy(Staleness(), listing)
    requires Injective(Staleness(), s.items)
    ensures |listing| == |s.items|
    ensures Apply(cfg, s, Op.Evict(None, evictAt, evictAt, reading)).items == listing[..cfg.maxEntries]
  {
    EvictionKeepsFront(cfg, s, evictAt, reading);
    SortIsUnique(Staleness(), s.items, listing);
  }

  /** A key just inserted is in the cache exactly when there is room for it or the evictor was throttled. */
  lemma JustInsertedSurvives<K(!new), V(!new)>(
    cfg: Config, s: State<K, V>, k: K, v: V, now: nat, evictAt: nat, reading: nat)
    ensures var s' := Apply(cfg, s, Insert(k, v, now, evictAt, reading));
            && (HasKey(s'.items, k) <==> cfg.maxEntries >= 1 || Throttled(s.base, s.lastEvictNs, evictAt, reading))
            && (HasKey(s'.items, k) ==> s'.items[0] == (k, Entry(v, now, now)))
  {
    var s' := Apply(cfg, s, Insert(k, v, now, evictAt, reading));
    var full := [(k, Entry(v, now, now))] + DropKeys(s.items, {k});
    assert s'.items == full || s'.items == full[..cfg.maxEntries];
    if |s'.items| > 0 {
      assert s'.items[0].0 == k;
    }
  }

  /**
    The first time any cache of the process is over its limit its evictor only fixes the clock's
    origin: the reading is 0 and the eviction is throttled, so the limit is exceeded by one.
   */
  lemma FirstEvictionIsThrottled<K(!new), V(!new)>(
    cfg: Config, s: State<K, V>, k: K, v: V, now: nat, evictAt: nat, reading: nat)
    requires s.base.None? && evictAt <= reading
    requires |s.items| == cfg.maxEntries && !HasKey(s.items, k)
    ensures |Apply(cfg, s, Insert(k, v, now, evictAt, reading)).items| == cfg.maxEntries + 1
  {
    forall p | p in s.items ensures p.0 !in {k} {
      var i :| 0 <= i < |s.items| && s.items[i] == p;
    }
    DropNoKeys(s.items, {k});
  }

  // ---------- When an insert stays within the limit ----------

  /** Whether there is room once k's old entry is gone. */
  ghost predicate HasRoom<K(!new), V(!new)>(cfg: Config, s: State<K, V>, k: K) {
    |DropKeys(s.items, {k})| < cfg.maxEntries
  }

  /** An insert leaves the cache within its limit exactly when there is room or its eviction is due. */
  lemma InsertWithinLimit<K(!new), V(!new)>(
    cfg: Config, s: State<K, V>, k: K, v: V, now: nat, evictAt: nat, reading: nat)
    requires evictAt <= reading
    ensures |Apply(cfg, s, Op.Insert(k, v, now, evictAt, reading)).items| <= cfg.maxEntries <==>
              HasRoom(cfg, s, k) ||
              (s.base.Some? && evictAt >= s.base.value + s.lastEvictNs + MIN_EVICT_INTERVAL_NS)
  {
  }

  /** Whether op finds more entries than the limit allows when it comes to evict. */
  ghost predicate WantsEviction<K(!new), V(!new)>(cfg: Config, s: State<K, V>, op: Op<K, V>) {
    match op
    case Insert(k, _, _, _, _) => !HasRoom(cfg, s, k)
    case Evict(olderThan, now, _, _) => |DropKeys(s.items, OutlivedKeys(s.items, olderThan, now))| > cfg.maxEntries
    case _ => false
  }

  /** When the evictor last ran, after op, if before op it was last. */
  ghost function LastAfter<K(!new), V(!new)>(cfg: Config, s: State<K, V>, op: Op<K, V>, last: Option<nat>): Option<nat>
  {
    match op
    case OtherCacheReadsClock(reading) => if last.Some? then last else Some(reading)
    case Insert(_, _, _, evictAt, reading) =>
      if WantsEviction(cfg, s, op) then EvictedAt(last, evictAt, reading) else last
    case Evict(_, _, evictAt, reading) =>
      if WantsEviction(cfg, s, op) then EvictedAt(last, evictAt, reading) else last
    case _ => last
  }

  function EvictedAt(last: Option<nat>, evictAt: nat, reading: nat): Option<nat> {
    if last.None? then Some(reading)
    else if evictAt >= last.value + MIN_EVICT_INTERVAL_NS then Some(evictAt)
    else last
  }

  /**
    When the evictor last ran: the instant of the last effective eviction, at first that of the first
    clock reading in the process, None if there was none.  Only real time matters here, no origin.
   */
  ghost function LastEviction<K(!new), V(!new)>(cfg: Config, ops: seq<Op<K, V>>): Option<nat> {
    if |ops| == 0 then None else
    var n := |ops| - 1;
    LastAfter(cfg, Run(cfg, ops[..n]), ops[n], LastEviction(cfg, ops[..n]))
  }

  /** The evictor's clock, which counts from an origin, tells that instant. */
  ghost predicate TellsLast(base: Option<nat>, lastEvictNs: nat, last: Option<nat>, t: nat) {
    match base
    case None => last.None? && lastEvictNs == 0
    case Some(b) => last == Some(b + lastEvictNs) && last.value <= t
  }

  lemma TrimTellsLast<K(!new), V(!new)>(
    cfg: Config, s: State<K, V>, last: Option<nat>, t: nat, evictAt: nat, reading: nat, inserted: nat)
    requires TellsLast(s.base, s.lastEvictNs, last, t) && t <= evictAt <= reading
    ensures var s' := Trim(cfg.maxEntries, s, evictAt, reading, inserted);
            TellsLast(s'.base, s'.lastEvictNs,
                      if |s.items| <= cfg.maxEntries then last else EvictedAt(last, evictAt, reading), reading)
  {
  }

  lemma StepTellsLast<K(!new), V(!new)>(cfg: Config, s: State<K, V>, op: Op<K, V>, last: Option<nat>, t: nat)
    requires TellsLast(s.base, s.lastEvictNs, last, t) && Timely(op, t)
    ensures var s' := Apply(cfg, s, op);
            TellsLast(s'.base, s'.lastEvictNs, LastAfter(cfg, s, op, last), TimeAfter(op, t))
  {
    match op {
      case Insert(k, v, now, evictAt, reading) =>
        var s1 := s.(items := [(k, Entry(v, now, now))] + DropKeys(s.items, {k}));
        TrimTellsLast(cfg, s1, last, t, evictAt, reading, 1);
      case Evict(olderThan, now, evictAt, reading) =>
        var s1 := s.(items := DropKeys(s.items, OutlivedKeys(s.items, olderThan, now)));
        TrimTellsLast(cfg, s1, last, t, evictAt, reading, 0);
      case _ =>
    }
  }

  lemma {:induction false} ClockTellsLastEviction<K(!new), V(!new)>(cfg: Config, ops: seq<Op<K, V>>)
    requires TimelyRun(ops)
    ensures TellsLast(Run(cfg, ops).base, Run(cfg, ops).lastEvictNs, LastEviction(cfg, ops), EndTime(ops))
  {
    if |ops| > 0 {
      var n := |ops| - 1;
      ClockTellsLastEviction(cfg, ops[..n]);
      StepTellsLast(cfg, Run(cfg, ops[..n]), ops[n], LastEviction(cfg, ops[..n]), EndTime(ops[..n]));
    }
  }

  /**
    From an empty cache in a fresh process, after any timely run: the next insert leaves the cache within
    its limit exactly when there is room for the key, or the clock has been read before and the
    evictor last ran a millisecond ago or longer.
   */
  lemma InsertWithinLimitInEveryRun<K(!new), V(!new)>(
    cfg: Config, ops: seq<Op<K, V>>, k: K, v: V, now: nat, evictAt: nat, reading: nat)
    requires TimelyRun(ops) && evictAt <= reading
    ensures var last := LastEviction(cfg, ops);
            |Apply(cfg, Run(cfg, ops), Op.Insert(k, v, now, evictAt, reading)).items| <= cfg.maxEntries <==>
              HasRoom(cfg, Run(cfg, ops), k) || (last.Some? && evictAt >= last.value + MIN_EVICT_INTERVAL_NS)
  {
    ClockTellsLastEviction(cfg, ops);
    InsertWithinLimit(cfg, Run(cfg, ops), k, v, now, evictAt, reading);
  }

  // ---------- The two-structure implementation ----------

  /** The process-wide origin of `instant_to_nanos`. */
  class NanoClock {
    var base: Option<nat>

    constructor ()
      ensures base == None
    {
      base := None;
    }

    /** t in nanoseconds since the origin; reading is the instant at which the origin would be set. */
    method Nanos(t: nat, reading: nat) returns (ns: nat)
      modifies this
      ensures base == Some(BaseAfter(old(base), reading))
      ensures ns == SaturatingSub(t, BaseAfter(old(base), reading))
    {
      if base.None? {
        base := Some(reading);
      }
      ns := SaturatingSub(t, base.value);
    }
  }

  class EvictableCache<K(==, !new), V(!new)> {
    var inner: map<K, Entry<V>>
    var lruIndex: seq<K>
    var lastEvictNs: nat
    const cfg: Config
    const clock: NanoClock
    ghost var skipped: nat

    ghost predicate Valid()
      reads this
    {
      && Distinct(lruIndex)
      && Elements(lruIndex) == inner.Keys
      && forall k :: k in lruIndex ==> k in inner
    }

    ghost function Items(): seq<(K, Entry<V>)>
      requires Valid()
      reads this
    {
      Zip(lruIndex, inner)
    }

    ghost function Abs(): State<K, V>
      requires Valid()
      reads this, clock
    {
      State(Items(), lastEvictNs, clock.base, skipped)
    }

    constructor (cfg: Config, clock: NanoClock)
      ensures Valid() && this.cfg == cfg && this.clock == clock
      ensures Abs() == State([], 0, clock.base, 0)
    {
      inner, lruIndex, lastEvictNs, skipped := map[], [], 0, 0;
      this.cfg, this.clock := cfg, clock;
    }

    method Get(key: K, now: nat, checked: nat) returns (result: Option<V>)
      requires Valid()
      modifies this
      ensures Valid()
      ensures Abs() == Apply(cfg, old(Abs()), Op.Get(key, now, checked))
      ensures result == GetResult(cfg, old(Abs()), key, checked)
    {
      var entry := GetEntry(key, now, checked);
      result := if entry.Some? then Some(entry.value.value) else None;
    }

    method GetEntry(key: K, now: nat, checked: nat) returns (result: Option<Entry<V>>)
      requires Valid()
      modifies this
      ensures Valid()
      ensures Abs() == Apply(cfg, old(Abs()), Op.Get(key, now, checked))
      ensures result == if GetResult(cfg, old(Abs()), key, checked).Some?
                        then Some(Lookup(old(Items()), key).(lastAccessed := now)) else None
    {
      ZipLookup(lruIndex, inner, key);
      result := None;
      if key in inner {
        var entry := inner[key];
        if Outlived(entry, cfg.ttl, checked) {
          ZipPop(lruIndex, inner, key);
          inner := inner - {key};
          lruIndex := Without(lruIndex, key);
          assert [] + Items() == Items();
        } else {
          entry := entry.(lastAccessed := now);
          ZipTouch(lruIndex, inner, key, entry);
          inner := inner[key := entry];
          result := Some(entry);
          lruIndex := Touch(lruIndex, key);
        }
      }
    }

    method Insert(key: K, value: V, now: nat, evictAt: nat, reading: nat)
      requires Valid()
      modifies this, clock
      ensures Valid()
      ensures Abs() == Apply(cfg, old(Abs()), Op.Insert(key, value, now, evictAt, reading))
    {
      ZipTouch(lruIndex, inner, key, Entry(value, now, now));
      inner := inner[key := Entry(value, now, now)];
      lruIndex := Touch(lruIndex, key);
      EvictLruIfNeeded(evictAt, reading, 1);
    }

    method Remove(key: K) returns (result: Option<V>)
      requires Valid()
      modifies this
      ensures Valid()
      ensures Abs() == Apply(cfg, old(Abs()), Op.Remove(key))
      ensures result == if HasKey(old(Items()), key) then Some(Lookup(old(Items()), key).value) else None
    {
      ZipLookup(lruIndex, inner, key);
      ZipPop(lruIndex, inner, key);
      lruIndex := Without(lruIndex, key);
      result := if key in inner then Some(inner[key].value) else None;
      inner := inner - {key};
    }

    method Clear()
      requires Valid()
      modifies this
      ensures Valid()
      ensures Abs() == Apply(cfg, old(Abs()), Op.Clear)
    {
      inner := map[];
      lruIndex := [];
    }

    method EvictLruIfNeeded(evictAt: nat, reading: nat, ghost inserted: nat)
      requires Valid()
      modifies this, clock
      ensures Valid()
      ensures Abs() == Trim(cfg.maxEntries, old(Abs()), evictAt, reading, inserted)
    {
      DistinctCardinality(lruIndex);
      var excess := SaturatingSub(|inner|, cfg.maxEntries);
      if excess == 0 {
        skipped := 0;
        return;
      }
      var nowNs := clock.Nanos(evictAt, reading);
      if SaturatingSub(nowNs, lastEvictNs) < MIN_EVICT_INTERVAL_NS {
        skipped := skipped + inserted;
        return;
      }
      lastEvictNs := nowNs;
      skipped := 0;
      ghost var n := |lruIndex|;
      for i := 0 to excess
        invariant Valid() && |lruIndex| == n - i
        invariant Items() == old(Items())[..n - i]
        invariant lastEvictNs == nowNs && skipped == 0 && clock.base == Some(BaseAfter(old(clock.base), reading))
      {
        if lruIndex == [] {
          break;
        }
        PopLru();
      }
    }

    method PopLru()
      requires Valid() && lruIndex != []
      modifies this`lruIndex, this`inner
      ensures Valid()
      ensures |lruIndex| == old(|lruIndex|) - 1 && Items() == old(Items()[..|lruIndex| - 1])
    {
      var n := |lruIndex| - 1;
      var oldKey := lruIndex[n];
      ZipPopLast(lruIndex, inner);
      lruIndex := lruIndex[..n];
      inner := inner - {oldKey};
    }

    method Evict(olderThan: Option<nat>, now: nat, evictAt: nat, reading: nat)
      requires Valid()
      modifies this, clock
      ensures Valid()
      ensures Abs() == Apply(cfg, old(Abs()), Op.Evict(olderThan, now, evictAt, reading))
    {
      var expired := set k | k in inner && Outlived(inner[k], olderThan, now);
      ExpiredKeys(olderThan, now, expired);
      RemoveAll(expired);
      EvictLruIfNeeded(evictAt, reading, 0);
    }

    /** The removal loop of `evict`; the map's iteration order is arbitrary. */
    method RemoveAll(keys: set<K>)
      requires Valid()
      modifies this`inner, this`lruIndex
      ensures Valid()
      ensures Items() == DropKeys(old(Items()), keys)
    {
      var left := keys;
      ghost var done: set<K> := {};
      DropNoKeys(Items(), done);
      while left != {}
        invariant Valid() && done + left == keys
        invariant Items() == DropKeys(old(Items()), done)
        decreases left
      {
        var key :| key in left;
        ZipPop(lruIndex, inner, key);
        DropKeysTwice(old(Items()), done, {key});
        inner := inner - {key};
        lruIndex := Without(lruIndex, key);
        done, left := done + {key}, left - {key};
      }
      assert done == keys;
    }

    lemma ExpiredKeys(olderThan: Option<nat>, now: nat, expired: set<K>)
      requires Valid()
      requires expired == set k | k in inner && Outlived(inner[k], olderThan, now)
      ensures expired == OutlivedKeys(Items(), olderThan, now)
    {
      forall k | k in expired ensures k in OutlivedKeys(Items(), olderThan, now) {
        assert k in Elements(lruIndex);
        var i :| 0 <= i < |lruIndex| && lruIndex[i] == k;
        assert Items()[i] == (k, inner[k]);
      }
    }
  }
}
