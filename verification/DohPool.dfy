/**
  The DoH client's connection pool: one idle connection per host, dropped after a minute or when
  fifty are pooled, with an LRU index beside the map.  Each method runs without interruption.
*/
module DohPools {
  import opened Common
  import opened RecencyList

  const CONNECTION_POOL_TTL: nat := 60
  const MAX_POOL_SIZE: nat := 50
  const MAX_EVICT_ATTEMPTS: nat := MAX_POOL_SIZE + 1

  /** A TLS stream, told apart from every other by its identity. */
  type Conn = nat

  datatype PoolEntry = PoolEntry(stream: Conn, lastUsed: nat)

  function UsedAt(e: PoolEntry): int {
    e.lastUsed
  }

  /** The address a connection is pooled under. */
  datatype Key = Key(address: string)

  function PoolKey(host: string): Key {
    Key(host + ":443")
  }

  lemma PoolKeyInjective(a: string, b: string)
    requires PoolKey(a) == PoolKey(b)
    ensures a == b
  {
    assert a == (a + ":443")[..|a|] && b == (b + ":443")[..|b|];
  }

  /** Returning a connection to a pool without one for that key. */
  ghost function AfterReturn(items: seq<(Key, PoolEntry)>, key: Key, e: PoolEntry): seq<(Key, PoolEntry)> {
    [(key, e)] + if |items| >= MAX_POOL_SIZE then items[..MAX_POOL_SIZE - 1] else items
  }

  ghost predicate Good(items: seq<(Key, PoolEntry)>, now: nat) {
    && Ordered(UsedAt, items)
    && |items| <= MAX_POOL_SIZE
    && forall p :: p in items ==> p.1.lastUsed <= now
  }

  /** Order and bound survive a return, and the connection it evicts is the longest idle one. */
  lemma ReturnDropsLongestIdle(items: seq<(Key, PoolEntry)>, key: Key, e: PoolEntry, now: nat)
    requires Good(items, now) && !HasKey(items, key) && e.lastUsed >= now
    ensures Good(AfterReturn(items, key, e), e.lastUsed)
    ensures forall p, q :: p in items && p !in AfterReturn(items, key, e) && q in AfterReturn(items, key, e)
              ==> p.1.lastUsed <= q.1.lastUsed
    ensures |AfterReturn(items, key, e)| == if |items| == MAX_POOL_SIZE then MAX_POOL_SIZE else |items| + 1
  {
    var kept := if |items| >= MAX_POOL_SIZE then items[..MAX_POOL_SIZE - 1] else items;
    forall q | q in kept ensures Precedes(UsedAt, (key, e), q) {
      assert q in items;
      var i :| 0 <= i < |items| && items[i] == q;
    }
    ConsOrdered(UsedAt, (key, e), kept);
    forall p, q | p in items && p !in kept && q in kept ensures p.1.lastUsed <= q.1.lastUsed {
      var i :| 0 <= i < |items| && items[i] == p;
      var j :| 0 <= j < |kept| && kept[j] == q;
      assert Precedes(UsedAt, items[j], items[i]);
    }
  }

  /** A connection is pooled for the key, and has not been idle for too long. */
  ghost predicate Live(items: seq<(Key, PoolEntry)>, key: Key, now: nat) {
    HasKey(items, key) && now - Lookup(items, key).lastUsed < CONNECTION_POOL_TTL
  }

  /** A connection just returned is the one found for its key, for less than a minute. */
  lemma ReturnedIsLive(items: seq<(Key, PoolEntry)>, key: Key, e: PoolEntry, now: nat)
    ensures var after := AfterReturn(items, key, e);
            && HasKey(after, key) && Lookup(after, key) == e
            && (Live(after, key, now) <==> now < e.lastUsed + 60)
  {
    assert AfterReturn(items, key, e)[0] == (key, e);
  }

  // ---------- The two structures ----------

  /** The index lists exactly the pooled keys, each once. */
  ghost predicate Agree(index: seq<Key>, pool: map<Key, PoolEntry>) {
    && Distinct(index) && Elements(index) == pool.Keys
    && forall k :: k in index ==> k in pool
  }

  /** Every pooled connection was made to the host of its key, and no caller holds it. */
  ghost predicate Accounted(pool: map<Key, PoolEntry>, peer: map<Conn, string>, held: set<Conn>) {
    forall k :: k in pool ==> pool[k].stream in peer && pool[k].stream !in held && k == PoolKey(peer[pool[k].stream])
  }

  lemma Absent(index: seq<Key>, pool: map<Key, PoolEntry>, key: Key)
    requires Agree(index, pool) && key !in pool
    ensures DropKeys(Zip(index, pool), {key}) == Zip(index, pool)
    ensures !HasKey(Zip(index, pool), key)
  {
    ZipLookup(index, pool, key);
    DropNoKeys(Zip(index, pool), {key});
  }

  lemma Inserted(index: seq<Key>, pool: map<Key, PoolEntry>, key: Key, e: PoolEntry, clock: nat)
    requires Agree(index, pool) && key !in pool
    requires Good(Zip(index, pool), clock) && |index| < MAX_POOL_SIZE && clock <= e.lastUsed
    ensures Agree(Touch(index, key), pool[key := e])
    ensures Zip(Touch(index, key), pool[key := e]) == [(key, e)] + Zip(index, pool)
    ensures Good(Zip(Touch(index, key), pool[key := e]), e.lastUsed)
  {
    ZipTouch(index, pool, key, e);
    Absent(index, pool, key);
    TouchKeepsOrder(UsedAt, Zip(index, pool), key, e, clock);
  }

  lemma PoppedLast(index: seq<Key>, pool: map<Key, PoolEntry>, clock: nat)
    requires Agree(index, pool) && Good(Zip(index, pool), clock) && index != []
    ensures var n := |index| - 1;
            var after := pool - {index[n]};
            && Agree(index[..n], after)
            && Zip(index[..n], after) == Zip(index, pool)[..n]
            && Good(Zip(index[..n], after), clock)
  {
    var n := |index| - 1;
    ZipPopLast(index, pool);
    assert forall p :: p in Zip(index, pool)[..n] ==> p in Zip(index, pool);
  }

  lemma Removed(index: seq<Key>, pool: map<Key, PoolEntry>, key: Key, clock: nat, now: nat)
    requires Agree(index, pool) && Good(Zip(index, pool), clock) && clock <= now
    ensures Agree(Without(index, key), pool - {key})
    ensures Zip(Without(index, key), pool - {key}) == DropKeys(Zip(index, pool), {key})
    ensures Good(Zip(Without(index, key), pool - {key}), now)
  {
    ZipPop(index, pool, key);
    DropKeysKeepsOrder(UsedAt, Zip(index, pool), {key});
  }

  lemma Unpooled(pool: map<Key, PoolEntry>, peer: map<Conn, string>, held: set<Conn>, host: string)
    requires Accounted(pool, peer, held) && PoolKey(host) in pool
    ensures var c := pool[PoolKey(host)].stream;
            && c in peer && peer[c] == host && c !in held
            && Accounted(pool - {PoolKey(host)}, peer, held) && Accounted(pool - {PoolKey(host)}, peer, held + {c})
  {
    PoolKeyInjective(host, peer[pool[PoolKey(host)].stream]);
  }

  class DohPool {
    var pool: map<Key, PoolEntry>
    var lruIndex: seq<Key>
    ghost var peer: map<Conn, string>   // every connection ever made, and the host it was made to
    ghost var held: set<Conn>           // connections in the hands of a caller
    ghost var clock: nat                // the latest time read

    ghost predicate Valid()
      reads this
    {
      && Agree(lruIndex, pool)
      && Good(Zip(lruIndex, pool), clock)
      && held <= peer.Keys
      && Accounted(pool, peer, held)
    }

    ghost function Items(): seq<(Key, PoolEntry)>
      requires Valid()
      reads this
    {
      Zip(lruIndex, pool)
    }

    /** A connection sits in the pool under one key at most, and never while a caller holds it. */
    lemma PooledOnceOrHeld(c: Conn)
      requires Valid()
      ensures forall k, l :: k in pool && l in pool && pool[k].stream == c && pool[l].stream == c ==> k == l
      ensures c in held ==> forall k :: k in pool ==> pool[k].stream != c
      ensures |pool| <= MAX_POOL_SIZE && pool.Keys == Elements(lruIndex)
    {
      PoolSize();
    }

    constructor ()
      ensures Valid() && Items() == [] && held == {} && peer == map[]
    {
      pool, lruIndex, peer, held, clock := map[], [], map[], {}, 0;
    }

    /** A new connection to host; its identity is one never used before. */
    method Connect(host: string, id: Conn) returns (c: Conn)
      requires Valid() && id !in peer
      modifies this
      ensures Valid() && Items() == old(Items()) && clock == old(clock)
      ensures c == id && peer == old(peer)[c := host] && held == old(held) + {c}
    {
      c := id;
      peer := peer[c := host];
      held := held + {c};
    }

    /** The caller drops a connection instead of returning it. */
    ghost method Close(c: Conn)
      requires Valid() && c in held
      modifies this`held
      ensures Valid() && held == old(held) - {c} && Items() == old(Items())
    {
      held := held - {c};
    }

    method EvictOldestConnection()
      requires Valid()
      modifies this`pool, this`lruIndex
      ensures Valid()
      ensures Items() == if |old(Items())| == 0 then [] else old(Items())[..|old(Items())| - 1]
    {
      if lruIndex != [] {
        var n := |lruIndex| - 1;
        var oldKey := lruIndex[n];
        PoppedLast(lruIndex, pool, clock);
        lruIndex := lruIndex[..n];
        pool := pool - {oldKey};
      }
    }

    method AcquireConnection(host: string, now: nat) returns (r: Option<Conn>)
      requires Valid() && clock <= now
      modifies this
      ensures Valid() && peer == old(peer) && clock == now
      ensures Items() == DropKeys(old(Items()), {PoolKey(host)})
      ensures r.Some? <==> Live(old(Items()), PoolKey(host), now)
      ensures r.Some? ==> r.value == Lookup(old(Items()), PoolKey(host)).stream
      ensures r.Some? ==> r.value in peer && peer[r.value] == host && r.value !in old(held)
      ensures held == old(held) + if r.Some? then {r.value} else {}
    {
      var key := PoolKey(host);
      clock := now;
      ZipLookup(lruIndex, pool, key);
      if key !in pool {
        Absent(lruIndex, pool, key);
        return None;
      }
      var entry := pool[key];
      Removed(lruIndex, pool, key, old(clock), now);
      Unpooled(pool, peer, held, host);
      pool := pool - {key};
      lruIndex := Without(lruIndex, key);
      assert Valid();
      if now - entry.lastUsed >= CONNECTION_POOL_TTL {
        return None;
      }
      held := held + {entry.stream};
      return Some(entry.stream);
    }

    method ReturnConnection(host: string, c: Conn, now: nat)
      requires Valid() && clock <= now && c in held && peer[c] == host
      modifies this
      ensures Valid() && peer == old(peer) && clock == now && held == old(held) - {c}
      ensures Items() == if HasKey(old(Items()), PoolKey(host)) then old(Items())
                         else AfterReturn(old(Items()), PoolKey(host), PoolEntry(c, now))
      ensures HasKey(Items(), PoolKey(host))
    {
      var key := PoolKey(host);
      clock := now;
      ZipLookup(lruIndex, pool, key);
      held := held - {c};
      if key in pool {
        assert HasKey(Items(), key);
        return;
      }
      ReturnDropsLongestIdle(Items(), key, PoolEntry(c, now), now);
      MakeRoom(key);
      if |pool| < MAX_POOL_SIZE {
        InsertVacant(key, c, now);
        assert Items()[0].0 == key;
      }
    }

    method InsertVacant(key: Key, c: Conn, now: nat)
      requires Valid() && key !in pool && |pool| < MAX_POOL_SIZE && clock <= now
      requires c in peer && c !in held && key == PoolKey(peer[c])
      modifies this`pool, this`lruIndex, this`clock
      ensures Valid() && clock == now && Items() == [(key, PoolEntry(c, now))] + old(Items())
    {
      PoolSize();
      Inserted(lruIndex, pool, key, PoolEntry(c, now), clock);
      pool := pool[key := PoolEntry(c, now)];
      lruIndex := Touch(lruIndex, key);
      clock := now;
    }

    /** The eviction loop: it ends with a slot free, having evicted one connection at most. */
    method MakeRoom(ghost key: Key)
      requires Valid() && key !in pool
      modifies this`pool, this`lruIndex
      ensures Valid() && key !in pool && |pool| < MAX_POOL_SIZE
      ensures Items() == if |old(Items())| >= MAX_POOL_SIZE then old(Items())[..MAX_POOL_SIZE - 1] else old(Items())
    {
      var evictAttempts := 0;
      ghost var before := Items();
      PoolSize();
      ZipLookup(lruIndex, pool, key);
      while |pool| >= MAX_POOL_SIZE && evictAttempts < MAX_EVICT_ATTEMPTS
        invariant Valid() && |pool| == |Items()|
        invariant evictAttempts <= |before| && (evictAttempts > 0 ==> evictAttempts == 1 && |before| == MAX_POOL_SIZE)
        invariant Items() == before[..|before| - evictAttempts]
      {
        EvictOldestConnection();
        PoolSize();
        evictAttempts := evictAttempts + 1;
        if |pool| == 0 {
          break;
        }
      }
      StillFrom(key, before);
    }

    lemma PoolSize()
      requires Valid()
      ensures |pool| == |Items()|
    {
      DistinctCardinality(lruIndex);
      assert |pool| == |pool.Keys|;
    }

    lemma StillFrom(key: Key, before: seq<(Key, PoolEntry)>)
      requires Valid() && Items() <= before
      ensures key in pool ==> HasKey(before, key)
    {
      ZipLookup(lruIndex, pool, key);
      if i :| 0 <= i < |Items()| && Items()[i].0 == key {
        assert before[i].0 == key;
      }
    }

    /** A connection for one query: pooled if there is a live one, otherwise dialled. */
    method Obtain(host: string, dialOk: bool, id: Conn, now: nat) returns (r: Option<Conn>)
      requires Valid() && clock <= now && id !in peer
      modifies this
      ensures Valid() && clock == now
      ensures r == if Live(old(Items()), PoolKey(host), now) then Some(Lookup(old(Items()), PoolKey(host)).stream)
                   else if dialOk then Some(id) else None
      ensures r.Some? ==> r.value in peer && peer[r.value] == host
      ensures r.Some? ==> r.value !in old(held) && held == old(held) + {r.value}
      ensures r.None? ==> held == old(held)
    {
      r := AcquireConnection(host, now);
      if r.None? && dialOk {
        var c := Connect(host, id);
        r := Some(c);
      }
    }

    /**
      `query_host_grouped` over the pool: take or make a connection, use it, give it back unless a
      query failed on it.  No connection stays in the caller's hands either way.
     */
    method QueryHost(host: string, dialOk: bool, id: Conn, queriesOk: bool, now: nat, later: nat)
      returns (used: Option<Conn>)
      requires Valid() && clock <= now <= later && id !in peer
      modifies this
      ensures Valid() && held == old(held)
      ensures used.Some? ==> used.value in peer && peer[used.value] == host && used.value !in old(held)
      ensures used == if Live(old(Items()), PoolKey(host), now) then Some(Lookup(old(Items()), PoolKey(host)).stream)
                      else if dialOk then Some(id) else None
      ensures used.Some? && queriesOk ==> HasKey(Items(), PoolKey(host))
    {
      used := Obtain(host, dialOk, id, now);
      if used.Some? {
        if queriesOk {
          ReturnConnection(host, used.value, later);
        } else {
          Close(used.value);
        }
      }
    }
  }
}
