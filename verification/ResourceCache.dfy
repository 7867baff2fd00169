/**
  The disk cache of image responses: one file per URL and a metadata map beside it, with a TTL and a
  size limit.  Files are named by a key computed from the URL.  Times are in seconds.
*/
module ResourceCaches {
  import opened Common
  import RecencyList

  /** The hexadecimal hash that names an entry. */
  datatype Key = Key(hex: string)

  datatype Meta = Meta(
    url: string, contentType: string, etag: Option<string>, lastModified: Option<string>,
    createdAt: nat, lastAccessed: nat, fileSize: nat)

  datatype Resource = Resource(contentType: string, data: seq<byte>, etag: Option<string>, lastModified: Option<string>)

  datatype Config = Config(
    enabled: bool, ttlDays: nat, maxSizeMb: nat, maxFileSizeMb: nat,
    cacheable: (string, string) -> bool,   // by URL and content type
    keyOf: string -> Key)                  // the URL's hash

  function TtlSeconds(cfg: Config): nat { cfg.ttlDays * 24 * 3600 }

  function MaxBytes(cfg: Config): nat { cfg.maxSizeMb * 1024 * 1024 }

  predicate Accepts(cfg: Config, url: string, r: Resource) {
    cfg.enabled && cfg.cacheable(url, r.contentType) && |r.data| <= cfg.maxFileSizeMb * 1024 * 1024
  }

  // ---------- Total size ----------

  ghost function Total(meta: map<Key, Meta>): nat {
    if meta == map[] then 0 else
    var k :| k in meta;
    meta[k].fileSize + Total(meta - {k})
  }

  lemma {:induction false} TotalRemove(meta: map<Key, Meta>, k: Key)
    requires k in meta
    ensures Total(meta) == meta[k].fileSize + Total(meta - {k})
    decreases |meta|
  {
    var j :| j in meta && Total(meta) == meta[j].fileSize + Total(meta - {j});
    if j != k {
      TotalRemove(meta - {j}, k);
      TotalRemove(meta - {k}, j);
      assert meta - {j} - {k} == meta - {k} - {j};
    }
  }

  /** The first n keys of a listing. */
  ghost function First(order: seq<Key>, n: nat): set<Key>
    requires n <= |order|
  {
    if n == 0 then {} else First(order, n - 1) + {order[n - 1]}
  }

  lemma {:induction false} InFirst(order: seq<Key>, n: nat, i: nat)
    requires i < n <= |order|
    ensures order[i] in First(order, n)
  {
    if i < n - 1 {
      InFirst(order, n - 1, i);
    }
  }

  lemma {:induction false} IndexInFirst(order: seq<Key>, n: nat, k: Key) returns (i: nat)
    requires n <= |order| && k in First(order, n)
    ensures i < n && order[i] == k
  {
    if order[n - 1] == k {
      i := n - 1;
    } else {
      i := IndexInFirst(order, n - 1, k);
    }
  }

  lemma NextIsNew(order: seq<Key>, n: nat)
    requires RecencyList.Distinct(order) && n < |order|
    ensures order[n] !in First(order, n)
  {
    if order[n] in First(order, n) {
      var i := IndexInFirst(order, n, order[n]);
      assert false;
    }
  }

  ghost predicate OldestFirst(order: seq<Key>, meta: map<Key, Meta>)
    requires AllIn(order, meta)
  {
    forall i, j :: 0 <= i < j < |order| ==> meta[order[i]].lastAccessed <= meta[order[j]].lastAccessed
  }

  ghost predicate AllIn(order: seq<Key>, meta: map<Key, Meta>) {
    forall i :: 0 <= i < |order| ==> order[i] in meta
  }

  /** What the sort of the metadata by last access yields: every key once, oldest first; ties in any order. */
  ghost predicate EvictionOrder(order: seq<Key>, meta: map<Key, Meta>) {
    && RecencyList.Distinct(order) && First(order, |order|) == meta.Keys
    && AllIn(order, meta) && OldestFirst(order, meta)
  }

  /** The bytes that deleting the file of k frees, if it can be deleted. */
  ghost function Yield(meta: map<Key, Meta>, canDelete: Key -> bool, k: Key): nat
    requires k in meta
  {
    if canDelete(k) then meta[k].fileSize else 0
  }

  /** The bytes freed when the first n files are deleted, those that can be. */
  ghost function Freed(order: seq<Key>, n: nat, meta: map<Key, Meta>, canDelete: Key -> bool): nat
    requires n <= |order| && AllIn(order, meta)
  {
    if n == 0 then 0 else Freed(order, n - 1, meta, canDelete) + Yield(meta, canDelete, order[n - 1])
  }

  lemma MinusTwice<V>(m: map<Key, V>, a: set<Key>, b: set<Key>)
    ensures m - a - b == m - (a + b)
  {
  }

  lemma PrefixStep(order: seq<Key>, meta: map<Key, Meta>, n: nat)
    requires EvictionOrder(order, meta) && n < |order|
    ensures Total(meta - First(order, n)) == meta[order[n]].fileSize + Total(meta - First(order, n + 1))
  {
    NextIsNew(order, n);
    var rest := meta - First(order, n);
    TotalRemove(rest, order[n]);
    MinusTwice(meta, First(order, n), {order[n]});
  }

  lemma NothingLeft(order: seq<Key>, meta: map<Key, Meta>)
    requires EvictionOrder(order, meta)
    ensures Total(meta - First(order, |order|)) == 0
  {
    assert meta - First(order, |order|) == map[];
  }

  lemma NothingGone(order: seq<Key>, meta: map<Key, Meta>)
    ensures meta - First(order, 0) == meta
  {
  }

  ghost predicate AllDeletable(order: seq<Key>, n: nat, canDelete: Key -> bool)
    requires n <= |order|
  {
    forall i :: 0 <= i < n ==> canDelete(order[i])
  }

  /** Dropping the first n entries takes at least the bytes freed off the total. */
  lemma {:induction false} PrefixTotals(order: seq<Key>, meta: map<Key, Meta>, canDelete: Key -> bool, n: nat)
    requires EvictionOrder(order, meta) && n <= |order|
    ensures Total(meta) >= Freed(order, n, meta, canDelete) + Total(meta - First(order, n))
  {
    if n == 0 {
      NothingGone(order, meta);
    } else {
      PrefixTotals(order, meta, canDelete, n - 1);
      PrefixStep(order, meta, n - 1);
    }
  }

  /** It takes exactly those bytes if all these files can be deleted. */
  lemma {:induction false} PrefixTotalsExact(order: seq<Key>, meta: map<Key, Meta>, canDelete: Key -> bool, n: nat)
    requires EvictionOrder(order, meta) && n <= |order| && AllDeletable(order, n, canDelete)
    ensures Total(meta) == Freed(order, n, meta, canDelete) + Total(meta - First(order, n))
  {
    if n == 0 {
      NothingGone(order, meta);
    } else {
      PrefixTotalsExact(order, meta, canDelete, n - 1);
      PrefixStep(order, meta, n - 1);
      assert Yield(meta, canDelete, order[n - 1]) == meta[order[n - 1]].fileSize;
    }
  }

  /** The metadata of these keys alone. */
  ghost function Only(meta: map<Key, Meta>, ks: set<Key>): map<Key, Meta> {
    map k | k in meta && k in ks :: meta[k]
  }

  /** The bytes freed are those of the files that are gone. */
  lemma {:induction false} FreedIsGone(order: seq<Key>, meta: map<Key, Meta>, canDelete: Key -> bool, n: nat)
    requires EvictionOrder(order, meta) && n <= |order|
    ensures Freed(order, n, meta, canDelete) == Total(Only(meta, Deletable(First(order, n), canDelete)))
  {
    if n == 0 {
      assert Only(meta, Deletable({}, canDelete)) == map[];
    } else {
      var key, before := order[n - 1], Deletable(First(order, n - 1), canDelete);
      FreedIsGone(order, meta, canDelete, n - 1);
      NextIsNew(order, n - 1);
      OneMore(First(order, n - 1), key, canDelete);
      if canDelete(key) {
        TotalRemove(Only(meta, before + {key}), key);
        assert Only(meta, before + {key}) - {key} == Only(meta, before);
      } else {
        assert before + {} == before;
      }
    }
  }

  // ---------- How many entries an eviction takes ----------

  /** n victims are enough to free target bytes and one fewer is not, or else they are all there is. */
  ghost predicate VictimCount(order: seq<Key>, meta: map<Key, Meta>, canDelete: Key -> bool, target: nat, n: nat)
    requires AllIn(order, meta)
  {
    && n <= |order|
    && (Freed(order, n, meta, canDelete) >= target || n == |order|)
    && (n > 0 ==> Freed(order, n - 1, meta, canDelete) < target)
  }

  /** Whatever deletions fail, what an eviction leaves is within the limit. */
  lemma EvictionBound(order: seq<Key>, meta: map<Key, Meta>, canDelete: Key -> bool, max: nat, n: nat)
    requires EvictionOrder(order, meta) && Total(meta) > max
    requires VictimCount(order, meta, canDelete, Total(meta) - max, n)
    ensures Total(meta - First(order, n)) <= max
  {
    PrefixTotals(order, meta, canDelete, n);
    NothingLeft(order, meta);
  }

  /**
    If none of the deletions fails, the bytes freed account for the difference, and one victim fewer would
    have left too much.
   */
  lemma EvictionConserves(order: seq<Key>, meta: map<Key, Meta>, canDelete: Key -> bool, max: nat, n: nat)
    requires EvictionOrder(order, meta) && Total(meta) > max
    requires VictimCount(order, meta, canDelete, Total(meta) - max, n)
    requires AllDeletable(order, n, canDelete)
    ensures Total(meta) == Freed(order, n, meta, canDelete) + Total(meta - First(order, n))
    ensures n > 0 && Total(meta - First(order, n - 1)) > max
  {
    NothingLeft(order, meta);
    NothingGone(order, meta);
    PrefixTotalsExact(order, meta, canDelete, n);
    PrefixTotalsExact(order, meta, canDelete, n - 1);
  }

  /** Every evicted entry, the i-th say, was accessed no later than every entry kept. */
  lemma VictimsAreOldest(order: seq<Key>, meta: map<Key, Meta>, n: nat, i: nat, kept: Key)
    requires EvictionOrder(order, meta) && i < n <= |order|
    requires kept in meta - First(order, n)
    ensures meta[order[i]].lastAccessed <= meta[kept].lastAccessed
  {
    var j := IndexInFirst(order, |order|, kept);
    if j < n {
      InFirst(order, n, j);
    }
  }

  // ---------- Runs with working files, one operation after another ----------

  datatype Store = Store(files: map<Key, seq<byte>>, metadata: map<Key, Meta>)

  /**
    EvictRun and RemoveRun are the tasks that put and get leave to run later.  Here every operation is
    done before the next begins; `ResourceCacheInterleaving` is about those that overlap.
   */
  datatype Op =
    | Put(url: string, resource: Resource, now: nat)
    | Remove(url: string)
    | ClearExpired(now: nat)
    | Clear
    | RemoveRun(key: Key)
    | EvictRun(victims: set<Key>)

  function ExpiredKeys(cfg: Config, meta: map<Key, Meta>, now: nat): set<Key> {
    set k | k in meta && SaturatingSub(now, meta[k].createdAt) > TtlSeconds(cfg)
  }

  function Without(s: Store, ks: set<Key>): Store {
    Store(s.files - ks, s.metadata - ks)
  }

  function AfterPut(cfg: Config, s: Store, url: string, r: Resource, now: nat): Store {
    if !Accepts(cfg, url, r) then s else
    var key := cfg.keyOf(url);
    Store(s.files[key := r.data],
          s.metadata[key := Meta(url, r.contentType, r.etag, r.lastModified, now, now, |r.data|)])
  }

  function Apply(cfg: Config, s: Store, op: Op): Store {
    match op
    case Put(url, r, now) => AfterPut(cfg, s, url, r, now)
    case Remove(url) => Without(s, {cfg.keyOf(url)})
    case ClearExpired(now) => Without(s, ExpiredKeys(cfg, s.metadata, now))
    case Clear => Without(s, s.metadata.Keys)
    case RemoveRun(key) => Without(s, {key})
    case EvictRun(victims) => Without(s, victims)
  }

  function Run(cfg: Config, ops: seq<Op>): Store {
    if ops == [] then Store(map[], map[]) else Apply(cfg, Run(cfg, ops[..|ops| - 1]), ops[|ops| - 1])
  }

  function GetResult(cfg: Config, s: Store, url: string, now: nat): Option<Resource> {
    var key := cfg.keyOf(url);
    if !cfg.enabled || key !in s.metadata then None else
    var m := s.metadata[key];
    if SaturatingSub(now, m.createdAt) > TtlSeconds(cfg) || key !in s.files then None
    else Some(Resource(m.contentType, s.files[key], m.etag, m.lastModified))
  }

  /** The last accepted put of url, and when it was made. */
  function LastPut(cfg: Config, ops: seq<Op>, url: string): Option<(Resource, nat)> {
    if ops == [] then None else
    var op := ops[|ops| - 1];
    if op.Put? && op.url == url && Accepts(cfg, url, op.resource) then Some((op.resource, op.now))
    else LastPut(cfg, ops[..|ops| - 1], url)
  }

  ghost predicate InjectiveKeys(cfg: Config) {
    forall a, b :: cfg.keyOf(a) == cfg.keyOf(b) ==> a == b
  }

  /** The entry under k is the latest put of its URL, data and description alike. */
  ghost predicate EntryIsLastPut(cfg: Config, s: Store, ops: seq<Op>, k: Key)
    requires k in s.metadata && k in s.files
  {
    var m := s.metadata[k];
    && cfg.keyOf(m.url) == k
    && m.fileSize == |s.files[k]|
    && LastPut(cfg, ops, m.url) == Some((Resource(m.contentType, s.files[k], m.etag, m.lastModified), m.createdAt))
  }

  /** After any run the files and the metadata agree, entry by entry, on the latest put of each URL. */
  lemma {:induction false} FilesMatchMetadata(cfg: Config, ops: seq<Op>)
    requires InjectiveKeys(cfg)
    ensures var s := Run(cfg, ops);
            && s.files.Keys == s.metadata.Keys
            && forall k :: k in s.metadata ==> k in s.files && EntryIsLastPut(cfg, s, ops, k)
  {
    if ops != [] {
      var n := |ops| - 1;
      FilesMatchMetadata(cfg, ops[..n]);
      var r, s := Run(cfg, ops[..n]), Run(cfg, ops);
      forall k | k in s.metadata ensures k in s.files && EntryIsLastPut(cfg, s, ops, k) {
        if ops[n].Put? && Accepts(cfg, ops[n].url, ops[n].resource) && k == cfg.keyOf(ops[n].url) {
          assert LastPut(cfg, ops, ops[n].url) == Some((ops[n].resource, ops[n].now));
        } else {
          assert k in r.metadata && s.metadata[k] == r.metadata[k] && s.files[k] == r.files[k];
        }
      }
    }
  }

  /** A hit returns the latest put of that URL, and that put is no older than the TTL. */
  lemma GetReturnsLatestPut(cfg: Config, ops: seq<Op>, url: string, now: nat)
    requires InjectiveKeys(cfg) && GetResult(cfg, Run(cfg, ops), url, now).Some?
    ensures LastPut(cfg, ops, url).Some?
    ensures GetResult(cfg, Run(cfg, ops), url, now) == Some(LastPut(cfg, ops, url).value.0)
    ensures SaturatingSub(now, LastPut(cfg, ops, url).value.1) <= TtlSeconds(cfg)
  {
    FilesMatchMetadata(cfg, ops);
    var s := Run(cfg, ops);
    assert EntryIsLastPut(cfg, s, ops, cfg.keyOf(url));
  }

  /**
    After any run, a lookup of a cached URL returns its latest accepted put, unless that was longer ago than
    the TTL, in days of 86400 seconds: at exactly the TTL it still hits.
   */
  lemma HitIffYoung(cfg: Config, ops: seq<Op>, url: string, now: nat)
    requires InjectiveKeys(cfg) && cfg.keyOf(url) in Run(cfg, ops).metadata
    ensures LastPut(cfg, ops, url).Some?
    ensures var (r, t) := LastPut(cfg, ops, url).value;
            GetResult(cfg, Run(cfg, ops), url, now) == if now <= t + 86400 * cfg.ttlDays then Some(r) else None
  {
    FilesMatchMetadata(cfg, ops);
    assert EntryIsLastPut(cfg, Run(cfg, ops), ops, cfg.keyOf(url));
    LastPutAccepted(cfg, ops, url);
  }

  lemma {:induction false} LastPutAccepted(cfg: Config, ops: seq<Op>, url: string)
    requires LastPut(cfg, ops, url).Some?
    ensures cfg.enabled
  {
    if !(ops[|ops| - 1].Put? && ops[|ops| - 1].url == url && Accepts(cfg, url, ops[|ops| - 1].resource)) {
      LastPutAccepted(cfg, ops[..|ops| - 1], url);
    }
  }

  /**
    A put is accepted exactly when the cache is enabled, the type is cacheable and the data is no larger than
    the limit in mebibytes; it is then what a lookup finds for the TTL.  A rejected put changes nothing.
   */
  lemma PutIsHit(cfg: Config, ops: seq<Op>, url: string, r: Resource, put: nat, now: nat)
    requires InjectiveKeys(cfg)
    ensures var s := Run(cfg, ops + [Put(url, r, put)]);
            if cfg.enabled && cfg.cacheable(url, r.contentType) && |r.data| <= 1048576 * cfg.maxFileSizeMb
            then GetResult(cfg, s, url, now) == if now <= put + 86400 * cfg.ttlDays then Some(r) else None
            else s == Run(cfg, ops)
  {
    var all := ops + [Put(url, r, put)];
    assert all[..|ops|] == ops;
    if Accepts(cfg, url, r) {
      HitIffYoung(cfg, all, url, now);
    }
  }

  /** Which operations remove a cached entry. */
  predicate Removes(cfg: Config, op: Op, k: Key, m: Meta) {
    match op
    case Put(_, _, _) => false
    case Remove(url) => cfg.keyOf(url) == k
    case ClearExpired(now) => now > m.createdAt + 86400 * cfg.ttlDays
    case Clear => true
    case RemoveRun(key) => key == k
    case EvictRun(victims) => k in victims
  }

  /** An operation removes an entry, file and metadata, or leaves both, replaced only by an accepted put. */
  lemma EntryAfter(cfg: Config, s: Store, op: Op, k: Key)
    requires k in s.metadata && k in s.files
    ensures var s' := Apply(cfg, s, op);
            && (k in s'.metadata <==> !Removes(cfg, op, k, s.metadata[k]))
            && (k in s'.files <==> !Removes(cfg, op, k, s.metadata[k]))
            && (k in s'.metadata && !(op.Put? && cfg.keyOf(op.url) == k && Accepts(cfg, op.url, op.resource)) ==>
                s'.metadata[k] == s.metadata[k] && s'.files[k] == s.files[k])
  {
  }

  // ---------- The cache ----------

  function Deletable(ks: set<Key>, canDelete: Key -> bool): set<Key> {
    set k | k in ks && canDelete(k)
  }

  lemma OneMore(done: set<Key>, key: Key, canDelete: Key -> bool)
    requires key !in done
    ensures key !in Deletable(done, canDelete)
    ensures Deletable(done + {key}, canDelete) == Deletable(done, canDelete) + if canDelete(key) then {key} else {}
  {
  }

  class ResourceCache {
    var files: map<Key, seq<byte>>
    var metadata: map<Key, Meta>
    const cfg: Config

    function Abs(): Store
      reads this
    {
      Store(files, metadata)
    }

    constructor (cfg: Config)
      ensures this.cfg == cfg && Abs() == Store(map[], map[])
    {
      files, metadata := map[], map[];
      this.cfg := cfg;
    }

    /** Which task `get` spawns, if any: removal of a stale or unreadable entry. */
    method Get(url: string, now: nat) returns (r: Option<Resource>, task: Option<Key>)
      ensures r == GetResult(cfg, Abs(), url, now)
      ensures task == if cfg.enabled && cfg.keyOf(url) in metadata && r.None? then Some(cfg.keyOf(url)) else None
    {
      if !cfg.enabled {
        return None, None;
      }
      var key := cfg.keyOf(url);
      if key !in metadata {
        return None, None;
      }
      var m := metadata[key];
      if SaturatingSub(now, m.createdAt) > TtlSeconds(cfg) {
        return None, Some(key);
      }
      if key !in files {
        return None, Some(key);
      }
      return Some(Resource(m.contentType, files[key], m.etag, m.lastModified)), None;
    }

    /** Returns whether an eviction task is spawned; a failed write changes nothing. */
    method Put(url: string, r: Resource, now: nat, writeOk: bool) returns (evict: bool)
      modifies this
      ensures Abs() == if writeOk then AfterPut(cfg, old(Abs()), url, r, now) else old(Abs())
      ensures evict == (Accepts(cfg, url, r) && writeOk)
    {
      if !cfg.enabled {
        return false;
      }
      if !cfg.cacheable(url, r.contentType) {
        return false;
      }
      if |r.data| > cfg.maxFileSizeMb * 1024 * 1024 {
        return false;
      }
      var key := cfg.keyOf(url);
      if !writeOk {
        return false;
      }
      files := files[key := r.data];
      metadata := metadata[key := Meta(url, r.contentType, r.etag, r.lastModified, now, now, |r.data|)];
      evict := true;
    }

    method RemoveKey(key: Key, deleteOk: bool)
      modifies this
      ensures metadata == old(metadata) - {key}
      ensures files == if deleteOk then old(files) - {key} else old(files)
    {
      if deleteOk {
        files := files - {key};
      }
      metadata := metadata - {key};
    }

    method Remove(url: string, deleteOk: bool)
      modifies this
      ensures metadata == old(metadata) - {cfg.keyOf(url)}
      ensures files == if deleteOk then old(files) - {cfg.keyOf(url)} else old(files)
      ensures deleteOk ==> Abs() == Apply(cfg, old(Abs()), Op.Remove(url))
    {
      RemoveKey(cfg.keyOf(url), deleteOk);
    }

    /** The removal loop of `clear` and `clear_expired`; entries come in any order, deletions may fail. */
    method RemoveAll(keys: set<Key>, canDelete: Key -> bool) returns (count: nat)
      modifies this
      ensures metadata == old(metadata) - keys
      ensures files == old(files) - Deletable(keys, canDelete)
      ensures count == |Deletable(keys, canDelete)|
    {
      var left := keys;
      count := 0;
      ghost var done: set<Key>, gone: set<Key> := {}, {};
      ghost var files0, metadata0 := files, metadata;
      while left != {}
        invariant left <= keys && done == keys - left
        invariant metadata == metadata0 - done && files == files0 - gone
        invariant gone == Deletable(done, canDelete) && count == |gone|
        decreases left
      {
        var key :| key in left;
        OneMore(done, key, canDelete);
        MinusTwice(metadata0, done, {key});
        RemoveKey(key, canDelete(key));
        if canDelete(key) {
          count := count + 1;
          MinusTwice(files0, gone, {key});
          gone := gone + {key};
        }
        assert done + {key} == keys - (left - {key});
        done, left := done + {key}, left - {key};
      }
      assert done == keys;
    }

    method ClearExpired(now: nat, canDelete: Key -> bool) returns (count: nat)
      modifies this
      ensures metadata == old(metadata) - ExpiredKeys(cfg, old(metadata), now)
      ensures files == old(files) - Deletable(ExpiredKeys(cfg, old(metadata), now), canDelete)
      ensures count == |Deletable(ExpiredKeys(cfg, old(metadata), now), canDelete)|
      ensures (forall k :: canDelete(k)) ==> Abs() == Apply(cfg, old(Abs()), Op.ClearExpired(now))
    {
      var expired := set k | k in metadata && SaturatingSub(now, metadata[k].createdAt) > TtlSeconds(cfg);
      count := RemoveAll(expired, canDelete);
      assert (forall k :: canDelete(k)) ==> Deletable(expired, canDelete) == expired;
    }

    method Clear(canDelete: Key -> bool) returns (count: nat)
      modifies this
      ensures metadata == map[] && files == old(files) - Deletable(old(metadata).Keys, canDelete)
      ensures count == |Deletable(old(metadata).Keys, canDelete)|
      ensures (forall k :: canDelete(k)) ==> Abs() == Apply(cfg, old(Abs()), Op.Clear)
    {
      var all := metadata.Keys;
      count := RemoveAll(all, canDelete);
      assert (forall k :: canDelete(k)) ==> Deletable(all, canDelete) == all;
    }

    /**
      `evict_if_needed_static`; order is the result of its sort, and the victims are its first n.
     */
    method EvictIfNeeded(order: seq<Key>, canDelete: Key -> bool) returns (freed: nat, n: nat)
      requires EvictionOrder(order, metadata)
      modifies this
      ensures Total(metadata) <= MaxBytes(cfg) == 1048576 * cfg.maxSizeMb
      ensures n <= |order| && metadata == old(metadata) - First(order, n)
      ensures files == old(files) - Deletable(First(order, n), canDelete)
      ensures Total(old(metadata)) <= MaxBytes(cfg) ==> n == 0
      ensures Total(old(metadata)) > MaxBytes(cfg) ==>
        VictimCount(order, old(metadata), canDelete, Total(old(metadata)) - MaxBytes(cfg), n)
      ensures freed == Freed(order, n, old(metadata), canDelete)
      ensures (forall k :: canDelete(k)) ==> Abs() == Apply(cfg, old(Abs()), EvictRun(First(order, n)))
    {
      freed, n := 0, 0;
      var currentSize := SumAll(order);
      if currentSize <= MaxBytes(cfg) {
        return;
      }
      ghost var before := metadata;
      freed, n := EvictDownTo(order, canDelete, currentSize - MaxBytes(cfg));
      EvictionBound(order, before, canDelete, MaxBytes(cfg), n);
    }

    method EvictDownTo(order: seq<Key>, canDelete: Key -> bool, target: nat) returns (freed: nat, n: nat)
      requires EvictionOrder(order, metadata)
      modifies this
      ensures metadata == old(metadata) - First(order, if n <= |order| then n else 0)
      ensures VictimCount(order, old(metadata), canDelete, target, n)
      ensures files == old(files) - Deletable(First(order, n), canDelete)
      ensures freed == Freed(order, n, old(metadata), canDelete)
    {
      var entries := metadata;   // keys and sizes are copied out before the loop
      freed, n := 0, 0;
      ghost var done: set<Key>, gone: set<Key> := {}, {};
      ghost var files0 := files;
      while n < |order|
        invariant 0 <= n <= |order| && done == First(order, n) && gone == Deletable(done, canDelete)
        invariant metadata == entries - done && files == files0 - gone
        invariant freed == Freed(order, n, entries, canDelete)
        invariant n > 0 ==> Freed(order, n - 1, entries, canDelete) < target
      {
        if freed >= target {
          break;
        }
        var key := order[n];
        NextIsNew(order, n);
        OneMore(done, key, canDelete);
        MinusTwice(entries, done, {key});
        RemoveKey(key, canDelete(key));
        if canDelete(key) {
          freed := freed + entries[key].fileSize;
          MinusTwice(files0, gone, {key});
          gone := gone + {key};
        }
        done := done + {key};
        n := n + 1;
      }
    }

    /** The size that `stats` and the evictor add up over the metadata. */
    method SumAll(order: seq<Key>) returns (total: nat)
      requires EvictionOrder(order, metadata)
      ensures total == Total(metadata)
    {
      total := 0;
      for i := 0 to |order|
        invariant total == Freed(order, i, metadata, Any)
      {
        total := total + metadata[order[i]].fileSize;
      }
      PrefixTotalsExact(order, metadata, Any, |order|);
      NothingLeft(order, metadata);
    }
  }

  predicate Any(k: Key) { true }
}
