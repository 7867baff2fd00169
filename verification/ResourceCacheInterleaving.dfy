/**
  The disk cache when its operations overlap.  A put writes the file and then the metadata, a removal
  deletes the file and then the metadata, and other tasks can run in between: `get` and `put` leave
  removals and evictions to spawned tasks.  The loops of eviction and clearing are removals one after
  another, which is one way for removals to be scheduled.
*/
module ResourceCacheInterleaving {
  import opened Common
  import opened ResourceCaches

  /** An accepted put, or a removal. */
  datatype Task = PutTask(url: string, resource: Resource, now: nat) | RemoveTask(key: Key)

  function KeyOf(cfg: Config, t: Task): Key {
    match t case PutTask(url, _, _) => cfg.keyOf(url) case RemoveTask(key) => key
  }

  predicate AllAccepted(cfg: Config, tasks: seq<Task>) {
    forall i :: 0 <= i < |tasks| && tasks[i].PutTask? ==> Accepts(cfg, tasks[i].url, tasks[i].resource)
  }

  function FileStep(cfg: Config, t: Task, s: Store): Store {
    match t
    case PutTask(url, r, _) => Store(s.files[cfg.keyOf(url) := r.data], s.metadata)
    case RemoveTask(key) => Store(s.files - {key}, s.metadata)
  }

  function MetaOf(url: string, r: Resource, now: nat): Meta {
    Meta(url, r.contentType, r.etag, r.lastModified, now, now, |r.data|)
  }

  function MetaStep(cfg: Config, t: Task, s: Store): Store {
    match t
    case PutTask(url, r, now) => Store(s.files, s.metadata[cfg.keyOf(url) := MetaOf(url, r, now)])
    case RemoveTask(key) => Store(s.files, s.metadata - {key})
  }

  /** A task that has not begun, that has done its file step, or that is done. */
  datatype Phase = Waiting | HalfWay | Done

  datatype State = State(store: Store, phases: seq<Phase>)

  function Begin(store: Store, tasks: seq<Task>): State {
    State(store, seq(|tasks|, _ => Waiting))
  }

  predicate Enabled(tasks: seq<Task>, s: State, i: nat) {
    i < |tasks| == |s.phases| && s.phases[i] != Done
  }

  function Next(cfg: Config, tasks: seq<Task>, s: State, i: nat): State
    requires Enabled(tasks, s, i)
  {
    if s.phases[i] == Waiting then State(FileStep(cfg, tasks[i], s.store), s.phases[i := HalfWay])
    else State(MetaStep(cfg, tasks[i], s.store), s.phases[i := Done])
  }

  /** A schedule says whose step comes next. */
  function After(cfg: Config, tasks: seq<Task>, s: State, schedule: seq<nat>): Option<State>
    decreases |schedule|
  {
    if schedule == [] then Some(s) else
    if Enabled(tasks, s, schedule[0]) then After(cfg, tasks, Next(cfg, tasks, s, schedule[0]), schedule[1..]) else None
  }

  predicate AllDone(s: State) {
    forall i :: 0 <= i < |s.phases| ==> s.phases[i] == Done
  }

  /** Which metadata describe which data: by their size alone, say, or by coming from the same put. */
  type Description = (Meta, seq<byte>) -> bool

  /** File and metadata of k are both there, and the one describes the other, or both not. */
  predicate AgreesAt(fits: Description, s: Store, k: Key) {
    && (k in s.files <==> k in s.metadata)
    && (k in s.files && k in s.metadata ==> fits(s.metadata[k], s.files[k]))
  }

  ghost predicate Agrees(fits: Description, s: Store) {
    forall k :: AgreesAt(fits, s, k)
  }

  /** Every put describes its own data. */
  predicate OwnFits(fits: Description, tasks: seq<Task>) {
    forall i :: 0 <= i < |tasks| && tasks[i].PutTask? ==> Describes(fits, tasks[i], tasks[i])
  }

  /** What put t writes to the metadata describes what put u writes to the file. */
  predicate Describes(fits: Description, t: Task, u: Task)
    requires t.PutTask? && u.PutTask?
  {
    fits(MetaOf(t.url, t.resource, t.now), u.resource.data)
  }

  /** A put and a removal of one key, or two puts of it of which one does not describe the other's data. */
  predicate Conflict(cfg: Config, fits: Description, t: Task, u: Task) {
    && KeyOf(cfg, t) == KeyOf(cfg, u)
    && (t.PutTask? || u.PutTask?)
    && !(t.PutTask? && u.PutTask? && Describes(fits, t, u))
  }

  ghost predicate NoConflict(cfg: Config, fits: Description, tasks: seq<Task>) {
    forall i, j :: 0 <= i < |tasks| && 0 <= j < |tasks| && i != j ==> !Conflict(cfg, fits, tasks[i], tasks[j])
  }

  // ---------- Without a conflict every schedule ends in agreement ----------

  /** Task i is one for k that has begun. */
  predicate BeganAt(cfg: Config, tasks: seq<Task>, s: State, k: Key, i: nat) {
    i < |tasks| == |s.phases| && KeyOf(cfg, tasks[i]) == k && s.phases[i] != Waiting
  }

  predicate DoneAt(cfg: Config, tasks: seq<Task>, s: State, k: Key, i: nat) {
    i < |tasks| == |s.phases| && KeyOf(cfg, tasks[i]) == k && s.phases[i] == Done
  }

  /** The file of the task's key is as the task leaves it. */
  predicate FileIs(cfg: Config, t: Task, s: Store) {
    match t
    case PutTask(url, r, _) => cfg.keyOf(url) in s.files && s.files[cfg.keyOf(url)] == r.data
    case RemoveTask(key) => key !in s.files
  }

  predicate MetaIs(cfg: Config, t: Task, s: Store) {
    match t
    case PutTask(url, r, now) => cfg.keyOf(url) in s.metadata && s.metadata[cfg.keyOf(url)] == MetaOf(url, r, now)
    case RemoveTask(key) => key !in s.metadata
  }

  predicate SameFile(a: Store, b: Store, k: Key) {
    (k in a.files <==> k in b.files) && (k in a.files && k in b.files ==> a.files[k] == b.files[k])
  }

  predicate SameMeta(a: Store, b: Store, k: Key) {
    (k in a.metadata <==> k in b.metadata) && (k in a.metadata && k in b.metadata ==> a.metadata[k] == b.metadata[k])
  }

  /** The file of k is as some task that has begun leaves it, or as it was if none has. */
  ghost predicate FileExplained(cfg: Config, tasks: seq<Task>, store: Store, s: State, k: Key) {
    || (exists i: nat :: BeganAt(cfg, tasks, s, k, i) && FileIs(cfg, tasks[i], s.store))
    || ((forall i: nat :: !BeganAt(cfg, tasks, s, k, i)) && SameFile(s.store, store, k))
  }

  ghost predicate MetaExplained(cfg: Config, tasks: seq<Task>, store: Store, s: State, k: Key) {
    || (exists i: nat :: DoneAt(cfg, tasks, s, k, i) && MetaIs(cfg, tasks[i], s.store))
    || ((forall i: nat :: !DoneAt(cfg, tasks, s, k, i)) && SameMeta(s.store, store, k))
  }

  ghost predicate Explained(cfg: Config, tasks: seq<Task>, store: Store, s: State) {
    && |s.phases| == |tasks|
    && (forall k :: FileExplained(cfg, tasks, store, s, k))
    && (forall k :: MetaExplained(cfg, tasks, store, s, k))
  }

  lemma FileStaysExplained(cfg: Config, tasks: seq<Task>, store: Store, s: State, i: nat, k: Key)
    requires FileExplained(cfg, tasks, store, s, k) && Enabled(tasks, s, i)
    ensures FileExplained(cfg, tasks, store, Next(cfg, tasks, s, i), k)
  {
    var s' := Next(cfg, tasks, s, i);
    if KeyOf(cfg, tasks[i]) == k && s.phases[i] == Waiting {
      assert BeganAt(cfg, tasks, s', k, i) && FileIs(cfg, tasks[i], s'.store);
    } else {
      assert forall j: nat :: BeganAt(cfg, tasks, s', k, j) <==> BeganAt(cfg, tasks, s, k, j);
    }
  }

  lemma MetaStaysExplained(cfg: Config, tasks: seq<Task>, store: Store, s: State, i: nat, k: Key)
    requires MetaExplained(cfg, tasks, store, s, k) && Enabled(tasks, s, i)
    ensures MetaExplained(cfg, tasks, store, Next(cfg, tasks, s, i), k)
  {
    var s' := Next(cfg, tasks, s, i);
    if KeyOf(cfg, tasks[i]) == k && s.phases[i] == HalfWay {
      assert DoneAt(cfg, tasks, s', k, i) && MetaIs(cfg, tasks[i], s'.store);
    } else {
      assert forall j: nat :: DoneAt(cfg, tasks, s', k, j) <==> DoneAt(cfg, tasks, s, k, j);
    }
  }

  /** In every state of every schedule the last writer of each file and of each description can be named. */
  lemma {:induction false} RunIsExplained(cfg: Config, tasks: seq<Task>, store: Store, s: State, schedule: seq<nat>)
    requires Explained(cfg, tasks, store, s) && After(cfg, tasks, s, schedule).Some?
    ensures Explained(cfg, tasks, store, After(cfg, tasks, s, schedule).value)
    decreases |schedule|
  {
    if schedule != [] {
      var i := schedule[0];
      forall k ensures FileExplained(cfg, tasks, store, Next(cfg, tasks, s, i), k) {
        FileStaysExplained(cfg, tasks, store, s, i, k);
      }
      forall k ensures MetaExplained(cfg, tasks, store, Next(cfg, tasks, s, i), k) {
        MetaStaysExplained(cfg, tasks, store, s, i, k);
      }
      RunIsExplained(cfg, tasks, store, Next(cfg, tasks, s, i), schedule[1..]);
    }
  }

  lemma DoneAgrees(cfg: Config, fits: Description, tasks: seq<Task>, store: Store, s: State, k: Key)
    requires Agrees(fits, store) && OwnFits(fits, tasks) && NoConflict(cfg, fits, tasks)
    requires AllDone(s) && Explained(cfg, tasks, store, s)
    ensures AgreesAt(fits, s.store, k)
  {
    assert AgreesAt(fits, store, k) && FileExplained(cfg, tasks, store, s, k) && MetaExplained(cfg, tasks, store, s, k);
    if i: nat :| DoneAt(cfg, tasks, s, k, i) && MetaIs(cfg, tasks[i], s.store) {
      assert BeganAt(cfg, tasks, s, k, i);
      var j: nat :| BeganAt(cfg, tasks, s, k, j) && FileIs(cfg, tasks[j], s.store);
      assert i != j ==> !Conflict(cfg, fits, tasks[i], tasks[j]);
    } else {
      assert forall j: nat :: BeganAt(cfg, tasks, s, k, j) ==> DoneAt(cfg, tasks, s, k, j);
    }
  }

  // ---------- A conflict allows a schedule that ends otherwise ----------

  lemma First(cfg: Config, tasks: seq<Task>, s: State, i: nat, next: State, rest: seq<nat>, end: State)
    returns (schedule: seq<nat>)
    requires Enabled(tasks, s, i) && next == Next(cfg, tasks, s, i) && After(cfg, tasks, next, rest) == Some(end)
    ensures After(cfg, tasks, s, schedule) == Some(end)
  {
    schedule := [i] + rest;
    assert schedule[1..] == rest;
  }

  /** Task i waits half way while task j runs. */
  function Around(cfg: Config, t: Task, u: Task, s: Store): Store {
    MetaStep(cfg, t, MetaStep(cfg, u, FileStep(cfg, u, FileStep(cfg, t, s))))
  }

  lemma AroundDisagrees(cfg: Config, fits: Description, t: Task, u: Task, s: Store)
    requires Conflict(cfg, fits, t, u)
    ensures !AgreesAt(fits, Around(cfg, t, u, s), KeyOf(cfg, t))
  {
  }

  lemma RunAround(cfg: Config, tasks: seq<Task>, s: State, i: nat, j: nat) returns (schedule: seq<nat>, end: State)
    requires i < |tasks| == |s.phases| && j < |tasks| && i != j && s.phases[i] == s.phases[j] == Waiting
    ensures After(cfg, tasks, s, schedule) == Some(end)
    ensures end == State(Around(cfg, tasks[i], tasks[j], s.store), s.phases[i := Done][j := Done])
  {
    var s1 := Next(cfg, tasks, s, i);
    var s2 := Next(cfg, tasks, s1, j);
    var s3 := Next(cfg, tasks, s2, j);
    end := Next(cfg, tasks, s3, i);
    assert end.phases == s.phases[i := Done][j := Done];
    schedule := First(cfg, tasks, s3, i, end, [], end);
    schedule := First(cfg, tasks, s2, j, s3, schedule, end);
    schedule := First(cfg, tasks, s1, j, s2, schedule, end);
    schedule := First(cfg, tasks, s, i, s1, schedule, end);
  }

  /** All tasks before m but i and j are done, the others waiting. */
  ghost predicate OthersDone(tasks: seq<Task>, s: State, i: nat, j: nat, m: nat) {
    && |s.phases| == |tasks|
    && forall x :: 0 <= x < |tasks| ==> s.phases[x] == if x < m && x != i && x != j then Done else Waiting
  }

  /** The other tasks one after another, then task j in the middle of task i. */
  lemma {:induction false} ClashLast(
    cfg: Config, fits: Description, tasks: seq<Task>, s: State, i: nat, j: nat, m: nat)
    returns (schedule: seq<nat>, end: State)
    requires i < |tasks| && j < |tasks| && i != j && Conflict(cfg, fits, tasks[i], tasks[j])
    requires m <= |tasks| && OthersDone(tasks, s, i, j, m)
    ensures After(cfg, tasks, s, schedule) == Some(end) && AllDone(end)
    ensures !AgreesAt(fits, end.store, KeyOf(cfg, tasks[i]))
    decreases |tasks| - m
  {
    if m == |tasks| {
      schedule, end := RunAround(cfg, tasks, s, i, j);
      AroundDisagrees(cfg, fits, tasks[i], tasks[j], s.store);
    } else if m == i || m == j {
      schedule, end := ClashLast(cfg, fits, tasks, s, i, j, m + 1);
    } else {
      var half := Next(cfg, tasks, s, m);
      var done := Next(cfg, tasks, half, m);
      schedule, end := ClashLast(cfg, fits, tasks, done, i, j, m + 1);
      schedule := First(cfg, tasks, half, m, done, schedule, end);
      schedule := First(cfg, tasks, s, m, half, schedule, end);
    }
  }

  // ---------- The exact condition ----------

  ghost predicate EndsInAgreement(cfg: Config, fits: Description, tasks: seq<Task>, store: Store, schedule: seq<nat>) {
    var end := After(cfg, tasks, Begin(store, tasks), schedule);
    end.Some? && AllDone(end.value) ==> Agrees(fits, end.value.store)
  }

  lemma NoConflictAgrees(cfg: Config, fits: Description, tasks: seq<Task>, store: Store, schedule: seq<nat>)
    requires Agrees(fits, store) && OwnFits(fits, tasks) && NoConflict(cfg, fits, tasks)
    ensures EndsInAgreement(cfg, fits, tasks, store, schedule)
  {
    var end := After(cfg, tasks, Begin(store, tasks), schedule);
    if end.Some? && AllDone(end.value) {
      RunIsExplained(cfg, tasks, store, Begin(store, tasks), schedule);
      forall k ensures AgreesAt(fits, end.value.store, k) {
        DoneAgrees(cfg, fits, tasks, store, end.value, k);
      }
    }
  }

  /**
    Tasks that may overlap, started on files and metadata that agree, end in agreement under every
    schedule exactly when no put shares its key with a removal or with a put whose data it does not
    describe.  This holds for whatever is meant by describing.
   */
  lemma AgreementIffNoConflict(cfg: Config, fits: Description, tasks: seq<Task>, store: Store)
    requires Agrees(fits, store) && OwnFits(fits, tasks)
    ensures (forall schedule :: EndsInAgreement(cfg, fits, tasks, store, schedule)) <==> NoConflict(cfg, fits, tasks)
  {
    if NoConflict(cfg, fits, tasks) {
      forall schedule ensures EndsInAgreement(cfg, fits, tasks, store, schedule) {
        NoConflictAgrees(cfg, fits, tasks, store, schedule);
      }
    } else {
      var i, j :| 0 <= i < |tasks| && 0 <= j < |tasks| && i != j && Conflict(cfg, fits, tasks[i], tasks[j]);
      var schedule, end := ClashLast(cfg, fits, tasks, Begin(store, tasks), i, j, 0);
      assert !EndsInAgreement(cfg, fits, tasks, store, schedule);
    }
  }

  /** By size. */
  function BySize(): Description {
    (m: Meta, data: seq<byte>) => m.fileSize == |data|
  }

  /** Keys and sizes agree under every schedule exactly if puts of a key are alone with puts of the same length. */
  lemma SizesAgreeIff(cfg: Config, tasks: seq<Task>, store: Store)
    requires Agrees(BySize(), store)
    ensures (forall schedule :: EndsInAgreement(cfg, BySize(), tasks, store, schedule)) <==>
              forall i, j :: 0 <= i < |tasks| && 0 <= j < |tasks| && i != j && SameKey(cfg, tasks, i, j) ==>
                (tasks[i].RemoveTask? && tasks[j].RemoveTask?) || SameLength(tasks[i], tasks[j])
  {
    AgreementIffNoConflict(cfg, BySize(), tasks, store);
    assert forall i, j :: 0 <= i < |tasks| && 0 <= j < |tasks| && SameKey(cfg, tasks, i, j) ==>
        (Conflict(cfg, BySize(), tasks[i], tasks[j]) <==>
         !((tasks[i].RemoveTask? && tasks[j].RemoveTask?) || SameLength(tasks[i], tasks[j])));
  }

  predicate SameKey(cfg: Config, tasks: seq<Task>, i: nat, j: nat)
    requires i < |tasks| && j < |tasks|
  {
    KeyOf(cfg, tasks[i]) == KeyOf(cfg, tasks[j])
  }

  predicate SameLength(t: Task, u: Task) {
    t.PutTask? && u.PutTask? && |t.resource.data| == |u.resource.data|
  }

  /** By origin: one of these puts wrote both, or both were there together from the start. */
  ghost function ByOrigin(tasks: seq<Task>, store: Store): Description {
    (m: Meta, data: seq<byte>) => OneOrigin(tasks, store, m, data)
  }

  ghost predicate OneOrigin(tasks: seq<Task>, store: Store, m: Meta, data: seq<byte>) {
    || (exists i :: 0 <= i < |tasks| && IsPut(tasks[i], m, data))
    || (exists k :: k in store.metadata && k in store.files && store.metadata[k] == m && store.files[k] == data)
  }

  predicate IsPut(t: Task, m: Meta, data: seq<byte>) {
    t.PutTask? && MetaOf(t.url, t.resource, t.now) == m && t.resource.data == data
  }

  /**
    Every entry has data and description of one put, under every schedule, exactly when puts of a key
    are alone with puts of it such that the description of the one and the data of the other have one
    origin as well: equal descriptions or equal data are enough.
   */
  lemma OriginsAgreeIff(cfg: Config, tasks: seq<Task>, store: Store)
    requires store.files.Keys == store.metadata.Keys
    ensures (forall schedule :: EndsInAgreement(cfg, ByOrigin(tasks, store), tasks, store, schedule)) <==>
              NoConflict(cfg, ByOrigin(tasks, store), tasks)
    ensures forall i, j :: 0 <= i < |tasks| && 0 <= j < |tasks| && SamePut(tasks[i], tasks[j]) ==>
              !Conflict(cfg, ByOrigin(tasks, store), tasks[i], tasks[j])
  {
    var fits := ByOrigin(tasks, store);
    forall k ensures AgreesAt(fits, store, k) {
      assert k in store.files <==> k in store.files.Keys;
      assert k in store.metadata <==> k in store.metadata.Keys;
    }
    forall i | 0 <= i < |tasks| && tasks[i].PutTask? ensures Describes(fits, tasks[i], tasks[i]) {
      assert IsPut(tasks[i], MetaOf(tasks[i].url, tasks[i].resource, tasks[i].now), tasks[i].resource.data);
    }
    AgreementIffNoConflict(cfg, fits, tasks, store);
    forall i, j | 0 <= i < |tasks| && 0 <= j < |tasks| && SamePut(tasks[i], tasks[j])
      ensures !Conflict(cfg, fits, tasks[i], tasks[j])
    {
      var m, data := MetaOf(tasks[i].url, tasks[i].resource, tasks[i].now), tasks[j].resource.data;
      assert IsPut(tasks[i], m, data) || IsPut(tasks[j], m, data);
    }
  }

  /** Two puts with the same data or the same description. */
  predicate SamePut(t: Task, u: Task) {
    && t.PutTask? && u.PutTask?
    && (t.resource.data == u.resource.data || MetaOf(t.url, t.resource, t.now) == MetaOf(u.url, u.resource, u.now))
  }

  /** For example, two puts with other data and another time, but of one length, can be mixed up. */
  lemma TwoPutsMixed(cfg: Config, url: string, r: Resource, q: Resource, now: nat, later: nat, s: Store)
    requires |r.data| == |q.data| && now < later
    ensures var mixed, k := Around(cfg, PutTask(url, r, now), PutTask(url, q, later), s), cfg.keyOf(url);
            && k in mixed.files && mixed.files[k] == q.data
            && k in mixed.metadata && mixed.metadata[k] == MetaOf(url, r, now)
            && AgreesAt(BySize(), mixed, k)
  {
  }

  /**
    One request for a stale URL is enough: `get` spawns the removal, the response is put.  If the removal
    falls into the put, the metadata is left without its file; if the put falls into the removal, the
    file is left without metadata.
   */
  lemma StaleRequestDisagrees(cfg: Config, url: string, r: Resource, now: nat, s: Store)
    ensures var put, removal, k := PutTask(url, r, now), RemoveTask(cfg.keyOf(url)), cfg.keyOf(url);
            && k in Around(cfg, put, removal, s).metadata && k !in Around(cfg, put, removal, s).files
            && k in Around(cfg, removal, put, s).files && k !in Around(cfg, removal, put, s).metadata
  {
  }

  // ---------- Operations that keep apart are a sequential run ----------

  /** A task begins only when no other for its key is half way, removals apart. */
  ghost predicate Alone(cfg: Config, tasks: seq<Task>, s: State, i: nat)
    requires Enabled(tasks, s, i)
  {
    s.phases[i] == Waiting ==>
      forall j :: 0 <= j < |tasks| && s.phases[j] == HalfWay && KeyOf(cfg, tasks[j]) == KeyOf(cfg, tasks[i])
        ==> tasks[i].RemoveTask? && tasks[j].RemoveTask?
  }

  ghost predicate Separated(cfg: Config, tasks: seq<Task>, s: State, schedule: seq<nat>)
    requires After(cfg, tasks, s, schedule).Some?
    decreases |schedule|
  {
    schedule != [] ==>
      && Alone(cfg, tasks, s, schedule[0])
      && Separated(cfg, tasks, Next(cfg, tasks, s, schedule[0]), schedule[1..])
  }

  function OpOf(t: Task): Op {
    match t case PutTask(url, r, now) => Op.Put(url, r, now) case RemoveTask(key) => RemoveRun(key)
  }

  /** The operations of the tasks that the schedule completes, in that order. */
  function Completed(cfg: Config, tasks: seq<Task>, s: State, schedule: seq<nat>): seq<Op>
    requires After(cfg, tasks, s, schedule).Some?
    decreases |schedule|
  {
    if schedule == [] then [] else
    var i := schedule[0];
    (if s.phases[i] == HalfWay then [OpOf(tasks[i])] else [])
      + Completed(cfg, tasks, Next(cfg, tasks, s, i), schedule[1..])
  }

  /** No task for k is half way. */
  predicate Quiet(cfg: Config, tasks: seq<Task>, s: State, k: Key) {
    forall i :: 0 <= i < |tasks| && i < |s.phases| && s.phases[i] == HalfWay ==> KeyOf(cfg, tasks[i]) != k
  }

  /** Tasks i and j are both half way, for one key. */
  predicate Overlap(cfg: Config, tasks: seq<Task>, s: State, i: nat, j: nat)
    requires i < |tasks| == |s.phases| && j < |tasks|
  {
    i != j && s.phases[i] == s.phases[j] == HalfWay && KeyOf(cfg, tasks[i]) == KeyOf(cfg, tasks[j])
  }

  /** The half-way tasks keep apart, and have done to the files what the completed ones have not. */
  ghost predicate Settles(cfg: Config, tasks: seq<Task>, s: State, q: Store) {
    && |s.phases| == |tasks|
    && s.store.metadata == q.metadata
    && (forall k :: Quiet(cfg, tasks, s, k) ==> SameFile(s.store, q, k))
    && (forall i :: 0 <= i < |tasks| && s.phases[i] == HalfWay ==> FileIs(cfg, tasks[i], s.store))
    && (forall i, j :: 0 <= i < |tasks| && 0 <= j < |tasks| && Overlap(cfg, tasks, s, i, j) ==>
          tasks[i].RemoveTask? && tasks[j].RemoveTask?)
  }

  lemma BeginningSettles(cfg: Config, tasks: seq<Task>, s: State, i: nat, q: Store)
    requires Settles(cfg, tasks, s, q) && Enabled(tasks, s, i) && Alone(cfg, tasks, s, i) && s.phases[i] == Waiting
    ensures Settles(cfg, tasks, Next(cfg, tasks, s, i), q)
  {
    var s' := Next(cfg, tasks, s, i);
    forall k | Quiet(cfg, tasks, s', k) ensures SameFile(s'.store, q, k) {
      assert s'.phases[i] == HalfWay;
      assert Quiet(cfg, tasks, s, k) by {
        assert forall j :: 0 <= j < |tasks| && s.phases[j] == HalfWay ==> s'.phases[j] == HalfWay;
      }
    }
  }

  lemma EndingSettles(cfg: Config, tasks: seq<Task>, s: State, i: nat, q: Store)
    requires Settles(cfg, tasks, s, q) && Enabled(tasks, s, i) && s.phases[i] == HalfWay && AllAccepted(cfg, tasks)
    ensures Settles(cfg, tasks, Next(cfg, tasks, s, i), Apply(cfg, q, OpOf(tasks[i])))
  {
    var s', q' := Next(cfg, tasks, s, i), Apply(cfg, q, OpOf(tasks[i]));
    forall k | Quiet(cfg, tasks, s', k) ensures SameFile(s'.store, q', k) {
      if k != KeyOf(cfg, tasks[i]) {
        assert Quiet(cfg, tasks, s, k) by {
          assert forall j :: 0 <= j < |tasks| && j != i ==> s'.phases[j] == s.phases[j];
        }
      }
    }
  }

  lemma RunSnoc(cfg: Config, ops: seq<Op>, op: Op)
    ensures Run(cfg, ops + [op]) == Apply(cfg, Run(cfg, ops), op)
  {
    assert (ops + [op])[..|ops|] == ops;
  }

  lemma {:induction false} SeparatedSettles(cfg: Config, tasks: seq<Task>, s: State, schedule: seq<nat>, ops: seq<Op>)
    requires AllAccepted(cfg, tasks) && Settles(cfg, tasks, s, Run(cfg, ops))
    requires After(cfg, tasks, s, schedule).Some? && Separated(cfg, tasks, s, schedule)
    ensures Settles(cfg, tasks, After(cfg, tasks, s, schedule).value,
                    Run(cfg, ops + Completed(cfg, tasks, s, schedule)))
    decreases |schedule|
  {
    if schedule == [] {
      assert ops + [] == ops;
    } else {
      var i := schedule[0];
      var next := Next(cfg, tasks, s, i);
      if s.phases[i] == Waiting {
        BeginningSettles(cfg, tasks, s, i, Run(cfg, ops));
        SeparatedSettles(cfg, tasks, next, schedule[1..], ops);
        assert [] + Completed(cfg, tasks, next, schedule[1..]) == Completed(cfg, tasks, next, schedule[1..]);
      } else {
        var op := OpOf(tasks[i]);
        EndingSettles(cfg, tasks, s, i, Run(cfg, ops));
        RunSnoc(cfg, ops, op);
        SeparatedSettles(cfg, tasks, next, schedule[1..], ops + [op]);
        assert ops + [op] + Completed(cfg, tasks, next, schedule[1..])
            == ops + ([op] + Completed(cfg, tasks, next, schedule[1..]));
      }
    }
  }

  /**
    Tasks in any number, interleaved in any way, but each begun only when no conflicting one for its key
    is half way: when all are done the cache is as after the operations one by one, in the order they
    were completed.  What holds for sequential runs then holds for these, `FilesMatchMetadata` above all.
   */
  lemma SeparatedIsSequential(cfg: Config, tasks: seq<Task>, schedule: seq<nat>)
    requires AllAccepted(cfg, tasks) && InjectiveKeys(cfg)
    requires var begin := Begin(Store(map[], map[]), tasks);
             After(cfg, tasks, begin, schedule).Some? && Separated(cfg, tasks, begin, schedule)
    ensures var begin := Begin(Store(map[], map[]), tasks);
            var end, ops := After(cfg, tasks, begin, schedule).value, Completed(cfg, tasks, begin, schedule);
            && (AllDone(end) ==> end.store == Run(cfg, ops) && Agrees(BySize(), end.store))
            && forall url, now :: Quiet(cfg, tasks, end, cfg.keyOf(url)) ==>
                 GetResult(cfg, end.store, url, now) == GetResult(cfg, Run(cfg, ops), url, now)
  {
    var begin := Begin(Store(map[], map[]), tasks);
    var end, ops := After(cfg, tasks, begin, schedule).value, Completed(cfg, tasks, begin, schedule);
    assert Run(cfg, []) == Store(map[], map[]);
    SeparatedSettles(cfg, tasks, begin, schedule, []);
    assert [] + ops == ops;
    var q := Run(cfg, ops);
    if AllDone(end) {
      assert forall k :: Quiet(cfg, tasks, end, k);
      SameEverywhere(end.store, q);
      FilesMatchMetadata(cfg, ops);
      assert forall k :: AgreesAt(BySize(), q, k);
    }
    forall url, now | Quiet(cfg, tasks, end, cfg.keyOf(url))
      ensures GetResult(cfg, end.store, url, now) == GetResult(cfg, q, url, now)
    {
      assert SameFile(end.store, q, cfg.keyOf(url));
    }
  }

  lemma SameEverywhere(a: Store, b: Store)
    requires a.metadata == b.metadata && forall k :: SameFile(a, b, k)
    ensures a == b
  {
    assert forall k :: k in a.files <==> k in b.files by {
      forall k ensures k in a.files <==> k in b.files {
        assert SameFile(a, b, k);
      }
    }
    assert forall k :: k in a.files ==> a.files[k] == b.files[k] by {
      forall k | k in a.files ensures a.files[k] == b.files[k] {
        assert SameFile(a, b, k);
      }
    }
    assert a.files == b.files;
  }
}
