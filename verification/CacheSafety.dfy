/** What every run of `CacheProtocol` keeps. */
module CacheSafety {
  import opened Wrappers
  import opened Machine
  import opened CacheTypes
  import opened CacheStore
  import opened CacheRead
  import opened CacheProtocol

  /** The file a task is responsible for: it will publish it, or uncount and unlink it. */
  function Holds(task: Task): Option<Path> {
    match task
    case Spooling(_, p) => Some(p)
    case Stored(_, File(p), _) => Some(p)
    case Built(_, obj) => FileOf(obj)
    case Counted(_, obj) => FileOf(obj)
    case Uncounting(p) => Some(p)
    case Unlinking(p) => Some(p)
    case _ => None
  }

  function FileEntries(lru: LruMap): set<Key> {
    set k | k in lru && lru[k].target.File?
  }

  /** A publisher between `incr_count` and the push, or a task that removed a counted entry and has
      not yet given its count back. */
  predicate HoldsCount(task: Task) {
    (task.Counted? && task.obj.target.File?) || task.Uncounting?
  }

  function CountHolders(tasks: map<TaskId, Task>): set<TaskId> {
    set t | t in tasks && HoldsCount(tasks[t])
  }

  /* ------------------------------ the invariant, in parts ------------------------------ */

  ghost predicate CountInv(c: Config, s: State) {
    && 1 <= c.cap
    && s.total == |s.lru| <= c.cap
    && s.cnt == |FileEntries(s.lru)| + |CountHolders(s.tasks)|
  }

  function HoldsAt(tasks: map<TaskId, Task>, t: TaskId): Option<Path> {
    if t in tasks then Holds(tasks[t]) else None
  }

  function FileAt(lru: LruMap, k: Key): Option<Path> {
    if k in lru then FileOf(lru[k]) else None
  }

  type Tasks = map<TaskId, Task>
  type Owners = map<Path, Owner>

  /** The one file an LRU entry or a task is responsible for, if any. */
  function Claim(lru: LruMap, tasks: Tasks, who: Owner): Option<Path> {
    match who
    case Entry(k) => FileAt(lru, k)
    case InFlight(t) => HoldsAt(tasks, t)
  }

  ghost predicate Owned(owner: Owners, p: Path, who: Owner) {
    p in owner && owner[p] == who
  }

  /** `owner` is exactly who holds what, so no file has two owners. */
  ghost predicate OwnersExact(lru: LruMap, tasks: Tasks, owner: Owners) {
    && (forall who :: Claim(lru, tasks, who).Some? ==> Owned(owner, Claim(lru, tasks, who).value, who))
    && (forall p | p in owner :: Claim(lru, tasks, owner[p]) == Some(p))
  }

  ghost predicate OwnerInv(s: State) {
    && OwnersExact(s.lru, s.tasks, s.owner)
    && (forall p | p in s.owner :: p.serial < s.nextSerial)
  }

  /** `obj` was built, under `key`, with the generation it carries. */
  ghost predicate Issued(s: State, key: Key, obj: CacheObject) {
    obj.generation < |s.issued| && s.issued[obj.generation] == (key, obj)
  }

  ghost predicate Faithful(c: Config, s: State, key: Key, target: Target, hash: Digest) {
    match target
    case OnMemory(b) => (key, b) in s.bodies && hash == c.hash(b)
    case File(p) => p in s.committed && s.committed[p].0 == key && hash == c.hash(s.committed[p].1)
  }

  ghost predicate TaskFaithful(c: Config, s: State, task: Task) {
    match task
    case Stored(key, target, hash) => Faithful(c, s, key, target, hash)
    case Built(key, obj) => Issued(s, key, obj)
    case Counted(key, obj) => Issued(s, key, obj)
    case Holding(key, obj) => Issued(s, key, obj)
    case Evicting(key, obj) => Issued(s, key, obj)
    case Reading(key, obj, content, looks) =>
      && Issued(s, key, obj) && obj.target.File? && Possible(looks)
      && obj.target.path in s.committed
      && (obj.target.path !in s.tampered ==>
            content == s.committed[obj.target.path].1 && Untouched(looks, s.committed[obj.target.path].1))
    case Discarding(p) => p in s.committed
    case Uncounting(p) => p in s.committed
    case Unlinking(p) => p in s.committed
    case Spooling(_, p) => true
  }

  ghost predicate ObjectInv(c: Config, s: State) {
    && (forall k | k in s.lru :: Issued(s, k, s.lru[k]))
    && (forall t | t in s.tasks :: TaskFaithful(c, s, s.tasks[t]))
    && (forall g | 0 <= g < |s.issued| ::
          Faithful(c, s, s.issued[g].0, s.issued[g].1.target, s.issued[g].1.hash))
    && (forall p | p in s.committed :: s.committed[p] in s.bodies)
  }

  ghost predicate DiskInv(s: State) {
    && (forall t | t in s.tasks && s.tasks[t].Spooling? :: s.tasks[t].path in s.temps)
    && (forall p | p in s.committed :: p.serial < s.nextSerial)
    && (forall p | p in s.temps :: p.serial < s.nextSerial)
    && (forall p | p in s.lost :: p.serial < s.nextSerial)
    && s.tampered <= s.committed.Keys && s.discarded <= s.committed.Keys && s.disk.Keys <= s.committed.Keys
    && (forall p | p in s.disk :: p in s.owner || p in s.lost || p in s.tampered)
    && (forall p | p in s.temps :: p !in s.committed && (p in s.owner || p in s.lost))
    && (forall p | p in s.disk && p !in s.tampered :: s.disk[p] == s.committed[p].1)
    && (forall p | p in s.owner && p in s.committed :: p in s.disk || p in s.tampered || p in s.discarded)
  }

  /** A file's count is given back at most once, and only between its `Uncount` and `Unlink`. */
  ghost predicate UncountInv(s: State) {
    && (forall p :: s.uncounts[p] <= 1)
    && (forall p | p in s.uncounts :: p in s.committed)
    && (forall p | p in s.uncounts && p in s.owner :: GivenBack(s.tasks, s.owner[p]))
  }

  ghost predicate Injective(hash: Bytes -> Digest) {
    forall x, y :: hash(x) == hash(y) ==> x == y
  }

  /** What a response is: a stored body, or what the read calls on a committed file returned; they saw
      the committed body as long as nothing outside rpxy touched the file. */
  ghost predicate Answers(c: Config, s: State, r: Response) {
    match r
    case FromMemory(key, bytes) => (key, bytes) in s.bodies
    case FromFile(key, obj, bytes, looks) =>
      && obj.target.File? && obj.target.path in s.committed && s.committed[obj.target.path].0 == key
      && obj.hash == c.hash(s.committed[obj.target.path].1)
      && Possible(looks) && bytes == Got(looks)
      && (obj.target.path !in s.tampered ==> Untouched(looks, s.committed[obj.target.path].1))
  }

  ghost predicate ServedInv(c: Config, s: State) {
    forall i | 0 <= i < |s.served| :: Answers(c, s, s.served[i])
  }

  ghost predicate Inv(c: Config, s: State) {
    CountInv(c, s) && OwnerInv(s) && ObjectInv(c, s) && DiskInv(s) && UncountInv(s) && ServedInv(c, s)
  }

  /* --------------------------------- preservation --------------------------------- */

  lemma EntriesAfterPop(lru: LruMap, key: Key)
    requires key in lru
    ensures |FileEntries(lru - {key})| == |FileEntries(lru)| - One(lru[key].target.File?)
    ensures |lru - {key}| == |lru| - 1
  {
    assert FileEntries(lru - {key}) == FileEntries(lru) - {key};
    assert (lru - {key}).Keys == lru.Keys - {key};
  }

  lemma EntriesWith(lru: LruMap, key: Key, obj: CacheObject)
    requires key !in lru
    ensures |FileEntries(lru[key := obj])| == |FileEntries(lru)| + One(obj.target.File?)
  {
    assert FileEntries(lru[key := obj]) == FileEntries(lru) + (if obj.target.File? then {key} else {});
  }

  lemma EntriesAfterPush(lru: LruMap, cap: nat, key: Key, obj: CacheObject, victim: Key)
    requires CanPush(lru, cap, key, victim)
    ensures var gone := Displaced(lru, cap, key, victim);
            |FileEntries(Pushed(lru, cap, key, obj, victim))|
            == |FileEntries(lru)| + One(obj.target.File?) - One(gone.Some? && gone.value.target.File?)
  {
    var dk := DisplacedKey(lru, cap, key, victim);
    if dk.Some? {
      EntriesAfterPop(lru, dk.value);
      EntriesWith(lru - {dk.value}, key, obj);
    } else {
      EntriesWith(lru, key, obj);
    }
  }

  function One(b: bool): nat {
    if b then 1 else 0
  }

  lemma TasksWithout(tasks: map<TaskId, Task>, t: TaskId)
    requires t in tasks
    ensures |CountHolders(tasks - {t})| == |CountHolders(tasks)| - One(HoldsCount(tasks[t]))
  {
    assert CountHolders(tasks - {t}) == CountHolders(tasks) - {t};
  }

  lemma TasksWith(tasks: map<TaskId, Task>, t: TaskId, task: Task)
    requires t !in tasks
    ensures |CountHolders(tasks[t := task])| == |CountHolders(tasks)| + One(HoldsCount(task))
  {
    assert CountHolders(tasks[t := task]) == CountHolders(tasks) + (if HoldsCount(task) then {t} else {});
  }

  lemma TasksAfter(tasks: map<TaskId, Task>, t: TaskId, task: Task)
    requires t in tasks
    ensures |CountHolders(tasks[t := task])|
            == |CountHolders(tasks)| - One(HoldsCount(tasks[t])) + One(HoldsCount(task))
  {
    TasksWithout(tasks, t);
    TasksWith(tasks - {t}, t, task);
    assert (tasks - {t})[t := task] == tasks[t := task];
  }

  /** An eviction decided on a snapshot pops that very object, never a newer one. */
  lemma PopsTheObserved(c: Config, s: State, t: TaskId)
    requires ObjectInv(c, s) && t in s.tasks && s.tasks[t].Evicting?
    ensures Evicts(s, t) ==> s.lru[s.tasks[t].key] == s.tasks[t].obj
  {
  }

  ghost predicate NothingOfItsOwn(c: Config, s: State, t: TaskId, victim: Key)
    requires t in s.tasks && s.tasks[t].Counted?
  {
    var gone := Displaced(s.lru, c.cap, s.tasks[t].key, victim);
    gone.Some? && gone.value.target.File? ==> gone.value.target != s.tasks[t].obj.target
  }

  /** The guard against displacing the file just published is never needed. */
  lemma NewFileIsNotDisplaced(c: Config, s: State, t: TaskId, victim: Key)
    requires OwnerInv(s) && t in s.tasks && s.tasks[t].Counted?
    ensures NothingOfItsOwn(c, s, t, victim)
  {
    var gone := Displaced(s.lru, c.cap, s.tasks[t].key, victim);
    if gone.Some? && gone.value.target.File? && s.tasks[t].obj.target.File? {
      var k := DisplacedKey(s.lru, c.cap, s.tasks[t].key, victim).value;
      assert Owned(s.owner, Claim(s.lru, s.tasks, Entry(k)).value, Entry(k));
      assert Owned(s.owner, Claim(s.lru, s.tasks, InFlight(t)).value, InFlight(t));
    }
  }

  lemma CountKeptByPublish(c: Config, s: State, t: TaskId, victim: Key)
    requires CountInv(c, s) && Enabled(c, s, Publish(t, victim))
    requires NothingOfItsOwn(c, s, t, victim)
    ensures CountInv(c, ApplyPublish(c, s, t, victim))
  {
    var Counted(key, obj) := s.tasks[t];
    PushConserves(s.lru, c.cap, key, obj, victim);
    EntriesAfterPush(s.lru, c.cap, key, obj, victim);
    var q := DisplacedFile(c, s, key, obj, victim);
    if q.Some? {
      TasksAfter(s.tasks, t, Uncounting(q.value));
    } else {
      TasksWithout(s.tasks, t);
    }
  }

  lemma CountKeptByEvict(c: Config, s: State, t: TaskId)
    requires CountInv(c, s) && Enabled(c, s, EvictEntry(t))
    requires Evicts(s, t) ==> s.lru[s.tasks[t].key] == s.tasks[t].obj
    ensures CountInv(c, ApplyEvict(c, s, t))
  {
    var Evicting(key, obj) := s.tasks[t];
    TasksWithout(s.tasks, t);
    if Evicts(s, t) {
      EntriesAfterPop(s.lru, key);
      if obj.target.File? {
        TasksAfter(s.tasks, t, Uncounting(obj.target.path));
      }
    }
  }

  /** A step that leaves the LRU alone and moves one task is fine if the count moves with it. */
  lemma CountKeptByTask(c: Config, s: State, s': State, t: TaskId, next: Option<Task>)
    requires CountInv(c, s) && s'.lru == s.lru && s'.total == s.total
    requires s'.tasks == Moved(s.tasks, t, next)
    requires s'.cnt == s.cnt - One(t in s.tasks && HoldsCount(s.tasks[t])) + One(next.Some? && HoldsCount(next.value))
    ensures CountInv(c, s')
  {
    if t !in s.tasks && next.Some? {
      TasksWith(s.tasks, t, next.value);
    } else if t !in s.tasks {
      assert s.tasks - {t} == s.tasks;
    } else if next.Some? {
      TasksAfter(s.tasks, t, next.value);
    } else {
      TasksWithout(s.tasks, t);
    }
  }

  /** The file count moves with the task that holds it. */
  ghost predicate CountMoves(s: State, s': State, t: TaskId, next: Option<Task>) {
    && s'.lru == s.lru && s'.total == s.total && s'.tasks == Moved(s.tasks, t, next)
    && s'.cnt == s.cnt - One(t in s.tasks && HoldsCount(s.tasks[t])) + One(next.Some? && HoldsCount(next.value))
  }

  lemma StoreMovesCount(c: Config, s: State, a: Action)
    requires Enabled(c, s, a) && IsStore(a)
    ensures CountMoves(s, ApplyStore(c, s, a), a.t, NextStore(c, s, a))
  {
  }

  lemma GetMovesCount(c: Config, s: State, a: Action)
    requires Enabled(c, s, a) && IsGet(a)
    ensures CountMoves(s, ApplyGet(c, s, a), a.t, NextGet(c, s, a))
  {
    hide Delivered, AllLooks, Got, Total, Shows, Moved;
  }

  lemma CountKeptByStore(c: Config, s: State, a: Action)
    requires CountInv(c, s) && Enabled(c, s, a) && IsStore(a)
    ensures CountInv(c, ApplyStore(c, s, a))
  {
    hide CountInv, Enabled, ApplyStore, NextStore, Moved;
    StoreMovesCount(c, s, a);
    CountKeptByTask(c, s, ApplyStore(c, s, a), a.t, NextStore(c, s, a));
  }

  lemma CountKeptByGet(c: Config, s: State, a: Action)
    requires CountInv(c, s) && Enabled(c, s, a) && IsGet(a)
    ensures CountInv(c, ApplyGet(c, s, a))
  {
    hide CountInv, Enabled, ApplyGet, NextGet, Moved;
    GetMovesCount(c, s, a);
    CountKeptByTask(c, s, ApplyGet(c, s, a), a.t, NextGet(c, s, a));
  }

  /** The saturating decrement never meets a zero. */
  lemma CountIsPositive(c: Config, s: State, t: TaskId)
    requires CountInv(c, s) && t in s.tasks && HoldsCount(s.tasks[t])
    ensures s.cnt > 0
  {
    assert t in CountHolders(s.tasks);
  }

  lemma CountKeptByRemoval(c: Config, s: State, a: Action)
    requires CountInv(c, s) && Enabled(c, s, a) && IsRemoval(a)
    ensures CountInv(c, ApplyRemoval(c, s, a))
  {
    var s' := ApplyRemoval(c, s, a);
    if a.Uncount? {
      CountIsPositive(c, s, a.t);
    }
    CountKeptByTask(c, s, s', a.t, NextRemoval(c, s, a));
  }

  lemma CountKeptByWorld(c: Config, s: State, a: Action)
    requires CountInv(c, s) && Enabled(c, s, a) && IsWorld(a)
    ensures CountInv(c, ApplyWorld(c, s, a))
  {
    if a.Overwrite? {
      CountKeptByTask(c, s, ApplyWorld(c, s, a), a.t, Some(s.tasks[a.t].(content := a.bytes)));
    }
  }

  lemma CountKept(c: Config, s: State, a: Action)
    requires CountInv(c, s) && OwnerInv(s) && ObjectInv(c, s) && Enabled(c, s, a)
    ensures CountInv(c, Apply(c, s, a))
  {
    hide OwnerInv, ObjectInv, DiskInv, CountInv;
    hide ApplyStore, ApplyGet, ApplyRemoval, ApplyWorld, ApplyPublish, ApplyEvict;
    if a.Publish? {
      NewFileIsNotDisplaced(c, s, a.t, a.victim);
      CountKeptByPublish(c, s, a.t, a.victim);
    } else if a.EvictEntry? {
      PopsTheObserved(c, s, a.t);
      CountKeptByEvict(c, s, a.t);
    } else if IsStore(a) {
      CountKeptByStore(c, s, a);
    } else if IsGet(a) {
      CountKeptByGet(c, s, a);
    } else if IsRemoval(a) {
      CountKeptByRemoval(c, s, a);
    } else {
      CountKeptByWorld(c, s, a);
    }
  }

  /* ------------------------------------ owners ------------------------------------ */

  /** Moving a task that keeps hold of the same file changes no owner. */
  lemma OwnerKeptByTask(lru: LruMap, tasks: Tasks, owner: Owners, t: TaskId, next: Option<Task>)
    requires OwnersExact(lru, tasks, owner)
    requires HoldsAt(Moved(tasks, t, next), t) == HoldsAt(tasks, t)
    ensures OwnersExact(lru, Moved(tasks, t, next), owner)
  {
    assert forall who :: Claim(lru, Moved(tasks, t, next), who) == Claim(lru, tasks, who);
  }

  /** A task lets go of its file, and with it of the only claim to it. */
  lemma OwnerKeptByRelease(lru: LruMap, tasks: Tasks, owner: Owners, t: TaskId, p: Path)
    requires OwnersExact(lru, tasks, owner) && HoldsAt(tasks, t) == Some(p)
    ensures OwnersExact(lru, tasks - {t}, owner - {p})
  {
    assert Owned(owner, Claim(lru, tasks, InFlight(t)).value, InFlight(t));
    assert Claim(lru, tasks - {t}, InFlight(t)) == None;
    assert forall who | who != InFlight(t) :: Claim(lru, tasks - {t}, who) == Claim(lru, tasks, who);
  }

  lemma OwnerKeptByAcquire(lru: LruMap, tasks: Tasks, owner: Owners, t: TaskId, task: Task, p: Path)
    requires OwnersExact(lru, tasks, owner) && t !in tasks && p !in owner && Holds(task) == Some(p)
    ensures OwnersExact(lru, tasks[t := task], owner[p := InFlight(t)])
  {
    var tasks', owner' := tasks[t := task], owner[p := InFlight(t)];
    assert forall who | who != InFlight(t) :: Claim(lru, tasks', who) == Claim(lru, tasks, who);
    assert Claim(lru, tasks', InFlight(t)) == Some(p) && Claim(lru, tasks, InFlight(t)) == None;
    forall who | Claim(lru, tasks', who).Some?
      ensures Owned(owner', Claim(lru, tasks', who).value, who)
    {
      if who != InFlight(t) {
        assert Owned(owner, Claim(lru, tasks, who).value, who);
      }
    }
    forall x | x in owner'
      ensures Claim(lru, tasks', owner'[x]) == Some(x)
    {
      if x != p {
        assert Claim(lru, tasks, owner[x]) == Some(x);
      }
    }
  }

  /** Task `t` gives `p` to entry `e` and takes `q` from entry `d`, which may be `e` itself. */
  lemma OwnerKeptByExchange(lru: LruMap, tasks: Tasks, owner: Owners, lru': LruMap, tasks': Tasks,
                            t: Owner, e: Owner, d: Owner, p: Option<Path>, q: Option<Path>)
    requires OwnersExact(lru, tasks, owner)
    requires t != e && t != d && (p.Some? ==> p != q)
    requires Claim(lru, tasks, t) == p && Claim(lru, tasks, d) == q && (d != e ==> Claim(lru, tasks, e) == None)
    requires Claim(lru', tasks', t) == q && Claim(lru', tasks', e) == p && (d != e ==> Claim(lru', tasks', d) == None)
    requires forall who | who != t && who != e && who != d :: Claim(lru', tasks', who) == Claim(lru, tasks, who)
    ensures OwnersExact(lru', tasks', Assign(Assign(owner, p, e), q, t))
    ensures Assign(Assign(owner, p, e), q, t).Keys == owner.Keys
  {
  }

  lemma OwnerKeptByStore(c: Config, s: State, a: Action)
    requires OwnerInv(s) && Enabled(c, s, a) && IsStore(a)
    ensures OwnerInv(ApplyStore(c, s, a))
  {
    if a.BeginSpill? {
      var p := Path(a.key, a.nanos, s.nextSerial);
      OwnerKeptByAcquire(s.lru, s.tasks, s.owner, a.t, Spooling(a.key, p), p);
    } else if a.AbortSpill? {
      OwnerKeptByRelease(s.lru, s.tasks, s.owner, a.t, s.tasks[a.t].path);
    } else {
      OwnerKeptByTask(s.lru, s.tasks, s.owner, a.t, NextStore(c, s, a));
    }
  }

  lemma OwnerKeptByRemoval(c: Config, s: State, a: Action)
    requires OwnerInv(s) && Enabled(c, s, a) && IsRemoval(a)
    ensures OwnerInv(ApplyRemoval(c, s, a))
  {
    if a.Unlink? {
      OwnerKeptByRelease(s.lru, s.tasks, s.owner, a.t, s.tasks[a.t].path);
    } else {
      OwnerKeptByTask(s.lru, s.tasks, s.owner, a.t, NextRemoval(c, s, a));
    }
  }

  lemma OwnerKeptByEvict(c: Config, s: State, t: TaskId)
    requires OwnerInv(s) && Enabled(c, s, EvictEntry(t))
    requires Evicts(s, t) ==> s.lru[s.tasks[t].key] == s.tasks[t].obj
    ensures OwnerInv(ApplyEvict(c, s, t)) && ApplyEvict(c, s, t).owner.Keys == s.owner.Keys
  {
    var Evicting(key, obj) := s.tasks[t];
    if Evicts(s, t) {
      OwnerKeptByExchange(s.lru, s.tasks, s.owner, s.lru - {key}, Moved(s.tasks, t, Remove(FileOf(obj))),
        InFlight(t), Entry(key), Entry(key), None, FileOf(obj));
    } else {
      OwnerKeptByTask(s.lru, s.tasks, s.owner, t, None);
    }
  }

  lemma FilesAfterPush(lru: LruMap, cap: nat, key: Key, obj: CacheObject, victim: Key)
    requires CanPush(lru, cap, key, victim)
    ensures var lru' := Pushed(lru, cap, key, obj, victim);
            var dk := DisplacedKey(lru, cap, key, victim);
            && FileAt(lru', key) == FileOf(obj)
            && (dk.Some? ==> Displaced(lru, cap, key, victim).Some?
                             && FileAt(lru, dk.value) == FileOf(Displaced(lru, cap, key, victim).value))
            && (dk.None? ==> Displaced(lru, cap, key, victim).None? && FileAt(lru, key) == None)
            && (dk.Some? && dk.value != key ==> FileAt(lru, key) == None && FileAt(lru', dk.value) == None)
            && (forall k | k != key && Some(k) != dk :: FileAt(lru', k) == FileAt(lru, k))
  {
  }

  lemma RemoverHolds(tasks: Tasks, t: TaskId, q: Option<Path>)
    ensures var tasks' := Moved(tasks, t, Remove(q));
            HoldsAt(tasks', t) == q && forall u | u != t :: HoldsAt(tasks', u) == HoldsAt(tasks, u)
  {
  }

  lemma OwnerKeptByPush(lru: LruMap, tasks: Tasks, owner: Owners, cap: nat,
                        t: TaskId, key: Key, obj: CacheObject, victim: Key, q: Option<Path>)
    requires OwnersExact(lru, tasks, owner) && CanPush(lru, cap, key, victim) && HoldsAt(tasks, t) == FileOf(obj)
    requires var gone := Displaced(lru, cap, key, victim); q == if gone.Some? then FileOf(gone.value) else None
    requires q.Some? ==> q != FileOf(obj)
    ensures var owner' := Assign(Assign(owner, FileOf(obj), Entry(key)), q, InFlight(t));
            && OwnersExact(Pushed(lru, cap, key, obj, victim), Moved(tasks, t, Remove(q)), owner')
            && owner'.Keys == owner.Keys
  {
    hide OwnersExact, Assign, Pushed, Displaced, DisplacedKey, FileAt, Moved, HoldsAt, Remove;
    var dk := DisplacedKey(lru, cap, key, victim);
    FilesAfterPush(lru, cap, key, obj, victim);
    RemoverHolds(tasks, t, q);
    var lru', tasks' := Pushed(lru, cap, key, obj, victim), Moved(tasks, t, Remove(q));
    var d := if dk.Some? then dk.value else key;
    forall who | who != InFlight(t) && who != Entry(key) && who != Entry(d)
      ensures Claim(lru', tasks', who) == Claim(lru, tasks, who)
    {
      if who.Entry? {
        assert FileAt(lru', who.key) == FileAt(lru, who.key);
      }
    }
    assert FileAt(lru, d) == q && HoldsAt(tasks', t) == q;
    OwnerKeptByExchange(lru, tasks, owner, lru', tasks', InFlight(t), Entry(key), Entry(d), FileOf(obj), q);
  }

  lemma OwnerKeptByPublish(c: Config, s: State, t: TaskId, victim: Key)
    requires OwnerInv(s) && Enabled(c, s, Publish(t, victim)) && NothingOfItsOwn(c, s, t, victim)
    ensures OwnerInv(ApplyPublish(c, s, t, victim)) && ApplyPublish(c, s, t, victim).owner.Keys == s.owner.Keys
  {
    var Counted(key, obj) := s.tasks[t];
    OwnerKeptByPush(s.lru, s.tasks, s.owner, c.cap, t, key, obj, victim, DisplacedFile(c, s, key, obj, victim));
  }

  lemma OwnerKeptByGet(c: Config, s: State, a: Action)
    requires OwnerInv(s) && Enabled(c, s, a) && IsGet(a)
    ensures OwnerInv(ApplyGet(c, s, a))
  {
    OwnerKeptByTask(s.lru, s.tasks, s.owner, a.t, NextGet(c, s, a));
  }

  lemma OwnerKeptByWorld(c: Config, s: State, a: Action)
    requires OwnerInv(s) && Enabled(c, s, a) && IsWorld(a)
    ensures OwnerInv(ApplyWorld(c, s, a))
  {
    if a.Overwrite? {
      OwnerKeptByTask(s.lru, s.tasks, s.owner, a.t, Some(s.tasks[a.t].(content := a.bytes)));
    }
  }

  lemma OwnerKept(c: Config, s: State, a: Action)
    requires OwnerInv(s) && ObjectInv(c, s) && Enabled(c, s, a)
    ensures OwnerInv(Apply(c, s, a))
  {
    hide OwnerInv, ObjectInv, DiskInv, CountInv;
    hide ApplyStore, ApplyGet, ApplyRemoval, ApplyWorld, ApplyPublish, ApplyEvict;
    if a.Publish? {
      NewFileIsNotDisplaced(c, s, a.t, a.victim);
      OwnerKeptByPublish(c, s, a.t, a.victim);
    } else if a.EvictEntry? {
      PopsTheObserved(c, s, a.t);
      OwnerKeptByEvict(c, s, a.t);
    } else if IsStore(a) {
      OwnerKeptByStore(c, s, a);
    } else if IsGet(a) {
      OwnerKeptByGet(c, s, a);
    } else if IsRemoval(a) {
      OwnerKeptByRemoval(c, s, a);
    } else {
      OwnerKeptByWorld(c, s, a);
    }
  }

  /* ------------------------------------ objects ------------------------------------ */

  /** History only grows, and what it says of a committed path never changes. */
  ghost predicate Later(s: State, s': State) {
    && s.issued <= s'.issued
    && (forall p | p in s.committed :: p in s'.committed && s'.committed[p] == s.committed[p])
    && s.bodies <= s'.bodies
    && s.tampered <= s'.tampered
  }

  lemma ObjectKeptBy(c: Config, s: State, s': State, t: TaskId, next: Option<Task>)
    requires ObjectInv(c, s) && Later(s, s')
    requires forall k | k in s'.lru :: Issued(s', k, s'.lru[k])
    requires s'.tasks == Moved(s.tasks, t, next) && (next.Some? ==> TaskFaithful(c, s', next.value))
    requires forall g | |s.issued| <= g < |s'.issued| ::
               Faithful(c, s', s'.issued[g].0, s'.issued[g].1.target, s'.issued[g].1.hash)
    requires forall p | p in s'.committed && p !in s.committed :: s'.committed[p] in s'.bodies
    ensures ObjectInv(c, s')
  {
  }

  lemma EntriesLater(c: Config, s: State, s': State)
    requires ObjectInv(c, s) && Later(s, s') && s'.lru == s.lru
    ensures forall k | k in s'.lru :: Issued(s', k, s'.lru[k])
  {
  }

  lemma NextStoreIsFaithful(c: Config, s: State, a: Action)
    requires ObjectInv(c, s) && Enabled(c, s, a) && IsStore(a)
    ensures var s', next := ApplyStore(c, s, a), NextStore(c, s, a);
            && (next.Some? ==> TaskFaithful(c, s', next.value))
            && forall g | |s.issued| <= g < |s'.issued| ::
                 Faithful(c, s', s'.issued[g].0, s'.issued[g].1.target, s'.issued[g].1.hash)
  {
    if a.t in s.tasks {
      assert TaskFaithful(c, s, s.tasks[a.t]);
      if a.PublishFails? {
        CommittedIfIssued(c, s, s.tasks[a.t].key, s.tasks[a.t].obj);
      }
    }
  }

  lemma StoredHere(c: Config, s: State, a: Action)
    requires Enabled(c, s, a) && IsStore(a)
    ensures var s' := ApplyStore(c, s, a);
            && s'.lru == s.lru && s'.tasks == Moved(s.tasks, a.t, NextStore(c, s, a))
            && forall p | p in s'.committed && p !in s.committed :: s'.committed[p] in s'.bodies
  {
  }

  lemma ObjectKeptByStore(c: Config, s: State, a: Action)
    requires ObjectInv(c, s) && DiskInv(s) && Enabled(c, s, a) && IsStore(a)
    ensures ObjectInv(c, ApplyStore(c, s, a))
  {
    hide ApplyStore, NextStore, Enabled, ObjectInv, DiskInv, TaskFaithful, Faithful, Issued, Later, Moved;
    var s' := ApplyStore(c, s, a);
    StoreIsLater(c, s, a);
    StoredHere(c, s, a);
    NextStoreIsFaithful(c, s, a);
    EntriesLater(c, s, s');
    ObjectKeptBy(c, s, s', a.t, NextStore(c, s, a));
  }

  lemma OpenedIsFaithful(c: Config, s: State, key: Key, obj: CacheObject)
    requires ObjectInv(c, s) && DiskInv(s) && Issued(s, key, obj) && obj.target.File? && obj.target.path in s.disk
    ensures TaskFaithful(c, s, Reading(key, obj, s.disk[obj.target.path], []))
  {
    hide Possible;
    CommittedIfIssued(c, s, key, obj);
    NoLooks();
  }

  lemma ReadOnIsFaithful(c: Config, s: State, task: Task, n: nat)
    requires task.Reading? && TaskFaithful(c, s, task) && Shows(Look(task.content, n), Total(task.looks))
    ensures TaskFaithful(c, s, task.(looks := task.looks + [Look(task.content, n)]))
  {
    hide Possible, Total, Shows, Issued;
    EndedLooks(task.looks, task.content, n);
  }

  lemma NextGetIsFaithful(c: Config, s: State, a: Action)
    requires ObjectInv(c, s) && DiskInv(s) && Enabled(c, s, a) && IsGet(a)
    ensures var next := NextGet(c, s, a); next.Some? ==> TaskFaithful(c, s, next.value)
  {
    hide Possible, Total, Got, Shows, DiskInv;
    if a.Lookup? {
      assert Issued(s, a.key, s.lru[a.key]);
    } else {
      var task := s.tasks[a.t];
      assert TaskFaithful(c, s, task);
      hide ObjectInv;
      if a.OpenFile? {
        OpenedIsFaithful(c, s, task.key, task.obj);
      } else if a.ReadChunk? {
        ReadOnIsFaithful(c, s, task, a.n);
      }
    }
  }

  lemma NoLooks()
    ensures Possible([])
  {
  }

  lemma ObjectKeptByGet(c: Config, s: State, a: Action)
    requires ObjectInv(c, s) && DiskInv(s) && Enabled(c, s, a) && IsGet(a)
    ensures ObjectInv(c, ApplyGet(c, s, a))
  {
    hide NextGet, Delivered;
    var s' := ApplyGet(c, s, a);
    NextGetIsFaithful(c, s, a);
    EntriesLater(c, s, s');
    ObjectKeptBy(c, s, s', a.t, NextGet(c, s, a));
  }

  lemma ObjectKeptByRemoval(c: Config, s: State, a: Action)
    requires ObjectInv(c, s) && Enabled(c, s, a) && IsRemoval(a)
    ensures ObjectInv(c, ApplyRemoval(c, s, a))
  {
    var s' := ApplyRemoval(c, s, a);
    assert TaskFaithful(c, s, s.tasks[a.t]);
    EntriesLater(c, s, s');
    ObjectKeptBy(c, s, s', a.t, NextRemoval(c, s, a));
  }

  lemma ObjectKeptQuietly(c: Config, s: State, s': State)
    requires ObjectInv(c, s) && s.tampered <= s'.tampered && s'.lru == s.lru && s'.tasks == s.tasks
    requires s'.issued == s.issued && s'.committed == s.committed && s'.bodies == s.bodies
    ensures ObjectInv(c, s')
  {
    forall t | t in s'.tasks
      ensures TaskFaithful(c, s', s'.tasks[t])
    {
      assert TaskFaithful(c, s, s.tasks[t]);
    }
  }

  lemma ObjectKeptByWorld(c: Config, s: State, a: Action)
    requires ObjectInv(c, s) && Enabled(c, s, a) && IsWorld(a)
    ensures ObjectInv(c, ApplyWorld(c, s, a))
  {
    var s' := ApplyWorld(c, s, a);
    if a.Overwrite? {
      assert TaskFaithful(c, s, s.tasks[a.t]);
      EntriesLater(c, s, s');
      ObjectKeptBy(c, s, s', a.t, Some(s.tasks[a.t].(content := a.bytes)));
    } else {
      hide ObjectInv;
      ObjectKeptQuietly(c, s, s');
    }
  }

  lemma CommittedIfIssued(c: Config, s: State, key: Key, obj: CacheObject)
    requires ObjectInv(c, s) && Issued(s, key, obj)
    ensures Faithful(c, s, key, obj.target, obj.hash)
  {
  }

  lemma ObjectKeptByPublish(c: Config, s: State, t: TaskId, victim: Key)
    requires ObjectInv(c, s) && Enabled(c, s, Publish(t, victim))
    ensures ObjectInv(c, ApplyPublish(c, s, t, victim))
  {
    var Counted(key, obj) := s.tasks[t];
    var s' := ApplyPublish(c, s, t, victim);
    assert TaskFaithful(c, s, s.tasks[t]);
    PushConserves(s.lru, c.cap, key, obj, victim);
    forall k | k in s'.lru
      ensures Issued(s', k, s'.lru[k])
    {
      assert k != key ==> Issued(s, k, s.lru[k]);
    }
    var q := DisplacedFile(c, s, key, obj, victim);
    if q.Some? {
      var k := DisplacedKey(s.lru, c.cap, key, victim).value;
      CommittedIfIssued(c, s, k, s.lru[k]);
    }
    ObjectKeptBy(c, s, s', t, Remove(q));
  }

  lemma ObjectKeptByEvict(c: Config, s: State, t: TaskId)
    requires ObjectInv(c, s) && Enabled(c, s, EvictEntry(t))
    ensures ObjectInv(c, ApplyEvict(c, s, t))
  {
    var Evicting(key, obj) := s.tasks[t];
    var s' := ApplyEvict(c, s, t);
    assert TaskFaithful(c, s, s.tasks[t]);
    CommittedIfIssued(c, s, key, obj);
    forall k | k in s'.lru
      ensures Issued(s', k, s'.lru[k])
    {
      assert Issued(s, k, s.lru[k]);
    }
    ObjectKeptBy(c, s, s', t, if Evicts(s, t) then Remove(FileOf(obj)) else None);
  }

  lemma ObjectKept(c: Config, s: State, a: Action)
    requires ObjectInv(c, s) && DiskInv(s) && Enabled(c, s, a)
    ensures ObjectInv(c, Apply(c, s, a))
  {
    hide OwnerInv, ObjectInv, DiskInv, CountInv;
    hide ApplyStore, ApplyGet, ApplyRemoval, ApplyWorld, ApplyPublish, ApplyEvict;
    if a.Publish? {
      ObjectKeptByPublish(c, s, a.t, a.victim);
    } else if a.EvictEntry? {
      ObjectKeptByEvict(c, s, a.t);
    } else if IsStore(a) {
      ObjectKeptByStore(c, s, a);
    } else if IsGet(a) {
      ObjectKeptByGet(c, s, a);
    } else if IsRemoval(a) {
      ObjectKeptByRemoval(c, s, a);
    } else {
      ObjectKeptByWorld(c, s, a);
    }
  }

  /* ------------------------------------- disk ------------------------------------- */

  /** No other task holds the file `t` holds. */
  lemma OneHolder(s: State, t: TaskId, u: TaskId)
    requires OwnerInv(s) && HoldsAt(s.tasks, t).Some? && HoldsAt(s.tasks, t) == HoldsAt(s.tasks, u)
    ensures t == u
  {
    assert Owned(s.owner, Claim(s.lru, s.tasks, InFlight(t)).value, InFlight(t));
    assert Owned(s.owner, Claim(s.lru, s.tasks, InFlight(u)).value, InFlight(u));
  }

  /** Steps that touch no file and release no claim. */
  lemma DiskKeptQuietly(s: State, s': State, t: TaskId, next: Option<Task>)
    requires DiskInv(s) && s'.tasks == Moved(s.tasks, t, next) && (next.Some? ==> !next.value.Spooling?)
    requires s'.owner.Keys == s.owner.Keys && s'.nextSerial == s.nextSerial
    requires s'.temps == s.temps && s'.disk == s.disk && s'.committed == s.committed && s'.lost == s.lost
    requires s'.tampered == s.tampered && s'.discarded == s.discarded
    ensures DiskInv(s')
  {
  }

  lemma DiskKeptByBeginSpill(c: Config, s: State, a: Action)
    requires OwnerInv(s) && DiskInv(s) && Enabled(c, s, a) && a.BeginSpill?
    ensures DiskInv(ApplyStore(c, s, a))
  {
  }

  lemma DiskKeptByAbortSpill(c: Config, s: State, a: Action)
    requires OwnerInv(s) && DiskInv(s) && Enabled(c, s, a) && a.AbortSpill?
    ensures DiskInv(ApplyStore(c, s, a))
  {
    hide OwnerInv;
    SpoolerIsAlone(s, a.t);
  }

  /** A spooling task owns its path, and no other spooling task writes there. */
  lemma SpoolerIsAlone(s: State, t: TaskId)
    requires OwnerInv(s) && t in s.tasks && s.tasks[t].Spooling?
    ensures s.tasks[t].path in s.owner
    ensures forall u | u in s.tasks && s.tasks[u].Spooling? && u != t :: s.tasks[u].path != s.tasks[t].path
  {
    assert Owned(s.owner, Claim(s.lru, s.tasks, InFlight(t)).value, InFlight(t));
    forall u | u in s.tasks && s.tasks[u].Spooling? && s.tasks[u].path == s.tasks[t].path
      ensures u == t
    {
      OneHolder(s, t, u);
    }
  }

  lemma DiskKeptByCommitSpill(c: Config, s: State, a: Action)
    requires OwnerInv(s) && DiskInv(s) && Enabled(c, s, a) && a.CommitSpill?
    ensures DiskInv(ApplyStore(c, s, a))
  {
    hide OwnerInv;
    SpoolerIsAlone(s, a.t);
  }

  lemma DiskKeptByStore(c: Config, s: State, a: Action)
    requires OwnerInv(s) && DiskInv(s) && Enabled(c, s, a) && IsStore(a)
    ensures DiskInv(ApplyStore(c, s, a))
  {
    if a.BeginSpill? {
      DiskKeptByBeginSpill(c, s, a);
    } else if a.AbortSpill? {
      DiskKeptByAbortSpill(c, s, a);
    } else if a.CommitSpill? {
      DiskKeptByCommitSpill(c, s, a);
    } else {
      DiskKeptQuietly(s, ApplyStore(c, s, a), a.t, NextStore(c, s, a));
    }
  }

  lemma DiskKeptByUnlink(c: Config, s: State, a: Action)
    requires DiskInv(s) && Enabled(c, s, a) && a.Unlink? && s.tasks[a.t].path in s.committed
    ensures DiskInv(ApplyRemoval(c, s, a))
  {
  }

  lemma DiskKeptByDiscard(c: Config, s: State, a: Action)
    requires DiskInv(s) && Enabled(c, s, a) && a.Discard? && s.tasks[a.t].path in s.committed
    ensures DiskInv(ApplyRemoval(c, s, a))
  {
  }

  lemma DiskKeptByRemoval(c: Config, s: State, a: Action)
    requires DiskInv(s) && Enabled(c, s, a) && IsRemoval(a) && s.tasks[a.t].path in s.committed
    ensures DiskInv(ApplyRemoval(c, s, a))
  {
    if a.Uncount? {
      DiskKeptQuietly(s, ApplyRemoval(c, s, a), a.t, NextRemoval(c, s, a));
    } else if a.Unlink? {
      DiskKeptByUnlink(c, s, a);
    } else {
      DiskKeptByDiscard(c, s, a);
    }
  }

  lemma DiskKeptByOverwrite(c: Config, s: State, a: Action)
    requires DiskInv(s) && Enabled(c, s, a) && a.Overwrite? && s.tasks[a.t].obj.target.path in s.committed
    ensures DiskInv(ApplyWorld(c, s, a))
  {
    var s' := ApplyWorld(c, s, a);
    forall t | t in s'.tasks && s'.tasks[t].Spooling?
      ensures t in s.tasks && s'.tasks[t] == s.tasks[t]
    {
    }
  }

  lemma DiskKeptByTamper(c: Config, s: State, a: Action)
    requires DiskInv(s) && Enabled(c, s, a) && IsWorld(a) && !a.Overwrite?
    ensures DiskInv(ApplyWorld(c, s, a))
  {
  }

  lemma OverwrittenWasCommitted(c: Config, s: State, a: Action)
    requires ObjectInv(c, s) && Enabled(c, s, a) && a.Overwrite?
    ensures s.tasks[a.t].obj.target.path in s.committed
  {
    assert TaskFaithful(c, s, s.tasks[a.t]);
  }

  lemma DiskKeptByPublish(c: Config, s: State, t: TaskId, victim: Key)
    requires DiskInv(s) && Enabled(c, s, Publish(t, victim))
    requires ApplyPublish(c, s, t, victim).owner.Keys == s.owner.Keys
    ensures DiskInv(ApplyPublish(c, s, t, victim))
  {
    DiskKeptQuietly(s, ApplyPublish(c, s, t, victim), t,
      Remove(DisplacedFile(c, s, s.tasks[t].key, s.tasks[t].obj, victim)));
  }

  lemma DiskKeptByEvict(c: Config, s: State, t: TaskId)
    requires DiskInv(s) && Enabled(c, s, EvictEntry(t))
    requires ApplyEvict(c, s, t).owner.Keys == s.owner.Keys
    ensures DiskInv(ApplyEvict(c, s, t))
  {
    DiskKeptQuietly(s, ApplyEvict(c, s, t), t, if Evicts(s, t) then Remove(FileOf(s.tasks[t].obj)) else None);
  }

  lemma DiskKeptByGet(c: Config, s: State, a: Action)
    requires DiskInv(s) && Enabled(c, s, a) && IsGet(a)
    ensures DiskInv(ApplyGet(c, s, a))
  {
    DiskKeptQuietly(s, ApplyGet(c, s, a), a.t, NextGet(c, s, a));
  }

  lemma RemovedWasCommitted(c: Config, s: State, a: Action)
    requires ObjectInv(c, s) && Enabled(c, s, a) && IsRemoval(a)
    ensures s.tasks[a.t].path in s.committed
  {
    assert TaskFaithful(c, s, s.tasks[a.t]);
  }

  lemma DiskKept(c: Config, s: State, a: Action)
    requires OwnerInv(s) && ObjectInv(c, s) && DiskInv(s) && Enabled(c, s, a)
    ensures DiskInv(Apply(c, s, a))
  {
    hide OwnerInv, ObjectInv, DiskInv, CountInv;
    hide ApplyStore, ApplyGet, ApplyRemoval, ApplyWorld, ApplyPublish, ApplyEvict;
    if a.Publish? {
      NewFileIsNotDisplaced(c, s, a.t, a.victim);
      OwnerKeptByPublish(c, s, a.t, a.victim);
      DiskKeptByPublish(c, s, a.t, a.victim);
    } else if a.EvictEntry? {
      PopsTheObserved(c, s, a.t);
      OwnerKeptByEvict(c, s, a.t);
      DiskKeptByEvict(c, s, a.t);
    } else if IsStore(a) {
      DiskKeptByStore(c, s, a);
    } else if IsGet(a) {
      DiskKeptByGet(c, s, a);
    } else if IsRemoval(a) {
      RemovedWasCommitted(c, s, a);
      DiskKeptByRemoval(c, s, a);
    } else if a.Overwrite? {
      OverwrittenWasCommitted(c, s, a);
      DiskKeptByOverwrite(c, s, a);
    } else {
      DiskKeptByTamper(c, s, a);
    }
  }

  /* ------------------------------------ uncounts ------------------------------------ */

  ghost predicate GivenBack(tasks: Tasks, who: Owner) {
    who.InFlight? && who.task in tasks && tasks[who.task].Unlinking?
  }

  lemma UncountKeptQuietly(s: State, s': State, t: TaskId, next: Option<Task>)
    requires UncountInv(s) && s'.tasks == Moved(s.tasks, t, next)
    requires t in s.tasks ==> !s.tasks[t].Unlinking?
    requires forall p | p in s.committed :: p in s'.committed
    requires s'.uncounts == s.uncounts && s'.owner == s.owner
    ensures UncountInv(s')
  {
  }

  /** A fresh serial names no path that was ever committed. */
  lemma UncountKeptByBeginSpill(c: Config, s: State, a: Action)
    requires DiskInv(s) && UncountInv(s) && Enabled(c, s, a) && a.BeginSpill?
    ensures UncountInv(ApplyStore(c, s, a))
  {
    var s' := ApplyStore(c, s, a);
    forall p | p in s'.uncounts && p in s'.owner
      ensures GivenBack(s'.tasks, s'.owner[p])
    {
      assert p in s.committed;
      assert GivenBack(s.tasks, s.owner[p]);
    }
  }

  lemma UncountKeptByAbortSpill(c: Config, s: State, a: Action)
    requires UncountInv(s) && Enabled(c, s, a) && a.AbortSpill?
    ensures UncountInv(ApplyStore(c, s, a))
  {
  }

  lemma UncountKeptByStore(c: Config, s: State, a: Action)
    requires DiskInv(s) && UncountInv(s) && Enabled(c, s, a) && IsStore(a)
    ensures UncountInv(ApplyStore(c, s, a))
  {
    if a.BeginSpill? {
      UncountKeptByBeginSpill(c, s, a);
    } else if a.AbortSpill? {
      UncountKeptByAbortSpill(c, s, a);
    } else {
      UncountKeptQuietly(s, ApplyStore(c, s, a), a.t, NextStore(c, s, a));
    }
  }

  lemma UncountKeptByGet(c: Config, s: State, a: Action)
    requires UncountInv(s) && Enabled(c, s, a) && IsGet(a)
    ensures UncountInv(ApplyGet(c, s, a))
  {
    UncountKeptQuietly(s, ApplyGet(c, s, a), a.t, NextGet(c, s, a));
  }

  /** The one step that gives a count back finds it not yet given. */
  lemma UncountKeptByUncount(c: Config, s: State, t: TaskId)
    requires OwnerInv(s) && UncountInv(s) && Enabled(c, s, Uncount(t)) && s.tasks[t].path in s.committed
    ensures UncountInv(ApplyRemoval(c, s, Uncount(t)))
  {
    var s' := ApplyRemoval(c, s, Uncount(t));
    var p := s.tasks[t].path;
    assert Owned(s.owner, Claim(s.lru, s.tasks, InFlight(t)).value, InFlight(t));
    assert !GivenBack(s.tasks, s.owner[p]);
    forall x | x in s'.uncounts && x in s'.owner
      ensures GivenBack(s'.tasks, s'.owner[x])
    {
      assert x != p ==> GivenBack(s.tasks, s.owner[x]);
    }
  }

  lemma UncountKeptByUnlink(c: Config, s: State, t: TaskId, unlinked: bool)
    requires OwnerInv(s) && UncountInv(s) && Enabled(c, s, Unlink(t, unlinked))
    ensures UncountInv(ApplyRemoval(c, s, Unlink(t, unlinked)))
  {
    var s' := ApplyRemoval(c, s, Unlink(t, unlinked));
    forall x | x in s'.uncounts && x in s'.owner
      ensures GivenBack(s'.tasks, s'.owner[x])
    {
      assert GivenBack(s.tasks, s.owner[x]);
      assert Claim(s.lru, s.tasks, s.owner[x]) == Some(x);
    }
  }

  lemma UncountKeptByRemoval(c: Config, s: State, a: Action)
    requires OwnerInv(s) && UncountInv(s) && Enabled(c, s, a) && IsRemoval(a) && s.tasks[a.t].path in s.committed
    ensures UncountInv(ApplyRemoval(c, s, a))
  {
    if a.Uncount? {
      UncountKeptByUncount(c, s, a.t);
    } else if a.Unlink? {
      UncountKeptByUnlink(c, s, a.t, a.unlinked);
    } else {
      UncountKeptQuietly(s, ApplyRemoval(c, s, a), a.t, None);
    }
  }

  lemma UncountKeptByExchange(s: State, s': State, t: TaskId, e: Owner, p: Option<Path>, q: Option<Path>,
                              next: Option<Task>)
    requires UncountInv(s) && s'.uncounts == s.uncounts && s'.committed == s.committed
    requires s'.tasks == Moved(s.tasks, t, next) && t in s.tasks && !s.tasks[t].Unlinking?
    requires s'.owner == Assign(Assign(s.owner, p, e), q, InFlight(t))
    requires p.Some? ==> Owned(s.owner, p.value, InFlight(t))
    requires q.Some? ==> q.value in s.owner && s.owner[q.value].Entry?
    ensures UncountInv(s')
  {
  }

  lemma UncountKeptByPublish(c: Config, s: State, t: TaskId, victim: Key)
    requires OwnerInv(s) && UncountInv(s) && Enabled(c, s, Publish(t, victim))
    ensures UncountInv(ApplyPublish(c, s, t, victim))
  {
    var Counted(key, obj) := s.tasks[t];
    var q := DisplacedFile(c, s, key, obj, victim);
    if obj.target.File? {
      assert Owned(s.owner, Claim(s.lru, s.tasks, InFlight(t)).value, InFlight(t));
    }
    if q.Some? {
      var k := DisplacedKey(s.lru, c.cap, key, victim).value;
      assert Owned(s.owner, Claim(s.lru, s.tasks, Entry(k)).value, Entry(k));
    }
    UncountKeptByExchange(s, ApplyPublish(c, s, t, victim), t, Entry(key), FileOf(obj), q, Remove(q));
  }

  lemma UncountKeptByEvict(c: Config, s: State, t: TaskId)
    requires OwnerInv(s) && UncountInv(s) && Enabled(c, s, EvictEntry(t))
    requires Evicts(s, t) ==> s.lru[s.tasks[t].key] == s.tasks[t].obj
    ensures UncountInv(ApplyEvict(c, s, t))
  {
    var Evicting(key, obj) := s.tasks[t];
    var q := if Evicts(s, t) then FileOf(obj) else None;
    if q.Some? {
      assert Owned(s.owner, Claim(s.lru, s.tasks, Entry(key)).value, Entry(key));
    }
    UncountKeptByExchange(s, ApplyEvict(c, s, t), t, Entry(key), None, q, Remove(q));
  }

  lemma UncountKeptByWorld(c: Config, s: State, a: Action)
    requires UncountInv(s) && Enabled(c, s, a) && IsWorld(a)
    ensures UncountInv(ApplyWorld(c, s, a))
  {
  }

  lemma UncountKept(c: Config, s: State, a: Action)
    requires OwnerInv(s) && ObjectInv(c, s) && DiskInv(s) && UncountInv(s) && Enabled(c, s, a)
    ensures UncountInv(Apply(c, s, a))
  {
    hide OwnerInv, ObjectInv, DiskInv, UncountInv;
    hide ApplyStore, ApplyGet, ApplyRemoval, ApplyWorld, ApplyPublish, ApplyEvict;
    if a.Publish? {
      UncountKeptByPublish(c, s, a.t, a.victim);
    } else if a.EvictEntry? {
      PopsTheObserved(c, s, a.t);
      UncountKeptByEvict(c, s, a.t);
    } else if IsStore(a) {
      UncountKeptByStore(c, s, a);
    } else if IsGet(a) {
      UncountKeptByGet(c, s, a);
    } else if IsRemoval(a) {
      RemovedWasCommitted(c, s, a);
      UncountKeptByRemoval(c, s, a);
    } else {
      UncountKeptByWorld(c, s, a);
    }
  }

  /* ------------------------------------ responses ------------------------------------ */

  lemma EndedLooks(looks: seq<Look>, content: Bytes, n: nat)
    requires Possible(looks) && Shows(Look(content, n), Total(looks))
    ensures Possible(looks + [Look(content, n)])
  {
    assert (looks + [Look(content, n)])[..|looks|] == looks;
  }

  lemma DeliveredAnswers(c: Config, s: State, a: Action)
    requires ObjectInv(c, s) && Enabled(c, s, a) && IsGet(a)
    ensures forall r | r in Delivered(c, s, a) :: Answers(c, s, r)
  {
    hide Possible, Got, Total, Shows;
    if a.ReadEnds? {
      var task := s.tasks[a.t];
      assert TaskFaithful(c, s, task);
      CommittedIfIssued(c, s, task.key, task.obj);
      if a.eof {
        EndedLooks(task.looks, task.content, 0);
      }
    } else if a.ServeMemory? {
      CommittedIfIssued(c, s, s.tasks[a.t].key, s.tasks[a.t].obj);
    }
  }

  lemma AnswersLater(c: Config, s: State, s': State, r: Response)
    requires Answers(c, s, r) && Later(s, s')
    ensures Answers(c, s', r)
  {
  }

  lemma ServedKeptByGet(c: Config, s: State, a: Action)
    requires ObjectInv(c, s) && ServedInv(c, s) && Enabled(c, s, a) && IsGet(a)
    ensures ServedInv(c, ApplyGet(c, s, a))
  {
    hide Answers, Delivered, ObjectInv;
    var s' := ApplyGet(c, s, a);
    DeliveredAnswers(c, s, a);
    forall i | 0 <= i < |s'.served|
      ensures Answers(c, s', s'.served[i])
    {
      assert i >= |s.served| ==> s'.served[i] in Delivered(c, s, a);
      AnswersLater(c, s, s', s'.served[i]);
    }
  }

  lemma StoreIsLater(c: Config, s: State, a: Action)
    requires DiskInv(s) && Enabled(c, s, a) && IsStore(a)
    ensures ApplyStore(c, s, a).served == s.served && Later(s, ApplyStore(c, s, a))
  {
  }

  lemma RemovalIsLater(c: Config, s: State, a: Action)
    requires Enabled(c, s, a) && (IsRemoval(a) || IsWorld(a))
    ensures IsRemoval(a) ==> ApplyRemoval(c, s, a).served == s.served && Later(s, ApplyRemoval(c, s, a))
    ensures IsWorld(a) ==> ApplyWorld(c, s, a).served == s.served && Later(s, ApplyWorld(c, s, a))
  {
  }

  lemma ExchangeIsLater(c: Config, s: State, a: Action)
    requires Enabled(c, s, a) && (a.Publish? || a.EvictEntry?)
    ensures a.Publish? ==> var s' := ApplyPublish(c, s, a.t, a.victim); s'.served == s.served && Later(s, s')
    ensures a.EvictEntry? ==> var s' := ApplyEvict(c, s, a.t); s'.served == s.served && Later(s, s')
  {
  }

  /** Nothing else answers a request. */
  lemma OnlyGetsServe(c: Config, s: State, a: Action)
    requires DiskInv(s) && Enabled(c, s, a) && !IsGet(a)
    ensures Apply(c, s, a).served == s.served && Later(s, Apply(c, s, a))
  {
    hide DiskInv, Later, ApplyStore, ApplyRemoval, ApplyWorld, ApplyPublish, ApplyEvict;
    if IsStore(a) {
      StoreIsLater(c, s, a);
    } else if IsRemoval(a) || IsWorld(a) {
      RemovalIsLater(c, s, a);
    } else {
      ExchangeIsLater(c, s, a);
    }
  }

  lemma ServedKept(c: Config, s: State, a: Action)
    requires ObjectInv(c, s) && DiskInv(s) && ServedInv(c, s) && Enabled(c, s, a)
    ensures ServedInv(c, Apply(c, s, a))
  {
    hide Answers, ObjectInv, DiskInv, ApplyGet;
    if IsGet(a) {
      ServedKeptByGet(c, s, a);
    } else {
      hide Apply;
      OnlyGetsServe(c, s, a);
      var s' := Apply(c, s, a);
      forall i | 0 <= i < |s'.served|
        ensures Answers(c, s', s'.served[i])
      {
        AnswersLater(c, s, s', s'.served[i]);
      }
    }
  }

  /* -------------------------------- every run keeps it -------------------------------- */

  lemma InvKept(c: Config, s: State, a: Action)
    requires Inv(c, s) && Enabled(c, s, a)
    ensures Inv(c, Apply(c, s, a))
  {
    hide CountInv, OwnerInv, ObjectInv, DiskInv, UncountInv, ServedInv, Apply, Enabled;
    CountKept(c, s, a);
    OwnerKept(c, s, a);
    ObjectKept(c, s, a);
    DiskKept(c, s, a);
    UncountKept(c, s, a);
    ServedKept(c, s, a);
  }

  lemma InitInv(c: Config)
    requires 1 <= c.cap
    ensures Inv(c, Init)
  {
  }

  lemma {:induction false} RunKeepsInv(c: Config, s: State, acts: seq<Action>, s': State)
    requires Inv(c, s) && Run(c, s, acts, s')
    ensures Inv(c, s')
    decreases |acts|
  {
    hide Inv, Apply, Enabled;
    if acts != [] {
      InvKept(c, s, acts[0]);
      RunKeepsInv(c, Apply(c, s, acts[0]), acts[1..], s');
    }
  }

  lemma ReachableInv(c: Config, s: State)
    requires 1 <= c.cap && Reachable(c, s)
    ensures Inv(c, s)
  {
    hide Inv;
    InitInv(c);
    var acts :| Run(c, Init, acts, s);
    RunKeepsInv(c, Init, acts, s);
  }

  lemma ReachableParts(c: Config, s: State)
    requires 1 <= c.cap && Reachable(c, s)
    ensures CountInv(c, s) && OwnerInv(s) && ObjectInv(c, s) && DiskInv(s) && UncountInv(s) && ServedInv(c, s)
  {
    hide CountInv, OwnerInv, ObjectInv, DiskInv, UncountInv, ServedInv, Reachable;
    ReachableInv(c, s);
  }
}
