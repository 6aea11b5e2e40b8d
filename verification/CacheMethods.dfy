/** Publishing, looking up and evicting as the code does them, on the mutable LRU and file store. Each call
    is a run of `CacheProtocol`: its critical sections and atomic operations are the protocol's steps. */
module CacheMethods {
  import opened Wrappers
  import opened Machine
  import opened CacheTypes
  import opened CacheStore
  import opened CacheProtocol

  datatype Hit = Miss | Memory(bytes: Bytes) | Handle(content: Bytes)

  /* ------------------------------ what a call may change ------------------------------ */

  /** The files left when one may have to go. */
  function Remaining(disk: map<Path, Bytes>, evicted: Option<Path>, unlinked: bool): map<Path, Bytes> {
    if evicted.Some? && unlinked then disk - {evicted.value} else disk
  }

  function AfterRemoval(cnt: nat, evicted: Option<Path>): nat {
    if evicted.Some? then Uncounted(cnt) else cnt
  }

  /** The file of an object that `obj` takes the place of, unless it is the same file. */
  function Superseded(gone: CacheObject, obj: CacheObject): Option<Path> {
    if gone.target == obj.target then None else FileOf(gone)
  }

  ghost predicate GivesWay(before: LruMap, k: Key, key: Key, obj: CacheObject, after: LruMap, evicted: Option<Path>) {
    k in before && after == (before - {k})[key := obj] && evicted == Superseded(before[k], obj)
  }

  /** The entry of the key itself is replaced; a new one is added while there is room; only in a full cache
      some other entry gives way. */
  ghost predicate Replaces(before: LruMap, cap: nat, key: Key, obj: CacheObject, after: LruMap, evicted: Option<Path>) {
    if key in before then after == before[key := obj] && evicted == Superseded(before[key], obj)
    else if |before| < cap then after == before[key := obj] && evicted == None
    else exists k :: GivesWay(before, k, key, obj, after, evicted)
  }

  class RpxyCache {
    const lru: LruCacheManager
    const files: FileStore
    ghost const c: Config
    ghost var s: State

    /** The shared objects are the protocol state that all tasks see. */
    ghost predicate Valid()
      reads this, lru, files
    {
      && lru.Valid() && lru.cap == c.cap
      && lru.inner == s.lru && lru.cnt == s.total && lru.poisoned == s.poisoned
      && files.cnt == s.cnt && files.disk == s.disk
    }

    constructor (maxEntry: nat, hash: Bytes -> Digest)
      requires 1 <= maxEntry
      ensures Valid() && s == Init && c == Config(maxEntry, hash) && fresh(lru) && fresh(files)
    {
      lru := new LruCacheManager(maxEntry);
      files := new FileStore();
      c, s := Config(maxEntry, hash), Init;
    }

    /** `FileStore::remove` by the task that took the file out of the LRU: count first, then unlink. */
    method RemoveFile(ghost t: TaskId, path: Path, unlinked: bool) returns (ghost acts: seq<Action>)
      requires Valid() && t in s.tasks && s.tasks[t] == Uncounting(path)
      modifies this`s, files
      ensures Valid() && Run(c, old(s), acts, s) && s.tasks == old(s.tasks) - {t} && s.lru == old(s.lru)
      ensures files.cnt == Uncounted(old(files.cnt))
      ensures files.disk == if unlinked then old(files.disk) - {path} else old(files.disk)
    {
      hide Run;
      files.Evict(path, unlinked);
      acts := [Uncount(t), Unlink(t, unlinked)];
      s := RemoveSteps(c, s, t, unlinked);
    }

    /** The end of a task that may have a file left to remove. */
    method Finish(ghost t: TaskId, ghost tasks: map<TaskId, Task>, evicted: Option<Path>, unlinked: bool)
      returns (ghost acts: seq<Action>)
      requires Valid() && s.tasks == Moved(tasks, t, Remove(evicted))
      modifies this`s, files
      ensures Valid() && Run(c, old(s), acts, s) && s.tasks == tasks - {t} && s.lru == old(s.lru)
      ensures files.cnt == AfterRemoval(old(files.cnt), evicted)
      ensures files.disk == Remaining(old(files.disk), evicted, unlinked)
    {
      hide Run;
      acts := [];
      MovedRemove(tasks, t, evicted);
      if evicted.Some? {
        acts := RemoveFile(t, evicted.value, unlinked);
      } else {
        NoStep(c, s);
      }
    }

    /** A file-backed object is counted before it can be seen. */
    method CountObject(ghost t: TaskId, key: Key, obj: CacheObject)
      requires Valid() && t in s.tasks && s.tasks[t] == Built(key, obj)
      modifies this`s, files`cnt
      ensures Valid() && Run(c, old(s), [Count(t)], s) && s.tasks == old(s.tasks)[t := Counted(key, obj)]
      ensures files.cnt == old(files.cnt) + if obj.target.File? then 1 else 0
    {
      hide Run, Apply, Enabled;
      if obj.target.File? {
        files.IncrCount();
      }
      CountEffect(c, s, t);
      OneStep(c, s, Count(t));
      s := Apply(c, s, Count(t));
    }

    /** The push, and the file it leaves to be removed: the displaced one, or the new one when it failed. */
    method PushObject(ghost t: TaskId, key: Key, obj: CacheObject) returns (evicted: Option<Path>, ghost a: Action)
      requires Valid() && t in s.tasks && s.tasks[t] == Counted(key, obj)
      modifies this`s, lru`inner, lru`cnt
      ensures Valid() && Run(c, old(s), [a], s) && s.tasks == Moved(old(s.tasks), t, Remove(evicted))
      ensures if lru.poisoned then lru.inner == old(lru.inner) && evicted == FileOf(obj)
              else Replaces(old(lru.inner), lru.cap, key, obj, lru.inner, evicted)
    {
      hide Run, Apply, Enabled, Pushed, Displaced, DisplacedKey, CanPush, Moved;
      var ok, displaced := lru.Push(key, obj);
      evicted, a := None, PublishFails(t);
      if !ok {
        evicted := FileOf(obj);
        PublishFailsEffect(c, s, t);
      } else {
        ghost var victim :| IsPush(s.lru, c.cap, key, obj, victim, lru.inner, displaced);
        a := Publish(t, victim);
        if displaced.Some? && displaced.value.1.target != obj.target {
          evicted := FileOf(displaced.value.1);
        }
        assert Replaces(old(lru.inner), lru.cap, key, obj, lru.inner, evicted) by {
          if key !in old(lru.inner) && |old(lru.inner)| == lru.cap {
            assert GivesWay(old(lru.inner), displaced.value.0, key, obj, lru.inner, evicted);
          }
        }
        PublishEffect(c, s, t, victim);
      }
      OneStep(c, s, a);
      s := Apply(c, s, a);
    }

    /** `publish_cache_object`. The file that has to go is the displaced one, or the new one when the push
        failed; no other file and no other entry is touched. */
    method PublishCacheObject(ghost t: TaskId, key: Key, obj: CacheObject, unlinked: bool)
      returns (ghost evicted: Option<Path>, ghost acts: seq<Action>)
      requires Valid() && t in s.tasks && s.tasks[t] == Built(key, obj)
      modifies this`s, lru`inner, lru`cnt, files
      ensures Valid() && Run(c, old(s), acts, s) && s.tasks == old(s.tasks) - {t}
      ensures if old(lru.poisoned) then lru.inner == old(lru.inner) && evicted == FileOf(obj)
              else Replaces(old(lru.inner), lru.cap, key, obj, lru.inner, evicted)
      ensures files.cnt == AfterRemoval(old(files.cnt) + (if obj.target.File? then 1 else 0), evicted)
      ensures files.disk == Remaining(old(files.disk), evicted, unlinked)
    {
      hide Run, Moved, Remove, Replaces;
      CountObject(t, key, obj);
      ghost var s1 := s;
      ghost var a;
      var gone;
      gone, a := PushObject(t, key, obj);
      evicted := gone;
      ghost var s2 := s;
      ghost var more := Finish(t, s1.tasks, gone, unlinked);
      ThreeRuns(c, old(s), [Count(t)], s1, [a], s2, more, s);
      UpdateThenRemove(old(s).tasks, t, s1.tasks[t]);
      acts := [Count(t)] + [a] + more;
    }

    method LookUp(ghost t: TaskId, key: Key) returns (found: Option<CacheObject>)
      requires Valid() && t !in s.tasks
      modifies this`s
      ensures Valid() && s.served == old(s.served)
      ensures found == if lru.poisoned || key !in lru.inner then None else Some(lru.inner[key])
      ensures found.None? ==> s == old(s)
      ensures found.Some? ==>
                Run(c, old(s), [Lookup(t, key)], s) && s.tasks == old(s.tasks)[t := Holding(key, found.value)]
    {
      hide Run, Apply, Enabled;
      var ok;
      ok, found := lru.Get(key);
      if found.Some? {
        LookupEffect(c, s, t, key);
        OneStep(c, s, Lookup(t, key));
        s := Apply(c, s, Lookup(t, key));
      }
    }

    /** The body of the object looked up: at hand on memory, or behind a file that opens. */
    method OpenBody(ghost t: TaskId, key: Key, obj: CacheObject, opens: bool) returns (r: Hit, ghost acts: seq<Action>)
      requires Valid() && t in s.tasks && s.tasks[t] == Holding(key, obj)
      modifies this`s
      ensures Valid() && Run(c, old(s), acts, s)
      ensures r == if obj.target.OnMemory? then Memory(obj.target.bytes)
                   else if opens && obj.target.path in files.disk then Handle(files.disk[obj.target.path])
                   else Miss
      ensures r.Miss? ==> s == old(s)
      ensures r.Memory? ==> s.tasks == old(s.tasks) - {t} && s.served == old(s.served) + [FromMemory(key, r.bytes)]
      ensures r.Handle? ==> s.tasks == old(s.tasks)[t := Reading(key, obj, r.content, [])]
    {
      hide Run, Apply, Enabled;
      if obj.target.OnMemory? {
        ServeEffect(c, s, t);
        OneStep(c, s, ServeMemory(t));
        s := Apply(c, s, ServeMemory(t));
        return Memory(obj.target.bytes), [ServeMemory(t)];
      }
      if opens && obj.target.path in files.disk {
        OpenEffect(c, s, t);
        OneStep(c, s, OpenFile(t));
        s := Apply(c, s, OpenFile(t));
        return Handle(files.disk[obj.target.path]), [OpenFile(t)];
      }
      NoStep(c, s);
      return Miss, [];
    }

    /** Whether a lookup ends with a body at hand. */
    ghost predicate Found(key: Key, current: bool, opens: bool)
      reads lru, files
    {
      && !lru.poisoned && key in lru.inner && current
      && (lru.inner[key].target.File? ==> opens && lru.inner[key].target.path in files.disk)
    }

    /** What `get` does with the object it looked up. */
    method Retrieve(ghost t: TaskId, key: Key, obj: CacheObject, current: bool, opens: bool, unlinked: bool)
      returns (r: Hit, ghost acts: seq<Action>)
      requires Valid() && t in s.tasks && s.tasks[t] == Holding(key, obj)
      requires !lru.poisoned && key in lru.inner && lru.inner[key] == obj
      modifies this`s, lru`inner, lru`cnt, files
      ensures Valid() && Run(c, old(s), acts, s)
      ensures r.Miss? <==> !old(Found(key, current, opens))
      ensures lru.inner == if r.Miss? then old(lru.inner) - {key} else old(lru.inner)
      ensures r.Memory? ==> obj.target == OnMemory(r.bytes)
      ensures r.Handle? ==> obj.target.File? && old(files.disk)[obj.target.path] == r.content
      ensures files.cnt == AfterRemoval(old(files.cnt), if r.Miss? then FileOf(obj) else None)
      ensures files.disk == Remaining(old(files.disk), if r.Miss? then FileOf(obj) else None, unlinked)
      ensures Leaves(old(s.tasks), t, key, obj, r, s.tasks)
      ensures r.Memory? ==> s.served == old(s.served) + [FromMemory(key, r.bytes)]
    {
      hide Run;
      r, acts := Miss, [];
      if current {
        r, acts := OpenBody(t, key, obj, opens);
      }
      if r.Miss? {
        acts := EvictObserved(t, key, obj, unlinked);
      }
    }

    /** `get`, up to the point where a body is at hand. `current` is the verdict of the cache policy and
        `opens` whether the file system lets a present file be opened. An entry that is stale or whose file
        does not open is evicted. */
    method Get(ghost t: TaskId, key: Key, current: bool, opens: bool, unlinked: bool)
      returns (r: Hit, ghost acts: seq<Action>)
      requires Valid() && t !in s.tasks
      modifies this`s, lru`inner, lru`cnt, files
      ensures Valid() && Run(c, old(s), acts, s)
      ensures r.Miss? <==> !old(Found(key, current, opens))
      ensures lru.inner == if r.Miss? && !lru.poisoned then old(lru.inner) - {key} else old(lru.inner)
      ensures key in old(lru.inner) ==> Leaves(old(s.tasks), t, key, old(lru.inner)[key], r, s.tasks)
      ensures key !in old(lru.inner) || lru.poisoned ==> s == old(s)
      ensures key in old(lru.inner) && !lru.poisoned ==>
                var obj := old(lru.inner)[key];
                && (r.Memory? ==> obj.target == OnMemory(r.bytes))
                && (r.Handle? ==> obj.target.File? && old(files.disk)[obj.target.path] == r.content)
                && files.cnt == AfterRemoval(old(files.cnt), if r.Miss? then FileOf(obj) else None)
                && files.disk == Remaining(old(files.disk), if r.Miss? then FileOf(obj) else None, unlinked)
      ensures r.Memory? ==> s.served == old(s.served) + [FromMemory(key, r.bytes)]
    {
      hide Run, Leaves, Moved;
      var found := LookUp(t, key);
      r, acts := Miss, [];
      if found.None? {
        NoStep(c, s);
        NothingFound(s.tasks, lru.inner, t, key);
        return;
      }
      ghost var s1, more := s, [];
      r, more := Retrieve(t, key, found.value, current, opens, unlinked);
      LeavesAfterLookup(old(s).tasks, t, key, found.value, r, s.tasks);
      RunsJoin(c, old(s), [Lookup(t, key)], s1, more, s);
      acts := [Lookup(t, key)] + more;
    }

    /** Nothing shared is touched yet. */
    ghost method TurnToEviction(t: TaskId, key: Key, obj: CacheObject)
      requires Valid() && t in s.tasks && s.tasks[t] == Holding(key, obj)
      modifies this`s
      ensures Valid() && Run(c, old(s), [GiveUp(t)], s) && s.tasks == old(s.tasks)[t := Evicting(key, obj)]
    {
      hide Run, Apply, Enabled;
      GiveUpEffect(c, s, t);
      OneStep(c, s, GiveUp(t));
      s := Apply(c, s, GiveUp(t));
    }

    /** The pop of `evict_if_generation`, and the file that then has to go. */
    method PopObserved(ghost t: TaskId, key: Key, obj: CacheObject) returns (evicted: Option<Path>)
      requires Valid() && t in s.tasks && s.tasks[t] == Evicting(key, obj)
      modifies this`s, lru`inner, lru`cnt
      ensures Valid() && Run(c, old(s), [EvictEntry(t)], s) && s.tasks == Moved(old(s.tasks), t, Remove(evicted))
      ensures var same := !lru.poisoned && StillCurrent(old(lru.inner), key, obj.generation);
              && lru.inner == (if same then old(lru.inner) - {key} else old(lru.inner))
              && evicted == if same then FileOf(obj) else None
    {
      hide Run, Apply, Enabled, Moved;
      EvictEffect(c, s, t);
      OneStep(c, s, EvictEntry(t));
      var popped := lru.EvictIfGeneration(key, obj.generation);
      evicted := if popped.Some? then FileOf(obj) else None;
      s := Apply(c, s, EvictEntry(t));
    }

    /** The eviction of an entry found stale or unreadable: only the observed generation, and then its file. */
    method EvictObserved(ghost t: TaskId, key: Key, obj: CacheObject, unlinked: bool) returns (ghost acts: seq<Action>)
      requires Valid() && t in s.tasks && s.tasks[t] == Holding(key, obj)
      modifies this`s, lru`inner, lru`cnt, files
      ensures Valid() && Run(c, old(s), acts, s) && s.tasks == old(s.tasks) - {t}
      ensures var same := !lru.poisoned && StillCurrent(old(lru.inner), key, obj.generation);
              && lru.inner == (if same then old(lru.inner) - {key} else old(lru.inner))
              && files.cnt == AfterRemoval(old(files.cnt), if same then FileOf(obj) else None)
              && files.disk == Remaining(old(files.disk), if same then FileOf(obj) else None, unlinked)
    {
      hide Run, Moved, Remove, StillCurrent;
      TurnToEviction(t, key, obj);
      ghost var s1 := s;
      var evicted := PopObserved(t, key, obj);
      ghost var s2 := s;
      ghost var more := Finish(t, s1.tasks, evicted, unlinked);
      ThreeRuns(c, old(s), [GiveUp(t)], s1, [EvictEntry(t)], s2, more, s);
      UpdateThenRemove(old(s).tasks, t, s1.tasks[t]);
      acts := [GiveUp(t)] + [EvictEntry(t)] + more;
    }
  }

  /* ------------------------- what each step does to the shared objects ------------------------- */

  /** The step is possible, leaves the mutex as it is and makes the shared objects these. */
  ghost predicate Makes(c: Config, s: State, a: Action, lru: LruMap, cnt: nat, disk: map<Path, Bytes>,
                        tasks: map<TaskId, Task>)
  {
    && Enabled(c, s, a)
    && var s' := Apply(c, s, a);
       && s'.lru == lru && s'.cnt == cnt && s'.disk == disk && s'.tasks == tasks && s'.poisoned == s.poisoned
       && s'.total == |s'.lru|
  }

  /** Which part of the protocol takes a step. */
  lemma Dispatch(c: Config, s: State, a: Action)
    requires Enabled(c, s, a)
    ensures IsStore(a) ==> Apply(c, s, a) == ApplyStore(c, s, a)
    ensures IsGet(a) ==> Apply(c, s, a) == ApplyGet(c, s, a)
    ensures IsRemoval(a) ==> Apply(c, s, a) == ApplyRemoval(c, s, a)
    ensures a.Publish? ==> Apply(c, s, a) == ApplyPublish(c, s, a.t, a.victim)
    ensures a.EvictEntry? ==> Apply(c, s, a) == ApplyEvict(c, s, a.t)
  {
    hide Enabled, ApplyStore, ApplyGet, ApplyRemoval, ApplyWorld, ApplyPublish, ApplyEvict;
  }

  lemma CountEffect(c: Config, s: State, t: TaskId)
    requires s.total == |s.lru| && t in s.tasks && s.tasks[t].Built?
    ensures var Built(key, obj) := s.tasks[t];
            Makes(c, s, Count(t), s.lru, s.cnt + (if obj.target.File? then 1 else 0), s.disk,
                  s.tasks[t := Counted(key, obj)])
  {
    hide Apply;
    Dispatch(c, s, Count(t));
  }

  lemma PublishFailsEffect(c: Config, s: State, t: TaskId)
    requires s.total == |s.lru| && t in s.tasks && s.tasks[t].Counted? && s.poisoned
    ensures Makes(c, s, PublishFails(t), s.lru, s.cnt, s.disk, Moved(s.tasks, t, Remove(FileOf(s.tasks[t].obj))))
  {
    hide Apply;
    Dispatch(c, s, PublishFails(t));
  }

  lemma PublishEffect(c: Config, s: State, t: TaskId, victim: Key)
    requires s.total == |s.lru| && t in s.tasks && s.tasks[t].Counted? && !s.poisoned
    requires CanPush(s.lru, c.cap, s.tasks[t].key, victim)
    ensures var Counted(key, obj) := s.tasks[t];
            var gone := Displaced(s.lru, c.cap, key, victim);
            var q := if gone.Some? && gone.value.target != obj.target then FileOf(gone.value) else None;
            && Makes(c, s, Publish(t, victim), Pushed(s.lru, c.cap, key, obj, victim), s.cnt, s.disk,
                     Moved(s.tasks, t, Remove(q)))
            && key in Pushed(s.lru, c.cap, key, obj, victim) && Pushed(s.lru, c.cap, key, obj, victim)[key] == obj
  {
    hide Apply;
    Dispatch(c, s, Publish(t, victim));
  }

  lemma UncountEffect(c: Config, s: State, t: TaskId)
    requires s.total == |s.lru| && t in s.tasks && s.tasks[t].Uncounting?
    ensures Makes(c, s, Uncount(t), s.lru, Uncounted(s.cnt), s.disk, s.tasks[t := Unlinking(s.tasks[t].path)])
  {
    hide Apply;
    Dispatch(c, s, Uncount(t));
  }

  lemma UnlinkEffect(c: Config, s: State, t: TaskId, unlinked: bool)
    requires s.total == |s.lru| && t in s.tasks && s.tasks[t].Unlinking?
    ensures Makes(c, s, Unlink(t, unlinked), s.lru, s.cnt, if unlinked then s.disk - {s.tasks[t].path} else s.disk,
                  s.tasks - {t})
  {
    hide Apply;
    Dispatch(c, s, Unlink(t, unlinked));
  }

  lemma RemoveSteps(c: Config, s: State, t: TaskId, unlinked: bool) returns (s': State)
    requires s.total == |s.lru| && t in s.tasks && s.tasks[t].Uncounting?
    ensures Run(c, s, [Uncount(t), Unlink(t, unlinked)], s')
    ensures s'.lru == s.lru && s'.total == s.total && s'.poisoned == s.poisoned && s'.cnt == Uncounted(s.cnt)
    ensures s'.disk == (if unlinked then s.disk - {s.tasks[t].path} else s.disk) && s'.tasks == s.tasks - {t}
  {
    hide Run, Apply, Enabled;
    UncountEffect(c, s, t);
    var s1 := Apply(c, s, Uncount(t));
    UnlinkEffect(c, s1, t, unlinked);
    TwoSteps(c, s, Uncount(t), Unlink(t, unlinked));
    UpdateThenRemove(s.tasks, t, s1.tasks[t]);
    s' := Apply(c, s1, Unlink(t, unlinked));
  }

  lemma LookupEffect(c: Config, s: State, t: TaskId, key: Key)
    requires s.total == |s.lru| && t !in s.tasks && !s.poisoned && key in s.lru
    ensures Makes(c, s, Lookup(t, key), s.lru, s.cnt, s.disk, s.tasks[t := Holding(key, s.lru[key])])
    ensures Apply(c, s, Lookup(t, key)).served == s.served
  {
    hide Apply;
    Dispatch(c, s, Lookup(t, key));
  }

  lemma ServeEffect(c: Config, s: State, t: TaskId)
    requires s.total == |s.lru| && t in s.tasks && s.tasks[t].Holding? && s.tasks[t].obj.target.OnMemory?
    ensures Makes(c, s, ServeMemory(t), s.lru, s.cnt, s.disk, s.tasks - {t})
    ensures Apply(c, s, ServeMemory(t)).served == s.served + [FromMemory(s.tasks[t].key, s.tasks[t].obj.target.bytes)]
  {
    hide Apply;
    Dispatch(c, s, ServeMemory(t));
  }

  lemma OpenEffect(c: Config, s: State, t: TaskId)
    requires s.total == |s.lru| && t in s.tasks && s.tasks[t].Holding?
    requires s.tasks[t].obj.target.File? && s.tasks[t].obj.target.path in s.disk
    ensures var Holding(key, obj) := s.tasks[t];
            Makes(c, s, OpenFile(t), s.lru, s.cnt, s.disk, s.tasks[t := Reading(key, obj, s.disk[obj.target.path], [])])
  {
    hide Apply;
    Dispatch(c, s, OpenFile(t));
  }

  lemma GiveUpEffect(c: Config, s: State, t: TaskId)
    requires s.total == |s.lru| && t in s.tasks && s.tasks[t].Holding?
    ensures Makes(c, s, GiveUp(t), s.lru, s.cnt, s.disk, s.tasks[t := Evicting(s.tasks[t].key, s.tasks[t].obj)])
  {
    hide Apply;
    Dispatch(c, s, GiveUp(t));
  }

  lemma EvictEffect(c: Config, s: State, t: TaskId)
    requires s.total == |s.lru| && t in s.tasks && s.tasks[t].Evicting?
    ensures var Evicting(key, obj) := s.tasks[t];
            if !s.poisoned && StillCurrent(s.lru, key, obj.generation)
            then Makes(c, s, EvictEntry(t), s.lru - {key}, s.cnt, s.disk, Moved(s.tasks, t, Remove(FileOf(obj))))
            else Makes(c, s, EvictEntry(t), s.lru, s.cnt, s.disk, Moved(s.tasks, t, Remove(None)))
  {
    hide Apply;
    Dispatch(c, s, EvictEntry(t));
  }

  lemma MovedRemove(tasks: map<TaskId, Task>, t: TaskId, q: Option<Path>)
    ensures var tasks' := Moved(tasks, t, Remove(q));
            if q.None? then tasks' == tasks - {t}
            else t in tasks' && tasks'[t] == Uncounting(q.value) && tasks' - {t} == tasks - {t}
  {
  }

  lemma UpdateThenRemove(tasks: map<TaskId, Task>, t: TaskId, task: Task)
    ensures tasks[t := task] - {t} == tasks - {t} && (t !in tasks ==> tasks - {t} == tasks)
  {
  }

  /** The reader that a hit on a file leaves behind; every other lookup is over. */
  ghost predicate Leaves(tasks: map<TaskId, Task>, t: TaskId, key: Key, obj: CacheObject, r: Hit,
                         tasks': map<TaskId, Task>)
  {
    match r
    case Handle(content) => tasks' == tasks[t := Reading(key, obj, content, [])]
    case _ => tasks' == tasks - {t}
  }

  lemma NothingFound(tasks: map<TaskId, Task>, lru: LruMap, t: TaskId, key: Key)
    requires t !in tasks
    ensures if key in lru then Leaves(tasks, t, key, lru[key], Miss, tasks) else lru - {key} == lru
  {
  }

  lemma LeavesAfterLookup(tasks: map<TaskId, Task>, t: TaskId, key: Key, obj: CacheObject, r: Hit,
                          tasks': map<TaskId, Task>)
    requires Leaves(tasks[t := Holding(key, obj)], t, key, obj, r, tasks')
    ensures Leaves(tasks, t, key, obj, r, tasks')
  {
  }

  lemma ThreeRuns(c: Config, s: State, a: seq<Action>, s1: State, b: seq<Action>, s2: State, d: seq<Action>, s3: State)
    requires Run(c, s, a, s1) && Run(c, s1, b, s2) && Run(c, s2, d, s3)
    ensures Run(c, s, a + b + d, s3)
  {
    hide Run;
    RunsJoin(c, s, a, s1, b, s2);
    RunsJoin(c, s, a + b, s2, d, s3);
  }

  /* ----------------------------------------- runs ----------------------------------------- */

  lemma NoStep(c: Config, s: State)
    ensures Run(c, s, [], s)
  {
  }

  lemma OneStep(c: Config, s: State, a: Action)
    requires Enabled(c, s, a)
    ensures Run(c, s, [a], Apply(c, s, a))
  {
    assert Run(c, s, [], s);
    RunAppend(c, s, [], s, a);
    assert [] + [a] == [a];
  }

  lemma TwoSteps(c: Config, s: State, a: Action, b: Action)
    requires Enabled(c, s, a) && Enabled(c, Apply(c, s, a), b)
    ensures Run(c, s, [a, b], Apply(c, Apply(c, s, a), b))
  {
    OneStep(c, s, a);
    RunAppend(c, s, [a], Apply(c, s, a), b);
    assert [a] + [b] == [a, b];
  }

  lemma {:induction false} RunsJoin(c: Config, s: State, acts: seq<Action>, mid: State, more: seq<Action>, end: State)
    requires Run(c, s, acts, mid) && Run(c, mid, more, end)
    ensures Run(c, s, acts + more, end)
    decreases |acts|
  {
    hide Enabled, Apply;
    if acts == [] {
      assert acts + more == more;
    } else {
      RunsJoin(c, Apply(c, s, acts[0]), acts[1..], mid, more, end);
      assert (acts + more)[1..] == acts[1..] + more;
    }
  }
}
