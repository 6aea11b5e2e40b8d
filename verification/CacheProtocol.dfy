/** The publish / get / evict protocol of the cache as a transition system: any number of tasks,
    each at one program point, interleave at the granularity of one mutex section, one atomic
    operation or one file-system call. All nondeterminism (which entry an LRU push displaces, I/O
    failures, read chunking, staleness, tampering with the cache directory, a poisoned mutex) is in
    the action, so a run is a sequence of actions. */
module CacheProtocol {
  import opened Wrappers
  import opened Machine
  import opened CacheTypes
  import opened CacheStore
  import opened CacheRead
  import opened CacheSpool

  type TaskId = nat

  datatype Config = Config(cap: nat, hash: Bytes -> Digest)

  /** Where a task is. A reader has an open handle with `content` under it, and `looks` is what its read
      calls returned. `Spooling` .. `Counted` is a store, `Holding` .. `Discarding` a get;
      `Uncounting` and `Unlinking` are the two steps of `FileStore::remove`, reached from both. */
  datatype Task =
    | Spooling(key: Key, path: Path)
    | Stored(key: Key, target: Target, hash: Digest)
    | Built(key: Key, obj: CacheObject)
    | Counted(key: Key, obj: CacheObject)
    | Holding(key: Key, obj: CacheObject)
    | Evicting(key: Key, obj: CacheObject)
    | Reading(key: Key, obj: CacheObject, content: Bytes, looks: seq<Look>)
    | Discarding(path: Path)
    | Uncounting(path: Path)
    | Unlinking(path: Path)

  datatype Owner = Entry(key: Key) | InFlight(task: TaskId)

  /** A response body that came to its end. The chunks of a file are sent as they are read, so that its
      hash can no longer hold anything back. */
  datatype Response =
    | FromMemory(key: Key, bytes: Bytes)
    | FromFile(key: Key, obj: CacheObject, bytes: Bytes, looks: seq<Look>)

  /** The last nine fields are history: no step's guard reads them. */
  datatype State = State(
    lru: LruMap,
    total: nat,
    cnt: nat,
    nextSerial: nat,
    temps: set<Path>,
    disk: map<Path, Bytes>,
    tasks: map<TaskId, Task>,
    poisoned: bool,
    issued: seq<(Key, CacheObject)>,
    committed: map<Path, (Key, Bytes)>,
    bodies: set<(Key, Bytes)>,
    owner: map<Path, Owner>,
    uncounts: multiset<Path>,
    tampered: set<Path>,
    lost: set<Path>,
    discarded: set<Path>,
    served: seq<Response>)

  const Init: State := State(map[], 0, 0, 0, {}, map[], map[], false, [], map[], {}, map[], multiset{}, {}, {}, {}, [])

  datatype Action =
    | BeginSpill(t: TaskId, key: Key, nanos: nat)
    | AbortSpill(t: TaskId, unlinked: bool)
    | CommitSpill(t: TaskId, frames: seq<Frame>)
    | KeepOnMemory(t: TaskId, key: Key, frames: seq<Frame>)
    | Build(t: TaskId)
    | Count(t: TaskId)
    | PublishFails(t: TaskId)
    | Publish(t: TaskId, victim: Key)
    | Lookup(t: TaskId, key: Key)
    | GiveUp(t: TaskId)
    | ServeMemory(t: TaskId)
    | OpenFile(t: TaskId)
    | ReadChunk(t: TaskId, n: nat)
    | ReadEnds(t: TaskId, eof: bool)
    | ReceiverGone(t: TaskId)
    | EvictEntry(t: TaskId)
    | Uncount(t: TaskId)
    | Unlink(t: TaskId, unlinked: bool)
    | Discard(t: TaskId, unlinked: bool)
    | Poison
    | Tamper(path: Path, content: Option<Bytes>)
    | Overwrite(t: TaskId, bytes: Bytes)

  /** `GiveUp` covers both reasons a get turns to eviction: a stale policy, for any target, and a
      file that cannot be opened. Nothing forces a present file to open. */
  predicate Enabled(c: Config, s: State, a: Action) {
    match a
    case BeginSpill(t, _, _) => t !in s.tasks
    case AbortSpill(t, _) => t in s.tasks && s.tasks[t].Spooling?
    case CommitSpill(t, frames) => t in s.tasks && s.tasks[t].Spooling? && Complete(frames)
    case KeepOnMemory(t, _, frames) => t !in s.tasks && Complete(frames)
    case Build(t) => t in s.tasks && s.tasks[t].Stored?
    case Count(t) => t in s.tasks && s.tasks[t].Built?
    case PublishFails(t) => t in s.tasks && s.tasks[t].Counted? && s.poisoned
    case Publish(t, victim) =>
      t in s.tasks && s.tasks[t].Counted? && !s.poisoned && CanPush(s.lru, c.cap, s.tasks[t].key, victim)
    case Lookup(t, key) => t !in s.tasks && !s.poisoned && key in s.lru
    case GiveUp(t) => t in s.tasks && s.tasks[t].Holding?
    case ServeMemory(t) => t in s.tasks && s.tasks[t].Holding? && s.tasks[t].obj.target.OnMemory?
    case OpenFile(t) =>
      t in s.tasks && s.tasks[t].Holding? && s.tasks[t].obj.target.File? && s.tasks[t].obj.target.path in s.disk
    case ReadChunk(t, n) =>
      && t in s.tasks && s.tasks[t].Reading? && s.tasks[t].obj.target.File?
      && n > 0 && Shows(Look(s.tasks[t].content, n), Total(s.tasks[t].looks))
    case ReadEnds(t, eof) =>
      && t in s.tasks && s.tasks[t].Reading? && s.tasks[t].obj.target.File?
      && (eof ==> Shows(Look(s.tasks[t].content, 0), Total(s.tasks[t].looks)))
    case ReceiverGone(t) => t in s.tasks && s.tasks[t].Reading?
    case EvictEntry(t) => t in s.tasks && s.tasks[t].Evicting?
    case Uncount(t) => t in s.tasks && s.tasks[t].Uncounting?
    case Unlink(t, _) => t in s.tasks && s.tasks[t].Unlinking?
    case Discard(t, _) => t in s.tasks && s.tasks[t].Discarding?
    case Poison => true
    case Tamper(path, _) => path in s.committed
    case Overwrite(t, _) => t in s.tasks && s.tasks[t].Reading? && s.tasks[t].obj.target.File?
  }

  /** A store before its push. */
  predicate IsStore(a: Action) {
    a.BeginSpill? || a.AbortSpill? || a.CommitSpill? || a.KeepOnMemory? || a.Build? || a.Count? || a.PublishFails?
  }

  /** A get before its eviction: only `tasks` and `served` move. */
  predicate IsGet(a: Action) {
    a.Lookup? || a.GiveUp? || a.ServeMemory? || a.OpenFile? || a.ReadChunk? || a.ReadEnds? || a.ReceiverGone?
  }

  predicate IsRemoval(a: Action) {
    a.Uncount? || a.Unlink? || a.Discard?
  }

  /** What is not rpxy's doing. A file changed in place is a `Tamper` of its name and an `Overwrite` of
      every open handle. */
  predicate IsWorld(a: Action) {
    a.Poison? || a.Tamper? || a.Overwrite?
  }

  function Moved(tasks: map<TaskId, Task>, t: TaskId, next: Option<Task>): map<TaskId, Task> {
    if next.Some? then tasks[t := next.value] else tasks - {t}
  }

  /** The task's next program point, `None` when it is done. */
  function NextStore(c: Config, s: State, a: Action): Option<Task>
    requires Enabled(c, s, a) && IsStore(a)
  {
    match a
    case BeginSpill(_, key, nanos) => Some(Spooling(key, Path(key, nanos, s.nextSerial)))
    case AbortSpill(_, _) => None
    case CommitSpill(t, frames) => Some(Stored(s.tasks[t].key, File(s.tasks[t].path), c.hash(Body(frames))))
    case KeepOnMemory(_, key, frames) => Some(Stored(key, OnMemory(Body(frames)), c.hash(Body(frames))))
    case Build(t) => Some(Built(s.tasks[t].key, CacheObject(s.tasks[t].target, s.tasks[t].hash, |s.issued|)))
    case Count(t) => Some(Counted(s.tasks[t].key, s.tasks[t].obj))
    case PublishFails(t) =>
      if s.tasks[t].obj.target.File? then Some(Uncounting(s.tasks[t].obj.target.path)) else None
  }

  function ApplyStore(c: Config, s: State, a: Action): State
    requires Enabled(c, s, a) && IsStore(a)
  {
    var s1 := s.(tasks := Moved(s.tasks, a.t, NextStore(c, s, a)));
    match a
    case BeginSpill(t, key, nanos) =>
      var p := Path(key, nanos, s.nextSerial);
      s1.(nextSerial := s.nextSerial + 1, temps := s.temps + {p}, owner := s.owner[p := InFlight(t)])
    case AbortSpill(t, unlinked) =>
      var p := s.tasks[t].path;
      s1.(temps := if unlinked then s.temps - {p} else s.temps, lost := if unlinked then s.lost else s.lost + {p},
          owner := s.owner - {p})
    case CommitSpill(t, frames) =>
      var Spooling(key, p) := s.tasks[t];
      var body := Body(frames);
      s1.(temps := s.temps - {p}, disk := s.disk[p := body], committed := s.committed[p := (key, body)],
          bodies := s.bodies + {(key, body)})
    case KeepOnMemory(t, key, frames) =>
      s1.(bodies := s.bodies + {(key, Body(frames))})
    case Build(t) =>
      s1.(issued := s.issued + [(s.tasks[t].key, CacheObject(s.tasks[t].target, s.tasks[t].hash, |s.issued|))])
    case Count(t) =>
      s1.(cnt := if s.tasks[t].obj.target.File? then s.cnt + 1 else s.cnt)
    case PublishFails(t) =>
      s1
  }

  /** The read calls of a reader that ends: the last one found the end of the file, or failed. */
  function AllLooks(task: Task, eof: bool): seq<Look>
    requires task.Reading?
  {
    if eof then task.looks + [Look(task.content, 0)] else task.looks
  }

  function NextGet(c: Config, s: State, a: Action): Option<Task>
    requires Enabled(c, s, a) && IsGet(a)
  {
    match a
    case Lookup(t, key) => Some(Holding(key, s.lru[key]))
    case GiveUp(t) => Some(Evicting(s.tasks[t].key, s.tasks[t].obj))
    case ServeMemory(t) => None
    case OpenFile(t) => Some(Reading(s.tasks[t].key, s.tasks[t].obj, s.disk[s.tasks[t].obj.target.path], []))
    case ReadChunk(t, n) => Some(s.tasks[t].(looks := s.tasks[t].looks + [Look(s.tasks[t].content, n)]))
    case ReadEnds(t, eof) =>
      if c.hash(Got(AllLooks(s.tasks[t], eof))) == s.tasks[t].obj.hash then None
      else Some(Discarding(s.tasks[t].obj.target.path))
    case ReceiverGone(t) => None
  }

  /** An on-memory body is delivered as it is, a file body as it was read, whatever its hash. */
  function Delivered(c: Config, s: State, a: Action): seq<Response>
    requires Enabled(c, s, a) && IsGet(a)
  {
    match a
    case ServeMemory(t) => [FromMemory(s.tasks[t].key, s.tasks[t].obj.target.bytes)]
    case ReadEnds(t, eof) =>
      var looks := AllLooks(s.tasks[t], eof);
      [FromFile(s.tasks[t].key, s.tasks[t].obj, Got(looks), looks)]
    case _ => []
  }

  function ApplyGet(c: Config, s: State, a: Action): State
    requires Enabled(c, s, a) && IsGet(a)
  {
    s.(tasks := Moved(s.tasks, a.t, NextGet(c, s, a)), served := s.served + Delivered(c, s, a))
  }

  function NextRemoval(c: Config, s: State, a: Action): Option<Task>
    requires Enabled(c, s, a) && IsRemoval(a)
  {
    if a.Uncount? then Some(Unlinking(s.tasks[a.t].path)) else None
  }

  function ApplyRemoval(c: Config, s: State, a: Action): State
    requires Enabled(c, s, a) && IsRemoval(a)
  {
    var p := s.tasks[a.t].path;
    var s1 := s.(tasks := Moved(s.tasks, a.t, NextRemoval(c, s, a)));
    match a
    case Uncount(t) =>
      s1.(cnt := Uncounted(s.cnt), uncounts := s.uncounts + multiset{p})
    case Unlink(t, unlinked) =>
      s1.(disk := if unlinked then s.disk - {p} else s.disk, lost := if unlinked then s.lost else s.lost + {p},
          owner := s.owner - {p})
    case Discard(t, unlinked) =>
      s1.(disk := if unlinked then s.disk - {p} else s.disk, discarded := s.discarded + {p})
  }

  function ApplyWorld(c: Config, s: State, a: Action): State
    requires Enabled(c, s, a) && IsWorld(a)
  {
    match a
    case Poison =>
      s.(poisoned := true)
    case Tamper(p, content) =>
      s.(disk := if content.Some? then s.disk[p := content.value] else s.disk - {p},
         tampered := s.tampered + {p})
    case Overwrite(t, bytes) =>
      s.(tasks := Moved(s.tasks, t, Some(s.tasks[t].(content := bytes))),
         tampered := s.tampered + {s.tasks[t].obj.target.path})
  }

  function FileOf(obj: CacheObject): Option<Path> {
    if obj.target.File? then Some(obj.target.path) else None
  }

  function Assign(owner: map<Path, Owner>, p: Option<Path>, who: Owner): map<Path, Owner> {
    if p.Some? then owner[p.value := who] else owner
  }

  /** A task that took a counted file out of the LRU goes on to remove it. */
  function Remove(q: Option<Path>): Option<Task> {
    if q.Some? then Some(Uncounting(q.value)) else None
  }

  /** The displaced entry's file, unless it is the very file being published. */
  function DisplacedFile(c: Config, s: State, key: Key, obj: CacheObject, victim: Key): Option<Path> {
    var gone := Displaced(s.lru, c.cap, key, victim);
    if gone.Some? && gone.value.target != obj.target then FileOf(gone.value) else None
  }

  function ApplyPublish(c: Config, s: State, t: TaskId, victim: Key): State
    requires Enabled(c, s, Publish(t, victim))
  {
    var Counted(key, obj) := s.tasks[t];
    var q := DisplacedFile(c, s, key, obj, victim);
    var lru' := Pushed(s.lru, c.cap, key, obj, victim);
    s.(lru := lru', total := |lru'|, tasks := Moved(s.tasks, t, Remove(q)),
       owner := Assign(Assign(s.owner, FileOf(obj), Entry(key)), q, InFlight(t)))
  }

  predicate Evicts(s: State, t: TaskId)
    requires t in s.tasks && s.tasks[t].Evicting?
  {
    !s.poisoned && StillCurrent(s.lru, s.tasks[t].key, s.tasks[t].obj.generation)
  }

  function ApplyEvict(c: Config, s: State, t: TaskId): State
    requires Enabled(c, s, EvictEntry(t))
  {
    var Evicting(key, obj) := s.tasks[t];
    if !Evicts(s, t) then
      s.(tasks := Moved(s.tasks, t, None))
    else
      var lru' := s.lru - {key};
      s.(lru := lru', total := |lru'|, tasks := Moved(s.tasks, t, Remove(FileOf(obj))),
         owner := Assign(s.owner, FileOf(obj), InFlight(t)))
  }

  function Apply(c: Config, s: State, a: Action): State
    requires Enabled(c, s, a)
  {
    if IsStore(a) then ApplyStore(c, s, a)
    else if IsGet(a) then ApplyGet(c, s, a)
    else if IsRemoval(a) then ApplyRemoval(c, s, a)
    else if IsWorld(a) then ApplyWorld(c, s, a)
    else if a.Publish? then ApplyPublish(c, s, a.t, a.victim)
    else ApplyEvict(c, s, a.t)
  }

  /** The run that takes `acts` from `start` is possible and ends in `end`. */
  ghost predicate Run(c: Config, start: State, acts: seq<Action>, end: State)
    decreases |acts|
  {
    if acts == [] then start == end
    else Enabled(c, start, acts[0]) && Run(c, Apply(c, start, acts[0]), acts[1..], end)
  }

  ghost predicate Reachable(c: Config, s: State) {
    exists acts :: Run(c, Init, acts, s)
  }

  lemma {:induction false} RunAppend(c: Config, start: State, acts: seq<Action>, mid: State, a: Action)
    requires Run(c, start, acts, mid) && Enabled(c, mid, a)
    ensures Run(c, start, acts + [a], Apply(c, mid, a))
    decreases |acts|
  {
    hide Enabled, Apply;
    if acts == [] {
      assert (acts + [a])[1..] == [];
    } else {
      RunAppend(c, Apply(c, start, acts[0]), acts[1..], mid, a);
      assert (acts + [a])[1..] == acts[1..] + [a];
    }
  }

  lemma ReachableStep(c: Config, s: State, a: Action)
    requires Reachable(c, s) && Enabled(c, s, a)
    ensures Reachable(c, Apply(c, s, a))
  {
    hide Enabled, Apply, Run;
    var acts :| Run(c, Init, acts, s);
    RunAppend(c, Init, acts, s, a);
  }
}
