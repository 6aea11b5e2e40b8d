/** The streaming store joined to the protocol: whatever the outcome of `SpoolAndStore`, it is a run, and a
    body that it stored is what a later get delivers. */
module CacheEndToEnd {
  import opened Wrappers
  import opened Machine
  import opened CacheTypes
  import opened CacheStore
  import opened CacheSpool
  import opened CacheRead
  import opened CacheProtocol
  import opened CacheSafety
  import opened CacheMethods
  import opened CacheTheorems

  /** The cache directory holds the committed and the temporary files of the state. */
  ghost predicate Mirrors(dir: Directory, s: State) {
    forall p ::
      && (Final(p) in dir <==> p in s.disk)
      && (p in s.disk ==> dir[Final(p)] == s.disk[p])
      && (Temp(p) in dir <==> p in s.temps)
  }

  /* --------------------------------- the store as a run --------------------------------- */

  lemma BeginEffect(c: Config, s: State, t: TaskId, key: Key, nanos: nat)
    requires t !in s.tasks
    ensures var p, s' := Path(key, nanos, s.nextSerial), Apply(c, s, BeginSpill(t, key, nanos));
            && s'.tasks == s.tasks[t := Spooling(key, p)] && s'.temps == s.temps + {p} && s'.disk == s.disk
            && s'.lru == s.lru && s'.poisoned == s.poisoned && s'.served == s.served
  {
    hide Apply;
    Dispatch(c, s, BeginSpill(t, key, nanos));
  }

  lemma CommitEffect(c: Config, s: State, t: TaskId, frames: seq<Frame>)
    requires t in s.tasks && s.tasks[t].Spooling? && Complete(frames)
    ensures var Spooling(key, p) := s.tasks[t];
            var s' := Apply(c, s, CommitSpill(t, frames));
            && s'.tasks == s.tasks[t := Stored(key, File(p), c.hash(Body(frames)))] && s'.temps == s.temps - {p}
            && s'.disk == s.disk[p := Body(frames)] && s'.committed == s.committed[p := (key, Body(frames))]
            && s'.lru == s.lru && s'.poisoned == s.poisoned && s'.served == s.served
  {
    hide Apply, Body, Complete;
    Dispatch(c, s, CommitSpill(t, frames));
  }

  lemma AbortEffect(c: Config, s: State, t: TaskId)
    requires t in s.tasks && s.tasks[t].Spooling?
    ensures var s' := Apply(c, s, AbortSpill(t, false));
            && s'.tasks == s.tasks - {t} && s'.temps == s.temps && s'.disk == s.disk
            && s'.lru == s.lru && s'.poisoned == s.poisoned && s'.served == s.served
  {
    hide Apply;
    Dispatch(c, s, AbortSpill(t, false));
  }

  lemma KeepEffect(c: Config, s: State, t: TaskId, key: Key, frames: seq<Frame>)
    requires t !in s.tasks && Complete(frames)
    ensures var s' := Apply(c, s, KeepOnMemory(t, key, frames));
            && s'.tasks == s.tasks[t := Stored(key, OnMemory(Body(frames)), c.hash(Body(frames)))]
            && s'.temps == s.temps && s'.disk == s.disk
            && s'.lru == s.lru && s'.poisoned == s.poisoned && s'.served == s.served
  {
    hide Apply, Body, Complete;
    Dispatch(c, s, KeepOnMemory(t, key, frames));
  }

  /** What a store leaves untouched, and where its task is afterwards. */
  ghost predicate Spooled(s: State, s': State, t: TaskId, key: Key, stored: Option<(Target, Digest)>) {
    && s'.tasks == (if stored.Some? then s.tasks[t := Stored(key, stored.value.0, stored.value.1)] else s.tasks)
    && s'.lru == s.lru && s'.poisoned == s.poisoned && s'.served == s.served
  }

  lemma MemoryRun(c: Config, s: State, t: TaskId, key: Key, frames: seq<Frame>) returns (s': State)
    requires t !in s.tasks && Complete(frames)
    ensures Run(c, s, [KeepOnMemory(t, key, frames)], s') && s'.disk == s.disk && s'.temps == s.temps
    ensures Spooled(s, s', t, key, Some((OnMemory(Body(frames)), c.hash(Body(frames)))))
  {
    hide Run, Apply, Body, Complete;
    KeepEffect(c, s, t, key, frames);
    OneStep(c, s, KeepOnMemory(t, key, frames));
    s' := Apply(c, s, KeepOnMemory(t, key, frames));
  }

  lemma FileRun(c: Config, s: State, t: TaskId, key: Key, nanos: nat, frames: seq<Frame>) returns (s': State)
    requires t !in s.tasks && Complete(frames)
    ensures var p := Path(key, nanos, s.nextSerial);
            && Run(c, s, [BeginSpill(t, key, nanos), CommitSpill(t, frames)], s')
            && s'.disk == s.disk[p := Body(frames)] && s'.temps == s.temps + {p} - {p}
            && p in s'.committed && s'.committed[p] == (key, Body(frames))
            && Spooled(s, s', t, key, Some((File(p), c.hash(Body(frames)))))
  {
    hide Run, Apply, Body, Complete;
    BeginEffect(c, s, t, key, nanos);
    var s1 := Apply(c, s, BeginSpill(t, key, nanos));
    CommitEffect(c, s1, t, frames);
    TwoSteps(c, s, BeginSpill(t, key, nanos), CommitSpill(t, frames));
    s' := Apply(c, s1, CommitSpill(t, frames));
  }

  lemma AbortRun(c: Config, s: State, t: TaskId, key: Key, nanos: nat) returns (s': State)
    requires t !in s.tasks
    ensures Run(c, s, [BeginSpill(t, key, nanos), AbortSpill(t, false)], s')
    ensures s'.disk == s.disk && s'.temps == s.temps + {Path(key, nanos, s.nextSerial)}
    ensures Spooled(s, s', t, key, None)
  {
    hide Run, Apply;
    BeginEffect(c, s, t, key, nanos);
    var s1 := Apply(c, s, BeginSpill(t, key, nanos));
    AbortEffect(c, s1, t);
    TwoSteps(c, s, BeginSpill(t, key, nanos), AbortSpill(t, false));
    s' := Apply(c, s1, AbortSpill(t, false));
    UpdateThenRemove(s.tasks, t, Spooling(key, Path(key, nanos, s.nextSerial)));
  }

  lemma MirrorsCommit(dir: Directory, s: State, s': State, p: Path, body: Bytes)
    requires Mirrors(dir, s) && Temp(p) !in dir && s'.disk == s.disk[p := body] && s'.temps == s.temps + {p} - {p}
    ensures Mirrors(dir[Final(p) := body], s')
  {
  }

  lemma MirrorsLeftover(before: Directory, dir: Directory, s: State, s': State, p: Path)
    requires Mirrors(before, s) && Temp(p) in dir && dir - {Temp(p)} == before - {Temp(p)}
    requires s'.disk == s.disk && s'.temps == s.temps + {p}
    ensures Mirrors(dir, s')
  {
    forall q
      ensures Final(q) in dir <==> q in s'.disk
      ensures q in s'.disk ==> dir[Final(q)] == s'.disk[q]
      ensures Temp(q) in dir <==> q in s'.temps
    {
      assert Final(q) in dir <==> Final(q) in dir - {Temp(p)};
      assert Final(q) in before <==> Final(q) in before - {Temp(p)};
      assert Final(q) in dir ==> (dir - {Temp(p)})[Final(q)] == dir[Final(q)];
      assert q != p ==> (Temp(q) in dir <==> Temp(q) in dir - {Temp(p)});
      assert q != p ==> (Temp(q) in before <==> Temp(q) in before - {Temp(p)});
    }
  }

  lemma SpilledIsFree(st: Store, frames: seq<Frame>)
    requires st.Caches(frames) && !Fits(|Body(frames)|, st.onMemory)
    ensures st.Free()
  {
  }

  /** However a store ends, with an object or with a failure at any point, it is a run of the protocol that
      leaves the same directory behind. */
  lemma StoreIsARun(c: Config, s: State, t: TaskId, key: Key, nanos: nat, st: Store, frames: seq<Frame>,
                    stored: Option<(Target, Digest)>, dir: Directory) returns (acts: seq<Action>, s': State)
    requires t !in s.tasks && Mirrors(st.before, s) && st.path == Path(key, nanos, s.nextSerial)
    requires st.Ends(frames, c.hash, stored, dir)
    ensures Run(c, s, acts, s') && Mirrors(dir, s') && Spooled(s, s', t, key, stored)
    ensures acts ==
              if stored.None? then (if dir == st.before then [] else [BeginSpill(t, key, nanos), AbortSpill(t, false)])
              else if stored.value.0.OnMemory? then [KeepOnMemory(t, key, frames)]
              else [BeginSpill(t, key, nanos), CommitSpill(t, frames)]
    ensures stored.Some? && stored.value.0.File? ==>
              st.path in s'.committed && s'.committed[st.path] == (key, Body(frames))
  {
    hide Run, Body, Complete, Spills, Fits;
    if stored.None? {
      if dir == st.before {
        acts, s' := [], s;
        NoStep(c, s);
      } else {
        s' := AbortRun(c, s, t, key, nanos);
        acts := [BeginSpill(t, key, nanos), AbortSpill(t, false)];
        MirrorsLeftover(st.before, dir, s, s', st.path);
      }
    } else if stored.value.0.OnMemory? {
      s' := MemoryRun(c, s, t, key, frames);
      acts := [KeepOnMemory(t, key, frames)];
    } else {
      SpilledIsFree(st, frames);
      s' := FileRun(c, s, t, key, nanos, frames);
      acts := [BeginSpill(t, key, nanos), CommitSpill(t, frames)];
      MirrorsCommit(st.before, s, s', st.path, Body(frames));
    }
  }

  /* ------------------------------ store, publish and get ------------------------------ */

  lemma BuildEffect(c: Config, s: State, t: TaskId)
    requires t in s.tasks && s.tasks[t].Stored?
    ensures var Stored(key, target, hash) := s.tasks[t];
            var s' := Apply(c, s, Build(t));
            && s'.tasks == s.tasks[t := Built(key, CacheObject(target, hash, |s.issued|))] && s'.total == s.total
            && s'.disk == s.disk && s'.lru == s.lru && s'.poisoned == s.poisoned
  {
    hide Apply;
    Dispatch(c, s, Build(t));
  }

  /** Build, count and publish a stored object. */
  lemma PublishRun(c: Config, s: State, t: TaskId, victim: Key) returns (s': State)
    requires s.total == |s.lru| && !s.poisoned && t in s.tasks && s.tasks[t].Stored?
    requires CanPush(s.lru, c.cap, s.tasks[t].key, victim)
    ensures Run(c, s, [Build(t), Count(t)] + [Publish(t, victim)], s')
    ensures var Stored(key, target, hash) := s.tasks[t];
            && key in s'.lru && s'.lru[key] == CacheObject(target, hash, |s.issued|)
            && s'.disk == s.disk && !s'.poisoned && s'.total == |s'.lru| && s'.tasks.Keys <= s.tasks.Keys
  {
    hide Run, Apply, Pushed, Displaced, CanPush;
    BuildEffect(c, s, t);
    var s1 := Apply(c, s, Build(t));
    CountEffect(c, s1, t);
    TwoSteps(c, s, Build(t), Count(t));
    var s2 := Apply(c, s1, Count(t));
    PublishEffect(c, s2, t, victim);
    OneStep(c, s2, Publish(t, victim));
    s' := Apply(c, s2, Publish(t, victim));
    RunsJoin(c, s, [Build(t), Count(t)], s2, [Publish(t, victim)], s');
  }

  lemma ServeRun(c: Config, s: State, u: TaskId, key: Key) returns (s': State)
    requires s.total == |s.lru| && !s.poisoned && u !in s.tasks && key in s.lru && s.lru[key].target.OnMemory?
    ensures Run(c, s, [Lookup(u, key), ServeMemory(u)], s')
    ensures s'.served != [] && Last(s'.served) == FromMemory(key, s.lru[key].target.bytes)
  {
    hide Run, Apply;
    LookupEffect(c, s, u, key);
    var s1 := Apply(c, s, Lookup(u, key));
    ServeEffect(c, s1, u);
    TwoSteps(c, s, Lookup(u, key), ServeMemory(u));
    s' := Apply(c, s1, ServeMemory(u));
  }

  lemma OpenRun(c: Config, s: State, u: TaskId, key: Key) returns (s': State)
    requires s.total == |s.lru| && !s.poisoned && u !in s.tasks && key in s.lru && s.lru[key].target.File?
    requires s.lru[key].target.path in s.disk
    ensures Run(c, s, [Lookup(u, key), OpenFile(u)], s')
    ensures u in s'.tasks && s'.tasks[u] == Reading(key, s.lru[key], s.disk[s.lru[key].target.path], [])
  {
    hide Run, Apply;
    LookupEffect(c, s, u, key);
    var s1 := Apply(c, s, Lookup(u, key));
    OpenEffect(c, s1, u);
    TwoSteps(c, s, Lookup(u, key), OpenFile(u));
    s' := Apply(c, s1, OpenFile(u));
  }

  /** The get of `u`: the body at once, or a reader at the start of it. */
  ghost predicate Answered(s: State, u: TaskId, key: Key, target: Target, body: Bytes) {
    match target
    case OnMemory(_) => s.served != [] && Last(s.served) == FromMemory(key, body)
    case File(path) =>
      && u in s.tasks && s.tasks[u].Reading? && s.tasks[u].key == key && s.tasks[u].obj.target == target
      && s.tasks[u].content == body && s.tasks[u].looks == []
  }

  /** Publish what `t` stored and look it up. */
  lemma PublishAndGet(c: Config, s: State, t: TaskId, u: TaskId, victim: Key, body: Bytes)
    returns (acts: seq<Action>, s': State)
    requires s.total == |s.lru| && !s.poisoned && t in s.tasks && s.tasks[t].Stored? && u !in s.tasks
    requires CanPush(s.lru, c.cap, s.tasks[t].key, victim)
    requires match s.tasks[t].target
             case OnMemory(bytes) => bytes == body
             case File(path) => path in s.disk && s.disk[path] == body
    ensures Run(c, s, acts, s') && Answered(s', u, s.tasks[t].key, s.tasks[t].target, body)
  {
    hide Run, CanPush;
    var Stored(key, target, hash) := s.tasks[t];
    var s1 := PublishRun(c, s, t, victim);
    acts := [Build(t), Count(t)] + [Publish(t, victim)];
    var more;
    if target.OnMemory? {
      s' := ServeRun(c, s1, u, key);
      more := [Lookup(u, key), ServeMemory(u)];
    } else {
      s' := OpenRun(c, s1, u, key);
      more := [Lookup(u, key), OpenFile(u)];
    }
    RunsJoin(c, s, acts, s1, more, s');
    acts := acts + more;
  }

  /* ------------------------------- whatever happens meanwhile ------------------------------- */

  lemma StepIsLater(c: Config, s: State, a: Action)
    requires Inv(c, s) && Enabled(c, s, a)
    ensures Later(s, Apply(c, s, a))
  {
    hide CountInv, OwnerInv, ObjectInv, DiskInv, UncountInv, ServedInv, Enabled, Apply;
    if IsGet(a) {
      Dispatch(c, s, a);
    } else {
      OnlyGetsServe(c, s, a);
    }
  }

  lemma {:induction false} RunIsLater(c: Config, s: State, acts: seq<Action>, s': State)
    requires Inv(c, s) && Run(c, s, acts, s')
    ensures Later(s, s')
    decreases |acts|
  {
    hide Inv, Apply, Enabled;
    if acts != [] {
      StepIsLater(c, s, acts[0]);
      InvKept(c, s, acts[0]);
      RunIsLater(c, Apply(c, s, acts[0]), acts[1..], s');
    }
  }

  lemma {:induction false} ReachableRun(c: Config, s: State, acts: seq<Action>, s': State)
    requires Reachable(c, s) && Run(c, s, acts, s')
    ensures Reachable(c, s')
  {
    hide Run;
    var before :| Run(c, Init, before, s);
    RunsJoin(c, Init, before, s, acts, s');
  }

  /** A reader of `path` that comes to the end of the file delivers `body`, and the file stays. */
  ghost predicate GivesBack(c: Config, s: State, v: TaskId, path: Path, key: Key, body: Bytes) {
    && Enabled(c, s, ReadEnds(v, true)) && s.tasks[v].obj.target == File(path) && path !in s.tampered
    ==>
    && Delivered(c, s, ReadEnds(v, true)) == [FromFile(key, s.tasks[v].obj, body, AllLooks(s.tasks[v], true))]
    && NextGet(c, s, ReadEnds(v, true)) == None
  }

  lemma ReaderOfCommitted(c: Config, s: State, v: TaskId)
    requires ObjectInv(c, s) && v in s.tasks && s.tasks[v].Reading?
    requires s.tasks[v].obj.target.File? && s.tasks[v].obj.target.path !in s.tampered
    ensures var path := s.tasks[v].obj.target.path;
            path in s.committed && s.committed[path] == (s.tasks[v].key, s.tasks[v].content)
  {
    assert TaskFaithful(c, s, s.tasks[v]);
    CommittedIfIssued(c, s, s.tasks[v].key, s.tasks[v].obj);
  }

  lemma CommittedIsGivenBack(c: Config, s: State, more: seq<Action>, s': State, v: TaskId, path: Path)
    requires 1 <= c.cap && Reachable(c, s) && path in s.committed && Run(c, s, more, s')
    ensures GivesBack(c, s', v, path, s.committed[path].0, s.committed[path].1)
  {
    hide Reachable, Run, Got, Inv, ObjectInv;
    ReachableInv(c, s);
    RunIsLater(c, s, more, s');
    ReachableRun(c, s, more, s');
    if Enabled(c, s', ReadEnds(v, true)) && s'.tasks[v].obj.target == File(path) && path !in s'.tampered {
      CompleteReadOfIntactFile(c, s', v);
      ReachableParts(c, s');
      ReaderOfCommitted(c, s', v);
    }
  }

  /** The counters are exact, and there is an entry to displace when the cache is full. */
  lemma RoomFor(c: Config, s: State, key: Key) returns (victim: Key)
    requires 1 <= c.cap && Reachable(c, s)
    ensures s.total == |s.lru| && CanPush(s.lru, c.cap, key, victim)
  {
    hide Reachable;
    ReachableInv(c, s);
    victim := key;
    if key !in s.lru && |s.lru| == c.cap {
      assert s.lru.Keys != {};
      victim :| victim in s.lru.Keys;
    }
  }

  lemma MirroredBody(st: Store, dir: Directory, s: State, frames: seq<Frame>, hash: Bytes -> Digest,
                     stored: Option<(Target, Digest)>)
    requires Mirrors(dir, s) && st.Ends(frames, hash, stored, dir) && stored.Some?
    ensures match stored.value.0
            case OnMemory(bytes) => bytes == Body(frames)
            case File(path) => path in s.disk && s.disk[path] == Body(frames)
  {
    hide Body;
    assert stored.value.0.File? ==> Final(st.path) in dir;
  }

  /** A body that was stored can be published and looked up, and is then what the get delivers: from memory
      at once, from a file to any reader that comes to its end, whatever other tasks do meanwhile and however
      the reads are cut, as long as nothing outside rpxy touches the file. */
  lemma StoredBodyIsServed(c: Config, s: State, t: TaskId, u: TaskId, key: Key, nanos: nat, st: Store,
                           frames: seq<Frame>, stored: Option<(Target, Digest)>, dir: Directory)
    returns (acts: seq<Action>, s': State)
    requires 1 <= c.cap && Reachable(c, s) && !s.poisoned
    requires t !in s.tasks && u !in s.tasks && t != u
    requires Mirrors(st.before, s) && st.path == Path(key, nanos, s.nextSerial)
    requires st.Ends(frames, c.hash, stored, dir) && stored.Some?
    ensures Run(c, s, acts, s') && Answered(s', u, key, stored.value.0, Body(frames))
    ensures stored.value.0.File? ==>
              forall more, s'', v | Run(c, s', more, s'') :: GivesBack(c, s'', v, st.path, key, Body(frames))
  {
    hide Run, Reachable, Body, CanPush, Mirrors, GivesBack, Answered;
    var first, s1 := StoreIsARun(c, s, t, key, nanos, st, frames, stored, dir);
    ReachableRun(c, s, first, s1);
    var victim := RoomFor(c, s1, key);
    MirroredBody(st, dir, s1, frames, c.hash, stored);
    var second;
    second, s' := PublishAndGet(c, s1, t, u, victim, Body(frames));
    acts := first + second;
    RunsJoin(c, s, first, s1, second, s');
    if stored.value.0.File? {
      forall more, s'', v | Run(c, s', more, s'')
        ensures GivesBack(c, s'', v, st.path, key, Body(frames))
      {
        RunsJoin(c, s1, second, s', more, s'');
        CommittedIsGivenBack(c, s1, second + more, s'', v, st.path);
      }
    }
  }
}
