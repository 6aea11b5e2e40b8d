/** What the cache promises, over every reachable state of `CacheProtocol`. */
module CacheTheorems {
  import opened Wrappers
  import opened Machine
  import opened CacheTypes
  import opened CacheStore
  import opened CacheRead
  import opened CacheProtocol
  import opened CacheSafety

  ghost predicate Quiescent(s: State) {
    s.tasks == map[]
  }

  /** The file count is the live file entries, plus the files counted but not yet published, plus
      those removed but not yet given back; so the saturating decrement is an exact one, and at
      quiescence both counters are exact. */
  lemma FileCountIsExact(c: Config, s: State)
    requires 1 <= c.cap && Reachable(c, s)
    ensures s.cnt == |FileEntries(s.lru)| + |CountHolders(s.tasks)|
    ensures forall t | t in s.tasks && s.tasks[t].Uncounting? :: Uncounted(s.cnt) == s.cnt - 1
    ensures s.total == |s.lru| <= c.cap
    ensures Quiescent(s) ==> s.cnt == |FileEntries(s.lru)| && s.total - s.cnt == |s.lru.Keys - FileEntries(s.lru)|
  {
    ReachableInv(c, s);
    forall t | t in s.tasks && s.tasks[t].Uncounting?
      ensures Uncounted(s.cnt) == s.cnt - 1
    {
      CountIsPositive(c, s, t);
    }
    if Quiescent(s) {
      assert CountHolders(s.tasks) == {};
      assert FileEntries(s.lru) <= s.lru.Keys;
    }
  }

  /** An entry or a task that holds a file is the only one to hold it. */
  lemma OwnersAreUnique(c: Config, s: State, a: Owner, b: Owner)
    requires 1 <= c.cap && Reachable(c, s)
    requires Claim(s.lru, s.tasks, a).Some? && Claim(s.lru, s.tasks, a) == Claim(s.lru, s.tasks, b)
    ensures a == b
  {
    ReachableInv(c, s);
    assert Owned(s.owner, Claim(s.lru, s.tasks, a).value, a);
    assert Owned(s.owner, Claim(s.lru, s.tasks, b).value, b);
  }

  /** In every reachable state a file on disk belongs to exactly one LRU entry or task, unless an unlink
      failed on it or something outside rpxy put it there. */
  lemma EveryFileHasOneOwner(c: Config, s: State, p: Path)
    requires 1 <= c.cap && Reachable(c, s) && p in s.disk && p !in s.lost && p !in s.tampered
    ensures exists who :: Claim(s.lru, s.tasks, who) == Some(p)
    ensures forall a, b :: Claim(s.lru, s.tasks, a) == Claim(s.lru, s.tasks, b) == Some(p) ==> a == b
  {
    ReachableInv(c, s);
    assert Claim(s.lru, s.tasks, s.owner[p]) == Some(p);
    forall a, b | Claim(s.lru, s.tasks, a) == Claim(s.lru, s.tasks, b) == Some(p)
      ensures a == b
    {
      OwnersAreUnique(c, s, a, b);
    }
  }

  /** A get that evicts removes the object it looked up, or nothing. */
  lemma EvictionRemovesOnlyTheObserved(c: Config, s: State, t: TaskId)
    requires 1 <= c.cap && Reachable(c, s) && Enabled(c, s, EvictEntry(t))
    ensures var Evicting(key, obj) := s.tasks[t];
            var s' := Apply(c, s, EvictEntry(t));
            || s'.lru == s.lru
            || (key in s.lru && s.lru[key] == obj && s'.lru == s.lru - {key})
  {
    hide Inv, ObjectInv, Reachable;
    assert Evicts(s, t) ==> s.lru[s.tasks[t].key] == s.tasks[t].obj by {
      ReachableParts(c, s);
      PopsTheObserved(c, s, t);
    }
  }

  lemma PublishedEntries(c: Config, s: State, t: TaskId, victim: Key)
    requires Enabled(c, s, Publish(t, victim))
    ensures Apply(c, s, Publish(t, victim)).lru == Pushed(s.lru, c.cap, s.tasks[t].key, s.tasks[t].obj, victim)
  {
    hide Pushed, DisplacedFile, Moved, Assign;
  }

  lemma StoreKeepsEntries(c: Config, s: State, a: Action)
    requires Enabled(c, s, a) && IsStore(a)
    ensures ApplyStore(c, s, a).lru == s.lru
  {
    hide Moved, NextStore;
  }

  lemma GetKeepsEntries(c: Config, s: State, a: Action)
    requires Enabled(c, s, a) && IsGet(a)
    ensures ApplyGet(c, s, a).lru == s.lru
  {
    hide Moved, NextGet, Delivered;
  }

  lemma RemovalKeepsEntries(c: Config, s: State, a: Action)
    requires Enabled(c, s, a) && IsRemoval(a)
    ensures ApplyRemoval(c, s, a).lru == s.lru
  {
    hide Moved, NextRemoval;
  }

  lemma WorldKeepsEntries(c: Config, s: State, a: Action)
    requires Enabled(c, s, a) && IsWorld(a)
    ensures ApplyWorld(c, s, a).lru == s.lru
  {
    hide Moved;
  }

  lemma OthersKeepEntries(c: Config, s: State, a: Action)
    requires Enabled(c, s, a) && !a.Publish? && !a.EvictEntry?
    ensures Apply(c, s, a).lru == s.lru
  {
    hide Enabled, ApplyStore, ApplyGet, ApplyRemoval, ApplyWorld, ApplyPublish, ApplyEvict;
    if IsStore(a) {
      StoreKeepsEntries(c, s, a);
    } else if IsGet(a) {
      GetKeepsEntries(c, s, a);
    } else if IsRemoval(a) {
      RemovalKeepsEntries(c, s, a);
    } else {
      WorldKeepsEntries(c, s, a);
    }
  }

  /** An entry leaves the cache, or changes, only by a publication under its own key, by one under a new key while
      the cache is full, or by an eviction that looked up this very object. */
  lemma EntriesLeaveOnlyForCause(c: Config, s: State, a: Action, k: Key)
    requires 1 <= c.cap && Reachable(c, s) && Enabled(c, s, a) && k in s.lru
    requires var lru' := Apply(c, s, a).lru; k !in lru' || lru'[k] != s.lru[k]
    ensures a.Publish? || a.EvictEntry?
    ensures a.Publish? ==> s.tasks[a.t].key == k || (s.tasks[a.t].key !in s.lru && |s.lru| == c.cap && a.victim == k)
    ensures a.EvictEntry? ==> s.tasks[a.t].key == k && s.tasks[a.t].obj == s.lru[k]
  {
    hide Apply, Reachable, Pushed, Displaced;
    if a.Publish? {
      PublishedEntries(c, s, a.t, a.victim);
      PushDisplacesOnlyWhenFull(s.lru, c.cap, s.tasks[a.t].key, s.tasks[a.t].obj, a.victim);
    } else if a.EvictEntry? {
      EvictionRemovesOnlyTheObserved(c, s, a.t);
    } else {
      OthersKeepEntries(c, s, a);
    }
  }

  /** A counted removal, from either side, never unlinks the file of a live entry or of a store in
      progress: every other claim survives the step with its file. */
  lemma RemovalSparesOtherFiles(c: Config, s: State, t: TaskId, unlinked: bool, who: Owner)
    requires 1 <= c.cap && Reachable(c, s) && Enabled(c, s, Unlink(t, unlinked)) && who != InFlight(t)
    ensures var s' := Apply(c, s, Unlink(t, unlinked));
            var claim := Claim(s.lru, s.tasks, who);
            && Claim(s'.lru, s'.tasks, who) == claim
            && (claim.Some? && claim.value in s.disk ==>
                  claim.value in s'.disk && s'.disk[claim.value] == s.disk[claim.value])
  {
    if Claim(s.lru, s.tasks, who) == Some(s.tasks[t].path) {
      OwnersAreUnique(c, s, who, InFlight(t));
    }
  }

  /** Each file gives its count back at most once, integrity unlinks included. */
  lemma UncountedAtMostOnce(c: Config, s: State, p: Path)
    requires 1 <= c.cap && Reachable(c, s)
    ensures s.uncounts[p] <= 1
    ensures forall k :: FileAt(s.lru, k) == Some(p) ==> s.uncounts[p] == 0
  {
    ReachableInv(c, s);
    forall k | FileAt(s.lru, k) == Some(p)
      ensures s.uncounts[p] == 0
    {
      assert Owned(s.owner, Claim(s.lru, s.tasks, Entry(k)).value, Entry(k));
      assert !GivenBack(s.tasks, s.owner[p]);
    }
  }

  /** At quiescence a file on disk belongs to a live entry, unless an unlink failed on it or
      something outside rpxy put it there; no temporary file is left either. */
  lemma NoOrphanFiles(c: Config, s: State)
    requires 1 <= c.cap && Reachable(c, s) && Quiescent(s)
    ensures forall p | p in s.disk && p !in s.lost && p !in s.tampered :: exists k :: FileAt(s.lru, k) == Some(p)
    ensures s.temps <= s.lost
  {
    ReachableInv(c, s);
    forall p | p in s.disk && p !in s.lost && p !in s.tampered
      ensures exists k :: FileAt(s.lru, k) == Some(p)
    {
      assert Claim(s.lru, s.tasks, s.owner[p]) == Some(p);
      assert FileAt(s.lru, s.owner[p].key) == Some(p);
    }
    forall p | p in s.temps
      ensures p in s.lost
    {
      if p in s.owner {
        assert Claim(s.lru, s.tasks, s.owner[p]) == Some(p);
        var k := s.owner[p].key;
        CommittedIfIssued(c, s, k, s.lru[k]);
      }
    }
  }

  /** While nothing outside rpxy interferes and no integrity check fails, every live file entry has
      its file, holding the body that was committed for that key. */
  lemma LiveFilesArePresent(c: Config, s: State, k: Key)
    requires 1 <= c.cap && Reachable(c, s) && k in s.lru && s.lru[k].target.File?
    requires s.lru[k].target.path !in s.tampered && s.lru[k].target.path !in s.discarded
    ensures var p := s.lru[k].target.path;
            p in s.disk && (k, s.disk[p]) in s.bodies && s.lru[k].hash == c.hash(s.disk[p])
  {
    ReachableInv(c, s);
    assert Owned(s.owner, Claim(s.lru, s.tasks, Entry(k)).value, Entry(k));
    CommittedIfIssued(c, s, k, s.lru[k]);
  }

  /** An on-memory hit, and a file hit that reached the end of an untampered file, deliver one complete
      body stored earlier under their key. */
  lemma HitsDeliverStoredBodies(c: Config, s: State, i: nat)
    requires 1 <= c.cap && Reachable(c, s) && i < |s.served|
    requires var r := s.served[i];
             r.FromFile? ==> AtEnd(r.looks) && FileOf(r.obj).Some? && r.obj.target.path !in s.tampered
    ensures (s.served[i].key, s.served[i].bytes) in s.bodies
  {
    ReachableInv(c, s);
    var r := s.served[i];
    assert Answers(c, s, r);
    if r.FromFile? {
      var body := s.committed[r.obj.target.path].1;
      UntouchedIsGenuine(r.looks, body);
      GotExactly(r.looks, body);
    }
  }

  /** The committed body of the file a response was read from. */
  function BodyOf(s: State, r: Response): Bytes {
    if r.FromFile? && r.obj.target.File? && r.obj.target.path in s.committed
    then s.committed[r.obj.target.path].1
    else []
  }

  /** A file response that came to its end is the committed body of the object looked up if and only if
      each read call found the committed bytes where it read, and together they read all of them. */
  lemma FileResponseIsExact(c: Config, s: State, i: nat)
    requires 1 <= c.cap && Reachable(c, s) && i < |s.served| && s.served[i].FromFile?
    ensures var r := s.served[i];
            && (r.key, BodyOf(s, r)) in s.bodies && r.obj.hash == c.hash(BodyOf(s, r))
            && (r.bytes == BodyOf(s, r) <==> Genuine(r.looks, BodyOf(s, r)) && Total(r.looks) == |BodyOf(s, r)|)
  {
    ReachableInv(c, s);
    var r := s.served[i];
    assert Answers(c, s, r);
    GotExactly(r.looks, BodyOf(s, r));
  }

  /** Without tampering a file response is a prefix of the committed body, and is cut short if and only if
      a read call failed before all of it was read. */
  lemma UntamperedResponseIsPrefix(c: Config, s: State, i: nat)
    requires 1 <= c.cap && Reachable(c, s) && i < |s.served| && s.served[i].FromFile?
    requires FileOf(s.served[i].obj).Some? && s.served[i].obj.target.path !in s.tampered
    ensures var r := s.served[i];
            && r.bytes <= BodyOf(s, r)
            && (r.bytes != BodyOf(s, r) <==> !AtEnd(r.looks) && Total(r.looks) < |BodyOf(s, r)|)
  {
    ReachableInv(c, s);
    var r := s.served[i];
    assert Answers(c, s, r);
    UntouchedIsGenuine(r.looks, BodyOf(s, r));
    GotExactly(r.looks, BodyOf(s, r));
    GotIsPrefixExactly(r.looks, BodyOf(s, r));
    GotLength(r.looks);
  }

  /** The hash is compared when everything was sent: without collisions the file is unlinked exactly if the
      response just delivered is not the committed body. */
  lemma WrongBodyIsNoticedAfterwards(c: Config, s: State, t: TaskId, eof: bool)
    requires 1 <= c.cap && Reachable(c, s) && Enabled(c, s, ReadEnds(t, eof)) && Injective(c.hash)
    ensures var r := Delivered(c, s, ReadEnds(t, eof))[0];
            && |Delivered(c, s, ReadEnds(t, eof))| == 1
            && (NextGet(c, s, ReadEnds(t, eof)) == Some(Discarding(r.obj.target.path)) <==> r.bytes != BodyOf(s, r))
  {
    ReachableInv(c, s);
    var task := s.tasks[t];
    assert TaskFaithful(c, s, task);
    CommittedIfIssued(c, s, task.key, task.obj);
  }

  /** Its file is then removed, while the count and the entry stay for whoever looks it up next. */
  lemma WrongBodyIsRemoved(c: Config, s: State, t: TaskId, eof: bool, unlinked: bool)
    requires 1 <= c.cap && Reachable(c, s) && Enabled(c, s, ReadEnds(t, eof)) && Injective(c.hash)
    requires var r := Delivered(c, s, ReadEnds(t, eof))[0]; r.bytes != BodyOf(s, r)
    ensures var s1 := Apply(c, s, ReadEnds(t, eof));
            && Enabled(c, s1, Discard(t, unlinked))
            && var s2 := Apply(c, s1, Discard(t, unlinked));
               && s2.disk == (if unlinked then s.disk - {s.tasks[t].obj.target.path} else s.disk)
               && s2.cnt == s.cnt && s2.lru == s.lru && s2.tasks == s.tasks - {t}
  {
    hide Reachable, Got, AllLooks;
    WrongBodyIsNoticedAfterwards(c, s, t, eof);
    assert s.tasks[t := Discarding(s.tasks[t].obj.target.path)] - {t} == s.tasks - {t};
  }

  /** What the read calls of an untampered file returned so far is, for every chunking, a prefix of the
      stored body; at the end of the file it is the whole of it, and the file is not unlinked. */
  lemma CompleteReadOfIntactFile(c: Config, s: State, t: TaskId)
    requires 1 <= c.cap && Reachable(c, s) && t in s.tasks && s.tasks[t].Reading?
    requires s.tasks[t].obj.target.File? && s.tasks[t].obj.target.path !in s.tampered
    ensures var Reading(key, obj, content, looks) := s.tasks[t];
            (key, content) in s.bodies && Got(looks) <= content && c.hash(content) == obj.hash
    ensures Enabled(c, s, ReadEnds(t, true)) ==>
              && NextGet(c, s, ReadEnds(t, true)) == None
              && Got(AllLooks(s.tasks[t], true)) == s.tasks[t].content
  {
    hide Reachable, Got, Total, Possible;
    ReadsCommitted(c, s, t);
    var task := s.tasks[t];
    WholeAtTheEnd(task.looks, task.content);
  }

  lemma ReadsCommitted(c: Config, s: State, t: TaskId)
    requires 1 <= c.cap && Reachable(c, s) && t in s.tasks && s.tasks[t].Reading?
    requires s.tasks[t].obj.target.File? && s.tasks[t].obj.target.path !in s.tampered
    ensures var Reading(key, obj, content, looks) := s.tasks[t];
            (key, content) in s.bodies && c.hash(content) == obj.hash && Possible(looks) && Untouched(looks, content)
  {
    hide Reachable;
    ReachableInv(c, s);
    var task := s.tasks[t];
    assert TaskFaithful(c, s, task);
    CommittedIfIssued(c, s, task.key, task.obj);
  }

  lemma WholeAtTheEnd(looks: seq<Look>, content: Bytes)
    requires Possible(looks) && Untouched(looks, content)
    ensures Got(looks) <= content
    ensures Shows(Look(content, 0), Total(looks)) ==> Got(looks + [Look(content, 0)]) == content
  {
    UntouchedIsGenuine(looks, content);
    GotIsPrefixExactly(looks, content);
    if Shows(Look(content, 0), Total(looks)) {
      var all := looks + [Look(content, 0)];
      EndedLooks(looks, content, 0);
      UntouchedIsGenuine(all, content);
      GotExactly(all, content);
    }
  }
}
