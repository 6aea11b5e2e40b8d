/** Runs that show what a file hit does not promise: its chunks are sent before its hash is known, so that
    a changed file and a failing read reach the client as a body that ends normally. */
module CacheRuns {
  import opened Wrappers
  import opened Machine
  import opened CacheTypes
  import opened CacheStore
  import opened CacheSpool
  import opened CacheRead
  import opened CacheProtocol

  lemma InitIsReachable(c: Config)
    ensures Reachable(c, Init)
  {
    assert Run(c, Init, [], Init);
  }

  /* ------------------------------- one published file ------------------------------- */

  const KEY: Key := "k"
  const FILE: Path := Path(KEY, 0, 0)
  const BODY: Bytes := [1, 2]
  const FRAMES: seq<Frame> := [Data(BODY)]

  /** A digest without collisions. */
  const CONFIG: Config := Config(1, (b: Bytes) => b)
  const OBJECT: CacheObject := CacheObject(File(FILE), BODY, 0)

  /** What matters of a state in which the file is published and nothing was served yet. */
  ghost predicate Published(s: State) {
    && Reachable(CONFIG, s) && s.lru == map[KEY := OBJECT] && !s.poisoned && s.tasks == map[]
    && s.disk == map[FILE := BODY] && s.committed == map[FILE := (KEY, BODY)] && s.bodies == {(KEY, BODY)}
    && s.served == [] && s.tampered == {}
  }

  lemma BodyOfFrames()
    ensures Complete(FRAMES) && Body(FRAMES) == BODY
  {
    assert FRAMES[..0] == [] && Body([]) == [] && Body(FRAMES) == [] + BODY;
  }

  lemma OneIsSpooling() returns (s: State)
    ensures Reachable(CONFIG, s) && s == Init.(tasks := s.tasks, nextSerial := 1, temps := s.temps, owner := s.owner)
    ensures s.tasks == map[0 := Spooling(KEY, FILE)]
  {
    hide Reachable;
    InitIsReachable(CONFIG);
    ReachableStep(CONFIG, Init, BeginSpill(0, KEY, 0));
    s := Apply(CONFIG, Init, BeginSpill(0, KEY, 0));
  }

  /** The file is on disk, and the object is about to be built. */
  ghost predicate OnDisk(s: State) {
    && Reachable(CONFIG, s) && s.lru == map[] && !s.poisoned
    && s.disk == map[FILE := BODY] && s.committed == map[FILE := (KEY, BODY)] && s.bodies == {(KEY, BODY)}
    && s.served == [] && s.tampered == {}
  }

  lemma OneIsStored() returns (s: State)
    ensures OnDisk(s) && s.tasks == map[0 := Stored(KEY, File(FILE), BODY)] && s.issued == []
  {
    hide Reachable;
    BodyOfFrames();
    var s1 := OneIsSpooling();
    ReachableStep(CONFIG, s1, CommitSpill(0, FRAMES));
    s := Apply(CONFIG, s1, CommitSpill(0, FRAMES));
  }

  lemma OneIsCounted() returns (s: State)
    ensures OnDisk(s) && s.tasks == map[0 := Counted(KEY, OBJECT)]
  {
    hide Reachable;
    var s2 := OneIsStored();
    ReachableStep(CONFIG, s2, Build(0));
    var s3 := Apply(CONFIG, s2, Build(0));
    assert s3.tasks == map[0 := Built(KEY, OBJECT)];
    ReachableStep(CONFIG, s3, Count(0));
    s := Apply(CONFIG, s3, Count(0));
  }

  lemma OneIsPublished() returns (s: State)
    ensures Published(s)
  {
    hide Reachable;
    var s4 := OneIsCounted();
    ReachableStep(CONFIG, s4, Publish(0, KEY));
    s := Apply(CONFIG, s4, Publish(0, KEY));
    assert DisplacedKey(s4.lru, 1, KEY, KEY) == None && Displaced(s4.lru, 1, KEY, KEY) == None;
  }

  /** Look the object up and open its file. */
  lemma OneIsOpened(s: State, content: Bytes) returns (s': State)
    requires Reachable(CONFIG, s) && s.lru == map[KEY := OBJECT] && !s.poisoned && s.tasks == map[]
    requires s.disk == map[FILE := content]
    ensures Reachable(CONFIG, s') && s'.tasks == map[1 := Reading(KEY, OBJECT, content, [])]
    ensures s'.bodies == s.bodies && s'.served == s.served && s'.tampered == s.tampered
  {
    hide Reachable;
    ReachableStep(CONFIG, s, Lookup(1, KEY));
    var s1 := Apply(CONFIG, s, Lookup(1, KEY));
    assert s1.tasks == map[1 := Holding(KEY, OBJECT)];
    ReachableStep(CONFIG, s1, OpenFile(1));
    s' := Apply(CONFIG, s1, OpenFile(1));
  }

  lemma FirstLook(look: Look)
    requires look.n <= |look.content| && look.n > 0
    ensures Total([]) == 0 && Shows(look, 0) && Total([look]) == look.n && Got([look]) == look.content[..look.n]
  {
    assert [look][..0] == [] && look.content[0..look.n] == look.content[..look.n];
    assert Got([look]) == [] + Returned(look, 0);
  }

  /** Read `n` bytes in one call and come to an end. */
  lemma OneIsRead(s: State, content: Bytes, n: nat, eof: bool) returns (s': State)
    requires Reachable(CONFIG, s) && s.tasks == map[1 := Reading(KEY, OBJECT, content, [])] && s.served == []
    requires 0 < n <= |content| && (eof ==> n == |content|)
    ensures Reachable(CONFIG, s') && s'.bodies == s.bodies && s'.tampered == s.tampered
    ensures |s'.served| == 1 && s'.served[0].key == KEY && s'.served[0].bytes == content[..n]
  {
    hide Reachable, Got, Total, Shows;
    var look := Look(content, n);
    FirstLook(look);
    ReachableStep(CONFIG, s, ReadChunk(1, n));
    var s1 := Apply(CONFIG, s, ReadChunk(1, n));
    assert [] + [look] == [look] && s1.tasks == map[1 := Reading(KEY, OBJECT, content, [look])];
    EndOfFile(content, n);
    ReachableStep(CONFIG, s1, ReadEnds(1, eof));
    s' := Apply(CONFIG, s1, ReadEnds(1, eof));
  }

  lemma EndOfFile(content: Bytes, n: nat)
    requires 0 < n <= |content|
    ensures n == |content| ==> Shows(Look(content, 0), Total([Look(content, n)]))
    ensures Got([Look(content, n)] + [Look(content, 0)]) == Got([Look(content, n)])
  {
    var looks := [Look(content, n)];
    FirstLook(Look(content, n));
    assert (looks + [Look(content, 0)])[..1] == looks;
    assert Got(looks) + [] == Got(looks);
  }

  /** A changed file is served to its end although no such body was ever stored. */
  lemma TamperedFileIsServed() returns (s: State)
    ensures Reachable(CONFIG, s) && |s.served| == 1
    ensures (s.served[0].key, s.served[0].bytes) !in s.bodies && (KEY, BODY) in s.bodies
  {
    hide Reachable;
    var s1 := OneIsPublished();
    var other: Bytes := [2, 2];
    ReachableStep(CONFIG, s1, Tamper(FILE, Some(other)));
    var s2 := Apply(CONFIG, s1, Tamper(FILE, Some(other)));
    assert s2.disk == map[FILE := other];
    var s3 := OneIsOpened(s2, other);
    s := OneIsRead(s3, other, 2, true);
    assert s.served[0].bytes[0] == 2;
  }

  /** A failing read call ends an untampered body short. */
  lemma FailedReadIsServed() returns (s: State)
    ensures Reachable(CONFIG, s) && |s.served| == 1 && s.tampered == {}
    ensures (s.served[0].key, s.served[0].bytes) !in s.bodies && (KEY, BODY) in s.bodies
  {
    hide Reachable;
    var s1 := OneIsPublished();
    var s2 := OneIsOpened(s1, BODY);
    s := OneIsRead(s2, BODY, 1, false);
    assert |s.served[0].bytes| == 1;
  }
}
