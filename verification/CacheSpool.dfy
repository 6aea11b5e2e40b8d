/** `spool_and_store`: relay an upstream body to the client frame by frame and, as a side effect
    that may fail at any point, keep it on memory or spill it to a temporary file. */
module CacheSpool {
  import opened Wrappers
  import opened Machine
  import opened CacheTypes

  /** An item of the upstream body stream; `Meta` is a non-data frame such as trailers. */
  datatype Frame = Data(bytes: Bytes) | Meta | Failure

  /** A name in the cache directory: the final name, or the same with the `.tmp` suffix. */
  datatype Name = Temp(path: Path) | Final(path: Path)

  type Directory = map<Name, Bytes>

  /** What the environment decides: does the receiver still take frame `i`, and does each file
      operation succeed. A failing write leaves the first `torn` bytes behind. */
  datatype Io = Io(
    receives: nat -> bool,
    creates: bool,
    writesBuffer: bool,
    writes: nat -> bool,
    torn: nat,
    flushes: bool,
    renames: bool,
    unlinks: bool)

  /* ------------------------------- specification ------------------------------- */

  /** The data of a body, whatever its framing. */
  function Body(frames: seq<Frame>): Bytes {
    if frames == [] then []
    else Body(frames[..|frames| - 1]) + Payload(frames[|frames| - 1])
  }

  function Payload(f: Frame): Bytes {
    if f.Data? then f.bytes else []
  }

  predicate Complete(frames: seq<Frame>) {
    forall i | 0 <= i < |frames| :: !frames[i].Failure?
  }

  /** How many frames reach the client: all, or those before the receiver goes away. */
  function Relayed(frames: seq<Frame>, io: Io): (n: nat)
    ensures n <= |frames|
    ensures forall i | 0 <= i < n :: io.receives(i)
    ensures n < |frames| ==> !io.receives(n)
  {
    if frames == [] then 0
    else
      var n := Relayed(frames[..|frames| - 1], io);
      if n == |frames| - 1 && io.receives(n) then |frames| else n
  }

  function Saturated(n: nat): nat {
    if n <= USIZE_MAX then n else USIZE_MAX
  }

  /** The size test of the source, which adds with saturation. */
  predicate Fits(n: nat, limit: nat) {
    Saturated(n) <= limit
  }

  /** The limit is honoured by every body exactly when it is below the largest `usize`. */
  lemma SaturationKeepsTheLimit(limit: nat)
    requires limit <= USIZE_MAX
    ensures (forall n: nat :: Fits(n, limit) ==> n <= limit) <==> limit < USIZE_MAX
    ensures forall n: nat :: Fits(n, limit) <==> n <= limit || limit == USIZE_MAX
  {
    if limit == USIZE_MAX {
      assert Fits(USIZE_MAX + 1, limit);
    }
  }

  /** Frame `i` arrives past the on-memory threshold. */
  predicate Crossed(frames: seq<Frame>, i: nat, onMemory: nat)
    requires i < |frames|
  {
    !Fits(|Body(frames[..i + 1])|, onMemory)
  }

  /** Every file operation that spilling `frames` needs up to the commit succeeds. */
  predicate Spills(frames: seq<Frame>, io: Io, free: bool, onMemory: nat) {
    && io.creates && free && io.writesBuffer
    && forall i | 0 <= i < |frames| && frames[i].Data? && Crossed(frames, i, onMemory) :: io.writes(i)
  }

  /** Nothing seen in `frames` rules out caching the body. */
  predicate Cacheable(frames: seq<Frame>, io: Io, free: bool, each: nat, onMemory: nat) {
    && Complete(frames)
    && Fits(|Body(frames)|, each)
    && (Fits(|Body(frames)|, onMemory) || Spills(frames, io, free, onMemory))
  }

  lemma BodyPush(frames: seq<Frame>, i: nat)
    requires i < |frames|
    ensures Body(frames[..i + 1]) == Body(frames[..i]) + Payload(frames[i])
  {
    assert frames[..i + 1][..i] == frames[..i];
  }

  lemma SpillsPush(frames: seq<Frame>, i: nat, io: Io, free: bool, onMemory: nat)
    requires i < |frames|
    ensures Spills(frames[..i + 1], io, free, onMemory) <==>
              && Spills(frames[..i], io, free, onMemory)
              && (frames[i].Data? && !Fits(|Body(frames[..i + 1])|, onMemory) ==> io.writes(i))
  {
    forall j | 0 <= j < i
      ensures Crossed(frames[..i + 1], j, onMemory) == Crossed(frames[..i], j, onMemory)
    {
      assert frames[..i + 1][..j + 1] == frames[..i][..j + 1];
    }
    assert frames[..i + 1][..i + 1] == frames[..i + 1];
  }

  /** Before the on-memory threshold is crossed nothing was written yet. */
  lemma NothingSpilledYet(frames: seq<Frame>, io: Io, free: bool, onMemory: nat)
    requires Fits(|Body(frames)|, onMemory)
    ensures Spills(frames, io, free, onMemory) <==> io.creates && free && io.writesBuffer
  {
    forall i | 0 <= i < |frames|
      ensures !Crossed(frames, i, onMemory)
    {
      BodyGrows(frames, i + 1);
    }
  }

  lemma {:induction false} BodyGrows(frames: seq<Frame>, i: nat)
    requires i <= |frames|
    ensures |Body(frames[..i])| <= |Body(frames)|
    decreases |frames|
  {
    if i < |frames| {
      BodyGrows(frames[..|frames| - 1], i);
      assert frames[..|frames| - 1][..i] == frames[..i];
    } else {
      assert frames[..i] == frames;
    }
  }

  /** How `Cacheable` reacts to one more frame. */
  lemma CacheablePush(frames: seq<Frame>, i: nat, io: Io, free: bool, each: nat, onMemory: nat)
    requires i < |frames|
    ensures var n := |Body(frames[..i])| + |Payload(frames[i])|;
            Cacheable(frames[..i + 1], io, free, each, onMemory) <==>
              && Cacheable(frames[..i], io, free, each, onMemory)
              && !frames[i].Failure?
              && Fits(n, each)
              && (frames[i].Data? && !Fits(n, onMemory) ==>
                    io.writes(i) && (Fits(|Body(frames[..i])|, onMemory) ==> io.creates && free && io.writesBuffer))
  {
    hide Body, Spills;
    BodyPush(frames, i);
    SpillsPush(frames, i, io, free, onMemory);
    assert Complete(frames[..i + 1]) <==> Complete(frames[..i]) && !frames[i].Failure? by {
      assert frames[..i + 1] == frames[..i] + [frames[i]];
    }
    if Fits(|Body(frames[..i])|, onMemory) {
      NothingSpilledYet(frames[..i], io, free, onMemory);
    }
  }

  /* ------------------------------- file operations ------------------------------- */

  /** Append to the temporary file; a failing write may leave part of `data`. */
  function Written(dir: Directory, temp: Name, data: Bytes, ok: bool, torn: nat): Directory
    requires temp in dir
  {
    dir[temp := dir[temp] + if ok || |data| < torn then data else data[..torn]]
  }

  function Unlinked(dir: Directory, name: Name, ok: bool): Directory {
    if ok then dir - {name} else dir
  }

  /** `dir` is the directory before the store, except for a temporary file that could not be unlinked. */
  predicate CleanedUp(before: Directory, dir: Directory, temp: Name, io: Io) {
    dir == before || (!io.unlinks && temp in dir && dir - {temp} == before - {temp})
  }

  /* ---------------------------------- the loop ---------------------------------- */

  /** The variables of the loop. `spilled` is phase F, a temporary file in progress; `peak` is the
      high-water mark of the in-memory buffer. */
  datatype Spool =
    Spool(size: nat, hashed: Bytes, buf: Bytes, cacheable: bool, spilled: bool, dir: Directory, peak: nat)

  datatype Store = Store(io: Io, before: Directory, path: Path, each: nat, onMemory: nat) {
    ghost predicate Valid() {
      each <= USIZE_MAX && onMemory <= USIZE_MAX
    }

    function temp(): Name {
      Temp(path)
    }

    predicate Free() {
      temp() !in before
    }

    predicate Caches(frames: seq<Frame>) {
      Cacheable(frames, io, Free(), each, onMemory)
    }

    /** How a store can end: an object exactly when the body can be cached and every file operation
        succeeds, which is the body and its hash, and otherwise a directory that is cleaned up. */
    ghost predicate Ends(frames: seq<Frame>, hash: Bytes -> Digest, stored: Option<(Target, Digest)>, dir: Directory) {
      && (stored.Some? <==>
            && Relayed(frames, io) == |frames|
            && Caches(frames)
            && (Fits(|Body(frames)|, onMemory) || (io.flushes && io.renames)))
      && (stored.Some? ==> stored.value.1 == hash(Body(frames)))
      && (stored.Some? && Fits(|Body(frames)|, onMemory) ==>
            stored.value.0 == OnMemory(Body(frames)) && dir == before)
      && (stored.Some? && !Fits(|Body(frames)|, onMemory) ==>
            stored.value.0 == File(path) && dir == before[Final(path) := Body(frames)])
      && (stored.None? ==> CleanedUp(before, dir, temp(), io))
    }

    /** What holds of the variables once `frames` were relayed. */
    ghost predicate Inv(frames: seq<Frame>, s: Spool) {
      && (s.cacheable <==> Caches(frames))
      && (s.cacheable ==> s.size == Saturated(|Body(frames)|) && s.hashed == Body(frames))
      && (s.cacheable ==> (s.spilled <==> !Fits(|Body(frames)|, onMemory)))
      && (s.cacheable && !s.spilled ==> s.buf == Body(frames) && s.dir == before)
      && (s.spilled ==> s.cacheable && Free() && s.buf == [] && s.dir == before[temp() := Body(frames)])
      && (!s.cacheable ==> CleanedUp(before, s.dir, temp(), io))
      && |s.buf| <= s.peak && (s.peak <= onMemory || onMemory == USIZE_MAX)
    }
  }

  /** Nothing goes wrong on the way to the client or to the disk. */
  ghost predicate Smooth(st: Store) {
    && (forall i: nat :: st.io.receives(i) && st.io.writes(i)) && st.Free()
    && st.io.creates && st.io.writesBuffer && st.io.flushes && st.io.renames
  }

  /** If nothing goes wrong, an error-free body is stored if and only if it is within the size limit, on memory
      exactly within the memory limit; a limit of the largest `usize` is none. */
  lemma SmoothStore(st: Store, frames: seq<Frame>, hash: Bytes -> Digest, stored: Option<(Target, Digest)>,
                    dir: Directory)
    requires st.Valid() && Smooth(st) && st.Ends(frames, hash, stored, dir)
    ensures var size := |Body(frames)|;
            && (stored.Some? <==> Complete(frames) && (size <= st.each || st.each == USIZE_MAX))
            && (stored.Some? ==>
                  stored.value.0 == (if size <= st.onMemory || st.onMemory == USIZE_MAX then OnMemory(Body(frames))
                                     else File(st.path)))
  {
    hide Body;
    SaturationKeepsTheLimit(st.each);
    SaturationKeepsTheLimit(st.onMemory);
    assert Relayed(frames, st.io) == |frames|;
  }

  /** Give up caching and unlink the temporary file, if there is one. */
  method Abandon(st: Store, s: Spool) returns (s': Spool)
    requires s.spilled ==> st.Free() && st.temp() in s.dir && s.dir - {st.temp()} == st.before
    requires !s.spilled ==> s.dir == st.before
    requires s.peak <= st.onMemory || st.onMemory == USIZE_MAX
    ensures s' == s.(cacheable := false, buf := [], spilled := false, dir := s'.dir)
    ensures CleanedUp(st.before, s'.dir, st.temp(), st.io)
  {
    s' := s.(cacheable := false, buf := [], spilled := false,
             dir := if s.spilled then Unlinked(s.dir, st.temp(), st.io.unlinks) else s.dir);
    assert st.Free() ==> st.before - {st.temp()} == st.before;
  }

  /** Cross the on-memory threshold: the buffered bytes and this frame go straight to disk. */
  method Spill(st: Store, s: Spool, i: nat, data: Bytes) returns (s': Spool)
    requires !s.spilled && s.cacheable && s.dir == st.before
    requires s.peak <= st.onMemory || st.onMemory == USIZE_MAX
    ensures s'.spilled == s'.cacheable == (st.io.creates && st.Free() && st.io.writesBuffer && st.io.writes(i))
    ensures s'.spilled ==> s'.dir == st.before[st.temp() := s.buf + data]
    ensures !s'.cacheable ==> CleanedUp(st.before, s'.dir, st.temp(), st.io)
    ensures s'.buf == [] && s'.peak == s.peak && s'.size == s.size && s'.hashed == s.hashed
  {
    if st.io.creates && st.Free() {
      var dir := Written(s.dir[st.temp() := []], st.temp(), s.buf, st.io.writesBuffer, st.io.torn);
      if st.io.writesBuffer {
        assert dir[st.temp()] == s.buf;
        dir := Written(dir, st.temp(), data, st.io.writes(i), st.io.torn);
        assert st.io.writes(i) ==> dir == st.before[st.temp() := s.buf + data];
      }
      s' := s.(spilled := true, buf := [], dir := dir);
      if !(st.io.writesBuffer && st.io.writes(i)) {
        assert dir - {st.temp()} == st.before;
        s' := Abandon(st, s');
      }
    } else {
      s' := s.(cacheable := false, buf := []);
    }
  }

  /** The cache side of one relayed frame. */
  method StoreFrame(st: Store, frames: seq<Frame>, i: nat, s: Spool) returns (s': Spool)
    requires st.Valid() && i < |frames| && st.Inv(frames[..i], s)
    ensures st.Inv(frames[..i + 1], s')
  {
    hide Spills, Complete, Body;
    CacheablePush(frames, i, st.io, st.Free(), st.each, st.onMemory);
    BodyPush(frames, i);
    assert !frames[i].Data? ==> Body(frames[..i]) + [] == Body(frames[..i]) == Body(frames[..i + 1]);
    s' := s;
    if !s.cacheable {
      return;
    }
    assert s.spilled ==> s.dir - {st.temp()} == st.before;
    if frames[i].Failure? {
      s' := Abandon(st, s);
    } else if frames[i].Data? {
      var data := frames[i].bytes;
      if Saturated(s.size + |data|) > st.each {
        s' := Abandon(st, s);
      } else {
        s' := s.(size := Saturated(s.size + |data|), hashed := s.hashed + data);
        if s.spilled {
          s' := s'.(dir := Written(s.dir, st.temp(), data, st.io.writes(i), st.io.torn));
          if !st.io.writes(i) {
            assert s'.dir - {st.temp()} == st.before;
            s' := Abandon(st, s');
          } else {
            assert s'.dir == st.before[st.temp() := Body(frames[..i + 1])];
          }
        } else if Saturated(|s.buf| + |data|) > st.onMemory {
          s' := Spill(st, s', i, data);
        } else {
          var buf := s.buf + data;
          s' := s'.(buf := buf, peak := if |buf| > s.peak then |buf| else s.peak);
        }
      }
    }
  }

  /** Publish what was spooled: the buffer as it is, or the temporary file under its final name. */
  method Commit(st: Store, s: Spool, digest: Digest) returns (stored: Option<(Target, Digest)>, dir: Directory)
    requires s.spilled ==> st.Free() && s.buf == [] && st.temp() in s.dir && s.dir - {st.temp()} == st.before
    requires !s.spilled ==> s.dir == st.before
    ensures stored.Some? <==> !s.spilled || (st.io.flushes && st.io.renames)
    ensures stored.Some? ==> stored.value.1 == digest
    ensures stored.Some? && !s.spilled ==> stored.value.0 == OnMemory(s.buf) && dir == st.before
    ensures stored.Some? && s.spilled ==>
              stored.value.0 == File(st.path) && dir == st.before[Final(st.path) := s.dir[st.temp()]]
    ensures stored.None? ==> CleanedUp(st.before, dir, st.temp(), st.io)
  {
    if !s.spilled {
      return Some((OnMemory(s.buf), digest)), s.dir;
    }
    if st.io.flushes && st.io.renames {
      stored, dir := Some((File(st.path), digest)), (s.dir - {st.temp()})[Final(st.path) := s.dir[st.temp()]];
    } else {
      stored, dir := None, Unlinked(s.dir, st.temp(), st.io.unlinks);
      assert st.before - {st.temp()} == st.before;
    }
  }

  /** For every body, limits and pattern of failures: the relay is cut only by the receiver; the
      object is stored exactly when the whole body was relayed without an upstream error, fits, and
      either stays on memory or every file operation succeeds; what is stored is the body and its
      hash; and the directory changes only by the committed file. */
  method SpoolAndStore(frames: seq<Frame>, st: Store, hash: Bytes -> Digest)
    returns (stored: Option<(Target, Digest)>, relayed: seq<Frame>, dir: Directory, peak: nat)
    requires st.Valid()
    ensures relayed == frames[..Relayed(frames, st.io)]
    ensures st.Ends(frames, hash, stored, dir)
    ensures peak <= st.onMemory || st.onMemory == USIZE_MAX
  {
    var s := Spool(0, [], [], true, false, st.before, 0);
    relayed, stored := [], None;
    var i := 0;
    while i < |frames|
      invariant 0 <= i <= |frames| && relayed == frames[..i]
      invariant forall j | 0 <= j < i :: st.io.receives(j)
      invariant st.Inv(frames[..i], s)
    {
      if !st.io.receives(i) {
        assert Relayed(frames, st.io) == i;
        if s.spilled {
          assert s.dir - {st.temp()} == st.before;
          s := Abandon(st, s);
        }
        return None, relayed, s.dir, s.peak;
      }
      relayed := relayed + [frames[i]];
      s := StoreFrame(st, frames, i, s);
      i := i + 1;
    }

    assert frames[..|frames|] == frames && Relayed(frames, st.io) == |frames|;
    dir, peak := s.dir, s.peak;
    if s.cacheable {
      stored, dir := Commit(st, s, hash(s.hashed));
    }
  }
}
