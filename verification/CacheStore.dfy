/** The two shared objects of the cache, `LruCacheManager` (a map behind a mutex) and `FileStore`
    (an atomic count and the files). `CacheMethods` shows that the code built from them takes the atomic
    steps of `CacheProtocol`. */
module CacheStore {
  import opened Wrappers
  import opened Machine
  import opened CacheTypes

  type LruMap = map<Key, CacheObject>

  /** The entry that makes room: the same key's old entry, else `victim` when the map is full. */
  function DisplacedKey(lru: LruMap, cap: nat, key: Key, victim: Key): Option<Key> {
    if key in lru then Some(key)
    else if |lru| < cap then None
    else Some(victim)
  }

  function Displaced(lru: LruMap, cap: nat, key: Key, victim: Key): Option<CacheObject> {
    match DisplacedKey(lru, cap, key, victim)
    case None => None
    case Some(k) => if k in lru then Some(lru[k]) else None
  }

  function Pushed(lru: LruMap, cap: nat, key: Key, obj: CacheObject, victim: Key): LruMap {
    match DisplacedKey(lru, cap, key, victim)
    case None => lru[key := obj]
    case Some(k) => (lru - {k})[key := obj]
  }

  /** `evict_if_generation` pops only while the entry is still the one the caller observed. */
  predicate StillCurrent(lru: LruMap, key: Key, generation: nat) {
    key in lru && lru[key].generation == generation
  }

  /** A push that must make room needs a victim among the entries. */
  predicate CanPush(lru: LruMap, cap: nat, key: Key, victim: Key) {
    1 <= cap && |lru| <= cap && (key in lru || |lru| < cap || victim in lru)
  }

  /** A push replaces the key's own entry; a new key is added while there is room; only a full cache gives up
      one entry for it. Every other entry stays as it is. */
  lemma PushDisplacesOnlyWhenFull(lru: LruMap, cap: nat, key: Key, obj: CacheObject, victim: Key)
    requires CanPush(lru, cap, key, victim)
    ensures var lru', gone := Pushed(lru, cap, key, obj, victim), Displaced(lru, cap, key, victim);
            if key in lru then lru' == lru[key := obj] && gone == Some(lru[key])
            else if |lru| < cap then lru' == lru[key := obj] && gone == None
            else victim in lru && lru' == (lru - {victim})[key := obj] && gone == Some(lru[victim])
  {
  }

  /** A push inserts the new entry, displaces at most one, keeps every other and never overflows. */
  lemma PushConserves(lru: LruMap, cap: nat, key: Key, obj: CacheObject, victim: Key)
    requires CanPush(lru, cap, key, victim)
    ensures var lru' := Pushed(lru, cap, key, obj, victim);
            && key in lru' && lru'[key] == obj
            && (forall k | k in lru' && k != key :: k in lru && lru[k] == lru'[k])
            && (forall k | k in lru && k !in lru' :: DisplacedKey(lru, cap, key, victim) == Some(k))
            && |lru'| == |lru| + (if Displaced(lru, cap, key, victim).None? then 1 else 0) <= cap
  {
  }

  /** A push that made room by `victim` and handed out what it displaced. */
  ghost predicate IsPush(lru: LruMap, cap: nat, key: Key, obj: CacheObject, victim: Key, lru': LruMap,
                         displaced: Option<(Key, CacheObject)>)
  {
    && CanPush(lru, cap, key, victim) && lru' == Pushed(lru, cap, key, obj, victim)
    && DisplacedKey(lru, cap, key, victim) == (if displaced.Some? then Some(displaced.value.0) else None)
    && Displaced(lru, cap, key, victim) == (if displaced.Some? then Some(displaced.value.1) else None)
  }

  class LruCacheManager {
    var inner: LruMap
    var poisoned: bool
    var cnt: nat
    const cap: nat

    ghost predicate Valid()
      reads this
    {
      1 <= cap && |inner| <= cap && cnt == |inner|
    }

    constructor (maxEntry: nat)
      requires 1 <= maxEntry
      ensures Valid() && inner == map[] && cap == maxEntry && !poisoned
    {
      inner, poisoned, cnt, cap := map[], false, 0, maxEntry;
    }

    method Push(key: Key, obj: CacheObject) returns (ok: bool, displaced: Option<(Key, CacheObject)>)
      requires Valid()
      modifies this`inner, this`cnt
      ensures Valid()
      ensures ok == !poisoned
      ensures !ok ==> inner == old(inner) && displaced == None
      ensures ok ==> exists victim: Key :: IsPush(old(inner), cap, key, obj, victim, inner, displaced)
      ensures ok && key in old(inner) ==>
                inner == old(inner)[key := obj] && displaced == Some((key, old(inner)[key]))
      ensures ok && key !in old(inner) && |old(inner)| < cap ==>
                inner == old(inner)[key := obj] && displaced == None
      ensures ok && key !in old(inner) && |old(inner)| == cap ==>
                && displaced.Some? && displaced.value.0 in old(inner)
                && displaced.value.1 == old(inner)[displaced.value.0]
                && inner == (old(inner) - {displaced.value.0})[key := obj]
    {
      if poisoned {
        return false, None;
      }
      ok := true;
      var victim := key;
      if key !in inner && |inner| >= cap {
        assert inner != map[];
        var k :| k in inner;
        victim := k;
      }
      var dk := DisplacedKey(inner, cap, key, victim);
      displaced := if dk.Some? then Some((dk.value, inner[dk.value])) else None;
      PushConserves(inner, cap, key, obj, victim);
      PushDisplacesOnlyWhenFull(inner, cap, key, obj, victim);
      inner := Pushed(inner, cap, key, obj, victim);
      cnt := |inner|;
      assert IsPush(old(inner), cap, key, obj, victim, inner, displaced);
    }

    method Get(key: Key) returns (ok: bool, found: Option<CacheObject>)
      ensures ok == !poisoned
      ensures found == if ok && key in inner then Some(inner[key]) else None
    {
      ok := !poisoned;
      found := if ok && key in inner then Some(inner[key]) else None;
    }

    method EvictIfGeneration(key: Key, generation: nat) returns (popped: Option<CacheObject>)
      requires Valid()
      modifies this`inner, this`cnt
      ensures Valid()
      ensures popped.Some? <==> !poisoned && StillCurrent(old(inner), key, generation)
      ensures popped.Some? ==> popped.value == old(inner)[key] && inner == old(inner) - {key}
      ensures popped.None? ==> inner == old(inner)
    {
      if poisoned || !StillCurrent(inner, key, generation) {
        return None;
      }
      popped := Some(inner[key]);
      inner := inner - {key};
      assert inner.Keys == old(inner).Keys - {key};
      cnt := |inner|;
    }
  }

  /** The saturating subtraction of `FileStore::remove`. */
  function Uncounted(cnt: nat): nat {
    if cnt == 0 then 0 else cnt - 1
  }

  /** The counted files of the cache directory. */
  class FileStore {
    var cnt: nat
    var disk: map<Path, Bytes>

    constructor ()
      ensures cnt == 0 && disk == map[]
    {
      cnt, disk := 0, map[];
    }

    method IncrCount()
      modifies this`cnt
      ensures cnt == old(cnt) + 1
    {
      cnt := cnt + 1;
    }

    /** The count is given back whether or not the unlink succeeds. */
    method Evict(path: Path, unlinked: bool)
      modifies this
      ensures cnt == Uncounted(old(cnt))
      ensures disk == if unlinked then old(disk) - {path} else old(disk)
    {
      cnt := Uncounted(cnt);
      if unlinked {
        disk := disk - {path};
      }
    }
  }
}
