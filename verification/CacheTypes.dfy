/** Data of the hybrid response cache: what a stored object is and where its bytes live. */
module CacheTypes {
  import opened Machine

  /** The LRU key: the client-facing effective URI, as text. */
  type Key = string

  /** A generation-unique file name. Only `serial`, drawn from a process-wide counter, makes it
      unique; `base` (derived from the URI) and `nanos` may repeat. */
  datatype Path = Path(base: Key, nanos: nat, serial: nat)

  datatype Target =
    | File(path: Path)
    | OnMemory(bytes: Bytes)

  /** The message digest is a parameter: nothing is assumed about it unless a lemma says so. */
  type Digest = Bytes

  datatype CacheObject = CacheObject(target: Target, hash: Digest, generation: nat)
}
