/** Reading an inbound PROXY protocol header (sections 2.1 and 2.2 of the HAProxy PROXY protocol
    specification) without touching the application data behind it. */
module ProxyHeader {
  import opened Wrappers
  import opened Machine

  const V2_SIGNATURE: Bytes := [13, 10, 13, 10, 0, 13, 10, 81, 85, 73, 84, 10]
  const V1_PREFIX: Bytes := [80, 82, 79, 88, 89, 32]
  const CR: byte := 13
  const LF: byte := 10
  const V2_HEADER_FIXED_SIZE := 16
  const V1_MAX_LENGTH := 107
  const V2_MAX_ADDR_LEN := 2048

  datatype Kind = V1 | V2 | Neither

  /** What a stream is, once enough of it is known. */
  function KindOf(data: Bytes): Option<Kind> {
    if V1_PREFIX <= data then Some(V1)
    else if |data| < V2_HEADER_FIXED_SIZE then None
    else if V2_SIGNATURE <= data then Some(V2)
    else Some(Neither)
  }

  /** Once known, the kind does not change with what arrives later. */
  lemma KindIsStable(data: Bytes, more: Bytes)
    requires KindOf(data).Some?
    ensures KindOf(data + more) == KindOf(data)
  {
  }

  /** A stream begins with at most one of the two markers. */
  lemma MarkersExclude(data: Bytes)
    requires V1_PREFIX <= data
    ensures !(V2_SIGNATURE <= data)
  {
    assert data[0] == V1_PREFIX[0] && V1_PREFIX[0] != V2_SIGNATURE[0];
  }

  /* --------------------------------- the peek loop --------------------------------- */

  datatype Peeked = Closed | Waiting | Decided(kind: Kind)

  /** How many bytes each successive peek shows; 0 means the connection was closed with nothing buffered. */
  type Schedule = seq<nat>

  predicate Possible(data: Bytes, schedule: Schedule) {
    forall i | 0 <= i < |schedule| :: schedule[i] <= V2_HEADER_FIXED_SIZE && schedule[i] <= |data|
  }

  /** Enough has arrived to stop peeking. */
  predicate Stops(data: Bytes, n: nat)
    requires n <= |data|
  {
    n >= V2_HEADER_FIXED_SIZE || (n >= 6 && data[..6] == V1_PREFIX)
  }

  /** The first peek that shows enough, or that finds the connection closed. */
  predicate Decisive(data: Bytes, schedule: Schedule, i: int)
    requires Possible(data, schedule)
  {
    && 0 <= i < |schedule| && (schedule[i] == 0 || Stops(data, schedule[i]))
    && forall j | 0 <= j < i :: schedule[j] != 0 && !Stops(data, schedule[j])
  }

  /** The decisive peek shows enough. */
  predicate Arrives(data: Bytes, schedule: Schedule)
    requires Possible(data, schedule)
  {
    exists i | 0 <= i < |schedule| :: Decisive(data, schedule, i) && schedule[i] != 0
  }

  /** The connection is closed before that. */
  predicate Closes(data: Bytes, schedule: Schedule)
    requires Possible(data, schedule)
  {
    exists i | 0 <= i < |schedule| :: Decisive(data, schedule, i) && schedule[i] == 0
  }

  lemma DecisiveIsUnique(data: Bytes, schedule: Schedule, i: nat)
    requires Possible(data, schedule) && Decisive(data, schedule, i)
    ensures Arrives(data, schedule) <==> schedule[i] != 0
    ensures Closes(data, schedule) <==> schedule[i] == 0
  {
    forall j | 0 <= j < |schedule| && Decisive(data, schedule, j)
      ensures i == j
    {
    }
  }

  lemma {:induction false} FirstStop(data: Bytes, schedule: Schedule, i: nat)
    requires Possible(data, schedule) && i < |schedule| && schedule[i] != 0 && Stops(data, schedule[i])
    requires forall j | 0 <= j < i :: schedule[j] != 0
    ensures Arrives(data, schedule)
    decreases i
  {
    if j :| 0 <= j < i && Stops(data, schedule[j]) {
      FirstStop(data, schedule, j);
    } else {
      assert Decisive(data, schedule, i);
    }
  }

  /** A peek of all 16 bytes is enough, as long as no earlier one finds the connection closed. */
  lemma FullPeekArrives(data: Bytes, schedule: Schedule, i: nat)
    requires Possible(data, schedule) && i < |schedule| && schedule[i] == 16
    requires forall j | 0 <= j < i :: schedule[j] != 0
    ensures Arrives(data, schedule)
  {
    FirstStop(data, schedule, i);
  }

  /** The peek loop and the choice of a parser. Whatever the arrival schedule, a decision is the kind of
      the stream, and it is made at the first peek that shows enough; the binary parser is chosen only
      with all 16 fixed bytes in view. */
  method PeekKind(data: Bytes, schedule: Schedule) returns (r: Peeked, n: nat)
    requires Possible(data, schedule)
    ensures r.Decided? <==> Arrives(data, schedule)
    ensures r.Decided? ==> KindOf(data) == Some(r.kind) && n in schedule && Stops(data, n)
    ensures r == Decided(V2) ==> n == V2_HEADER_FIXED_SIZE
    ensures r.Closed? <==> Closes(data, schedule)
    ensures r.Waiting? <==> forall i | 0 <= i < |schedule| :: schedule[i] != 0 && !Stops(data, schedule[i])
  {
    n := 0;
    var i := 0;
    while true
      invariant 0 <= i <= |schedule|
      invariant forall j | 0 <= j < i :: schedule[j] != 0 && !Stops(data, schedule[j])
      decreases |schedule| - i
    {
      if i == |schedule| {
        return Waiting, 0;
      }
      n := schedule[i];
      if n == 0 {
        DecisiveIsUnique(data, schedule, i);
        return Closed, 0;
      }
      if n >= V2_HEADER_FIXED_SIZE {
        break;
      }
      if n >= 6 && data[..6] == V1_PREFIX {
        break;
      }
      i := i + 1;
    }
    DecisiveIsUnique(data, schedule, i);
    if V1_PREFIX <= data {
      MarkersExclude(data);
    }
    var peeked := data[..n];
    assert peeked[..6] == data[..6];
    if n >= 12 && peeked[..12] == V2_SIGNATURE {
      assert V2_SIGNATURE <= data;
      return Decided(V2), n;
    } else if peeked[..6] == V1_PREFIX {
      return Decided(V1), n;
    }
    assert n >= V2_HEADER_FIXED_SIZE && peeked[..12] == data[..12];
    return Decided(Neither), n;
  }

  /* ------------------------------------ reading ------------------------------------ */

  /** The bytes still to be read; the connection ends behind them. */
  class Stream {
    var data: Bytes

    constructor (data: Bytes)
      ensures this.data == data
    {
      this.data := data;
    }

    /** `read_exact`; a short stream is used up. */
    method ReadExact(n: nat) returns (r: Option<Bytes>)
      modifies this
      ensures if n <= |old(data)| then r == Some(old(data)[..n]) && data == old(data)[n..] else r == None && data == []
    {
      if n <= |data| {
        r := Some(data[..n]);
        data := data[n..];
      } else {
        r, data := None, [];
      }
    }
  }

  predicate EndsLine(s: Bytes) {
    |s| >= 2 && s[|s| - 2] == CR && s[|s| - 1] == LF
  }

  /** No line ends within the first `n` bytes of `s`. */
  predicate NoLineEnd(s: Bytes, n: nat) {
    n <= |s| && forall j | 0 <= j <= n :: !EndsLine(s[..j])
  }

  /** `k` bytes reach through the first CR LF of `s`. */
  predicate LineEndsAt(s: Bytes, k: nat) {
    0 < k <= |s| && EndsLine(s[..k]) && NoLineEnd(s, k - 1)
  }

  /** One more byte ends the line if it is LF behind CR. */
  lemma LineStep(s: Bytes, n: nat)
    requires n < |s| && NoLineEnd(s, n)
    ensures if n > 0 && s[n - 1] == CR && s[n] == LF then LineEndsAt(s, n + 1) else NoLineEnd(s, n + 1)
  {
    assert EndsLine(s[..n + 1]) <==> n > 0 && s[n - 1] == CR && s[n] == LF;
  }

  lemma NoLineEndsThere(s: Bytes, n: nat, k: nat)
    requires NoLineEnd(s, n) && k <= n
    ensures !LineEndsAt(s, k)
  {
  }

  datatype Header = Malformed | Short | Header(bytes: Bytes)

  /** `parse_v1_inbound` up to the parser: success exactly when the first line ends within 107 bytes, and
      then exactly that line is consumed. */
  method ReadV1(stream: Stream) returns (r: Header)
    modifies stream
    ensures r.Header? <==> exists k | 0 <= k <= V1_MAX_LENGTH :: LineEndsAt(old(stream.data), k)
    ensures r.Header? ==> LineEndsAt(old(stream.data), |r.bytes|) && |r.bytes| <= V1_MAX_LENGTH
    ensures r.Header? ==> old(stream.data) == r.bytes + stream.data
    ensures r.Malformed? ==> |old(stream.data)| >= V1_MAX_LENGTH && stream.data == old(stream.data)[V1_MAX_LENGTH..]
    ensures r.Short? ==> |old(stream.data)| < V1_MAX_LENGTH && stream.data == []
  {
    hide NoLineEnd, LineEndsAt;
    ghost var all := stream.data;
    var bytes: Bytes, foundCr := [], false;
    assert NoLineEnd(all, 0) by { NothingRead(all); }
    while true
      invariant |bytes| < V1_MAX_LENGTH && |bytes| <= |all|
      invariant bytes == all[..|bytes|] && stream.data == all[|bytes|..]
      invariant foundCr <==> bytes != [] && bytes[|bytes| - 1] == CR
      invariant NoLineEnd(all, |bytes|)
      decreases |stream.data|
    {
      ghost var n := |bytes|;
      var next := stream.ReadExact(1);
      if next.None? {
        forall k | 0 <= k <= V1_MAX_LENGTH ensures !LineEndsAt(all, k) { BeyondTheEnd(all, n, k); }
        return Short;
      }
      LineStep(all, n);
      bytes := bytes + next.value;
      if foundCr && next.value[0] == LF {
        return Header(bytes);
      }
      foundCr := next.value[0] == CR;
      if |bytes| >= V1_MAX_LENGTH {
        forall k | 0 <= k <= V1_MAX_LENGTH ensures !LineEndsAt(all, k) { NoLineEndsThere(all, n + 1, k); }
        return Malformed;
      }
    }
  }

  lemma NothingRead(s: Bytes)
    ensures NoLineEnd(s, 0)
  {
  }

  lemma BeyondTheEnd(s: Bytes, n: nat, k: nat)
    requires n == |s| && NoLineEnd(s, n)
    ensures !LineEndsAt(s, k)
  {
    if k <= n {
      NoLineEndsThere(s, n, k);
    }
  }

  function AddrLen(data: Bytes): nat
    requires |data| >= V2_HEADER_FIXED_SIZE
  {
    data[14] as int * 256 + data[15] as int
  }

  /** `parse_v2_inbound` up to the parser: exactly the fixed part and the announced length are consumed,
      and nothing at all when that length is refused. */
  method ReadV2(stream: Stream) returns (r: Header)
    requires |stream.data| >= V2_HEADER_FIXED_SIZE
    modifies stream
    ensures var total := V2_HEADER_FIXED_SIZE + AddrLen(old(stream.data));
            if AddrLen(old(stream.data)) > V2_MAX_ADDR_LEN then r == Malformed && stream.data == old(stream.data)
            else if total > |old(stream.data)| then r == Short && stream.data == []
            else r == Header(old(stream.data)[..total]) && stream.data == old(stream.data)[total..]
  {
    var addrLen := AddrLen(stream.data);
    if addrLen > V2_MAX_ADDR_LEN {
      return Malformed;
    }
    var bytes := stream.ReadExact(V2_HEADER_FIXED_SIZE + addrLen);
    return if bytes.None? then Short else Header(bytes.value);
  }

  /** The length of the header that `data` begins with. */
  ghost predicate HeaderLength(data: Bytes, n: nat) {
    match KindOf(data)
    case Some(V1) => n <= V1_MAX_LENGTH && LineEndsAt(data, n)
    case Some(V2) => AddrLen(data) <= V2_MAX_ADDR_LEN && n == V2_HEADER_FIXED_SIZE + AddrLen(data) <= |data|
    case _ => false
  }

  datatype Outcome = Untrusted | Pending | Refused | Accepted(kind: Kind, header: Bytes)

  /** `parse_inbound_proxy_header` up to the parsers of the two formats. */
  method ParseInbound(stream: Stream, trusted: bool, schedule: Schedule) returns (r: Outcome)
    requires Possible(stream.data, schedule)
    modifies stream
    ensures !trusted ==> r == Untrusted && stream.data == old(stream.data)
    ensures r.Accepted? <==>
              && trusted && Arrives(old(stream.data), schedule)
              && exists n: nat :: HeaderLength(old(stream.data), n)
    ensures r.Accepted? ==>
              && trusted && KindOf(old(stream.data)) == Some(r.kind)
              && old(stream.data) == r.header + stream.data && HeaderLength(old(stream.data), |r.header|)
    ensures r.Refused? ==>
              || Closes(old(stream.data), schedule)
              || (KindOf(old(stream.data)).Some? && forall n: nat :: !HeaderLength(old(stream.data), n))
    ensures r.Pending? ==> stream.data == old(stream.data)
                           && forall i | 0 <= i < |schedule| :: schedule[i] != 0 && !Stops(stream.data, schedule[i])
    ensures r.Untrusted? ==> !trusted
  {
    if !trusted {
      return Untrusted;
    }
    ghost var data := stream.data;
    var peeked, n := PeekKind(stream.data, schedule);
    var header := Malformed;
    match peeked {
      case Closed => return Refused;
      case Waiting => return Pending;
      case Decided(V2) => header := ReadV2(stream);
      case Decided(V1) => header := ReadV1(stream);
      case Decided(Neither) =>
    }
    if !header.Header? {
      return Refused;
    }
    assert HeaderLength(data, |header.bytes|);
    return Accepted(peeked.kind, header.bytes);
  }

  /** Two arrival schedules of one stream never lead to different kinds or lengths. */
  lemma LengthIsUnique(data: Bytes, m: nat, n: nat)
    requires HeaderLength(data, m) && HeaderLength(data, n)
    ensures m == n
  {
  }

  /** A binary header with a length in network byte order, whatever its command, family and addresses. */
  lemma V2HeaderLength(command: byte, family: byte, hi: byte, lo: byte, rest: Bytes)
    ensures var data := V2_SIGNATURE + [command, family, hi, lo] + rest;
            && KindOf(data) == Some(V2)
            && forall n: nat :: HeaderLength(data, n) <==>
                 n == 16 + 256 * hi as int + lo as int && 256 * hi as int + lo as int <= 2048 && n <= |data|
  {
    var data := V2_SIGNATURE + [command, family, hi, lo] + rest;
    assert V2_SIGNATURE <= data && data[14] == hi && data[15] == lo;
    if V1_PREFIX <= data {
      MarkersExclude(data);
    }
  }

  /** A text header: everything through the first CR LF, if that is within 107 bytes. */
  lemma V1HeaderLength(line: Bytes, rest: Bytes)
    requires forall i | 0 <= i < |line| - 1 :: !(line[i] == CR && line[i + 1] == LF)
    ensures var data := V1_PREFIX + line + [CR, LF] + rest;
            && KindOf(data) == Some(V1)
            && forall n: nat :: HeaderLength(data, n) <==> n == |line| + 8 && n <= 107
  {
    var data := V1_PREFIX + line + [CR, LF] + rest;
    var k := |line| + 8;
    assert V1_PREFIX <= data && data[k - 2] == CR && data[k - 1] == LF;
    forall j | 0 <= j < k
      ensures !EndsLine(data[..j])
    {
      if 2 <= j <= 7 {
        assert data[j - 2] == V1_PREFIX[j - 2] != CR;
      } else if 8 <= j < k - 1 {
        assert data[j - 2] == line[j - 8] && data[j - 1] == line[j - 7];
      } else if j == k - 1 {
        assert data[j - 1] == CR;
      }
    }
    assert LineEndsAt(data, k);
    forall n: nat | HeaderLength(data, n)
      ensures n == k
    {
    }
  }

  /** What is neither is refused. */
  lemma NeitherHasNoHeader(data: Bytes)
    requires |data| >= 16 && data[..12] != V2_SIGNATURE && data[..6] != V1_PREFIX
    ensures KindOf(data) == Some(Neither) && forall n: nat :: !HeaderLength(data, n)
  {
  }

  /** What follows the header has no influence on it. */
  lemma HeaderIgnoresRest(data: Bytes, n: nat, more: Bytes)
    requires HeaderLength(data, n)
    ensures HeaderLength(data + more, n)
  {
    KindIsStable(data, more);
    if KindOf(data) == Some(V1) {
      forall j | 0 <= j <= n
        ensures (data + more)[..j] == data[..j]
      {
      }
    }
  }
}
