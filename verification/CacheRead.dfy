/** The producer loop of `FileStore::read`: chunks are hashed and sent on, and the hash is compared when
    the file ends. `CacheProtocol` interleaves these steps with those of other tasks. */
module CacheRead {
  import opened Machine
  import opened CacheTypes

  /** What one read call gives. */
  datatype Step = Chunk(bytes: Bytes) | Eof | Error

  /** `Gone`: the receiver was dropped; `Ended`: at the end of the file or on a read error; `Open`: more
      read calls are to come. */
  datatype End = Gone | Ended | Open

  function Prefixed(chunk: Bytes, r: (Bytes, End)): (Bytes, End) {
    (chunk + r.0, r.1)
  }

  /** What was sent and how it ended, when the receiver takes `accepts` chunks. */
  function Walk(steps: seq<Step>, accepts: nat): (Bytes, End)
    decreases |steps|
  {
    if steps == [] then ([], Open)
    else if !steps[0].Chunk? then ([], Ended)
    else if accepts == 0 then ([], Gone)
    else Prefixed(steps[0].bytes, Walk(steps[1..], accepts - 1))
  }

  method ReadAndVerify(steps: seq<Step>, accepts: nat, hash: Bytes -> Digest, expected: Digest)
    returns (sent: Bytes, end: End, unlink: bool)
    ensures (sent, end) == Walk(steps, accepts)
    ensures unlink <==> end.Ended? && hash(sent) != expected
  {
    hide Walk, Prefixed;
    sent := [];
    var i, left := 0, accepts;
    NothingSent(steps, accepts);
    while i < |steps| && steps[i].Chunk?
      invariant 0 <= i <= |steps|
      invariant Walk(steps, accepts) == Prefixed(sent, Walk(steps[i..], left))
      decreases |steps| - i
    {
      WalkChunk(sent, steps, i, left);
      if left == 0 {
        return sent, Gone, false;
      }
      sent := sent + steps[i].bytes;
      i, left := i + 1, left - 1;
    }
    WalkEnds(sent, steps, i, left);
    end := if i < |steps| then Ended else Open;
    unlink := end.Ended? && hash(sent) != expected;
  }

  lemma NothingSent(steps: seq<Step>, accepts: nat)
    ensures steps[0..] == steps && Walk(steps, accepts) == Prefixed([], Walk(steps, accepts))
  {
    assert [] + Walk(steps, accepts).0 == Walk(steps, accepts).0;
  }

  lemma WalkChunk(sent: Bytes, steps: seq<Step>, i: nat, left: nat)
    requires i < |steps| && steps[i].Chunk?
    ensures Prefixed(sent, Walk(steps[i..], left))
         == if left == 0 then (sent, Gone) else Prefixed(sent + steps[i].bytes, Walk(steps[i + 1..], left - 1))
  {
    assert steps[i..][1..] == steps[i + 1..];
    if left == 0 {
      assert sent + [] == sent;
    } else {
      var rest := Walk(steps[i + 1..], left - 1).0;
      assert sent + (steps[i].bytes + rest) == sent + steps[i].bytes + rest;
    }
  }

  lemma WalkEnds(sent: Bytes, steps: seq<Step>, i: nat, left: nat)
    requires i <= |steps| && (i < |steps| ==> !steps[i].Chunk?)
    ensures Prefixed(sent, Walk(steps[i..], left)) == (sent, if i < |steps| then Ended else Open)
  {
    assert sent + [] == sent;
  }

  /** The read calls see this content: the chunks are its successive parts, and the end of the file
      comes only after the last one. A read call may still fail. */
  predicate Sees(content: Bytes, steps: seq<Step>)
    decreases |steps|
  {
    steps == [] || match steps[0]
      case Error => true
      case Eof => content == []
      case Chunk(bytes) => bytes <= content && Sees(content[|bytes|..], steps[1..])
  }

  predicate Reliable(steps: seq<Step>) {
    forall i | 0 <= i < |steps| :: !steps[i].Error?
  }

  /** However the content is cut into chunks, what is sent is a prefix of it, and all of it once a file
      without read errors has ended. */
  lemma {:induction false} SentIsPrefix(content: Bytes, steps: seq<Step>, accepts: nat)
    requires Sees(content, steps)
    ensures var (sent, end) := Walk(steps, accepts);
            sent <= content && (end.Ended? && Reliable(steps) ==> sent == content)
    decreases |steps|
  {
    if steps != [] && steps[0].Chunk? && accepts > 0 {
      var chunk := steps[0].bytes;
      SentIsPrefix(content[|chunk|..], steps[1..], accepts - 1);
      assert content == chunk + content[|chunk|..];
    }
  }

  /** How many chunks come before the first other result, and how many bytes they have. */
  function Chunks(steps: seq<Step>): nat {
    if steps == [] || !steps[0].Chunk? then 0 else 1 + Chunks(steps[1..])
  }

  function Length(steps: seq<Step>): nat {
    if steps == [] || !steps[0].Chunk? then 0 else |steps[0].bytes| + Length(steps[1..])
  }

  /** A read error meets a receiver that took everything so far, with part of the content still unread. */
  predicate FailsShort(content: Bytes, steps: seq<Step>, accepts: nat) {
    && Chunks(steps) < |steps| && steps[Chunks(steps)].Error?
    && Chunks(steps) <= accepts && Length(steps) < |content|
  }

  lemma {:induction false} ChunksInside(steps: seq<Step>)
    ensures Chunks(steps) <= |steps| && (Chunks(steps) < |steps| ==> !steps[Chunks(steps)].Chunk?)
  {
    if steps != [] && steps[0].Chunk? {
      ChunksInside(steps[1..]);
    }
  }

  lemma {:induction false} EndsShortExactly(content: Bytes, steps: seq<Step>, accepts: nat)
    requires Sees(content, steps)
    ensures var (sent, end) := Walk(steps, accepts);
            sent <= content && (end.Ended? && sent != content <==> FailsShort(content, steps, accepts))
    decreases |steps|
  {
    if steps != [] && steps[0].Chunk? && accepts > 0 {
      var chunk, rest := steps[0].bytes, steps[1..];
      EndsShortExactly(content[|chunk|..], rest, accepts - 1);
      ChunksInside(rest);
      assert content == chunk + content[|chunk|..];
    }
  }

  /** When an untouched file is unlinked: exactly if a read error cuts it short for a receiver that is
      still there. The file is intact, and every later hit on it finds it gone. */
  lemma UnlinkedExactlyWhenShort(content: Bytes, steps: seq<Step>, accepts: nat, hash: Bytes -> Digest)
    requires Sees(content, steps)
    requires forall b :: hash(b) == hash(content) ==> b == content
    ensures var (sent, end) := Walk(steps, accepts);
            end.Ended? && hash(sent) != hash(content) <==> FailsShort(content, steps, accepts)
  {
    EndsShortExactly(content, steps, accepts);
  }

  /** Two bytes, a read error after the first: the intact file is unlinked. */
  lemma IntactFileIsUnlinked()
    ensures var content: Bytes, steps := [1, 2], [Chunk([1]), Error];
            Sees(content, steps) && FailsShort(content, steps, 1) && Walk(steps, 1) == ([1], Ended)
  {
    var content: Bytes, steps := [1, 2], [Chunk([1]), Error];
    assert steps[1..] == [Error] && content[1..] == [2] && [1] <= content;
    assert Walk([Error], 0) == ([], Ended) && Walk(steps, 1) == Prefixed([1], ([], Ended));
    var one: Bytes := [1];
    assert one + [] == one && Chunks([Error]) == 0 && Length([Error]) == 0;
  }

  /* ----------------------------- what a handle shows over time ----------------------------- */

  /** One successful read call: the bytes under the handle at that moment, and how many were returned
      from the current offset; none at the end of the file. */
  datatype Look = Look(content: Bytes, n: nat)

  function Total(looks: seq<Look>): nat {
    if looks == [] then 0 else Total(looks[..|looks| - 1]) + looks[|looks| - 1].n
  }

  predicate Shows(look: Look, offset: nat) {
    if look.n == 0 then |look.content| <= offset else offset + look.n <= |look.content|
  }

  predicate Possible(looks: seq<Look>) {
    looks == [] || (Possible(looks[..|looks| - 1]) && Shows(looks[|looks| - 1], Total(looks[..|looks| - 1])))
  }

  function Returned(look: Look, offset: nat): Bytes {
    if look.n > 0 && Shows(look, offset) then look.content[offset..offset + look.n] else []
  }

  function Got(looks: seq<Look>): Bytes {
    if looks == [] then []
    else
      var before := looks[..|looks| - 1];
      Got(before) + Returned(looks[|looks| - 1], Total(before))
  }

  /** Where a call read, the handle showed the bytes of `body`. */
  predicate Agrees(look: Look, offset: nat, body: Bytes) {
    offset + look.n <= |body| && Returned(look, offset) == body[offset..offset + look.n]
  }

  predicate Genuine(looks: seq<Look>, body: Bytes) {
    if looks == [] then true
    else
      var before := looks[..|looks| - 1];
      Genuine(before, body) && Agrees(looks[|looks| - 1], Total(before), body)
  }

  lemma {:induction false} GotLength(looks: seq<Look>)
    requires Possible(looks)
    ensures |Got(looks)| == Total(looks)
  {
    if looks != [] {
      GotLength(looks[..|looks| - 1]);
    }
  }

  lemma LastLook(looks: seq<Look>)
    requires looks != [] && Possible(looks)
    ensures var before, look := looks[..|looks| - 1], looks[|looks| - 1];
            && Possible(before) && |Returned(look, Total(before))| == look.n
            && Got(looks) == Got(before) + Returned(look, Total(before))
  {
  }

  /** What was read is the beginning of `body` exactly if each call saw `body` where it read. */
  lemma {:induction false} GotIsPrefixExactly(looks: seq<Look>, body: Bytes)
    requires Possible(looks)
    ensures Got(looks) <= body <==> Genuine(looks, body)
  {
    hide Possible, Total, Returned;
    if looks != [] {
      var before, look := looks[..|looks| - 1], looks[|looks| - 1];
      var offset := Total(before);
      LastLook(looks);
      GotLength(before);
      GotIsPrefixExactly(before, body);
      PrefixStep(Got(before), Returned(look, offset), body);
    }
  }

  lemma PrefixStep(a: Bytes, b: Bytes, body: Bytes)
    ensures a + b <= body <==> a <= body && |a| + |b| <= |body| && b == body[|a|..|a| + |b|]
  {
    if a + b <= body {
      assert a + b == body[..|a| + |b|];
      assert a == (a + b)[..|a|] && b == (a + b)[|a|..];
    }
    if a <= body && |a| + |b| <= |body| && b == body[|a|..|a| + |b|] {
      assert body[..|a| + |b|] == body[..|a|] + body[|a|..|a| + |b|];
    }
  }

  lemma GotExactly(looks: seq<Look>, body: Bytes)
    requires Possible(looks)
    ensures Got(looks) == body <==> Genuine(looks, body) && Total(looks) == |body|
  {
    GotLength(looks);
    GotIsPrefixExactly(looks, body);
    assert Got(looks) <= body && |Got(looks)| == |body| ==> Got(looks) == body;
  }

  /** The handle showed nothing but `body`. */
  predicate Untouched(looks: seq<Look>, body: Bytes) {
    forall i | 0 <= i < |looks| :: looks[i].content == body
  }

  predicate AtEnd(looks: seq<Look>) {
    looks != [] && looks[|looks| - 1].n == 0
  }

  lemma {:induction false} UntouchedIsGenuine(looks: seq<Look>, body: Bytes)
    requires Possible(looks) && Untouched(looks, body)
    ensures Genuine(looks, body) && (AtEnd(looks) ==> Total(looks) == |body|)
  {
    if looks != [] {
      var before, look := looks[..|looks| - 1], looks[|looks| - 1];
      UntouchedIsGenuine(before, body);
      GotLength(before);
      GotIsPrefixExactly(before, body);
    }
  }
}
