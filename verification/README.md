# rpxy in Dafny

rpxy is an HTTP reverse proxy. This project models the parts of it that hold state machines, parsers or
concurrent protocols, and proves what they promise for every input, every run and every reachable state.

* **Response cache** (`CacheTypes`, `CacheStore`, `CacheSpool`, `CacheRead`, `CacheProtocol`, `CacheSafety`,
  `CacheTheorems`, `CacheRuns`, `CacheMethods`, `CacheEndToEnd`). The store loop and the read loop are imperative. Publishing, looking
  up and evicting are a transition system: any number of tasks, each at one program point, interleave at the
  granularity of one mutex section, one atomic operation or one file-system call. All choices (which entry a push
  displaces, failures, chunking, staleness, tampering with files and open handles) are in the action, so that a run is
  a sequence of actions. `CacheSafety` shows that six invariants survive each of the 22 actions, `CacheTheorems` states
  the results, `CacheMethods` shows that the code on its mutable objects takes these steps, and `CacheEndToEnd` that
  the store loop does, up to what a later get delivers.
* **Forwarding headers** (`HttpText`, `QuotedText`, `IpText`, `Forwarded`, `ForwardedParams`, `ForwardedRoundTrip`,
  `TrustBoundary`, `Headers`, `Forwarding`, `ReadableText`, `ForwardingTheorems`, `ForwardingHeaders`,
  `ForwardingSources`, `ForwardingRoute`). Parser and
  printer of `Forwarded` (sections 4 and 6 of RFC 7239, quoted strings as in section 3.2.6 of RFC 7230) and of
  X-Forwarded-For, the reduction at the trust boundary, the rewriting of the header map in place, and the second pass
  that makes a `Forwarded` value from what the first pass wrote. The main results are the round trip, the fixed point,
  and what a whole route of proxies records.
* **Cookies and sticky sessions** (`Cookies`, `CookieTokens`, `Base64Url`, `Utf8`, `StickySeal`,
  `StickySession`). Cookie merging and
  removal, the sealed token, and the session theorem that joins these with the load balancer.
* **Load balancing and health** (`LoadBalance`, `HealthCheck`). Fairness of round robin, and health as a property of
  the whole probe history.
* **Admission** (`Admission`, `PerIpLimit`). The compare-and-exchange counter as a machine over single atomic steps,
  and the per-address slots.
* **Inbound PROXY header and routing** (`ProxyHeader`, `PathRouter`).

`Wrappers` and `Machine` hold `Option` and the machine integers.

Parameters stand for code outside the repository: the digest is a function (assumed free of collisions only where a
lemma says so), AES-256-GCM is a pair of functions whose decryption accepts exactly what encryption makes, IPv6 text is
a formatter and a parser with three laws, and the trusted networks are a predicate on addresses.

## Where the code does less than its comments say

* A file hit is sent chunk by chunk before its hash is known (`cache_main.rs:591-628`): a changed file and a failing
  read end normally for the client. `FileResponseIsExact` says when the response is the stored body.
* The sticky cookie is meant never to reach the upstream (`sticky_cookie.rs:10-12`), and merging to lose no cookie:
  a Cookie line that is not ASCII counts as empty, so that its sticky cookie can pass and its other cookies can be lost.
  `RequestForwardsStickyExactly` and `RequestKeepsOthersExactly` say when.
* Rewriting the path of an absolute-form request with a query and no path drops the question mark; `RouteIsPrefixExactly`.
* Setting the sticky cookie is meant to replace an earlier one: a Set-Cookie line that is not ASCII counts as empty, so
  that an old value in it stays. `SetStickyReplacesExactly` says when, `OldStickySurvives` shows it.
* The round-robin counter is reset near its end so that turns go on (`load_balance_main.rs:125-133`). Even a lone caller
  can pick the same upstream twice there, since the number of values between two resets need not be a multiple of the
  number of upstreams (`LoneCallerIsInTurnExactly`, `LoneCallerRepeatsATurn`), and callers that meet at the end can draw
  one counter value twice (`CallersDrawInOrder`, `RacingResetsRepeatAValue`).

## Model

| member | source | states |
|---|---|---|
| CacheStore.PushConserves | rpxy-lib/src/forwarder/cache/cache_main.rs:735-745 | an LRU push inserts the new entry and changes no other; at most one is lost, and the size never exceeds the capacity |
| CacheStore.PushDisplacesOnlyWhenFull | rpxy-lib/src/forwarder/cache/cache_main.rs:735-745 | a push replaces the key's own entry; a new key is added while there is room, and nothing is displaced; only a full cache gives up one other entry; all the rest stay as they are |
| CacheStore.LruCacheManager.Push | rpxy-lib/src/forwarder/cache/cache_main.rs:735-745 | push under the mutex: the key's own entry is replaced, a new one is added while there is room, and only a full cache gives up one other entry, which is handed out; the total stays the size; a poisoned mutex is an error and changes nothing |
| CacheStore.LruCacheManager.EvictIfGeneration | rpxy-lib/src/forwarder/cache/cache_main.rs:708-733 | an entry is popped exactly if it still has the observed generation |
| CacheSpool.SpoolAndStore | rpxy-lib/src/forwarder/cache/cache_main.rs:334-446 | for every body, limits and pattern of failures: the frames reach the receiver in order until it goes away; an object is stored if and only if the whole error-free body fits and the file operations it needs succeed; it is the body and its hash, on memory exactly when within the memory limit; no temporary file stays unless it cannot be unlinked; the buffer stays within the memory limit |
| CacheSpool.Spill | rpxy-lib/src/forwarder/cache/cache_main.rs:260-318 | moving the buffer and a frame to the temporary file, with the clean-up of each failing step |
| CacheSpool.Commit | rpxy-lib/src/forwarder/cache/cache_main.rs:289-318 | flush and rename publish the spilled bytes under the final name, or the temporary file is removed |
| CacheSpool.SaturationKeepsTheLimit | rpxy-lib/src/forwarder/cache/cache_main.rs:334-446 | a body that passes the saturating size test is within the limit for every limit but the largest usize, where every body passes |
| CacheSpool.SmoothStore | rpxy-lib/src/forwarder/cache/cache_main.rs:334-446 | when nothing goes wrong an error-free body is stored exactly within the size limit, and on memory exactly within the memory limit |
| CacheRead.ReadAndVerify | rpxy-lib/src/forwarder/cache/cache_main.rs:581-635 | the producer loop sends the chunks in order and asks for an unlink exactly if it came to an end with another hash |
| CacheRead.SentIsPrefix | rpxy-lib/src/forwarder/cache/cache_main.rs:581-635 | for every chunking what is sent is a prefix of the content, and all of it when a file without read errors has ended |
| CacheRead.UnlinkedExactlyWhenShort | rpxy-lib/src/forwarder/cache/cache_main.rs:591-628 | an untouched file is unlinked if and only if a read call fails, for a receiver that took everything so far, with part of the content unread |
| CacheRead.IntactFileIsUnlinked | rpxy-lib/src/forwarder/cache/cache_main.rs:591-628 | such a case: two bytes and an error after the first |
| CacheRead.GotExactly | rpxy-lib/src/forwarder/cache/cache_main.rs:591-617 | what the calls on a changing handle returned is a given body if and only if each call saw that body where it read and together they read all of it |
| CacheMethods.RpxyCache.PublishCacheObject | rpxy-lib/src/forwarder/cache/cache_main.rs:456-498 | a run of the protocol that replaces the entry of the key, adds a new one while there is room or displaces one from a full cache; exactly the displaced file, or the new one when the push failed, is removed and given back |
| CacheMethods.RpxyCache.Get | rpxy-lib/src/forwarder/cache/cache_main.rs:156-213 | a run of the protocol: a miss exactly if the mutex is poisoned or the entry is missing, stale or its file does not open, and then exactly that entry, if any, and its file go; a hit hands out the body in memory or the content of the file |
| CacheMethods.RpxyCache.EvictObserved | rpxy-lib/src/forwarder/cache/cache_main.rs:165-198 | the eviction of an observed object pops it only while its generation is current, and then removes its file |
| CacheMethods.RpxyCache.RemoveFile | rpxy-lib/src/forwarder/cache/cache_main.rs:540-577 | the counted removal is the two protocol steps, in this order |
| CacheSafety.InvKept | rpxy-lib/src/forwarder/cache/cache_main.rs:156-758 | each of the 22 steps keeps the invariant of counts, owners, objects, files, decrements and responses |
| CacheSafety.RunKeepsInv | rpxy-lib/src/forwarder/cache/cache_main.rs:156-758 | so does every run |
| CacheTheorems.FileCountIsExact | rpxy-lib/src/forwarder/cache/cache_main.rs:456-577 | in every interleaving the file count is the live file entries plus the files counted and not yet published plus those removed and not yet given back; the saturating decrement never saturates; at quiescence both counters are exact |
| CacheTheorems.EveryFileHasOneOwner | rpxy-lib/src/forwarder/cache/cache_main.rs:216-235 | in every reachable state a file on disk belongs to exactly one LRU entry or task in flight, unless an unlink failed on it or it was put there from outside |
| CacheTheorems.OwnersAreUnique | rpxy-lib/src/forwarder/cache/cache_main.rs:216-235 | no file, on disk or not, has two owners |
| CacheTheorems.EvictionRemovesOnlyTheObserved | rpxy-lib/src/forwarder/cache/cache_main.rs:156-213 | a get acting on an old snapshot removes the object it observed or nothing |
| CacheTheorems.EntriesLeaveOnlyForCause | rpxy-lib/src/forwarder/cache/cache_main.rs:156-758 | in every interleaving an entry leaves or changes only by a publication under its key, by one under a new key while the cache is full, or by an eviction that looked up this very object |
| CacheTheorems.RemovalSparesOtherFiles | rpxy-lib/src/forwarder/cache/cache_main.rs:540-577 | no eviction unlinks the file of a live entry or of a store in progress |
| CacheTheorems.UncountedAtMostOnce | rpxy-lib/src/forwarder/cache/cache_main.rs:555-635 | each file is given back at most once, also after an integrity unlink, and never while an entry is live |
| CacheTheorems.NoOrphanFiles | rpxy-lib/src/forwarder/cache/cache_main.rs:216-318 | at quiescence every file belongs to a live entry unless an unlink failed on it, and no temporary file is left |
| CacheTheorems.LiveFilesArePresent | rpxy-lib/src/forwarder/cache/cache_main.rs:456-498 | a live file entry has its file, with the body committed for its key and the matching hash |
| CacheTheorems.HitsDeliverStoredBodies | rpxy-lib/src/forwarder/cache/cache_main.rs:118-213 | an on-memory hit, and a file hit that reached the end of an untampered file, deliver exactly one complete body stored earlier under their key |
| CacheTheorems.FileResponseIsExact | rpxy-lib/src/forwarder/cache/cache_main.rs:581-635 | every file response that came to its end, in every reachable state: it is the committed body of the object looked up if and only if each read call found the committed bytes where it read and together they read all of them |
| CacheTheorems.UntamperedResponseIsPrefix | rpxy-lib/src/forwarder/cache/cache_main.rs:581-635 | without tampering it is a prefix of that body, cut short if and only if a read call failed before all was read |
| CacheTheorems.WrongBodyIsNoticedAfterwards | rpxy-lib/src/forwarder/cache/cache_main.rs:618-628 | the file is unlinked exactly if the response just sent was not the committed body |
| CacheTheorems.WrongBodyIsRemoved | rpxy-lib/src/forwarder/cache/cache_main.rs:618-635 | and then its file is removed, with the count and the entry left as they are |
| CacheRuns.TamperedFileIsServed | rpxy-lib/src/forwarder/cache/cache_main.rs:591-628 | a run in which a changed file is served to a normal end although no such body was stored |
| CacheRuns.FailedReadIsServed | rpxy-lib/src/forwarder/cache/cache_main.rs:591-628 | a run without tampering in which a failing read ends a body short |
| CacheTheorems.CompleteReadOfIntactFile | rpxy-lib/src/forwarder/cache/cache_main.rs:581-635 | in every interleaving a read of an untampered file sends a prefix of the stored body, the whole of it at the end, and does not unlink the file |
| CacheEndToEnd.StoreIsARun | rpxy-lib/src/forwarder/cache/cache_main.rs:334-446 | every outcome of the store loop, an object or a failure at any point, is a run of the protocol that leaves the same directory: committing the spilled file, keeping the body on memory, aborting with a file that could not be unlinked, or nothing |
| CacheEndToEnd.StoredBodyIsServed | rpxy-lib/src/forwarder/cache/cache_main.rs:118-213 | what the store loop stored can be published and looked up; a get then delivers that body, from memory at once, and from a file to every reader that reaches its end, in every interleaving with other tasks and for every chunking, unless the file is touched from outside |
| CacheEndToEnd.CommittedIsGivenBack | rpxy-lib/src/forwarder/cache/cache_main.rs:581-635 | in every run after a commit, a reader that reaches the end of the untampered file delivers the body committed there, and the file stays |
| HttpText.DecValue | rpxy-lib/src/message_handler/header_ops/forwarding.rs:612-633 | decimal text and its value are inverse, with the digit counts the port parser relies on |
| QuotedText.SplitRespectingQuotes | rpxy-lib/src/message_handler/header_ops/forwarding.rs:449-471 | the loop computes the segments of the quote automaton |
| QuotedText.SplitJoin | rpxy-lib/src/message_handler/header_ops/forwarding.rs:449-471 | splitting at the delimiter undoes joining, for pieces without a delimiter outside quotes |
| QuotedText.UnquoteHttpValue | rpxy-lib/src/message_handler/header_ops/forwarding.rs:474-500 | the loop computes the recursive definition of unquoting, including a dangling backslash |
| QuotedText.UnescapeEscape | rpxy-lib/src/message_handler/header_ops/forwarding.rs:474-500 | unescaping undoes escaping for every text |
| QuotedText.UnescapeFailsExactly | rpxy-lib/src/message_handler/header_ops/forwarding.rs:474-500 | an escaped text cannot be read if and only if it ends with an odd number of backslashes |
| QuotedText.UnquoteExactly | rpxy-lib/src/message_handler/header_ops/forwarding.rs:474-500 | a value that begins with a quote is read if and only if it also ends with one, outside an escape; any other value is itself |
| QuotedText.QuotedIsWhole | rpxy-lib/src/message_handler/header_ops/forwarding.rs:769-784 | a quoted string is one piece for every delimiter and unquotes to what was quoted |
| QuotedText.WriteParamValue | rpxy-lib/src/message_handler/header_ops/forwarding.rs:769-784 | the writer appends the token itself or its quoted form |
| QuotedText.PlainIfToken | rpxy-lib/src/message_handler/header_ops/forwarding.rs:759-784 | a value is written as it is exactly when it is a token, and in quotes otherwise |
| QuotedText.ParamRoundTrip | rpxy-lib/src/message_handler/header_ops/forwarding.rs:759-784 | every parameter value, also empty or with quotes, commas and backslashes, survives writing and reading |
| IpText.CanonicalIsIdempotent | rpxy-lib/src/message_handler/canonical_address.rs:8-24 | canonicalisation is idempotent, and the canonical addresses are exactly its results |
| IpText.CanonicalExactly | rpxy-lib/src/message_handler/canonical_address.rs:8-24 | the compatible and mapped forms, in network byte order, mean the IPv4 address they embed, but for 0.0.0.1; every other address means itself |
| IpText.V4RoundTrip | rpxy-lib/src/message_handler/header_ops/forwarding.rs:675-697 | dotted IPv4 text reads back as the same address |
| IpText.V4TextExactly | rpxy-lib/src/message_handler/header_ops/forwarding.rs:675-697 | the four numbers in order with dots between them, and no other text, are read as an address |
| Forwarded.ParseForwardedHeaderEntry | rpxy-lib/src/message_handler/header_ops/forwarding.rs:331-382 | the parameter loop computes the recursive reading of one entry: duplicates, unknown keys, a missing `for` |
| ForwardedParams.EntryIsExact | rpxy-lib/src/message_handler/header_ops/forwarding.rs:331-382 | for every text: an entry is read if and only if, in any order and any case of the names, it has one `for` that is a node and at most one readable `proto`, `host` and `by`; those values make the entry and nothing else in it matters |
| ForwardedParams.DuplicateIsRefused | rpxy-lib/src/message_handler/header_ops/forwarding.rs:346-368 | two parameters of one name make the entry unreadable wherever they stand |
| ForwardedParams.UnknownIsIgnored | rpxy-lib/src/message_handler/header_ops/forwarding.rs:341-371 | a parameter with another name, or without an equals sign, changes nothing wherever it stands |
| ForwardedParams.UnknownHasNoValue | rpxy-lib/src/message_handler/header_ops/forwarding.rs:341-371 | which parameters those are |
| ForwardedParams.WithoutForIsRefused | rpxy-lib/src/message_handler/header_ops/forwarding.rs:373-375 | an entry without `for` is unreadable |
| ForwardedParams.EntriesAreExact | rpxy-lib/src/message_handler/header_ops/forwarding.rs:317-328 | empty elements of the field are passed over, the others read one by one, and one that fails spoils the field |
| Forwarded.ParseForwardedHeader | rpxy-lib/src/message_handler/header_ops/forwarding.rs:317-328 | the entry loop computes the reading of the whole value |
| Forwarded.GenerateForwardedHeader | rpxy-lib/src/message_handler/header_ops/forwarding.rs:729-756 | the writer joins the entries in one buffer and fails exactly on an empty chain or an unwritable node |
| ForwardedRoundTrip.PortRoundTrip | rpxy-lib/src/message_handler/header_ops/forwarding.rs:589-633 | numeric and obfuscated ports read back |
| ForwardedRoundTrip.NodeRoundTrip | rpxy-lib/src/message_handler/header_ops/forwarding.rs:511-586 | every well-formed node reads back, quoted where a port or a bracket requires it |
| ForwardedRoundTrip.UnknownInAnyCase | rpxy-lib/src/message_handler/header_ops/forwarding.rs:511-586 | `unknown` is read in any case, with a port or without |
| ForwardedRoundTrip.UnderscoreIsObfuscated | rpxy-lib/src/message_handler/header_ops/forwarding.rs:511-586 | what begins with an underscore is an obfuscated identifier or unreadable, never an address |
| ForwardedRoundTrip.NumericPort | rpxy-lib/src/message_handler/header_ops/forwarding.rs:612-633 | one to five digits, leading zeros allowed, are the port of that number; longer and other text is refused |
| ForwardedRoundTrip.QuotedIfNoToken | rpxy-lib/src/message_handler/header_ops/forwarding.rs:787-826 | a node is quoted exactly when it is not a token |
| ForwardedRoundTrip.EntryRoundTrip | rpxy-lib/src/message_handler/header_ops/forwarding.rs:331-382 | every well-formed entry reads back with its parameters |
| ForwardedRoundTrip.RespeltEntryRoundTrip | rpxy-lib/src/message_handler/header_ops/forwarding.rs:331-382 | what is written for an entry is read back whatever the case of its parameter names |
| ForwardedRoundTrip.GenerateParses | rpxy-lib/src/message_handler/header_ops/forwarding.rs:317-382 | parsing a generated header gives back the identical chain, for every non-empty well-formed chain |
| ForwardedRoundTrip.GenerateFailsExactly | rpxy-lib/src/message_handler/header_ops/forwarding.rs:729-756 | of well-formed chains only the empty one cannot be written; a node in an invalid state never can |
| TrustBoundary.ReduceTrustedProxyChain | rpxy-lib/src/message_handler/header_ops/forwarding.rs:263-282 | the loop computes the reduction |
| TrustBoundary.ReduceIsLongest | rpxy-lib/src/message_handler/header_ops/forwarding.rs:263-282 | the reduction is the longest suffix whose every hop but the first is trusted |
| TrustBoundary.ReductionIsUnique | rpxy-lib/src/message_handler/header_ops/forwarding.rs:263-282 | that property determines it |
| TrustBoundary.ReduceIsIdempotent | rpxy-lib/src/message_handler/header_ops/forwarding.rs:263-282 | reducing again changes nothing |
| TrustBoundary.LeftOfBoundaryIsIrrelevant | rpxy-lib/src/message_handler/header_ops/forwarding.rs:263-282 | hops added on the left change nothing if and only if some hop of the chain is untrusted |
| TrustBoundary.ReduceExactly | rpxy-lib/src/message_handler/header_ops/forwarding.rs:263-282 | the last hop outside the configured networks, or without an address, is the boundary and everything in front of it goes; without one the chain stays |
| Headers.JoinHeaderValues | rpxy-lib/src/message_handler/header_ops/forwarding.rs:428-446 | all lines of a field are joined, and one unreadable line anywhere is an error |
| Headers.HeaderMap.Insert | rpxy-lib/src/message_handler/header_ops/common.rs:6-21 | one value replaces all lines of a name, or the text is refused and nothing changes |
| Forwarding.ParsedEntriesAreWf | rpxy-lib/src/message_handler/header_ops/forwarding.rs:317-382 | the parser yields well-formed chains only |
| Forwarding.ParseIsNormalising | rpxy-lib/src/message_handler/header_ops/forwarding.rs:317-382 | whatever value parses, writing and reading it again gives the same chain |
| Forwarding.ParsedHops | rpxy-lib/src/message_handler/header_ops/forwarding.rs:289-313 | X-Forwarded-For yields one canonical address for each element |
| Forwarding.ExtractedIsWf | rpxy-lib/src/message_handler/header_ops/forwarding.rs:226-261 | so the extracted chain is well-formed whatever the header |
| ReadableText.ExtractedIsReadable | rpxy-lib/src/message_handler/header_ops/forwarding.rs:226-261 | the parameters of an extracted chain are readable text |
| ReadableText.GeneratedIsReadable | rpxy-lib/src/message_handler/header_ops/forwarding.rs:729-756 | writing such a chain never fails and gives a legal, readable header value |
| ForwardingTheorems.NormalizedChain | rpxy-lib/src/message_handler/header_ops/forwarding.rs:188-221 | a trusted peer that sends a chain gives the longest suffix of it and the peer behind whose first hop everything is trusted, any other peer itself alone; the peer entry has the scheme and the host this proxy saw; reducing again is void |
| ForwardingTheorems.PrefixIsIrrelevant | rpxy-lib/src/message_handler/header_ops/forwarding.rs:188-221 | entries added in front of a received chain leave the normalised chain unchanged if and only if some received hop is not trusted |
| ForwardingTheorems.FrontLinesAreIrrelevant | rpxy-lib/src/message_handler/header_ops/forwarding.rs:188-261 | on the header: X-Forwarded-For lines of any parseable text put in front of the received ones leave the normalised chain unchanged if and only if some received hop is not trusted |
| ForwardingTheorems.ExtractWithFront | rpxy-lib/src/message_handler/header_ops/forwarding.rs:226-261 | such lines put their hops in front of the received chain, which keeps its scheme |
| ForwardingTheorems.ViewIsNormal | rpxy-lib/src/message_handler/header_ops/forwarding.rs:114-130 | the same for the chain the outgoing headers use, all of whose hops have addresses |
| ForwardingTheorems.BareIpRoundTrip | rpxy-lib/src/message_handler/header_ops/forwarding.rs:503-586 | an address as X-Forwarded-For shows it reads back, so a bare IPv6 address is not cut at a colon |
| ForwardingTheorems.HopsRoundTrip | rpxy-lib/src/message_handler/header_ops/forwarding.rs:289-313 | the list written for a chain reads back as its addresses, the scheme and host on the last |
| ForwardingTheorems.ElementsExactly | rpxy-lib/src/message_handler/header_ops/forwarding.rs:289-294 | blank elements of X-Forwarded-For are passed over and white space around the others is cut off |
| ForwardingTheorems.ReduceByIps | rpxy-lib/src/message_handler/header_ops/forwarding.rs:263-282 | the reduction depends on the addresses only |
| ForwardingTheorems.EmittedIsFixedPoint | rpxy-lib/src/message_handler/header_ops/upstream.rs:79-94 | fields written for a reduced chain pass the consistency test, and extracting and reducing them again gives the same addresses |
| ForwardingSources.ForwardedAlone | rpxy-lib/src/message_handler/header_ops/forwarding.rs:226-261 | without X-Forwarded-For, the hops that Forwarded lists, on any number of lines, are the chain |
| ForwardingSources.ForwardedAloneIsNormalized | rpxy-lib/src/message_handler/header_ops/forwarding.rs:188-221 | from a trusted peer these hops up to the trust boundary, and the peer, are the normalised chain |
| ForwardingSources.ForwardedAloneIsRecorded | rpxy-lib/src/message_handler/header_ops/forwarding.rs:105-181 | and the header sent on lists them, or the peer alone if one of them has no address |
| ForwardingSources.BadForwardedAlone | rpxy-lib/src/message_handler/header_ops/forwarding.rs:226-261 | a Forwarded that is not text or does not parse is refused when it is alone, and the peer alone is left |
| ForwardingSources.BelievedIfAgreed | rpxy-lib/src/message_handler/header_ops/forwarding.rs:226-261 | next to X-Forwarded-For, Forwarded is believed if and only if they agree |
| ForwardingSources.AgreeExactly | rpxy-lib/src/message_handler/header_ops/forwarding.rs:385-408 | they agree if and only if they have the same addresses hop by hop and, where both say it, the same scheme of the last hop, case and white space aside |
| ForwardingSources.SchemesDisagree | rpxy-lib/src/message_handler/header_ops/forwarding.rs:385-408 | http against https is a disagreement |
| ForwardingSources.XffAlone | rpxy-lib/src/message_handler/header_ops/forwarding.rs:226-261 | X-Forwarded-For stands alone if there is no Forwarded, or none that parses |
| ForwardingSources.BadXffSpoils | rpxy-lib/src/message_handler/header_ops/forwarding.rs:226-261 | X-Forwarded-For that does not parse spoils everything |
| ForwardingSources.SchemeIsTheFirstLine | rpxy-lib/src/message_handler/header_ops/forwarding.rs:289-313 | the scheme that goes with X-Forwarded-For is the first line of X-Forwarded-Proto, trimmed, and if that is not text the list counts for nothing |
| ForwardingHeaders.ParseXForwardedFor | rpxy-lib/src/message_handler/header_ops/forwarding.rs:289-313 | the loop computes the recursive reading, failing on the first bad element |
| ForwardingHeaders.XffCsvFromChain | rpxy-lib/src/message_handler/header_ops/forwarding.rs:705-722 | the list, failing exactly on a hop without address or an empty chain, and the length of its first element |
| ForwardingHeaders.OverwriteXForwardedHost | rpxy-lib/src/message_handler/header_ops/forwarding.rs:19-31 | the field has exactly the authoritative host, or is absent |
| ForwardingHeaders.Describe | rpxy-lib/src/message_handler/header_ops/forwarding.rs:157-178 | the fixed fields are all overwritten; only the URI can be refused |
| ForwardingHeaders.WriteChain | rpxy-lib/src/message_handler/header_ops/forwarding.rs:136-151 | X-Forwarded-For is replaced; Forwarded is regenerated exactly if it was there |
| ForwardingHeaders.AddForwardingHeader | rpxy-lib/src/message_handler/header_ops/forwarding.rs:105-181 | it fails if and only if the URI is no header value; otherwise the header carries the reduced chain in X-Forwarded-For and, if it was there, in Forwarded, the first address in X-Real-IP, the fixed fields and merged cookies, and is otherwise unchanged; after a failure exactly the fields before the URI are written |
| ForwardingHeaders.OutputIsFixedPoint | rpxy-lib/src/message_handler/header_ops/forwarding.rs:105-181 | whatever header comes in, the one sent on is consistent, and extracting and reducing it again gives the same addresses |
| ForwardingHeaders.ViewIsReadable | rpxy-lib/src/message_handler/header_ops/forwarding.rs:105-181 | the chain can always be written, so the arm for a failed generation is never taken |
| ForwardingRoute.ApplyUpstreamOptions | rpxy-lib/src/message_handler/header_ops/upstream.rs:49-97 | it fails if and only if the upstream host is asked for and missing, or a Forwarded value is asked for and the header does not parse; which fields it writes, that it writes no other, and what is written after a failure |
| ForwardingRoute.AddForwarded | rpxy-lib/src/message_handler/header_ops/upstream.rs:77-94 | the second extract, reduce and generate pass |
| ForwardingRoute.DerivedForwardedAgrees | rpxy-lib/src/message_handler/header_ops/upstream.rs:77-94 | after the first pass the second one always succeeds, lists exactly the addresses of X-Forwarded-For and is consistent with it |
| ForwardingRoute.DerivedReads | rpxy-lib/src/message_handler/header_ops/upstream.rs:77-94 | a Forwarded value made by the option reads as the received chain up to the trust boundary |
| ForwardingRoute.AddressesComeFromXff | rpxy-lib/src/message_handler/header_ops/forwarding.rs:226-261 | with X-Forwarded-For present its addresses decide, whatever Forwarded says |
| ForwardingRoute.RewrittenSends | rpxy-lib/src/message_handler/handler_manipulate_messages.rs:112-178 | the header sent on after both passes carries the chain to the next proxy |
| ForwardingRoute.NextHop | rpxy-lib/src/message_handler/header_ops/forwarding.rs:188-221 | a trusting next proxy keeps what it was sent up to its own boundary and adds its peer; any other one starts afresh |
| ForwardingRoute.RouteIsRecorded | rpxy-lib/src/message_handler/header_ops/forwarding.rs:105-181 | along any number of mutually trusting proxies the last one lists exactly the peers each of them saw, whatever the client sent |
| Cookies.MakeCookieSingleLine | rpxy-lib/src/message_handler/header_ops/common.rs:26-49 | the lines are merged in place, and no other field changes |
| CookieTokens.SingleLineKeepsCookies | rpxy-lib/src/message_handler/header_ops/common.rs:26-49 | merging keeps every cookie, in order, if and only if there are fewer than two lines or all are readable |
| CookieTokens.MergedTokens | rpxy-lib/src/message_handler/header_ops/common.rs:26-49 | two or more lines become one readable line with exactly the cookies of the readable ones |
| CookieTokens.MergingLosesACookie | rpxy-lib/src/message_handler/header_ops/common.rs:26-49 | a cookie that is not ASCII, next to another line, is lost |
| CookieTokens.StickyIsForwardedExactly | rpxy-lib/src/message_handler/header_ops/sticky_cookie.rs:22-45 | the takeout leaves the sticky cookie to the upstream if and only if it stands on unreadable lines only |
| CookieTokens.TakeoutKeepsOthersExactly | rpxy-lib/src/message_handler/header_ops/sticky_cookie.rs:22-45 | the upstream gets exactly the other cookies if and only if: when no readable line holds the sticky cookie no line does, and otherwise the unreadable lines hold nothing else |
| Cookies.StickyByName | rpxy-lib/src/message_handler/header_ops/sticky_cookie.rs:22-45 | a cookie is the sticky one exactly if that is its whole name |
| CookieTokens.StickyPassesUnseen | rpxy-lib/src/message_handler/header_ops/sticky_cookie.rs:22-45 | a sticky cookie that shares its line with a non-ASCII cookie goes upstream |
| CookieTokens.RequestForwardsStickyExactly | rpxy-lib/src/message_handler/handler_manipulate_messages.rs:112-160 | merged first, a request leaves its sticky cookie to the upstream if and only if it has a single Cookie line, unreadable and with that cookie on it |
| CookieTokens.RequestKeepsOthersExactly | rpxy-lib/src/message_handler/handler_manipulate_messages.rs:112-160 | and the upstream gets exactly the other cookies if and only if a single line is readable or holds no sticky cookie, or of several the unreadable ones hold nothing but sticky cookies |
| Cookies.SetStickyCookie | rpxy-lib/src/message_handler/header_ops/sticky_cookie.rs:101-117 | the Set-Cookie lines are rewritten in place, and no other field changes |
| Cookies.SetStickyKeepsOthers | rpxy-lib/src/message_handler/header_ops/sticky_cookie.rs:101-117 | every foreign line stays in order, and the readable sticky lines, at least one, carry the new value |
| Cookies.SetStickyLines | rpxy-lib/src/message_handler/header_ops/sticky_cookie.rs:101-117 | line by line: a sticky line is replaced where it stands, every other line stays, and only without a sticky line the new one is added behind them |
| Cookies.SetStickyReplacesExactly | rpxy-lib/src/message_handler/header_ops/sticky_cookie.rs:101-117 | no earlier sticky value survives if and only if no unreadable line was one |
| CookieTokens.OldStickySurvives | rpxy-lib/src/message_handler/header_ops/sticky_cookie.rs:101-117 | an old sticky value in a line that is not ASCII stays beside the new one |
| Base64Url.DecodeEncode | rpxy-lib/src/backend/load_balance/sticky_cookie_seal.rs:105-137 | decoding undoes encoding (section 5 of RFC 4648) |
| Base64Url.EncodeDecode | rpxy-lib/src/backend/load_balance/sticky_cookie_seal.rs:130-137 | strict decoding: each byte string has one spelling |
| Base64Url.LettersAreTheAlphabet | rpxy-lib/src/backend/load_balance/sticky_cookie_seal.rs:105-137 | the letters are those of section 5 of RFC 4648 in their order |
| Base64Url.GroupBits | rpxy-lib/src/backend/load_balance/sticky_cookie_seal.rs:105-137 | the letters of a group are its bits, the most significant first |
| Base64Url.EncodeChars | rpxy-lib/src/backend/load_balance/sticky_cookie_seal.rs:24-32 | the encoded length is exactly the computed one |
| Base64Url.EncodedLenMonotone | rpxy-lib/src/backend/load_balance/sticky_cookie_seal.rs:11-32 | the computed length is strictly monotone |
| StickySeal.I64RoundTrip | rpxy-lib/src/backend/load_balance/sticky_cookie_seal.rs:105-156 | the signed 8-byte expiry round-trips in both directions |
| StickySeal.FromBeFirst | rpxy-lib/src/backend/load_balance/sticky_cookie_seal.rs:105-156 | the first byte of the expiry is the most significant one |
| StickySeal.AadIsInjective | rpxy-lib/src/backend/load_balance/sticky_cookie_seal.rs:88-103 | the framing is unambiguous on components without NUL |
| StickySeal.AadIsFramed | rpxy-lib/src/backend/load_balance/sticky_cookie_seal.rs:88-103 | label, name, domain and path in this order, each closed by a NUL, and an error exactly if one of them holds a NUL |
| StickySeal.LabelText | rpxy-lib/src/backend/load_balance/sticky_cookie_seal.rs:88-103 | the label is the text rpxy-sticky-v1 |
| StickySeal.OpenSealed | rpxy-lib/src/backend/load_balance/sticky_cookie_seal.rs:105-156 | a sealed identifier of 1 to 256 bytes opens if and only if its expiry is after now |
| StickySeal.OnlySealedOpens | rpxy-lib/src/backend/load_balance/sticky_cookie_seal.rs:130-156 | whatever opens is the unexpired seal, under the same associated data, of what it opens to |
| Utf8.TextIsUtf8 | rpxy-lib/src/backend/load_balance/sticky_cookie_seal.rs:151-156 | the encoding of every Unicode text is accepted as an identifier |
| Utf8.Utf8IsText | rpxy-lib/src/backend/load_balance/sticky_cookie_seal.rs:151-156 | and nothing else is: no surrogates, no overlong forms |
| StickySeal.LengthTestsAgree | rpxy-lib/src/backend/load_balance/sticky_cookie_seal.rs:130-150 | the three length tests are one test |
| LoadBalance.Pick | rpxy-lib/src/backend/load_balance/load_balance_main.rs:66-101 | the index is in range even if health flips between counting and scanning |
| LoadBalance.PickTakesTurns | rpxy-lib/src/backend/load_balance/load_balance_main.rs:66-101 | under stable health the two fast paths and the scan are one rule: the available upstreams take turns |
| LoadBalance.PickExactly | rpxy-lib/src/backend/load_balance/load_balance_main.rs:66-101 | when health changes between counting and scanning: the turn is taken among the upstreams healthy now, and all share if they are too few |
| LoadBalance.RoundRobinIsFair | rpxy-lib/src/backend/load_balance/load_balance_main.rs:66-141 | over any window of m picks each of the h healthy upstreams serves floor(m/h) or ceil(m/h) requests and an unhealthy one none; all share when none is healthy |
| LoadBalance.FirstIsLowest | rpxy-lib/src/backend/load_balance/load_balance_main.rs:106-116 | the first available upstream is the healthy one of lowest index, or 0 |
| LoadBalance.CallersDrawInOrder | rpxy-lib/src/backend/load_balance/load_balance_main.rs:125-133 | in every interleaving of callers the counter values drawn follow one another if and only if nobody draws after a reset and they do not run past the largest value |
| LoadBalance.CallersTakeTurns | rpxy-lib/src/backend/load_balance/load_balance_main.rs:125-141 | then the picks are those of the window of consecutive values, which `RoundRobinIsFair` is about |
| LoadBalance.LoneCallerIsInTurnExactly | rpxy-lib/src/backend/load_balance/load_balance_main.rs:125-141 | one caller at a time, for any number of calls: the upstreams go on in turn if and only if the counter is not reset on the way or the number of available upstreams divides the number of values between two resets |
| LoadBalance.LoneCallerRepeatsATurn | rpxy-lib/src/backend/load_balance/load_balance_main.rs:125-141 | with two upstreams the calls before and after the reset pick the same one |
| LoadBalance.EveryValueIsReached | rpxy-lib/src/backend/load_balance/load_balance_main.rs:125-133 | the counter comes to every value below the largest, so that the reset is met |
| LoadBalance.RacingResetsRepeatAValue | rpxy-lib/src/backend/load_balance/load_balance_main.rs:125-133 | in a run from the start, two callers that meet at the end both reset, and a value drawn between the resets is drawn again |
| LoadBalance.RoundRobin.FetchAndAdvance | rpxy-lib/src/backend/load_balance/load_balance_main.rs:125-133 | a call that no other caller interrupts draws the current value and makes the increment and, at the end, the reset of the shared counter, so that it never wraps around |
| LoadBalance.RoundRobin.GetPtr | rpxy-lib/src/backend/load_balance/load_balance_main.rs:135-141 | a request is served by the pick of the counter value it drew |
| HealthCheck.CounterIsExact | rpxy-lib/src/backend/health_check/counter.rs:24-45 | after any history the upstream is unhealthy if and only if some run of failures has not since been followed by a run of successes |
| HealthCheck.ReportsAlternate | rpxy-lib/src/backend/health_check/counter.rs:24-45 | reported transitions strictly alternate, beginning with unhealthy |
| HealthCheck.DownStep | rpxy-lib/src/backend/health_check/counter.rs:24-45 | how one more result changes the health of a history |
| HealthCheck.ConsecutiveCounter.Record | rpxy-lib/src/backend/health_check/counter.rs:24-45 | the fields are updated to the counter of the longer history, and a change of state is reported |
| HealthCheck.HealthChecker.Tick | rpxy-lib/src/backend/health_check/checker.rs:99-145 | after every tick each shared flag is the health its whole history gives |
| Admission.StepKeepsInv | rpxy-lib/src/count.rs:14-35 | every atomic step keeps the counter equal to the tasks under way and the winners within the limit |
| Admission.AtMostMaxServed | rpxy-lib/src/proxy/proxy_main.rs:294-334 | in every interleaving at most the configured number of connections is served at once |
| Admission.AdmittedExactly | rpxy-lib/src/proxy/proxy_main.rs:294-334 | whatever other tasks do meanwhile, a connection is served if and only if fewer than the limit were under way when it arrived |
| Admission.CounterIsExact | rpxy-lib/src/count.rs:14-35 | the counter is the admitted plus the rejected or finished tasks that have not decremented yet, and 0 when all have ended |
| Admission.GuardsNeverNeeded | rpxy-lib/src/count.rs:19-35 | the guard against decrementing zero never fires and no increment wraps around |
| Admission.DecrementEnds | rpxy-lib/src/count.rs:23-35 | left alone, a decrement ends in two steps |
| Admission.FailedExchangeMeansProgress | rpxy-lib/src/count.rs:23-35 | an exchange fails only if, since the load, another task arrived or completed its own decrement |
| PerIpLimit.RunIsExact | rpxy-lib/src/count.rs:64-100 | over every sequence of acquisitions and drops the map holds each address's live guards, no zero, and nothing above the cap |
| PerIpLimit.StepIsExact | rpxy-lib/src/count.rs:64-100 | one step of the same: an address below its cap gets a guard and one at its cap does not |
| PerIpLimit.NothingLeftBehind | rpxy-lib/src/count.rs:88-100 | when the last guard is gone the map is empty |
| PerIpLimit.PerIpConnectionCount.TryAcquire | rpxy-lib/src/count.rs:64-80 | refused exactly when the address holds its full share; a cap of 0 touches nothing |
| PerIpLimit.PerIpConnectionCount.Drop | rpxy-lib/src/count.rs:88-100 | one live guard fewer, the entry removed with the last one |
| StickySession.IdTextsDiffer | rpxy-lib/src/backend/upstream.rs:202-209 | upstreams of different index are hashed from different texts, whatever their URIs |
| StickySession.BuildIdMap | rpxy-lib/src/backend/load_balance/load_balance_sticky.rs:48-63 | the loop fills the inverse of the index map when identifiers are distinct, and the last index otherwise |
| StickySession.LoadBalanceSticky.GetPtr | rpxy-lib/src/backend/load_balance/load_balance_sticky.rs:104-139 | a resolvable healthy target is used without a new cookie and without taking a turn; otherwise the next turn decides and is put into a cookie |
| StickySession.TakeoutStickyCookie | rpxy-lib/src/message_handler/header_ops/sticky_cookie.rs:13-74 | the sticky cookie is removed from the header in place, and an only, well-formed, sealed and unexpired one is resolved |
| StickySession.PresentedToken | rpxy-lib/src/backend/load_balance/sticky_cookie.rs:28-48 | the single sticky token of a request gives its value |
| StickySession.EmptyTokenSaysNothing | rpxy-lib/src/backend/load_balance/sticky_cookie.rs:28-48 | a sticky cookie without a value says nothing |
| StickySession.TwoTokensResolveToNothing | rpxy-lib/src/message_handler/header_ops/sticky_cookie.rs:46-60 | two sticky cookies resolve to nothing whatever they say |
| StickySession.IssuedCookie | rpxy-lib/src/backend/load_balance/sticky_cookie.rs:128-148 | the cookie pair of an issued Set-Cookie line is the name and the sealed value |
| StickySession.ReplayResolves | rpxy-lib/src/message_handler/header_ops/sticky_cookie.rs:13-74 | a replayed token resolves to the upstream that served last if and only if it is unexpired and stands on a readable line |
| StickySession.RequestSticks | rpxy-lib/src/backend/load_balance/load_balance_sticky.rs:104-139 | a client stays exactly while its token is unexpired and on a readable line and its upstream healthy; otherwise it is assigned anew with a new token |
| StickySession.SessionSticks | rpxy-lib/src/backend/load_balance/load_balance_sticky.rs:48-139 | over a whole session the same upstream serves and no token is issued as long as that holds |
| StickySession.SessionIsPinned | rpxy-lib/src/backend/load_balance/load_balance_sticky.rs:48-139 | whatever health does and whatever else the client sends, every token names the upstream that served its step |
| StickySession.UnreadableSessionNeverSticks | rpxy-lib/src/message_handler/header_ops/sticky_cookie.rs:26-37 | a client whose token always shares its line with an unreadable cookie is assigned anew on every request |
| ProxyHeader.PeekKind | rpxy-lib/src/proxy/proxy_protocol.rs:59-96 | whatever the arrival schedule, the first peek that shows enough decides, and decides the kind of the stream; a connection closed before that is noticed |
| ProxyHeader.KindIsStable | rpxy-lib/src/proxy/proxy_protocol.rs:82-96 | once known, the kind does not change with what arrives later |
| ProxyHeader.ReadV1 | rpxy-lib/src/proxy/proxy_protocol.rs:168-188 | success if and only if the first line ends within 107 bytes, and then exactly that line is consumed |
| ProxyHeader.ReadV2 | rpxy-lib/src/proxy/proxy_protocol.rs:103-119 | exactly 16 bytes and the announced length are consumed, or nothing when that length exceeds 2048 |
| ProxyHeader.ParseInbound | rpxy-lib/src/proxy/proxy_protocol.rs:46-119 | a header is accepted if and only if the peer is trusted, enough arrives before the connection closes and there is a header within the limits; exactly it is consumed |
| ProxyHeader.LengthIsUnique | rpxy-lib/src/proxy/proxy_protocol.rs:103-188 | a stream begins with a header of one length at most |
| ProxyHeader.V2HeaderLength | rpxy-lib/src/proxy/proxy_protocol.rs:103-119 | for all bytes: a binary header is 16 bytes and the length in network byte order, if that is at most 2048 and has arrived |
| ProxyHeader.V1HeaderLength | rpxy-lib/src/proxy/proxy_protocol.rs:168-188 | for all bytes: a text header is everything through the first CR LF, if that is within 107 bytes |
| ProxyHeader.NeitherHasNoHeader | rpxy-lib/src/proxy/proxy_protocol.rs:89-96 | anything else has no header |
| ProxyHeader.FullPeekArrives | rpxy-lib/src/proxy/proxy_protocol.rs:59-86 | a peek of all 16 bytes is enough, so that the header above is accepted |
| ProxyHeader.HeaderIgnoresRest | rpxy-lib/src/proxy/proxy_protocol.rs:103-188 | what follows has no influence on the header |
| PathRouter.BestIsLongest | rpxy-lib/src/backend/upstream.rs:105-133 | the chosen route is a longest match ending on a segment boundary, and none is chosen exactly if none matches |
| PathRouter.SegmentsDecide | rpxy-lib/src/backend/upstream.rs:112-123 | a route matches exactly the path itself, what goes on behind it with a segment and, if it has one character, what begins with it |
| PathRouter.NoRouteExactly | rpxy-lib/src/backend/upstream.rs:105-133 | nothing is chosen if and only if no route does |
| PathRouter.ExactRouteWins | rpxy-lib/src/backend/upstream.rs:105-133 | a route that is the whole path is always chosen |
| PathRouter.SegmentIsFound | rpxy-lib/src/backend/upstream.rs:105-133 | a route is found by every path behind it, or refined by a longer one |
| PathRouter.ChosenRouteEndsASegment | rpxy-lib/src/backend/upstream.rs:105-133 | the chosen route is the path, ends where a segment ends or has one character, and no other such route is longer |
| PathRouter.LongestIsUnique | rpxy-lib/src/backend/upstream.rs:105-133 | there is one such route at most |
| PathRouter.OrderIsIrrelevant | rpxy-lib/src/backend/upstream.rs:105-133 | the choice does not depend on the order of the hash map |
| PathRouter.LongerRouteWins | rpxy-lib/src/backend/upstream.rs:105-133 | every matching route is a prefix of the chosen one |
| PathRouter.RewriteReplacesTheRoute | rpxy-lib/src/message_handler/handler_manipulate_messages.rs:282-305 | for every request rewriting fails only for an empty route; unless the request is a bare query it maps route and rest to replacement and rest, the rest going on with a segment or the query except behind a route of one character |
| PathRouter.RewrittenRequest | rpxy-lib/src/message_handler/handler_manipulate_messages.rs:282-305 | a request behind the route, with a query or without: the replacement takes the place of the route and nothing else changes |
| PathRouter.UnchangedWithoutReplacement | rpxy-lib/src/message_handler/handler_manipulate_messages.rs:282-305 | without a replacement the request goes on unchanged |
| PathRouter.RouteIsPrefixExactly | rpxy-lib/src/message_handler/handler_manipulate_messages.rs:282-305 | the route is a part of the request, and what follows it is kept, if and only if the request is not a bare query |
| PathRouter.BareQueryLosesItsMark | rpxy-lib/src/message_handler/handler_manipulate_messages.rs:282-305 | an absolute-form request with a query and no path loses its question mark |

## Left out

- TLS, QUIC, HTTP/3, sockets, ACME, certificates, configuration files, logging and synthetic responses: plumbing around the modelled parts.
- Scheme seen by the client, cache effective URI, hop-by-hop headers and Alt-Svc: single-branch facts.
- Freshness of a cached response: a get may find any entry stale or fresh.
- LRU recency: a push into a full cache may displace any other entry, so the results hold for every replacement order.
- Wrap-around of the 64-bit generation, serial and file counters after 2^64 steps: they are unbounded numbers.
- Files after a failed unlink: they are recorded as lost and nothing is claimed about them.
- Weak memory: an atomic operation is one step that all tasks see.
- IPv6 text: the formatter and parser are parameters with their inverse law, their character set and at least two colons.
- Membership of an address in a configured network: a predicate on canonical addresses.
- Secrecy and unforgeability of AES-256-GCM, uniqueness of nonces, and the parsing of the configured secret.
- Formatting of the cookie's expiry date and remaining seconds: parameters of the Set-Cookie text.
- The random load balancer and its distribution.
- Addresses inside a PROXY header: parsed by another library; the model ends with the exact bytes given to it. Its deadline is the end of the arrival schedule.
- Choice of the application by server name, and the check that a rewritten path is a legal URI path.
- LoadBalance.RoundRobinIsFair: is about consecutive counter values; `CallersDrawInOrder` and `LoneCallerIsInTurnExactly` say exactly when a window is one of these, also across the reset.
- ForwardingRoute.RouteIsRecorded: assumes one set of trusted networks along the route; `NextHop` is the step for different ones.
