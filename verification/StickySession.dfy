/** Sticky round robin: a client is pinned to an upstream by a sealed cookie. */
module StickySession {
  import opened Wrappers
  import opened Machine
  import opened HttpText
  import opened Headers
  import opened Cookies
  import opened CookieTokens
  import opened Base64Url
  import opened Utf8
  import opened StickySeal
  import opened LoadBalance

  /** The identifier of an upstream, as the bytes of its text. */
  type Id = Bytes

  /* --------------------------------- identifiers --------------------------------- */

  /** What `calculate_id_with_index` hashes. */
  function IdText(uri: string, index: nat): string {
    uri + "&index=" + Dec(index)
  }

  /** Upstreams have different texts even when their URIs are the same. */
  lemma IdTextsDiffer(u: string, i: nat, v: string, j: nat)
    requires i != j
    ensures IdText(u, i) != IdText(v, j)
  {
    IdTextEnds(u, i);
    IdTextEnds(v, j);
    DecValue(i);
    DecValue(j);
  }

  lemma IdTextEnds(u: string, i: nat)
    ensures RSplitOnce(IdText(u, i), '=') == Some((u + "&index", Dec(i)))
  {
    assert '=' !in Dec(i);
    RSplitOnceAt(u + "&index", '=', Dec(i));
    assert IdText(u, i) == u + "&index" + ['='] + Dec(i);
  }

  predicate Distinct(ids: seq<Id>) {
    forall i, j | 0 <= i < j < |ids| :: ids[i] != ids[j]
  }

  function Ids(uris: seq<string>, hash: string -> Id): seq<Id> {
    seq(|uris|, i requires 0 <= i < |uris| => hash(IdText(uris[i], i)))
  }

  /** The digest does not collide on the texts of these upstreams. */
  ghost predicate NoCollision(uris: seq<string>, hash: string -> Id) {
    forall i, j | 0 <= i < |uris| && 0 <= j < |uris| ::
      hash(IdText(uris[i], i)) == hash(IdText(uris[j], j)) ==> IdText(uris[i], i) == IdText(uris[j], j)
  }

  lemma IdsAreDistinct(uris: seq<string>, hash: string -> Id)
    requires NoCollision(uris, hash)
    ensures Distinct(Ids(uris, hash))
  {
    forall i, j | 0 <= i < j < |uris|
      ensures Ids(uris, hash)[i] != Ids(uris, hash)[j]
    {
      IdTextsDiffer(uris[i], i, uris[j], j);
    }
  }

  /** The two maps are inverse to each other. */
  ghost predicate Inverse(ids: seq<Id>, byId: map<Id, nat>) {
    && (forall i | 0 <= i < |ids| :: ids[i] in byId && byId[ids[i]] == i)
    && (forall id | id in byId :: byId[id] < |ids| && ids[byId[id]] == id)
  }

  method BuildIdMap(ids: seq<Id>) returns (byId: map<Id, nat>)
    ensures forall id :: id in byId <==> id in ids
    ensures forall id | id in byId :: byId[id] < |ids| && ids[byId[id]] == id && id !in ids[byId[id] + 1..]
    ensures Distinct(ids) ==> Inverse(ids, byId)
  {
    byId := map[];
    var i := 0;
    while i < |ids|
      invariant 0 <= i <= |ids|
      invariant forall id :: id in byId <==> id in ids[..i]
      invariant forall id | id in byId :: byId[id] < i && ids[byId[id]] == id && id !in ids[byId[id] + 1..i]
    {
      byId := byId[ids[i] := i];
      assert forall id :: id in ids[..i + 1] <==> id in ids[..i] || id == ids[i];
      i := i + 1;
    }
    assert ids[..i] == ids;
  }

  /* ------------------------------- the load balancer ------------------------------- */

  /** The flags as one request reads them: at the sticky test, when counting and when scanning. */
  datatype View = View(now: seq<Health>, counted: seq<Health>, scanned: seq<Health>) {
    predicate Valid(n: nat) {
      |now| == n && |counted| == n && |scanned| == n
    }
  }

  predicate Sticks(byId: map<Id, nat>, req: Option<Id>, v: View) {
    && req.Some? && req.value in byId
    && byId[req.value] < |v.now| && IsHealthy(v.now[byId[req.value]])
  }

  class LoadBalanceSticky {
    const turns: RoundRobin
    const ids: seq<Id>
    const byId: map<Id, nat>

    ghost predicate Valid()
      reads this, turns
    {
      turns.Valid() && Inverse(ids, byId)
    }

    constructor (uris: seq<string>, hash: string -> Id)
      requires NoCollision(uris, hash)
      ensures Valid() && ids == Ids(uris, hash) && fresh(turns)
    {
      IdsAreDistinct(uris, hash);
      var all := Ids(uris, hash);
      var inverse := BuildIdMap(all);
      ids, byId := all, inverse;
      turns := new RoundRobin();
    }

    /** `get_ptr`: a resolvable healthy target is used and no cookie is issued; otherwise the next turn
        decides and its upstream is put into a new cookie. */
    method GetPtr(req: Option<Id>, v: View) returns (index: nat, cookie: Option<Id>)
      requires Valid() && ids != [] && v.Valid(|ids|)
      modifies turns
      ensures Valid() && index < |ids|
      ensures if Sticks(byId, req, v)
              then index == byId[req.value] && cookie == None && turns.ptr == old(turns.ptr)
              else index == Pick(v.counted, v.scanned, old(turns.ptr)) && cookie == Some(ids[index])
                   && turns.ptr == Following(old(turns.ptr))
    {
      if req.Some? && req.value in byId {
        var i := byId[req.value];
        if i < |v.now| && IsHealthy(v.now[i]) {
          return i, None;
        }
      }
      index := turns.GetPtr(v.counted, v.scanned);
      cookie := Some(ids[index]);
    }
  }

  /* ----------------------------------- the cookie ----------------------------------- */

  /** `StickyCookieValue::try_from` on the only sticky token of a request. */
  function Presented(lines: seq<string>, name: string): Option<string> {
    var sticky := Select(Seen(lines), name, true);
    if |sticky| != 1 then None
    else match SplitOnce(sticky[0], '=')
      case None => None
      case Some((k, v)) => if Trim(k) != name || Trim(v) == "" then None else Some(Trim(v))
  }

  /** What the load balancer is told about a request. */
  function Resolve(c: Cipher, aad: Bytes, name: string, lines: seq<string>, now: int): Option<Id> {
    match Presented(lines, name)
    case None => None
    case Some(text) => Open(c, aad, text, now)
  }

  /** `takeout_sticky_cookie_lb_context`. */
  method TakeoutStickyCookie(headers: HeaderMap, name: string, c: Cipher, aad: Bytes, now: int) returns (r: Option<Id>)
    requires headers.Valid()
    modifies headers
    ensures headers.Valid()
    ensures headers.fields == WithLines(old(headers.fields), COOKIE, TakenOut(Lines(old(headers.fields), COOKIE), name))
    ensures r == Resolve(c, aad, name, Lines(old(headers.fields), COOKIE), now)
  {
    hide Open, Seen;
    var lines := Lines(headers.fields, COOKIE);
    if COOKIE !in headers.fields {
      NothingSeen();
      return None;
    }
    var tokens := Seen(lines);
    var sticky, rest := Select(tokens, name, true), Select(tokens, name, false);
    if sticky == [] {
      return None;
    }
    var passed := Join(rest, "; ");
    headers.Remove(COOKIE);
    if passed != "" {
      RestIsValid(lines, name);
      var ok := headers.Insert(COOKIE, passed);
    }
    if |sticky| > 1 {
      return None;
    }
    var value := Presented(lines, name);
    if value.None? {
      return None;
    }
    return Open(c, aad, value.value, now);
  }

  lemma RestIsValid(lines: seq<string>, name: string)
    ensures ValidValue(Join(Select(Seen(lines), name, false), "; "))
  {
    var rest := Select(Seen(lines), name, false);
    SeenArePairs(lines);
    SelectPairs(Seen(lines), name, false);
    assert forall i | 0 <= i < |rest| :: IsPair(rest[i]);
    JoinReadable(rest, "; ");
    ReadableIsValid(Join(rest, "; "));
  }

  /** The attributes of the cookie; the date and the remaining seconds are formatted elsewhere. */
  function SetCookieText(name: string, value: string, date: string, maxAge: string, path: string, domain: string,
                         secure: bool): string
  {
    name + "=" + value + ";" + Attributes(date, maxAge, path, domain, secure)
  }

  function Attributes(date: string, maxAge: string, path: string, domain: string, secure: bool): string {
    " expires=" + date + "; Max-Age=" + maxAge + "; path=" + path + "; domain=" + domain + "; HttpOnly; SameSite=Lax"
    + (if secure then "; Secure" else "")
  }

  /** A cookie name of the kind rpxy uses: a token, so without white space, `=` and `;`. */
  predicate IsName(name: string) {
    name != "" && forall c | c in name :: IsTchar(c)
  }

  lemma IssuedCookie(name: string, value: string, date: string, maxAge: string, path: string, domain: string,
                     secure: bool)
    requires IsName(name) && ';' !in value
    ensures var line := SetCookieText(name, value, date, maxAge, path, domain, secure);
            SplitOnce(line, ';').Some? && SplitOnce(line, ';').value.0 == name + "=" + value && IsSticky(line, name)
  {
    hide SplitOnce, IsName, Attributes;
    NameIsTight(name);
    SplitOnceAt(name + "=" + value, ';', Attributes(date, maxAge, path, domain, secure));
  }

  lemma NameIsTight(name: string)
    requires IsName(name)
    ensures Tight(name) && '=' !in name && ';' !in name
  {
    assert name[0] in name && name[|name| - 1] in name;
  }

  lemma PresentedToken(lines: seq<string>, name: string, value: string)
    requires IsName(name) && value != "" && Tight(value) && Select(Seen(lines), name, true) == [name + "=" + value]
    ensures Presented(lines, name) == Some(value)
  {
    hide Seen, Select, Trim, SplitOnce;
    NameIsTight(name);
    assert name + "=" + value == name + ['='] + value;
    SplitOnceAt(name, '=', value);
    TrimTight(name);
    TrimTight(value);
  }

  /** A sticky cookie without a value says nothing. */
  lemma EmptyTokenSaysNothing(lines: seq<string>, name: string, value: string)
    requires IsName(name) && Blank(value) && Select(Seen(lines), name, true) == [name + "=" + value]
    ensures Presented(lines, name) == None
  {
    hide Seen, Select, Trim, SplitOnce;
    NameIsTight(name);
    assert name + "=" + value == name + ['='] + value;
    SplitOnceAt(name, '=', value);
    TrimPadded(value, "", "");
    assert value + "" + "" == value;
  }

  /** Two sticky cookies on readable lines, whatever they say, resolve to nothing. */
  lemma TwoTokensResolveToNothing(c: Cipher, aad: Bytes, name: string, lines: seq<string>, now: int)
    requires |Sticky(Legible(lines, true), name)| >= 2
    ensures Resolve(c, aad, name, SingleLine(lines), now) == None
  {
    hide Seen, Tokens, Select, SingleLine, Legible, Open;
    MergingIsNotSeen(lines);
    SeenIsLegible(lines, name);
  }

  lemma SealedIsTight(c: Cipher, aad: Bytes, id: Id, expires: i64, nonce: Bytes)
    requires Seal(c, aad, id, expires, nonce).Some?
    ensures var s := Seal(c, aad, id, expires, nonce).value; s != "" && Tight(s) && ';' !in s
  {
    var b := Blob(c, aad, id, expires, nonce);
    EncodeChars(b);
    var s := Encode(b);
    assert s[0] in s && s[|s| - 1] in s;
  }

  /* ---------------------------------- the session ---------------------------------- */

  /** What stays fixed while a backend runs. */
  datatype Backend =
    Backend(name: string, cipher: Cipher, aad: Bytes, ids: seq<Id>, byId: map<Id, nat>, duration: i64) {
    ghost predicate Valid() {
      && IsName(name) && cipher.Lawful() && ids != [] && Inverse(ids, byId) && duration > 0
      && forall i | 0 <= i < |ids| :: 1 <= |ids[i]| <= MAX_SERVER_ID_LEN && IsUtf8(ids[i])
    }
  }

  datatype Token = Token(text: string, expires: i64)

  /** The client: the token it holds, if any, and the upstream that served it last. */
  datatype Client = Client(token: Option<Token>, last: nat)

  /** A request of the client. Other clients take turns in between, so `nth` is arbitrary. */
  datatype Request = Request(now: i64, lines: seq<string>, view: View, nth: nat, nonce: Bytes)

  /** The flags cover all upstreams, and the expiry date can be represented. */
  predicate Fits(b: Backend, r: Request) {
    r.view.Valid(|b.ids|) && |r.nonce| == NONCE_LEN && r.now + b.duration < TWO63
  }

  /** The client replays its token, among any other cookies on any number of lines. */
  predicate Replays(b: Backend, c: Client, r: Request) {
    && Fits(b, r)
    && Sticky(r.lines, b.name) == (match c.token case None => [] case Some(t) => [b.name + "=" + t.text])
  }

  /** Merge the lines, take the cookie out, choose the upstream, seal a new cookie if one is issued. */
  function Serve(b: Backend, c: Client, r: Request): Client
    requires b.Valid() && Fits(b, r)
  {
    var req := Resolve(b.cipher, b.aad, b.name, SingleLine(r.lines), r.now);
    if Sticks(b.byId, req, r.view) then c.(last := b.byId[req.value])
    else
      var index, expires: i64 := Pick(r.view.counted, r.view.scanned, r.nth), r.now + b.duration;
      Client(Some(Token(Seal(b.cipher, b.aad, b.ids[index], expires, r.nonce).value, expires)), index)
  }

  /** The token a client holds is a seal of the upstream that served it last. */
  ghost predicate Holds(b: Backend, c: Client, nonce: Bytes)
    requires c.token.Some?
  {
    && c.last < |b.ids| && |nonce| == NONCE_LEN
    && Seal(b.cipher, b.aad, b.ids[c.last], c.token.value.expires, nonce) == Some(c.token.value.text)
  }

  ghost predicate Pinned(b: Backend, c: Client) {
    c.token.Some? ==> exists nonce :: Holds(b, c, nonce)
  }

  /** The line that carries the token is readable, the token still counts and its upstream is up. */
  predicate Keeps(b: Backend, c: Client, r: Request) {
    && c.token.Some? && !Unseen(r.lines, b.name) && c.token.value.expires > r.now
    && c.last < |r.view.now| && IsHealthy(r.view.now[c.last])
  }

  /** Of a single sticky cookie the merged line shows it or nothing. */
  lemma MergedShows(lines: seq<string>, name: string, pair: string)
    requires Sticky(lines, name) == [pair] || Sticky(lines, name) == []
    ensures Select(Seen(SingleLine(lines)), name, true) == if Unseen(lines, name) then [] else [pair]
    ensures Sticky(lines, name) == [] ==> Unseen(lines, name)
  {
    hide Seen, Tokens, Select, SingleLine, Legible;
    MergingIsNotSeen(lines);
    SeenIsLegible(lines, name);
    LegibleCounts(lines, name);
    var shown := Sticky(Legible(lines, true), name);
    if shown != [] {
      assert |shown| == 1 && shown[0] in shown;
      assert shown == [shown[0]] && shown[0] in Sticky(lines, name);
    }
  }

  /** A replayed token resolves to the upstream that served last exactly while it is unexpired and its line
      is readable. */
  lemma ReplayResolves(b: Backend, c: Client, r: Request)
    requires b.Valid() && Pinned(b, c) && Replays(b, c, r)
    ensures Resolve(b.cipher, b.aad, b.name, SingleLine(r.lines), r.now)
         == if c.token.Some? && !Unseen(r.lines, b.name) && c.token.value.expires > r.now
            then Some(b.ids[c.last]) else None
  {
    hide Open, Seen, Tokens, Select, Seal, SingleLine, Unseen;
    match c.token {
      case None => MergedShows(r.lines, b.name, "");
      case Some(t) =>
        var nonce :| Holds(b, c, nonce);
        MergedShows(r.lines, b.name, b.name + "=" + t.text);
        SealedIsTight(b.cipher, b.aad, b.ids[c.last], t.expires, nonce);
        if !Unseen(r.lines, b.name) {
          PresentedToken(SingleLine(r.lines), b.name, t.text);
        }
        OpenSealed(b.cipher, b.aad, b.ids[c.last], t.expires, nonce, r.now);
    }
  }

  lemma Sealable(b: Backend, i: nat, expires: i64, nonce: Bytes)
    requires b.Valid() && i < |b.ids|
    ensures Seal(b.cipher, b.aad, b.ids[i], expires, nonce).Some?
  {
  }

  /** One request: the client stays exactly while its token is readable and unexpired and its upstream
      healthy, and keeps that token; otherwise it is assigned anew with a new token. */
  lemma RequestSticks(b: Backend, c: Client, r: Request)
    requires b.Valid() && Pinned(b, c) && Replays(b, c, r)
    ensures var c' := Serve(b, c, r);
            && Pinned(b, c') && c'.token.Some? && c'.last < |b.ids|
            && (Keeps(b, c, r) ==> c' == c)
            && (!Keeps(b, c, r) ==> c'.last == Pick(r.view.counted, r.view.scanned, r.nth)
                                    && c'.token.value.expires == r.now + b.duration > r.now)
  {
    hide Resolve, Pick, Seal, IsUtf8, SingleLine, Unseen, Sticky;
    ReplayResolves(b, c, r);
    if c.token.Some? {
      var nonce :| Holds(b, c, nonce);
      assert b.byId[b.ids[c.last]] == c.last;
    }
    if !Keeps(b, c, r) {
      var index, expires := Pick(r.view.counted, r.view.scanned, r.nth), r.now + b.duration;
      Sealable(b, index, expires, r.nonce);
      assert Holds(b, Serve(b, c, r), r.nonce);
    }
  }

  /** The upstreams that serve a sequence of requests. */
  function Session(b: Backend, c: Client, reqs: seq<Request>): (r: seq<Client>)
    requires b.Valid() && forall i | 0 <= i < |reqs| :: Fits(b, reqs[i])
    ensures |r| == |reqs|
    decreases |reqs|
  {
    if reqs == [] then [] else [Serve(b, c, reqs[0])] + Session(b, Serve(b, c, reqs[0]), reqs[1..])
  }

  ghost predicate AlwaysReplays(b: Backend, c: Client, reqs: seq<Request>)
    requires b.Valid()
    decreases |reqs|
  {
    reqs == [] || (Replays(b, c, reqs[0]) && AlwaysReplays(b, Serve(b, c, reqs[0]), reqs[1..]))
  }

  /** Over a whole session of a client that replays its last token: as long as that token is sent on a
      readable line and unexpired, and its upstream healthy, every request is served by that upstream and no
      token is issued. */
  lemma {:induction false} SessionSticks(b: Backend, c: Client, reqs: seq<Request>)
    requires b.Valid() && Pinned(b, c) && AlwaysReplays(b, c, reqs) && forall i | 0 <= i < |reqs| :: Fits(b, reqs[i])
    requires forall i | 0 <= i < |reqs| :: Keeps(b, c, reqs[i])
    ensures forall i | 0 <= i < |reqs| :: Session(b, c, reqs)[i] == c
    decreases |reqs|
  {
    hide Serve, Keeps, Pinned;
    if reqs != [] {
      RequestSticks(b, c, reqs[0]);
      SessionSticks(b, c, reqs[1..]);
    }
  }

  /** Whatever health does, every token a client ever holds names the upstream that served it last. */
  lemma {:induction false} SessionIsPinned(b: Backend, c: Client, reqs: seq<Request>)
    requires b.Valid() && Pinned(b, c) && AlwaysReplays(b, c, reqs) && forall i | 0 <= i < |reqs| :: Fits(b, reqs[i])
    ensures forall i | 0 <= i < |reqs| :: Session(b, c, reqs)[i].token.Some? && Pinned(b, Session(b, c, reqs)[i])
    decreases |reqs|
  {
    hide Serve, Keeps, Pinned;
    if reqs != [] {
      RequestSticks(b, c, reqs[0]);
      SessionIsPinned(b, Serve(b, c, reqs[0]), reqs[1..]);
    }
  }

  /** A client that always sends its token next to an unreadable cookie on the same line never sticks: every
      request is assigned anew. */
  lemma {:induction false} UnreadableSessionNeverSticks(b: Backend, c: Client, reqs: seq<Request>)
    requires b.Valid() && Pinned(b, c) && AlwaysReplays(b, c, reqs) && forall i | 0 <= i < |reqs| :: Fits(b, reqs[i])
    requires forall i | 0 <= i < |reqs| :: Unseen(reqs[i].lines, b.name)
    ensures forall i | 0 <= i < |reqs| ::
              && Session(b, c, reqs)[i].last == Pick(reqs[i].view.counted, reqs[i].view.scanned, reqs[i].nth)
              && Session(b, c, reqs)[i].token.Some?
              && Session(b, c, reqs)[i].token.value.expires == reqs[i].now + b.duration
    decreases |reqs|
  {
    hide Serve, Pinned, Unseen, Pick;
    if reqs != [] {
      RequestSticks(b, c, reqs[0]);
      UnreadableSessionNeverSticks(b, Serve(b, c, reqs[0]), reqs[1..]);
    }
  }
}
