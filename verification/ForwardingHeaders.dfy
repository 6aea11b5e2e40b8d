/** The forwarding headers of an outgoing request, written in place. */
module ForwardingHeaders {
  import opened Wrappers
  import opened Machine
  import opened HttpText
  import opened IpText
  import opened Forwarded
  import opened ForwardedRoundTrip
  import opened TrustBoundary
  import opened Headers
  import opened Cookies
  import opened Forwarding
  import opened ReadableText
  import opened ForwardingTheorems

  /** What one proxy knows of a request besides its header: the immediate peer, whether it came over
      TLS, on which port, the URI as text, and the host, from the URI or the readable Host header. */
  datatype Hop = Hop(peer: Ip, tls: bool, port: u16, uri: string, host: Option<string>) {
    predicate Valid() {
      IsCanonical(peer) && ReadableOpt(host)
    }

    function Me(): Entry {
      PeerEntry(peer, tls, host)
    }

    function View(t: Ipv6Text, h: Fields, trust: Trust): Chain {
      Forwarding.View(t, h, peer, tls, host, trust)
    }
  }

  /* --------------------------------------- loops --------------------------------------- */

  /** `parse_x_forwarded_for_header`. */
  method ParseXForwardedFor(t: Ipv6Text, h: Fields, host: Option<string>) returns (r: Option<Chain>)
    ensures r == ParseXff(t, h, host)
  {
    var xff := JoinHeaderValues(Lines(h, X_FORWARDED_FOR));
    var proto := FirstField(h, X_FORWARDED_PROTO);
    if !xff.Text? || proto.Unreadable? {
      return None;
    }
    var tokens := Elements(SplitAll(xff.text, ','));
    r := ParseHopTokens(t, tokens, if proto.Text? then Some(Trim(proto.text)) else None, host);
  }

  method ParseHopTokens(t: Ipv6Text, tokens: seq<string>, proto: Option<string>, host: Option<string>)
    returns (r: Option<Chain>)
    ensures r == ParseHops(t, tokens, proto, host)
  {
    hide ParseNode;
    var chain: Chain, i := [], 0;
    assert tokens[0..] == tokens && forall c: Chain :: [] + c == c;
    while i < |tokens|
      invariant 0 <= i <= |tokens|
      invariant ParseHops(t, tokens, proto, host) == Appended(chain, ParseHops(t, tokens[i..], proto, host))
    {
      assert tokens[i..][1..] == tokens[i + 1..];
      var node := ParseNode(t, tokens[i]);
      if node.None? || node.value.ip.None? {
        return None;
      }
      var ip, last := node.value.ip.value, i == |tokens| - 1;
      var e := if last then IpEntry(ip, proto, host) else IpEntry(ip, None, None);
      AppendedPush(chain, e, ParseHops(t, tokens[i + 1..], proto, host));
      chain := chain + [e];
      i := i + 1;
    }
    assert tokens[i..] == [] && chain + [] == chain;
    return Some(chain);
  }

  /** `xff_csv_from_chain`: the list and the length of its first element. */
  method XffCsvFromChain(t: Ipv6Text, chain: Chain) returns (r: Option<(string, nat)>)
    ensures r.Some? <==> chain != [] && AllIps(chain)
    ensures r.Some? ==> r.value.0 == Csv(t, chain) && r.value.1 <= |r.value.0|
    ensures r.Some? ==> r.value.0[..r.value.1] == t.Show(chain[0].node.ip.value)
  {
    if chain == [] {
      return None;
    }
    var csv, firstLen: nat, i := "", 0, 0;
    ghost var parts: seq<string> := [];
    while i < |chain|
      invariant 0 <= i <= |chain| && |parts| == i && csv == Join(parts, ", ") && firstLen <= |csv|
      invariant forall j | 0 <= j < i :: chain[j].node.ip.Some? && parts[j] == t.Show(chain[j].node.ip.value)
      invariant i > 0 ==> csv[..firstLen] == parts[0]
    {
      if chain[i].node.ip.None? {
        return None;
      }
      var s := t.Show(chain[i].node.ip.value);
      JoinPush(parts, s, ", ");
      csv := (if i > 0 then csv + ", " else csv) + s;
      if i == 0 {
        firstLen := |csv|;
      }
      parts := parts + [s];
      i := i + 1;
    }
    assert IpTexts(t, chain) == parts;
    return Some((csv, firstLen));
  }

  /* ------------------------------- the outgoing request ------------------------------- */

  function HostLines(host: Option<string>): seq<string> {
    if host.Some? then [host.value] else []
  }

  /** The fields that say what this proxy saw, besides the chain. */
  ghost predicate Describes(hop: Hop, first: string, h: Fields) {
    && Lines(h, X_FORWARDED_PROTO) == [if hop.tls then "https" else "http"]
    && Lines(h, X_FORWARDED_PORT) == [Dec(hop.port)]
    && Lines(h, X_REAL_IP) == [first]
    && Lines(h, X_FORWARDED_SSL) == [if hop.tls then "on" else "off"]
    && Lines(h, X_ORIGINAL_URI) == [hop.uri]
    && Lines(h, X_FORWARDED_HOST) == HostLines(hop.host)
    && Lines(h, PROXY) == [""]
  }

  predicate DescribedBy(n: Name) {
    || n.X_FORWARDED_PROTO? || n.X_FORWARDED_PORT? || n.X_REAL_IP? || n.X_FORWARDED_SSL? || n.X_ORIGINAL_URI?
    || n.X_FORWARDED_HOST? || n.PROXY?
  }

  /** `h'` is the header sent on for a request that arrived with `h`. */
  ghost predicate Rewritten(t: Ipv6Text, h: Fields, hop: Hop, trust: Trust, h': Fields) {
    var v := hop.View(t, h, trust);
    && v != [] && Emitted(t, h', v, hop.tls) && (FORWARDED in h' <==> FORWARDED in h)
    && Describes(hop, t.Show(v[0].node.ip.value), h')
    && Lines(h', COOKIE) == SingleLine(Lines(h, COOKIE))
    && forall n | n != FORWARDED && n != X_FORWARDED_FOR && n != COOKIE && !DescribedBy(n) ::
         Lines(h', n) == Lines(h, n)
  }

  lemma ViewIsReadable(t: Ipv6Text, h: Fields, hop: Hop, trust: Trust)
    requires t.Lawful() && hop.Valid()
    ensures var v := hop.View(t, h, trust);
            && v != [] && Wf(v) && AllIps(v) && ReadableChain(v) && Last(v) == hop.Me() && Reduce(trust, v) == v
            && Generate(t, v).Some? && Readable(Generate(t, v).value)
  {
    hide Normalize, Reduce, Wf, Generate, Extract;
    ViewIsNormal(t, h, hop.peer, hop.tls, hop.host, trust);
    NormalizedIsReadable(t, h, hop, trust);
    GeneratedIsReadable(t, hop.View(t, h, trust));
  }

  lemma NormalizedIsReadable(t: Ipv6Text, h: Fields, hop: Hop, trust: Trust)
    requires t.Lawful() && hop.Valid()
    ensures ReadableChain(Normalize(t, h, hop.peer, hop.tls, hop.host, trust))
  {
    hide Extract, Reduce;
    ExtractedIsReadable(t, h, None);
    NormalizedChain(t, h, hop.peer, hop.tls, hop.host, trust);
  }

  /** The header `h` with the fields written into it that precede the URI. */
  function Begun(h: Fields, hop: Hop, first: string): Fields {
    h[X_FORWARDED_PROTO := [Scheme(hop.tls)]][X_FORWARDED_PORT := [Dec(hop.port)]][X_REAL_IP := [first]]
     [X_FORWARDED_SSL := [if hop.tls then "on" else "off"]]
  }

  /** The header `h` with all these fields written into it. */
  function Described(h: Fields, hop: Hop, first: string): Fields {
    WithLines(Begun(h, hop, first)[X_ORIGINAL_URI := [hop.uri]], X_FORWARDED_HOST, HostLines(hop.host))[PROXY := [""]]
  }

  lemma DescribedDescribes(h: Fields, hop: Hop, first: string)
    ensures Describes(hop, first, Described(h, hop, first))
    ensures forall n | !DescribedBy(n) :: n in Described(h, hop, first) <==> n in h
    ensures forall n | !DescribedBy(n) :: Lines(Described(h, hop, first), n) == Lines(h, n)
  {
    hide Dec;
  }

  /** The fixed fields; only the URI can fail to be a header value. */
  method Describe(headers: HeaderMap, hop: Hop, first: string) returns (ok: bool)
    requires headers.Valid() && hop.Valid()
    modifies headers
    ensures headers.Valid() && ok == ValidValue(hop.uri)
    ensures headers.fields ==
              if ok then Described(old(headers.fields), hop, first) else Begun(old(headers.fields), hop, first)
  {
    hide Dec, Scheme, ValidValue;
    headers.fields := headers.fields[X_FORWARDED_PROTO := [Scheme(hop.tls)]];
    headers.fields := headers.fields[X_FORWARDED_PORT := [Dec(hop.port)]];
    headers.fields := headers.fields[X_REAL_IP := [first]];
    headers.fields := headers.fields[X_FORWARDED_SSL := [if hop.tls then "on" else "off"]];
    ok := headers.Insert(X_ORIGINAL_URI, hop.uri);
    if ok {
      OverwriteXForwardedHost(headers, hop.host);
      headers.fields := headers.fields[PROXY := [""]];
    }
  }

  method OverwriteXForwardedHost(headers: HeaderMap, host: Option<string>)
    requires headers.Valid() && ReadableOpt(host)
    modifies headers
    ensures headers.Valid() && headers.fields == WithLines(old(headers.fields), X_FORWARDED_HOST, HostLines(host))
  {
    match host {
      case Some(text) =>
        ReadableIsValid(text);
        var ok := headers.Insert(X_FORWARDED_HOST, text);
      case None =>
        headers.Remove(X_FORWARDED_HOST);
    }
  }

  /** The chain as the outgoing header carries it. */
  function Chained(t: Ipv6Text, h: Fields, chain: Chain): Fields
    requires AllIps(chain) && Generate(t, chain).Some?
  {
    var h' := h[X_FORWARDED_FOR := [Csv(t, chain)]];
    if FORWARDED in h then h'[FORWARDED := [Generate(t, chain).value]] else h'
  }

  method WriteChain(t: Ipv6Text, headers: HeaderMap, chain: Chain, csv: string) returns (ok: bool)
    requires t.Lawful() && headers.Valid() && chain != [] && Wf(chain) && AllIps(chain) && csv == Csv(t, chain)
    requires Generate(t, chain).Some? && Readable(Generate(t, chain).value)
    modifies headers
    ensures headers.Valid() && ok
    ensures headers.fields == Chained(t, old(headers.fields), chain)
  {
    hide Wf, Csv, Generate;
    CsvElements(t, chain);
    ReadableIsValid(csv);
    var hasForwarded := FORWARDED in headers.fields;
    ok := headers.Insert(X_FORWARDED_FOR, csv);
    if hasForwarded {
      var value := GenerateForwardedHeader(t, chain);
      ReadableIsValid(value.value);
      ok := headers.Insert(FORWARDED, value.value);
    } else {
      headers.Remove(FORWARDED);
    }
  }

  lemma ChainedLines(t: Ipv6Text, h: Fields, v: Chain)
    requires AllIps(v) && Generate(t, v).Some?
    ensures var h' := Chained(t, h, v);
            && X_FORWARDED_FOR in h' && Lines(h', X_FORWARDED_FOR) == [Csv(t, v)]
            && (FORWARDED in h' <==> FORWARDED in h)
            && (FORWARDED in h ==> Lines(h', FORWARDED) == [Generate(t, v).value])
            && forall n | n != X_FORWARDED_FOR && n != FORWARDED :: Lines(h', n) == Lines(h, n)
  {
    hide Generate, Csv;
  }

  lemma ChainedIsEmitted(t: Ipv6Text, h: Fields, hop: Hop, trust: Trust)
    requires t.Lawful() && hop.Valid()
    ensures var v := hop.View(t, h, trust);
            && v != [] && AllIps(v) && Generate(t, v).Some?
            && var h1 := Chained(t, h, v);
               var h2 := WithLines(h1, COOKIE, SingleLine(Lines(h1, COOKIE)));
               Rewritten(t, h, hop, trust, Described(h2, hop, t.Show(v[0].node.ip.value)))
  {
    hide Normalize, Generate, Csv, SingleLine, Describes, Described, Wf, ReadableChain, Reduce, Chained;
    ViewIsReadable(t, h, hop, trust);
    var v := hop.View(t, h, trust);
    var h1 := Chained(t, h, v);
    ChainedLines(t, h, v);
    var h2 := WithLines(h1, COOKIE, SingleLine(Lines(h1, COOKIE)));
    var first := t.Show(v[0].node.ip.value);
    DescribedDescribes(h2, hop, first);
    DescribesProto(hop, first, Described(h2, hop, first));
  }

  lemma DescribesProto(hop: Hop, first: string, h: Fields)
    requires Describes(hop, first, h)
    ensures X_FORWARDED_PROTO in h && Lines(h, X_FORWARDED_PROTO) == [Scheme(hop.tls)]
  {
  }

  /** The header after a failure: the chain and the cookies are written, and the fields before the URI. */
  ghost predicate Interrupted(t: Ipv6Text, h: Fields, hop: Hop, trust: Trust, h': Fields) {
    var v := hop.View(t, h, trust);
    && v != [] && AllIps(v) && Generate(t, v).Some?
    && var h1 := Chained(t, h, v);
       var h2 := WithLines(h1, COOKIE, SingleLine(Lines(h1, COOKIE)));
       h' == Begun(h2, hop, t.Show(v[0].node.ip.value))
  }

  /** `add_forwarding_header`. It fails only for a URI that is no header value; the arm for a chain that
      cannot be written is never taken. */
  method AddForwardingHeader(t: Ipv6Text, headers: HeaderMap, hop: Hop, trust: Trust) returns (ok: bool)
    requires t.Lawful() && headers.Valid() && hop.Valid()
    modifies headers
    ensures headers.Valid() && ok == ValidValue(hop.uri)
    ensures ok ==> Rewritten(t, old(headers.fields), hop, trust, headers.fields)
    ensures !ok ==> Interrupted(t, old(headers.fields), hop, trust, headers.fields)
  {
    hide Begun, Normalize, Generate, ValidValue, Readable, Csv, SingleLine, Rewritten, Described, Chained, Wf, Reduce;
    ghost var h := headers.fields;
    var chain := Normalize(t, headers.fields, hop.peer, hop.tls, hop.host, trust);
    NormalizedChain(t, h, hop.peer, hop.tls, hop.host, trust);
    var csv := XffCsvFromChain(t, chain);
    if csv.None? {
      chain := [hop.Me()];
      csv := XffCsvFromChain(t, chain);
    }
    ViewIsReadable(t, h, hop, trust);
    ChainedIsEmitted(t, h, hop, trust);
    ok := WriteChain(t, headers, chain, csv.value.0);
    MakeCookieSingleLine(headers);
    ok := Describe(headers, hop, csv.value.0[..csv.value.1]);
  }

  /** Whatever header comes in, what is sent on is a fixed point of rpxy's own rules: its fields are
      consistent, and extracting and reducing them again gives the same addresses. */
  lemma OutputIsFixedPoint(t: Ipv6Text, h: Fields, hop: Hop, trust: Trust, h': Fields, host: Option<string>)
    requires t.Lawful() && hop.Valid() && Rewritten(t, h, hop, trust, h')
    ensures var v, x, e := hop.View(t, h, trust), ParseXff(t, h', host), Extract(t, h', host);
            && x.Some? && Consistent(v, x.value) && (FORWARDED in h ==> ParseForwardedField(t, h') == Some(v))
            && e.Found? && Ips(e.chain) == Ips(v) && Reduce(trust, e.chain) == e.chain
  {
    hide Extract, ParseXff, Parse, Generate, Reduce, Describes, Wf, ReadableChain, Normalize, Csv, Consistent;
    ViewIsReadable(t, h, hop, trust);
    EmittedIsFixedPoint(t, h', hop.View(t, h, trust), hop.tls, host, trust);
  }
}
