/** How rpxy derives one forwarding chain from `Forwarded`, `X-Forwarded-*`, the immediate peer and the
    configured trust. */
module Forwarding {
  import opened Wrappers
  import opened HttpText
  import opened QuotedText
  import opened IpText
  import opened Forwarded
  import opened ForwardedRoundTrip
  import opened TrustBoundary
  import opened Headers

  /* --------------------------------- X-Forwarded-For --------------------------------- */

  /** The trimmed, non-empty elements of a comma-separated list. */
  function Elements(parts: seq<string>): seq<string> {
    if parts == [] then []
    else (if Trim(parts[0]) == "" then [] else [Trim(parts[0])]) + Elements(parts[1..])
  }

  function IpEntry(ip: Ip, proto: Option<string>, host: Option<string>): Entry {
    Entry(Node(Some(ip), None, RawIp), proto, host, None)
  }

  /** Only the last hop, written by the previous proxy, carries a scheme and a host. */
  function ParseHops(t: Ipv6Text, tokens: seq<string>, proto: Option<string>, host: Option<string>): Option<Chain> {
    if tokens == [] then Some([])
    else match ParseNode(t, tokens[0])
      case Some(Node(Some(ip), _, _)) =>
        (match ParseHops(t, tokens[1..], proto, host)
         case None => None
         case Some(rest) =>
           Some([if |tokens| == 1 then IpEntry(ip, proto, host) else IpEntry(ip, None, None)] + rest))
      case _ => None
  }

  /** The first line of a field. */
  function FirstField(h: Fields, name: Name): Field {
    var lines := Lines(h, name);
    if lines == [] then Missing else if Readable(lines[0]) then Text(lines[0]) else Unreadable
  }

  function ParseXff(t: Ipv6Text, h: Fields, host: Option<string>): Option<Chain> {
    match (JoinedField(Lines(h, X_FORWARDED_FOR)), FirstField(h, X_FORWARDED_PROTO))
    case (Text(xff), Missing) => ParseHops(t, Elements(SplitAll(xff, ',')), None, host)
    case (Text(xff), Text(proto)) => ParseHops(t, Elements(SplitAll(xff, ',')), Some(Trim(proto)), host)
    case _ => None
  }

  /* ----------------------------------- extraction ----------------------------------- */

  datatype Extracted = Absent | Unparsable | Found(chain: Chain)

  function Ips(chain: Chain): seq<Option<Ip>> {
    seq(|chain|, i requires 0 <= i < |chain| => chain[i].node.ip)
  }

  /** `forwarded_is_consistent`. */
  predicate Consistent(forwarded: Chain, xff: Chain) {
    && Ips(forwarded) == Ips(xff)
    && (xff != [] && |forwarded| == |xff| && Last(forwarded).proto.Some? && Last(xff).proto.Some? ==>
          EqIgnoreCase(Last(forwarded).proto.value, Trim(Last(xff).proto.value)))
  }

  function ParseForwardedField(t: Ipv6Text, h: Fields): Option<Chain> {
    match JoinedField(Lines(h, FORWARDED))
    case Text(text) => Parse(t, text)
    case _ => None
  }

  /** `extract_forwarding_chain_from_headers`: `Forwarded` wins only when it agrees with the rest. */
  function Extract(t: Ipv6Text, h: Fields, host: Option<string>): Extracted {
    if X_FORWARDED_FOR in h then
      match ParseXff(t, h, host)
      case None => Unparsable
      case Some(xff) =>
        if FORWARDED !in h then Found(xff)
        else match ParseForwardedField(t, h)
          case Some(f) => Found(if Consistent(f, xff) then f else xff)
          case None => Found(xff)
    else if FORWARDED in h then
      match ParseForwardedField(t, h)
      case Some(f) => Found(f)
      case None => Unparsable
    else Absent
  }

  /* ---------------------------------- normalisation ---------------------------------- */

  function Scheme(tls: bool): string {
    if tls then "https" else "http"
  }

  function PeerEntry(peer: Ip, tls: bool, host: Option<string>): Entry {
    IpEntry(peer, Some(Scheme(tls)), host)
  }

  /** `normalize_forwarding_chain`. */
  function Normalize(t: Ipv6Text, h: Fields, peer: Ip, tls: bool, host: Option<string>, trust: Trust): Chain {
    var me := PeerEntry(peer, tls, host);
    if !IsTrusted(trust, peer) then [me]
    else match Extract(t, h, None)
      case Found(chain) => if chain == [] then [me] else Reduce(trust, chain + [me])
      case _ => [me]
  }

  predicate AllIps(chain: Chain) {
    forall i | 0 <= i < |chain| :: chain[i].node.ip.Some?
  }

  /** The chain the outgoing headers are made from: `X-Forwarded-For` cannot name a hop without an
      address, so such a chain is given up for the peer alone. */
  function View(t: Ipv6Text, h: Fields, peer: Ip, tls: bool, host: Option<string>, trust: Trust): Chain {
    var chain := Normalize(t, h, peer, tls, host, trust);
    if AllIps(chain) then chain else [PeerEntry(peer, tls, host)]
  }

  function IpTexts(t: Ipv6Text, chain: Chain): seq<string>
    requires AllIps(chain)
  {
    seq(|chain|, i requires 0 <= i < |chain| => t.Show(chain[i].node.ip.value))
  }

  /** `xff_csv_from_chain`. */
  function Csv(t: Ipv6Text, chain: Chain): string
    requires AllIps(chain)
  {
    Join(IpTexts(t, chain), ", ")
  }

  /* ------------------------------ what the parser yields ------------------------------ */

  lemma BareNodeIsWf(t: Ipv6Text, s: string)
    ensures ParseBareNode(t, s).Some? ==> WfNode(ParseBareNode(t, s).value)
  {
  }

  lemma PortIsWf(ip: Option<Ip>, port: string, raw: Raw)
    ensures WithPort(ip, port, raw).Some? ==>
              (WfNode(WithPort(ip, port, raw).value) <==> WfNode(Node(ip, None, raw)))
  {
    hide Value;
  }

  lemma AddressIsWf(ip: Option<Ip>, port: string)
    ensures ip.Some? && WithPort(Some(Canonical(ip.value)), port, RawIp).Some? ==>
              WfNode(WithPort(Some(Canonical(ip.value)), port, RawIp).value)
  {
    hide WithPort;
    if ip.Some? {
      PortIsWf(Some(Canonical(ip.value)), port, RawIp);
    }
  }

  lemma ParsedNodeIsWf(t: Ipv6Text, s: string)
    ensures ParseRawNode(t, s).Some? ==> WfNode(ParseRawNode(t, s).value)
  {
    hide Count, RSplitOnce, EqIgnoreCase, ParseBareNode, WithPort, StartsWith;
    BareNodeIsWf(t, s);
    var cut := RSplitOnce(s, ':');
    if cut.Some? {
      var (node, port) := cut.value;
      PortIsWf(None, port, Unknown);
      PortIsWf(None, port, Obfuscated(node));
      AddressIsWf(t.Read(node), port);
      if IsBracketed(node) {
        AddressIsWf(t.Read(Unbracketed(node)), port);
      }
    }
  }

  lemma {:induction false} ParsedParamsAreWf(t: Ipv6Text, p: Params, params: seq<string>)
    requires p.node.Some? ==> WfNode(p.node.value)
    ensures var r := ParseParams(t, p, params); r.Some? && r.value.node.Some? ==> WfNode(r.value.node.value)
    decreases |params|
  {
    hide WfNode, ParseRawNode;
    if params != [] {
      if params[0] == "" {
        ParsedParamsAreWf(t, p, params[1..]);
      } else {
        var cut := SplitOnce(params[0], '=');
        if cut.Some? && Unquote(Trim(cut.value.1)).Some? {
          ParsedNodeIsWf(t, Unquote(Trim(cut.value.1)).value);
        }
        var p' := ParseParam(t, p, params[0]);
        if p'.Some? {
          ParsedParamsAreWf(t, p'.value, params[1..]);
        }
      }
    }
  }

  lemma {:induction false} ParsedEntriesAreWf(t: Ipv6Text, texts: seq<string>)
    ensures ParseEntries(t, texts).Some? ==> Wf(ParseEntries(t, texts).value)
  {
    hide WfNode, ParseParams;
    if texts != [] {
      ParsedEntriesAreWf(t, texts[1..]);
      ParsedParamsAreWf(t, NoParams, SplitQuoted(texts[0], ';'));
    }
  }

  /** Whatever parses is well-formed; so reading, writing and reading again gives what was read. */
  lemma ParseIsNormalising(t: Ipv6Text, text: string)
    requires t.Lawful()
    ensures Parse(t, text).Some? ==> Wf(Parse(t, text).value)
    ensures Parse(t, text).Some? && Parse(t, text).value != [] ==>
              && Generate(t, Parse(t, text).value).Some?
              && Parse(t, Generate(t, Parse(t, text).value).value) == Parse(t, text)
  {
    hide Wf, Generate, ParseEntries;
    ParsedEntriesAreWf(t, SplitQuoted(text, ','));
    if Parse(t, text).Some? && Parse(t, text).value != [] {
      GenerateParses(t, Parse(t, text).value);
    }
  }

  predicate IpOnly(chain: Chain) {
    forall i | 0 <= i < |chain| ::
      chain[i].node.ip.Some? && chain[i].node.raw.RawIp? && IsCanonical(chain[i].node.ip.value)
  }

  lemma {:induction false} ParsedHops(t: Ipv6Text, tokens: seq<string>, proto: Option<string>, host: Option<string>)
    ensures var r := ParseHops(t, tokens, proto, host);
            r.Some? ==> |r.value| == |tokens| && IpOnly(r.value) && Wf(r.value)
  {
    hide ParseRawNode;
    if tokens != [] {
      ParsedHops(t, tokens[1..], proto, host);
      if Unquote(tokens[0]).Some? {
        ParsedNodeIsWf(t, Unquote(tokens[0]).value);
      }
    }
  }

  lemma ExtractedIsWf(t: Ipv6Text, h: Fields, host: Option<string>)
    requires t.Lawful()
    ensures Extract(t, h, host).Found? ==> Wf(Extract(t, h, host).chain)
  {
    hide Wf, ParseHops, Parse, Consistent;
    var x, f := JoinedField(Lines(h, X_FORWARDED_FOR)), JoinedField(Lines(h, FORWARDED));
    var p := FirstField(h, X_FORWARDED_PROTO);
    if x.Text? {
      ParsedHops(t, Elements(SplitAll(x.text, ',')), if p.Text? then Some(Trim(p.text)) else None, host);
    }
    if f.Text? {
      ParseIsNormalising(t, f.text);
    }
  }
}
