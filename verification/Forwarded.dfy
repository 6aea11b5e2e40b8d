/** The `Forwarded` header (RFC 7239 sections 4 and 6) as rpxy reads and writes it. */
module Forwarded {
  import opened Wrappers
  import opened Machine
  import opened HttpText
  import opened QuotedText
  import opened IpText

  datatype Port = Numeric(number: u16) | ObfPort(id: string)

  datatype Raw = RawIp | Unknown | Obfuscated(id: string)

  datatype Node = Node(ip: Option<Ip>, port: Option<Port>, raw: Raw)

  datatype Entry = Entry(node: Node, proto: Option<string>, host: Option<string>, via: Option<string>)

  type Chain = seq<Entry>

  /** `"_" 1*(ALPHA / DIGIT / "." / "_" / "-")`. */
  predicate IsObfuscatedId(s: string) {
    2 <= |s| && s[0] == '_' && forall i | 1 <= i < |s| :: IsAlnum(s[i]) || s[i] in "._-"
  }

  predicate StartsWith(s: string, c: char) {
    s != "" && s[0] == c
  }

  /* ------------------------------------- reading ------------------------------------- */

  function ParsePort(s: string): Option<Port> {
    if StartsWith(s, '_') then
      if IsObfuscatedId(s) then Some(ObfPort(s)) else None
    else if s == "" || |s| > 5 || !(forall c | c in s :: IsDigit(c)) then None
    else if Value(s) < 65536 then Some(Numeric(Value(s))) else None
  }

  function WithPort(ip: Option<Ip>, port: string, raw: Raw): Option<Node> {
    match ParsePort(port)
    case None => None
    case Some(p) => Some(Node(ip, Some(p), raw))
  }

  predicate IsBracketed(s: string) {
    2 <= |s| && s[0] == '[' && s[|s| - 1] == ']'
  }

  function Unbracketed(s: string): string
    requires IsBracketed(s)
  {
    s[1..|s| - 1]
  }

  /** A node without a port that is not `unknown`. */
  function ParseBareNode(t: Ipv6Text, s: string): Option<Node> {
    if IsBracketed(s) then
      match t.Read(Unbracketed(s))
      case None => None
      case Some(ip) => Some(Node(Some(Canonical(ip)), None, RawIp))
    else if IsObfuscatedId(s) then Some(Node(None, None, Obfuscated(s)))
    else if StartsWith(s, '_') then None
    else match t.Read(s)
      case None => None
      case Some(ip) => Some(Node(Some(Canonical(ip)), None, RawIp))
  }

  /** The unquoted value of `for=`. A colon separates a port only after a bracket or when it is the
      only one, so that a bare IPv6 address is not cut. */
  function ParseRawNode(t: Ipv6Text, s: string): Option<Node> {
    if EqIgnoreCase(s, "unknown") then Some(Node(None, None, Unknown))
    else
      var cut := RSplitOnce(s, ':');
      if StartsWith(s, '[') && cut.Some? && IsBracketed(cut.value.0) then
        match t.Read(Unbracketed(cut.value.0))
        case None => None
        case Some(ip) => WithPort(Some(Canonical(ip)), cut.value.1, RawIp)
      else if Count(s, ':') == 1 && cut.Some? then
        var (node, port) := cut.value;
        if EqIgnoreCase(node, "unknown") then WithPort(None, port, Unknown)
        else if IsObfuscatedId(node) then WithPort(None, port, Obfuscated(node))
        else if StartsWith(node, '_') then None
        else match t.Read(node)
          case Some(ip) => WithPort(Some(Canonical(ip)), port, RawIp)
          case None => ParseBareNode(t, s)
      else ParseBareNode(t, s)
  }

  function ParseNode(t: Ipv6Text, token: string): Option<Node> {
    match Unquote(token)
    case None => None
    case Some(s) => ParseRawNode(t, s)
  }

  /** The parameters of one entry seen so far. */
  datatype Params = Params(node: Option<Node>, proto: Option<string>, host: Option<string>, via: Option<string>)

  const NoParams: Params := Params(None, None, None, None)

  /** One `key=value`; `None` for a duplicate or an unreadable value, no effect for an unknown key. */
  function ParseParam(t: Ipv6Text, p: Params, param: string): Option<Params> {
    match SplitOnce(param, '=')
    case None => Some(p)
    case Some((k, v)) =>
      var key, value := Lowercase(Trim(k)), Trim(v);
      if key == "for" then
        if p.node.Some? then None
        else match ParseNode(t, value)
          case None => None
          case Some(n) => Some(p.(node := Some(n)))
      else if key == "proto" then
        if p.proto.Some? || Unquote(value).None? then None else Some(p.(proto := Unquote(value)))
      else if key == "host" then
        if p.host.Some? || Unquote(value).None? then None else Some(p.(host := Unquote(value)))
      else if key == "by" then
        if p.via.Some? || Unquote(value).None? then None else Some(p.(via := Unquote(value)))
      else Some(p)
  }

  function ParseParams(t: Ipv6Text, p: Params, params: seq<string>): Option<Params>
    decreases |params|
  {
    if params == [] then Some(p)
    else if params[0] == "" then ParseParams(t, p, params[1..])
    else match ParseParam(t, p, params[0])
      case None => None
      case Some(p') => ParseParams(t, p', params[1..])
  }

  function ParseEntry(t: Ipv6Text, text: string): Option<Entry> {
    match ParseParams(t, NoParams, SplitQuoted(text, ';'))
    case None => None
    case Some(Params(None, _, _, _)) => None
    case Some(Params(Some(node), proto, host, via)) => Some(Entry(node, proto, host, via))
  }

  function ParseEntries(t: Ipv6Text, texts: seq<string>): Option<Chain> {
    if texts == [] then Some([])
    else if texts[0] == "" then ParseEntries(t, texts[1..])
    else match ParseEntry(t, texts[0])
      case None => None
      case Some(e) => match ParseEntries(t, texts[1..])
        case None => None
        case Some(rest) => Some([e] + rest)
  }

  /** `parse_forwarded_header` on the joined field value. */
  function Parse(t: Ipv6Text, text: string): Option<Chain> {
    ParseEntries(t, SplitQuoted(text, ','))
  }

  method ParseForwardedHeaderEntry(t: Ipv6Text, text: string) returns (r: Option<Entry>)
    ensures r == ParseEntry(t, text)
  {
    var params := SplitRespectingQuotes(text, ';');
    var p, i := NoParams, 0;
    while i < |params|
      invariant 0 <= i <= |params|
      invariant ParseParams(t, NoParams, params) == ParseParams(t, p, params[i..])
    {
      assert params[i..][1..] == params[i + 1..];
      if params[i] != "" {
        var next := ParseParam(t, p, params[i]);
        if next.None? {
          return None;
        }
        p := next.value;
      }
      i := i + 1;
    }
    assert params[i..] == [];
    return if p.node.None? then None else Some(Entry(p.node.value, p.proto, p.host, p.via));
  }

  method ParseForwardedHeader(t: Ipv6Text, text: string) returns (r: Option<Chain>)
    ensures r == Parse(t, text)
  {
    var texts := SplitRespectingQuotes(text, ',');
    var chain: Chain, i := [], 0;
    assert texts[0..] == texts && forall c: Chain :: [] + c == c;
    while i < |texts|
      invariant 0 <= i <= |texts|
      invariant Parse(t, text) == Appended(chain, ParseEntries(t, texts[i..]))
    {
      assert texts[i..][1..] == texts[i + 1..];
      if texts[i] != "" {
        var e := ParseForwardedHeaderEntry(t, texts[i]);
        if e.None? {
          return None;
        }
        AppendedPush(chain, e.value, ParseEntries(t, texts[i + 1..]));
        chain := chain + [e.value];
      }
      i := i + 1;
    }
    assert texts[i..] == [] && chain + [] == chain;
    return Some(chain);
  }

  function Appended(a: Chain, r: Option<Chain>): Option<Chain> {
    match r
    case None => None
    case Some(b) => Some(a + b)
  }

  lemma AppendedPush(a: Chain, e: Entry, r: Option<Chain>)
    ensures Appended(a, Appended([e], r)) == Appended(a + [e], r)
  {
    if r.Some? {
      assert a + ([e] + r.value) == a + [e] + r.value;
    }
  }

  /* ------------------------------------- writing ------------------------------------- */

  function PortText(p: Port): string {
    match p
    case Numeric(n) => Dec(n)
    case ObfPort(id) => id
  }

  function PortSuffix(p: Option<Port>): string {
    if p.Some? then ":" + PortText(p.value) else ""
  }

  /** The `for=` value before quoting. */
  function RawText(t: Ipv6Text, n: Node): Option<string> {
    match (n.raw, n.ip)
    case (RawIp, Some(Ip4(v))) => Some(Dotted(v) + PortSuffix(n.port))
    case (RawIp, Some(Ip6(v))) => Some("[" + t.show(v) + "]" + PortSuffix(n.port))
    case (Unknown, None) => Some("unknown" + PortSuffix(n.port))
    case (Obfuscated(id), None) => Some(id + PortSuffix(n.port))
    case _ => None
  }

  /** A port or a bracket makes the value other than a token. */
  predicate NeedsQuotes(n: Node) {
    n.port.Some? || (n.ip.Some? && n.ip.value.Ip6?)
  }

  /** `write_forwarded_node`; `None` is its "invalid forwarded node state" error. */
  function NodeText(t: Ipv6Text, n: Node): Option<string> {
    match RawText(t, n)
    case None => None
    case Some(s) => Some(if NeedsQuotes(n) then "\"" + s + "\"" else s)
  }

  function ParamSuffix(name: string, v: Option<string>): string {
    if v.Some? then ";" + name + "=" + ParamText(v.value) else ""
  }

  function EntryText(t: Ipv6Text, e: Entry): Option<string> {
    match NodeText(t, e.node)
    case None => None
    case Some(s) =>
      Some("for=" + s + ParamSuffix("proto", e.proto) + ParamSuffix("host", e.host) + ParamSuffix("by", e.via))
  }

  predicate Writable(t: Ipv6Text, chain: Chain) {
    forall i | 0 <= i < |chain| :: EntryText(t, chain[i]).Some?
  }

  function EntryTexts(t: Ipv6Text, chain: Chain): seq<string>
    requires Writable(t, chain)
  {
    seq(|chain|, i requires 0 <= i < |chain| => EntryText(t, chain[i]).value)
  }

  /** `generate_forwarded_header`; an empty chain and an unwritable node are errors. */
  function Generate(t: Ipv6Text, chain: Chain): Option<string> {
    if chain != [] && Writable(t, chain) then Some(Join(EntryTexts(t, chain), ", ")) else None
  }

  method WriteParam(buf: string, name: string, v: Option<string>) returns (buf': string)
    ensures buf' == buf + ParamSuffix(name, v)
  {
    buf' := buf;
    if v.Some? {
      buf' := WriteParamValue(buf + ";" + name + "=", v.value);
    }
  }

  method WriteEntry(t: Ipv6Text, buf: string, e: Entry) returns (r: Option<string>)
    ensures r.Some? <==> EntryText(t, e).Some?
    ensures r.Some? ==> r.value == buf + EntryText(t, e).value
  {
    hide NodeText, ParamSuffix;
    var node := NodeText(t, e.node);
    if node.None? {
      return None;
    }
    var b := buf + "for=" + node.value;
    b := WriteParam(b, "proto", e.proto);
    b := WriteParam(b, "host", e.host);
    b := WriteParam(b, "by", e.via);
    return Some(b);
  }

  method GenerateForwardedHeader(t: Ipv6Text, chain: Chain) returns (r: Option<string>)
    ensures r == Generate(t, chain)
  {
    hide EntryText;
    if chain == [] {
      return None;
    }
    var buf, i := "", 0;
    ghost var parts: seq<string> := [];
    while i < |chain|
      invariant 0 <= i <= |chain| && |parts| == i && buf == Join(parts, ", ")
      invariant forall j | 0 <= j < i :: EntryText(t, chain[j]) == Some(parts[j])
    {
      var start := if i > 0 then buf + ", " else buf;
      var w := WriteEntry(t, start, chain[i]);
      if w.None? {
        return None;
      }
      ghost var s := EntryText(t, chain[i]).value;
      JoinPush(parts, s, ", ");
      buf, parts := w.value, parts + [s];
      i := i + 1;
    }
    assert EntryTexts(t, chain) == parts;
    return Some(buf);
  }
}
