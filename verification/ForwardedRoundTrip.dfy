/** Reading back what rpxy writes in `Forwarded` gives the identical chain. */
module ForwardedRoundTrip {
  import opened Wrappers
  import opened Machine
  import opened HttpText
  import opened QuotedText
  import opened IpText
  import opened Forwarded
  import opened ForwardedParams

  /* ---------------------------------- well-formedness ---------------------------------- */

  predicate WfPort(p: Port) {
    p.ObfPort? ==> IsObfuscatedId(p.id)
  }

  predicate WfNode(n: Node) {
    && (n.port.Some? ==> WfPort(n.port.value))
    && match (n.raw, n.ip)
       case (RawIp, Some(ip)) => IsCanonical(ip)
       case (Unknown, None) => true
       case (Obfuscated(id), None) => IsObfuscatedId(id)
       case _ => false
  }

  /** `proto`, `host` and `by` may be any text. */
  predicate Wf(chain: Chain) {
    forall i | 0 <= i < |chain| :: WfNode(chain[i].node)
  }

  /* --------------------------------------- ports --------------------------------------- */

  /** The characters of a node: none is white space, a quote, a comma, a semicolon or an equals sign. */
  predicate IsNodeChar(c: char) {
    IsAlnum(c) || c in "._-:[]"
  }

  lemma PortRoundTrip(p: Port)
    requires WfPort(p)
    ensures ParsePort(PortText(p)) == Some(p)
    ensures ':' !in PortText(p) && forall c | c in PortText(p) :: IsNodeChar(c)
  {
    match p {
      case Numeric(n) =>
        DecValue(n);
        assert IsDigit(Dec(n)[0]);
      case ObfPort(id) =>
        forall c | c in id
          ensures IsNodeChar(c) && c != ':'
        {
          var i :| 0 <= i < |id| && id[i] == c;
        }
    }
  }

  lemma ObfuscatedChars(id: string)
    requires IsObfuscatedId(id)
    ensures ':' !in id && forall c | c in id :: IsNodeChar(c)
    ensures !EqIgnoreCase(id, "unknown")
  {
    forall c | c in id
      ensures IsNodeChar(c) && c != ':'
    {
      var i :| 0 <= i < |id| && id[i] == c;
    }
    assert Lowercase(id)[0] == '_' && Lowercase("unknown")[0] == 'u';
  }

  /* --------------------------------------- nodes --------------------------------------- */

  lemma NotUnknown(s: string)
    requires s != "" && Lower(s[0]) != 'u'
    ensures !EqIgnoreCase(s, "unknown")
  {
    assert Lowercase(s)[0] == Lower(s[0]) && Lowercase("unknown")[0] == 'u';
  }

  /** Cutting a port off again. */
  lemma Cut(head: string, port: string)
    requires ':' !in port
    ensures RSplitOnce(head + (":" + port), ':') == Some((head, port))
    ensures Count(head + (":" + port), ':') == Count(head, ':') + 1
  {
    RSplitOnceAt(head, ':', port);
    assert head + (":" + port) == head + [':'] + port;
    CountConcat(head, ":" + port, ':');
    CountZero(port, ':');
    assert (":" + port)[1..] == port;
  }

  lemma PortCut(head: string, p: Port)
    requires WfPort(p)
    ensures var s := head + PortSuffix(Some(p));
            RSplitOnce(s, ':') == Some((head, PortText(p))) && Count(s, ':') == Count(head, ':') + 1
  {
    PortRoundTrip(p);
    Cut(head, PortText(p));
  }

  lemma V4NodeRoundTrip(t: Ipv6Text, v: V4, port: Option<Port>)
    requires t.Lawful() && (port.Some? ==> WfPort(port.value))
    ensures ParseRawNode(t, Dotted(v) + PortSuffix(port)) == Some(Node(Some(Ip4(v)), port, RawIp))
  {
    var d := Dotted(v);
    t.RoundTrip(Ip4(v));
    DottedChars(v);
    CountZero(d, ':');
    assert IsDottedChar(d[0]);
    NotUnknown(d);
    NotUnknown(d + PortSuffix(port));
    if port.Some? {
      PortCut(d, port.value);
      PortRoundTrip(port.value);
    } else {
      assert d + PortSuffix(port) == d;
    }
  }

  lemma V6NodeRoundTrip(t: Ipv6Text, v: V6, port: Option<Port>)
    requires t.Lawful() && IsCanonical(Ip6(v)) && (port.Some? ==> WfPort(port.value))
    ensures ParseRawNode(t, "[" + t.show(v) + "]" + PortSuffix(port)) == Some(Node(Some(Ip6(v)), port, RawIp))
  {
    var b := "[" + t.show(v) + "]";
    t.RoundTrip(Ip6(v));
    t.ShowChars(Ip6(v));
    assert Unbracketed(b) == t.show(v);
    NotUnknown(b + PortSuffix(port));
    if port.Some? {
      PortCut(b, port.value);
      PortRoundTrip(port.value);
    } else {
      assert b + PortSuffix(port) == b;
      BareV6IsNotCut(t, v);
    }
  }

  /** Without a port, the last colon is inside the brackets, so nothing is cut there. */
  lemma BareV6IsNotCut(t: Ipv6Text, v: V6)
    requires t.Lawful()
    ensures var b := "[" + t.show(v) + "]";
            && Count(b, ':') >= 2
            && (RSplitOnce(b, ':').Some? ==> !IsBracketed(RSplitOnce(b, ':').value.0))
  {
    var b := "[" + t.show(v) + "]";
    CountConcat("[" + t.show(v), "]", ':');
    CountConcat("[", t.show(v), ':');
    RSplitOnceParts(b, ':');
    if RSplitOnce(b, ':').Some? {
      var (x, y) := RSplitOnce(b, ':').value;
      assert x != "" ==> x[|x| - 1] == b[|x| - 1];
      assert |x| >= 2 ==> b[|x| - 1] == t.show(v)[|x| - 2] && IsV6Char(t.show(v)[|x| - 2]);
    }
  }

  lemma UnknownHasNoColon(s: string)
    requires Spells(s, "unknown")
    ensures Count(s, ':') == 0
  {
    CountZero(s, ':');
    forall i | 0 <= i < |s|
      ensures s[i] != ':'
    {
      assert "unknown"[i] in "unknown";
    }
  }

  /** `unknown` in any case, with a port or without. */
  lemma UnknownInAnyCase(t: Ipv6Text, s: string, port: Option<Port>)
    requires Spells(s, "unknown") && (port.Some? ==> WfPort(port.value))
    ensures ParseRawNode(t, s + PortSuffix(port)) == Some(Node(None, port, Unknown))
  {
    hide PortText;
    SpellsExactly(s, "unknown");
    assert Lowercase("unknown") == "unknown" by { SpellsExactly("unknown", "unknown"); }
    if port.Some? {
      PortCut(s, port.value);
      PortRoundTrip(port.value);
      UnknownHasNoColon(s);
      assert |Lowercase(s + PortSuffix(port))| > |Lowercase("unknown")|;
      assert !StartsWith(s + PortSuffix(port), '[') by { assert (s + PortSuffix(port))[0] == s[0] != '['; }
    } else {
      assert s + PortSuffix(port) == s;
    }
  }

  lemma ObfuscatedRoundTrip(t: Ipv6Text, id: string, port: Option<Port>)
    requires IsObfuscatedId(id) && (port.Some? ==> WfPort(port.value))
    ensures ParseRawNode(t, id + PortSuffix(port)) == Some(Node(None, port, Obfuscated(id)))
  {
    ObfuscatedChars(id);
    CountZero(id, ':');
    NotUnknown(id + PortSuffix(port));
    if port.Some? {
      PortCut(id, port.value);
      PortRoundTrip(port.value);
    } else {
      assert id + PortSuffix(port) == id;
    }
  }

  lemma RawNodeRoundTrip(t: Ipv6Text, n: Node)
    requires t.Lawful() && WfNode(n)
    ensures RawText(t, n).Some? && ParseRawNode(t, RawText(t, n).value) == Some(n)
  {
    match n.raw {
      case RawIp =>
        match n.ip.value {
          case Ip4(v) => V4NodeRoundTrip(t, v, n.port);
          case Ip6(v) => V6NodeRoundTrip(t, v, n.port);
        }
      case Unknown => UnknownInAnyCase(t, "unknown", n.port);
      case Obfuscated(id) => ObfuscatedRoundTrip(t, id, n.port);
    }
  }

  predicate NodeChars(s: string) {
    s != "" && forall c | c in s :: IsNodeChar(c)
  }

  lemma PortSuffixChars(s: string, port: Option<Port>)
    requires NodeChars(s) && (port.Some? ==> WfPort(port.value))
    ensures NodeChars(s + PortSuffix(port))
  {
  }

  lemma RawTextChars(t: Ipv6Text, n: Node)
    requires t.Lawful() && WfNode(n)
    ensures RawText(t, n).Some? && NodeChars(RawText(t, n).value)
  {
    match n.raw {
      case RawIp =>
        t.ShowChars(n.ip.value);
        match n.ip.value {
          case Ip4(v) => PortSuffixChars(Dotted(v), n.port);
          case Ip6(v) => PortSuffixChars("[" + t.show(v) + "]", n.port);
        }
      case Unknown => PortSuffixChars("unknown", n.port);
      case Obfuscated(id) =>
        ObfuscatedChars(id);
        PortSuffixChars(id, n.port);
    }
  }

  lemma NodeCharsAreSolid(s: string, d: char)
    requires NodeChars(s) && (d == ',' || d == ';')
    ensures Solid(s, d) && Unquote(s) == Some(s) && Escape(s) == s
  {
    assert IsNodeChar(s[0]) && IsNodeChar(s[|s| - 1]);
    PlainIsWhole(s, d);
    TrimTight(s);
    EscapePlain(s);
  }

  lemma NodeRoundTrip(t: Ipv6Text, n: Node, d: char)
    requires t.Lawful() && WfNode(n) && (d == ',' || d == ';')
    ensures NodeText(t, n).Some? && ParseNode(t, NodeText(t, n).value) == Some(n)
    ensures Solid(NodeText(t, n).value, d)
  {
    RawNodeRoundTrip(t, n);
    RawTextChars(t, n);
    var s := RawText(t, n).value;
    NodeCharsAreSolid(s, d);
    QuotedIsWhole(s, d);
  }

  /* ------------------------------------ other spellings ------------------------------------- */

  /** What begins with an underscore is an obfuscated identifier or nothing, never an address. */
  lemma UnderscoreIsObfuscated(t: Ipv6Text, s: string)
    requires s != "" && s[0] == '_'
    ensures var r := ParseRawNode(t, s); r.Some? ==> r.value.ip == None && r.value.raw.Obfuscated?
  {
    hide Count, RSplitOnce, Value;
    NotUnknown(s);
    RSplitOnceParts(s, ':');
    var cut := RSplitOnce(s, ':');
    if cut.Some? {
      var (node, port) := cut.value;
      assert s == node + [':'] + port;
      if node != "" {
        assert node[0] == s[0];
        NotUnknown(node);
      }
    }
  }

  /** One to five digits, leading zeros allowed, are the port of that number; longer text, and text with any other
      character, is not a number. */
  lemma NumericPort(zeros: string, n: u16, s: string)
    requires forall c | c in zeros :: c == '0'
    ensures ParsePort(zeros + Dec(n)) == if |zeros + Dec(n)| <= 5 then Some(Numeric(n)) else None
    ensures s == "" || (s[0] != '_' && exists c | c in s :: !IsDigit(c)) ==> ParsePort(s) == None
  {
    DecValue(n);
    ValueOfPadded(zeros, Dec(n));
    var t := zeros + Dec(n);
    assert t[0] in t;
  }

  /** A node is quoted exactly when it is not a token. */
  lemma QuotedIfNoToken(t: Ipv6Text, n: Node)
    requires t.Lawful() && WfNode(n)
    ensures RawText(t, n).Some?
    ensures NodeText(t, n) == Some(if IsToken(RawText(t, n).value) then RawText(t, n).value
                                   else "\"" + RawText(t, n).value + "\"")
  {
    RawTextChars(t, n);
    var s := RawText(t, n).value;
    if n.port.Some? {
      assert s[|s| - |PortSuffix(n.port)|] == ':';
      assert ':' in s;
    } else if n.ip.Some? && n.ip.value.Ip6? {
      assert s[0] == '[';
      assert '[' in s;
    } else {
      PlainNode(t, n);
    }
  }

  lemma PlainNode(t: Ipv6Text, n: Node)
    requires WfNode(n) && n.port.None? && (n.ip.Some? ==> n.ip.value.Ip4?)
    ensures RawText(t, n).Some? && IsToken(RawText(t, n).value)
  {
    var s := RawText(t, n).value;
    match n.raw {
      case RawIp =>
        DottedChars(n.ip.value.v4);
        assert s == Dotted(n.ip.value.v4);
      case Unknown =>
        assert s == "unknown";
      case Obfuscated(id) =>
        assert s == id;
        forall c | c in id
          ensures IsTchar(c)
        {
          var i :| 0 <= i < |id| && id[i] == c;
        }
    }
  }

  /* -------------------------------------- entries -------------------------------------- */

  lemma KeyIsItself(k: string)
    requires IsKey(k)
    ensures Lowercase(Trim(k)) == k && '=' !in k
  {
    assert k[0] in k && k[|k| - 1] in k;
    TrimTight(k);
    forall i | 0 <= i < |k|
      ensures Lowercase(k)[i] == k[i]
    {
      assert k[i] in k;
    }
  }

  /** `key=value` splits into its parts and stays in one piece. */
  lemma ParamIsSolid(k: string, v: string, d: char)
    requires IsKey(k) && Solid(v, d) && (d == ',' || d == ';')
    ensures Solid(k + "=" + v, d) && SplitOnce(k + "=" + v, '=') == Some((k, v)) && Trim(v) == v
  {
    assert k[0] in k;
    KeyIsItself(k);
    SplitOnceAt(k, '=', v);
    TrimTight(v);
    PlainIsWhole(k + "=", d);
    WholeConcat(Out, k + "=", v, d);
  }

  function Piece(name: string, v: Option<string>): seq<string> {
    if v.Some? then [name + "=" + ParamText(v.value)] else []
  }

  lemma JoinPiece(parts: seq<string>, name: string, v: Option<string>)
    requires parts != []
    ensures Join(parts + Piece(name, v), ";") == Join(parts, ";") + ParamSuffix(name, v)
  {
    if v.Some? {
      JoinPush(parts, name + "=" + ParamText(v.value), ";");
    } else {
      assert parts + [] == parts;
    }
  }

  datatype Spelling = Spelling(node: string, proto: string, host: string, via: string) {
    predicate Valid() {
      Spells(node, "for") && Spells(proto, "proto") && Spells(host, "host") && Spells(via, "by")
    }
  }

  function Respelt(sp: Spelling, node: string, e: Entry): seq<string> {
    [sp.node + "=" + node] + Piece(sp.proto, e.proto) + Piece(sp.host, e.host) + Piece(sp.via, e.via)
  }

  lemma PieceValues(key: string, name: string, v: Option<string>, other: string)
    requires IsName(name) && IsName(other) && Spells(key, name)
    ensures forall s | s in Piece(key, v) :: Solid(s, ';')
    ensures Values(Piece(key, v), other) == if other == name && v.Some? then [ParamText(v.value)] else []
  {
    hide Solid, ParamText, ValueOf;
    if v.Some? {
      ParamRoundTrip(v.value, ';');
      PieceValue(key, name, ParamText(v.value), other);
      SingleValue(key + "=" + ParamText(v.value), other);
    }
  }

  lemma RespeltValues(sp: Spelling, node: string, e: Entry, other: string)
    requires sp.Valid() && Solid(node, ';') && IsName(other)
    ensures forall s | s in Respelt(sp, node, e) :: Solid(s, ';')
    ensures Values(Respelt(sp, node, e), other)
         == Values([sp.node + "=" + node], other) + Values(Piece(sp.proto, e.proto), other)
            + Values(Piece(sp.host, e.host), other) + Values(Piece(sp.via, e.via), other)
  {
    hide Solid, Piece, Values, Spells;
    var a, b, c, d := [sp.node + "=" + node], Piece(sp.proto, e.proto), Piece(sp.host, e.host), Piece(sp.via, e.via);
    PieceValue(sp.node, "for", node, other);
    PieceValues(sp.proto, "proto", e.proto, other);
    PieceValues(sp.host, "host", e.host, other);
    PieceValues(sp.via, "by", e.via, other);
    ValuesConcat(a + b + c, d, other);
    ValuesConcat(a + b, c, other);
    ValuesConcat(a, b, other);
  }

  lemma RespeltValue(sp: Spelling, node: string, e: Entry)
    requires sp.Valid() && Solid(node, ';')
    ensures var ps := Respelt(sp, node, e);
            && Values(ps, "for") == [node]
            && Values(ps, "proto") == (if e.proto.Some? then [ParamText(e.proto.value)] else [])
            && Values(ps, "host") == (if e.host.Some? then [ParamText(e.host.value)] else [])
            && Values(ps, "by") == (if e.via.Some? then [ParamText(e.via.value)] else [])
  {
    hide Solid, Piece, Values, Spells, ParamText, Respelt, ValueOf;
    var x := sp.node + "=" + node;
    RespeltValuesOf(sp, node, e, "for");
    RespeltValuesOf(sp, node, e, "proto");
    RespeltValuesOf(sp, node, e, "host");
    RespeltValuesOf(sp, node, e, "by");
  }

  lemma RespeltValuesOf(sp: Spelling, node: string, e: Entry, other: string)
    requires sp.Valid() && Solid(node, ';') && IsName(other)
    ensures Values(Respelt(sp, node, e), other)
         == (if other == "for" then [node] else [])
            + (if other == "proto" && e.proto.Some? then [ParamText(e.proto.value)] else [])
            + (if other == "host" && e.host.Some? then [ParamText(e.host.value)] else [])
            + (if other == "by" && e.via.Some? then [ParamText(e.via.value)] else [])
  {
    hide Solid, Piece, Values, Spells, ParamText, Respelt, ValueOf;
    RespeltValues(sp, node, e, other);
    SingleValue(sp.node + "=" + node, other);
    PieceValue(sp.node, "for", node, other);
    PieceValues(sp.proto, "proto", e.proto, other);
    PieceValues(sp.host, "host", e.host, other);
    PieceValues(sp.via, "by", e.via, other);
  }

  lemma ParamFits(v: Option<string>)
    ensures var values := if v.Some? then [ParamText(v.value)] else [];
            Fits(None, values) && Filled(None, values) == v
  {
    hide ParamText, Unquote;
    if v.Some? {
      ParamRoundTrip(v.value, ';');
    }
  }

  /** What rpxy writes for an entry is read back whatever the case of its parameter names. */
  lemma RespeltEntryRoundTrip(t: Ipv6Text, e: Entry, sp: Spelling)
    requires t.Lawful() && WfNode(e.node) && sp.Valid()
    ensures NodeText(t, e.node).Some?
    ensures ParseEntry(t, Join(Respelt(sp, NodeText(t, e.node).value, e), ";")) == Some(e)
  {
    hide Solid, ParseNode, NodeText, ParseEntry, Join, Values, Fits, Filled, ParamText, SplitQuoted;
    NodeRoundTrip(t, e.node, ';');
    var node := NodeText(t, e.node).value;
    var ps := Respelt(sp, node, e);
    RespeltValues(sp, node, e, "for");
    forall i | 0 <= i < |ps|
      ensures Solid(ps[i], ';')
    {
      assert ps[i] in ps;
    }
    PiecesOf(ps);
    EntryIsExact(t, Join(ps, ";"));
    RespeltValue(sp, node, e);
    ParamFits(e.proto);
    ParamFits(e.host);
    ParamFits(e.via);
  }

  const PLAIN := Spelling("for", "proto", "host", "by")

  lemma EntryTextIsJoin(node: string, e: Entry)
    ensures Join(Respelt(PLAIN, node, e), ";")
            == "for=" + node + ParamSuffix("proto", e.proto) + ParamSuffix("host", e.host) + ParamSuffix("by", e.via)
  {
    hide ParamSuffix;
    var parts := ["for" + "=" + node];
    assert "for" + "=" + node == "for=" + node;
    JoinPiece(parts, "proto", e.proto);
    JoinPiece(parts + Piece("proto", e.proto), "host", e.host);
    JoinPiece(parts + Piece("proto", e.proto) + Piece("host", e.host), "by", e.via);
  }

  lemma EntryRoundTrip(t: Ipv6Text, e: Entry)
    requires t.Lawful() && WfNode(e.node)
    ensures EntryText(t, e).Some? && ParseEntry(t, EntryText(t, e).value) == Some(e)
  {
    hide ParamSuffix, Respelt, ParseEntry, NodeText;
    RespeltEntryRoundTrip(t, e, PLAIN);
    EntryTextIsJoin(NodeText(t, e.node).value, e);
  }

  lemma ParamSuffixIsWhole(name: string, v: Option<string>)
    requires IsKey(name)
    ensures Whole(Out, ParamSuffix(name, v), ',') && After(Out, ParamSuffix(name, v)) == Out
    ensures ParamSuffix(name, v) != "" ==> !IsSpace(ParamSuffix(name, v)[|ParamSuffix(name, v)| - 1])
  {
    hide ParamText, Solid, Whole, After;
    if v.Some? {
      ParamRoundTrip(v.value, ',');
      ParamIsSolid(name, ParamText(v.value), ',');
      SemicolonThen(name + "=" + ParamText(v.value));
      assert ParamSuffix(name, v) == ";" + (name + "=" + ParamText(v.value));
    } else {
      NothingIsWhole();
    }
  }

  lemma NothingIsWhole()
    ensures Whole(Out, "", ',') && After(Out, "") == Out
  {
  }

  lemma SemicolonThen(p: string)
    requires Solid(p, ',')
    ensures Whole(Out, ";" + p, ',') && After(Out, ";" + p) == Out && !IsSpace((";" + p)[|p|])
  {
    WholeConcat(Out, ";", p, ',');
  }

  lemma SolidThen(a: string, b: string)
    requires Solid(a, ',') && Whole(Out, b, ',') && After(Out, b) == Out
    requires b != "" ==> !IsSpace(b[|b| - 1])
    ensures Solid(a + b, ',')
  {
    WholeConcat(Out, a, b, ',');
    if b == "" {
      assert a + b == a;
    }
  }

  lemma EntryTextIsSolid(t: Ipv6Text, e: Entry)
    requires t.Lawful() && WfNode(e.node)
    ensures EntryText(t, e).Some? && Solid(EntryText(t, e).value, ',')
  {
    hide Solid, Whole, After, ParamSuffix, NodeText;
    NodeRoundTrip(t, e.node, ',');
    var node := NodeText(t, e.node).value;
    ParamIsSolid("for", node, ',');
    assert "for=" + node == "for" + "=" + node;
    ParamSuffixIsWhole("proto", e.proto);
    ParamSuffixIsWhole("host", e.host);
    ParamSuffixIsWhole("by", e.via);
    SolidThen("for=" + node, ParamSuffix("proto", e.proto));
    SolidThen("for=" + node + ParamSuffix("proto", e.proto), ParamSuffix("host", e.host));
    SolidThen("for=" + node + ParamSuffix("proto", e.proto) + ParamSuffix("host", e.host), ParamSuffix("by", e.via));
  }

  /* --------------------------------------- chains --------------------------------------- */

  lemma {:induction false} ReadEntries(t: Ipv6Text, chain: Chain, texts: seq<string>)
    requires |texts| == |chain|
    requires forall i | 0 <= i < |chain| :: texts[i] != "" && ParseEntry(t, texts[i]) == Some(chain[i])
    ensures ParseEntries(t, texts) == Some(chain)
  {
    hide ParseEntry;
    if chain != [] {
      ReadEntries(t, chain[1..], texts[1..]);
      assert chain == [chain[0]] + chain[1..];
    }
  }

  /** Parsing the generated header gives the chain back, for every well-formed chain and any text in
      its parameters; generation only fails on the empty chain. */
  lemma GenerateParses(t: Ipv6Text, chain: Chain)
    requires t.Lawful() && Wf(chain) && chain != []
    ensures Generate(t, chain).Some? && Parse(t, Generate(t, chain).value) == Some(chain)
  {
    hide EntryText, ParseEntry, Solid, WfNode;
    forall i | 0 <= i < |chain|
      ensures EntryText(t, chain[i]).Some? && Solid(EntryText(t, chain[i]).value, ',')
      ensures EntryText(t, chain[i]).value != ""
      ensures ParseEntry(t, EntryText(t, chain[i]).value) == Some(chain[i])
    {
      EntryRoundTrip(t, chain[i]);
      EntryTextIsSolid(t, chain[i]);
      SolidIsSomething(EntryText(t, chain[i]).value, ',');
    }
    var texts := EntryTexts(t, chain);
    SplitJoin("", texts, ',', " ");
    assert [','] + " " == ", " && "" + Join(texts, ", ") == Join(texts, ", ");
    ReadEntries(t, chain, texts);
  }

  /** Only an empty chain, or one with a node that no parser makes, cannot be written. */
  lemma GenerateFailsExactly(t: Ipv6Text, chain: Chain)
    requires t.Lawful()
    ensures Wf(chain) ==> (Generate(t, chain).None? <==> chain == [])
    ensures (exists e | e in chain :: RawText(t, e.node).None?) ==> Generate(t, chain).None?
  {
    if Wf(chain) && chain != [] {
      GenerateParses(t, chain);
    }
    if e :| e in chain && RawText(t, e.node).None? {
      var i :| 0 <= i < |chain| && chain[i] == e;
      assert EntryText(t, chain[i]).None?;
    }
  }

  lemma SolidIsSomething(s: string, d: char)
    requires Solid(s, d)
    ensures s != ""
  {
  }
}
