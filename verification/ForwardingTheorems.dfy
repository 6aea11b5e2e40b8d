/** The normalised chain, and why what rpxy emits is a fixed point of its own rules. */
module ForwardingTheorems {
  import opened Wrappers
  import opened HttpText
  import opened IpText
  import opened Forwarded
  import opened ForwardedRoundTrip
  import opened TrustBoundary
  import opened Headers
  import opened Forwarding

  /* ------------------------------- the normalised chain ------------------------------- */

  lemma ReduceOne(trust: Trust, e: Entry)
    ensures Reduce(trust, [e]) == [e]
  {
  }

  lemma SuffixIsWf(s: Chain, chain: Chain)
    requires IsSuffix(s, chain) && Wf(chain)
    ensures Wf(s)
  {
  }

  /** The chain ends in the peer with what this proxy saw. A trusted peer that sends a chain gives the longest
      suffix of that chain and the peer behind whose first hop everything is trusted, any other the peer
      alone; reducing it again is void. */
  lemma NormalizedChain(t: Ipv6Text, h: Fields, peer: Ip, tls: bool, host: Option<string>, trust: Trust)
    requires t.Lawful() && IsCanonical(peer)
    ensures var me := Entry(Node(Some(peer), None, RawIp), Some(if tls then "https" else "http"), host, None);
            var c, x := Normalize(t, h, peer, tls, host, trust), Extract(t, h, None);
            && c != [] && Last(c) == me == PeerEntry(peer, tls, host) && Wf(c) && Reduce(trust, c) == c
            && if IsTrusted(trust, peer) && x.Found? && x.chain != [] then IsReduction(trust, x.chain + [me], c)
               else c == [me]
  {
    hide Extract, Reduce, Wf;
    var me := PeerEntry(peer, tls, host);
    ReduceOne(trust, me);
    PeerIsWf(peer, tls, host);
    var x := Extract(t, h, None);
    if IsTrusted(trust, peer) && x.Found? && x.chain != [] {
      ExtractedIsWf(t, h, None);
      AppendWf(x.chain, me);
      var r := Reduce(trust, x.chain + [me]);
      ReduceIsLongest(trust, x.chain + [me]);
      ReduceIsIdempotent(trust, x.chain + [me]);
      SuffixIsWf(r, x.chain + [me]);
      assert Last(r) == Last(x.chain + [me]);
    }
  }

  /** Of two headers that differ by hops put in front of the received chain, the same chain is made if
      and only if some received hop is not trusted. */
  lemma PrefixIsIrrelevant(t: Ipv6Text, h: Fields, h': Fields, left: Chain, chain: Chain,
                           peer: Ip, tls: bool, host: Option<string>, trust: Trust)
    requires IsTrusted(trust, peer) && left != [] && chain != []
    requires Extract(t, h, None) == Found(chain) && Extract(t, h', None) == Found(left + chain)
    ensures Normalize(t, h', peer, tls, host, trust) == Normalize(t, h, peer, tls, host, trust) <==>
              exists i :: 0 <= i < |chain| && !Trusted(trust, chain[i])
  {
    hide Extract, Reduce;
    var me := PeerEntry(peer, tls, host);
    var all := chain + [me];
    assert left + chain + [me] == left + all;
    LeftOfBoundaryIsIrrelevant(trust, left, all);
    assert Trusted(trust, all[|chain|]) && forall i | 0 <= i < |chain| :: all[i] == chain[i];
  }

  /* ---------------------- lines put in front of the received ones ---------------------- */

  lemma NoElements()
    ensures Elements([]) == []
  {
  }

  lemma ElementsStep(parts: seq<string>, head: string, rest: seq<string>)
    requires parts != [] && parts[0] == head && parts[1..] == rest
    ensures Elements(parts) == (if Trim(head) == "" then [] else [Trim(head)]) + Elements(rest)
  {
    hide Trim;
  }

  lemma {:induction false} ElementsConcat(a: seq<string>, b: seq<string>)
    ensures Elements(a + b) == Elements(a) + Elements(b)
  {
    hide Trim;
    if a == [] {
      assert a + b == b;
    } else {
      hide Elements;
      ElementsConcat(a[1..], b);
      assert (a + b)[1..] == a[1..] + b;
      ElementsStep(a, a[0], a[1..]);
      ElementsStep(a + b, a[0], a[1..] + b);
      Assoc(if Trim(a[0]) == "" then [] else [Trim(a[0])], Elements(a[1..]), Elements(b));
    }
  }

  /** Blank elements of a list are passed over, and the white space around the others is cut off. */
  lemma ElementsExactly(a: seq<string>, before: string, s: string, after: string, b: seq<string>)
    requires Blank(before) && Blank(after) && Tight(s)
    ensures Elements(a + [before + s + after] + b) == Elements(a) + (if s == "" then [] else [s]) + Elements(b)
  {
    hide Trim, Tight, Elements;
    var x := before + s + after;
    TrimPadded(before, s, after);
    ElementsConcat(a + [x], b);
    ElementsConcat(a, [x]);
    ElementsStep([x], x, []);
    NoElements();
  }

  lemma ElementsAfterPad(s: string)
    ensures Elements(SplitAll(" " + s, ',')) == Elements(SplitAll(s, ','))
  {
    var parts := SplitAll(s, ',');
    assert (" " + s)[1..] == s;
    var padded := SplitAll(" " + s, ',');
    assert padded == [" " + parts[0]] + parts[1..] && padded[1..] == parts[1..];
    assert (" " + parts[0])[1..] == parts[0] && Trim(" " + parts[0]) == Trim(parts[0]);
  }

  /** The elements of two joined texts are those of the first and those of the second. */
  lemma ElementsOfTwo(a: string, b: string)
    ensures Elements(SplitAll(a + ", " + b, ',')) == Elements(SplitAll(a, ',')) + Elements(SplitAll(b, ','))
  {
    hide SplitAll, Elements;
    assert a + ", " + b == a + [','] + (" " + b);
    SplitAllConcat(a, ',', " " + b);
    ElementsConcat(SplitAll(a, ','), SplitAll(" " + b, ','));
    ElementsAfterPad(b);
  }

  /** Only the last hop carries the scheme and the host, so hops in front of others carry neither. */
  lemma {:induction false} HopsConcat(t: Ipv6Text, a: seq<string>, b: seq<string>, proto: Option<string>,
                                      host: Option<string>)
    requires b != [] && ParseHops(t, a, None, None).Some? && ParseHops(t, b, proto, host).Some?
    ensures ParseHops(t, a + b, proto, host)
         == Some(ParseHops(t, a, None, None).value + ParseHops(t, b, proto, host).value)
  {
    hide ParseNode;
    if a == [] {
      assert a + b == b;
      var chain := ParseHops(t, b, proto, host).value;
      assert [] + chain == chain;
    } else {
      assert (a + b)[1..] == a[1..] + b && (a + b)[0] == a[0];
      HopsConcat(t, a[1..], b, proto, host);
      var front, back := ParseHops(t, a[1..], None, None).value, ParseHops(t, b, proto, host).value;
      var hop := ParseHops(t, a, None, None).value[0];
      assert [hop] + (front + back) == [hop] + front + back;
    }
  }

  lemma ElementsOfLines(front: seq<string>, lines: seq<string>)
    requires front != [] && lines != []
    ensures Elements(SplitAll(Join(front + lines, ", "), ','))
         == Elements(SplitAll(Join(front, ", "), ',')) + Elements(SplitAll(Join(lines, ", "), ','))
  {
    hide SplitAll, Elements, Join;
    JoinConcat(front, lines, ", ");
    ElementsOfTwo(Join(front, ", "), Join(lines, ", "));
  }

  /** The hops that lines of X-Forwarded-For list. */
  function HopsOf(t: Ipv6Text, lines: seq<string>): Option<Chain> {
    ParseHops(t, Elements(SplitAll(Join(lines, ", "), ',')), None, None)
  }

  lemma SomeHops(t: Ipv6Text, tokens: seq<string>, proto: Option<string>)
    requires ParseHops(t, tokens, proto, None).Some? && ParseHops(t, tokens, proto, None).value != []
    ensures tokens != []
  {
  }

  lemma ExtractWithFront(t: Ipv6Text, h: Fields, front: seq<string>)
    requires FORWARDED !in h && front != [] && AllReadable(front) && HopsOf(t, front).Some?
    requires Extract(t, h, None).Found? && Extract(t, h, None).chain != []
    ensures Extract(t, h[X_FORWARDED_FOR := front + Lines(h, X_FORWARDED_FOR)], None)
         == Found(HopsOf(t, front).value + Extract(t, h, None).chain)
  {
    hide ParseHops, Elements, SplitAll, Join, Trim;
    var lines := Lines(h, X_FORWARDED_FOR);
    var p := FirstField(h, X_FORWARDED_PROTO);
    var proto := if p.Text? then Some(Trim(p.text)) else None;
    assert lines != [] && AllReadable(lines) && !p.Unreadable?;
    assert AllReadable(front + lines);
    var a, b := Elements(SplitAll(Join(front, ", "), ',')), Elements(SplitAll(Join(lines, ", "), ','));
    assert ParseHops(t, b, proto, None) == Some(Extract(t, h, None).chain);
    SomeHops(t, b, proto);
    ElementsOfLines(front, lines);
    HopsConcat(t, a, b, proto, None);
  }

  /** X-Forwarded-For lines of any parseable text put in front of the received ones change nothing if and
      only if some received hop is not trusted. */
  lemma FrontLinesAreIrrelevant(t: Ipv6Text, h: Fields, front: seq<string>, peer: Ip, tls: bool, host: Option<string>,
                                trust: Trust)
    requires IsTrusted(trust, peer) && FORWARDED !in h
    requires front != [] && AllReadable(front) && HopsOf(t, front).Some? && HopsOf(t, front).value != []
    requires Extract(t, h, None).Found? && Extract(t, h, None).chain != []
    ensures var h', chain := h[X_FORWARDED_FOR := front + Lines(h, X_FORWARDED_FOR)], Extract(t, h, None).chain;
            Normalize(t, h', peer, tls, host, trust) == Normalize(t, h, peer, tls, host, trust) <==>
              exists i :: 0 <= i < |chain| && !Trusted(trust, chain[i])
  {
    hide Extract, HopsOf, Normalize;
    ExtractWithFront(t, h, front);
    PrefixIsIrrelevant(t, h, h[X_FORWARDED_FOR := front + Lines(h, X_FORWARDED_FOR)],
      HopsOf(t, front).value, Extract(t, h, None).chain, peer, tls, host, trust);
  }

  /* ------------------------------------ well-formedness ------------------------------------ */

  lemma PeerIsWf(peer: Ip, tls: bool, host: Option<string>)
    requires IsCanonical(peer)
    ensures Wf([PeerEntry(peer, tls, host)])
  {
  }

  lemma PeerHasIp(peer: Ip, tls: bool, host: Option<string>)
    ensures AllIps([PeerEntry(peer, tls, host)])
  {
  }

  lemma AppendWf(chain: Chain, e: Entry)
    requires Wf(chain) && Wf([e])
    ensures Wf(chain + [e])
  {
  }

  lemma ViewIsNormal(t: Ipv6Text, h: Fields, peer: Ip, tls: bool, host: Option<string>, trust: Trust)
    requires t.Lawful() && IsCanonical(peer)
    ensures var v := View(t, h, peer, tls, host, trust);
            v != [] && Last(v) == PeerEntry(peer, tls, host) && Wf(v) && AllIps(v) && Reduce(trust, v) == v
  {
    hide Normalize, Reduce, Wf, Extract, IsReduction, IsCanonical, IsTrusted, AllIps;
    NormalizedChain(t, h, peer, tls, host, trust);
    PeerHasIp(peer, tls, host);
    PeerIsWf(peer, tls, host);
    ReduceOne(trust, PeerEntry(peer, tls, host));
  }

  /* ------------------------------ reading back our own list ------------------------------ */

  lemma BareIpRoundTrip(t: Ipv6Text, ip: Ip)
    requires t.Lawful() && IsCanonical(ip)
    ensures ParseNode(t, t.Show(ip)) == Some(Node(Some(ip), None, RawIp))
    ensures t.Show(ip) != "" && Tight(t.Show(ip)) && ',' !in t.Show(ip)
  {
    var s := t.Show(ip);
    t.ShowChars(ip);
    t.RoundTrip(ip);
    assert IsV6Char(s[0]) && IsV6Char(s[|s| - 1]);
    TrimTight(s);
    if ip.Ip4? {
      V4NodeRoundTrip(t, ip.v4, None);
      assert Dotted(ip.v4) + PortSuffix(None) == s;
    } else {
      NotUnknownText(s);
    }
  }

  lemma NotUnknownText(s: string)
    requires s != "" && forall c | c in s :: IsV6Char(c)
    ensures !EqIgnoreCase(s, "unknown")
  {
    assert IsV6Char(s[0]);
    NotUnknown(s);
  }

  lemma TrimAfterPad(lead: string, s: string)
    requires s != "" && Tight(s) && (lead == "" || lead == " ")
    ensures Trim(lead + s) == s
  {
    TrimTight(s);
    if lead == " " {
      assert (lead + s)[1..] == s && TrimStart(lead + s) == TrimStart(s);
    } else {
      assert lead + s == s;
    }
  }

  /** The elements of a joined list are its parts. */
  lemma {:induction false} ElementsOfJoin(lead: string, parts: seq<string>)
    requires parts != [] && (lead == "" || lead == " ")
    requires forall i | 0 <= i < |parts| :: parts[i] != "" && Tight(parts[i]) && ',' !in parts[i]
    ensures Elements(SplitAll(lead + Join(parts, ", "), ',')) == parts
    decreases |parts|
  {
    hide Trim, SplitAll, Tight, Join, Elements;
    var head, rest := lead + parts[0], " " + Join(parts[1..], ", ");
    TrimAfterPad(lead, parts[0]);
    JoinStep(parts, parts[0], parts[1..], ", ");
    NoElements();
    if |parts| == 1 {
      SplitAllNone(head, ',');
      ElementsStep([head], head, []);
      assert parts == [parts[0]] + [];
    } else {
      ElementsOfJoin(" ", parts[1..]);
      SplitAllAt(head, ',', rest);
      assert lead + Join(parts, ", ") == head + [','] + rest;
      ElementsStep([head] + SplitAll(rest, ','), head, SplitAll(rest, ','));
      assert parts == [parts[0]] + parts[1..];
    }
  }

  /** Reading a list whose first element is the text of `ip`. */
  lemma HopsPush(t: Ipv6Text, ip: Ip, tokens: seq<string>, proto: Option<string>, host: Option<string>)
    requires t.Lawful() && IsCanonical(ip) && tokens != [] && tokens[0] == t.Show(ip)
    requires ParseHops(t, tokens[1..], proto, host).Some?
    ensures ParseHops(t, tokens, proto, host)
         == Some([if |tokens| == 1 then IpEntry(ip, proto, host) else IpEntry(ip, None, None)]
                 + ParseHops(t, tokens[1..], proto, host).value)
  {
    BareIpRoundTrip(t, ip);
  }

  lemma NoTexts(t: Ipv6Text)
    ensures IpTexts(t, []) == []
  {
  }

  lemma TailIsWf(t: Ipv6Text, chain: Chain)
    requires Wf(chain) && AllIps(chain) && chain != []
    ensures chain[0].node.ip.Some? && IsCanonical(chain[0].node.ip.value)
    ensures Wf(chain[1..]) && AllIps(chain[1..])
    ensures var texts := IpTexts(t, chain);
            |texts| == |chain| && texts[0] == t.Show(chain[0].node.ip.value) && texts[1..] == IpTexts(t, chain[1..])
  {
    hide IsCanonical;
    assert WfNode(chain[0].node);
  }

  lemma IpsStep(chain: Chain, e: Entry, tail: Chain)
    requires chain != [] && chain[0] == e && chain[1..] == tail
    ensures Ips(chain) == [e.node.ip] + Ips(tail) && |Ips(tail)| == |tail|
  {
  }

  lemma {:induction false} HopsRoundTrip(t: Ipv6Text, chain: Chain, proto: Option<string>, host: Option<string>)
    requires t.Lawful() && Wf(chain) && AllIps(chain)
    ensures var r := ParseHops(t, IpTexts(t, chain), proto, host);
            && r.Some? && Ips(r.value) == Ips(chain)
            && (r.value != [] ==> Last(r.value).proto == proto && Last(r.value).host == host)
  {
    hide ParseHops, Ips, Wf, AllIps, IpTexts, IsCanonical;
    if chain == [] {
      NoHops(t, proto, host);
      assert IpTexts(t, chain) == [] by { NoTexts(t); }
    } else {
      TailIsWf(t, chain);
      var ip, tail := chain[0].node.ip.value, chain[1..];
      HopsRoundTrip(t, tail, proto, host);
      HopsPush(t, ip, IpTexts(t, chain), proto, host);
      var rest := ParseHops(t, IpTexts(t, tail), proto, host).value;
      var e := if tail == [] then IpEntry(ip, proto, host) else IpEntry(ip, None, None);
      IpsStep(chain, chain[0], tail);
      IpsStep([e] + rest, e, rest);
    }
  }

  lemma NoHops(t: Ipv6Text, proto: Option<string>, host: Option<string>)
    ensures ParseHops(t, [], proto, host) == Some([])
  {
  }

  lemma CsvElements(t: Ipv6Text, chain: Chain)
    requires t.Lawful() && Wf(chain) && AllIps(chain) && chain != []
    ensures Elements(SplitAll(Csv(t, chain), ',')) == IpTexts(t, chain)
    ensures Readable(Csv(t, chain))
  {
    var parts := IpTexts(t, chain);
    forall i | 0 <= i < |parts|
      ensures parts[i] != "" && Tight(parts[i]) && ',' !in parts[i] && Readable(parts[i])
    {
      assert WfNode(chain[i].node);
      BareIpRoundTrip(t, chain[i].node.ip.value);
      t.ShowChars(chain[i].node.ip.value);
    }
    ElementsOfJoin("", parts);
    assert "" + Join(parts, ", ") == Join(parts, ", ");
    JoinReadable(parts, ", ");
  }

  /** Reductions keep as many hops when the addresses are the same. */
  lemma {:induction false} TrustingByIps(trust: Trust, a: Chain, b: Chain)
    requires Ips(a) == Ips(b)
    ensures Trusting(trust, a) == Trusting(trust, b)
    decreases |a|
  {
    assert |a| == |Ips(a)| == |b|;
    if a != [] {
      assert Last(a).node.ip == Ips(a)[|a| - 1] == Ips(b)[|a| - 1] == Last(b).node.ip;
      assert Ips(a[..|a| - 1]) == Ips(a)[..|a| - 1] == Ips(b[..|b| - 1]);
      TrustingByIps(trust, a[..|a| - 1], b[..|b| - 1]);
    }
  }

  lemma ReduceByIps(trust: Trust, a: Chain, b: Chain)
    requires Ips(a) == Ips(b)
    ensures Ips(Reduce(trust, a)) == Ips(Reduce(trust, b))
    ensures Reduce(trust, a) == a ==> Reduce(trust, b) == b
  {
    TrustingByIps(trust, a, b);
    assert |a| == |Ips(a)| == |b|;
    var n := Trusting(trust, a);
    if n > 0 {
      assert Ips(a[n - 1..]) == Ips(a)[n - 1..] == Ips(b[n - 1..]);
      if Reduce(trust, a) == a {
        assert |a[n - 1..]| == |a|;
        assert b[0..] == b;
      }
    }
  }

  /* ------------------------------------ fixed point ------------------------------------ */

  /** `h` carries the headers that rpxy emits for the chain `v`. */
  ghost predicate Emitted(t: Ipv6Text, h: Fields, v: Chain, tls: bool) {
    && AllIps(v)
    && Lines(h, X_FORWARDED_FOR) == [Csv(t, v)] && X_FORWARDED_FOR in h
    && Lines(h, X_FORWARDED_PROTO) == [Scheme(tls)] && X_FORWARDED_PROTO in h
    && (FORWARDED in h ==> Generate(t, v).Some? && Lines(h, FORWARDED) == [Generate(t, v).value])
  }

  lemma SchemeText(tls: bool)
    ensures Readable(Scheme(tls)) && Trim(Scheme(tls)) == Scheme(tls)
  {
  }

  lemma EmittedXff(t: Ipv6Text, h: Fields, v: Chain, tls: bool, host: Option<string>)
    requires t.Lawful() && Wf(v) && v != [] && Emitted(t, h, v, tls)
    ensures var x := ParseXff(t, h, host);
            && x.Some? && x.value != [] && Ips(x.value) == Ips(v)
            && Last(x.value).proto == Some(Scheme(tls)) && Last(x.value).host == host
  {
    hide Wf, Csv;
    CsvElements(t, v);
    HopsRoundTrip(t, v, Some(Scheme(tls)), host);
    SchemeText(tls);
    assert Join([Csv(t, v)], ", ") == Csv(t, v);
    assert |Ips(v)| == |v|;
  }

  /** What rpxy emits for a view passes its own consistency test, and extracting and reducing it
      again gives the same addresses. */
  lemma EmittedIsFixedPoint(t: Ipv6Text, h: Fields, v: Chain, tls: bool, host: Option<string>, trust: Trust)
    requires t.Lawful() && Wf(v) && v != [] && Emitted(t, h, v, tls)
    requires Last(v).proto == Some(Scheme(tls)) && Reduce(trust, v) == v
    requires FORWARDED in h ==> Readable(Generate(t, v).value)
    ensures var x := ParseXff(t, h, host);
            && x.Some? && Consistent(v, x.value)
            && (FORWARDED in h ==> ParseForwardedField(t, h) == Some(v))
            && Extract(t, h, host) == Found(if FORWARDED in h then v else x.value)
            && Ips(Extract(t, h, host).chain) == Ips(v)
            && Reduce(trust, Extract(t, h, host).chain) == Extract(t, h, host).chain
  {
    hide Wf, ParseXff, Reduce, Parse, Generate, Csv;
    EmittedXff(t, h, v, tls, host);
    var x := ParseXff(t, h, host).value;
    SchemeText(tls);
    GenerateParses(t, v);
    if FORWARDED in h {
      assert Join([Generate(t, v).value], ", ") == Generate(t, v).value;
    }
    assert |Ips(v)| == |v| && |Ips(x)| == |x|;
    ReduceByIps(trust, v, x);
  }
}
