/** The upstream options that touch the header, and what a whole route of proxies records. */
module ForwardingRoute {
  import opened Wrappers
  import opened IpText
  import opened Forwarded
  import opened ForwardedRoundTrip
  import opened TrustBoundary
  import opened Headers
  import opened Forwarding
  import opened ReadableText
  import opened ForwardingTheorems
  import opened ForwardingHeaders

  datatype UpstreamOption =
    KeepOriginalHost | SetUpstreamHost | UpgradeInsecureRequests
    | ForceHttp11Upstream | ForceHttp2Upstream | ForwardedHeader

  /** The `Forwarded` value made from the chain the header already carries. */
  function Derived(t: Ipv6Text, h: Fields, host: Option<string>, trust: Trust): Option<string> {
    match Extract(t, h, host)
    case Found(chain) => Generate(t, Reduce(trust, chain))
    case _ => None
  }

  predicate OverridesHost(options: set<UpstreamOption>) {
    SetUpstreamHost in options && KeepOriginalHost !in options
  }

  predicate AddsForwarded(options: set<UpstreamOption>, h: Fields) {
    ForwardedHeader in options && FORWARDED !in h
  }

  ghost predicate WithOptions(t: Ipv6Text, h: Fields, host: Option<string>, upstreamHost: Option<string>,
                              options: set<UpstreamOption>, trust: Trust, h': Fields)
  {
    && (if SetUpstreamHost in options && KeepOriginalHost !in options
        then upstreamHost.Some? && Lines(h', HOST) == [upstreamHost.value]
        else Lines(h', HOST) == Lines(h, HOST))
    && Lines(h', UPGRADE_INSECURE_REQUESTS)
    == (if UpgradeInsecureRequests in options && UPGRADE_INSECURE_REQUESTS !in h then ["1"]
        else Lines(h, UPGRADE_INSECURE_REQUESTS))
    && Lines(h', FORWARDED)
    == (if ForwardedHeader in options && FORWARDED !in h then HostLines(Derived(t, h, host, trust))
        else Lines(h, FORWARDED))
    && forall n | n != HOST && n != UPGRADE_INSECURE_REQUESTS && n != FORWARDED :: Lines(h', n) == Lines(h, n)
  }

  /** A `Forwarded` value made from the received chain reads as that chain up to the trust boundary. */
  lemma DerivedReads(t: Ipv6Text, h: Fields, host: Option<string>, trust: Trust)
    requires t.Lawful() && Extract(t, h, host).Found? && Extract(t, h, host).chain != []
    ensures var chain, r := Extract(t, h, host).chain, Derived(t, h, host, trust);
            && r.Some? && Parse(t, r.value) == Some(Reduce(trust, chain))
            && IsReduction(trust, chain, Reduce(trust, chain))
  {
    hide Extract, Wf, Generate, Parse, Reduce;
    var chain := Extract(t, h, host).chain;
    ExtractedIsWf(t, h, host);
    ReduceIsLongest(trust, chain);
    SuffixIsWf(Reduce(trust, chain), chain);
    LastStays(trust, chain);
    GenerateParses(t, Reduce(trust, chain));
  }

  lemma LastStays(trust: Trust, chain: Chain)
    requires chain != []
    ensures Reduce(trust, chain) != []
  {
  }

  lemma DerivedIsReadable(t: Ipv6Text, h: Fields, host: Option<string>, trust: Trust)
    requires t.Lawful() && ReadableOpt(host)
    ensures var r := Derived(t, h, host, trust); r.Some? ==> Readable(r.value) && ValidValue(r.value)
  {
    hide Extract, Wf, ReadableChain, Generate;
    var x := Extract(t, h, host);
    if x.Found? {
      ExtractedIsWf(t, h, host);
      ExtractedIsReadable(t, h, host);
      ReduceIsLongest(trust, x.chain);
      SuffixIsWf(Reduce(trust, x.chain), x.chain);
      SuffixIsReadable(Reduce(trust, x.chain), x.chain);
      if Generate(t, Reduce(trust, x.chain)).Some? {
        GeneratedIsReadable(t, Reduce(trust, x.chain)) by { NotEmpty(t, Reduce(trust, x.chain)); }
      }
    }
  }

  lemma NotEmpty(t: Ipv6Text, chain: Chain)
    requires Generate(t, chain).Some?
    ensures chain != []
  {
  }

  lemma SuffixIsReadable(s: Chain, chain: Chain)
    requires IsSuffix(s, chain) && ReadableChain(chain)
    ensures ReadableChain(s)
  {
  }

  /** Extraction looks at three fields only. */
  lemma ExtractDependsOn(t: Ipv6Text, h: Fields, h': Fields, host: Option<string>, trust: Trust)
    requires forall n | n == X_FORWARDED_FOR || n == X_FORWARDED_PROTO || n == FORWARDED ::
               (n in h <==> n in h') && Lines(h, n) == Lines(h', n)
    ensures Extract(t, h, host) == Extract(t, h', host)
    ensures Derived(t, h, host, trust) == Derived(t, h', host, trust)
  {
    hide Parse, ParseHops, Consistent;
    assert ParseXff(t, h, host) == ParseXff(t, h', host);
    assert ParseForwardedField(t, h) == ParseForwardedField(t, h');
  }

  /** The two options that write a fixed value. */
  function Preset(h: Fields, upstreamHost: Option<string>, options: set<UpstreamOption>): Fields {
    var h' := if OverridesHost(options) && upstreamHost.Some? then h[HOST := [upstreamHost.value]] else h;
    if UpgradeInsecureRequests in options && UPGRADE_INSECURE_REQUESTS !in h
    then h'[UPGRADE_INSECURE_REQUESTS := ["1"]]
    else h'
  }

  lemma PresetHolds(t: Ipv6Text, h: Fields, host: Option<string>, upstreamHost: Option<string>,
                    options: set<UpstreamOption>, trust: Trust)
    requires OverridesHost(options) ==> upstreamHost.Some?
    ensures var h', f := Preset(h, upstreamHost, options), HostLines(Derived(t, h, host, trust));
            && Extract(t, h', host) == Extract(t, h, host) && (FORWARDED in h' <==> FORWARDED in h)
            && Derived(t, h', host, trust) == Derived(t, h, host, trust)
            && WithOptions(t, h, host, upstreamHost, options, trust,
                           if AddsForwarded(options, h) then WithLines(h', FORWARDED, f) else h')
  {
    hide Extract, Derived;
    ExtractDependsOn(t, h, Preset(h, upstreamHost, options), host, trust);
  }

  method PresetOptions(headers: HeaderMap, upstreamHost: Option<string>, options: set<UpstreamOption>)
    returns (ok: bool)
    requires headers.Valid() && (upstreamHost.Some? ==> ValidValue(upstreamHost.value))
    modifies headers
    ensures headers.Valid() && (ok <==> (OverridesHost(options) ==> upstreamHost.Some?))
    ensures headers.fields == if ok then Preset(old(headers.fields), upstreamHost, options) else old(headers.fields)
  {
    hide ValidValue;
    if OverridesHost(options) {
      if upstreamHost.None? {
        return false;
      }
      ok := headers.Insert(HOST, upstreamHost.value);
    }
    if UpgradeInsecureRequests in options && UPGRADE_INSECURE_REQUESTS !in headers.fields {
      headers.fields := headers.fields[UPGRADE_INSECURE_REQUESTS := ["1"]];
    }
    return true;
  }

  /** `apply_upstream_options_to_header`. */
  method ApplyUpstreamOptions(t: Ipv6Text, headers: HeaderMap, host: Option<string>, upstreamHost: Option<string>,
                              options: set<UpstreamOption>, trust: Trust)
    returns (ok: bool)
    requires t.Lawful() && headers.Valid() && ReadableOpt(host)
    requires upstreamHost.Some? ==> ValidValue(upstreamHost.value)
    modifies headers
    ensures headers.Valid()
    ensures ok <==> (OverridesHost(options) ==> upstreamHost.Some?)
                    && (AddsForwarded(options, old(headers.fields)) ==>
                        !Extract(t, old(headers.fields), host).Unparsable?)
    ensures ok ==> WithOptions(t, old(headers.fields), host, upstreamHost, options, trust, headers.fields)
    ensures !ok ==> headers.fields == if OverridesHost(options) && upstreamHost.None? then old(headers.fields)
                                      else Preset(old(headers.fields), upstreamHost, options)
  {
    hide Extract, Derived, Preset, WithOptions, WithLines, HostLines, Readable, ValidValue;
    ok := PresetOptions(headers, upstreamHost, options);
    if !ok {
      return;
    }
    PresetHolds(t, old(headers.fields), host, upstreamHost, options, trust);
    if AddsForwarded(options, headers.fields) {
      ok := AddForwarded(t, headers, host, trust);
    }
  }

  method AddForwarded(t: Ipv6Text, headers: HeaderMap, host: Option<string>, trust: Trust) returns (ok: bool)
    requires t.Lawful() && headers.Valid() && ReadableOpt(host) && FORWARDED !in headers.fields
    modifies headers
    ensures headers.Valid() && (ok <==> !Extract(t, old(headers.fields), host).Unparsable?)
    ensures !ok ==> headers.fields == old(headers.fields)
    ensures headers.fields
         == WithLines(old(headers.fields), FORWARDED, HostLines(Derived(t, old(headers.fields), host, trust)))
  {
    hide Extract, Generate, Reduce, ValidValue, Readable;
    match Extract(t, headers.fields, host) {
      case Unparsable => ok := false;
      case Absent => ok := true;
      case Found(chain) =>
        DerivedIsReadable(t, headers.fields, host, trust);
        var reduced := ReduceTrustedProxyChain(trust, chain);
        var value := GenerateForwardedHeader(t, reduced);
        ok := true;
        if value.Some? {
          ok := headers.Insert(FORWARDED, value.value);
        }
    }
  }

  /** After the forwarding headers are written, a `Forwarded` asked for by the options can always be
      made, reads back as the very addresses that X-Forwarded-For lists, and is consistent with it for
      whoever receives both. */
  lemma DerivedForwardedAgrees(t: Ipv6Text, h: Fields, hop: Hop, trust: Trust, h': Fields, host: Option<string>)
    requires t.Lawful() && hop.Valid() && Rewritten(t, h, hop, trust, h') && FORWARDED !in h
    ensures var x, r := Extract(t, h', hop.host), Derived(t, h', hop.host, trust);
            && x.Found? && r.Some? && Readable(r.value) && Parse(t, r.value) == Some(x.chain)
            && Ips(x.chain) == Ips(hop.View(t, h, trust))
            && ParseXff(t, h', host).Some? && Consistent(x.chain, ParseXff(t, h', host).value)
  {
    hide Extract, Generate, Reduce, Parse, Describes, Wf, ReadableChain, Normalize, Csv, ParseXff;
    var v := hop.View(t, h, trust);
    ViewIsReadable(t, h, hop, trust);
    EmittedIsFixedPoint(t, h', v, hop.tls, hop.host, trust);
    var chain := Extract(t, h', hop.host).chain;
    ExtractedIsWf(t, h', hop.host);
    assert |chain| == |Ips(chain)| == |Ips(v)| == |v|;
    GenerateParses(t, chain);
    DerivedIsReadable(t, h', hop.host, trust);
    EmittedXff(t, h', v, hop.tls, hop.host);
    EmittedXff(t, h', v, hop.tls, host);
    SchemeText(hop.tls);
  }

  /* ------------------------------------- the route ------------------------------------- */

  /** With X-Forwarded-For present, its addresses decide: a Forwarded field is used only if it agrees. */
  lemma AddressesComeFromXff(t: Ipv6Text, h: Fields, host: Option<string>)
    requires X_FORWARDED_FOR in h && ParseXff(t, h, host).Some?
    ensures var x := Extract(t, h, host); x.Found? && Ips(x.chain) == Ips(ParseXff(t, h, host).value)
  {
  }

  /** The next proxy receives the chain this one sent, whatever else happens to the header. */
  ghost predicate Sends(t: Ipv6Text, h: Fields, hop: Hop, trust: Trust, h': Fields) {
    var v := hop.View(t, h, trust);
    && AllIps(v) && X_FORWARDED_FOR in h' && X_FORWARDED_PROTO in h'
    && Lines(h', X_FORWARDED_FOR) == [Csv(t, v)] && Lines(h', X_FORWARDED_PROTO) == [Scheme(hop.tls)]
  }

  lemma RewrittenSends(t: Ipv6Text, h: Fields, hop: Hop, trust: Trust, h': Fields, host: Option<string>,
                       upstreamHost: Option<string>, options: set<UpstreamOption>, h'': Fields)
    requires Rewritten(t, h, hop, trust, h') && WithOptions(t, h', host, upstreamHost, options, trust, h'')
    ensures Sends(t, h, hop, trust, h'')
  {
    hide Describes, Derived, Normalize, Csv;
    assert Lines(h'', X_FORWARDED_FOR) == Lines(h', X_FORWARDED_FOR);
    assert Lines(h'', X_FORWARDED_PROTO) == Lines(h', X_FORWARDED_PROTO);
  }

  /** One hop on: a trusting proxy keeps what it was sent up to its own trust boundary and adds its
      peer; any other proxy starts afresh. */
  lemma NextHop(t: Ipv6Text, h: Fields, hop: Hop, trust: Trust, h': Fields, hop': Hop, trust': Trust)
    requires t.Lawful() && hop.Valid() && hop'.Valid() && Sends(t, h, hop, trust, h')
    ensures Ips(hop'.View(t, h', trust'))
         == if IsTrusted(trust', hop'.peer) then Ips(Reduce(trust', hop.View(t, h, trust) + [hop'.Me()]))
            else [Some(hop'.peer)]
  {
    hide Extract, ParseXff, Reduce, Wf, ReadableChain, Csv, Generate;
    var v, me := hop.View(t, h, trust), hop'.Me();
    ViewIsReadable(t, h, hop, trust) by { hide Normalize; }
    SentXff(t, h', v, hop.tls);
    AddressesComeFromXff(t, h', None);
    var x := Extract(t, h', None).chain;
    assert |x| == |Ips(x)| == |Ips(v)| == |v|;
    assert Ips(x + [me]) == Ips(x) + [me.node.ip] == Ips(v + [me]);
    ReduceByIps(trust', x + [me], v + [me]);
    if IsTrusted(trust', hop'.peer) {
      var r := Reduce(trust', x + [me]);
      assert hop'.View(t, h', trust') == r by {
        ReducedIps(trust', x + [me], v + [me]);
      }
    }
  }

  lemma SentXff(t: Ipv6Text, h: Fields, v: Chain, tls: bool)
    requires t.Lawful() && Wf(v) && v != [] && AllIps(v) && X_FORWARDED_FOR in h && X_FORWARDED_PROTO in h
    requires Lines(h, X_FORWARDED_FOR) == [Csv(t, v)] && Lines(h, X_FORWARDED_PROTO) == [Scheme(tls)]
    ensures ParseXff(t, h, None).Some? && Ips(ParseXff(t, h, None).value) == Ips(v)
  {
    hide ParseXff, Wf, Csv, Generate;
    EmittedXff(t, h - {FORWARDED}, v, tls, None);
    XffDependsOn(t, h, h - {FORWARDED}, None);
  }

  lemma XffDependsOn(t: Ipv6Text, h: Fields, h': Fields, host: Option<string>)
    requires Lines(h, X_FORWARDED_FOR) == Lines(h', X_FORWARDED_FOR)
    requires Lines(h, X_FORWARDED_PROTO) == Lines(h', X_FORWARDED_PROTO)
    ensures ParseXff(t, h, host) == ParseXff(t, h', host)
  {
  }

  lemma SameAddresses(a: Chain, b: Chain)
    requires Ips(a) == Ips(b) && AllIps(b)
    ensures AllIps(a)
  {
    assert |a| == |Ips(a)| == |Ips(b)| == |b|;
    forall j | 0 <= j < |a|
      ensures a[j].node.ip.Some?
    {
      assert a[j].node.ip == Ips(a)[j] == Ips(b)[j] == b[j].node.ip;
    }
  }

  lemma SuffixAllIps(s: Chain, chain: Chain)
    requires IsSuffix(s, chain) && AllIps(chain)
    ensures AllIps(s)
  {
  }

  lemma ReducedIps(trust: Trust, a: Chain, b: Chain)
    requires Ips(a) == Ips(b) && AllIps(b)
    ensures AllIps(Reduce(trust, a))
  {
    hide Reduce, Ips, AllIps;
    SameAddresses(a, b);
    ReduceIsLongest(trust, a);
    SuffixAllIps(Reduce(trust, a), a);
  }

  /** `hs[i]` is the header the proxy `hops[i]` receives. */
  ghost predicate Route(t: Ipv6Text, hs: seq<Fields>, hops: seq<Hop>, trust: Trust) {
    && |hs| == |hops| && (forall i | 0 <= i < |hops| :: hops[i].Valid())
    && forall i | 0 <= i < |hops| - 1 :: Sends(t, hs[i], hops[i], trust, hs[i + 1])
  }

  function Peers(hops: seq<Hop>): seq<Option<Ip>> {
    seq(|hops|, i requires 0 <= i < |hops| => Some(hops[i].peer))
  }

  /** Along proxies that trust one another, the last one lists exactly the peers each of them saw, no
      matter what the untrusted client put into its header. */
  lemma {:induction false} RouteIsRecorded(t: Ipv6Text, hs: seq<Fields>, hops: seq<Hop>, trust: Trust)
    requires t.Lawful() && hops != [] && Route(t, hs, hops, trust)
    requires !IsTrusted(trust, hops[0].peer) && forall i | 1 <= i < |hops| :: IsTrusted(trust, hops[i].peer)
    ensures Ips(Last(hops).View(t, Last(hs), trust)) == Peers(hops)
  {
    hide Normalize, Csv;
    var n := |hops| - 1;
    if n == 0 {
      UntrustedPeerAlone(t, hs[0], hops[0], trust);
      assert Ips([hops[0].Me()]) == [Some(hops[0].peer)] == Peers(hops);
    } else {
      var hs', hops' := hs[..n], hops[..n];
      assert Sends(t, hs[n - 1], hops[n - 1], trust, hs[n]);
      RouteIsRecorded(t, hs', hops', trust);
      NextHop(t, hs[n - 1], hops[n - 1], trust, hs[n], hops[n], trust);
      var v := hops[n - 1].View(t, hs[n - 1], trust);
      KeptWhole(trust, v + [hops[n].Me()], hops);
    }
  }

  lemma UntrustedPeerAlone(t: Ipv6Text, h: Fields, hop: Hop, trust: Trust)
    requires !IsTrusted(trust, hop.peer)
    ensures hop.View(t, h, trust) == [hop.Me()]
  {
  }

  lemma KeptWhole(trust: Trust, chain: Chain, hops: seq<Hop>)
    requires hops != [] && |chain| == |hops| && Ips(chain[..|chain| - 1]) == Peers(hops[..|hops| - 1])
    requires Last(chain) == Last(hops).Me() && forall i | 1 <= i < |hops| :: IsTrusted(trust, hops[i].peer)
    ensures Reduce(trust, chain) == chain && Ips(chain) == Peers(hops)
  {
    forall i | 0 <= i < |chain|
      ensures chain[i].node.ip == Some(hops[i].peer)
    {
      if i < |chain| - 1 {
        assert Ips(chain[..|chain| - 1])[i] == Peers(hops[..|hops| - 1])[i];
      }
    }
    assert IsSuffix(chain, chain) && TrustedBehind(trust, chain) && IsReduction(trust, chain, chain);
    ReductionIsUnique(trust, chain, chain);
  }
}
