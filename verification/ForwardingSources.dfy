/** Which of the two forwarding fields rpxy believes, for every combination of fields that are missing, cannot be
    read, agree or disagree. */
module ForwardingSources {
  import opened Wrappers
  import opened HttpText
  import opened IpText
  import opened Forwarded
  import opened ForwardedRoundTrip
  import opened ForwardedParams
  import opened TrustBoundary
  import opened Headers
  import opened Forwarding
  import opened ForwardingTheorems
  import opened ForwardingHeaders

  /* ---------------------------------- do they agree? ---------------------------------- */

  /** The same text, letter case aside. */
  predicate SameText(a: string, b: string) {
    && |a| == |b|
    && forall i | 0 <= i < |a| :: a[i] == b[i] || IsUpperOf(a[i], b[i]) || IsUpperOf(b[i], a[i])
  }

  lemma SameTextExactly(a: string, b: string)
    ensures EqIgnoreCase(a, b) <==> SameText(a, b)
  {
    if |a| == |b| {
      forall i | 0 <= i < |a|
        ensures Lowercase(a)[i] == Lowercase(b)[i] <==>
                  a[i] == b[i] || IsUpperOf(a[i], b[i]) || IsUpperOf(b[i], a[i])
      {
      }
    } else {
      assert |Lowercase(a)| != |Lowercase(b)|;
    }
  }

  /** Hop by hop the same addresses and, where both fields say it, the same scheme of the last hop. */
  predicate Agree(f: Chain, x: Chain) {
    && |f| == |x| && (forall i | 0 <= i < |f| :: f[i].node.ip == x[i].node.ip)
    && (f != [] && x != [] ==>
          match (Last(f).proto, Last(x).proto)
          case (Some(a), Some(b)) => SameText(a, Trim(b))
          case _ => true)
  }

  lemma SameAddresses(f: Chain, x: Chain)
    ensures Ips(f) == Ips(x) <==> |f| == |x| && forall i | 0 <= i < |f| :: f[i].node.ip == x[i].node.ip
  {
    if Ips(f) == Ips(x) {
      assert |f| == |Ips(f)| == |x|;
      assert forall i | 0 <= i < |f| :: f[i].node.ip == Ips(f)[i] == Ips(x)[i] == x[i].node.ip;
    }
  }

  lemma AgreeExactly(f: Chain, x: Chain)
    ensures Consistent(f, x) <==> Agree(f, x)
  {
    hide Ips, EqIgnoreCase, SameText, Trim;
    SameAddresses(f, x);
    if f != [] && x != [] && Last(f).proto.Some? && Last(x).proto.Some? {
      SameTextExactly(Last(f).proto.value, Trim(Last(x).proto.value));
    }
  }

  /** One address, but `http` against `https`. */
  lemma SchemesDisagree(ip: Ip)
    ensures !Consistent([IpEntry(ip, Some("http"), None)], [IpEntry(ip, Some("https"), None)])
  {
    var f, x := [IpEntry(ip, Some("http"), None)], [IpEntry(ip, Some("https"), None)];
    AgreeExactly(f, x);
    TrimTight("https");
  }

  /* ------------------------------------ Forwarded ------------------------------------ */

  /** The lines of `Forwarded` together are what rpxy writes for `v`, on however many lines. */
  ghost predicate Says(t: Ipv6Text, h: Fields, v: Chain) {
    && FORWARDED in h && h[FORWARDED] != [] && AllReadable(h[FORWARDED])
    && Generate(t, v) == Some(Join(h[FORWARDED], ", "))
  }

  lemma SaidIsRead(t: Ipv6Text, h: Fields, v: Chain)
    requires t.Lawful() && Wf(v) && v != [] && Says(t, h, v)
    ensures ParseForwardedField(t, h) == Some(v)
  {
    hide Generate, Parse, Wf;
    GenerateParses(t, v);
  }

  /** Alone, `Forwarded` is believed. */
  lemma ForwardedAlone(t: Ipv6Text, h: Fields, v: Chain, host: Option<string>)
    requires t.Lawful() && Wf(v) && v != [] && X_FORWARDED_FOR !in h && Says(t, h, v)
    ensures Extract(t, h, host) == Found(v)
  {
    hide ParseForwardedField, Wf, Says;
    SaidIsRead(t, h, v);
    assert FORWARDED in h by { SaidIsThere(t, h, v); }
  }

  lemma SaidIsThere(t: Ipv6Text, h: Fields, v: Chain)
    requires Says(t, h, v)
    ensures FORWARDED in h
  {
  }

  /** A trusted peer that sends `Forwarded` alone gives its hops, up to the trust boundary, and itself. */
  lemma ForwardedAloneIsNormalized(t: Ipv6Text, h: Fields, v: Chain, hop: Hop, trust: Trust)
    requires t.Lawful() && hop.Valid() && Wf(v) && v != [] && X_FORWARDED_FOR !in h && Says(t, h, v)
    requires IsTrusted(trust, hop.peer)
    ensures Normalize(t, h, hop.peer, hop.tls, hop.host, trust) == Reduce(trust, v + [hop.Me()])
  {
    hide Extract, Reduce, Says, Wf;
    ForwardedAlone(t, h, v, None);
  }

  /** The header sent on then lists these hops if all have addresses, and the peer alone if not. */
  lemma ForwardedAloneIsRecorded(t: Ipv6Text, h: Fields, v: Chain, hop: Hop, trust: Trust, h': Fields)
    requires t.Lawful() && hop.Valid() && Wf(v) && v != [] && X_FORWARDED_FOR !in h && Says(t, h, v)
    requires IsTrusted(trust, hop.peer) && Rewritten(t, h, hop, trust, h')
    ensures var r := Reduce(trust, v + [hop.Me()]);
            FORWARDED in h' && Emitted(t, h', if AllIps(r) then r else [hop.Me()], hop.tls)
  {
    hide Normalize, Reduce, Says, Wf, Emitted, Describes;
    ForwardedAloneIsNormalized(t, h, v, hop, trust);
    assert FORWARDED in h by { SaidIsThere(t, h, v); }
  }

  /** Alone, a `Forwarded` that is not text or does not parse is refused, and the peer alone is left. */
  lemma BadForwardedAlone(t: Ipv6Text, h: Fields, hop: Hop, trust: Trust, host: Option<string>)
    requires X_FORWARDED_FOR !in h && FORWARDED in h
    requires !AllReadable(h[FORWARDED]) || Parse(t, Join(h[FORWARDED], ", ")) == None
    ensures Extract(t, h, host) == Unparsable
    ensures Normalize(t, h, hop.peer, hop.tls, hop.host, trust) == [hop.Me()]
  {
    hide Parse;
  }

  /* ------------------------------------ both fields ------------------------------------ */

  /** The scheme that goes with X-Forwarded-For is the first line of X-Forwarded-Proto, trimmed; if that line is
      not text, X-Forwarded-For counts for nothing either. */
  lemma SchemeIsTheFirstLine(t: Ipv6Text, h: Fields, v: Chain, host: Option<string>)
    requires t.Lawful() && Wf(v) && v != [] && AllIps(v)
    requires X_FORWARDED_FOR in h && h[X_FORWARDED_FOR] == [Csv(t, v)]
    requires X_FORWARDED_PROTO in h ==> h[X_FORWARDED_PROTO] != []
    ensures var x := ParseXff(t, h, host);
            if X_FORWARDED_PROTO in h && !Readable(h[X_FORWARDED_PROTO][0]) then x == None
            else && x.Some? && x.value != [] && Ips(x.value) == Ips(v) && Last(x.value).host == host
                 && Last(x.value).proto
                    == if X_FORWARDED_PROTO in h then Some(Trim(h[X_FORWARDED_PROTO][0])) else None
  {
    hide Wf, Csv, ParseHops, Elements, Trim;
    var proto := if X_FORWARDED_PROTO in h then Some(Trim(h[X_FORWARDED_PROTO][0])) else None;
    CsvElements(t, v);
    HopsRoundTrip(t, v, proto, host);
    assert Join([Csv(t, v)], ", ") == Csv(t, v);
    assert |Ips(v)| == |v|;
  }

  /** X-Forwarded-For that does not parse spoils everything, whatever `Forwarded` says. */
  lemma BadXffSpoils(t: Ipv6Text, h: Fields, host: Option<string>)
    requires X_FORWARDED_FOR in h && ParseXff(t, h, host) == None
    ensures Extract(t, h, host) == Unparsable
  {
  }

  /** Next to X-Forwarded-For, `Forwarded` is believed if and only if they agree. */
  lemma BelievedIfAgreed(t: Ipv6Text, h: Fields, v: Chain, x: Chain, host: Option<string>)
    requires t.Lawful() && Wf(v) && v != [] && Says(t, h, v)
    requires X_FORWARDED_FOR in h && ParseXff(t, h, host) == Some(x)
    ensures Extract(t, h, host) == Found(if Agree(v, x) then v else x)
  {
    hide ParseForwardedField, ParseXff, Wf, Says, Consistent, Agree;
    SaidIsRead(t, h, v);
    assert FORWARDED in h by { SaidIsThere(t, h, v); }
    AgreeExactly(v, x);
  }

  /** X-Forwarded-For stands alone if there is no `Forwarded`, or none that parses. */
  lemma XffAlone(t: Ipv6Text, h: Fields, x: Chain, host: Option<string>)
    requires X_FORWARDED_FOR in h && ParseXff(t, h, host) == Some(x)
    requires FORWARDED in h ==> !AllReadable(h[FORWARDED]) || Parse(t, Join(h[FORWARDED], ", ")) == None
    ensures Extract(t, h, host) == Found(x)
  {
    hide ParseXff, Parse;
  }

  /** Without either field there is nothing. */
  lemma NothingSent(t: Ipv6Text, h: Fields, host: Option<string>)
    requires X_FORWARDED_FOR !in h && FORWARDED !in h
    ensures Extract(t, h, host) == Absent
  {
  }
}
