/** Text taken out of readable header values stays readable, and so does what is written from it: a
    generated `Forwarded` value is always a legal header value that the next hop can read. */
module ReadableText {
  import opened Wrappers
  import opened HttpText
  import opened QuotedText
  import opened IpText
  import opened Forwarded
  import opened ForwardedRoundTrip
  import opened Headers
  import opened Forwarding

  predicate ReadableOpt(s: Option<string>) {
    s.Some? ==> Readable(s.value)
  }

  predicate ReadableEntry(e: Entry) {
    ReadableOpt(e.proto) && ReadableOpt(e.host) && ReadableOpt(e.via)
  }

  predicate ReadableChain(chain: Chain) {
    forall i | 0 <= i < |chain| :: ReadableEntry(chain[i])
  }

  /* ------------------------------------ reading ------------------------------------ */

  lemma {:induction false} TrimEndReadable(s: string)
    requires Readable(s)
    ensures Readable(TrimEnd(s))
  {
    if s != "" && IsSpace(s[|s| - 1]) {
      TrimEndReadable(s[..|s| - 1]);
    }
  }

  lemma {:induction false} TrimReadable(s: string)
    requires Readable(s)
    ensures Readable(Trim(s))
  {
    if s != "" && IsSpace(s[0]) {
      TrimReadable(s[1..]);
    } else {
      TrimEndReadable(s);
    }
  }

  lemma {:induction false} SplitReadable(s: string, d: char, q: Scan, cur: string)
    requires Readable(s) && Readable(cur)
    ensures AllReadable(SplitFrom(s, d, q, cur))
    decreases |s|
  {
    TrimReadable(cur);
    if s != "" {
      assert s[0] in s;
      if q == Out && s[0] == d {
        SplitReadable(s[1..], d, Out, "");
      } else {
        SplitReadable(s[1..], d, Next(q, s[0]), cur + [s[0]]);
      }
    }
  }

  lemma {:induction false} SplitOnceReadable(s: string, c: char)
    requires Readable(s)
    ensures SplitOnce(s, c).Some? ==> Readable(SplitOnce(s, c).value.1)
  {
    if s != "" {
      SplitOnceReadable(s[1..], c);
    }
  }

  lemma {:induction false} UnescapeReadable(s: string)
    requires Readable(s)
    ensures ReadableOpt(Unescape(s))
  {
    if s != "" {
      assert s[0] in s;
      if s[0] != '\\' {
        UnescapeReadable(s[1..]);
      } else if |s| > 1 {
        assert s[1] in s;
        UnescapeReadable(s[2..]);
      }
    }
  }

  lemma UnquoteReadable(s: string)
    requires Readable(s)
    ensures ReadableOpt(Unquote(s))
  {
    TrimReadable(s);
    var u := Trim(s);
    if |u| >= 2 {
      UnescapeReadable(u[1..|u| - 1]);
    }
  }

  predicate ReadableParams(p: Params) {
    ReadableOpt(p.proto) && ReadableOpt(p.host) && ReadableOpt(p.via)
  }

  lemma ParamReadable(t: Ipv6Text, p: Params, param: string)
    requires ReadableParams(p) && Readable(param)
    ensures var r := ParseParam(t, p, param); r.Some? ==> ReadableParams(r.value)
  {
    hide ParseNode, Unquote, Trim, SplitOnce, Lowercase;
    SplitOnceReadable(param, '=');
    var cut := SplitOnce(param, '=');
    if cut.Some? {
      TrimReadable(cut.value.1);
      UnquoteReadable(Trim(cut.value.1));
    }
  }

  lemma {:induction false} ParamsReadable(t: Ipv6Text, p: Params, params: seq<string>)
    requires ReadableParams(p) && AllReadable(params)
    ensures var r := ParseParams(t, p, params); r.Some? ==> ReadableParams(r.value)
    decreases |params|
  {
    hide ParseParam;
    if params != [] {
      ParamReadable(t, p, params[0]);
      if params[0] == "" {
        ParamsReadable(t, p, params[1..]);
      } else if ParseParam(t, p, params[0]).Some? {
        ParamsReadable(t, ParseParam(t, p, params[0]).value, params[1..]);
      }
    }
  }

  lemma {:induction false} EntriesReadable(t: Ipv6Text, texts: seq<string>)
    requires AllReadable(texts)
    ensures var r := ParseEntries(t, texts); r.Some? ==> ReadableChain(r.value)
  {
    hide ParseParams, SplitFrom;
    if texts != [] {
      EntriesReadable(t, texts[1..]);
      SplitReadable(texts[0], ';', Out, "");
      ParamsReadable(t, NoParams, SplitQuoted(texts[0], ';'));
    }
  }

  lemma {:induction false} HopsReadable(t: Ipv6Text, tokens: seq<string>, proto: Option<string>, host: Option<string>)
    requires ReadableOpt(proto) && ReadableOpt(host)
    ensures var r := ParseHops(t, tokens, proto, host); r.Some? ==> ReadableChain(r.value)
  {
    hide ParseNode;
    if tokens != [] {
      HopsReadable(t, tokens[1..], proto, host);
    }
  }

  lemma ExtractedIsReadable(t: Ipv6Text, h: Fields, host: Option<string>)
    requires ReadableOpt(host)
    ensures Extract(t, h, host).Found? ==> ReadableChain(Extract(t, h, host).chain)
  {
    hide ReadableChain, ParseHops, ParseEntries, Consistent, Trim, Elements, SplitAll;
    var x, f := JoinedField(Lines(h, X_FORWARDED_FOR)), JoinedField(Lines(h, FORWARDED));
    var p := FirstField(h, X_FORWARDED_PROTO);
    if p.Text? {
      TrimReadable(p.text);
    }
    if x.Text? {
      HopsReadable(t, Elements(SplitAll(x.text, ',')), if p.Text? then Some(Trim(p.text)) else None, host);
    }
    if f.Text? {
      JoinReadable(Lines(h, FORWARDED), ", ");
      SplitReadable(f.text, ',', Out, "");
      EntriesReadable(t, SplitQuoted(f.text, ','));
    }
  }

  /* ------------------------------------ writing ------------------------------------ */

  lemma {:induction false} EscapeReadable(v: string)
    requires Readable(v)
    ensures Readable(Escape(v))
  {
    if v != "" {
      assert v[0] in v;
      EscapeReadable(v[1..]);
    }
  }

  lemma SuffixReadable(name: string, v: Option<string>)
    requires Readable(name) && ReadableOpt(v)
    ensures Readable(ParamSuffix(name, v))
  {
    if v.Some? {
      EscapeReadable(v.value);
    }
  }

  lemma NodeReadable(t: Ipv6Text, n: Node)
    requires t.Lawful() && WfNode(n)
    ensures NodeText(t, n).Some? && Readable(NodeText(t, n).value)
  {
    hide RawText;
    RawTextChars(t, n);
    forall c | IsNodeChar(c)
      ensures IsReadableChar(c)
    {
    }
  }

  lemma EntryReadable(t: Ipv6Text, e: Entry)
    requires t.Lawful() && WfNode(e.node) && ReadableEntry(e)
    ensures EntryText(t, e).Some? && Readable(EntryText(t, e).value)
  {
    hide NodeText, ParamSuffix;
    NodeReadable(t, e.node);
    SuffixReadable("proto", e.proto);
    SuffixReadable("host", e.host);
    SuffixReadable("by", e.via);
  }

  /** A well-formed chain of readable entries is always written, as readable text. */
  lemma GeneratedIsReadable(t: Ipv6Text, chain: Chain)
    requires t.Lawful() && Wf(chain) && ReadableChain(chain) && chain != []
    ensures Generate(t, chain).Some? && Readable(Generate(t, chain).value) && ValidValue(Generate(t, chain).value)
  {
    hide EntryText;
    forall i | 0 <= i < |chain|
      ensures EntryText(t, chain[i]).Some? && Readable(EntryText(t, chain[i]).value)
    {
      EntryReadable(t, chain[i]);
    }
    JoinReadable(EntryTexts(t, chain), ", ");
  }
}
