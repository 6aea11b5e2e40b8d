/** What an entry of `Forwarded` means, whatever the order, the number and the spelling of its parameters: the
    parser's left-to-right scan against the values that each name has in the entry. */
module ForwardedParams {
  import opened Wrappers
  import opened HttpText
  import opened QuotedText
  import opened IpText
  import opened Forwarded

  /* ---------------------------------- names in any case ---------------------------------- */

  /** `s` is the lower-case `name`, each letter in upper or lower case. */
  predicate Spells(s: string, name: string) {
    |s| == |name| && forall i | 0 <= i < |s| :: s[i] == name[i] || IsUpperOf(s[i], name[i])
  }

  predicate IsUpperOf(c: char, lower: char) {
    'A' <= c <= 'Z' && c as int + 32 == lower as int
  }

  predicate IsKey(k: string) {
    k != "" && forall c | c in k :: 'a' <= c <= 'z'
  }

  lemma SpellsExactly(s: string, name: string)
    requires IsKey(name)
    ensures Lowercase(s) == name <==> Spells(s, name)
  {
    if |s| == |name| {
      forall i | 0 <= i < |s|
        ensures Lowercase(s)[i] == name[i] <==> s[i] == name[i] || IsUpperOf(s[i], name[i])
      {
        assert name[i] in name;
      }
    }
  }

  /** The four names that the parser knows. */
  predicate IsName(name: string) {
    name == "for" || name == "proto" || name == "host" || name == "by"
  }

  /** The value of one parameter if it has this name. */
  function ValueOf(param: string, name: string): seq<string> {
    match SplitOnce(param, '=')
    case Some((k, v)) => if Spells(Trim(k), name) then [Trim(v)] else []
    case None => []
  }

  /** The values that a name has among the parameters, in order. */
  function Values(params: seq<string>, name: string): seq<string> {
    if params == [] then [] else ValueOf(params[0], name) + Values(params[1..], name)
  }

  /* ------------------------------- the scan against the values ------------------------------- */

  /** The values can go into a field that may be filled already. */
  predicate Fits(field: Option<string>, values: seq<string>) {
    values == [] || (field.None? && |values| == 1 && Unquote(values[0]).Some?)
  }

  function Filled(field: Option<string>, values: seq<string>): Option<string> {
    if values == [] then field else Unquote(values[0])
  }

  predicate NodeFits(t: Ipv6Text, node: Option<Node>, values: seq<string>) {
    values == [] || (node.None? && |values| == 1 && ParseNode(t, values[0]).Some?)
  }

  function NodeFilled(t: Ipv6Text, node: Option<Node>, values: seq<string>): Option<Node> {
    if values == [] then node else ParseNode(t, values[0])
  }

  predicate AllFit(t: Ipv6Text, p: Params, params: seq<string>) {
    && NodeFits(t, p.node, Values(params, "for")) && Fits(p.proto, Values(params, "proto"))
    && Fits(p.host, Values(params, "host")) && Fits(p.via, Values(params, "by"))
  }

  function AllFilled(t: Ipv6Text, p: Params, params: seq<string>): Params {
    Params(NodeFilled(t, p.node, Values(params, "for")), Filled(p.proto, Values(params, "proto")),
           Filled(p.host, Values(params, "host")), Filled(p.via, Values(params, "by")))
  }

  /** A parameter has at most one of the four names. */
  lemma OneName(s: string, a: string, b: string)
    requires IsName(a) && IsName(b) && Spells(s, a) && Spells(s, b)
    ensures a == b
  {
    SpellsExactly(s, a);
    SpellsExactly(s, b);
  }

  lemma ParamIsExact(t: Ipv6Text, p: Params, param: string)
    ensures ParseParam(t, p, param).Some? <==> AllFit(t, p, [param])
    ensures ParseParam(t, p, param).Some? ==> ParseParam(t, p, param).value == AllFilled(t, p, [param])
  {
    hide ParseNode, Unquote, Trim, Spells, Lowercase, SplitOnce;
    SingleValue(param, "for");
    SingleValue(param, "proto");
    SingleValue(param, "host");
    SingleValue(param, "by");
    var cut := SplitOnce(param, '=');
    if cut.Some? {
      var key := Trim(cut.value.0);
      SpellsExactly(key, "for");
      SpellsExactly(key, "proto");
      SpellsExactly(key, "host");
      SpellsExactly(key, "by");
    }
  }

  lemma SingleValue(param: string, name: string)
    ensures Values([param], name) == ValueOf(param, name)
  {
    hide ValueOf;
    assert [param][1..] == [] && Values([param], name) == ValueOf(param, name) + [];
  }

  /** One more value in front. */
  lemma FitsStep(field: Option<string>, first: seq<string>, rest: seq<string>)
    requires |first| <= 1
    ensures Fits(field, first + rest) <==> Fits(field, first) && Fits(Filled(field, first), rest)
    ensures Fits(field, first + rest) ==> Filled(field, first + rest) == Filled(Filled(field, first), rest)
  {
    hide Unquote;
    if first == [] {
      assert first + rest == rest;
    }
  }

  lemma NodeFitsStep(t: Ipv6Text, node: Option<Node>, first: seq<string>, rest: seq<string>)
    requires |first| <= 1
    ensures NodeFits(t, node, first + rest) <==>
              NodeFits(t, node, first) && NodeFits(t, NodeFilled(t, node, first), rest)
    ensures NodeFits(t, node, first + rest) ==>
              NodeFilled(t, node, first + rest) == NodeFilled(t, NodeFilled(t, node, first), rest)
  {
    hide ParseNode;
    if first == [] {
      assert first + rest == rest;
    }
  }

  lemma ValuesStep(params: seq<string>, name: string)
    requires params != []
    ensures Values(params, name) == Values([params[0]], name) + Values(params[1..], name)
    ensures |Values([params[0]], name)| <= 1
  {
    hide SplitOnce, Spells, Trim;
    SingleValue(params[0], name);
  }

  lemma AllFitStep(t: Ipv6Text, p: Params, params: seq<string>)
    requires params != []
    ensures var q := AllFilled(t, p, [params[0]]);
            && (AllFit(t, p, params) <==> AllFit(t, p, [params[0]]) && AllFit(t, q, params[1..]))
            && (AllFit(t, p, params) ==> AllFilled(t, p, params) == AllFilled(t, q, params[1..]))
  {
    hide Values, Fits, Filled, NodeFits, NodeFilled;
    var first, rest := [params[0]], params[1..];
    ValuesStep(params, "for");
    ValuesStep(params, "proto");
    ValuesStep(params, "host");
    ValuesStep(params, "by");
    NodeFitsStep(t, p.node, Values(first, "for"), Values(rest, "for"));
    FitsStep(p.proto, Values(first, "proto"), Values(rest, "proto"));
    FitsStep(p.host, Values(first, "host"), Values(rest, "host"));
    FitsStep(p.via, Values(first, "by"), Values(rest, "by"));
  }

  lemma NothingToFit(t: Ipv6Text, p: Params)
    ensures AllFit(t, p, []) && AllFilled(t, p, []) == p
    ensures AllFit(t, p, [""]) && AllFilled(t, p, [""]) == p
  {
    SingleValue("", "for");
    SingleValue("", "proto");
    SingleValue("", "host");
    SingleValue("", "by");
  }

  lemma {:induction false} ParamsAreExact(t: Ipv6Text, p: Params, params: seq<string>)
    ensures ParseParams(t, p, params).Some? <==> AllFit(t, p, params)
    ensures ParseParams(t, p, params).Some? ==> ParseParams(t, p, params).value == AllFilled(t, p, params)
    decreases |params|
  {
    hide ParseParam, AllFit, AllFilled;
    NothingToFit(t, p);
    if params != [] {
      AllFitStep(t, p, params);
      ParamIsExact(t, p, params[0]);
      ParamsAreExact(t, AllFilled(t, p, [params[0]]), params[1..]);
    }
  }

  /** An entry is read if and only if it has one `for` that is a node and at most one each of `proto`, `host`
      and `by`, all readable; these values, wherever they stand, make the entry. Nothing else in it matters. */
  lemma EntryIsExact(t: Ipv6Text, text: string)
    ensures var params := SplitQuoted(text, ';');
            var node, proto, host, via :=
              Values(params, "for"), Values(params, "proto"), Values(params, "host"), Values(params, "by");
            && (ParseEntry(t, text).Some? <==>
                  && |node| == 1 && ParseNode(t, node[0]).Some?
                  && Fits(None, proto) && Fits(None, host) && Fits(None, via))
            && (ParseEntry(t, text).Some? ==>
                  ParseEntry(t, text).value
                    == Entry(ParseNode(t, node[0]).value, Filled(None, proto), Filled(None, host), Filled(None, via)))
  {
    hide ParseNode, ParseParams, Values, Fits, Filled;
    ParamsAreExact(t, NoParams, SplitQuoted(text, ';'));
  }

  /* ------------------------------------ consequences ------------------------------------ */

  lemma {:induction false} ValuesConcat(a: seq<string>, b: seq<string>, name: string)
    ensures Values(a + b, name) == Values(a, name) + Values(b, name)
  {
    hide ValueOf;
    if a == [] {
      assert a + b == b;
    } else {
      ValuesConcat(a[1..], b, name);
      assert (a + b)[1..] == a[1..] + b;
      Assoc(ValueOf(a[0], name), Values(a[1..], name), Values(b, name));
    }
  }

  /** The parameters of an entry joined with semicolons. */
  lemma PiecesOf(params: seq<string>)
    requires params != [] && forall i | 0 <= i < |params| :: Solid(params[i], ';')
    ensures SplitQuoted(Join(params, ";"), ';') == params
  {
    hide Solid, SplitQuoted;
    SplitJoin("", params, ';', "");
    assert [';'] + "" == ";" && "" + Join(params, ";") == Join(params, ";");
  }

  /** `key=value` has the value under that name, in any case, and under no other. */
  lemma PieceValue(key: string, name: string, v: string, other: string)
    requires IsName(name) && IsName(other) && Spells(key, name) && Solid(v, ';')
    ensures Solid(key + "=" + v, ';')
    ensures ValueOf(key + "=" + v, other) == if other == name then [v] else []
  {
    hide Solid, SplitOnce, Trim;
    SpelledPiece(key, name, v);
    if Spells(key, other) {
      OneName(key, name, other);
    }
  }

  lemma SpelledPiece(key: string, name: string, v: string)
    requires IsName(name) && Spells(key, name) && Solid(v, ';')
    ensures Solid(key + "=" + v, ';') && SplitOnce(key + "=" + v, '=') == Some((key, v))
    ensures Trim(key) == key && Trim(v) == v
  {
    hide SplitOnce, Trim, Whole, After;
    SpelledLetters(key, name);
    SplitOnceAt(key, '=', v);
    TrimTight(key);
    TrimTight(v);
    assert forall c | c in key + "=" :: c in key || c == '=';
    PlainIsWhole(key + "=", ';');
    WholeConcat(Out, key + "=", v, ';');
  }

  lemma SpelledLetters(key: string, name: string)
    requires IsName(name) && Spells(key, name)
    ensures key != "" && Tight(key) && '=' !in key && '"' !in key && ';' !in key
  {
    forall c | c in key
      ensures 'A' <= c <= 'Z' || 'a' <= c <= 'z'
    {
      var i :| 0 <= i < |key| && key[i] == c;
      assert name[i] in name && 'a' <= name[i] <= 'z';
    }
    assert key[0] in key && key[|key| - 1] in key;
  }

  /** Two parameters of one name make the entry unreadable, wherever they stand and whatever else it says. */
  lemma DuplicateIsRefused(t: Ipv6Text, params: seq<string>, i: nat, j: nat, name: string)
    requires forall k | 0 <= k < |params| :: Solid(params[k], ';')
    requires i < j < |params| && IsName(name) && ValueOf(params[i], name) != [] && ValueOf(params[j], name) != []
    ensures ParseEntry(t, Join(params, ";")) == None
  {
    hide Solid, SplitQuoted, ParseEntry, ParseNode, ValueOf, Join, Values;
    PiecesOf(params);
    EntryIsExact(t, Join(params, ";"));
    ValuesCount(params, i, j, name);
  }

  lemma ValuesCount(params: seq<string>, i: nat, j: nat, name: string)
    requires i < j < |params| && ValueOf(params[i], name) != [] && ValueOf(params[j], name) != []
    ensures |Values(params, name)| >= 2
  {
    hide ValueOf;
    assert params == params[..j] + params[j..] && params[..j] == params[..j][..i] + params[..j][i..];
    ValuesConcat(params[..j], params[j..], name);
    ValuesConcat(params[..j][..i], params[..j][i..], name);
    assert params[..j][i..][0] == params[i] && params[j..][0] == params[j];
  }

  /** A parameter without a name that the parser knows, wherever it stands, changes nothing. */
  lemma UnknownIsIgnored(t: Ipv6Text, a: seq<string>, x: string, b: seq<string>)
    requires forall k | 0 <= k < |a + b| :: Solid((a + b)[k], ';')
    requires a + b != [] && Solid(x, ';')
    requires forall name | IsName(name) :: ValueOf(x, name) == []
    ensures ParseEntry(t, Join(a + [x] + b, ";")) == ParseEntry(t, Join(a + b, ";"))
  {
    hide Solid, SplitQuoted, ParseEntry, ParseNode, ValueOf, Join, Values, Fits, Filled;
    var all := a + [x] + b;
    forall k | 0 <= k < |all|
      ensures Solid(all[k], ';')
    {
      if k < |a| {
        assert all[k] == (a + b)[k];
      } else if k > |a| {
        assert all[k] == (a + b)[k - 1];
      }
    }
    PiecesOf(all);
    PiecesOf(a + b);
    EntryIsExact(t, Join(all, ";"));
    EntryIsExact(t, Join(a + b, ";"));
    forall name | IsName(name)
      ensures Values(all, name) == Values(a + b, name)
    {
      WithoutValue(a, x, b, name);
    }
    assert IsName("for") && IsName("proto") && IsName("host") && IsName("by");
  }

  lemma WithoutValue(a: seq<string>, x: string, b: seq<string>, name: string)
    requires ValueOf(x, name) == []
    ensures Values(a + [x] + b, name) == Values(a + b, name)
  {
    hide ValueOf, Values;
    ValuesConcat(a + [x], b, name);
    ValuesConcat(a, [x], name);
    ValuesConcat(a, b, name);
    SingleValue(x, name);
    assert Values(a, name) + [] == Values(a, name);
  }

  /** A parameter without an equals sign, or whose name is none of the four, has no value. */
  lemma UnknownHasNoValue(x: string, key: string, v: string, name: string)
    requires '=' !in x && '=' !in key && IsName(name) && !Spells(Trim(key), name)
    ensures ValueOf(x, name) == [] && ValueOf(key + "=" + v, name) == []
  {
    hide SplitOnce, Spells, Trim;
    SplitOnceNone(x, '=');
    SplitOnceAt(key, '=', v);
  }

  /** An entry without `for` is unreadable. */
  lemma WithoutForIsRefused(t: Ipv6Text, text: string)
    requires Values(SplitQuoted(text, ';'), "for") == []
    ensures ParseEntry(t, text) == None
  {
    hide ParseEntry;
    EntryIsExact(t, text);
  }

  /* ------------------------------------ whole fields ------------------------------------ */

  function Written(texts: seq<string>): seq<string> {
    if texts == [] then [] else (if texts[0] == "" then [] else [texts[0]]) + Written(texts[1..])
  }

  ghost predicate AllRead(t: Ipv6Text, texts: seq<string>) {
    forall i | 0 <= i < |texts| :: ParseEntry(t, texts[i]).Some?
  }

  ghost predicate ReadAs(t: Ipv6Text, texts: seq<string>, chain: Chain) {
    |chain| == |texts| && forall i | 0 <= i < |texts| :: ParseEntry(t, texts[i]) == Some(chain[i])
  }

  lemma ReadStep(t: Ipv6Text, text: string, rest: seq<string>, e: Entry, chain: Chain)
    ensures AllRead(t, [text] + rest) <==> ParseEntry(t, text).Some? && AllRead(t, rest)
    ensures ReadAs(t, [text] + rest, [e] + chain) <==> ParseEntry(t, text) == Some(e) && ReadAs(t, rest, chain)
  {
    hide ParseEntry;
    var texts, es := [text] + rest, [e] + chain;
    assert texts[0] == text && es[0] == e;
    forall i | 0 <= i < |rest| && AllRead(t, texts)
      ensures ParseEntry(t, rest[i]).Some?
    {
      assert rest[i] == texts[i + 1];
    }
    forall i | 0 <= i < |rest| && ReadAs(t, texts, es)
      ensures ParseEntry(t, rest[i]) == Some(chain[i])
    {
      assert rest[i] == texts[i + 1] && chain[i] == es[i + 1];
    }
  }

  /** Empty elements are passed over; the others are read one by one, and one that fails spoils the field. */
  lemma {:induction false} EntriesAreExact(t: Ipv6Text, texts: seq<string>)
    ensures var written, r := Written(texts), ParseEntries(t, texts);
            && (r.Some? <==> AllRead(t, written))
            && (r.Some? ==> ReadAs(t, written, r.value))
  {
    hide ParseEntry;
    if texts == [] {
      assert Written(texts) == [];
    } else {
      hide AllRead, ReadAs;
      EntriesAreExact(t, texts[1..]);
      var rest := Written(texts[1..]);
      var r := ParseEntries(t, texts[1..]);
      if texts[0] == "" {
        assert Written(texts) == rest;
      } else {
        var e := ParseEntry(t, texts[0]);
        ReadStep(t, texts[0], rest, if e.Some? then e.value else Entry(Node(None, None, Unknown), None, None, None),
                 if r.Some? then r.value else []);
      }
    }
  }
}
