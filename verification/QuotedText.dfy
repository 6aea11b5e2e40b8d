/** Quoted strings of RFC 7230 section 3.2.6: splitting a header value at delimiters outside quotes,
    quoting and unquoting a parameter value. */
module QuotedText {
  import opened Wrappers
  import opened HttpText

  /** Where the scanner is: outside quotes, inside, or inside just after a backslash. */
  datatype Scan = Out | In | Esc

  function Next(q: Scan, c: char): Scan {
    match q
    case Esc => In
    case In => if c == '\\' then Esc else if c == '"' then Out else In
    case Out => if c == '"' then In else Out
  }

  function After(q: Scan, s: string): Scan
    decreases |s|
  {
    if s == "" then q else After(Next(q, s[0]), s[1..])
  }

  /** No delimiter of `s` stands outside quotes. */
  predicate Whole(q: Scan, s: string, d: char)
    decreases |s|
  {
    s == "" || (!(q == Out && s[0] == d) && Whole(Next(q, s[0]), s[1..], d))
  }

  /** The trimmed segments of `s`, where `cur` is the part of the current one already seen. */
  function SplitFrom(s: string, d: char, q: Scan, cur: string): seq<string> {
    if s == "" then [Trim(cur)]
    else if q == Out && s[0] == d then [Trim(cur)] + SplitFrom(s[1..], d, Out, "")
    else SplitFrom(s[1..], d, Next(q, s[0]), cur + [s[0]])
  }

  function SplitQuoted(s: string, d: char): seq<string> {
    SplitFrom(s, d, Out, "")
  }

  lemma SplitStep(input: string, d: char, q: Scan, start: nat, i: nat)
    requires start <= i < |input|
    ensures SplitFrom(input[i..], d, q, input[start..i]) ==
              if q == Out && input[i] == d
              then [Trim(input[start..i])] + SplitFrom(input[i + 1..], d, Out, input[i + 1..i + 1])
              else SplitFrom(input[i + 1..], d, Next(q, input[i]), input[start..i + 1])
  {
    hide Trim;
    assert input[i..][1..] == input[i + 1..] && input[start..i] + [input[i]] == input[start..i + 1];
    assert input[i + 1..i + 1] == "";
  }

  lemma SplitEnd(input: string, d: char, q: Scan, start: nat)
    requires start <= |input|
    ensures SplitFrom(input[|input|..], d, q, input[start..|input|]) == [Trim(input[start..])]
  {
    hide Trim;
    assert input[start..|input|] == input[start..] && input[|input|..] == "";
  }

  method SplitRespectingQuotes(input: string, d: char) returns (segments: seq<string>)
    requires d != '"'
    ensures segments == SplitQuoted(input, d)
  {
    hide Trim, SplitFrom, Next;
    segments := [];
    var start, q, i := 0, Out, 0;
    assert input[0..] == input && input[0..0] == "" && [] + SplitQuoted(input, d) == SplitQuoted(input, d);
    while i < |input|
      invariant 0 <= start <= i <= |input|
      invariant SplitQuoted(input, d) == segments + SplitFrom(input[i..], d, q, input[start..i])
    {
      var c := input[i];
      SplitStep(input, d, q, start, i);
      if q == Out && c == d {
        Assoc(segments, [Trim(input[start..i])], SplitFrom(input[i + 1..], d, Out, input[i + 1..i + 1]));
        segments := segments + [Trim(input[start..i])];
        start := i + 1;
      } else {
        q := Next(q, c);
      }
      i := i + 1;
    }
    SplitEnd(input, d, q, start);
    segments := segments + [Trim(input[start..])];
  }

  /* ------------------------------- scanning lemmas ------------------------------- */

  lemma {:induction false} WholeConcat(q: Scan, a: string, b: string, d: char)
    ensures After(q, a + b) == After(After(q, a), b)
    ensures Whole(q, a + b, d) <==> Whole(q, a, d) && Whole(After(q, a), b, d)
    decreases |a|
  {
    if a == "" {
      assert a + b == b;
    } else {
      WholeConcat(Next(q, a[0]), a[1..], b, d);
      assert (a + b)[1..] == a[1..] + b;
    }
  }

  /** Text without quotes and delimiters is one piece. */
  lemma {:induction false} PlainIsWhole(s: string, d: char)
    requires '"' !in s && d !in s
    ensures Whole(Out, s, d) && After(Out, s) == Out
  {
    if s != "" {
      PlainIsWhole(s[1..], d);
    }
  }

  lemma {:induction false} SplitLast(s: string, d: char, q: Scan, cur: string)
    requires Whole(q, s, d)
    ensures SplitFrom(s, d, q, cur) == [Trim(cur + s)]
    decreases |s|
  {
    if s == "" {
      assert cur + s == cur;
    } else {
      SplitLast(s[1..], d, Next(q, s[0]), cur + [s[0]]);
      assert cur + [s[0]] + s[1..] == cur + s;
    }
  }

  lemma {:induction false} SplitAt(a: string, b: string, d: char, q: Scan, cur: string)
    requires Whole(q, a, d) && After(q, a) == Out
    ensures SplitFrom(a + [d] + b, d, q, cur) == [Trim(cur + a)] + SplitQuoted(b, d)
    decreases |a|
  {
    var s := a + [d] + b;
    if a == "" {
      assert s[1..] == b && cur + a == cur;
    } else {
      SplitAt(a[1..], b, d, Next(q, a[0]), cur + [a[0]]);
      assert s[1..] == a[1..] + [d] + b;
      assert cur + [a[0]] + a[1..] == cur + a;
    }
  }

  /** A piece that a split leaves as it is. */
  predicate Solid(s: string, d: char) {
    s != "" && Tight(s) && Whole(Out, s, d) && After(Out, s) == Out
  }

  lemma SolidAfterPad(lead: string, s: string, d: char)
    requires Solid(s, d) && (lead == "" || lead == " ") && d != ' '
    ensures Whole(Out, lead + s, d) && After(Out, lead + s) == Out && Trim("" + (lead + s)) == s
  {
    WholeConcat(Out, lead, s, d);
    TrimTight(s);
    assert "" + (lead + s) == lead + s;
    if lead == " " {
      assert (lead + s)[1..] == s && TrimStart(lead + s) == TrimStart(s) == s;
    } else {
      assert lead + s == s;
    }
  }

  lemma SplitFirst(lead: string, s: string, d: char, rest: string)
    requires Solid(s, d) && d != ' ' && (lead == "" || lead == " ")
    ensures SplitQuoted(lead + s, d) == [s]
    ensures SplitQuoted(lead + s + [d] + rest, d) == [s] + SplitQuoted(rest, d)
  {
    hide Solid, Whole, After, Trim, SplitFrom;
    SolidAfterPad(lead, s, d);
    SplitLast(lead + s, d, Out, "");
    SplitAt(lead + s, rest, d, Out, "");
  }

  /** Splitting undoes joining, with or without a space after the delimiter. */
  lemma {:induction false} SplitJoin(lead: string, parts: seq<string>, d: char, pad: string)
    requires parts != [] && forall i | 0 <= i < |parts| :: Solid(parts[i], d)
    requires d != ' ' && (pad == "" || pad == " ") && (lead == "" || lead == " ")
    ensures SplitQuoted(lead + Join(parts, [d] + pad), d) == parts
    decreases |parts|
  {
    hide Solid, SplitQuoted;
    if |parts| == 1 {
      SplitFirst(lead, parts[0], d, "");
      assert parts == [parts[0]];
    } else {
      var rest := Join(parts[1..], [d] + pad);
      SplitJoin(pad, parts[1..], d, pad);
      SplitFirst(lead, parts[0], d, pad + rest);
      assert lead + Join(parts, [d] + pad) == lead + parts[0] + [d] + (pad + rest);
      assert parts == [parts[0]] + parts[1..];
    }
  }

  /* ------------------------------------ quoting ------------------------------------ */

  function Escape(v: string): string {
    if v == "" then ""
    else (if v[0] == '\\' || v[0] == '"' then ['\\', v[0]] else [v[0]]) + Escape(v[1..])
  }

  function Quoted(v: string): string {
    "\"" + Escape(v) + "\""
  }

  /** The loop of `unquote_http_value`; `None` when a backslash is the last character. */
  function Unescape(s: string): Option<string> {
    if s == "" then Some("")
    else if s[0] == '\\' then
      if |s| == 1 then None
      else match Unescape(s[2..])
        case None => None
        case Some(r) => Some([s[1]] + r)
    else match Unescape(s[1..])
      case None => None
      case Some(r) => Some([s[0]] + r)
  }

  /** How many backslashes `s` ends with. */
  function Backslashes(s: string): nat {
    if s != "" && s[|s| - 1] == '\\' then 1 + Backslashes(s[..|s| - 1]) else 0
  }

  lemma {:induction false} BackslashesBehind(a: string, s: string)
    ensures Backslashes(s) <= |s|
    ensures Backslashes(a + s) == Backslashes(s) + if Backslashes(s) == |s| then Backslashes(a) else 0
    decreases |s|
  {
    if s == "" {
      assert a + s == a;
    } else {
      var n := |s| - 1;
      assert (a + s)[..|a| + n] == a + s[..n] && (a + s)[|a| + n] == s[n];
      if s[n] == '\\' {
        BackslashesBehind(a, s[..n]);
      }
    }
  }

  lemma OneBackslash(c: char)
    ensures Backslashes([c]) == if c == '\\' then 1 else 0
  {
    assert [c][..0] == "";
  }

  lemma PairKeepsParity(c: char, rest: string)
    ensures Backslashes(['\\', c] + rest) % 2 == Backslashes(rest) % 2
  {
    hide Backslashes;
    assert ['\\', c] + rest == ['\\'] + ([c] + rest);
    BackslashesBehind([c], rest);
    BackslashesBehind(['\\'], [c] + rest);
    OneBackslash(c);
    OneBackslash('\\');
  }

  lemma PlainKeepsCount(c: char, rest: string)
    requires c != '\\'
    ensures Backslashes([c] + rest) == Backslashes(rest)
  {
    hide Backslashes;
    BackslashesBehind([c], rest);
    OneBackslash(c);
  }

  lemma UnescapeFront(c: char, rest: string)
    ensures Unescape(['\\', c] + rest).None? <==> Unescape(rest).None?
    ensures c != '\\' ==> (Unescape([c] + rest).None? <==> Unescape(rest).None?)
  {
    assert (['\\', c] + rest)[2..] == rest && ([c] + rest)[1..] == rest;
  }

  /** Only a backslash with nothing to escape makes a text unreadable. */
  lemma {:induction false} UnescapeFailsExactly(s: string)
    ensures Unescape(s).None? <==> Backslashes(s) % 2 == 1
  {
    if |s| <= 1 {
      assert s == "" || s[..0] == "";
    } else if s[0] == '\\' {
      hide Backslashes, Unescape;
      assert s == ['\\', s[1]] + s[2..];
      UnescapeFailsExactly(s[2..]);
      UnescapeFront(s[1], s[2..]);
      PairKeepsParity(s[1], s[2..]);
    } else {
      hide Backslashes, Unescape;
      assert s == [s[0]] + s[1..];
      UnescapeFailsExactly(s[1..]);
      UnescapeFront(s[0], s[1..]);
      PlainKeepsCount(s[0], s[1..]);
    }
  }

  function Unquote(value: string): Option<string> {
    var s := Trim(value);
    if s == "" || s[0] != '"' then Some(s)
    else if |s| < 2 || s[|s| - 1] != '"' then None
    else Unescape(s[1..|s| - 1])
  }

  method UnquoteHttpValue(value: string) returns (r: Option<string>)
    ensures r == Unquote(value)
  {
    var s := Trim(value);
    if s == "" || s[0] != '"' {
      return Some(s);
    }
    if |s| < 2 || s[|s| - 1] != '"' {
      return None;
    }
    var inner := s[1..|s| - 1];
    var result, escaped, i := "", false, 0;
    assert inner[0..] == inner && forall s: string :: "" + s == s;
    while i < |inner|
      invariant 0 <= i <= |inner| && (escaped ==> 0 < i && inner[i - 1] == '\\')
      invariant Unescape(inner) == Prefixed(result, Unescape(inner[if escaped then i - 1 else i..]))
    {
      var ch := inner[i];
      ghost var from := if escaped then i - 1 else i;
      assert inner[from..][i + 1 - from..] == inner[i + 1..];
      if escaped {
        PrefixedPush(result, ch, Unescape(inner[i + 1..]));
        result, escaped := result + [ch], false;
      } else if ch == '\\' {
        escaped := true;
      } else {
        PrefixedPush(result, ch, Unescape(inner[i + 1..]));
        result := result + [ch];
      }
      i := i + 1;
    }
    r := if escaped then None else Some(result);
    assert !escaped ==> inner[i..] == "" && result + "" == result;
  }

  function Prefixed(a: string, r: Option<string>): Option<string> {
    match r
    case None => None
    case Some(b) => Some(a + b)
  }

  lemma PrefixedPush(a: string, c: char, r: Option<string>)
    ensures Prefixed(a, Prefixed([c], r)) == Prefixed(a + [c], r)
  {
    if r.Some? {
      assert a + ([c] + r.value) == a + [c] + r.value;
    }
  }

  lemma EscapeStep(c: char, v: string)
    ensures Escape([c] + v) == (if c == '\\' || c == '"' then ['\\', c] else [c]) + Escape(v)
  {
    assert ([c] + v)[1..] == v;
  }

  lemma UnescapeStep(c: char, rest: string)
    requires Unescape(rest).Some?
    ensures Unescape((if c == '\\' || c == '"' then ['\\', c] else [c]) + rest) == Some([c] + Unescape(rest).value)
  {
    if c == '\\' || c == '"' {
      assert (['\\', c] + rest)[2..] == rest;
    } else {
      assert ([c] + rest)[1..] == rest;
    }
  }

  lemma {:induction false} UnescapeEscape(v: string)
    ensures Unescape(Escape(v)) == Some(v)
  {
    if v != "" {
      hide Escape, Unescape;
      UnescapeEscape(v[1..]);
      assert v == [v[0]] + v[1..];
      EscapeStep(v[0], v[1..]);
      UnescapeStep(v[0], Escape(v[1..]));
    }
  }

  lemma {:induction false} EscapedIsWhole(v: string, d: char)
    ensures Whole(In, Escape(v), d) && After(In, Escape(v)) == In
  {
    if v != "" {
      EscapedIsWhole(v[1..], d);
      var e := Escape(v);
      if v[0] == '\\' || v[0] == '"' {
        assert e[1..][1..] == Escape(v[1..]);
      } else {
        assert e[1..] == Escape(v[1..]);
      }
    }
  }

  lemma {:induction false} EscapePlain(v: string)
    requires '"' !in v && '\\' !in v
    ensures Escape(v) == v
  {
    if v != "" {
      EscapePlain(v[1..]);
      assert v == [v[0]] + v[1..];
    }
  }

  lemma QuotedIsSolid(v: string, d: char)
    requires d != '"'
    ensures Solid(Quoted(v), d)
  {
    var e := Escape(v);
    EscapedIsWhole(v, d);
    assert Quoted(v) == "\"" + (e + "\"");
    assert Whole(In, "\"", d) && After(In, "\"") == Out && Whole(Out, "\"", d) && After(Out, "\"") == In;
    QuotesJoin(e, d);
  }

  lemma QuotesJoin(e: string, d: char)
    requires Whole(In, e, d) && After(In, e) == In && Whole(In, "\"", d) && After(In, "\"") == Out
    requires Whole(Out, "\"", d) && After(Out, "\"") == In
    ensures Whole(Out, "\"" + (e + "\""), d) && After(Out, "\"" + (e + "\"")) == Out
  {
    hide Whole, After;
    WholeConcat(In, e, "\"", d);
    WholeConcat(Out, "\"", e + "\"", d);
  }

  lemma QuotedUnquotes(v: string)
    ensures Unquote(Quoted(v)) == Some(v)
  {
    hide Escape, Unescape;
    UnescapeEscape(v);
    TrimTight(Quoted(v));
    assert Quoted(v)[1..|Quoted(v)| - 1] == Escape(v);
  }

  /** A quoted string is one piece for every delimiter, and unquotes to what was quoted. */
  lemma QuotedIsWhole(v: string, d: char)
    requires d != '"'
    ensures Solid(Quoted(v), d)
    ensures Unquote(Quoted(v)) == Some(v)
  {
    hide Solid, Unquote, Quoted;
    QuotedIsSolid(v, d);
    QuotedUnquotes(v);
  }

  /** What begins with a quote is read if and only if it also ends with one and does not end in the middle of
      an escape; anything else is its own value. */
  lemma UnquoteExactly(s: string)
    requires Tight(s)
    ensures s == "" || s[0] != '"' ==> Unquote(s) == Some(s)
    ensures s != "" && s[0] == '"' ==>
              (Unquote(s).Some? <==>
                 |s| >= 2 && s[|s| - 1] == '"' && Backslashes(s[1..|s| - 1]) % 2 == 0)
  {
    hide Trim, Unescape, Backslashes;
    TrimTight(s);
    if |s| >= 2 {
      UnescapeFailsExactly(s[1..|s| - 1]);
    }
  }

  predicate IsToken(v: string) {
    v != "" && forall c | c in v :: IsTchar(c)
  }

  /** `write_forwarded_param_value`: a token as it is, anything else as a quoted string. */
  function ParamText(v: string): string {
    if IsToken(v) then v else Quoted(v)
  }

  /** The value is written as it is exactly when it is a token; otherwise it stands in quotes. */
  lemma PlainIfToken(v: string)
    ensures ParamText(v) == v <==> IsToken(v)
    ensures !IsToken(v) ==> |ParamText(v)| >= 2 && ParamText(v)[0] == '"' && Last(ParamText(v)) == '"'
  {
    if !IsToken(v) {
      EscapeLength(v);
    }
  }

  lemma {:induction false} EscapeLength(v: string)
    ensures |Escape(v)| >= |v|
  {
    if v != "" {
      EscapeLength(v[1..]);
    }
  }

  method WriteParamValue(buf: string, v: string) returns (buf': string)
    ensures buf' == buf + ParamText(v)
  {
    if IsToken(v) {
      return buf + v;
    }
    buf' := buf + "\"";
    var i := 0;
    while i < |v|
      invariant 0 <= i <= |v|
      invariant buf + "\"" + Escape(v) == buf' + Escape(v[i..])
    {
      assert v[i..][1..] == v[i + 1..];
      ghost var before, rest := buf', Escape(v[i + 1..]);
      if v[i] == '\\' || v[i] == '"' {
        buf' := buf' + "\\";
      }
      buf' := buf' + [v[i]];
      assert before + Escape(v[i..]) == buf' + rest;
      i := i + 1;
    }
    assert v[i..] == "" && buf' + "" == buf';
    buf' := buf' + "\"";
    assert buf' == buf + ("\"" + Escape(v) + "\"");
  }

  lemma TcharIsPlain(c: char)
    requires IsTchar(c)
    ensures !IsSpace(c) && c != '"' && c != ',' && c != ';'
  {
  }

  lemma TokenIsSolid(v: string, d: char)
    requires IsToken(v) && (d == ',' || d == ';')
    ensures Solid(v, d) && Unquote(v) == Some(v)
  {
    hide Whole, After, Trim, IsTchar;
    forall c | c in v
      ensures !IsSpace(c) && c != '"' && c != d
    {
      TcharIsPlain(c);
    }
    assert v[0] in v && v[|v| - 1] in v;
    PlainIsWhole(v, d);
    TrimTight(v);
  }

  /** Every parameter value survives being written and read, whatever its characters. */
  lemma ParamRoundTrip(v: string, d: char)
    requires d == ',' || d == ';'
    ensures Unquote(ParamText(v)) == Some(v)
    ensures Solid(ParamText(v), d)
  {
    hide IsToken, Solid, Unquote, Quoted;
    if IsToken(v) {
      TokenIsSolid(v, d);
    } else {
      QuotedIsWhole(v, d);
    }
  }
}
