/** Cookie header fields: merging request lines, taking the sticky cookie out of a request and putting
    a new one into a response. */
module Cookies {
  import opened HttpText
  import opened Headers

  /** An unreadable line counts as empty. */
  function TextOf(line: string): (s: string)
    ensures Readable(s)
  {
    if Readable(line) then line else ""
  }

  function Texts(lines: seq<string>): (r: seq<string>)
    ensures AllReadable(r)
  {
    seq(|lines|, i requires 0 <= i < |lines| => TextOf(lines[i]))
  }

  function Trimmed(parts: seq<string>): seq<string> {
    seq(|parts|, i requires 0 <= i < |parts| => Trim(parts[i]))
  }

  /** The cookies the code finds in one line of text. */
  function Pairs(text: string): seq<string> {
    Trimmed(SplitAll(text, ';'))
  }

  /** The cookies the code finds in all lines, in order. */
  function Seen(lines: seq<string>): seq<string> {
    if lines == [] then [] else Pairs(TextOf(lines[0])) + Seen(lines[1..])
  }

  /** `make_cookie_single_line`. */
  function SingleLine(lines: seq<string>): seq<string> {
    if |lines| < 2 then lines else [Join(Texts(lines), "; ")]
  }

  /* ------------------------------------ tokens ------------------------------------ */

  lemma PadIsTrimmed(s: string)
    ensures Pairs(" " + s) == Pairs(s)
  {
  }

  lemma TrimmedConcat(x: seq<string>, y: seq<string>)
    ensures Trimmed(x + y) == Trimmed(x) + Trimmed(y)
  {
  }

  lemma PairsOfTwo(a: string, b: string)
    ensures Pairs(a + "; " + b) == Pairs(a) + Pairs(b)
  {
    hide SplitAll, Trimmed;
    assert a + "; " + b == a + [';'] + (" " + b);
    SplitAllConcat(a, ';', " " + b);
    TrimmedConcat(SplitAll(a, ';'), SplitAll(" " + b, ';'));
    PadIsTrimmed(b);
  }

  lemma {:induction false} PairsOfJoin(texts: seq<string>)
    requires texts != [] && AllReadable(texts)
    ensures Pairs(Join(texts, "; ")) == Seen(texts)
  {
    assert TextOf(texts[0]) == texts[0];
    if |texts| == 1 {
      assert Seen(texts[1..]) == [];
    } else {
      PairsOfTwo(texts[0], Join(texts[1..], "; "));
      PairsOfJoin(texts[1..]);
    }
  }

  lemma {:induction false} SeenOfTexts(lines: seq<string>)
    ensures Seen(Texts(lines)) == Seen(lines)
  {
    if lines != [] {
      SeenOfTexts(lines[1..]);
      assert Texts(lines)[1..] == Texts(lines[1..]);
    }
  }

  /** The code finds the same cookies before and after merging. */
  lemma MergingIsNotSeen(lines: seq<string>)
    ensures |SingleLine(lines)| <= 1
    ensures Seen(SingleLine(lines)) == Seen(lines)
  {
    if |lines| >= 2 {
      var texts := Texts(lines);
      var line := Join(texts, "; ");
      JoinReadable(texts, "; ");
      PairsOfJoin(texts);
      SeenOfTexts(lines);
      assert [line][1..] == [] && Seen([line]) == Pairs(line) + [];
    }
  }

  method JoinCookies(lines: seq<string>) returns (joined: string)
    ensures joined == Join(Texts(lines), "; ") && ValidValue(joined)
  {
    joined := "";
    var i := 0;
    ghost var texts := Texts(lines);
    while i < |lines|
      invariant 0 <= i <= |lines| && joined == Join(texts[..i], "; ")
    {
      if i > 0 {
        joined := joined + "; ";
      }
      JoinPush(texts[..i], texts[i], "; ");
      assert texts[..i] + [texts[i]] == texts[..i + 1];
      joined := joined + TextOf(lines[i]);
      i := i + 1;
    }
    assert texts[..i] == texts;
    JoinReadable(texts, "; ");
    ReadableIsValid(joined);
  }

  method MakeCookieSingleLine(headers: HeaderMap)
    requires headers.Valid()
    modifies headers
    ensures headers.Valid()
    ensures headers.fields == WithLines(old(headers.fields), COOKIE, SingleLine(Lines(old(headers.fields), COOKIE)))
  {
    var lines := Lines(headers.fields, COOKIE);
    if |lines| >= 2 {
      var joined := JoinCookies(lines);
      headers.Remove(COOKIE);
      var ok := headers.Insert(COOKIE, joined);
    }
  }

  /* -------------------------- the sticky cookie of a request -------------------------- */

  predicate IsSticky(token: string, name: string) {
    name + "=" <= token
  }

  /** A cookie is the sticky one exactly if that is its whole name. */
  lemma StickyByName(key: string, value: string, name: string)
    requires '=' !in key && '=' !in name
    ensures IsSticky(key + "=" + value, name) <==> key == name
  {
    var token := key + "=" + value;
    if name + "=" <= token {
      var rest := token[|name| + 1..];
      assert token == name + ['='] + rest == key + ['='] + value;
      SplitOnceAt(name, '=', rest);
      SplitOnceAt(key, '=', value);
    }
  }

  /** The tokens that are, or are not, the sticky cookie `name`. */
  function Select(tokens: seq<string>, name: string, sticky: bool): seq<string> {
    if tokens == [] then []
    else (if IsSticky(tokens[0], name) == sticky then [tokens[0]] else []) + Select(tokens[1..], name, sticky)
  }

  function NonEmpty(tokens: seq<string>): seq<string> {
    if tokens == [] then []
    else (if tokens[0] == "" then [] else [tokens[0]]) + NonEmpty(tokens[1..])
  }

  /** The Cookie lines sent upstream once the sticky cookie is taken out. */
  function TakenOut(lines: seq<string>, name: string): seq<string> {
    var tokens := Seen(lines);
    if Select(tokens, name, true) == [] then lines
    else
      var rest := Join(Select(tokens, name, false), "; ");
      if rest == "" then [] else [rest]
  }

  /** A token as `Seen` makes it. */
  predicate IsPair(s: string) {
    Tight(s) && ';' !in s && Readable(s)
  }

  predicate ArePairs(tokens: seq<string>) {
    forall i | 0 <= i < |tokens| :: IsPair(tokens[i])
  }

  lemma {:induction false} TrimEndKeeps(s: string)
    requires Readable(s) && ';' !in s && (s == "" || !IsSpace(s[0]))
    ensures IsPair(TrimEnd(s))
  {
    if s != "" && IsSpace(s[|s| - 1]) {
      TrimEndKeeps(s[..|s| - 1]);
    }
  }

  lemma {:induction false} TrimKeeps(s: string)
    requires Readable(s) && ';' !in s
    ensures IsPair(Trim(s))
  {
    if s != "" && IsSpace(s[0]) {
      TrimKeeps(s[1..]);
    } else {
      TrimEndKeeps(s);
    }
  }

  lemma {:induction false} SplitAllClean(s: string)
    requires Readable(s)
    ensures forall i | 0 <= i < |SplitAll(s, ';')| :: Readable(SplitAll(s, ';')[i]) && ';' !in SplitAll(s, ';')[i]
  {
    if s != "" {
      SplitAllClean(s[1..]);
      assert s[0] in s;
    }
  }

  lemma {:induction false} SeenArePairs(lines: seq<string>)
    ensures ArePairs(Seen(lines))
  {
    if lines != [] {
      SeenArePairs(lines[1..]);
      var parts := SplitAll(TextOf(lines[0]), ';');
      SplitAllClean(TextOf(lines[0]));
      forall i | 0 <= i < |parts|
        ensures IsPair(Trim(parts[i]))
      {
        TrimKeeps(parts[i]);
      }
    }
  }

  lemma {:induction false} SelectPairs(tokens: seq<string>, name: string, sticky: bool)
    ensures ArePairs(tokens) ==> ArePairs(Select(tokens, name, sticky))
    ensures forall i | 0 <= i < |Select(tokens, name, sticky)| ::
              IsSticky(Select(tokens, name, sticky)[i], name) == sticky
  {
    if tokens != [] {
      SelectPairs(tokens[1..], name, sticky);
    }
  }

  lemma PairIsItself(s: string)
    requires IsPair(s)
    ensures Pairs(s) == [s] && TextOf(s) == s
  {
    SplitAllNone(s, ';');
    TrimTight(s);
  }

  lemma {:induction false} SeenOfPairs(tokens: seq<string>)
    requires ArePairs(tokens)
    ensures Seen(tokens) == tokens
  {
    if tokens != [] {
      PairIsItself(tokens[0]);
      SeenOfPairs(tokens[1..]);
    }
  }

  lemma JoinEmpty(tokens: seq<string>)
    requires Join(tokens, "; ") == ""
    ensures NonEmpty(tokens) == []
  {
  }

  lemma SeenOfJoin(tokens: seq<string>)
    requires ArePairs(tokens) && Join(tokens, "; ") != ""
    ensures Seen([Join(tokens, "; ")]) == tokens
  {
    var line := Join(tokens, "; ");
    JoinReadable(tokens, "; ");
    PairsOfJoin(tokens);
    SeenOfPairs(tokens);
    assert [line][1..] == [] && Seen([line]) == Pairs(line) + [];
  }

  /** Of the cookies the code finds, the sticky ones go and the others stay in order. */
  lemma TakenOutSeen(lines: seq<string>, name: string)
    ensures NonEmpty(Seen(TakenOut(lines, name))) == NonEmpty(Select(Seen(lines), name, false))
    ensures Select(Seen(TakenOut(lines, name)), name, true) == []
    ensures Select(Seen(lines), name, true) != [] ==> AllReadable(TakenOut(lines, name))
  {
    hide Join, Seen, IsSticky;
    var tokens := Seen(lines);
    var kept := Select(tokens, name, false);
    SeenArePairs(lines);
    SelectPairs(tokens, name, false);
    if Select(tokens, name, true) == [] {
      NoneSelected(tokens, name);
    } else if Join(kept, "; ") == "" {
      JoinEmpty(kept);
      NothingSeen();
    } else {
      SeenOfJoin(kept);
      SelectNone(kept, name);
      JoinReadable(kept, "; ");
    }
  }

  lemma NothingSeen()
    ensures Seen([]) == []
  {
  }

  lemma {:induction false} NoneSelected(tokens: seq<string>, name: string)
    requires Select(tokens, name, true) == []
    ensures Select(tokens, name, false) == tokens
  {
    if tokens != [] {
      NoneSelected(tokens[1..], name);
    }
  }

  lemma {:induction false} SelectNone(tokens: seq<string>, name: string)
    requires forall i | 0 <= i < |tokens| :: !IsSticky(tokens[i], name)
    ensures Select(tokens, name, true) == []
  {
    if tokens != [] {
      SelectNone(tokens[1..], name);
    }
  }

  /* ------------------------- the sticky cookie of a response ------------------------- */

  /** Every earlier sticky line is replaced; when there was none, the new one is appended. */
  function Replaced(lines: seq<string>, name: string, value: string): seq<string> {
    if lines == [] then []
    else [if IsSticky(TextOf(lines[0]), name) then value else lines[0]] + Replaced(lines[1..], name, value)
  }

  function Others(lines: seq<string>, name: string): seq<string> {
    if lines == [] then []
    else (if IsSticky(TextOf(lines[0]), name) then [] else [lines[0]]) + Others(lines[1..], name)
  }

  function WithSticky(lines: seq<string>, name: string, value: string): seq<string> {
    if Others(lines, name) == lines then lines + [value] else Replaced(lines, name, value)
  }

  predicate AnySticky(lines: seq<string>, name: string) {
    exists i | 0 <= i < |lines| :: IsSticky(TextOf(lines[i]), name)
  }

  lemma AnyStickyPush(lines: seq<string>, line: string, name: string)
    ensures AnySticky(lines + [line], name) <==> AnySticky(lines, name) || IsSticky(TextOf(line), name)
  {
    var all := lines + [line];
    assert all[|lines|] == line && forall i | 0 <= i < |lines| :: all[i] == lines[i];
  }

  lemma {:induction false} OthersShorter(lines: seq<string>, name: string)
    ensures |Others(lines, name)| <= |lines|
    ensures |Others(lines, name)| == |lines| <==> Others(lines, name) == lines
    ensures Others(lines, name) == lines <==> !AnySticky(lines, name)
  {
    if lines != [] {
      OthersShorter(lines[1..], name);
      assert lines == [lines[0]] + lines[1..];
      assert AnySticky(lines[1..], name) ==> AnySticky(lines, name);
      assert AnySticky(lines, name) ==> AnySticky(lines[1..], name) || IsSticky(TextOf(lines[0]), name);
    }
  }

  lemma {:induction false} ReplacedLines(lines: seq<string>, name: string, value: string)
    requires IsSticky(TextOf(value), name)
    ensures Others(Replaced(lines, name, value), name) == Others(lines, name)
    ensures forall i | 0 <= i < |Replaced(lines, name, value)| ::
              IsSticky(TextOf(Replaced(lines, name, value)[i]), name) ==> Replaced(lines, name, value)[i] == value
  {
    if lines != [] {
      ReplacedLines(lines[1..], name, value);
      var r := Replaced(lines, name, value);
      assert r[1..] == Replaced(lines[1..], name, value);
    }
  }

  lemma {:induction false} OthersPush(lines: seq<string>, line: string, name: string)
    requires IsSticky(TextOf(line), name)
    ensures Others(lines + [line], name) == Others(lines, name)
  {
    if lines == [] {
      assert ([] + [line])[1..] == [];
    } else {
      OthersPush(lines[1..], line, name);
      assert (lines + [line])[1..] == lines[1..] + [line];
    }
  }

  /** The response keeps every foreign Set-Cookie line in order, and its sticky lines, of which there is
      at least one, all carry the new value. */
  lemma SetStickyKeepsOthers(lines: seq<string>, name: string, value: string)
    requires IsSticky(TextOf(value), name)
    ensures var r := WithSticky(lines, name, value);
            && Others(r, name) == Others(lines, name) && Others(r, name) != r
            && forall i | 0 <= i < |r| :: IsSticky(TextOf(r[i]), name) ==> r[i] == value
  {
    OthersShorter(lines, name);
    ReplacedLines(lines, name, value);
    OthersPush(lines, value, name);
    ReplacedSize(lines, name, value);
  }

  lemma {:induction false} ReplacedAt(lines: seq<string>, name: string, value: string, i: nat)
    requires i < |lines|
    ensures i < |Replaced(lines, name, value)|
    ensures Replaced(lines, name, value)[i] == if IsSticky(TextOf(lines[i]), name) then value else lines[i]
  {
    if i > 0 {
      ReplacedAt(lines[1..], name, value, i - 1);
    }
  }

  /** Line by line: a sticky line becomes the new one where it stands, every other line stays, and only if there
      was no sticky line the new one is added behind them. */
  lemma SetStickyLines(lines: seq<string>, name: string, value: string)
    ensures var r, found := WithSticky(lines, name, value),
                            exists i | 0 <= i < |lines| :: IsSticky(TextOf(lines[i]), name);
            && |r| == |lines| + (if found then 0 else 1)
            && (forall i | 0 <= i < |lines| :: r[i] == if IsSticky(TextOf(lines[i]), name) then value else lines[i])
            && (!found ==> r[|lines|] == value)
  {
    hide IsSticky, TextOf, Replaced;
    OthersShorter(lines, name);
    ReplacedSize(lines, name, value);
    forall i | 0 <= i < |lines|
      ensures Replaced(lines, name, value)[i] == if IsSticky(TextOf(lines[i]), name) then value else lines[i]
    {
      ReplacedAt(lines, name, value, i);
    }
  }

  /** No earlier sticky value survives if and only if no unreadable line was one. */
  lemma SetStickyReplacesExactly(lines: seq<string>, name: string, value: string)
    requires Readable(value) && IsSticky(value, name)
    ensures var r := WithSticky(lines, name, value);
            (forall i | 0 <= i < |r| && IsSticky(r[i], name) :: r[i] == value) <==>
            (forall i | 0 <= i < |lines| && IsSticky(lines[i], name) :: Readable(lines[i]) || lines[i] == value)
  {
    hide IsSticky, Readable, Replaced;
    var r := WithSticky(lines, name, value);
    OthersShorter(lines, name);
    ReplacedSize(lines, name, value);
    EmptyIsNotSticky(name);
    forall i | 0 <= i < |lines|
      ensures r[i] == if IsSticky(TextOf(lines[i]), name) then value else lines[i]
    {
      ReplacedAt(lines, name, value, i);
    }
    assert forall i | |lines| <= i < |r| :: r[i] == value;
  }

  lemma EmptyIsNotSticky(name: string)
    ensures !IsSticky("", name)
  {
  }

  lemma {:induction false} ReplacedSize(lines: seq<string>, name: string, value: string)
    ensures |Replaced(lines, name, value)| == |lines|
  {
    if lines != [] {
      ReplacedSize(lines[1..], name, value);
    }
  }

  lemma NoneReplaced(name: string, value: string)
    ensures Replaced([], name, value) == []
  {
  }

  lemma ReplacedStep(line: string, rest: seq<string>, name: string, value: string)
    ensures Replaced([line] + rest, name, value)
         == [if IsSticky(TextOf(line), name) then value else line] + Replaced(rest, name, value)
  {
    hide IsSticky, TextOf;
    assert ([line] + rest)[1..] == rest;
  }

  lemma {:induction false} ReplacedPush(lines: seq<string>, line: string, name: string, value: string)
    ensures Replaced(lines + [line], name, value)
         == Replaced(lines, name, value) + [if IsSticky(TextOf(line), name) then value else line]
  {
    hide Replaced, IsSticky, TextOf;
    NoneReplaced(name, value);
    if lines == [] {
      assert lines + [line] == [line] + [];
      ReplacedStep(line, [], name, value);
    } else {
      var head, rest := lines[0], lines[1..];
      ReplacedPush(rest, line, name, value);
      assert lines == [head] + rest && lines + [line] == [head] + (rest + [line]);
      ReplacedStep(head, rest, name, value);
      ReplacedStep(head, rest + [line], name, value);
    }
  }

  lemma NoneYet(name: string)
    ensures !AnySticky([], name)
  {
  }

  lemma UpdateAt(done: seq<string>, lines: seq<string>, value: string)
    requires |done| < |lines|
    ensures var i, s := |done|, done + lines[|done|..];
            && s[i := value] == done + [value] + lines[i + 1..]
            && s == done + [lines[i]] + lines[i + 1..]
  {
  }

  lemma ReplaceStep(lines: seq<string>, i: nat, name: string, value: string)
    requires i < |lines| && |Replaced(lines[..i], name, value)| == i
    ensures var out := Replaced(lines[..i], name, value) + lines[i..];
            (if IsSticky(TextOf(lines[i]), name) then out[i := value] else out)
            == Replaced(lines[..i + 1], name, value) + lines[i + 1..]
    ensures |Replaced(lines[..i + 1], name, value)| == i + 1
    ensures AnySticky(lines[..i + 1], name) <==> AnySticky(lines[..i], name) || IsSticky(TextOf(lines[i]), name)
  {
    hide IsSticky, TextOf, Replaced, AnySticky;
    ReplacedPush(lines[..i], lines[i], name, value);
    AnyStickyPush(lines[..i], lines[i], name);
    assert lines[..i] + [lines[i]] == lines[..i + 1];
    UpdateAt(Replaced(lines[..i], name, value), lines, value);
  }

  method ReplaceSticky(lines: seq<string>, name: string, value: string) returns (out: seq<string>, flag: bool)
    ensures out == Replaced(lines, name, value) && (flag <==> Others(lines, name) != lines)
  {
    hide IsSticky, TextOf, Replaced, Others, AnySticky;
    NoneYet(name);
    OthersShorter(lines, name);
    ReplacedSize(lines[..0], name, value);
    assert lines[..0] == [];
    out, flag := lines, false;
    var i := 0;
    while i < |lines|
      invariant 0 <= i <= |lines| && |Replaced(lines[..i], name, value)| == i
      invariant out == Replaced(lines[..i], name, value) + lines[i..]
      invariant flag <==> AnySticky(lines[..i], name)
    {
      ReplaceStep(lines, i, name, value);
      if IsSticky(TextOf(lines[i]), name) {
        out := out[i := value];
        flag := true;
      }
      i := i + 1;
    }
    assert lines[..i] == lines && lines[i..] == [];
  }

  method SetStickyCookie(headers: HeaderMap, name: string, value: string) returns (ok: bool)
    requires headers.Valid()
    modifies headers
    ensures headers.Valid() && ok == ValidValue(value)
    ensures headers.fields
         == if ok then
              old(headers.fields)[SET_COOKIE := WithSticky(Lines(old(headers.fields), SET_COOKIE), name, value)]
            else old(headers.fields)
  {
    if !ValidValue(value) {
      return false;
    }
    if SET_COOKIE !in headers.fields {
      assert WithSticky([], name, value) == [value];
      ok := headers.Insert(SET_COOKIE, value);
      return;
    }
    var lines := headers.fields[SET_COOKIE];
    var out, flag := ReplaceSticky(lines, name, value);
    ReplacedSize(lines, name, value);
    headers.fields := headers.fields[SET_COOKIE := if flag then out else lines + [value]];
    return true;
  }
}
