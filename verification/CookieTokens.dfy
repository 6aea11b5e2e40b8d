/** The cookies of a request as its Cookie lines spell them, and what becomes of them. A line that is not
    readable text counts as empty in the code, so that its cookies can be lost or pass unseen. */
module CookieTokens {
  import opened HttpText
  import opened Headers
  import opened Cookies

  /* ----------------------------- the cookies on the wire ----------------------------- */

  predicate IsOws(c: char) {
    c == ' ' || c == '\t'
  }

  function StripEnd(s: string): string {
    if s != "" && IsOws(s[|s| - 1]) then StripEnd(s[..|s| - 1]) else s
  }

  function Strip(s: string): string {
    if s != "" && IsOws(s[0]) then Strip(s[1..]) else StripEnd(s)
  }

  function Stripped(parts: seq<string>): seq<string> {
    seq(|parts|, i requires 0 <= i < |parts| => Strip(parts[i]))
  }

  /** The cookies of all lines, in order, whatever their characters. */
  function Tokens(lines: seq<string>): seq<string> {
    if lines == [] then [] else Stripped(SplitAll(lines[0], ';')) + Tokens(lines[1..])
  }

  /** The lines that are, or are not, readable. */
  function Legible(lines: seq<string>, readable: bool): seq<string> {
    if lines == [] then []
    else (if Readable(lines[0]) == readable then [lines[0]] else []) + Legible(lines[1..], readable)
  }

  function Sticky(lines: seq<string>, name: string): seq<string> {
    Select(Tokens(lines), name, true)
  }

  /** The cookies meant for the upstream. */
  function Foreign(lines: seq<string>, name: string): seq<string> {
    NonEmpty(Select(Tokens(lines), name, false))
  }

  /* ------------------------------ readable text ------------------------------ */

  lemma {:induction false} StripEndIsTrim(s: string)
    requires Readable(s)
    ensures StripEnd(s) == TrimEnd(s)
  {
    if s != "" {
      assert s[|s| - 1] in s;
      StripEndIsTrim(s[..|s| - 1]);
    }
  }

  lemma {:induction false} StripIsTrim(s: string)
    requires Readable(s)
    ensures Strip(s) == Trim(s)
  {
    if s != "" && IsOws(s[0]) {
      StripIsTrim(s[1..]);
    } else {
      assert s != "" ==> s[0] in s;
      StripEndIsTrim(s);
    }
  }

  lemma ReadableLine(line: string)
    requires Readable(line)
    ensures Stripped(SplitAll(line, ';')) == Pairs(line)
  {
    var parts := SplitAll(line, ';');
    SplitAllClean(line);
    forall i | 0 <= i < |parts|
      ensures Strip(parts[i]) == Trim(parts[i])
    {
      StripIsTrim(parts[i]);
    }
  }

  lemma {:induction false} ReadableTokens(lines: seq<string>)
    requires AllReadable(lines)
    ensures Tokens(lines) == Seen(lines)
  {
    hide SplitAll;
    if lines != [] {
      ReadableLine(lines[0]);
      ReadableTokens(lines[1..]);
    }
  }

  /** The code finds the cookies of the readable lines, and an empty one for every other line. */
  lemma {:induction false} SeenIsLegible(lines: seq<string>, name: string)
    ensures Select(Seen(lines), name, true) == Sticky(Legible(lines, true), name)
    ensures NonEmpty(Select(Seen(lines), name, false)) == Foreign(Legible(lines, true), name)
    ensures NonEmpty(Seen(lines)) == NonEmpty(Tokens(Legible(lines, true)))
  {
    hide SplitAll, Stripped, Pairs, IsSticky;
    if lines != [] {
      var line, rest := lines[0], lines[1..];
      SeenIsLegible(rest, name);
      SelectConcat(Pairs(TextOf(line)), Seen(rest), name);
      NonEmptyConcat(Pairs(TextOf(line)), Seen(rest));
      NonEmptyConcat(Select(Pairs(TextOf(line)), name, false), Select(Seen(rest), name, false));
      if Readable(line) {
        ReadableLine(line);
        var more := Tokens(Legible(rest, true));
        assert ([line] + Legible(rest, true))[1..] == Legible(rest, true);
        SelectConcat(Pairs(line), more, name);
        NonEmptyConcat(Pairs(line), more);
        NonEmptyConcat(Select(Pairs(line), name, false), Select(more, name, false));
      } else {
        EmptyLine(name);
        assert [] + Select(Seen(rest), name, true) == Select(Seen(rest), name, true);
        assert [] + NonEmpty(Seen(rest)) == NonEmpty(Seen(rest));
        assert [] + NonEmpty(Select(Seen(rest), name, false)) == NonEmpty(Select(Seen(rest), name, false));
        assert [] + Legible(rest, true) == Legible(rest, true);
      }
    }
  }

  lemma EmptyLine(name: string)
    ensures Pairs("") == [""] && Select([""], name, true) == [] && NonEmpty([""]) == []
    ensures NonEmpty(Select([""], name, false)) == []
  {
    assert SplitAll("", ';') == [""] && [""][1..] == [] && !IsSticky("", name);
    assert Select([""], name, false) == [""] + [];
  }

  lemma {:induction false} SelectConcatOf(a: seq<string>, b: seq<string>, name: string, sticky: bool)
    ensures Select(a + b, name, sticky) == Select(a, name, sticky) + Select(b, name, sticky)
  {
    hide IsSticky;
    if a == [] {
      assert a + b == b && [] + Select(b, name, sticky) == Select(b, name, sticky);
    } else {
      SelectConcatOf(a[1..], b, name, sticky);
      assert (a + b)[1..] == a[1..] + b && (a + b)[0] == a[0];
      Assoc(if IsSticky(a[0], name) == sticky then [a[0]] else [], Select(a[1..], name, sticky),
            Select(b, name, sticky));
    }
  }

  lemma SelectConcat(a: seq<string>, b: seq<string>, name: string)
    ensures Select(a + b, name, true) == Select(a, name, true) + Select(b, name, true)
    ensures Select(a + b, name, false) == Select(a, name, false) + Select(b, name, false)
  {
    SelectConcatOf(a, b, name, true);
    SelectConcatOf(a, b, name, false);
  }

  lemma {:induction false} NonEmptyConcat(a: seq<string>, b: seq<string>)
    ensures NonEmpty(a + b) == NonEmpty(a) + NonEmpty(b)
  {
    if a == [] {
      assert a + b == b && [] + NonEmpty(b) == NonEmpty(b);
    } else {
      NonEmptyConcat(a[1..], b);
      assert (a + b)[1..] == a[1..] + b && (a + b)[0] == a[0];
      Assoc(if a[0] == "" then [] else [a[0]], NonEmpty(a[1..]), NonEmpty(b));
    }
  }

  /* --------------------------- what unreadable lines hold --------------------------- */

  lemma {:induction false} StripEndKeeps(s: string)
    requires !Readable(s)
    ensures !Readable(StripEnd(s))
  {
    if s != "" && IsOws(s[|s| - 1]) {
      StripEndKeeps(s[..|s| - 1]);
    }
  }

  lemma {:induction false} StripKeeps(s: string)
    requires !Readable(s)
    ensures !Readable(Strip(s))
  {
    if s != "" && IsOws(s[0]) {
      assert s == [s[0]] + s[1..];
      StripKeeps(s[1..]);
    } else {
      StripEndKeeps(s);
    }
  }

  lemma {:induction false} UnreadablePart(line: string) returns (i: nat)
    requires !Readable(line)
    ensures i < |SplitAll(line, ';')| && !Readable(SplitAll(line, ';')[i])
  {
    var rest := SplitAll(line[1..], ';');
    assert line == [line[0]] + line[1..];
    if !IsReadableChar(line[0]) {
      i := 0;
      assert line[0] in SplitAll(line, ';')[0];
    } else {
      var k := UnreadablePart(line[1..]);
      i := if line[0] == ';' then k + 1 else k;
      if line[0] != ';' && k == 0 {
        assert SplitAll(line, ';')[0] == [line[0]] + rest[0];
      }
    }
  }

  /** An unreadable line holds an unreadable, and so not empty, cookie. */
  lemma UnreadableToken(line: string) returns (token: string)
    requires !Readable(line)
    ensures token in Stripped(SplitAll(line, ';')) && !Readable(token)
  {
    var i := UnreadablePart(line);
    StripKeeps(SplitAll(line, ';')[i]);
    token := Stripped(SplitAll(line, ';'))[i];
  }

  lemma {:induction false} TokensMember(lines: seq<string>, i: nat, token: string)
    requires i < |lines| && token in Stripped(SplitAll(lines[i], ';'))
    ensures token in Tokens(lines)
  {
    if i > 0 {
      TokensMember(lines[1..], i - 1, token);
    }
  }

  lemma {:induction false} NonEmptyMember(tokens: seq<string>, token: string)
    ensures token in NonEmpty(tokens) <==> token in tokens && token != ""
  {
    if tokens != [] {
      NonEmptyMember(tokens[1..], token);
      assert tokens == [tokens[0]] + tokens[1..];
    }
  }

  lemma {:induction false} SelectMember(tokens: seq<string>, name: string, sticky: bool, token: string)
    ensures token in Select(tokens, name, sticky) <==> token in tokens && IsSticky(token, name) == sticky
  {
    hide IsSticky;
    if tokens != [] {
      SelectMember(tokens[1..], name, sticky, token);
      assert tokens == [tokens[0]] + tokens[1..];
    }
  }

  /** Readable lines hold readable cookies. */
  lemma ReadableMember(lines: seq<string>, token: string)
    requires AllReadable(lines) && token in Tokens(lines)
    ensures Readable(token)
  {
    ReadableTokens(lines);
    SeenArePairs(lines);
    assert IsPair(token);
  }

  lemma {:induction false} LegibleLines(lines: seq<string>)
    ensures AllReadable(Legible(lines, true))
    ensures AllReadable(lines) ==> Legible(lines, true) == lines && Legible(lines, false) == []
  {
    if lines != [] {
      LegibleLines(lines[1..]);
      assert lines == [lines[0]] + lines[1..];
    }
  }

  /** The two kinds of lines share out the cookies. */
  lemma {:induction false} LegibleCounts(lines: seq<string>, name: string)
    ensures |Sticky(lines, name)| == |Sticky(Legible(lines, true), name)| + |Sticky(Legible(lines, false), name)|
    ensures |Foreign(lines, name)| == |Foreign(Legible(lines, true), name)| + |Foreign(Legible(lines, false), name)|
    ensures Foreign(Legible(lines, false), name) == [] ==> Foreign(lines, name) == Foreign(Legible(lines, true), name)
    ensures forall x | x in Sticky(Legible(lines, true), name) :: x in Sticky(lines, name)
  {
    hide SplitAll, Stripped, IsSticky;
    if lines != [] {
      var line, rest := lines[0], lines[1..];
      LegibleCounts(rest, name);
      LineShare(line, rest, name);
      LineShare(line, Legible(rest, Readable(line)), name);
      var other := Legible(rest, !Readable(line));
      assert [] + other == other && Legible(lines, !Readable(line)) == other;
      assert Legible(lines, Readable(line)) == [line] + Legible(rest, Readable(line));
    }
  }

  /** What one line adds. */
  lemma LineShare(line: string, rest: seq<string>, name: string)
    ensures Sticky([line] + rest, name) == Sticky([line], name) + Sticky(rest, name)
    ensures Foreign([line] + rest, name) == Foreign([line], name) + Foreign(rest, name)
  {
    hide IsSticky;
    var tokens := Stripped(SplitAll(line, ';'));
    assert ([line] + rest)[1..] == rest && [line][1..] == [] && tokens + [] == tokens;
    assert Tokens([]) == [] && Tokens([line]) == tokens && Tokens([line] + rest) == tokens + Tokens(rest);
    SelectConcat(tokens, Tokens(rest), name);
    NonEmptyConcat(Select(tokens, name, false), Select(Tokens(rest), name, false));
  }

  /* ------------------------------------ merging ------------------------------------ */

  /** Two or more lines are merged into one readable line with the cookies of the readable ones. */
  lemma MergedTokens(lines: seq<string>)
    requires |lines| >= 2
    ensures AllReadable(SingleLine(lines))
    ensures NonEmpty(Tokens(SingleLine(lines))) == NonEmpty(Tokens(Legible(lines, true)))
  {
    hide Join, SplitAll, Stripped, Legible, Seen;
    JoinReadable(Texts(lines), "; ");
    ReadableTokens(SingleLine(lines));
    MergingIsNotSeen(lines);
    SeenIsLegible(lines, "");
  }

  /** Merging keeps every cookie if and only if there are fewer than two lines or all are readable. */
  lemma SingleLineKeepsCookies(lines: seq<string>)
    ensures |SingleLine(lines)| <= 1
    ensures NonEmpty(Tokens(SingleLine(lines))) == NonEmpty(Tokens(lines)) <==> |lines| < 2 || AllReadable(lines)
  {
    hide Tokens, SplitAll, Stripped;
    if |lines| >= 2 {
      MergedTokens(lines);
      LegibleLines(lines);
      if !AllReadable(lines) {
        var i :| 0 <= i < |lines| && !Readable(lines[i]);
        var token := UnreadableToken(lines[i]);
        TokensMember(lines, i, token);
        NonEmptyMember(Tokens(lines), token);
        NotAmongReadable(SingleLine(lines), token);
      }
    }
  }

  lemma NotAmongReadable(lines: seq<string>, token: string)
    requires AllReadable(lines) && !Readable(token)
    ensures token !in NonEmpty(Tokens(lines))
  {
    NonEmptyMember(Tokens(lines), token);
    if token in Tokens(lines) {
      ReadableMember(lines, token);
    }
  }

  /** A cookie that is not ASCII, as some clients send. */
  const ACCENT: string := "x=\U{e9}"

  lemma AccentFacts()
    ensures !Readable(ACCENT) && SplitAll(ACCENT, ';') == [ACCENT] && Strip(ACCENT) == ACCENT
  {
    assert ACCENT[2] in ACCENT && !IsReadableChar(ACCENT[2]);
    SplitAllNone(ACCENT, ';');
  }

  lemma PlainIsReadable()
    ensures Readable("b=1")
  {
  }

  lemma AccentIsMergedAway()
    ensures SingleLine([ACCENT, "b=1"]) == ["; b=1"]
  {
    hide Readable;
    var lines := [ACCENT, "b=1"];
    AccentFacts();
    PlainIsReadable();
    var texts := Texts(lines);
    assert texts == ["", "b=1"] && texts[1..] == ["b=1"];
    assert Join(["b=1"], "; ") == "b=1" && Join(texts, "; ") == "" + "; " + "b=1" == "; b=1";
  }

  /** A cookie is lost: it stands on a line that is not ASCII, next to another line. */
  lemma MergingLosesACookie()
    ensures var lines := [ACCENT, "b=1"];
            SingleLine(lines) == ["; b=1"] && ACCENT in Tokens(lines) && ACCENT !in Tokens(SingleLine(lines))
  {
    hide SingleLine, Tokens, SplitAll, Strip, Readable;
    var lines := [ACCENT, "b=1"];
    AccentFacts();
    AccentIsMergedAway();
    assert Stripped(SplitAll(lines[0], ';'))[0] == ACCENT;
    TokensMember(lines, 0, ACCENT);
    MergedTokens(lines);
    NonEmptyMember(Tokens(SingleLine(lines)), ACCENT);
    NotAmongReadable(SingleLine(lines), ACCENT);
  }

  /* ------------------------------------ taking out ------------------------------------ */

  /** The sticky cookie stands on no readable line, so that the code does not see it. */
  predicate Unseen(lines: seq<string>, name: string) {
    Sticky(Legible(lines, true), name) == []
  }

  /** What the takeout does: nothing if it sees no sticky cookie; otherwise the upstream gets what else the
      readable lines hold. */
  lemma TakenOutTokens(lines: seq<string>, name: string)
    ensures Unseen(lines, name) ==> TakenOut(lines, name) == lines
    ensures !Unseen(lines, name) ==> Sticky(TakenOut(lines, name), name) == []
                                     && Foreign(TakenOut(lines, name), name) == Foreign(Legible(lines, true), name)
  {
    hide Tokens, Seen, IsSticky;
    SeenIsLegible(lines, name);
    TakenOutSeen(lines, name);
    if !Unseen(lines, name) {
      var out := TakenOut(lines, name);
      ReadableTokens(out);
      NoneSelected(Tokens(out), name);
    }
  }

  /** The sticky cookie goes upstream if and only if it stands on unreadable lines only. */
  lemma StickyIsForwardedExactly(lines: seq<string>, name: string)
    ensures Sticky(TakenOut(lines, name), name) != [] <==> Unseen(lines, name) && Sticky(lines, name) != []
  {
    TakenOutTokens(lines, name);
  }

  lemma {:induction false} StickyCounts(tokens: seq<string>, name: string)
    ensures |NonEmpty(tokens)| == |Select(tokens, name, true)| + |NonEmpty(Select(tokens, name, false))|
  {
    if tokens != [] {
      StickyCounts(tokens[1..], name);
      assert tokens[0] == "" ==> !IsSticky(tokens[0], name);
      NonEmptyConcat(if IsSticky(tokens[0], name) then [] else [tokens[0]], Select(tokens[1..], name, false));
    }
  }

  /** The upstream gets exactly the cookies meant for it if and only if: when no readable line holds the
      sticky cookie, no line does; and otherwise the unreadable lines hold nothing else. */
  lemma TakeoutKeepsOthersExactly(lines: seq<string>, name: string)
    ensures NonEmpty(Tokens(TakenOut(lines, name))) == Foreign(lines, name) <==>
              if Unseen(lines, name) then Sticky(lines, name) == [] else Foreign(Legible(lines, false), name) == []
  {
    hide Tokens, Legible, IsSticky;
    TakenOutTokens(lines, name);
    StickyCounts(Tokens(lines), name);
    LegibleCounts(lines, name);
    var out := TakenOut(lines, name);
    if Unseen(lines, name) {
      if Sticky(lines, name) == [] {
        NoneSelected(Tokens(lines), name);
      }
    } else {
      NoneSelected(Tokens(out), name);
    }
  }

  lemma UnreadableTail(a: string, b: string)
    requires !Readable(b)
    ensures !Readable(a + b)
  {
    var c :| c in b && !IsReadableChar(c);
    assert c in a + b;
  }

  /** A sticky cookie that shares its line with one non-ASCII cookie goes upstream. */
  lemma StickyPassesUnseen()
    ensures var lines := ["s=1;" + ACCENT];
            TakenOut(lines, "s") == lines && "s=1" in Sticky(lines, "s")
  {
    hide Readable, Tokens, TakenOut, SplitAll;
    var line := "s=1;" + ACCENT;
    AccentFacts();
    UnreadableTail("s=1;", ACCENT);
    assert [line][1..] == [] && Legible([line], true) == [];
    NothingSticky("s");
    TakenOutTokens([line], "s");
    assert line == "s=1" + [';'] + ACCENT;
    SplitAllAt("s=1", ';', ACCENT);
    assert Stripped(SplitAll(line, ';'))[0] == Strip("s=1") == "s=1";
    TokensMember([line], 0, "s=1");
    SelectMember(Tokens([line]), "s", true, "s=1");
  }

  /** An old sticky value that shares its Set-Cookie line with text that is not ASCII survives the new one. */
  lemma OldStickySurvives()
    ensures var line := "s=1;" + ACCENT;
            WithSticky([line], "s", "s=2") == [line, "s=2"] && IsSticky(line, "s")
  {
    hide Readable;
    var line := "s=1;" + ACCENT;
    AccentFacts();
    UnreadableTail("s=1;", ACCENT);
    assert TextOf(line) == "" && !IsSticky("", "s") && [line][1..] == [];
    assert Others([], "s") == [] && Others([line], "s") == [line] + [];
  }

  /* ------------------------- a request: merged, then taken out ------------------------- */

  /** The sticky cookie of a request goes upstream if and only if the request has a single Cookie line, which
      holds it and is not readable. */
  lemma RequestForwardsStickyExactly(lines: seq<string>, name: string)
    ensures Sticky(TakenOut(SingleLine(lines), name), name) != [] <==>
              |lines| == 1 && !Readable(lines[0]) && Sticky(lines, name) != []
  {
    hide Tokens;
    StickyIsForwardedExactly(SingleLine(lines), name);
    LegibleLines(SingleLine(lines));
    if |lines| >= 2 {
      MergedTokens(lines);
    } else if |lines| == 1 {
      assert lines == [lines[0]] && [lines[0]][1..] == [] && (AllReadable(lines) <==> Readable(lines[0]));
      assert Legible([], true) == [] && (Legible(lines, true) == if Readable(lines[0]) then lines else []);
    }
    NothingSticky(name);
  }

  lemma NothingSticky(name: string)
    ensures Sticky([], name) == [] && Foreign([], name) == []
  {
  }

  /** The upstream gets exactly the cookies meant for it if and only if: a single line is readable or holds
      no sticky cookie; of several, the unreadable ones hold nothing but sticky cookies. */
  lemma RequestKeepsOthersExactly(lines: seq<string>, name: string)
    ensures NonEmpty(Tokens(TakenOut(SingleLine(lines), name))) == Foreign(lines, name) <==>
              if |lines| == 1 then Readable(lines[0]) || Sticky(lines, name) == []
              else Foreign(Legible(lines, false), name) == []
  {
    hide Tokens, SplitAll, Select, NonEmpty, TakenOut;
    NothingSticky(name);
    LegibleLines(lines);
    if |lines| <= 1 {
      TakeoutKeepsOthersExactly(lines, name);
      if |lines| == 1 {
        assert lines == [lines[0]] && [lines[0]][1..] == [] && (AllReadable(lines) <==> Readable(lines[0]));
        assert Legible([], true) == [] && (Legible(lines, true) == if Readable(lines[0]) then lines else []);
      }
    } else {
      MergedRequest(lines, name);
      LegibleCounts(lines, name);
    }
  }

  /** Of several lines the upstream gets what the readable ones hold for it. */
  lemma MergedRequest(lines: seq<string>, name: string)
    requires |lines| >= 2
    ensures NonEmpty(Tokens(TakenOut(SingleLine(lines), name))) == Foreign(Legible(lines, true), name)
  {
    hide Join, SplitAll, Stripped, IsSticky;
    var line := SingleLine(lines);
    MergedTokens(lines);
    LegibleLines(line);
    TakeoutKeepsOthersExactly(line, name);
    NothingSticky(name);
    MergingIsNotSeen(lines);
    SeenIsLegible(lines, name);
    ReadableTokens(line);
  }
}
