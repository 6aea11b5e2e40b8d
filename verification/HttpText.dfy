/** Character-level helpers: trimming, splitting, quoting and decimal numbers, as the header code
    uses them. Source strings are UTF-8 and split only at ASCII bytes, so working on characters is
    the same. */
module HttpText {
  import opened Wrappers

  /** Rust's `char::is_whitespace`, the Unicode `White_Space` property. */
  predicate IsSpace(c: char) {
    var n := c as int;
    9 <= n <= 13 || n == 0x20 || n == 0x85 || n == 0xA0 || n == 0x1680 || 0x2000 <= n <= 0x200A
    || n == 0x2028 || n == 0x2029 || n == 0x202F || n == 0x205F || n == 0x3000
  }

  predicate IsDigit(c: char) {
    '0' <= c <= '9'
  }

  predicate IsAlnum(c: char) {
    IsDigit(c) || 'a' <= c <= 'z' || 'A' <= c <= 'Z'
  }

  /** A character of an RFC 7230 token (section 3.2.6). */
  predicate IsTchar(c: char) {
    c in "!#$%&'*+-.^_`|~" || IsAlnum(c)
  }

  function Lower(c: char): char {
    if 'A' <= c <= 'Z' then c + 32 as char else c
  }

  function Lowercase(s: string): (r: string)
    ensures |r| == |s|
  {
    seq(|s|, i requires 0 <= i < |s| => Lower(s[i]))
  }

  predicate EqIgnoreCase(a: string, b: string) {
    Lowercase(a) == Lowercase(b)
  }

  function TrimStart(s: string): string {
    if s != "" && IsSpace(s[0]) then TrimStart(s[1..]) else s
  }

  function TrimEnd(s: string): string {
    if s != "" && IsSpace(s[|s| - 1]) then TrimEnd(s[..|s| - 1]) else s
  }

  function Trim(s: string): string {
    TrimEnd(TrimStart(s))
  }

  /** Neither end of `s` is white space. */
  predicate Tight(s: string) {
    s == "" || (!IsSpace(s[0]) && !IsSpace(s[|s| - 1]))
  }

  lemma TrimTight(s: string)
    requires Tight(s)
    ensures Trim(s) == s
  {
  }

  predicate Blank(s: string) {
    forall c | c in s :: IsSpace(c)
  }

  lemma {:induction false} TrimStartBlank(a: string, s: string)
    requires Blank(a)
    ensures TrimStart(a + s) == TrimStart(s)
  {
    if a == "" {
      assert a + s == s;
    } else {
      assert a[0] in a && (a + s)[1..] == a[1..] + s;
      TrimStartBlank(a[1..], s);
    }
  }

  lemma {:induction false} TrimEndBlank(s: string, b: string)
    requires Blank(b)
    ensures TrimEnd(s + b) == TrimEnd(s)
  {
    if b == "" {
      assert s + b == s;
    } else {
      var n := |b| - 1;
      assert b[n] in b && (s + b)[..|s| + n] == s + b[..n];
      TrimEndBlank(s, b[..n]);
    }
  }

  /** White space is cut off at both ends and nowhere else. */
  lemma TrimPadded(a: string, s: string, b: string)
    requires Blank(a) && Blank(b) && Tight(s)
    ensures Trim(a + s + b) == s
  {
    if s == "" {
      assert a + s + b == (a + b) + "" && forall c | c in a + b :: c in a || c in b;
      TrimStartBlank(a + b, "");
    } else {
      assert a + s + b == a + (s + b) && (s + b)[0] == s[0];
      TrimStartBlank(a, s + b);
      TrimEndBlank(s, b);
    }
  }

  function Count(s: string, c: char): nat {
    if s == "" then 0 else (if s[0] == c then 1 else 0) + Count(s[1..], c)
  }

  lemma {:induction false} CountConcat(a: string, b: string, c: char)
    ensures Count(a + b, c) == Count(a, c) + Count(b, c)
  {
    if a == "" {
      assert a + b == b;
    } else {
      CountConcat(a[1..], b, c);
      assert (a + b)[1..] == a[1..] + b;
    }
  }

  lemma {:induction false} CountZero(s: string, c: char)
    ensures Count(s, c) == 0 <==> c !in s
  {
    if s != "" {
      CountZero(s[1..], c);
      assert s == [s[0]] + s[1..];
    }
  }

  /** `split_once` and `rsplit_once`: around the first, or the last, occurrence of `c`. */
  function SplitOnce(s: string, c: char): Option<(string, string)> {
    if s == "" then None
    else if s[0] == c then Some(("", s[1..]))
    else match SplitOnce(s[1..], c)
      case None => None
      case Some((a, b)) => Some(([s[0]] + a, b))
  }

  function RSplitOnce(s: string, c: char): Option<(string, string)> {
    if s == "" then None
    else if s[|s| - 1] == c then Some((s[..|s| - 1], ""))
    else match RSplitOnce(s[..|s| - 1], c)
      case None => None
      case Some((a, b)) => Some((a, b + [s[|s| - 1]]))
  }

  lemma {:induction false} SplitOnceAt(a: string, c: char, b: string)
    requires c !in a
    ensures SplitOnce(a + [c] + b, c) == Some((a, b))
  {
    var s := a + [c] + b;
    if a == "" {
      assert s[1..] == b;
    } else {
      SplitOnceAt(a[1..], c, b);
      assert s[1..] == a[1..] + [c] + b;
      assert a == [a[0]] + a[1..];
    }
  }

  lemma {:induction false} SplitOnceNone(s: string, c: char)
    ensures SplitOnce(s, c).None? <==> c !in s
  {
    if s != "" {
      SplitOnceNone(s[1..], c);
      assert s == [s[0]] + s[1..];
    }
  }

  lemma {:induction false} RSplitOnceAt(a: string, c: char, b: string)
    requires c !in b
    ensures RSplitOnce(a + [c] + b, c) == Some((a, b))
  {
    var s := a + [c] + b;
    if b == "" {
      assert s[..|s| - 1] == a;
    } else {
      RSplitOnceAt(a, c, b[..|b| - 1]);
      assert s[..|s| - 1] == a + [c] + b[..|b| - 1];
      assert b == b[..|b| - 1] + [b[|b| - 1]];
    }
  }

  lemma {:induction false} RSplitOnceParts(s: string, c: char)
    ensures RSplitOnce(s, c).None? <==> c !in s
    ensures RSplitOnce(s, c).Some? ==>
              var (a, b) := RSplitOnce(s, c).value; s == a + [c] + b && c !in b
  {
    if s != "" {
      RSplitOnceParts(s[..|s| - 1], c);
      assert s == s[..|s| - 1] + [s[|s| - 1]];
    }
  }

  /** `str::split` at every occurrence. */
  function SplitAll(s: string, c: char): (r: seq<string>)
    ensures |r| == Count(s, c) + 1
  {
    if s == "" then [""]
    else
      var rest := SplitAll(s[1..], c);
      if s[0] == c then [""] + rest else [[s[0]] + rest[0]] + rest[1..]
  }

  lemma {:induction false} SplitAllAt(a: string, c: char, b: string)
    requires c !in a
    ensures SplitAll(a + [c] + b, c) == [a] + SplitAll(b, c)
  {
    var s := a + [c] + b;
    if a == "" {
      assert s[1..] == b;
    } else {
      SplitAllAt(a[1..], c, b);
      assert s[1..] == a[1..] + [c] + b;
      assert a == [a[0]] + a[1..];
    }
  }

  lemma {:induction false} SplitAllNone(s: string, c: char)
    requires c !in s
    ensures SplitAll(s, c) == [s]
  {
    if s != "" {
      SplitAllNone(s[1..], c);
      assert s == [s[0]] + s[1..];
    }
  }

  lemma {:induction false} SplitAllConcat(a: string, c: char, b: string)
    ensures SplitAll(a + [c] + b, c) == SplitAll(a, c) + SplitAll(b, c)
  {
    var s := a + [c] + b;
    if a == "" {
      assert s[1..] == b;
    } else {
      SplitAllConcat(a[1..], c, b);
      assert s[1..] == a[1..] + [c] + b;
      SplitAllStep(s[0], SplitAll(a[1..], c), SplitAll(b, c), c);
    }
  }

  lemma SplitAllStep(x: char, rest: seq<string>, more: seq<string>, c: char)
    requires rest != []
    ensures (if x == c then [""] + (rest + more) else [[x] + (rest + more)[0]] + (rest + more)[1..])
         == (if x == c then [""] + rest else [[x] + rest[0]] + rest[1..]) + more
  {
  }

  function Join(parts: seq<string>, sep: string): string {
    if parts == [] then ""
    else if |parts| == 1 then parts[0]
    else parts[0] + sep + Join(parts[1..], sep)
  }

  lemma Assoc(a: seq<string>, b: seq<string>, c: seq<string>)
    ensures a + (b + c) == a + b + c
  {
  }

  lemma JoinStep(parts: seq<string>, head: string, rest: seq<string>, sep: string)
    requires parts != [] && parts[0] == head && parts[1..] == rest
    ensures Join(parts, sep) == if rest == [] then head else head + sep + Join(rest, sep)
  {
  }

  lemma {:induction false} JoinConcat(a: seq<string>, b: seq<string>, sep: string)
    requires a != [] && b != []
    ensures Join(a + b, sep) == Join(a, sep) + sep + Join(b, sep)
  {
    hide Join;
    var head, rest := a[0], a[1..];
    assert (a + b)[1..] == rest + b;
    JoinStep(a, head, rest, sep);
    JoinStep(a + b, head, rest + b, sep);
    if rest == [] {
      assert rest + b == b;
    } else {
      JoinConcat(rest, b, sep);
      assert head + sep + (Join(rest, sep) + sep + Join(b, sep)) == head + sep + Join(rest, sep) + sep + Join(b, sep);
    }
  }

  lemma JoinPush(parts: seq<string>, s: string, sep: string)
    ensures Join(parts + [s], sep) == if parts == [] then s else Join(parts, sep) + sep + s
  {
    hide Join;
    JoinStep([s], s, [], sep);
    if parts == [] {
      assert parts + [s] == [s];
    } else {
      JoinConcat(parts, [s], sep);
    }
  }

  /** Joining undoes splitting. */
  lemma {:induction false} JoinSplitAll(s: string, c: char)
    ensures Join(SplitAll(s, c), [c]) == s
  {
    if s == "" {
      JoinStep([""], "", [], [c]);
    } else {
      hide Join;
      var rest := SplitAll(s[1..], c);
      JoinSplitAll(s[1..], c);
      JoinStep(rest, rest[0], rest[1..], [c]);
      if s[0] == c {
        JoinStep([""] + rest, "", rest, [c]);
        assert s == "" + [c] + s[1..];
      } else {
        JoinStep([[s[0]] + rest[0]] + rest[1..], [s[0]] + rest[0], rest[1..], [c]);
        assert s == [s[0]] + s[1..];
        assert [s[0]] + (rest[0] + [c] + Join(rest[1..], [c])) == [s[0]] + rest[0] + [c] + Join(rest[1..], [c]);
      }
    }
  }

  /* --------------------------------- decimal numbers --------------------------------- */

  function Digit(n: nat): char
    requires n < 10
  {
    '0' + n as char
  }

  function Dec(n: nat): (s: string)
    ensures s != "" && forall c | c in s :: IsDigit(c)
  {
    if n < 10 then [Digit(n)] else Dec(n / 10) + [Digit(n % 10)]
  }

  function Value(s: string): nat
    requires forall c | c in s :: IsDigit(c)
  {
    if s == "" then 0
    else
      assert IsDigit(s[|s| - 1]);
      10 * Value(s[..|s| - 1]) + (s[|s| - 1] as int - '0' as int)
  }

  /** Leading zeros do not count. */
  lemma {:induction false} ValueOfPadded(zeros: string, s: string)
    requires (forall c | c in zeros :: c == '0') && (forall c | c in s :: IsDigit(c))
    ensures (forall c | c in zeros + s :: IsDigit(c)) && Value(zeros + s) == Value(s)
    decreases |s| + |zeros|
  {
    var t := zeros + s;
    assert forall c | c in t :: c in zeros || c in s;
    var n := |t| - 1;
    if s != "" {
      assert t[..n] == zeros + s[..|s| - 1] && t[n] == s[|s| - 1];
      ValueOfPadded(zeros, s[..|s| - 1]);
    } else if zeros != "" {
      assert t[..n] == zeros[..n] + s && t[n] == zeros[n] && zeros[n] in zeros;
      assert forall c | c in zeros[..n] :: c in zeros;
      ValueOfPadded(zeros[..n], s);
    }
  }

  /** Reading a number and printing it again, if it was written without leading zeros. */
  lemma {:induction false} DecOfValue(s: string)
    requires s != "" && (forall c | c in s :: IsDigit(c)) && (|s| == 1 || s[0] != '0')
    ensures Dec(Value(s)) == s && (s[0] != '0' ==> Value(s) > 0)
  {
    var n := |s| - 1;
    assert s == s[..n] + [s[n]] && s[n] in s && s[0] in s;
    if n > 0 {
      DecOfValue(s[..n]);
      assert Value(s) / 10 == Value(s[..n]) && Value(s) % 10 == s[n] as int - '0' as int;
    } else {
      assert s[..n] == "";
    }
  }

  /** Printing a number and reading it back; only zero is printed with a leading `0`. */
  lemma {:induction false} DecValue(n: nat)
    ensures Value(Dec(n)) == n
    ensures (n < 10 ==> |Dec(n)| == 1) && (n < 100 ==> |Dec(n)| <= 2) && (n < 1000 ==> |Dec(n)| <= 3)
    ensures (n < 10000 ==> |Dec(n)| <= 4) && (n < 100000 ==> |Dec(n)| <= 5)
    ensures Dec(n)[0] == '0' ==> n == 0
  {
    if n >= 10 {
      DecValue(n / 10);
      var s := Dec(n);
      assert s[..|s| - 1] == Dec(n / 10);
    }
  }
}
