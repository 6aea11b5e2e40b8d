/** Header fields: which texts are legal values, which can be read back as text, and the map of
    field lines that the header code rewrites in place. */
module Headers {
  import opened HttpText

  /** `HeaderValue::to_str` accepts visible ASCII, space and tab. */
  predicate IsReadableChar(c: char) {
    ' ' <= c <= '~' || c == '\t'
  }

  predicate Readable(s: string) {
    forall c | c in s :: IsReadableChar(c)
  }

  /** `HeaderValue::from_str` refuses control characters other than tab, and DEL. */
  predicate IsValidChar(c: char) {
    (' ' <= c && c as int != 127) || c == '\t'
  }

  predicate ValidValue(s: string) {
    forall c | c in s :: IsValidChar(c)
  }

  /** The header names the proxy itself reads or writes, and all others. */
  datatype Name =
    | FORWARDED | X_FORWARDED_FOR | X_FORWARDED_PROTO | X_FORWARDED_PORT | X_FORWARDED_SSL | X_FORWARDED_HOST
    | X_ORIGINAL_URI | X_REAL_IP | PROXY | HOST | UPGRADE_INSECURE_REQUESTS | COOKIE | SET_COOKIE
    | Other(text: string)

  /** Field lines by name, in order; a present name has at least one line. */
  type Fields = map<Name, seq<string>>

  function Lines(h: Fields, name: Name): seq<string> {
    if name in h then h[name] else []
  }

  /** The field `name` has exactly these lines. */
  function WithLines(h: Fields, name: Name, lines: seq<string>): Fields {
    if lines == [] then h - {name} else h[name := lines]
  }

  class HeaderMap {
    var fields: Fields

    ghost predicate Valid()
      reads this
    {
      forall n | n in fields :: fields[n] != []
    }

    /** Replace every line of `name` by one value, refusing text that is not a header value. */
    method Insert(name: Name, value: string) returns (ok: bool)
      requires Valid()
      modifies this
      ensures Valid() && ok == ValidValue(value)
      ensures fields == if ok then old(fields)[name := [value]] else old(fields)
    {
      ok := ValidValue(value);
      if ok {
        fields := fields[name := [value]];
      }
    }

    method Remove(name: Name)
      requires Valid()
      modifies this
      ensures Valid() && fields == old(fields) - {name}
    {
      fields := fields - {name};
    }
  }

  datatype Field = Missing | Unreadable | Text(text: string)

  predicate AllReadable(lines: seq<string>) {
    forall i | 0 <= i < |lines| :: Readable(lines[i])
  }

  /** `join_header_values`: all lines joined, or an error if any line is unreadable. */
  function JoinedField(lines: seq<string>): Field {
    if lines == [] then Missing
    else if AllReadable(lines) then Text(Join(lines, ", "))
    else Unreadable
  }

  method JoinHeaderValues(lines: seq<string>) returns (r: Field)
    ensures r == JoinedField(lines)
  {
    if lines == [] {
      return Missing;
    }
    if !Readable(lines[0]) {
      return Unreadable;
    }
    var joined, i := lines[0], 1;
    while i < |lines|
      invariant 1 <= i <= |lines| && AllReadable(lines[..i]) && joined == Join(lines[..i], ", ")
    {
      if !Readable(lines[i]) {
        return Unreadable;
      }
      JoinPush(lines[..i], lines[i], ", ");
      assert lines[..i] + [lines[i]] == lines[..i + 1];
      joined := joined + ", " + lines[i];
      i := i + 1;
    }
    assert lines[..i] == lines;
    return Text(joined);
  }

  lemma {:induction false} JoinReadable(parts: seq<string>, sep: string)
    requires AllReadable(parts) && Readable(sep)
    ensures Readable(Join(parts, sep))
  {
    if |parts| > 1 {
      JoinReadable(parts[1..], sep);
    }
  }

  lemma ReadableIsValid(s: string)
    requires Readable(s)
    ensures ValidValue(s)
  {
  }
}
