/** IP addresses, their canonical form (`canonical_address.rs`) and their text. IPv4 text is modelled
    in full; the standard library's IPv6 formatter and parser are a parameter with three laws. */
module IpText {
  import opened Wrappers
  import opened Machine
  import opened HttpText

  datatype V4 = V4(a: byte, b: byte, c: byte, d: byte)
  datatype V6 = V6(s0: u16, s1: u16, s2: u16, s3: u16, s4: u16, s5: u16, s6: u16, s7: u16)
  datatype Ip = Ip4(v4: V4) | Ip6(v6: V6)

  /** `Ipv6Addr::to_ipv4`: the embedded address of `::a.b.c.d` and `::ffff:a.b.c.d`. */
  function Embedded(v: V6): Option<V4> {
    if v.s0 == v.s1 == v.s2 == v.s3 == v.s4 == 0 && (v.s5 == 0 || v.s5 == 0xffff) then
      Some(V4(v.s6 / 256, v.s6 % 256, v.s7 / 256, v.s7 % 256))
    else
      None
  }

  /** `to_canonical`: an embedded IPv4 address replaces the IPv6 one, except `0.0.0.1`, so that the
      IPv6 loopback stays what it is. */
  function Canonical(ip: Ip): Ip {
    match ip
    case Ip4(_) => ip
    case Ip6(v) => match Embedded(v)
      case None => ip
      case Some(e) => if e == V4(0, 0, 0, 1) then ip else Ip4(e)
  }

  predicate IsCanonical(ip: Ip) {
    Canonical(ip) == ip
  }

  /** Canonicalising is a projection: its results, and only those, are unchanged by it. */
  lemma CanonicalIsIdempotent(ip: Ip)
    ensures IsCanonical(Canonical(ip))
    ensures IsCanonical(ip) <==> exists raw :: Canonical(raw) == ip
  {
  }

  /** The compatible and the mapped form of an IPv4 address, in network byte order, mean that address, but for
      `0.0.0.1`; every other address means itself. */
  lemma CanonicalExactly(a: byte, b: byte, c: byte, d: byte, ip: Ip)
    ensures var hi: u16, lo: u16 := 256 * a as int + b as int, 256 * c as int + d as int;
            var compatible, mapped := Ip6(V6(0, 0, 0, 0, 0, 0, hi, lo)), Ip6(V6(0, 0, 0, 0, 0, 0xffff, hi, lo));
            if V4(a, b, c, d) == V4(0, 0, 0, 1) then Canonical(compatible) == compatible && Canonical(mapped) == mapped
            else Canonical(compatible) == Canonical(mapped) == Ip4(V4(a, b, c, d))
    ensures ip.Ip4? ==> Canonical(ip) == ip
    ensures ip.Ip6? && !(ip.v6.s0 == ip.v6.s1 == ip.v6.s2 == ip.v6.s3 == ip.v6.s4 == 0) ==> Canonical(ip) == ip
    ensures ip.Ip6? && ip.v6.s5 != 0 && ip.v6.s5 != 0xffff ==> Canonical(ip) == ip
  {
  }

  /* ------------------------------------ IPv4 text ------------------------------------ */

  /** `push_ipv4`. */
  function Dotted(v: V4): string {
    Dec(v.a) + "." + (Dec(v.b) + "." + (Dec(v.c) + "." + Dec(v.d)))
  }

  /** One to three digits, no leading zero, at most 255. */
  predicate IsOctet(s: string) {
    1 <= |s| <= 3 && (forall c | c in s :: IsDigit(c)) && (|s| == 1 || s[0] != '0') && Value(s) < 256
  }

  function ReadV4(s: string): Option<V4> {
    var p := SplitAll(s, '.');
    if |p| == 4 && IsOctet(p[0]) && IsOctet(p[1]) && IsOctet(p[2]) && IsOctet(p[3]) then
      Some(V4(Value(p[0]), Value(p[1]), Value(p[2]), Value(p[3])))
    else
      None
  }

  lemma OctetRoundTrip(n: byte)
    ensures IsOctet(Dec(n)) && Value(Dec(n)) == n && '.' !in Dec(n) && ':' !in Dec(n)
  {
    DecValue(n);
  }

  lemma V4RoundTrip(v: V4)
    ensures ReadV4(Dotted(v)) == Some(v)
  {
    OctetRoundTrip(v.a);
    OctetRoundTrip(v.b);
    OctetRoundTrip(v.c);
    OctetRoundTrip(v.d);
    SplitAllNone(Dec(v.d), '.');
    SplitAllAt(Dec(v.c), '.', Dec(v.d));
    SplitAllAt(Dec(v.b), '.', Dec(v.c) + "." + Dec(v.d));
    SplitAllAt(Dec(v.a), '.', Dec(v.b) + "." + (Dec(v.c) + "." + Dec(v.d)));
  }

  lemma OctetText(s: string)
    requires IsOctet(s)
    ensures Dec(Value(s)) == s
  {
    DecOfValue(s);
  }

  /** The four numbers in order with dots between them, and no other text, are read as an address. */
  lemma V4TextExactly(s: string, v: V4)
    ensures Dotted(v) == Join([Dec(v.a), Dec(v.b), Dec(v.c), Dec(v.d)], ".")
    ensures ReadV4(s) == Some(v) <==> s == Dotted(v)
  {
    hide Dec, Value;
    V4RoundTrip(v);
    JoinFour(Dec(v.a), Dec(v.b), Dec(v.c), Dec(v.d));
    if ReadV4(s) == Some(v) {
      var p := SplitAll(s, '.');
      OctetText(p[0]);
      OctetText(p[1]);
      OctetText(p[2]);
      OctetText(p[3]);
      JoinSplitAll(s, '.');
      assert p == [p[0], p[1], p[2], p[3]];
    }
  }

  lemma JoinFour(a: string, b: string, c: string, d: string)
    ensures Join([a, b, c, d], ".") == a + "." + (b + "." + (c + "." + d))
  {
    JoinStep([a, b, c, d], a, [b, c, d], ".");
    JoinStep([b, c, d], b, [c, d], ".");
    JoinStep([c, d], c, [d], ".");
    JoinStep([d], d, [], ".");
  }

  predicate IsDottedChar(c: char) {
    IsDigit(c) || c == '.'
  }

  lemma DottedChars(v: V4)
    ensures Dotted(v) != "" && forall c | c in Dotted(v) :: IsDottedChar(c)
  {
  }

  lemma {:induction false} SplitAllCovers(s: string, sep: char, c: char)
    requires c != sep && c in s
    ensures exists i :: 0 <= i < |SplitAll(s, sep)| && c in SplitAll(s, sep)[i]
  {
    if s[0] == c {
      assert c in SplitAll(s, sep)[0];
    } else {
      SplitAllCovers(s[1..], sep, c);
      var i :| 0 <= i < |SplitAll(s[1..], sep)| && c in SplitAll(s[1..], sep)[i];
      if s[0] == sep {
        assert SplitAll(s, sep)[i + 1] == SplitAll(s[1..], sep)[i];
      } else {
        assert c in SplitAll(s, sep)[i];
      }
    }
  }

  lemma V4TextHasNoColon(s: string)
    requires ReadV4(s).Some?
    ensures ':' !in s
  {
    if ':' in s {
      SplitAllCovers(s, '.', ':');
    }
  }

  /* ------------------------------------ IPv6 text ------------------------------------ */

  predicate IsV6Char(c: char) {
    IsDigit(c) || 'a' <= c <= 'f' || c == ':' || c == '.'
  }

  predicate IsV6Text(s: string) {
    (forall c | c in s :: IsV6Char(c)) && 2 <= Count(s, ':')
  }

  datatype Ipv6Text = Ipv6Text(show: V6 -> string, read: string -> Option<V6>) {
    /** Reading undoes showing; the text is lower-case hexadecimal with at least two colons. */
    ghost predicate Lawful() {
      forall v: V6 :: read(show(v)) == Some(v) && IsV6Text(show(v))
    }

    /** `push_ip_addr`. */
    function Show(ip: Ip): string {
      match ip
      case Ip4(v) => Dotted(v)
      case Ip6(v) => show(v)
    }

    /** `IpAddr::from_str`: IPv4 first. */
    function Read(s: string): Option<Ip> {
      match ReadV4(s)
      case Some(v) => Some(Ip4(v))
      case None => match read(s)
        case Some(v) => Some(Ip6(v))
        case None => None
    }

    lemma RoundTrip(ip: Ip)
      requires Lawful()
      ensures Read(Show(ip)) == Some(ip)
    {
      match ip {
        case Ip4(v) => V4RoundTrip(v);
        case Ip6(v) =>
          CountZero(show(v), ':');
          if ReadV4(show(v)).Some? {
            V4TextHasNoColon(show(v));
          }
      }
    }

    /** Shown addresses use few characters, none of which the header syntax cares about. */
    lemma ShowChars(ip: Ip)
      requires Lawful()
      ensures Show(ip) != "" && forall c | c in Show(ip) :: IsV6Char(c)
      ensures ip.Ip6? ==> 2 <= Count(Show(ip), ':')
      ensures ip.Ip4? ==> ':' !in Show(ip)
    {
    }
  }
}
