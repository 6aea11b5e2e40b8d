/** base64url without padding, decoded strictly: no padding, no stray trailing bits. */
module Base64Url {
  import opened Wrappers
  import opened Machine

  type Sextet = x: int | 0 <= x < 64

  function Letter(d: Sextet): char {
    if d < 26 then 'A' + d as char
    else if d < 52 then 'a' + (d - 26) as char
    else if d < 62 then '0' + (d - 52) as char
    else if d == 62 then '-' else '_'
  }

  function Index(c: char): Option<Sextet> {
    if 'A' <= c <= 'Z' then Some(c as int - 'A' as int)
    else if 'a' <= c <= 'z' then Some(c as int - 'a' as int + 26)
    else if '0' <= c <= '9' then Some(c as int - '0' as int + 52)
    else if c == '-' then Some(62)
    else if c == '_' then Some(63) else None
  }

  lemma LetterIndex(d: Sextet)
    ensures Index(Letter(d)) == Some(d)
  {
  }

  lemma IndexLetter(c: char)
    ensures Index(c).Some? ==> Letter(Index(c).value) == c
  {
  }

  /** The alphabet of section 5 of RFC 4648: the capitals, the small letters, the digits, `-` and `_`. */
  lemma LettersAreTheAlphabet(d: Sextet)
    ensures Letter(0) == 'A' && Letter(26) == 'a' && Letter(52) == '0' && Letter(62) == '-' && Letter(63) == '_'
    ensures d != 25 && d != 51 && d < 61 ==> Letter(d + 1) as int == Letter(d) as int + 1
  {
  }

  function Letters(ds: seq<Sextet>): string {
    seq(|ds|, i requires 0 <= i < |ds| => Letter(ds[i]))
  }

  function Indices(s: string): Option<seq<Sextet>> {
    if s == "" then Some([])
    else match (Index(s[0]), Indices(s[1..]))
      case (Some(d), Some(rest)) => Some([d] + rest)
      case _ => None
  }

  lemma {:induction false} IndicesOfLetters(ds: seq<Sextet>)
    ensures Indices(Letters(ds)) == Some(ds)
  {
    if ds != [] {
      LetterIndex(ds[0]);
      IndicesOfLetters(ds[1..]);
      assert Letters(ds)[1..] == Letters(ds[1..]) && ds == [ds[0]] + ds[1..];
    }
  }

  lemma {:induction false} LettersOfIndices(s: string)
    ensures Indices(s).Some? ==> Letters(Indices(s).value) == s
  {
    if s != "" {
      IndexLetter(s[0]);
      LettersOfIndices(s[1..]);
      assert s == [s[0]] + s[1..];
    }
  }

  /** The byte that two neighbouring sextets share, by its place in a group of three. */
  function First(a: Sextet, b: Sextet): byte {
    (a as int) * 4 + (b as int) / 16
  }

  function Second(b: Sextet, c: Sextet): byte {
    (b as int) % 16 * 16 + (c as int) / 4
  }

  function Third(c: Sextet, d: Sextet): byte {
    (c as int) % 4 * 64 + (d as int)
  }

  function OneByte(x: byte): seq<Sextet> {
    [x / 4, x % 4 * 16]
  }

  function TwoBytes(x: byte, y: byte): seq<Sextet> {
    [x / 4, x % 4 * 16 + y / 16, y % 16 * 4]
  }

  function ThreeBytes(x: byte, y: byte, z: byte): seq<Sextet> {
    [x / 4, x % 4 * 16 + y / 16, y % 16 * 4 + z / 64, z % 64]
  }

  /** Three bytes are four sextets; a rest of one or two bytes is two or three. */
  function Sextets(b: Bytes): seq<Sextet> {
    if b == [] then []
    else if |b| == 1 then OneByte(b[0])
    else if |b| == 2 then TwoBytes(b[0], b[1])
    else ThreeBytes(b[0], b[1], b[2]) + Sextets(b[3..])
  }

  function Octets(d: seq<Sextet>): Option<Bytes> {
    if d == [] then Some([])
    else if |d| == 1 then None
    else if |d| == 2 then if d[1] % 16 == 0 then Some([First(d[0], d[1])]) else None
    else if |d| == 3 then if d[2] % 4 == 0 then Some([First(d[0], d[1]), Second(d[1], d[2])]) else None
    else match Octets(d[4..])
      case None => None
      case Some(rest) => Some([First(d[0], d[1]), Second(d[1], d[2]), Third(d[2], d[3])] + rest)
  }

  function Encode(b: Bytes): string {
    Letters(Sextets(b))
  }

  function Decode(s: string): Option<Bytes> {
    match Indices(s)
    case None => None
    case Some(d) => Octets(d)
  }

  /** The sextets of a group are its 24 bits, the most significant first; missing bytes count as zero bits. */
  lemma GroupBits(x: byte, y: byte, z: byte)
    ensures var d := ThreeBytes(x, y, z);
            ((d[0] as int * 64 + d[1] as int) * 64 + d[2] as int) * 64 + d[3] as int
            == (x as int * 256 + y as int) * 256 + z as int
    ensures TwoBytes(x, y) == ThreeBytes(x, y, 0)[..3] && ThreeBytes(x, y, 0)[3] == 0
    ensures OneByte(x) == ThreeBytes(x, 0, 0)[..2] && ThreeBytes(x, 0, 0)[2..] == [0, 0]
  {
  }

  lemma GroupOctets(x: byte, y: byte, z: byte)
    ensures First(x / 4, x % 4 * 16 + y / 16) == x && Second(x % 4 * 16 + y / 16, y % 16 * 4 + z / 64) == y
    ensures Third(y % 16 * 4 + z / 64, z % 64) == z
  {
  }

  lemma FewOctets(x: byte, y: byte)
    ensures First(x / 4, x % 4 * 16) == x && x % 4 * 16 % 16 == 0
    ensures First(x / 4, x % 4 * 16 + y / 16) == x && Second(x % 4 * 16 + y / 16, y % 16 * 4) == y
            && y % 16 * 4 % 4 == 0
  {
  }

  lemma FewSextets(a: Sextet, b: Sextet, c: Sextet)
    ensures b % 16 == 0 ==> First(a, b) / 4 == a && First(a, b) % 4 * 16 == b
    ensures c % 4 == 0 ==>
              First(a, b) / 4 == a && First(a, b) % 4 * 16 + Second(b, c) / 16 == b && Second(b, c) % 16 * 4 == c
  {
  }

  lemma GroupSextets(a: Sextet, b: Sextet, c: Sextet, d: Sextet)
    ensures var x, y, z := First(a, b), Second(b, c), Third(c, d);
            x / 4 == a && x % 4 * 16 + y / 16 == b && y % 16 * 4 + z / 64 == c && z % 64 == d
  {
  }

  lemma {:induction false} OctetsOfSextets(b: Bytes)
    ensures Octets(Sextets(b)) == Some(b)
  {
    hide First, Second, Third;
    if |b| == 1 {
      FewOctets(b[0], 0);
      assert b == [b[0]];
    } else if |b| == 2 {
      FewOctets(b[0], b[1]);
      assert b == [b[0], b[1]];
    } else if |b| >= 3 {
      GroupOctets(b[0], b[1], b[2]);
      OctetsOfSextets(b[3..]);
      assert Sextets(b)[4..] == Sextets(b[3..]);
      assert b == [b[0], b[1], b[2]] + b[3..];
    }
  }

  lemma SextetsOfFew(d: seq<Sextet>)
    requires |d| < 4
    ensures Octets(d).Some? ==> Sextets(Octets(d).value) == d
  {
    hide First, Second, Third;
    if |d| == 2 {
      FewSextets(d[0], d[1], 0);
      assert d == [d[0], d[1]];
    } else if |d| == 3 {
      FewSextets(d[0], d[1], d[2]);
      assert d == [d[0], d[1], d[2]];
    }
  }

  lemma {:induction false} SextetsOfOctets(d: seq<Sextet>)
    ensures Octets(d).Some? ==> Sextets(Octets(d).value) == d
  {
    hide First, Second, Third;
    if |d| < 4 {
      SextetsOfFew(d);
    } else {
      GroupSextets(d[0], d[1], d[2], d[3]);
      SextetsOfOctets(d[4..]);
      if Octets(d).Some? {
        assert Octets(d).value[3..] == Octets(d[4..]).value;
        assert d == [d[0], d[1], d[2], d[3]] + d[4..];
      }
    }
  }

  lemma DecodeEncode(b: Bytes)
    ensures Decode(Encode(b)) == Some(b)
  {
    IndicesOfLetters(Sextets(b));
    OctetsOfSextets(b);
  }

  /** Strictness: each byte string has one spelling. */
  lemma EncodeDecode(s: string)
    ensures Decode(s).Some? ==> Encode(Decode(s).value) == s
  {
    LettersOfIndices(s);
    if Indices(s).Some? {
      SextetsOfOctets(Indices(s).value);
    }
  }

  lemma Thirds(q: nat, r: nat)
    requires r < 3
    ensures (3 * q + r) / 3 == q && (3 * q + r) % 3 == r
  {
  }

  /** The length by whole groups and the rest. */
  lemma EncodedLenOf(q: nat, r: nat)
    requires r < 3
    ensures EncodedLen(3 * q + r) == 4 * q + (if r == 0 then 0 else r + 1)
  {
    Thirds(q, r);
    if r == 0 {
      Thirds(q, 2);
    } else {
      Thirds(q + 1, r - 1);
      assert 3 * q + r + 2 == 3 * (q + 1) + (r - 1);
    }
  }

  lemma GroupLen(n: nat)
    ensures EncodedLen(n + 3) == EncodedLen(n) + 4
  {
    hide EncodedLen;
    var q, r := n / 3, n % 3;
    EncodedLenOf(q, r);
    EncodedLenOf(q + 1, r);
    assert n == 3 * q + r && n + 3 == 3 * (q + 1) + r;
  }

  lemma FewLen()
    ensures EncodedLen(0) == 0 && EncodedLen(1) == 2 && EncodedLen(2) == 3
  {
  }

  lemma {:induction false} SextetsLen(b: Bytes)
    ensures |Sextets(b)| == EncodedLen(|b|)
  {
    hide EncodedLen;
    FewLen();
    if |b| >= 3 {
      SextetsLen(b[3..]);
      GroupLen(|b| - 3);
    }
  }

  lemma EncodeChars(b: Bytes)
    ensures |Encode(b)| == EncodedLen(|b|)
    ensures forall c | c in Encode(b) :: Index(c).Some?
  {
    hide EncodedLen, Sextets, Index, Letter;
    SextetsLen(b);
    forall i | 0 <= i < |Sextets(b)|
      ensures Index(Encode(b)[i]).Some?
    {
      LetterIndex(Sextets(b)[i]);
    }
  }

  /** `base64_url_no_pad_encoded_len`. */
  function EncodedLen(n: nat): nat {
    (n + 2) / 3 * 4 - (if n % 3 == 0 then 0 else if n % 3 == 1 then 2 else 1)
  }

  /** Encoded lengths grow with the lengths they come from, so a range test on either side is the same test. */
  lemma EncodedLenMonotone(n: nat, m: nat)
    ensures n < m <==> EncodedLen(n) < EncodedLen(m)
  {
    hide EncodedLen;
    EncodedLenOf(n / 3, n % 3);
    EncodedLenOf(m / 3, m % 3);
  }
}
