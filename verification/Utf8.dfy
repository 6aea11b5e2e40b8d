/** Well-formed UTF-8, as a grammar over bytes and as the encodings of Unicode characters. */
module Utf8 {
  import opened Machine

  predicate IsTail(b: Bytes, n: nat) {
    n <= |b| && forall i | 0 <= i < n :: 0x80 <= b[i] < 0xC0
  }

  /** Well-formed UTF-8, section 4 of RFC 3629. */
  predicate IsUtf8(b: Bytes) {
    if b == [] then true
    else if b[0] < 0x80 then IsUtf8(b[1..])
    else if 0xC2 <= b[0] < 0xE0 then IsTail(b[1..], 1) && IsUtf8(b[2..])
    else if 0xE0 <= b[0] < 0xF0 then
      && IsTail(b[1..], 2) && (b[0] == 0xE0 ==> b[1] >= 0xA0) && (b[0] == 0xED ==> b[1] < 0xA0)
      && IsUtf8(b[3..])
    else
      && 0xF0 <= b[0] < 0xF5 && IsTail(b[1..], 3) && (b[0] == 0xF0 ==> b[1] >= 0x90) && (b[0] == 0xF4 ==> b[1] < 0x90)
      && IsUtf8(b[4..])
  }

  /* --------------------------------- encodings --------------------------------- */

  /** A Unicode scalar value: no surrogate. */
  type Scalar = x: int | 0 <= x < 0xD800 || 0xE000 <= x < 0x11_0000

  /** The lowest six bits in a continuation byte. */
  function Tail(n: nat): byte {
    0x80 + n % 64
  }

  /** Section 3 of RFC 3629: as few bytes as the number needs. */
  function EncodeScalar(x: Scalar): Bytes {
    if x < 0x80 then [x]
    else if x < 0x800 then [0xC0 + x / 64, Tail(x)]
    else if x < 0x1_0000 then [0xE0 + x / 64 / 64, Tail(x / 64), Tail(x)]
    else [0xF0 + x / 64 / 64 / 64, Tail(x / 64 / 64), Tail(x / 64), Tail(x)]
  }

  function EncodeText(xs: seq<Scalar>): Bytes {
    if xs == [] then [] else EncodeScalar(xs[0]) + EncodeText(xs[1..])
  }

  lemma ScalarIsUtf8(x: Scalar, rest: Bytes)
    ensures IsUtf8(EncodeScalar(x) + rest) <==> IsUtf8(rest)
  {
    var b := EncodeScalar(x) + rest;
    assert b[|EncodeScalar(x)|..] == rest;
    if x >= 0x80 {
      assert b[1..][0] == b[1];
    }
    if x >= 0x800 {
      assert b[1..][1] == b[2];
    }
    if x >= 0x1_0000 {
      assert b[1..][2] == b[3];
    }
  }

  lemma {:induction false} TextIsUtf8(xs: seq<Scalar>)
    ensures IsUtf8(EncodeText(xs))
  {
    hide IsUtf8, EncodeScalar;
    if xs == [] {
      assert IsUtf8([]) by { NothingIsUtf8(); }
    } else {
      TextIsUtf8(xs[1..]);
      ScalarIsUtf8(xs[0], EncodeText(xs[1..]));
    }
  }

  lemma NothingIsUtf8()
    ensures IsUtf8([])
  {
  }

  lemma Digits(hi: nat, lo: nat)
    requires lo < 64
    ensures (hi * 64 + lo) / 64 == hi && (hi * 64 + lo) % 64 == lo
  {
  }

  /** The first character of a well-formed text. */
  lemma FirstScalar(b: Bytes) returns (x: Scalar, rest: Bytes)
    requires b != [] && IsUtf8(b)
    ensures b == EncodeScalar(x) + rest && IsUtf8(rest) && |rest| < |b|
  {
    if b[0] < 0x80 {
      x, rest := b[0], b[1..];
    } else if b[0] < 0xE0 {
      assert b[1..][0] == b[1];
      x := TwoByteScalar(b[0], b[1]);
      rest := b[2..];
      assert b == [b[0], b[1]] + rest;
    } else if b[0] < 0xF0 {
      assert b[1..][0] == b[1] && b[1..][1] == b[2];
      x := ThreeByteScalar(b[0], b[1], b[2]);
      rest := b[3..];
      assert b == [b[0], b[1], b[2]] + rest;
    } else {
      assert b[1..][0] == b[1] && b[1..][1] == b[2] && b[1..][2] == b[3];
      x := FourByteScalar(b[0], b[1], b[2], b[3]);
      rest := b[4..];
      assert b == [b[0], b[1], b[2], b[3]] + rest;
    }
  }

  lemma TwoByteScalar(a: byte, b: byte) returns (x: Scalar)
    requires 0xC2 <= a < 0xE0 && 0x80 <= b < 0xC0
    ensures EncodeScalar(x) == [a, b]
  {
    x := (a as int - 0xC0) * 64 + (b as int - 0x80);
    Digits(a as int - 0xC0, b as int - 0x80);
  }

  lemma ThreeByteScalar(a: byte, b: byte, c: byte) returns (x: Scalar)
    requires 0xE0 <= a < 0xF0 && 0x80 <= b < 0xC0 && 0x80 <= c < 0xC0
    requires (a == 0xE0 ==> b >= 0xA0) && (a == 0xED ==> b < 0xA0)
    ensures EncodeScalar(x) == [a, b, c]
  {
    var hi := (a as int - 0xE0) * 64 + (b as int - 0x80);
    x := hi * 64 + (c as int - 0x80);
    Digits(a as int - 0xE0, b as int - 0x80);
    Digits(hi, c as int - 0x80);
  }

  lemma FourByteScalar(a: byte, b: byte, c: byte, d: byte) returns (x: Scalar)
    requires 0xF0 <= a < 0xF5 && 0x80 <= b < 0xC0 && 0x80 <= c < 0xC0 && 0x80 <= d < 0xC0
    requires (a == 0xF0 ==> b >= 0x90) && (a == 0xF4 ==> b < 0x90)
    ensures EncodeScalar(x) == [a, b, c, d]
  {
    var hi := (a as int - 0xF0) * 64 + (b as int - 0x80);
    var mid := hi * 64 + (c as int - 0x80);
    x := mid * 64 + (d as int - 0x80);
    Digits(a as int - 0xF0, b as int - 0x80);
    Digits(hi, c as int - 0x80);
    Digits(mid, d as int - 0x80);
  }

  /** The grammar accepts exactly the encodings of texts without surrogates, each in its shortest form. */
  lemma {:induction false} Utf8IsText(b: Bytes) returns (xs: seq<Scalar>)
    requires IsUtf8(b)
    ensures EncodeText(xs) == b
    decreases |b|
  {
    hide IsUtf8, EncodeScalar;
    if b == [] {
      xs := [];
    } else {
      var x, rest := FirstScalar(b);
      var more := Utf8IsText(rest);
      xs := [x] + more;
      assert xs[1..] == more;
    }
  }
}
