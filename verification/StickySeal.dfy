/** The sealed value of the sticky cookie (`sticky_cookie_seal.rs`). */
module StickySeal {
  import opened Wrappers
  import opened Machine
  import opened Base64Url
  import opened Utf8

  const VERSION_V1: byte := 0x01
  const NONCE_LEN := 12
  const TAG_LEN := 16
  const EXPIRES_LEN := 8
  const MAX_SERVER_ID_LEN := 256
  const MIN_PLAINTEXT_LEN := EXPIRES_LEN + 1
  const MAX_PLAINTEXT_LEN := EXPIRES_LEN + MAX_SERVER_ID_LEN
  const MIN_BLOB_LEN := 1 + NONCE_LEN + TAG_LEN + MIN_PLAINTEXT_LEN
  const MAX_BLOB_LEN := 1 + NONCE_LEN + TAG_LEN + MAX_PLAINTEXT_LEN

  /* ------------------------------ big-endian numbers ------------------------------ */

  function Pow256(k: nat): (r: nat)
    ensures r > 0
  {
    if k == 0 then 1 else 256 * Pow256(k - 1)
  }

  function Be(v: nat, k: nat): (r: Bytes)
    ensures |r| == k
    decreases k
  {
    if k == 0 then [] else Be(v / 256, k - 1) + [v % 256]
  }

  function FromBe(b: Bytes): nat {
    if b == [] then 0 else FromBe(b[..|b| - 1]) * 256 + b[|b| - 1]
  }

  lemma {:induction false} FromBeBe(v: nat, k: nat)
    requires v < Pow256(k)
    ensures FromBe(Be(v, k)) == v
    decreases k
  {
    if k > 0 {
      FromBeBe(v / 256, k - 1);
      assert Be(v, k)[..k - 1] == Be(v / 256, k - 1);
    }
  }

  lemma {:induction false} BeFromBe(b: Bytes)
    ensures FromBe(b) < Pow256(|b|) && Be(FromBe(b), |b|) == b
  {
    if b != [] {
      var n := |b| - 1;
      BeFromBe(b[..n]);
      assert FromBe(b) / 256 == FromBe(b[..n]) && FromBe(b) % 256 == b[n];
      assert b == b[..n] + [b[n]];
    }
  }

  /** The first byte is the most significant one. */
  lemma {:induction false} FromBeFirst(x: byte, b: Bytes)
    ensures FromBe([x] + b) == x * Pow256(|b|) + FromBe(b)
  {
    if b == [] {
      assert [x] + b == [x] && [x][..0] == [];
    } else {
      var n := |b| - 1;
      FromBeFirst(x, b[..n]);
      assert ([x] + b)[..|b|] == [x] + b[..n];
      assert x * Pow256(n) * 256 == x * Pow256(|b|);
    }
  }

  const TWO63: int := 0x8000_0000_0000_0000
  type i64 = x: int | -TWO63 <= x < TWO63

  /** Two's complement. */
  function I64Bytes(v: i64): (r: Bytes)
    ensures |r| == EXPIRES_LEN
  {
    Be(if v < 0 then v + 2 * TWO63 else v, EXPIRES_LEN)
  }

  function BytesI64(b: Bytes): i64
    requires |b| == EXPIRES_LEN
  {
    BeFromBe(b);
    Pow256Of8();
    var u := FromBe(b);
    if u < TWO63 then u else u - 2 * TWO63
  }

  lemma Pow256Of8()
    ensures Pow256(8) == 2 * TWO63
  {
  }

  lemma I64RoundTrip(v: i64, b: Bytes)
    requires |b| == EXPIRES_LEN
    ensures BytesI64(I64Bytes(v)) == v && I64Bytes(BytesI64(b)) == b
  {
    hide Be, FromBe, Pow256;
    Pow256Of8();
    FromBeBe(if v < 0 then v + 2 * TWO63 else v, EXPIRES_LEN);
    BeFromBe(b);
  }

  /* ----------------------------- associated data ----------------------------- */

  const LABEL: Bytes := [114, 112, 120, 121, 45, 115, 116, 105, 99, 107, 121, 45, 118, 49]

  /** `build_sticky_cookie_aad`; a NUL byte in a component is an error. */
  function Aad(name: Bytes, domain: Bytes, path: Bytes): Option<Bytes> {
    if 0 in name || 0 in domain || 0 in path then None
    else Some(LABEL + [0] + (name + [0] + (domain + [0] + (path + [0]))))
  }

  /** The label is the text `rpxy-sticky-v1`. */
  lemma LabelText(i: nat)
    requires i < |LABEL|
    ensures |LABEL| == |"rpxy-sticky-v1"| && LABEL[i] == "rpxy-sticky-v1"[i] as int
  {
  }

  lemma CutAtNul(a: Bytes, x: Bytes, b: Bytes, y: Bytes)
    requires 0 !in a && 0 !in b && a + [0] + x == b + [0] + y
    ensures a == b && x == y
  {
    var s := a + [0] + x;
    assert s[|a|] == 0 && s[|b|] == 0;
    assert forall i | 0 <= i < |a| :: s[i] == a[i] && a[i] != 0;
    assert forall i | 0 <= i < |b| :: s[i] == b[i] && b[i] != 0;
    assert a == s[..|a|] && b == s[..|b|] && x == s[|a| + 1..] && y == s[|b| + 1..];
  }

  /** Label, name, domain and path in this order, each closed by a NUL, which none of them may hold. */
  lemma AadIsFramed(name: Bytes, domain: Bytes, path: Bytes)
    ensures Aad(name, domain, path).None? <==> 0 in name + domain + path
    ensures 0 !in name + domain + path ==>
              Aad(name, domain, path) == Some(LABEL + [0] + name + [0] + domain + [0] + path + [0])
  {
    var framed := LABEL + [0] + name + [0] + domain + [0] + path + [0];
    assert framed == LABEL + [0] + (name + [0] + (domain + [0] + (path + [0])));
  }

  /** The framing is unambiguous: different cookies have different associated data. */
  lemma AadIsInjective(n: Bytes, d: Bytes, p: Bytes, n': Bytes, d': Bytes, p': Bytes)
    requires Aad(n, d, p).Some? && Aad(n, d, p) == Aad(n', d', p')
    ensures n == n' && d == d' && p == p'
  {
    CutAtNul(LABEL, n + [0] + (d + [0] + (p + [0])), LABEL, n' + [0] + (d' + [0] + (p' + [0])));
    CutAtNul(n, d + [0] + (p + [0]), n', d' + [0] + (p' + [0]));
    CutAtNul(d, p + [0], d', p' + [0]);
    assert p == (p + [0])[..|p|] && p' == (p' + [0])[..|p'|];
  }

  /* ------------------------------- sealing, opening ------------------------------- */

  /** AES-256-GCM under one key: for each nonce and associated data, the ciphertexts that decrypt are
      those that encryption makes. */
  datatype Cipher = Cipher(encrypt: (Bytes, Bytes, Bytes) -> Bytes, decrypt: (Bytes, Bytes, Bytes) -> Option<Bytes>) {
    ghost predicate Lawful() {
      && (forall n, a, m :: |encrypt(n, a, m)| == |m| + TAG_LEN)
      && (forall n, a, m :: decrypt(n, a, encrypt(n, a, m)) == Some(m))
      && (forall n, a, c :: decrypt(n, a, c).Some? ==> c == encrypt(n, a, decrypt(n, a, c).value))
    }
  }

  function Blob(c: Cipher, aad: Bytes, id: Bytes, expires: i64, nonce: Bytes): Bytes {
    [VERSION_V1] + nonce + c.encrypt(nonce, aad, I64Bytes(expires) + id)
  }

  /** `seal_server_id`, with the nonce it draws. */
  function Seal(c: Cipher, aad: Bytes, id: Bytes, expires: i64, nonce: Bytes): Option<string> {
    if id == [] || |id| > MAX_SERVER_ID_LEN then None else Some(Encode(Blob(c, aad, id, expires, nonce)))
  }

  function OpenPlain(plain: Bytes, now: int): Option<Bytes> {
    if !(MIN_PLAINTEXT_LEN <= |plain| <= MAX_PLAINTEXT_LEN) then None
    else if BytesI64(plain[..EXPIRES_LEN]) <= now then None
    else if IsUtf8(plain[EXPIRES_LEN..]) then Some(plain[EXPIRES_LEN..]) else None
  }

  function OpenBlob(c: Cipher, aad: Bytes, blob: Bytes, now: int): Option<Bytes> {
    if !(MIN_BLOB_LEN <= |blob| <= MAX_BLOB_LEN) || blob[0] != VERSION_V1 then None
    else match c.decrypt(blob[1..1 + NONCE_LEN], aad, blob[1 + NONCE_LEN..])
      case None => None
      case Some(plain) => OpenPlain(plain, now)
  }

  /** `open_server_id_at`. */
  function Open(c: Cipher, aad: Bytes, text: string, now: int): Option<Bytes> {
    if !(EncodedLen(MIN_BLOB_LEN) <= |text| <= EncodedLen(MAX_BLOB_LEN)) then None
    else match Decode(text)
      case None => None
      case Some(blob) => OpenBlob(c, aad, blob, now)
  }

  lemma OpenPlainSealed(id: Bytes, expires: i64, now: int)
    requires 1 <= |id| <= MAX_SERVER_ID_LEN
    ensures OpenPlain(I64Bytes(expires) + id, now) == if expires > now && IsUtf8(id) then Some(id) else None
  {
    var plain := I64Bytes(expires) + id;
    I64RoundTrip(expires, plain[..EXPIRES_LEN]);
    assert plain[..EXPIRES_LEN] == I64Bytes(expires) && plain[EXPIRES_LEN..] == id;
  }

  lemma BlobParts(c: Cipher, aad: Bytes, id: Bytes, expires: i64, nonce: Bytes)
    requires c.Lawful() && |nonce| == NONCE_LEN
    ensures var b := Blob(c, aad, id, expires, nonce);
            && |b| == 1 + NONCE_LEN + TAG_LEN + EXPIRES_LEN + |id| && b[0] == VERSION_V1
            && b[1..1 + NONCE_LEN] == nonce
            && b[1 + NONCE_LEN..] == c.encrypt(nonce, aad, I64Bytes(expires) + id)
  {
  }

  /** A sealed identifier opens exactly until it expires. */
  lemma OpenSealed(c: Cipher, aad: Bytes, id: Bytes, expires: i64, nonce: Bytes, now: int)
    requires c.Lawful() && |nonce| == NONCE_LEN && IsUtf8(id) && Seal(c, aad, id, expires, nonce).Some?
    ensures Open(c, aad, Seal(c, aad, id, expires, nonce).value, now) == if expires > now then Some(id) else None
  {
    hide OpenPlain, IsUtf8, Encode, Decode, Blob, EncodedLen;
    var b := Blob(c, aad, id, expires, nonce);
    BlobParts(c, aad, id, expires, nonce);
    DecodeEncode(b);
    EncodeChars(b);
    EncodedLenMonotone(|b|, MIN_BLOB_LEN);
    EncodedLenMonotone(MAX_BLOB_LEN, |b|);
    OpenPlainSealed(id, expires, now);
  }

  lemma OnlySealedPlain(plain: Bytes, now: int) returns (expires: i64)
    requires OpenPlain(plain, now).Some?
    ensures expires > now && plain == I64Bytes(expires) + OpenPlain(plain, now).value
  {
    expires := BytesI64(plain[..EXPIRES_LEN]);
    I64RoundTrip(expires, plain[..EXPIRES_LEN]);
  }

  lemma OnlySealedBlob(c: Cipher, aad: Bytes, blob: Bytes, now: int) returns (expires: i64, nonce: Bytes)
    requires c.Lawful() && OpenBlob(c, aad, blob, now).Some?
    ensures var id := OpenBlob(c, aad, blob, now).value;
            && |nonce| == NONCE_LEN && expires > now && IsUtf8(id) && 1 <= |id| <= MAX_SERVER_ID_LEN
            && Blob(c, aad, id, expires, nonce) == blob
  {
    hide IsUtf8, I64Bytes, OpenPlain;
    nonce := blob[1..1 + NONCE_LEN];
    var ct := blob[1 + NONCE_LEN..];
    var plain := c.decrypt(nonce, aad, ct).value;
    OpenedLength(plain, now);
    expires := OnlySealedPlain(plain, now);
    assert blob == [VERSION_V1] + nonce + ct;
  }

  lemma OpenedLength(plain: Bytes, now: int)
    requires OpenPlain(plain, now).Some?
    ensures var id := OpenPlain(plain, now).value; 1 <= |id| <= MAX_SERVER_ID_LEN && IsUtf8(id)
  {
    hide IsUtf8, BytesI64;
  }

  /** Nothing else opens: a value that opens is the seal, under the same associated data, of the
      identifier it opens to, and has not expired. */
  lemma OnlySealedOpens(c: Cipher, aad: Bytes, text: string, now: int) returns (expires: i64, nonce: Bytes)
    requires c.Lawful() && Open(c, aad, text, now).Some?
    ensures var id := Open(c, aad, text, now).value;
            && |nonce| == NONCE_LEN && expires > now && IsUtf8(id) && Seal(c, aad, id, expires, nonce) == Some(text)
  {
    hide IsUtf8, Encode, Decode, OpenBlob, EncodedLen, Blob;
    EncodeDecode(text);
    expires, nonce := OnlySealedBlob(c, aad, Decode(text).value, now);
  }

  /** The two later length tests repeat the first: on decodable, authentic input they never fail. */
  lemma LengthTestsAgree(c: Cipher, aad: Bytes, text: string)
    requires c.Lawful() && Decode(text).Some? && |Decode(text).value| >= 1 + NONCE_LEN
    ensures var blob := Decode(text).value;
            var plain := c.decrypt(blob[1..1 + NONCE_LEN], aad, blob[1 + NONCE_LEN..]);
            && (EncodedLen(MIN_BLOB_LEN) <= |text| <= EncodedLen(MAX_BLOB_LEN)
                <==> MIN_BLOB_LEN <= |blob| <= MAX_BLOB_LEN)
            && (plain.Some? ==>
                  (MIN_BLOB_LEN <= |blob| <= MAX_BLOB_LEN <==> MIN_PLAINTEXT_LEN <= |plain.value| <= MAX_PLAINTEXT_LEN))
  {
    var blob := Decode(text).value;
    EncodeDecode(text);
    EncodeChars(blob);
    EncodedLenMonotone(|blob|, MIN_BLOB_LEN);
    EncodedLenMonotone(MAX_BLOB_LEN, |blob|);
  }
}
