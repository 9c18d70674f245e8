/** The hashes of digest authentication: `cvthex`, `digest_calc_ha1`,
    `digest_calc_response` and `calculate_nonce` of digestauth.c.

    The program hashes piece by piece through one MD5 context and writes
    hexadecimal text into buffers; each function is proved to leave there the
    closed formula of sections 3.2.2.1 to 3.2.2.3 of RFC 2617. */
module DigestFormulas {
  import opened CStrings
  import opened Md5Block
  import Md5

  const HASH_MD5_HEX_LEN: nat := 32
  const TIMESTAMP_HEX_LEN: nat := 8
  const NONCE_STD_LEN: nat := 40

  /** The bytes that a `const unsigned char *` view of a text reads. */
  function Octets(s: string): (b: seq<byte>)
    ensures |b| == |s|
  {
    seq(|s|, i requires 0 <= i < |s| => s[i] as int % 256)
  }

  /** The bytes are the characters. */
  lemma OctetsExactly(s: string, i: nat)
    requires i < |s| && s[i] as int < 256
    ensures Octets(s)[i] == s[i] as int
  {
  }

  lemma OctetsConcat(s: string, t: string)
    ensures Octets(s + t) == Octets(s) + Octets(t)
  {
  }

  // ------------------------------------------------------------------ hexadecimal text

  function Hex(bin: seq<byte>): (s: string)
    ensures |s| == 2 * |bin|
  {
    if bin == [] then ""
    else Hex(bin[..|bin| - 1]) + [HexDigit(bin[|bin| - 1] / 16), HexDigit(bin[|bin| - 1] % 16)]
  }

  lemma {:induction false} HexIsText(bin: seq<byte>)
    ensures forall i :: 0 <= i < |Hex(bin)| ==> HexValue(Hex(bin)[i]) >= 0
    ensures NUL !in Hex(bin) && '"' !in Hex(bin)
  {
    if bin == [] {
    } else {
      HexIsText(bin[..|bin| - 1]);
    }
  }

  /** Two digits a byte, in lower case, the high one first. */
  lemma {:induction false} HexAt(bin: seq<byte>, i: nat)
    requires i < |bin|
    ensures Hex(bin)[2 * i] == LOWER_DIGITS[bin[i] / 16] && Hex(bin)[2 * i + 1] == LOWER_DIGITS[bin[i] % 16]
  {
    if i == |bin| - 1 {
      HexDigitIsLower(bin[i] / 16);
      HexDigitIsLower(bin[i] % 16);
    } else {
      HexAt(bin[..|bin| - 1], i);
    }
  }

  lemma {:induction false} HexConcat(a: seq<byte>, b: seq<byte>)
    ensures Hex(a + b) == Hex(a) + Hex(b)
  {
    if b == [] {
      assert a + b == a;
    } else {
      HexConcat(a, b[..|b| - 1]);
      assert (a + b)[..|a + b| - 1] == a + b[..|b| - 1];
    }
  }

  /** The number that bytes write with the high-order byte first. */
  function BigEndian(bin: seq<byte>): nat {
    if bin == [] then 0 else 256 * BigEndian(bin[..|bin| - 1]) + bin[|bin| - 1]
  }

  /** Reading the hexadecimal text of some bytes back gives their number. */
  lemma {:induction false} HexReadsBack(bin: seq<byte>)
    ensures (forall c :: c in Hex(bin) ==> HexValue(c) >= 0) && HexNumber(Hex(bin)) == BigEndian(bin)
  {
    HexIsText(bin);
    if bin == [] {
    } else {
      var b, front := bin[|bin| - 1], bin[..|bin| - 1];
      HexReadsBack(front);
      var s := Hex(bin);
      var t := s[..|s| - 1];
      assert t[..|t| - 1] == Hex(front);
      assert HexNumber(t) == 16 * HexNumber(Hex(front)) + b / 16;
      assert HexNumber(s) == 16 * HexNumber(t) + b % 16;
    }
  }

  lemma DigitOf(j: nat)
    requires j < 16
    ensures LOWER_DIGITS[j] == if j <= 9 then (j + '0' as int) as char else (j - 10 + 'a' as int) as char
  {
    DigitAt(j);
  }

  /** cvthex: two digits for every byte and a terminator. */
  method Cvthex(bin: seq<byte>, hex: array<char>)
    requires 2 * |bin| < hex.Length
    modifies hex
    ensures hex[..] == Hex(bin) + [NUL] + old(hex[2 * |bin| + 1..])
  {
    hide Hex;
    for i := 0 to |bin|
      invariant forall k :: 0 <= k < 2 * i ==> hex[k] == Hex(bin)[k]
      invariant forall k :: 2 * i <= k < hex.Length ==> hex[k] == old(hex[k])
    {
      HexAt(bin, i);
      var j := bin[i] / 16 % 16;
      DigitOf(j);
      hex[i * 2] := if j <= 9 then (j + '0' as int) as char else (j - 10 + 'a' as int) as char;
      j := bin[i] % 16;
      DigitOf(j);
      hex[i * 2 + 1] := if j <= 9 then (j + '0' as int) as char else (j - 10 + 'a' as int) as char;
    }
    hex[|bin| * 2] := NUL;
  }

  // ------------------------------------------------------------------ RFC 2617

  /** H(data), as the 32 hexadecimal digits that the header fields use. */
  function H(data: string): (h: string)
    ensures |h| == HASH_MD5_HEX_LEN
  {
    Hex(Md5.Digest(Octets(data)))
  }

  function A1(username: string, realm: string, password: string): string {
    username + ":" + realm + ":" + password
  }

  /** H(A1) of section 3.2.2.2; "MD5-sess" hashes the digest of A1 once more, as
      sixteen bytes, together with both nonces. */
  function HA1(alg: string, username: string, realm: string, password: string, nonce: string, cnonce: string): (h: string)
    ensures |h| == HASH_MD5_HEX_LEN
  {
    if EqualCaseless(alg, "md5-sess") then
      Hex(Md5.Digest(Md5.Digest(Octets(A1(username, realm, password))) + Octets(":" + nonce + ":" + cnonce)))
    else H(A1(username, realm, password))
  }

  function RequestText(ha1: string, nonce: string, nc: string, cnonce: string, qop: string, ha2: string): string {
    if qop != "" then ha1 + ":" + nonce + ":" + nc + ":" + cnonce + ":" + qop + ":" + ha2
    else ha1 + ":" + nonce + ":" + ha2
  }

  /** request-digest of section 3.2.2.1: with a qop, then as in RFC 2069. */
  function RequestDigest(ha1: string, nonce: string, nc: string, cnonce: string, qop: string,
                         httpMethod: string, uri: string): (h: string)
    ensures |h| == HASH_MD5_HEX_LEN
  {
    H(RequestText(ha1, nonce, nc, cnonce, qop, H(httpMethod + ":" + uri)))
  }

  // ------------------------------------------------------------------ what is hashed

  /** The first n parts of a text, each ended by a ':', and what is left. */
  function Parts(s: string, n: nat): seq<string> {
    var p := IndexOf(s, ':', 0);
    if n == 0 || p == |s| then [s] else [s[..p]] + Parts(s[p + 1..], n - 1)
  }

  /** h is the hash of a text with these parts, the last of which may have any character. */
  ghost predicate IsHashOf(h: string, parts: seq<string>)
    requires parts != []
  {
    exists text :: h == H(text) && Parts(text, |parts| - 1) == parts
  }

  predicate IsPart(s: string) { ':' !in s }

  lemma FirstOfParts(first: string, rest: string, n: nat)
    requires IsPart(first) && 0 < n
    ensures Parts(first + ":" + rest, n) == [first] + Parts(rest, n - 1)
  {
    hide IndexOf;
    var s := first + ":" + rest;
    assert s[|first|] == ':' && s[..|first|] == first && s[|first| + 1..] == rest;
    assert forall k :: 0 <= k < |first| ==> s[k] == first[k];
    IndexOfIs(s, ':', 0, |first|);
  }

  lemma LastOfParts(s: string)
    ensures Parts(s, 0) == [s]
  {
  }

  lemma TwoParts(u: string, v: string)
    requires IsPart(u)
    ensures Parts(u + ":" + v, 1) == [u, v]
  {
    hide Parts, IsPart;
    FirstOfParts(u, v, 1);
    LastOfParts(v);
  }

  lemma ThreeParts(u: string, v: string, w: string)
    requires IsPart(u) && IsPart(v)
    ensures Parts(u + ":" + v + ":" + w, 2) == [u, v, w]
  {
    hide Parts, IsPart;
    TwoParts(v, w);
    FirstOfParts(u, v + ":" + w, 2);
    assert u + ":" + v + ":" + w == u + ":" + (v + ":" + w);
  }

  lemma FiveParts(u: string, v: string, w: string, x: string, y: string)
    requires IsPart(u) && IsPart(v) && IsPart(w) && IsPart(x)
    ensures Parts(u + ":" + v + ":" + w + ":" + x + ":" + y, 4) == [u, v, w, x, y]
  {
    hide Parts, IsPart;
    ThreeParts(w, x, y);
    FirstOfParts(v, w + ":" + x + ":" + y, 3);
    FirstOfParts(u, v + ":" + (w + ":" + x + ":" + y), 4);
    assert u + ":" + v + ":" + w + ":" + x + ":" + y == u + ":" + (v + ":" + (w + ":" + x + ":" + y));
  }

  lemma SixParts(u: string, v: string, w: string, x: string, y: string, z: string)
    requires IsPart(u) && IsPart(v) && IsPart(w) && IsPart(x) && IsPart(y)
    ensures Parts(u + ":" + v + ":" + w + ":" + x + ":" + y + ":" + z, 5) == [u, v, w, x, y, z]
  {
    hide Parts, IsPart;
    FiveParts(v, w, x, y, z);
    FirstOfParts(u, v + ":" + w + ":" + x + ":" + y + ":" + z, 5);
    assert u + ":" + v + ":" + w + ":" + x + ":" + y + ":" + z == u + ":" + (v + ":" + w + ":" + x + ":" + y + ":" + z);
  }

  /** Section 3.2.2.2: A1 has the parts username, realm and password. */
  lemma A1Parts(username: string, realm: string, password: string)
    requires IsPart(username) && IsPart(realm)
    ensures Parts(A1(username, realm, password), 2) == [username, realm, password]
  {
    ThreeParts(username, realm, password);
  }

  /** What H(A1) is a hash of, for every algorithm but "MD5-sess", which is recognised in
      any case of its letters, and for that one. */
  ghost predicate IsHA1(h: string, alg: string, username: string, realm: string, password: string, nonce: string, cnonce: string) {
    if EqualCaseless(alg, "md5-sess") then
      exists first: seq<byte>, text: string ::
        && |first| == Md5.DIGEST && IsHashOf(Hex(first), [username, realm, password])
        && Parts(text, 2) == ["", nonce, cnonce] && h == Hex(Md5.Digest(first + Octets(text)))
    else IsHashOf(h, [username, realm, password])
  }

  lemma HA1Hashes(alg: string, username: string, realm: string, password: string, nonce: string, cnonce: string)
    requires IsPart(username) && IsPart(realm) && IsPart(nonce)
    ensures IsHA1(HA1(alg, username, realm, password, nonce, cnonce), alg, username, realm, password, nonce, cnonce)
  {
    hide Parts, Hex, Octets, Md5.Digest, A1, EqualCaseless, IsPart;
    var a1 := A1(username, realm, password);
    A1Parts(username, realm, password);
    assert IsHashOf(H(a1), [username, realm, password]);
    assert IsPart("") by { NoPart(); }
    ThreeParts("", nonce, cnonce);
    assert "" + ":" + nonce + ":" + cnonce == ":" + nonce + ":" + cnonce;
    assert Parts(":" + nonce + ":" + cnonce, 2) == ["", nonce, cnonce];
    assert Hex(Md5.Digest(Octets(a1))) == H(a1);
  }

  lemma NoPart()
    ensures IsPart("")
  {
  }

  /** What the request-digest is a hash of, with a qop and without. */
  ghost predicate IsResponse(r: string, ha1: string, nonce: string, nc: string, cnonce: string, qop: string,
                             httpMethod: string, uri: string) {
    exists ha2 ::
      && IsHashOf(ha2, [httpMethod, uri])
      && IsHashOf(r, if qop != "" then [ha1, nonce, nc, cnonce, qop, ha2] else [ha1, nonce, ha2])
  }

  lemma ResponseHashes(ha1: string, nonce: string, nc: string, cnonce: string, qop: string, httpMethod: string, uri: string)
    requires IsPart(ha1) && IsPart(nonce) && IsPart(nc) && IsPart(cnonce) && IsPart(qop) && IsPart(httpMethod)
    ensures IsResponse(RequestDigest(ha1, nonce, nc, cnonce, qop, httpMethod, uri), ha1, nonce, nc, cnonce, qop, httpMethod, uri)
  {
    hide Parts, H, IsPart;
    var ha2 := H(httpMethod + ":" + uri);
    TwoParts(httpMethod, uri);
    SixParts(ha1, nonce, nc, cnonce, qop, ha2);
    ThreeParts(ha1, nonce, ha2);
    assert IsHashOf(ha2, [httpMethod, uri]);
  }

  // ------------------------------------------------------------------ piecewise hashing

  /** MD5Update (&md5, (const unsigned char *) text, strlen (text)): the context has
      absorbed `before` and absorbs one more piece of text. */
  method Absorb(md5: Md5.Context, ghost before: string, text: string)
    requires md5.Valid() && md5.message == Octets(before)
    modifies md5, md5.state, md5.buffer
    ensures md5.Valid() && md5.message == Octets(before + text)
  {
    md5.MD5Update(Octets(text));
    OctetsConcat(before, text);
  }

  /** Start a new hash with one piece of text. */
  method Begin(md5: Md5.Context, text: string)
    requires md5.Shaped()
    modifies md5, md5.state, md5.buffer
    ensures md5.Valid() && md5.message == Octets(text)
  {
    md5.MD5Init();
    NoOctets();
    assert "" + text == text;
    Absorb(md5, "", text);
  }

  /** The hash of A1. */
  method HashA1(md5: Md5.Context, username: string, realm: string, password: string, ha1: array<byte>)
    requires md5.Shaped() && ha1.Length == Md5.DIGEST && ha1 != md5.buffer
    modifies md5, md5.state, md5.buffer, ha1
    ensures ha1[..] == Md5.Digest(Octets(A1(username, realm, password)))
  {
    hide Octets, Md5.Digest, Md5.Context.Valid;
    Begin(md5, username);
    Absorb(md5, username, ":");
    Absorb(md5, username + ":", realm);
    Absorb(md5, username + ":" + realm, ":");
    Absorb(md5, username + ":" + realm + ":", password);
    md5.MD5Final(ha1);
  }

  /** The second hash of "md5-sess", over sixteen bytes and both nonces. */
  method HashSession(md5: Md5.Context, nonce: string, cnonce: string, ha1: array<byte>)
    requires md5.Shaped() && ha1.Length == Md5.DIGEST && ha1 != md5.buffer
    modifies md5, md5.state, md5.buffer, ha1
    ensures ha1[..] == Md5.Digest(old(ha1[..]) + Octets(":" + nonce + ":" + cnonce))
  {
    hide Octets, Md5.Digest, Md5.Context.Valid;
    md5.MD5Init();
    md5.MD5Update(ha1[..]);
    md5.MD5Update(Octets(":"));
    md5.MD5Update(Octets(nonce));
    md5.MD5Update(Octets(":"));
    md5.MD5Update(Octets(cnonce));
    OctetsConcat(":", nonce);
    OctetsConcat(":" + nonce, ":");
    OctetsConcat(":" + nonce + ":", cnonce);
    assert md5.message == ha1[..] + Octets(":" + nonce + ":" + cnonce);
    md5.MD5Final(ha1);
  }

  /** digest_calc_ha1. */
  method DigestCalcHa1(alg: string, username: string, realm: string, password: string, nonce: string,
                       cnonce: string, sessionkey: array<char>)
    requires sessionkey.Length == HASH_MD5_HEX_LEN + 1
    modifies sessionkey
    ensures sessionkey[..] == HA1(alg, username, realm, password, nonce, cnonce) + [NUL]
    ensures IsPart(username) && IsPart(realm) && IsPart(nonce) ==>
              IsHA1(sessionkey[..HASH_MD5_HEX_LEN], alg, username, realm, password, nonce, cnonce)
  {
    hide Octets, Hex, A1, EqualCaseless, Md5.Digest, IsHA1, IsPart, IsHashOf;
    if IsPart(username) && IsPart(realm) && IsPart(nonce) { HA1Hashes(alg, username, realm, password, nonce, cnonce); }
    var md5 := new Md5.Context();
    var ha1 := new byte[Md5.DIGEST];
    HashA1(md5, username, realm, password, ha1);
    if EqualCaseless(alg, "md5-sess") {
      HashSession(md5, nonce, cnonce, ha1);
    }
    Cvthex(ha1[..], sessionkey);
  }

  lemma NoOctets()
    ensures Octets("") == []
  {
  }

  /** H(A2), as text. */
  method HashA2(md5: Md5.Context, httpMethod: string, uri: string, ha2hex: array<char>)
    requires md5.Shaped() && ha2hex.Length == HASH_MD5_HEX_LEN + 1
    modifies md5, md5.state, md5.buffer, ha2hex
    ensures ha2hex[..] == H(httpMethod + ":" + uri) + [NUL]
  {
    hide Octets, Hex, Md5.Digest, Md5.Context.Valid;
    var ha2 := new byte[Md5.DIGEST];
    Begin(md5, httpMethod);
    Absorb(md5, httpMethod, ":");
    Absorb(md5, httpMethod + ":", uri);
    md5.MD5Final(ha2);
    Cvthex(ha2[..], ha2hex);
  }

  /** The optional middle part of the request digest. */
  method AbsorbQop(md5: Md5.Context, ghost before: string, nc: string, cnonce: string, qop: string)
    requires md5.Valid() && md5.message == Octets(before)
    modifies md5, md5.state, md5.buffer
    ensures md5.Valid() && md5.message == Octets(before + nc + ":" + cnonce + ":" + qop + ":")
  {
    hide Octets, Md5.Digest, Md5.Context.Valid;
    Absorb(md5, before, nc);
    Absorb(md5, before + nc, ":");
    Absorb(md5, before + nc + ":", cnonce);
    Absorb(md5, before + nc + ":" + cnonce, ":");
    Absorb(md5, before + nc + ":" + cnonce + ":", qop);
    Absorb(md5, before + nc + ":" + cnonce + ":" + qop, ":");
  }

  /** The text whose hash is the request-digest. */
  method HashRequest(md5: Md5.Context, ha1: string, nonce: string, noncecount: string, cnonce: string, qop: string,
                     ha2: string, resphash: array<byte>)
    requires md5.Shaped() && resphash.Length == Md5.DIGEST && resphash != md5.buffer
    modifies md5, md5.state, md5.buffer, resphash
    ensures resphash[..] == Md5.Digest(Octets(RequestText(ha1, nonce, noncecount, cnonce, qop, ha2)))
  {
    hide Octets, Md5.Digest, Md5.Context.Valid;
    Begin(md5, ha1);
    Absorb(md5, ha1, ":");
    Absorb(md5, ha1 + ":", nonce);
    ghost var text := ha1 + ":" + nonce + ":";
    Absorb(md5, ha1 + ":" + nonce, ":");
    if qop != "" {
      AbsorbQop(md5, text, noncecount, cnonce, qop);
      text := text + noncecount + ":" + cnonce + ":" + qop + ":";
    }
    Absorb(md5, text, ha2);
    md5.MD5Final(resphash);
  }

  /** digest_calc_response. */
  method DigestCalcResponse(ha1: string, nonce: string, noncecount: string, cnonce: string, qop: string,
                            httpMethod: string, uri: string, response: array<char>)
    requires |ha1| == HASH_MD5_HEX_LEN && response.Length == HASH_MD5_HEX_LEN + 1
    modifies response
    ensures response[..] == RequestDigest(ha1, nonce, noncecount, cnonce, qop, httpMethod, uri) + [NUL]
    ensures IsPart(ha1) && IsPart(nonce) && IsPart(noncecount) && IsPart(cnonce) && IsPart(qop) && IsPart(httpMethod) ==>
              IsResponse(response[..HASH_MD5_HEX_LEN], ha1, nonce, noncecount, cnonce, qop, httpMethod, uri)
  {
    hide Octets, Hex, Md5.Digest, Md5.Context.Valid, IsPart, IsResponse, RequestText;
    if IsPart(ha1) && IsPart(nonce) && IsPart(noncecount) && IsPart(cnonce) && IsPart(qop) && IsPart(httpMethod) {
      ResponseHashes(ha1, nonce, noncecount, cnonce, qop, httpMethod, uri);
    }
    var md5 := new Md5.Context();
    var ha2hex := new char[HASH_MD5_HEX_LEN + 1];
    HashA2(md5, httpMethod, uri, ha2hex);
    var ha2 := ha2hex[..HASH_MD5_HEX_LEN];
    var resphash := new byte[Md5.DIGEST];
    HashRequest(md5, ha1, nonce, noncecount, cnonce, qop, ha2, resphash);
    Cvthex(resphash[..], response);
  }

  // ------------------------------------------------------------------ the server's nonce

  /** A 32-bit time as four bytes, high-order byte first. */
  function Timestamp(t: nat): (b: seq<byte>)
    requires t < UINT32_LIMIT
    ensures |b| == 4
  {
    [t / 0x100_0000, t / 0x1_0000 % 256, t / 0x100 % 256, t % 256]
  }

  function NonceText(httpMethod: string, rnd: string, uri: string, realm: string): string {
    ":" + httpMethod + ":" + rnd + ":" + uri + ":" + realm
  }

  /** H(time ":" method ":" random ":" uri ":" realm) followed by the time. */
  function ServerNonce(t: nat, httpMethod: string, rnd: string, uri: string, realm: string): (nonce: string)
    requires t < UINT32_LIMIT
    ensures |nonce| == NONCE_STD_LEN
  {
    Hex(Md5.Digest(Timestamp(t) + Octets(NonceText(httpMethod, rnd, uri, realm)))) + Hex(Timestamp(t))
  }

  /** A nonce is the hash of the time and a text that starts with ':', followed by the time. */
  ghost predicate IsNonceOf(nonce: string, time: seq<byte>, parts: seq<string>)
    requires parts != []
  {
    exists text ::
      && Parts(text, |parts| - 1) == parts
      && nonce == Hex(Md5.Digest(time + Octets(text))) + Hex(time)
  }

  /** Method, random seed, URL and realm can be read back from the text, so that a nonce
      holds for these and no others. */
  lemma NonceHashes(t: nat, httpMethod: string, rnd: string, uri: string, realm: string)
    requires t < UINT32_LIMIT && IsPart(httpMethod) && IsPart(rnd) && IsPart(uri)
    ensures Parts(NonceText(httpMethod, rnd, uri, realm), 4) == ["", httpMethod, rnd, uri, realm]
    ensures IsNonceOf(ServerNonce(t, httpMethod, rnd, uri, realm), Timestamp(t), ["", httpMethod, rnd, uri, realm])
  {
    hide Parts, Hex, Octets, Md5.Digest, Timestamp, IsPart;
    assert IsPart("") by { NoPart(); }
    FiveParts("", httpMethod, rnd, uri, realm);
    assert "" + ":" + httpMethod + ":" + rnd + ":" + uri + ":" + realm == NonceText(httpMethod, rnd, uri, realm);
  }

  method HashNonce(time: seq<byte>, httpMethod: string, rnd: string, uri: string, realm: string, tmpnonce: array<byte>)
    requires tmpnonce.Length == Md5.DIGEST
    modifies tmpnonce
    ensures tmpnonce[..] == Md5.Digest(time + Octets(NonceText(httpMethod, rnd, uri, realm)))
  {
    hide Octets, Md5.Digest, Md5.Context.Valid;
    var md5 := new Md5.Context();
    md5.MD5Init();
    md5.MD5Update(time);
    AbsorbNonceText(md5, time, httpMethod, rnd, uri, realm);
    md5.MD5Final(tmpnonce);
  }

  /** More text behind a message that starts with some bytes. */
  method AbsorbAfter(md5: Md5.Context, ghost first: seq<byte>, ghost before: string, text: string)
    requires md5.Valid() && md5.message == first + Octets(before)
    modifies md5, md5.state, md5.buffer
    ensures md5.Valid() && md5.message == first + Octets(before + text)
  {
    md5.MD5Update(Octets(text));
    OctetsConcat(before, text);
  }

  method AbsorbNonceText(md5: Md5.Context, ghost time: seq<byte>, httpMethod: string, rnd: string, uri: string, realm: string)
    requires md5.Valid() && md5.message == time
    modifies md5, md5.state, md5.buffer
    ensures md5.Valid() && md5.message == time + Octets(NonceText(httpMethod, rnd, uri, realm))
  {
    hide Octets, Md5.Context.Valid;
    NoOctets();
    assert time + [] == time && "" + ":" == ":";
    AbsorbAfter(md5, time, "", ":");
    ghost var text := ":" + httpMethod;
    AbsorbAfter(md5, time, ":", httpMethod);
    AbsorbAfter(md5, time, text, ":");
    if |rnd| > 0 {
      AbsorbAfter(md5, time, text + ":", rnd);
    } else {
      assert text + ":" + rnd == text + ":";
    }
    text := text + ":" + rnd;
    AbsorbAfter(md5, time, text, ":");
    AbsorbAfter(md5, time, text + ":", uri);
    AbsorbAfter(md5, time, text + ":" + uri, ":");
    AbsorbAfter(md5, time, text + ":" + uri + ":", realm);
  }

  /** calculate_nonce. */
  method CalculateNonce(nonceTime: nat, httpMethod: string, rnd: string, uri: string, realm: string, nonce: array<char>)
    requires nonceTime < UINT32_LIMIT && nonce.Length == NONCE_STD_LEN + 1
    modifies nonce
    ensures nonce[..] == ServerNonce(nonceTime, httpMethod, rnd, uri, realm) + [NUL]
    ensures IsPart(httpMethod) && IsPart(rnd) && IsPart(uri) ==>
              IsNonceOf(nonce[..NONCE_STD_LEN], Timestamp(nonceTime), ["", httpMethod, rnd, uri, realm])
  {
    hide Octets, Hex, Md5.Digest, NonceText, IsPart, IsNonceOf;
    if IsPart(httpMethod) && IsPart(rnd) && IsPart(uri) { NonceHashes(nonceTime, httpMethod, rnd, uri, realm); }
    var timestamp := [nonceTime / 0x100_0000 % 256, nonceTime / 0x1_0000 % 256, nonceTime / 0x100 % 256, nonceTime % 256];
    var tmpnonce := new byte[Md5.DIGEST];
    HashNonce(timestamp, httpMethod, rnd, uri, realm, tmpnonce);
    Cvthex(tmpnonce[..], nonce);
    var timestamphex := new char[TIMESTAMP_HEX_LEN + 1];
    Cvthex(timestamp, timestamphex);
    HexIsText(tmpnonce[..]);
    Append(nonce, Hex(tmpnonce[..]), timestamphex[..8]);
  }

  /** strncat (dest, src, |src|) onto a buffer that holds `text`. */
  method Append(dest: array<char>, text: string, src: string)
    requires |text| + |src| + 1 == dest.Length
    requires dest[..|text|] == text && dest[|text|] == NUL && NUL !in text
    modifies dest
    ensures dest[..] == text + src + [NUL]
  {
    IndexOfIs(dest[..], NUL, 0, |text|);
    var end := EndOf(dest[..], 0);
    forall i | 0 <= i < |src| { dest[end + i] := src[i]; }
    dest[end + |src|] := NUL;
  }

  function Compose(a: nat, b: nat, c: nat, d: nat): nat {
    0x100_0000 * a + 0x1_0000 * b + 0x100 * c + d
  }

  lemma BigEndianOfFour(b: seq<byte>)
    requires |b| == 4
    ensures BigEndian(b) == Compose(b[0], b[1], b[2], b[3])
  {
    assert b[..3][..2] == b[..2] && b[..2][..1] == b[..1] && b[..1][..0] == [];
    assert BigEndian(b[..1]) == Compose(0, 0, 0, b[0]);
    assert BigEndian(b[..2]) == Compose(0, 0, b[0], b[1]);
    assert BigEndian(b[..3]) == Compose(0, b[0], b[1], b[2]);
  }

  lemma AllHexPrefix(s: string, n: nat)
    requires |s| == n && forall i :: 0 <= i < |s| ==> HexValue(s[i]) >= 0
    ensures HexPrefix(s, n) == n
  {
    HexPrefixIs(s, n, n);
  }

  lemma TimestampComposes(t: nat)
    requires t < UINT32_LIMIT
    ensures BigEndian(Timestamp(t)) == t
  {
    hide BigEndian;
    BigEndianOfFour(Timestamp(t));
    var a, b := t / 0x100, t / 0x1_0000;
    assert b == a / 0x100 && t / 0x100_0000 == b / 0x100;
  }

  lemma TimestampReadsBack(t: nat)
    requires t < UINT32_LIMIT
    ensures HexToUint(Hex(Timestamp(t)), TIMESTAMP_HEX_LEN, UINT32_MAX) == (TIMESTAMP_HEX_LEN, t)
  {
    hide Hex, HexPrefix, HexNumber, BigEndian, Timestamp;
    var s := Hex(Timestamp(t));
    HexIsText(Timestamp(t));
    HexReadsBack(Timestamp(t));
    TimestampComposes(t);
    AllHexPrefix(s, 8);
    assert s[..8] == s;
  }

  /** The last eight digits of an issued nonce read back as its time. */
  lemma TimeReadsBack(t: nat, httpMethod: string, rnd: string, uri: string, realm: string)
    requires t < UINT32_LIMIT
    ensures var nonce := ServerNonce(t, httpMethod, rnd, uri, realm);
            HexToUint(nonce[|nonce| - TIMESTAMP_HEX_LEN..], TIMESTAMP_HEX_LEN, UINT32_MAX) == (TIMESTAMP_HEX_LEN, t)
  {
    hide Octets, NonceText, Md5.Digest, Hex, HexToUint;
    var nonce := ServerNonce(t, httpMethod, rnd, uri, realm);
    assert nonce[|nonce| - TIMESTAMP_HEX_LEN..] == Hex(Timestamp(t));
    TimestampReadsBack(t);
  }

  /** An issued nonce is a text that a header field can carry. */
  lemma NonceIsText(t: nat, httpMethod: string, rnd: string, uri: string, realm: string)
    requires t < UINT32_LIMIT
    ensures var nonce := ServerNonce(t, httpMethod, rnd, uri, realm); NUL !in nonce && '"' !in nonce
  {
    hide Octets, NonceText, Md5.Digest, Hex;
    HexIsText(Md5.Digest(Timestamp(t) + Octets(NonceText(httpMethod, rnd, uri, realm))));
    HexIsText(Timestamp(t));
  }

  /** Nonces of different times differ. */
  lemma NonceTellsTime(t: nat, u: nat, httpMethod: string, rnd: string, uri: string, realm: string)
    requires t < UINT32_LIMIT && u < UINT32_LIMIT
    requires ServerNonce(t, httpMethod, rnd, uri, realm) == ServerNonce(u, httpMethod, rnd, uri, realm)
    ensures t == u
  {
    hide ServerNonce, HexToUint;
    TimeReadsBack(t, httpMethod, rnd, uri, realm);
    TimeReadsBack(u, httpMethod, rnd, uri, realm);
  }

  /** The first level of vetting, in the 32-bit arithmetic of the program. */
  predicate InTime(nonceTime: nat, timeout: nat, now: nat) {
    var end := (nonceTime + timeout) % UINT32_LIMIT;
    !(now > end || end < nonceTime)
  }

  /** It asks exactly that the end of the validity is representable and not over. */
  lemma InTimeExactly(nonceTime: nat, timeout: nat, now: nat)
    requires nonceTime < UINT32_LIMIT && timeout < UINT32_LIMIT
    ensures InTime(nonceTime, timeout, now) <==> nonceTime + timeout < UINT32_LIMIT && now <= nonceTime + timeout
  {
    if nonceTime + timeout >= UINT32_LIMIT {
      assert (nonceTime + timeout) % UINT32_LIMIT == nonceTime + timeout - UINT32_LIMIT;
    }
  }

  /** Both vettings of MHD_digest_auth_check on a nonce value. */
  predicate Vetted(nonce: string, httpMethod: string, rnd: string, uri: string, realm: string, timeout: nat, now: nat)
    requires TIMESTAMP_HEX_LEN <= |nonce|
  {
    var (n, t) := HexToUint(nonce[|nonce| - TIMESTAMP_HEX_LEN..], TIMESTAMP_HEX_LEN, UINT32_MAX);
    && n == TIMESTAMP_HEX_LEN
    && InTime(t, timeout, now)
    && nonce == ServerNonce(t, httpMethod, rnd, uri, realm)
  }

  /** The vetted nonces are exactly the issued ones that are still valid. */
  lemma VettedExactly(nonce: string, httpMethod: string, rnd: string, uri: string, realm: string, timeout: nat, now: nat)
    requires TIMESTAMP_HEX_LEN <= |nonce| && timeout < UINT32_LIMIT
    ensures Vetted(nonce, httpMethod, rnd, uri, realm, timeout, now) <==>
              exists t :: && 0 <= t < UINT32_LIMIT && nonce == ServerNonce(t, httpMethod, rnd, uri, realm)
                          && now <= t + timeout < UINT32_LIMIT
  {
    hide ServerNonce, HexToUint;
    if t :| 0 <= t < UINT32_LIMIT && nonce == ServerNonce(t, httpMethod, rnd, uri, realm) && now <= t + timeout < UINT32_LIMIT {
      TimeReadsBack(t, httpMethod, rnd, uri, realm);
      InTimeExactly(t, timeout, now);
    }
    if Vetted(nonce, httpMethod, rnd, uri, realm, timeout, now) {
      var (n, t) := HexToUint(nonce[|nonce| - TIMESTAMP_HEX_LEN..], TIMESTAMP_HEX_LEN, UINT32_MAX);
      InTimeExactly(t, timeout, now);
    }
  }
}
