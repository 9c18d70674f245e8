/** What digest authentication is for: a client that knows the password and follows
    section 3.2.2 of RFC 2617 is accepted, and whoever is accepted presented a nonce of
    the server's form and the digest made with the password, for a URI that begins with
    the URL of the request and has its arguments. */
module DigestAuthLaws {
  import opened CStrings
  import opened AuthHeader
  import opened AuthHeaderLaws
  import opened UrlArguments
  import opened UrlPrinting
  import opened QueryCuts
  import opened RequestArguments
  import opened DigestFormulas
  import Md5
  import opened NonceWindow
  import opened DigestAuth
  import opened DigestUri

  // ------------------------------------------------------------------ what a client writes

  /** The values of the fields that the client chooses or was given. */
  datatype Answering = Answering(nonce: string, cnonce: string, nc: string, uri: string, response: string)

  /** A text that comes through a buffer of the given size unchanged. */
  predicate Fits(v: string, size: nat) {
    0 < |v| < size
  }

  predicate IsCounter(nc: string) {
    && Fits(nc, 20)
    && (forall c :: c in nc ==> HexValue(c) >= 0)
    && HexNumber(nc) <= UINT64_MAX
  }

  /** The header that the client sends: fields in any order, with any spacing and
      quoting, and possibly further fields such as `opaque` or `algorithm`. */
  ghost predicate Sends(c: Connection, items: seq<Item>) {
    && items != [] && AllWritable(items)
    && c.authorization == Some(BASE + PrintFrom(items))
  }

  /** It states this account and these values, with qop=auth. */
  ghost predicate States(items: seq<Item>, s: Server, a: Answering) {
    && ValueWritten(items, "username") == Some(s.username) && Fits(s.username, MAX_USERNAME_LENGTH)
    && ValueWritten(items, "realm") == Some(s.realm) && Fits(s.realm, MAX_REALM_LENGTH)
    && ValueWritten(items, "nonce") == Some(a.nonce) && Fits(a.nonce, MAX_NONCE_LENGTH)
    && ValueWritten(items, "cnonce") == Some(a.cnonce) && Fits(a.cnonce, MAX_NONCE_LENGTH)
    && ValueWritten(items, "qop") == Some("auth")
    && ValueWritten(items, "nc") == Some(a.nc) && IsCounter(a.nc)
    && ValueWritten(items, "response") == Some(a.response) && Fits(a.response, MAX_AUTH_RESPONSE_LENGTH)
    && ValueWritten(items, "uri") == Some(a.uri) && a.uri != ""
  }

  function SpaceForUri(items: seq<Item>, s: Server, a: Answering): int
    requires items != []
  {
    Left(PrintFrom(items), s.username, s.realm, a.nonce)
  }

  lemma GotWritten(items: seq<Item>, key: string, v: string, size: nat)
    requires items != [] && AllWritable(items) && ValueWritten(items, key) == Some(v) && Fits(v, size)
    ensures Got(PrintFrom(items), key, size) == v
  {
    hide PrintFrom, Lookup, ValueWritten;
    LookupInvertsPrint(items, key);
  }

  lemma SpaceSuffices(items: seq<Item>, s: Server, a: Answering)
    requires items != [] && AllWritable(items) && States(items, s, a)
    ensures 0 <= SpaceForUri(items, s, a)
    ensures Got(PrintFrom(items), "uri", SpaceForUri(items, s, a) + 1) == a.uri
  {
    hide PrintFrom, Lookup, ValueWritten, Left, Cut;
    LookupInvertsPrint(items, "username");
    LookupInvertsPrint(items, "realm");
    LookupInvertsPrint(items, "nonce");
    LookupInvertsPrint(items, "uri");
    LeftHoldsTheUri(PrintFrom(items), s.username, s.realm, a.nonce);
  }

  function ClaimOf(items: seq<Item>, s: Server, a: Answering): Claim
    requires items != [] && 0 <= SpaceForUri(items, s, a) && IsCounter(a.nc)
  {
    Claim(PrintFrom(items), a.nonce, a.cnonce, "auth", a.nc, HexNumber(a.nc), a.response, SpaceForUri(items, s, a))
  }

  lemma CounterReads(nc: string)
    requires IsCounter(nc)
    ensures HexToUint(nc, |nc|, UINT64_MAX) == (|nc|, HexNumber(nc))
  {
    hide HexNumber, HexPrefix;
    AllHexPrefix(nc, |nc|);
    assert nc[..|nc|] == nc;
  }

  /** The last eight characters are hexadecimal digits. */
  predicate EndsInTime(nonce: string)
    requires TIMESTAMP_HEX_LEN <= |nonce|
  {
    forall i :: |nonce| - 8 <= i < |nonce| ==> HexValue(nonce[i]) >= 0
  }

  lemma TimeIsRead(nonce: string)
    requires TIMESTAMP_HEX_LEN <= |nonce|
    ensures EndsInTime(nonce) <==>
              HexToUint(nonce[|nonce| - TIMESTAMP_HEX_LEN..], TIMESTAMP_HEX_LEN, UINT32_MAX).0 == TIMESTAMP_HEX_LEN
  {
    hide HexNumber, HexPrefix;
    var t := nonce[|nonce| - 8..];
    var k := HexPrefix(t, 8);
    EightDigitsFit(t, k);
    if k == 8 {
      assert forall i :: |nonce| - 8 <= i < |nonce| ==> nonce[i] == t[i - (|nonce| - 8)];
    } else {
      assert nonce[|nonce| - 8 + k] == t[k];
    }
  }

  lemma EightDigitsFit(t: string, k: nat)
    requires |t| == 8 && k <= 8 && forall i :: 0 <= i < k ==> HexValue(t[i]) >= 0
    ensures HexNumber(t[..k]) <= UINT32_MAX
  {
    hide HexNumber, HexValue;
    DigitsAreBelow(t[..k], 8);
    assert Pow16(8) == UINT32_LIMIT;
  }

  /** Such a header passes the first stage exactly when its nonce is vetted; the
      claim then holds what the client stated.  Otherwise the nonce is called invalid if it
      ends in a time, and so the client may ask for a new one. */
  lemma VettingReadsTheClaim(c: Connection, s: Server, items: seq<Item>, a: Answering)
    requires Sends(c, items) && States(items, s, a) && SpaceForUri(items, s, a) <= MAX_URI
    requires TIMESTAMP_HEX_LEN <= |a.nonce|
    ensures 0 <= SpaceForUri(items, s, a)
    ensures Vetted(a.nonce, c.httpMethod, s.rnd, c.url, s.realm, s.timeout, s.now) ==>
              Vet(c, s) == Pending(ClaimOf(items, s, a))
    ensures !Vetted(a.nonce, c.httpMethod, s.rnd, c.url, s.realm, s.timeout, s.now) ==>
              Vet(c, s) == Refused(if EndsInTime(a.nonce) then InvalidNonce else No)
  {
    hide PrintFrom, Got, ValueWritten, AllWritable, HexToUint, ServerNonce, InTime, HexNumber;
    var h := PrintFrom(items);
    assert c.authorization.value[|BASE|..] == h;
    GotWritten(items, "username", s.username, MAX_USERNAME_LENGTH);
    GotWritten(items, "realm", s.realm, MAX_REALM_LENGTH);
    GotWritten(items, "nonce", a.nonce, MAX_NONCE_LENGTH);
    GotWritten(items, "cnonce", a.cnonce, MAX_NONCE_LENGTH);
    GotWritten(items, "qop", "auth", 15);
    GotWritten(items, "nc", a.nc, 20);
    GotWritten(items, "response", a.response, MAX_AUTH_RESPONSE_LENGTH);
    SpaceSuffices(items, s, a);
    CounterReads(a.nc);
    TimeIsRead(a.nonce);
    assert Vet(c, s) == VetNonce(c, s, h, a.nonce, SpaceForUri(items, s, a));
    assert VetCounter(h, a.nonce, SpaceForUri(items, s, a)) == Pending(ClaimOf(items, s, a));
  }

  /** A header for another account or another realm is refused, and no new nonce offered. */
  lemma OtherAccountIsRefused(c: Connection, s: Server, items: seq<Item>, username: string, realm: string)
    requires Sends(c, items)
    requires ValueWritten(items, "username") == Some(username) && Fits(username, MAX_USERNAME_LENGTH)
    requires ValueWritten(items, "realm") == Some(realm) && Fits(realm, MAX_REALM_LENGTH)
    requires username != s.username || realm != s.realm
    ensures Vet(c, s) == Refused(No)
  {
    hide PrintFrom, Got, ValueWritten, AllWritable, VetNonce, Left;
    assert c.authorization.value[|BASE|..] == PrintFrom(items);
    GotWritten(items, "username", username, MAX_USERNAME_LENGTH);
    GotWritten(items, "realm", realm, MAX_REALM_LENGTH);
  }

  /** The digest that the client has to compute, section 3.2.2.1 of RFC 2617. */
  function ClientDigest(c: Connection, s: Server, a: Answering): string {
    RequestDigest(HA1("md5", s.username, s.realm, s.password, a.nonce, a.cnonce), a.nonce, a.nc, a.cnonce, "auth",
                  c.httpMethod, a.uri)
  }

  /** What that digest is a hash of, for names, counter and nonces without a ':'. */
  lemma ClientHashes(c: Connection, s: Server, a: Answering)
    requires IsPart(s.username) && IsPart(s.realm) && IsPart(a.nonce) && IsPart(a.nc) && IsPart(a.cnonce) && IsPart(c.httpMethod)
    ensures exists ha1, ha2 ::
              && IsHashOf(ha1, [s.username, s.realm, s.password])
              && IsHashOf(ha2, [c.httpMethod, a.uri])
              && IsHashOf(ClientDigest(c, s, a), [ha1, a.nonce, a.nc, a.cnonce, "auth", ha2])
  {
    hide H, HA1, RequestDigest, IsHashOf, Hex, Md5.Digest, Octets;
    var ha1 := HA1("md5", s.username, s.realm, s.password, a.nonce, a.cnonce);
    HA1Hashes("md5", s.username, s.realm, s.password, a.nonce, a.cnonce);
    HashIsPart("md5", s.username, s.realm, s.password, a.nonce, a.cnonce);
    assert IsPart("auth");
    ResponseHashes(ha1, a.nonce, a.nc, a.cnonce, "auth", c.httpMethod, a.uri);
  }

  lemma HashIsPart(alg: string, username: string, realm: string, password: string, nonce: string, cnonce: string)
    ensures IsPart(HA1(alg, username, realm, password, nonce, cnonce))
  {
    hide Hex, Octets, Md5.Digest, A1;
    HexIsText(Md5.Digest(Octets(A1(username, realm, password))));
    HexIsText(Md5.Digest(Md5.Digest(Octets(A1(username, realm, password))) + Octets(":" + nonce + ":" + cnonce)));
  }

  /** Completeness and soundness for a well-formed header, whatever its response
      field says: past the vetting and the nonce table, the client is accepted if
      and only if its URI names the request and it sent the right digest. */
  lemma AnsweredExactly(c: Connection, s: Server, items: seq<Item>, a: Answering)
    requires Sends(c, items) && States(items, s, a) && 0 <= SpaceForUri(items, s, a)
    ensures Answers(c, s, ClaimOf(items, s, a)) <==> NamesRequest(c, a.uri) && a.response == ClientDigest(c, s, a)
  {
    hide PrintFrom, Got, ValueWritten, AllWritable, NamesRequest, HA1, RequestDigest;
    SpaceSuffices(items, s, a);
  }

  /** Soundness for every header: whoever is answered with MHD_YES presented a nonce
      of the form the server issues that has not expired, the names of the account, a
      URI that starts with the URL of the request and has matching arguments, and the
      digest of the account's password over these values. */
  lemma AcceptedIsAuthentic(c: Connection, s: Server)
    requires ServerOk(s) && Vet(c, s).Pending? && Answers(c, s, Vet(c, s).claim)
    ensures var claim := Vet(c, s).claim;
            && (exists t :: && 0 <= t < UINT32_LIMIT && s.now <= t + s.timeout < UINT32_LIMIT
                            && claim.nonce == ServerNonce(t, c.httpMethod, s.rnd, c.url, s.realm))
            && Got(claim.header, "username", MAX_USERNAME_LENGTH) == s.username
            && Got(claim.header, "realm", MAX_REALM_LENGTH) == s.realm
            && (exists uri :: && Lookup(claim.header, "uri") == Some(uri) && NamesRequest(c, uri)
                              && c.url <= UntilNul(Decode(uri))
                              && claim.response == ClientDigest(c, s, Answering(claim.nonce, claim.cnonce, claim.nc, uri, "")))
  {
    hide Lookup, ServerNonce, InTime, HexToUint, NamesRequest, HA1, RequestDigest, Left;
    var claim := Vet(c, s).claim;
    PendingIsVetted(c, s);
    VettedExactly(claim.nonce, c.httpMethod, s.rnd, c.url, s.realm, s.timeout, s.now);
    WholeUriIsRead(c, s);
    NamedBeginsWithUrl(c, Got(claim.header, "uri", claim.left + 1));
  }

  lemma NamedBeginsWithUrl(c: Connection, uri: string)
    requires NamesRequest(c, uri)
    ensures c.url <= UntilNul(Decode(uri))
  {
    hide Decode, ParseArguments, Received, ArgumentsMatch, UntilNul;
  }

  /** A claim that reaches the table has a counter of hexadecimal digits, and the table is
      asked about the number they denote. */
  lemma PendingIsCounted(c: Connection, s: Server)
    requires Vet(c, s).Pending?
    ensures var claim := Vet(c, s).claim;
            && claim.cnonce != "" && claim.qop == "auth" && claim.response != "" && claim.nc != ""
            && (forall d :: d in claim.nc ==> HexValue(d) >= 0)
            && claim.nci == HexNumber(claim.nc)
  {
    hide Got, ServerNonce, InTime, HexNumber, HexPrefix, Left;
    var nc := Vet(c, s).claim.nc;
    assert nc[..|nc|] == nc;
  }

  /** Names that the buffers cannot hold are never accepted. */
  lemma LongNamesAreRefused(c: Connection, s: Server)
    requires 128 <= |s.username| || 256 <= |s.realm|
    ensures Vet(c, s) == Refused(No)
  {
    hide Lookup, VetNonce, Left;
  }

  lemma PendingIsVetted(c: Connection, s: Server)
    requires Vet(c, s).Pending?
    ensures var nonce := Vet(c, s).claim.nonce;
            |nonce| == NONCE_STD_LEN && Vetted(nonce, c.httpMethod, s.rnd, c.url, s.realm, s.timeout, s.now)
  {
    hide Got, ServerNonce, InTime, HexToUint, Left;
  }

  /** The space computed for the URI always holds all of it. */
  lemma WholeUriIsRead(c: Connection, s: Server)
    requires Vet(c, s).Pending?
    ensures var claim := Vet(c, s).claim;
            match Lookup(claim.header, "uri")
            case None => Got(claim.header, "uri", claim.left + 1) == ""
            case Some(uri) => Got(claim.header, "uri", claim.left + 1) == uri
  {
    hide Lookup, ServerNonce, InTime, HexToUint, Left, Cut;
    var h := Vet(c, s).claim.header;
    var un, r, nonce := Got(h, "username", MAX_USERNAME_LENGTH), Got(h, "realm", MAX_REALM_LENGTH), Got(h, "nonce", MAX_NONCE_LENGTH);
    assert Vet(c, s).claim.left == Left(h, un, r, nonce);
    GotSomething(h, "username", MAX_USERNAME_LENGTH);
    GotSomething(h, "realm", MAX_REALM_LENGTH);
    GotSomething(h, "nonce", MAX_NONCE_LENGTH);
    LeftHoldsTheUri(h, un, r, nonce);
  }

  // ------------------------------------------------------------------ end to end

  /** The client answers a challenge issued at time t0 for this request: it holds
      the nonce, counts, names the target and computes the digest. */
  ghost predicate Honest(c: Connection, s: Server, items: seq<Item>, a: Answering, t: Target, t0: nat) {
    && t0 < UINT32_LIMIT
    && Sends(c, items) && States(items, s, a) && SpaceForUri(items, s, a) <= MAX_URI
    && a.nonce == ServerNonce(t0, c.httpMethod, s.rnd, c.url, s.realm)
    && Requested(c, t) && IsTarget(t) && PlainPath(t) && Alike(QueryOf(t)) && a.uri == UriOf(t)
    && a.response == ClientDigest(c, s, a)
  }

  /** The nonce has not expired. */
  ghost predicate StillValid(s: Server, t0: nat) {
    s.now <= t0 + s.timeout < UINT32_LIMIT
  }

  // A header that an honest client may send.

  function Quoted(key: string, value: string): Item {
    Item(1, key, 0, true, value, "")
  }

  /** The eight fields, quoted, one space behind every comma. */
  function StandardItems(s: Server, a: Answering): seq<Item> {
    [Quoted("username", s.username), Quoted("realm", s.realm), Quoted("nonce", a.nonce), Quoted("uri", a.uri),
     Quoted("cnonce", a.cnonce), Quoted("qop", "auth"), Quoted("nc", a.nc), Quoted("response", a.response)]
  }

  /** The values can be quoted and fit the buffers. */
  predicate Quotable(s: Server, a: Answering) {
    && '"' !in s.username && Fits(s.username, MAX_USERNAME_LENGTH)
    && '"' !in s.realm && Fits(s.realm, MAX_REALM_LENGTH)
    && '"' !in a.nonce && Fits(a.nonce, MAX_NONCE_LENGTH)
    && '"' !in a.cnonce && Fits(a.cnonce, MAX_NONCE_LENGTH)
    && '"' !in a.nc && IsCounter(a.nc)
    && '"' !in a.response && Fits(a.response, MAX_AUTH_RESPONSE_LENGTH)
    && '"' !in a.uri && a.uri != ""
  }

  lemma {:induction false} WrittenAt(items: seq<Item>, i: nat, key: string)
    requires i < |items| && EqualCaseless(items[i].key, key)
    requires forall j :: 0 <= j < i ==> !EqualCaseless(items[j].key, key)
    ensures ValueWritten(items, key) == Some(items[i].value)
  {
    hide EqualCaseless;
    if i == 0 {
    } else {
      WrittenAt(items[1..], i - 1, key);
    }
  }

  const STANDARD_KEYS: seq<string> := ["username", "realm", "nonce", "uri", "cnonce", "qop", "nc", "response"]

  lemma StandardKeysDiffer()
    ensures Distinct(STANDARD_KEYS)
  {
    assert ToLower("realm"[0]) != ToLower("nonce"[0]);
    assert ToLower("uri"[0]) != ToLower("qop"[0]);
    assert ToLower("username"[0]) != ToLower("response"[0]);
  }

  lemma StandardValue(s: Server, a: Answering, i: nat)
    requires i < 8
    ensures ValueWritten(StandardItems(s, a), STANDARD_KEYS[i]) == Some(StandardItems(s, a)[i].value)
  {
    hide EqualCaseless;
    StandardKeysDiffer();
    var items := StandardItems(s, a);
    assert forall j :: 0 <= j < 8 ==> items[j].key == STANDARD_KEYS[j];
    SameKey(STANDARD_KEYS[i]);
    WrittenAt(items, i, STANDARD_KEYS[i]);
  }

  lemma SameKey(key: string)
    ensures EqualCaseless(key, key)
  {
  }

  lemma StandardHeaderStates(s: Server, a: Answering)
    requires Quotable(s, a)
    ensures AllWritable(StandardItems(s, a)) && States(StandardItems(s, a), s, a)
  {
    hide IsCounter, Fits, ValueWritten;
    forall i: nat | i < 8
      ensures ValueWritten(StandardItems(s, a), STANDARD_KEYS[i]) == Some(StandardItems(s, a)[i].value)
    {
      StandardValue(s, a, i);
    }
    var items := StandardItems(s, a);
    assert ValueWritten(items, STANDARD_KEYS[0]) == Some(items[0].value);
    assert ValueWritten(items, STANDARD_KEYS[1]) == Some(items[1].value);
    assert ValueWritten(items, STANDARD_KEYS[2]) == Some(items[2].value);
    assert ValueWritten(items, STANDARD_KEYS[3]) == Some(items[3].value);
    assert ValueWritten(items, STANDARD_KEYS[4]) == Some(items[4].value);
    assert ValueWritten(items, STANDARD_KEYS[5]) == Some(items[5].value);
    assert ValueWritten(items, STANDARD_KEYS[6]) == Some(items[6].value);
    assert ValueWritten(items, STANDARD_KEYS[7]) == Some(items[7].value);
  }

  /** key="value" */
  function Assignment(key: string, value: string): string {
    key + ("=\"" + value + "\"")
  }

  function CommaSeparated(texts: seq<string>): string
    requires texts != []
  {
    if |texts| == 1 then texts[0] else texts[0] + (", " + CommaSeparated(texts[1..]))
  }

  /** The texts of quoted fields. */
  function Assignments(items: seq<Item>): (texts: seq<string>)
    ensures |texts| == |items|
  {
    seq(|items|, i requires 0 <= i < |items| => Assignment(items[i].key, items[i].value))
  }

  lemma PrintedFirst(items: seq<Item>)
    requires items != [] && items[0] == Quoted(items[0].key, items[0].value)
    ensures PrintFrom(items) == Assignment(items[0].key, items[0].value) + PrintMore(items[1..])
  {
    hide PrintMore;
    assert Spaces(0) == "";
  }

  lemma PrintedNext(items: seq<Item>)
    requires items != [] ==> items[0].lead == 1
    ensures PrintMore(items) == if items == [] then "" else ", " + PrintFrom(items)
  {
    hide PrintFrom;
    assert Spaces(1) == " ";
  }

  lemma {:induction false} QuotedArePrinted(items: seq<Item>)
    requires items != [] && forall i :: 0 <= i < |items| ==> items[i] == Quoted(items[i].key, items[i].value)
    ensures PrintFrom(items) == CommaSeparated(Assignments(items))
    decreases |items|
  {
    hide PrintFrom, PrintMore, Assignment;
    PrintedFirst(items);
    PrintedNext(items[1..]);
    if |items| == 1 {
    } else {
      QuotedArePrinted(items[1..]);
      assert Assignments(items)[1..] == Assignments(items[1..]);
    }
  }

  /** The header as a text. */
  lemma StandardHeaderIs(s: Server, a: Answering)
    ensures var texts := [
              Assignment("username", s.username), Assignment("realm", s.realm), Assignment("nonce", a.nonce),
              Assignment("uri", a.uri), Assignment("cnonce", a.cnonce), Assignment("qop", "auth"), Assignment("nc", a.nc),
              Assignment("response", a.response)];
            BASE + PrintFrom(StandardItems(s, a)) == "Digest " + CommaSeparated(texts)
  {
    hide PrintFrom, Assignment, CommaSeparated;
    QuotedArePrinted(StandardItems(s, a));
    var texts := [
      Assignment("username", s.username), Assignment("realm", s.realm), Assignment("nonce", a.nonce),
      Assignment("uri", a.uri), Assignment("cnonce", a.cnonce), Assignment("qop", "auth"), Assignment("nc", a.nc),
      Assignment("response", a.response)];
    assert Assignments(StandardItems(s, a)) == texts;
  }

  lemma SeparatedLength(texts: seq<string>, i: nat)
    requires i < |texts|
    ensures |CommaSeparated(texts[i..])| == |texts[i]| + if i + 1 == |texts| then 0 else 2 + |CommaSeparated(texts[i + 1..])|
  {
    hide CommaSeparated;
    assert texts[i..][0] == texts[i] && texts[i..][1..] == texts[i + 1..];
    SeparatedStep(texts[i..]);
  }

  lemma SeparatedStep(texts: seq<string>)
    requires texts != []
    ensures |CommaSeparated(texts)| == |texts[0]| + if |texts| == 1 then 0 else 2 + |CommaSeparated(texts[1..])|
  {
  }

  lemma EightLengths(texts: seq<string>)
    requires |texts| == 8
    ensures |CommaSeparated(texts)| == |texts[0]| + |texts[1]| + |texts[2]| + |texts[3]| + |texts[4]| + |texts[5]|
                                       + |texts[6]| + |texts[7]| + 14
  {
    hide CommaSeparated;
    SeparatedLength(texts, 7);
    SeparatedLength(texts, 6);
    SeparatedLength(texts, 5);
    SeparatedLength(texts, 4);
    SeparatedLength(texts, 3);
    SeparatedLength(texts, 2);
    SeparatedLength(texts, 1);
    SeparatedLength(texts, 0);
    assert texts[0..] == texts;
  }

  /** The space it leaves for the URI. */
  lemma StandardHeaderIsShort(s: Server, a: Answering)
    requires Quotable(s, a)
    ensures SpaceForUri(StandardItems(s, a), s, a) == |a.uri| + |a.cnonce| + |a.nc| + |a.response| + 64
    ensures SpaceForUri(StandardItems(s, a), s, a) <= |a.uri| + 400
  {
    hide PrintFrom, HexNumber, CommaSeparated;
    QuotedArePrinted(StandardItems(s, a));
    EightLengths(Assignments(StandardItems(s, a)));
  }

  /** More than 32 kB are refused before the nonce is looked at. */
  lemma LongUriIsRefused(c: Connection, s: Server, a: Answering)
    requires Quotable(s, a) && c.authorization == Some(BASE + PrintFrom(StandardItems(s, a)))
    requires 32 * 1024 - 64 < |a.uri| + |a.cnonce| + |a.nc| + |a.response|
    ensures Vet(c, s) == Refused(No)
  {
    hide PrintFrom, HexNumber, StandardItems, Got, VetNonce, ValueWritten, Left;
    var items := StandardItems(s, a);
    EightItems(s, a);
    StandardHeaderStates(s, a);
    StandardHeaderIsShort(s, a);
    assert c.authorization.value[|BASE|..] == PrintFrom(items);
    GotWritten(items, "username", s.username, MAX_USERNAME_LENGTH);
    GotWritten(items, "realm", s.realm, MAX_REALM_LENGTH);
    GotWritten(items, "nonce", a.nonce, MAX_NONCE_LENGTH);
  }

  lemma AnswerIsQuotable(c: Connection, s: Server, a: Answering, t0: nat)
    requires '"' !in s.username && Fits(s.username, MAX_USERNAME_LENGTH)
    requires '"' !in s.realm && Fits(s.realm, MAX_REALM_LENGTH)
    requires '"' !in a.cnonce && Fits(a.cnonce, MAX_NONCE_LENGTH) && IsCounter(a.nc)
    requires '"' !in a.uri && a.uri != ""
    requires t0 < UINT32_LIMIT && a.nonce == ServerNonce(t0, c.httpMethod, s.rnd, c.url, s.realm)
    requires a.response == ClientDigest(c, s, a)
    ensures Quotable(s, a)
  {
    hide ServerNonce, HexNumber, HA1;
    NonceIsText(t0, c.httpMethod, s.rnd, c.url, s.realm);
    DigestIsText(c, s, a);
    CounterIsText(a.nc);
  }

  /** A client whose names, counter, random value and URI can be quoted is honest if it
      puts the issued nonce and the digest into the standard header. */
  lemma StandardHeaderIsHonest(c: Connection, s: Server, a: Answering, t: Target, t0: nat)
    requires '"' !in s.username && Fits(s.username, MAX_USERNAME_LENGTH)
    requires '"' !in s.realm && Fits(s.realm, MAX_REALM_LENGTH)
    requires '"' !in a.cnonce && Fits(a.cnonce, MAX_NONCE_LENGTH) && IsCounter(a.nc)
    requires '"' !in a.uri && a.uri != "" && |a.uri| + 400 <= MAX_URI
    requires t0 < UINT32_LIMIT && a.nonce == ServerNonce(t0, c.httpMethod, s.rnd, c.url, s.realm)
    requires Requested(c, t) && IsTarget(t) && PlainPath(t) && Alike(QueryOf(t))
    requires a.uri == UriOf(t)
    requires a.response == ClientDigest(c, s, a)
    requires c.authorization == Some(BASE + PrintFrom(StandardItems(s, a)))
    ensures Honest(c, s, StandardItems(s, a), a, t, t0)
  {
    hide ServerNonce, PrintFrom, Requested, PlainPath, Alike, UriOf, QueryOf, ValueWritten, HexNumber, HA1, AllWritable,
      SpaceForUri, StandardItems, States, Quotable, ClientDigest;
    AnswerIsQuotable(c, s, a, t0);
    StandardHeaderStates(s, a);
    StandardHeaderIsShort(s, a);
    EightItems(s, a);
  }

  lemma EightItems(s: Server, a: Answering)
    ensures StandardItems(s, a) != []
  {
  }

  lemma CounterIsText(nc: string)
    requires IsCounter(nc)
    ensures '"' !in nc
  {
    hide HexNumber;
  }

  lemma DigestIsText(c: Connection, s: Server, a: Answering)
    ensures '"' !in ClientDigest(c, s, a) && |ClientDigest(c, s, a)| == HASH_MD5_HEX_LEN
  {
    hide HA1, H, Hex;
    forall data: string
      ensures '"' !in H(data)
    {
      HashIsText(data);
    }
  }

  lemma HashIsText(data: string)
    ensures '"' !in H(data)
  {
    hide Hex, Octets, Md5.Digest;
    HexIsText(Md5.Digest(Octets(data)));
  }

  /** An honest client passes every stage: the vetting yields its claim, a slot that
      holds the nonce with a smaller maximum accepts it, and its answer is right.
      If the nonce has expired, it is told so. */
  lemma HonestClientPasses(c: Connection, s: Server, items: seq<Item>, a: Answering, t: Target, t0: nat, w: Window)
    requires ServerOk(s) && Honest(c, s, items, a, t, t0)
    ensures 0 <= SpaceForUri(items, s, a)
    ensures StillValid(s, t0) ==> Vet(c, s) == Pending(ClaimOf(items, s, a))
    ensures !StillValid(s, t0) ==> Vet(c, s) == Refused(InvalidNonce)
    ensures Answers(c, s, ClaimOf(items, s, a))
    ensures w.nonce == a.nonce && w.max < HexNumber(a.nc) ==> Judge(w, Request(a.nonce, HexNumber(a.nc))) == Forward
  {
    hide PrintFrom, ValueWritten, AllWritable, Vet, Answers, NamesRequest, ClientDigest, ServerNonce, Decode, ParseArguments,
      Received, HexNumber, SpaceForUri, Requested;
    assert SpaceForUri(items, s, a) <= MAX_URI;
    VettingReadsTheClaim(c, s, items, a);
    HonestNonce(c, s, a, t0);
    IssuedEndsInTime(c, s, a, t0);
    AlikeQueryNamesRequest(c, t);
    AnsweredExactly(c, s, items, a);
  }

  lemma IssuedEndsInTime(c: Connection, s: Server, a: Answering, t0: nat)
    requires t0 < UINT32_LIMIT && a.nonce == ServerNonce(t0, c.httpMethod, s.rnd, c.url, s.realm)
    ensures EndsInTime(a.nonce)
  {
    hide ServerNonce, EndsInTime, HexToUint;
    TimeReadsBack(t0, c.httpMethod, s.rnd, c.url, s.realm);
    TimeIsRead(a.nonce);
  }

  /** Of issued nonces exactly those that have not expired are vetted. */
  lemma HonestNonce(c: Connection, s: Server, a: Answering, t0: nat)
    requires ServerOk(s) && t0 < UINT32_LIMIT
    requires a.nonce == ServerNonce(t0, c.httpMethod, s.rnd, c.url, s.realm)
    ensures Vetted(a.nonce, c.httpMethod, s.rnd, c.url, s.realm, s.timeout, s.now) <==> StillValid(s, t0)
  {
    hide ServerNonce, HexToUint, Vetted;
    VettedExactly(a.nonce, c.httpMethod, s.rnd, c.url, s.realm, s.timeout, s.now);
    forall t | 0 <= t < UINT32_LIMIT && a.nonce == ServerNonce(t, c.httpMethod, s.rnd, c.url, s.realm)
      ensures t == t0
    {
      NonceTellsTime(t, t0, c.httpMethod, s.rnd, c.url, s.realm);
    }
  }

  /** The window of its slot decides about an honest answer in time with the counter n. */
  predicate Admitted(w: Window, nonce: string, n: uint64) {
    n == 0 || (InReach(w, n) && n !in w.late) || (w.max < n && w.nonce == nonce)
  }

  /** What an honest answer in time gets, and what becomes of the table, for every window
      that the slot of its nonce may hold.  At most 64 below the maximum the nonce that
      the slot holds does not matter. */
  method HonestAnswerExactly(table: NonceTable, c: Connection, s: Server, items: seq<Item>, a: Answering, t: Target,
                             ghost t0: nat, ghost w: Window, ghost n: uint64)
    returns (r: Result)
    requires table.Valid() && 0 < |table.nnc| && ServerOk(s) && ConnectionOk(c)
    requires IsCounter(a.nc) && HexNumber(a.nc) == n
    requires Honest(c, s, items, a, t, t0) && StillValid(s, t0)
    requires table.State()[SlotOf(a.nonce, |table.nnc|)] == Live(w)
    modifies table.nnc
    ensures table.Valid() && r == if Admitted(w, a.nonce, n) then Yes else No
    ensures table.State() == old(table.State())[SlotOf(a.nonce, |table.nnc|) := Live(Present(w, Request(a.nonce, n)))]
  {
    hide Honest, Vet, Answers, ServerNonce, HexNumber, Requested, ClaimOf, SpaceForUri, SlotOf;
    HonestHasNonce(c, s, items, a, t, t0);
    HonestClientPasses(c, s, items, a, t, t0, w);
    ClaimHoldsNonce(items, s, a);
    ghost var v, accepted;
    r, v, accepted := DigestAuthCheck(table, c, s);
  }

  /** In particular it is accepted whenever the slot of its nonce still holds it with a
      smaller maximum, whatever else the table holds; then its counter is the maximum, so
      that the next answer needs a greater one. */
  method AnswerIsAccepted(table: NonceTable, c: Connection, s: Server, items: seq<Item>, a: Answering, t: Target,
                          ghost t0: nat, ghost w: Window)
    returns (r: Result)
    requires table.Valid() && 0 < |table.nnc| && ServerOk(s) && ConnectionOk(c)
    requires Honest(c, s, items, a, t, t0) && StillValid(s, t0)
    requires table.State()[SlotOf(a.nonce, |table.nnc|)] == Live(w) && w.nonce == a.nonce && w.max < HexNumber(a.nc)
    modifies table.nnc
    ensures table.Valid() && r == Yes
    ensures table.State() == old(table.State())[SlotOf(a.nonce, |table.nnc|) := Live(w.(max := HexNumber(a.nc)))]
  {
    hide Honest, ServerNonce, HexNumber, SlotOf, StillValid;
    HonestHasNonce(c, s, items, a, t, t0);
    r := HonestAnswerExactly(table, c, s, items, a, t, t0, w, HexNumber(a.nc));
  }

  /** The whole exchange on the server's own data structures: it issues a nonce, any
      other calls reach the table in the meantime, and an answer of an honest client in
      time is MHD_YES unless one of them registered a nonce in the same slot or used up
      the counter. */
  method LaterAnswerIsAccepted(table: NonceTable, challenged: Connection, before: Server, others: seq<Request>,
                               c: Connection, s: Server, items: seq<Item>, a: Answering, t: Target)
    returns (r: Result)
    requires table.Valid() && 0 < |table.nnc| && ServerOk(before) && ServerOk(s) && ConnectionOk(c)
    requires before.rnd == s.rnd && before.realm == s.realm
    requires challenged.httpMethod == c.httpMethod && challenged.url == c.url
    requires Honest(c, s, items, a, t, before.now) && StillValid(s, before.now) && 0 < HexNumber(a.nc)
    requires LeavesRoom(others, a.nonce, HexNumber(a.nc), |table.nnc|)
    modifies table.nnc
    ensures r == Yes
  {
    hide Honest, Vet, Answers, ServerNonce, HexNumber, Requested, ClaimOf, SpaceForUri, SlotOf, LeavesRoom, Call,
      StillValid;
    var ok, nonce := IssueNonce(table, challenged, before);
    HonestHasNonce(c, s, items, a, t, before.now);
    ghost var state := table.State();
    for k := 0 to |others|
      invariant table.Valid() && table.State() == Calls(state, others[..k])
    {
      var accepted := table.CheckNonceNc(others[k].nonce, others[k].nc);
      assert others[..k + 1][..k] == others[..k];
    }
    assert others[..|others|] == others;
    SlotKeepsRoom(state, others, Window(nonce, 0, {}), HexNumber(a.nc));
    ghost var slot := table.State()[SlotOf(nonce, |table.nnc|)];
    r := AnswerIsAccepted(table, c, s, items, a, t, before.now, slot.window);
  }

  /** In particular the first answer after the challenge. */
  method FirstAnswerIsAccepted(table: NonceTable, challenged: Connection, before: Server,
                               c: Connection, s: Server, items: seq<Item>, a: Answering, t: Target)
    returns (r: Result)
    requires table.Valid() && 0 < |table.nnc| && ServerOk(before) && ServerOk(s) && ConnectionOk(c)
    requires before.rnd == s.rnd && before.realm == s.realm
    requires challenged.httpMethod == c.httpMethod && challenged.url == c.url
    requires Honest(c, s, items, a, t, before.now) && StillValid(s, before.now) && 0 < HexNumber(a.nc)
    modifies table.nnc
    ensures r == Yes
  {
    hide Honest, StillValid, HexNumber;
    r := LaterAnswerIsAccepted(table, challenged, before, [], c, s, items, a, t);
  }

  // ------------------------------------------------------------------ the counter 0

  /** An answer with the counter 0 is accepted whatever the slot holds, and empties the
      window of its nonce: the check hands the client's counter to the function that
      takes 0 as a registration. */
  method ZeroCounterRestartsWindow(table: NonceTable, c: Connection, s: Server) returns (r: Result)
    requires table.Valid() && 0 < |table.nnc| && ConnectionOk(c) && ServerOk(s)
    requires Vet(c, s).Pending? && Vet(c, s).claim.nci == 0 && Answers(c, s, Vet(c, s).claim)
    modifies table.nnc
    ensures table.Valid() && r == Yes
    ensures var nonce := Vet(c, s).claim.nonce;
            table.State() == old(table.State())[SlotOf(nonce, |table.nnc|) := Live(Window(nonce, 0, {}))]
  {
    hide Vet, Answers, SlotOf;
    ghost var v, accepted;
    r, v, accepted := DigestAuthCheck(table, c, s);
  }

  /** So the same answer is accepted again behind one with the counter 0. */
  method AnswerRepeatsAfterZero(table: NonceTable, zero: Connection, s0: Server, c: Connection, s: Server)
    returns (first: Result, second: Result)
    requires table.Valid() && 0 < |table.nnc| && ConnectionOk(zero) && ConnectionOk(c) && ServerOk(s0) && ServerOk(s)
    requires Vet(zero, s0).Pending? && Vet(zero, s0).claim.nci == 0 && Answers(zero, s0, Vet(zero, s0).claim)
    requires Vet(c, s).Pending? && Vet(c, s).claim.nci > 0 && Answers(c, s, Vet(c, s).claim)
    requires Vet(zero, s0).claim.nonce == Vet(c, s).claim.nonce
    modifies table.nnc
    ensures first == second == Yes
  {
    hide Vet, Answers, SlotOf;
    ghost var v, accepted;
    var r := ZeroCounterRestartsWindow(table, zero, s0);
    first, v, accepted := DigestAuthCheck(table, c, s);
    r := ZeroCounterRestartsWindow(table, zero, s0);
    second, v, accepted := DigestAuthCheck(table, c, s);
  }

  lemma HonestHasNonce(c: Connection, s: Server, items: seq<Item>, a: Answering, t: Target, t0: nat)
    requires Honest(c, s, items, a, t, t0)
    ensures t0 < UINT32_LIMIT && a.nonce == ServerNonce(t0, c.httpMethod, s.rnd, c.url, s.realm)
    ensures IsCounter(a.nc) && items != []
  {
    hide ServerNonce, Requested, UriOf, QueryOf, ClientDigest, SpaceForUri;
  }

  lemma ClaimHoldsNonce(items: seq<Item>, s: Server, a: Answering)
    requires items != [] && 0 <= SpaceForUri(items, s, a) && IsCounter(a.nc)
    ensures ClaimOf(items, s, a).nonce == a.nonce && ClaimOf(items, s, a).nci == HexNumber(a.nc)
  {
  }
}
