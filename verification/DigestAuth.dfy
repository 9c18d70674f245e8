/** `MHD_digest_auth_check` of digestauth.c and the registration of a nonce in
    `MHD_queue_auth_fail_response`.

    The check runs in three stages: `Vet` reads the fields of the header and judges
    everything that can be judged without the nonce table, the table then accepts
    or refuses the counter value, and `Answers` compares the URI, its arguments and
    the response digest. */
module DigestAuth {
  import opened CStrings
  import opened AuthHeader
  import opened AuthHeaderLaws
  import opened UrlArguments
  import opened RequestArguments
  import opened DigestFormulas
  import opened NonceWindow

  const MAX_USERNAME_LENGTH: nat := 128
  const MAX_REALM_LENGTH: nat := 256
  const MAX_AUTH_RESPONSE_LENGTH: nat := 128
  const MAX_URI: int := 32 * 1024

  /** MHD_YES, MHD_NO and MHD_INVALID_NONCE. */
  datatype Result = Yes | No | InvalidNonce

  /** What the check reads of a connection: `authorization` is the value of the
      Authorization header if there is one. */
  datatype Connection = Connection(httpMethod: string, url: string, authorization: Option<string>,
                                   headers: seq<HttpHeader>)

  /** The server side of one call: the daemon's random seed, the realm, the account,
      how long a nonce lives, and the 32-bit clock. */
  datatype Server = Server(rnd: string, realm: string, username: string, password: string, timeout: nat, now: nat)

  ghost predicate ServerOk(s: Server) {
    s.timeout < UINT32_LIMIT && s.now < UINT32_LIMIT
  }

  /** All texts are C strings. */
  ghost predicate ConnectionOk(c: Connection) {
    && NUL !in c.url
    && (c.authorization.Some? ==> NUL !in c.authorization.value)
  }

  // ------------------------------------------------------------------ specification

  /** What a lookup leaves in a buffer of the given size; "" if nothing is found. */
  function Got(header: string, key: string, size: nat): string
    requires 0 < size
  {
    match Lookup(header, key)
    case None => ""
    case Some(v) => Cut(v, size)
  }

  /** The fields that survive the first stage. */
  datatype Claim = Claim(header: string, nonce: string, cnonce: string, qop: string, nc: string, nci: uint64,
                         response: string, left: nat)

  /** Undefined: the nonce has fewer than eight characters, and the program reads
      in front of the buffer that holds it. */
  datatype Vetting = Refused(result: Result) | Undefined | Pending(claim: Claim)

  const BASE: string := "Digest "

  function Vet(c: Connection, s: Server): Vetting {
    if c.authorization.None? || !(BASE <= c.authorization.value) then Refused(No) else
    var h := c.authorization.value[|BASE|..];
    var un := Got(h, "username", MAX_USERNAME_LENGTH);
    if un == "" || un != s.username then Refused(No) else
    var r := Got(h, "realm", MAX_REALM_LENGTH);
    if r == "" || r != s.realm then Refused(No) else
    var nonce := Got(h, "nonce", MAX_NONCE_LENGTH);
    var left := Left(h, un, r, nonce);
    if nonce == "" || left > MAX_URI || left < 0 then Refused(No)
    else if |nonce| < TIMESTAMP_HEX_LEN then Undefined
    else VetNonce(c, s, h, nonce, left)
  }

  function VetNonce(c: Connection, s: Server, h: string, nonce: string, left: nat): Vetting
    requires TIMESTAMP_HEX_LEN <= |nonce|
  {
    var (n, time) := HexToUint(nonce[|nonce| - TIMESTAMP_HEX_LEN..], TIMESTAMP_HEX_LEN, UINT32_MAX);
    if n != TIMESTAMP_HEX_LEN then Refused(No)
    else if !InTime(time, s.timeout, s.now) then Refused(InvalidNonce)
    else if nonce != ServerNonce(time, c.httpMethod, s.rnd, c.url, s.realm) then Refused(InvalidNonce)
    else VetCounter(h, nonce, left)
  }

  function VetCounter(h: string, nonce: string, left: nat): Vetting {
    var cnonce := Got(h, "cnonce", MAX_NONCE_LENGTH);
    var qop := Got(h, "qop", 15);
    var nc := Got(h, "nc", 20);
    var response := Got(h, "response", MAX_AUTH_RESPONSE_LENGTH);
    if cnonce == "" || qop != "auth" || nc == "" || response == "" then Refused(No) else
    var (k, nci) := HexToUint(nc, |nc|, UINT64_MAX);
    if k != |nc| then Refused(No) else Pending(Claim(h, nonce, cnonce, qop, nc, nci, response, left))
  }

  /** The text behind the first '?', if any. */
  function ArgumentsOf(uri: string): string {
    var q := IndexOf(uri, '?', 0);
    if q == |uri| then "" else uri[q + 1..]
  }

  /** The unescaped URI starts with the URL of the request, and its arguments match
      those of the request. */
  ghost predicate NamesRequest(c: Connection, uri: string) {
    var text := UntilNul(Decode(uri));
    && c.url <= text
    && ArgumentsMatch(Received(c.headers), ParseArguments(ArgumentsOf(text)))
  }

  function Expected(c: Connection, s: Server, claim: Claim, uri: string): string {
    var ha1 := HA1("md5", s.username, s.realm, s.password, claim.nonce, claim.cnonce);
    RequestDigest(ha1, claim.nonce, claim.nc, claim.cnonce, claim.qop, c.httpMethod, uri)
  }

  /** The last stage. */
  ghost predicate Answers(c: Connection, s: Server, claim: Claim) {
    var uri := Got(claim.header, "uri", claim.left + 1);
    && uri != ""
    && NamesRequest(c, uri)
    && claim.response == Expected(c, s, claim, uri)
  }

  // ------------------------------------------------------------------ the program

  lemma FirstFieldKeepsOutNul(s: string)
    requires NUL !in s
    ensures FirstField(s).Some? ==> NUL !in FirstField(s).value.0.value && NUL !in FirstField(s).value.1
  {
    hide IndexOf, SkipSpaces;
  }

  lemma {:induction false} ScanKeepsOutNul(header: string)
    requires NUL !in header
    ensures forall f :: f in Scan(header) ==> NUL !in f.value
    decreases |header|
  {
    hide FirstField;
    FirstFieldKeepsOutNul(header);
    match FirstField(header)
    case None =>
    case Some((field, rest)) =>
      ScanKeepsOutNul(rest);
  }

  lemma LookupKeepsOutNul(header: string, key: string)
    requires NUL !in header
    ensures Lookup(header, key).Some? ==> NUL !in Lookup(header, key).value
  {
    hide Scan, FirstField;
    ScanKeepsOutNul(header);
  }

  /** A lookup into a buffer of its own. */
  method FetchInto(buf: array<char>, size: nat, header: string, key: string) returns (len: nat)
    requires 0 < size == buf.Length && NUL !in header && NUL !in key
    modifies buf
    ensures len == |Got(header, key, size)|
    ensures len > 0 ==> Terminated(buf[..], 0) && StringAt(buf[..], 0) == Got(header, key, size)
  {
    hide Lookup, IndexOf, StringAt, Terminated;
    LookupKeepsOutNul(header, key);
    len := LookupSubValue(buf, size, header, key);
    if len > 0 {
      var v := Got(header, key, size);
      assert buf[..] == v + [NUL] + buf[len + 1..];
      BufferHolds(buf[..], v);
    }
  }

  method Fetch(header: string, key: string, size: nat) returns (text: string)
    requires 0 < size && NUL !in header && NUL !in key
    ensures text == Got(header, key, size)
  {
    hide Got;
    var buf := new char[size];
    var len := FetchInto(buf, size, header, key);
    text := if len == 0 then "" else StringAt(buf[..], 0);
  }

  /** digestauth.c:697-753: names, nonce and the space left for the URI. */
  method VetRequest(c: Connection, s: Server) returns (v: Vetting)
    requires ConnectionOk(c) && ServerOk(s) && Vet(c, s) != Undefined
    ensures v == Vet(c, s)
  {
    hide Got, VetNonce;
    if c.authorization.None? { return Refused(No); }
    var header := c.authorization.value;
    if !(BASE <= header) { return Refused(No); }
    header := header[|BASE|..];
    var left := |header|;
    var un := Fetch(header, "username", MAX_USERNAME_LENGTH);
    if |un| == 0 || s.username != un { return Refused(No); }
    var r := Fetch(header, "realm", MAX_REALM_LENGTH);
    if |r| == 0 || s.realm != r { return Refused(No); }
    var nonce := Fetch(header, "nonce", MAX_NONCE_LENGTH);
    if |nonce| == 0 { return Refused(No); }
    LeftIsNatural(header, un, r, nonce);
    left := left - (|"username"| + |un|);
    left := left - (|"realm"| + |r|);
    left := left - (|"nonce"| + |nonce|);
    if left > 32 * 1024 { return Refused(No); }
    v := VetTheNonce(c, s, header, nonce, left);
  }

  lemma GotSomething(header: string, key: string, size: nat)
    requires 0 < size && Got(header, key, size) != ""
    ensures IsCutOf(Got(header, key, size), Lookup(header, key))
  {
    hide Lookup;
  }

  /** The subtractions never underflow. */
  lemma LeftIsNatural(header: string, un: string, r: string, nonce: string)
    requires un != "" && un == Got(header, "username", MAX_USERNAME_LENGTH)
    requires r != "" && r == Got(header, "realm", MAX_REALM_LENGTH)
    requires nonce != "" && nonce == Got(header, "nonce", MAX_NONCE_LENGTH)
    ensures 0 <= Left(header, un, r, nonce)
  {
    hide Got, Lookup, Left;
    GotSomething(header, "username", MAX_USERNAME_LENGTH);
    GotSomething(header, "realm", MAX_REALM_LENGTH);
    GotSomething(header, "nonce", MAX_NONCE_LENGTH);
    LeftHoldsTheUri(header, un, r, nonce);
  }

  /** digestauth.c:754-798: both levels of vetting of the nonce. */
  method VetTheNonce(c: Connection, s: Server, header: string, nonce: string, left: nat) returns (v: Vetting)
    requires NUL !in header && ServerOk(s) && TIMESTAMP_HEX_LEN <= |nonce|
    ensures v == VetNonce(c, s, header, nonce, left)
  {
    hide VetCounter, ServerNonce, InTime, HexToUint;
    var n, nonceTime := StrxToUintN(nonce[|nonce| - TIMESTAMP_HEX_LEN..], TIMESTAMP_HEX_LEN, UINT32_MAX);
    if n != TIMESTAMP_HEX_LEN { return Refused(No); }
    var t := s.now;
    var expired := t > (nonceTime + s.timeout) % UINT32_LIMIT || (nonceTime + s.timeout) % UINT32_LIMIT < nonceTime;
    assert expired == !InTime(nonceTime, s.timeout, s.now) by { InTimeIs(nonceTime, s.timeout, s.now); }
    if expired { return Refused(InvalidNonce); }
    var noncehashexp := new char[NONCE_STD_LEN + 1];
    CalculateNonce(nonceTime, c.httpMethod, s.rnd, c.url, s.realm, noncehashexp);
    if nonce != noncehashexp[..NONCE_STD_LEN] { return Refused(InvalidNonce); }
    v := VetTheCounter(header, nonce, left);
  }

  lemma InTimeIs(nonceTime: nat, timeout: nat, now: nat)
    ensures InTime(nonceTime, timeout, now) ==
              !(now > (nonceTime + timeout) % UINT32_LIMIT || (nonceTime + timeout) % UINT32_LIMIT < nonceTime)
  {
  }

  /** digestauth.c:799-835: the remaining fields and the counter value. */
  method VetTheCounter(header: string, nonce: string, left: nat) returns (v: Vetting)
    requires NUL !in header
    ensures v == VetCounter(header, nonce, left)
  {
    hide Got, HexToUint;
    var cnonce := Fetch(header, "cnonce", MAX_NONCE_LENGTH);
    if |cnonce| == 0 { return Refused(No); }
    var qop := Fetch(header, "qop", 15);
    if |qop| == 0 || (qop != "auth" && qop != "") { return Refused(No); }
    var nc := Fetch(header, "nc", 20);
    if |nc| == 0 { return Refused(No); }
    var response := Fetch(header, "response", MAX_AUTH_RESPONSE_LENGTH);
    if |response| == 0 { return Refused(No); }
    var n, nci := StrxToUintN(nc, |nc|, UINT64_MAX);
    if |nc| != n { return Refused(No); }
    v := Pending(Claim(header, nonce, cnonce, qop, nc, nci, response, left));
  }

  /** digestauth.c:850-929: the URI, its arguments and the response. */
  method Answer(c: Connection, s: Server, claim: Claim) returns (r: Result)
    requires ConnectionOk(c) && NUL !in claim.header
    ensures r == if Answers(c, s, claim) then Yes else No
  {
    hide Got, Decode, ParseArguments, RequestArguments.Received, HA1, RequestDigest, StringAt, Terminated, IndexOf;
    var buf := new char[claim.left + 1];
    var len := FetchInto(buf, claim.left + 1, claim.header, "uri");
    if len == 0 { return No; }
    var uri := StringAt(buf[..], 0);
    var ha1 := new char[HASH_MD5_HEX_LEN + 1];
    DigestCalcHa1("md5", s.username, s.realm, s.password, claim.nonce, claim.cnonce, ha1);
    var respexp := new char[HASH_MD5_HEX_LEN + 1];
    DigestCalcResponse(ha1[..HASH_MD5_HEX_LEN], claim.nonce, claim.nc, claim.cnonce, claim.qop, c.httpMethod, uri, respexp);
    var named := CompareUri(c, buf, uri);
    if !named { return No; }
    r := if claim.response == respexp[..HASH_MD5_HEX_LEN] then Yes else No;
  }

  /** digestauth.c:888-923: the URI is unescaped in its buffer and compared. */
  method CompareUri(c: Connection, buf: array<char>, ghost uri: string) returns (named: bool)
    requires ConnectionOk(c) && Terminated(buf[..], 0) && StringAt(buf[..], 0) == uri
    modifies buf
    ensures named == NamesRequest(c, uri)
  {
    hide Decode, ParseArguments, RequestArguments.Received, IndexOf;
    var len := HttpUnescape(buf, 0);
    assert buf[..0] == [];
    StringBeforeNul(buf[..], 0, Decode(uri));
    var text := StringAt(buf[..], 0);
    if !(c.url <= text) { return false; }
    var args := ArgumentsOf(text);
    named := CheckArgumentMatch(c.headers, args);
  }

  // ------------------------------------------------------------------ with the nonce table

  /** The slot that a nonce hashes to answered and advanced; the others are as they were. */
  ghost predicate Asked(before: seq<Slot>, after: seq<Slot>, q: Request, accepted: bool)
    requires 0 < |before|
  {
    var i := SlotOf(q.nonce, |before|);
    && MayAnswer(before[i], q, accepted)
    && after == before[i := PresentTo(before[i], q)]
  }

  /** The nonce table and, if it accepts, the last stage. */
  method Admit(table: NonceTable, c: Connection, s: Server, claim: Claim) returns (r: Result, ghost accepted: bool)
    requires table.Valid() && ConnectionOk(c) && NUL !in claim.header && |claim.nonce| == NONCE_STD_LEN
    modifies table.nnc
    ensures table.Valid()
    ensures r == if accepted && Answers(c, s, claim) then Yes else No
    ensures |table.nnc| == 0 ==> !accepted
    ensures |table.nnc| == 0 ==> table.State() == old(table.State())
    ensures 0 < |table.nnc| ==> Asked(old(table.State()), table.State(), Request(claim.nonce, claim.nci), accepted)
  {
    hide Answers, MayAnswer, PresentTo, SlotOf;
    var ok := table.CheckNonceNc(claim.nonce, claim.nci);
    accepted := ok;
    if !ok { return No, accepted; }
    r := Answer(c, s, claim);
  }

  /** MHD_digest_auth_check.  The nonce table is asked exactly when the vetting
      succeeds; `accepted` is what it said.  Then the window of one slot judges the
      counter value and advances, and no other slot changes. */
  method DigestAuthCheck(table: NonceTable, c: Connection, s: Server)
    returns (r: Result, ghost v: Vetting, ghost accepted: bool)
    requires table.Valid() && ConnectionOk(c) && ServerOk(s) && Vet(c, s) != Undefined
    modifies table.nnc
    ensures table.Valid() && v == Vet(c, s)
    ensures v.Refused? ==> r == v.result && table.State() == old(table.State())
    ensures v.Pending? ==> r == if accepted && Answers(c, s, v.claim) then Yes else No
    ensures v.Pending? && |table.nnc| == 0 ==> !accepted
    ensures v.Pending? && 0 < |table.nnc| ==>
              Asked(old(table.State()), table.State(), Request(v.claim.nonce, v.claim.nci), accepted)
  {
    hide Vet, Answers, Asked;
    var vetted := VetRequest(c, s);
    v, accepted := vetted, false;
    if vetted.Refused? { return vetted.result, v, accepted; }
    ClaimIsSound(c, s);
    r, accepted := Admit(table, c, s, vetted.claim);
  }

  /** What a claim that survives vetting guarantees. */
  lemma ClaimIsSound(c: Connection, s: Server)
    requires ConnectionOk(c) && Vet(c, s).Pending?
    ensures var claim := Vet(c, s).claim;
            && |claim.nonce| == NONCE_STD_LEN
            && c.authorization.Some? && claim.header <= c.authorization.value[|BASE|..]
            && NUL !in claim.header
  {
    hide Got, HexToUint, ServerNonce, InTime;
  }

  /** The nonce registration of MHD_queue_auth_fail_response: a fresh nonce for
      this request, whose slot starts an empty window. */
  method IssueNonce(table: NonceTable, c: Connection, s: Server) returns (ok: bool, nonce: string)
    requires table.Valid() && ServerOk(s)
    modifies table.nnc
    ensures table.Valid()
    ensures nonce == ServerNonce(s.now, c.httpMethod, s.rnd, c.url, s.realm)
    ensures ok <==> 0 < |table.nnc|
    ensures !ok ==> table.State() == old(table.State())
    ensures ok ==> table.State() == old(table.State())[SlotOf(nonce, |table.nnc|) := Live(Window(nonce, 0, {}))]
  {
    hide ServerNonce;
    var buf := new char[NONCE_STD_LEN + 1];
    CalculateNonce(s.now, c.httpMethod, s.rnd, c.url, s.realm, buf);
    nonce := buf[..NONCE_STD_LEN];
    ok := table.CheckNonceNc(nonce, 0);
  }
}
