/** Which URIs name a request: what the digest check makes of the URI that a client
    states, against what the server made of the request line. */
module DigestUri {
  import opened CStrings
  import opened UrlArguments
  import opened UrlPrinting
  import opened QueryReadings
  import opened QueryCuts
  import opened RequestArguments
  import opened DigestAuth

  /** A request target as the client writes it, both parts still escaped. */
  datatype Target = Target(path: string, query: Option<string>)

  function UriOf(t: Target): string {
    match t.query
    case None => t.path
    case Some(q) => t.path + ("?" + q)
  }

  function QueryOf(t: Target): string {
    match t.query
    case None => ""
    case Some(q) => q
  }

  /** What cutting the text of a target at its first '?' yields. */
  predicate IsTarget(t: Target) {
    '?' !in t.path && NUL !in t.path && NUL !in QueryOf(t)
  }

  /** The server received a request for this target: it unescaped the path and
      parsed the query. */
  ghost predicate Requested(c: Connection, t: Target) {
    && c.url == UntilNul(Decode(t.path))
    && Received(c.headers) == ParseArguments(QueryOf(t))
  }

  /** What the check sees behind the URL of the request: nothing if an escaped
      terminator in the path ends the text there, otherwise the query, unescaped. */
  function BehindUrl(t: Target): string {
    if NUL in Decode(t.path) || t.query.None? then "" else "?" + UntilNul(Decode(t.query.value))
  }

  lemma UntilNulBehind(a: string, b: string)
    ensures UntilNul(a + b) == if NUL in a then UntilNul(a) else a + UntilNul(b)
  {
    hide IndexOf;
    var n := IndexOf(a, NUL, 0);
    if n < |a| {
      IndexOfIs(a + b, NUL, 0, n);
      assert (a + b)[..n] == a[..n];
    } else {
      var m := IndexOf(b, NUL, 0);
      forall k | 0 <= k < |a| + m
        ensures (a + b)[k] != NUL
      {
        if k >= |a| { assert (a + b)[k] == b[k - |a|]; }
      }
      IndexOfIs(a + b, NUL, 0, |a| + m);
    }
  }

  /** What the check makes of the URI: the URL of the request and what is behind it. */
  lemma UnescapedUri(t: Target)
    ensures UntilNul(Decode(UriOf(t))) == UntilNul(Decode(t.path)) + BehindUrl(t)
  {
    hide Decode, UntilNul;
    if t.query.None? {
      assert UntilNul(Decode(t.path)) + "" == UntilNul(Decode(t.path));
    } else {
      var q := t.query.value;
      DecodeConcat(t.path, "?" + q);
      QuestionMark(q);
      UntilNulBehind(Decode(t.path), "?" + Decode(q));
      UntilNulBehind("?", Decode(q));
      NoNulInside(Decode(t.path));
    }
  }

  lemma NoNulInside(s: string)
    ensures NUL !in s ==> UntilNul(s) == s
  {
    if NUL !in s { UntilNulIs(s); }
  }

  lemma QuestionMark(q: string)
    ensures Decode("?" + q) == "?" + Decode(q)
  {
    assert ("?" + q)[1..] == q;
  }

  /** The query that the check finds in the unescaped URI. */
  function QueryRead(t: Target): string {
    ArgumentsOf(UntilNul(Decode(t.path)) + BehindUrl(t))
  }

  /** The URI of a request always starts with its URL, so it is recognised if and only
      if the query that the check reads matches the query that the server parsed. */
  lemma UriNamesRequestExactly(c: Connection, t: Target)
    requires Requested(c, t)
    ensures NamesRequest(c, UriOf(t)) <==> ArgumentsMatch(ParseArguments(QueryOf(t)), ParseArguments(QueryRead(t)))
  {
    hide Decode, ParseArguments, Received, UntilNul, UriOf, BehindUrl, IndexOf;
    UnescapedUri(t);
  }

  /** No escape of the path stands for '?' or a terminator. */
  ghost predicate PlainPath(t: Target) {
    !Escapes(t.path, '?') && !Escapes(t.path, NUL)
  }

  /** With such a path the check reads the query of the request, unescaped as a whole. */
  lemma PlainPathReadsQuery(t: Target)
    requires IsTarget(t) && PlainPath(t)
    ensures QueryRead(t) == UntilNul(Decode(QueryOf(t)))
  {
    hide Decode, Escapes, IndexOf;
    DecodesTo(t.path, '?');
    DecodesTo(t.path, NUL);
    UntilNulIs(Decode(t.path));
    var url, text := Decode(t.path), Decode(t.path) + BehindUrl(t);
    NothingDecodes();
    if t.query.None? {
      assert text == url;
      IndexOfIs(text, '?', 0, |text|);
    } else {
      IndexOfIs(text, '?', 0, |url|);
      assert text[|url| + 1..] == UntilNul(Decode(t.query.value));
    }
  }

  lemma NothingDecodes()
    ensures UntilNul(Decode("")) == ""
  {
  }

  /** A query that both readings take alike is recognised behind a plain path. */
  lemma AlikeQueryNamesRequest(c: Connection, t: Target)
    requires Requested(c, t) && IsTarget(t) && PlainPath(t) && Alike(QueryOf(t))
    ensures NamesRequest(c, UriOf(t))
  {
    hide Decode, ParseArguments, NamesRequest, Requested, QueryRead, Alike, Escapes;
    UriNamesRequestExactly(c, t);
    PlainPathReadsQuery(t);
    AlikeExactly(QueryOf(t));
  }

  /** In particular a clean and stable one. */
  lemma StableQueryNamesRequest(c: Connection, t: Target)
    requires Requested(c, t) && IsTarget(t) && PlainPath(t) && Clean(QueryOf(t)) && Stable(QueryOf(t))
    ensures NamesRequest(c, UriOf(t))
  {
    hide NamesRequest, Requested, Stable, Escapes, Harmless;
    AlikeQueryNamesRequest(c, t);
  }

  /** In particular one whose escapes all stand for ordinary characters, or that has none. */
  lemma PlainEscapesNameRequest(c: Connection, t: Target)
    requires Requested(c, t) && IsTarget(t) && PlainPath(t) && Clean(QueryOf(t)) && PlainEscapes(QueryOf(t))
    ensures NamesRequest(c, UriOf(t))
  {
    hide NamesRequest, Requested, PlainEscapes, Stable, Escapes;
    PlainEscapesAreStable(QueryOf(t));
    StableQueryNamesRequest(c, t);
  }

  /** If the arguments that the check reads are pairwise distinct, this is exactly what
      it takes, for every query. */
  lemma DistinctQueryNamesRequestExactly(c: Connection, t: Target)
    requires Requested(c, t) && IsTarget(t) && PlainPath(t) && |QueryOf(t)| < UINT32_LIMIT
    requires NoDuplicates(ParseArguments(UntilNul(Decode(QueryOf(t)))))
    ensures NamesRequest(c, UriOf(t)) <==> Alike(QueryOf(t))
  {
    hide Decode, ParseArguments, NamesRequest, Requested, QueryRead, Alike, Escapes, ArgumentsMatch, NoDuplicates;
    var q := QueryOf(t);
    var read := UntilNul(Decode(q));
    UriNamesRequestExactly(c, t);
    PlainPathReadsQuery(t);
    AlikeExactly(q);
    AtMostOneAPlace(q);
    AtMostOneAPlace(read);
    DistinctMatchIsPermutation(ParseArguments(q), ParseArguments(read));
  }

  /** An escaped terminator in the query ends what the check reads of it. */
  lemma EscapedNulCutsQuery(t: Target, i: nat)
    requires IsTarget(t) && PlainPath(t) && EscapeFor(QueryOf(t), i, NUL)
    requires forall j: nat :: j < i ==> !EscapeFor(QueryOf(t), j, NUL)
    ensures i < |QueryOf(t)| && QueryRead(t) == Decode(QueryOf(t)[..i])
  {
    hide Decode, Escapes, QueryRead, EscapeFor;
    EscapeIsInside(QueryOf(t), i);
    PlainPathReadsQuery(t);
    NulCuts(QueryOf(t), i);
  }

  /** For instance "a=b%00c" is recognised: the server's reading ends the value there. */
  lemma HarmlessNulIsRecognised(c: Connection)
    requires Requested(c, Target("/", Some("a=b%00c")))
    ensures NamesRequest(c, UriOf(Target("/", Some("a=b%00c"))))
  {
    hide NamesRequest, Requested, Stable, Decode, Split, HexValue;
    var q := "a=b%00c";
    NoPercentNoEscape("/");
    NoPercentNoEscape("a=b");
    PlainEscapesAreStable("a=b");
    SplitFirst("a=b");
    assert q[..3] == "a=b" && q[6..] == "c" && Lost("c") == "c" && LastPart("a=b") == "a=b";
    assert Harmless(q[..3], q[6..]);
    NulHere();
    AlikeQueryNamesRequest(c, Target("/", Some(q)));
  }

  lemma NulHere()
    ensures FirstNul("a=b%00c", 3) && !Clean("a=b%00c")
  {
    var q := "a=b%00c";
    assert q[3..] == "%00c" && EscapeFor(q, 3, NUL);
    forall j: nat | j < 3
      ensures !EscapeFor(q, j, NUL)
    {
      assert q[j..][0] == q[j];
    }
  }

  lemma MatchOfNothing(s: string)
    requires |s| < UINT32_LIMIT
    ensures ArgumentsMatch([], ParseArguments(s)) <==> s == ""
    ensures ArgumentsMatch(ParseArguments(s), []) <==> s == ""
  {
    hide ParseArguments, ParseSegment, IndexOf;
    ParseArgumentsStep(s);
    AtMostOneAPlace(s);
    if s != "" {
      assert ParseArguments(s)[0] in ParseArguments(s);
    }
  }

  /** An escaped '?' in the path starts a query for the check: a request without a query
      is recognised if and only if its URL has nothing behind its first '?'. */
  lemma EscapedQuestionMarkStartsQuery(c: Connection, t: Target)
    requires Requested(c, t) && t.query.None? && |c.url| < UINT32_LIMIT
    ensures NamesRequest(c, UriOf(t)) <==> ArgumentsOf(c.url) == ""
  {
    hide Decode, ParseArguments, NamesRequest, Received, UntilNul, ArgumentsMatch, IndexOf;
    UriNamesRequestExactly(c, t);
    assert c.url + "" == c.url;
    ParseArgumentsStep("");
    MatchOfNothing(ArgumentsOf(c.url));
  }

  /** An escaped terminator in the path ends the text that the check sees: the request
      is recognised if and only if it has no query, or an empty one. */
  lemma EscapedNulDropsQuery(c: Connection, t: Target)
    requires Requested(c, t) && IsTarget(t) && Escapes(t.path, NUL) && '?' !in c.url && |QueryOf(t)| < UINT32_LIMIT
    ensures NamesRequest(c, UriOf(t)) <==> QueryOf(t) == ""
  {
    hide Decode, ParseArguments, NamesRequest, Received, UntilNul, ArgumentsMatch, Escapes, IndexOf;
    UriNamesRequestExactly(c, t);
    DecodesTo(t.path, NUL);
    assert c.url + "" == c.url;
    IndexOfIs(c.url, '?', 0, |c.url|);
    ParseArgumentsStep("");
    MatchOfNothing(QueryOf(t));
  }

  /** The request for "/%3Fb" has the URL "/?b" and no arguments; the check reads the
      argument b. */
  lemma EscapedQuestionMarkIsNotRecognised(c: Connection)
    requires Requested(c, Target("/%3Fb", None))
    ensures c.url == "/?b" && Received(c.headers) == []
    ensures !NamesRequest(c, "/%3Fb")
  {
    hide ParseArguments, NamesRequest, Received, Decode, IndexOf;
    var s := "%3Fb";
    assert StartsWithEscape(s) && EscapedChar(s) == '?' && s[3..] == "b";
    DecodeStep("/%3Fb");
    DecodeStep(s);
    assert "/%3Fb"[1..] == s;
    DecodePlain("b");
    assert c.url == UntilNul("/?b");
    UntilNulIs("/?b");
    IndexOfIs("/?b", '?', 0, 1);
    ParseArgumentsStep("");
    EscapedQuestionMarkStartsQuery(c, Target("/%3Fb", None));
  }

  /** Text behind a path that no escape of the path reaches into. */
  predicate Continues(path: string, rest: string) {
    && '?' !in rest && '%' !in rest && NUL !in rest
    && ('%' !in path || rest == "" || HexValue(rest[0]) < 0)
  }

  lemma ContinuedPath(path: string, rest: string)
    requires Continues(path, rest)
    ensures Decode(path + rest) == Decode(path) + rest
    ensures forall d :: Escapes(path + rest, d) <==> Escapes(path, d)
  {
    hide Decode, Escapes;
    DecodePlain(rest);
    NoPercentNoEscape(rest);
    if '%' !in path {
      DecodePlain(path);
      DecodePlain(path + rest);
      NoPercentNoEscape(path);
      NoPercentNoEscape(path + rest);
    } else {
      DecodeConcat(path, rest);
      forall d
        ensures Escapes(path + rest, d) <==> Escapes(path, d)
      {
        EscapesConcat(path, rest, d);
      }
    }
  }

  /** A URI without escapes has to start with the URL of the request. */
  lemma OtherUriIsRefused(c: Connection, uri: string)
    requires '%' !in uri && NUL !in uri && !(c.url <= uri)
    ensures !NamesRequest(c, uri)
  {
    hide Decode, ParseArguments, Received, ArgumentsMatch, UntilNul;
    DecodePlain(uri);
    UntilNulIs(uri);
  }

  /** The comparison with the URL is one of prefixes: if the URI of a request is
      recognised, then so is every URI whose path goes on behind that of the request. */
  lemma UriBeyondUrlPasses(c: Connection, t: Target, rest: string)
    requires Requested(c, t) && IsTarget(t) && PlainPath(t) && Continues(t.path, rest)
    ensures NamesRequest(c, UriOf(Target(t.path + rest, t.query))) <==> NamesRequest(c, UriOf(t))
  {
    hide Decode, ParseArguments, Received, UntilNul, UriOf, BehindUrl, Escapes, IndexOf;
    var longer := Target(t.path + rest, t.query);
    ContinuedPath(t.path, rest);
    PlainPathReadsQuery(t);
    PlainPathReadsQuery(longer);
    UnescapedUri(t);
    UnescapedUri(longer);
    DecodesTo(t.path, NUL);
    NoNulInside(Decode(t.path));
    NoNulInside(Decode(t.path) + rest);
    assert Decode(t.path) <= Decode(t.path) + rest + BehindUrl(longer);
  }

  /** For instance, for every query that both readings take alike. */
  lemma LongerPathPasses(c: Connection, t: Target, rest: string)
    requires Requested(c, t) && IsTarget(t) && PlainPath(t) && Continues(t.path, rest)
    requires Alike(QueryOf(t))
    ensures NamesRequest(c, UriOf(Target(t.path + rest, t.query)))
  {
    hide NamesRequest, Requested, Alike, Escapes;
    UriBeyondUrlPasses(c, t, rest);
    AlikeQueryNamesRequest(c, t);
  }

  /** Repeated arguments can hide a difference: "a=%2B&a=+" is not stable, as its first
      value is '+' for the server and a space for the check, and yet it is recognised. */
  lemma RepeatedArgumentHidesInstability(c: Connection)
    requires Requested(c, Target("/", Some("a=%2B&a=+")))
    ensures !Stable("a=%2B&a=+") && NamesRequest(c, UriOf(Target("/", Some("a=%2B&a=+"))))
  {
    hide Decode, ParseArguments, NamesRequest, Received, UntilNul, QueryRead, Escapes, Stable, ArgumentsMatch;
    var t := Target("/", Some("a=%2B&a=+"));
    NoPercentNoEscape("/");
    UriNamesRequestExactly(c, t);
    PlainPathReadsQuery(t);
    EscapedPlus();
    ReadTheSameExactly("a=%2B&a=+");
    PlusAndSpace();
  }

  lemma PlusAndSpace()
    ensures var p, q := Pair("a", Some("+")), Pair("a", Some(" "));
            ArgumentsMatch([p, q], [q, q]) && [p, q] != [q, q]
  {
    var p, q := Pair("a", Some("+")), Pair("a", Some(" "));
    assert [p, q][1] == q;
    assert [p, q][0] != [q, q][0];
  }

  lemma EscapedPlus()
    ensures Clean("a=%2B&a=+") && UntilNul(Decode("a=%2B&a=+")) == Decode("a=%2B&a=+") == "a=+&a=+"
    ensures ParseArguments("a=%2B&a=+") == [Pair("a", Some("+")), Pair("a", Some(" "))]
    ensures ParseArguments("a=+&a=+") == [Pair("a", Some(" ")), Pair("a", Some(" "))]
  {
    hide ParseArguments;
    var p, q := Pair("a", Some("+")), Pair("a", Some(" "));
    var v, w := Written("a", Some("%2B")), Written("a", Some("+"));
    assert Encodes("a"[1..], "a"[1..], true) && Encodes("a", "a", true);
    assert StartsWithEscape("%2B") && EscapedChar("%2B") == '+' && "%2B"[3..] == "" && "+"[1..] == "";
    assert Encodes("%2B", "+", true);
    assert " "[1..] == "" && Encodes("+", " ", true);
    assert Writes(v, p) && Writes(w, q);
    ParseInvertsPrint([v, w], [p, q]);
    ParseInvertsPrint([w, w], [q, q]);
    assert [v, w][1..] == [w] && [w, w][1..] == [w];
    assert Print([v, w]) == "a" + "=" + "%2B" + "&" + ("a" + "=" + "+") == "a=%2B&a=+";
    assert Print([w, w]) == "a" + "=" + "+" + "&" + ("a" + "=" + "+") == "a=+&a=+";
    DecodeEscapedPlus();
  }

  lemma DecodeEscapedPlus()
    ensures Clean("a=%2B&a=+") && UntilNul(Decode("a=%2B&a=+")) == Decode("a=%2B&a=+") == "a=+&a=+"
  {
    hide Escapes, Decode;
    var s := "a=%2B&a=+";
    assert "%2B&a=+"[3..] == "&a=+" && s[1..] == "=%2B&a=+" && "=%2B&a=+"[1..] == "%2B&a=+";
    assert StartsWithEscape("%2B&a=+") && EscapedChar("%2B&a=+") == '+';
    DecodeStep(s);
    DecodeStep("=%2B&a=+");
    DecodeStep("%2B&a=+");
    DecodePlain("&a=+");
    assert Decode(s) == "a=+&a=+";
    DecodesTo(s, NUL);
    UntilNulIs(Decode(s));
  }

  /** The request for "/?a=%26" has the one argument a with value "&"; the check reads
      the empty value. */
  lemma EscapedDelimiterIsNotRecognised(c: Connection)
    requires Requested(c, Target("/", Some("a=%26")))
    ensures Received(c.headers) == [Pair("a", Some("&"))]
    ensures !NamesRequest(c, UriOf(Target("/", Some("a=%26"))))
  {
    hide Decode, ParseArguments, NamesRequest, Received, UntilNul, QueryRead, Escapes;
    var t := Target("/", Some("a=%26"));
    NoPercentNoEscape("/");
    UriNamesRequestExactly(c, t);
    PlainPathReadsQuery(t);
    EscapedAmpersand();
    var p := Pair("a", Some(""));
    assert p in [p] && p !in [Pair("a", Some("&"))];
  }

  lemma EscapedAmpersand()
    ensures ParseArguments("a=%26") == [Pair("a", Some("&"))]
    ensures ParseArguments(UntilNul(Decode("a=%26"))) == [Pair("a", Some(""))]
  {
    hide Decode, ParseArguments, ParseSegment, IndexOf;
    var once, twice := "a=%26", "a=&";
    DecodeAmpersand();
    UntilNulIs(twice);
    ParseArgumentsStep(once);
    IndexOfIs(once, '&', 0, 5);
    assert once[..5] == "a=" + "%26";
    SegmentIs("%26", "&");
    ParseArgumentsStep(twice);
    IndexOfIs(twice, '&', 0, 2);
    assert twice[..2] == "a=" + "" && twice[3..] == "";
    ParseArgumentsStep("");
    DecodePlain("");
    SegmentIs("", "");
  }

  lemma DecodeAmpersand()
    ensures Decode("%26") == "&" && Decode("a=%26") == "a=&"
  {
    var s := "%26";
    assert StartsWithEscape(s) && EscapedChar(s) == '&' && s[3..] == "";
    assert Decode("") == "";
    assert ("=" + s)[1..] == s && ("a=" + s)[1..] == "=" + s;
    assert Decode("=" + s) == "=" + Decode(s);
    assert "a=%26" == "a=" + s;
  }

  lemma SegmentIs(v: string, w: string)
    requires Decode(v) == w && '+' !in v && '&' !in v && NUL !in w
    ensures ParseSegment("a=" + v) == Pair("a", Some(w))
  {
    hide Decode, IndexOf;
    var seg := "a=" + v;
    IndexOfIs(seg, '=', 0, 1);
    assert seg[..1] == "a" && seg[2..] == v;
    assert PlusToSpace(v) == v && PlusToSpace("a") == "a";
    DecodePlain("a");
    UntilNulIs("a");
    UntilNulIs(w);
  }
}
