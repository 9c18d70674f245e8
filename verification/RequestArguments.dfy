/** Comparing the arguments of a digest URI with those of the request:
    `test_header` and `check_argument_match` of digestauth.c. */
module RequestArguments {
  import opened CStrings
  import opened UrlArguments
  import opened UrlPrinting

  datatype ValueKind = Header | GetArgument | OtherKind

  /** `struct MHD_HTTP_Header`; the list of a connection is a sequence of them. */
  datatype HttpHeader = HttpHeader(kind: ValueKind, name: string, value: Option<string>)

  predicate HasHeader(headers: seq<HttpHeader>, key: string, value: Option<string>, kind: ValueKind) {
    exists i :: 0 <= i < |headers| && headers[i] == HttpHeader(kind, key, value)
  }

  /** test_header. */
  method TestHeader(headers: seq<HttpHeader>, key: string, value: Option<string>, kind: ValueKind) returns (found: bool)
    ensures found == HasHeader(headers, key, value, kind)
  {
    var i := 0;
    while i < |headers|
      invariant 0 <= i <= |headers|
      invariant forall k :: 0 <= k < i ==> headers[k] != HttpHeader(kind, key, value)
    {
      var pos := headers[i];
      i := i + 1;
      if kind != pos.kind { continue; }
      if key != pos.name { continue; }
      if value.None? && pos.value.None? {
        assert headers[i - 1] == HttpHeader(kind, key, value);
        return true;
      }
      if value.None? || pos.value.None? || value.value != pos.value.value { continue; }
      assert headers[i - 1] == HttpHeader(kind, key, value);
      return true;
    }
    return false;
  }

  /** The GET arguments that the request line carried, in the order of the list. */
  function Received(headers: seq<HttpHeader>): seq<Pair> {
    if headers == [] then []
    else
      var h := headers[|headers| - 1];
      Received(headers[..|headers| - 1]) + if h.kind == GetArgument then [Pair(h.name, h.value)] else []
  }

  lemma {:induction false} ReceivedHas(headers: seq<HttpHeader>, p: Pair)
    ensures p in Received(headers) <==> HasHeader(headers, p.key, p.value, GetArgument)
  {
    if headers == [] {
    } else {
      var n := |headers| - 1;
      ReceivedHas(headers[..n], p);
      if HasHeader(headers[..n], p.key, p.value, GetArgument) {
        var i :| 0 <= i < n && headers[..n][i] == HttpHeader(GetArgument, p.key, p.value);
        assert headers[i] == HttpHeader(GetArgument, p.key, p.value);
      }
      if HasHeader(headers, p.key, p.value, GetArgument) {
        var i :| 0 <= i < |headers| && headers[i] == HttpHeader(GetArgument, p.key, p.value);
        if i < n { assert headers[..n][i] == headers[i]; }
      }
    }
  }

  /** Every parsed argument was received, and the numbers of both agree in the
      32-bit counter of the program. */
  ghost predicate ArgumentsMatch(received: seq<Pair>, parsed: seq<Pair>) {
    && (forall p :: p in parsed ==> p in received)
    && |parsed| % UINT32_LIMIT == |received| % UINT32_LIMIT
  }

  /** strdup. */
  method Duplicate(s: string) returns (buf: array<char>)
    requires NUL !in s
    ensures fresh(buf) && Terminated(buf[..], 0) && StringAt(buf[..], 0) == s
  {
    buf := new char[|s| + 1](i requires 0 <= i <= |s| => if i < |s| then s[i] else NUL);
    IndexOfIs(buf[..], NUL, 0, |s|);
  }

  /** The loop that counts the received arguments down, with the wrap-around of an
      `unsigned int`. */
  method CountDown(headers: seq<HttpHeader>, start: nat) returns (n: nat)
    requires start < UINT32_LIMIT
    ensures n < UINT32_LIMIT
    ensures n == 0 <==> start == |Received(headers)| % UINT32_LIMIT
  {
    n := start;
    for i := 0 to |headers|
      invariant 0 <= n < UINT32_LIMIT
      invariant n == (start - |Received(headers[..i])|) % UINT32_LIMIT
    {
      assert headers[..i + 1][..i] == headers[..i];
      if headers[i].kind != GetArgument { continue; }
      n := if n == 0 then UINT32_LIMIT - 1 else n - 1;
    }
    assert headers[..|headers|] == headers;
  }

  lemma AllReceived(headers: seq<HttpHeader>, cb: (string, Option<string>) -> bool, pairs: seq<Pair>)
    requires forall k, v :: cb(k, v) == HasHeader(headers, k, v, GetArgument)
    ensures Accepts(cb, pairs) <==> forall p :: p in pairs ==> p in Received(headers)
  {
    hide Received, HasHeader;
    forall p: Pair
      ensures cb(p.key, p.value) <==> p in Received(headers)
    {
      ReceivedHas(headers, p);
    }
    if forall p :: p in pairs ==> p in Received(headers) {
      forall i | 0 <= i < |pairs| ensures cb(pairs[i].key, pairs[i].value) { assert pairs[i] in pairs; }
    }
  }

  /** check_argument_match.  `args` is the C string behind the '?'. */
  method CheckArgumentMatch(headers: seq<HttpHeader>, args: string) returns (ok: bool)
    requires NUL !in args
    ensures ok <==> ArgumentsMatch(Received(headers), ParseArguments(args))
  {
    hide ParseArguments, Received, HasHeader, StringAt;
    var argb := Duplicate(args);
    ghost var all := ParseArguments(args);
    var cb := (key, value) => HasHeader(headers, key, value, GetArgument);
    var ret, numHeaders, calls := ParseArgumentsInPlace(argb, 0, cb);
    AllReceived(headers, cb, calls);
    if !ret { return false; }
    var rest := CountDown(headers, numHeaders);
    ok := 0 == rest;
  }

  // ------------------------------------------------------------------ pigeonhole

  ghost predicate NoDuplicates(pairs: seq<Pair>) {
    forall i, j :: 0 <= i < j < |pairs| ==> pairs[i] != pairs[j]
  }

  lemma {:induction false} MultisetOfDistinct(pairs: seq<Pair>, p: Pair)
    requires NoDuplicates(pairs)
    ensures multiset(pairs)[p] <= 1
  {
    if pairs == [] {
    } else {
      var n := |pairs| - 1;
      MultisetOfDistinct(pairs[..n], p);
      assert pairs == pairs[..n] + [pairs[n]];
    }
  }

  lemma SameSizeSubsets(a: multiset<Pair>, b: multiset<Pair>)
    requires a <= b && |a| == |b|
    ensures a == b
  {
    assert b == a + (b - a);
    assert |b - a| == 0;
  }

  /** If the pairs of the digest URI are pairwise distinct, a match means that the
      received arguments are a permutation of them. */
  lemma DistinctMatchIsPermutation(received: seq<Pair>, parsed: seq<Pair>)
    requires |received| < UINT32_LIMIT && |parsed| < UINT32_LIMIT && NoDuplicates(parsed)
    ensures ArgumentsMatch(received, parsed) <==> multiset(received) == multiset(parsed)
  {
    if ArgumentsMatch(received, parsed) {
      forall p: Pair
        ensures multiset(parsed)[p] <= multiset(received)[p]
      {
        MultisetOfDistinct(parsed, p);
        if p in parsed { assert p in received; }
      }
      SameSizeSubsets(multiset(parsed), multiset(received));
    }
    if multiset(received) == multiset(parsed) {
      forall p | p in parsed ensures p in received { assert p in multiset(parsed); }
      assert |multiset(received)| == |multiset(parsed)|;
    }
  }

  /** A pair with a longer key than all the others. */
  function Longest(pairs: seq<Pair>): (n: nat)
    ensures forall p :: p in pairs ==> |p.key| <= n
  {
    if pairs == [] then 0
    else
      var n := Longest(pairs[1..]);
      assert pairs == [pairs[0]] + pairs[1..];
      if |pairs[0].key| > n then |pairs[0].key| else n
  }

  function Fresh(pairs: seq<Pair>): (p: Pair)
    ensures p !in pairs
  {
    Pair(seq(Longest(pairs) + 1, _ => 'x'), None)
  }

  /** Overwriting one of two equal pairs with a new one: still a match. */
  lemma OverwrittenMatches(parsed: seq<Pair>, i: nat, j: nat)
    requires i < j < |parsed| && parsed[i] == parsed[j]
    ensures var received := parsed[j := Fresh(parsed)];
            ArgumentsMatch(received, parsed) && multiset(received) != multiset(parsed)
  {
    var f := Fresh(parsed);
    var received := parsed[j := f];
    forall p | p in parsed
      ensures p in received
    {
      var k :| 0 <= k < |parsed| && parsed[k] == p;
      assert received[if k == j then i else k] == p;
    }
    assert received[j] == f;
    assert f in multiset(received) && f !in multiset(parsed);
  }

  /** A match with the pairs of a URI means a permutation of them, whatever was
      received, if and only if they are pairwise distinct. */
  lemma MatchIsPermutationExactly(parsed: seq<Pair>)
    requires |parsed| < UINT32_LIMIT
    ensures NoDuplicates(parsed) <==>
              forall received: seq<Pair> :: |received| < UINT32_LIMIT && ArgumentsMatch(received, parsed) ==>
                multiset(received) == multiset(parsed)
  {
    hide ArgumentsMatch;
    if NoDuplicates(parsed) {
      forall received: seq<Pair> | |received| < UINT32_LIMIT && ArgumentsMatch(received, parsed)
        ensures multiset(received) == multiset(parsed)
      {
        DistinctMatchIsPermutation(received, parsed);
      }
    } else {
      var i, j :| 0 <= i < j < |parsed| && parsed[i] == parsed[j];
      OverwrittenMatches(parsed, i, j);
      assert ArgumentsMatch(parsed[j := Fresh(parsed)], parsed);
    }
  }

  /** For instance "a&a" is accepted for a request with the arguments a and b. */
  method RepeatedArgumentIsAccepted() returns (headers: seq<HttpHeader>, ok: bool)
    ensures Received(headers) == [Pair("a", None), Pair("b", None)]
    ensures ParseArguments("a&a") == [Pair("a", None), Pair("a", None)] && ok
  {
    hide ParseArguments;
    headers := [HttpHeader(GetArgument, "a", None), HttpHeader(GetArgument, "b", None)];
    ok := CheckArgumentMatch(headers, "a&a");
    RepeatedArgument();
    ReceivedTwo(headers[0], headers[1]);
  }

  lemma RepeatedArgument()
    ensures ParseArguments("a&a") == [Pair("a", None), Pair("a", None)]
  {
    hide ParseArguments;
    var w, p := Written("a", None), Pair("a", None);
    assert Encodes("a"[1..], "a"[1..], true);
    assert Writes(w, p);
    ParseInvertsPrint([w, w], [p, p]);
    assert [w, w][1..] == [w] && Print([w]) == "a";
    assert Print([w, w]) == "a" + "&" + "a" == "a&a";
  }

  lemma ReceivedTwo(a: HttpHeader, b: HttpHeader)
    requires a.kind == b.kind == GetArgument
    ensures Received([a, b]) == [Pair(a.name, a.value), Pair(b.name, b.value)]
  {
    assert [a, b][..1] == [a] && [a][..0] == [];
    assert Received([a]) == [Pair(a.name, a.value)];
  }
}
