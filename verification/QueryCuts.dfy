/** Both readings of a query that has an escaped terminator.  The server's reading ends the
    key or the value that holds it, the digest check's reading ends with it. */
module QueryCuts {
  import opened CStrings
  import opened UrlArguments
  import opened UrlPrinting
  import opened QueryReadings

  /** The first "%00" of a query. */
  ghost predicate FirstNul(q: string, i: nat) {
    EscapeFor(q, i, NUL) && forall j: nat :: j < i ==> !EscapeFor(q, j, NUL)
  }

  lemma {:induction false} FirstNulBelow(q: string, i: nat) returns (k: nat)
    requires EscapeFor(q, i, NUL)
    ensures FirstNul(q, k)
  {
    hide EscapeFor;
    if j: nat :| j < i && EscapeFor(q, j, NUL) {
      k := FirstNulBelow(q, j);
    } else {
      k := i;
    }
  }

  /** A query around its first "%00". */
  lemma NulParts(q: string, i: nat)
    requires NUL !in q && FirstNul(q, i)
    ensures i + 3 <= |q| && q == q[..i] + ("%00" + q[i + 3..]) && Clean(q[..i])
  {
    hide StartsWithEscape, EscapedChar;
    EscapeIsInside(q, i);
    assert NulEscapeAt(q, i) by { NulIsWritten(q, i); }
    var p, rest := q[..i], q[i..];
    assert rest == "%00" + q[i + 3..] && q == p + rest;
    if Escapes(p, NUL) {
      var j: nat :| EscapeFor(p, j, NUL);
      EscapeAtConcat(p, rest, j, NUL);
      EscapeIsInside(p, j);
    }
  }

  lemma NulIsWritten(q: string, i: nat)
    requires EscapeFor(q, i, NUL)
    ensures NulEscapeAt(q, i)
  {
  }

  // ---- the last part of a query ----

  function Init(p: string): seq<string> {
    var parts := Split(p, '&');
    parts[..|parts| - 1]
  }

  function LastPart(p: string): string {
    var parts := Split(p, '&');
    parts[|parts| - 1]
  }

  lemma InitAndLast(p: string)
    ensures Split(p, '&') == Init(p) + [LastPart(p)]
  {
    hide Split;
  }

  lemma PartsBehind(first: string, rest: string)
    requires '&' !in first
    ensures var p := first + (['&'] + rest);
            Init(p) == [first] + Init(rest) && LastPart(p) == LastPart(rest) && (Clean(p) ==> Clean(rest))
  {
    hide Split, Clean;
    SplitAt(first + (['&'] + rest), first, rest);
    CutTame(first, rest);
  }

  /** Text without a delimiter only makes the last part longer. */
  lemma {:induction false} LastPartGrows(p: string, x: string)
    requires '&' !in x
    ensures Split(p + x, '&') == Init(p) + [LastPart(p) + x]
    ensures '&' !in LastPart(p) && (Clean(p) ==> Clean(LastPart(p)))
    ensures LastPart(p) == "" <==> p == "" || p[|p| - 1] == '&'
    decreases |p|
  {
    hide Split, IndexOf, Clean, Init, LastPart;
    SplitFirst(p);
    if '&' in p {
      var a := IndexOf(p, '&', 0);
      var first, rest := p[..a], p[a + 1..];
      LastPartGrows(rest, x);
      PartsBehind(first, rest);
      assert p + x == first + (['&'] + (rest + x));
      SplitAt(p + x, first, rest + x);
    } else {
      SplitFirst(p + x);
      OnePart(p);
    }
  }

  lemma OnePart(p: string)
    requires '&' !in p
    ensures Init(p) == [] && LastPart(p) == p
  {
    hide Split;
    SplitFirst(p);
  }

  // ---- what a "%00" does to one argument ----

  lemma PlusOfConcat(a: string, b: string)
    ensures PlusToSpace(a + b) == PlusToSpace(a) + PlusToSpace(b)
  {
  }

  /** The first reading of a text ends at its "%00". */
  lemma UnescapeEnds(v: string, t: string)
    requires Clean(v)
    ensures Unescape(v + ("%00" + t)) == Unescape(v)
  {
    hide Decode, Escapes;
    var a, b := PlusToSpace(v), PlusToSpace("%00" + t);
    PlusOfConcat(v, "%00" + t);
    PlusOfConcat("%00", t);
    assert b == "%00" + PlusToSpace(t);
    assert b[3..] == PlusToSpace(t);
    DecodeStep(b);
    DecodeConcat(a, b);
    NoPlusLeft(v);
    PlusKeepsEscaped(v, NUL);
    DecodesTo(a, NUL);
    UntilNulIs(Decode(a));
    CutAtNul(Decode(a), Decode(b));
  }

  /** An argument whose last text holds the first "%00": the rest is lost, except that a
      '=' behind the "%00" of a key still makes a value. */
  lemma ArgumentEnds(last: string, t: string)
    requires Clean(last)
    ensures '=' in last || '=' !in t ==> ParseSegment(last + ("%00" + t)) == ParseSegment(last)
    ensures '=' !in last && '=' in t ==> PairWeight(ParseSegment(last + ("%00" + t))) > PairWeight(ParseSegment(last))
  {
    hide Unescape, IndexOf, Clean;
    var seg := last + ("%00" + t);
    if '=' in last {
      var e := IndexOf(last, '=', 0);
      var k, v := last[..e], last[e + 1..];
      CutHere(last, e);
      ValueIsClean(k, v);
      IndexOfIs(seg, '=', 0, e);
      assert seg[..e] == k && seg[e + 1..] == v + ("%00" + t);
      UnescapeEnds(v, t);
    } else if '=' in t {
      var e := IndexOf(t, '=', 0);
      IndexOfIs(seg, '=', 0, |last| + 3 + e);
      assert seg[..|last| + 3 + e] == last + ("%00" + t[..e]);
      UnescapeEnds(last, t[..e]);
      KeyAlone(last);
    } else {
      KeyAlone(seg);
      KeyAlone(last);
      UnescapeEnds(last, t);
    }
  }

  lemma ValueIsClean(k: string, v: string)
    requires Clean(k + (['='] + v))
    ensures Clean(v)
  {
    hide Escapes;
    CutAt(k, '=', v, NUL);
  }

  // ---- the whole query ----

  /** What follows the "%00" up to the next delimiter. */
  function Lost(tail: string): (t: string)
    ensures '&' !in t && t <= tail
  {
    tail[..IndexOf(tail, '&', 0)]
  }

  /** The arguments that follow the next delimiter. */
  function Further(tail: string): seq<Pair> {
    if Lost(tail) == tail then [] else ParseArguments(tail[|Lost(tail)| + 1..])
  }

  /** The server's reading of a query with a "%00" behind p. */
  lemma FirstReadingOfCut(p: string, tail: string)
    ensures ParseArguments(p + ("%00" + tail)) ==
              ParseSegments(Init(p)) + ([ParseSegment(LastPart(p) + ("%00" + Lost(tail)))] + Further(tail))
  {
    hide Split, ParseSegments, ParseSegment, IndexOf, Init, LastPart;
    var t, seg := Lost(tail), LastPart(p) + ("%00" + Lost(tail));
    LastPartGrows(p, "%00" + t);
    OneParsed(seg);
    if t == tail {
      ParsedConcat(Init(p), [seg]);
    } else {
      var u := tail[|t| + 1..];
      SplitFirst(tail);
      assert tail == t + (['&'] + u);
      assert p + ("%00" + tail) == (p + ("%00" + t)) + (['&'] + u);
      SplitConcat(p + ("%00" + t), u);
      var parts := Split(u, '&');
      DropBehind(Init(p) + [seg], parts);
      ParsedConcat(Init(p) + [seg], DropEmptyEnd(parts));
      ParsedConcat(Init(p), [seg]);
    }
  }

  lemma DropBehind(a: seq<string>, b: seq<string>)
    requires b != []
    ensures DropEmptyEnd(a + b) == a + DropEmptyEnd(b)
  {
  }

  /** The "%00" loses no argument and leaves no empty one behind: the argument before it
      is not empty, it does not stand between a key and a '=', and nothing follows the next
      delimiter. */
  predicate Harmless(p: string, tail: string) {
    && p != "" && p[|p| - 1] != '&'
    && (Lost(tail) == tail || tail == Lost(tail) + "&")
    && ('=' in LastPart(p) || '=' !in Lost(tail))
  }

  lemma FurtherIsNothing(tail: string)
    ensures Further(tail) == [] <==> Lost(tail) == tail || tail == Lost(tail) + "&"
  {
    hide ParseArguments, IndexOf, ParseSegment;
    SplitFirst(tail);
    if Lost(tail) != tail {
      var u := tail[|Lost(tail)| + 1..];
      assert tail == Lost(tail) + (['&'] + u);
      ParseArgumentsStep(u);
    }
  }

  /** How the server's reading of the query compares with that of what precedes the
      "%00": never lighter; as heavy and as long only if it is harmless, and then equal. */
  lemma CutCompares(p: string, tail: string)
    requires Clean(p)
    ensures var whole, part := ParseArguments(p + ("%00" + tail)), ParseArguments(p);
            && TotalWeight(whole) >= TotalWeight(part)
            && (Harmless(p, tail) ==> whole == part)
            && (TotalWeight(whole) == TotalWeight(part) && |whole| == |part| ==> Harmless(p, tail))
  {
    hide Split, ParseSegments, ParseSegment, Init, LastPart, Lost, Further, PairWeight, TotalWeight, Clean;
    var last, seg := LastPart(p), LastPart(p) + ("%00" + Lost(tail));
    FirstReadingOfCut(p, tail);
    LastPartGrows(p, "");
    ArgumentEnds(last, Lost(tail));
    FurtherIsNothing(tail);
    InitAndLast(p);
    OneParsed(last);
    OneMorePair(ParseSegments(Init(p)), ParseSegment(seg), Further(tail));
    OneMorePair(ParseSegments(Init(p)), ParseSegment(last), []);
    ParsedConcat(Init(p), [last]);
    DropKeepsTotals(Split(p, '&'));
    DropLast(Init(p), last);
  }

  lemma OneMorePair(a: seq<Pair>, b: Pair, c: seq<Pair>)
    ensures TotalWeight(a + ([b] + c)) == TotalWeight(a) + PairWeight(b) + TotalWeight(c)
    ensures c == [] ==> TotalWeight(c) == 0 && a + ([b] + c) == a + [b]
  {
    hide PairWeight, TotalWeight;
    TotalsAppend(a, [b] + c);
    TotalsAppend([b], c);
    TotalsOfOne(b);
    NothingWeighsNothing();
  }

  lemma NothingWeighsNothing()
    ensures TotalWeight([]) == 0
  {
  }

  lemma DropLast(a: seq<string>, last: string)
    ensures DropEmptyEnd(a + [last]) == if last == "" then a else a + [last]
  {
  }

  /** If both readings of a clean query are as heavy, they are as long. */
  lemma SameWeightSameLength(p: string)
    requires Clean(p)
    ensures TotalWeight(ParseArguments(Decode(p))) <= TotalWeight(ParseArguments(p))
    ensures TotalWeight(ParseArguments(Decode(p))) == TotalWeight(ParseArguments(p)) ==>
              |ParseArguments(Decode(p))| == |ParseArguments(p)|
  {
    hide Split, Tame, Decode, ParseSegments, TotalWeight;
    DropKeepsTotals(Split(p, '&'));
    DropKeepsTotals(Split(Decode(p), '&'));
    SecondIsLighter(p);
    if Tame(p) {
      TameSplit(p);
      DropCommutes(Split(p, '&'));
    }
  }

  /** Both readings of a query with a "%00" give the same arguments, as lists or only as
      multisets, if and only if it is harmless and what precedes it is stable. */
  lemma CutReadsTheSameExactly(q: string, i: nat)
    requires NUL !in q && FirstNul(q, i)
    ensures i + 3 <= |q|
    ensures var once, twice := ParseArguments(q), ParseArguments(UntilNul(Decode(q)));
            && (Harmless(q[..i], q[i + 3..]) && Stable(q[..i]) <==> twice == once)
            && (Harmless(q[..i], q[i + 3..]) && Stable(q[..i]) <==> multiset(twice) == multiset(once))
  {
    hide ParseArguments, Decode, Harmless, Stable, Clean, EscapeFor;
    NulParts(q, i);
    NulCuts(q, i);
    var p, tail := q[..i], q[i + 3..];
    var once, twice := ParseArguments(q), ParseArguments(Decode(p));
    CutCompares(p, tail);
    SameWeightSameLength(p);
    ReadTheSameExactly(p);
    if multiset(twice) == multiset(once) {
      TotalsOfMultiset(twice, once);
      assert |multiset(twice)| == |twice| && |multiset(once)| == |once|;
    }
  }

  /** When both readings of a query agree: a condition on its text. */
  ghost predicate Alike(q: string) {
    if Clean(q) then Stable(q)
    else exists i: nat :: FirstNul(q, i) && i + 3 <= |q| && Harmless(q[..i], q[i + 3..]) && Stable(q[..i])
  }

  /** Both readings of any query give the same arguments if and only if it is `Alike`. */
  lemma AlikeExactly(q: string)
    requires NUL !in q
    ensures var once, twice := ParseArguments(q), ParseArguments(UntilNul(Decode(q)));
            && (Alike(q) <==> twice == once) && (Alike(q) <==> multiset(twice) == multiset(once))
  {
    hide ParseArguments, Decode, Harmless, Stable, Escapes, EscapeFor;
    if Clean(q) {
      DecodesTo(q, NUL);
      UntilNulIs(Decode(q));
      ReadTheSameExactly(q);
    } else {
      var i := SomeFirstNul(q);
      CutReadsTheSameExactly(q, i);
      forall j: nat | FirstNul(q, j)
        ensures j == i
      {
      }
    }
  }

  lemma SomeFirstNul(q: string) returns (i: nat)
    requires Escapes(q, NUL)
    ensures FirstNul(q, i)
  {
    hide EscapeFor;
    var j: nat :| EscapeFor(q, j, NUL);
    i := FirstNulBelow(q, j);
  }
}
