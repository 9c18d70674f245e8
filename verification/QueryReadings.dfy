/** Reading the arguments of a query twice.  The server parses the query of a request;
    the digest check unescapes the whole URI first and then parses its query, so that
    every argument is unescaped once more.  When do both readings agree? */
module QueryReadings {
  import opened CStrings
  import opened UrlArguments
  import opened UrlPrinting

  // ---- weights ----

  function Pluses(s: string): (n: nat)
    ensures n == 0 <==> '+' !in s
  {
    if s == "" then 0
    else
      assert s == [s[0]] + s[1..];
      Pluses(s[1..]) + if s[0] == '+' then 1 else 0
  }

  /** The length of a text, a plus counting twice. */
  function Weight(s: string): nat {
    |s| + Pluses(s)
  }

  function PairWeight(p: Pair): nat {
    Weight(p.key) + match p.value case None => 0 case Some(v) => 1 + Weight(v)
  }

  lemma {:induction false} PlusesAppend(s: string, t: string)
    ensures Pluses(s + t) == Pluses(s) + Pluses(t)
  {
    if s == "" {
      assert s + t == t;
    } else {
      assert (s + t)[1..] == s[1..] + t;
      PlusesAppend(s[1..], t);
    }
  }

  lemma WeightOfCut(s: string)
    ensures Weight(UntilNul(s)) <= Weight(s)
  {
    var n := |UntilNul(s)|;
    assert s == s[..n] + s[n..];
    PlusesAppend(s[..n], s[n..]);
  }

  // ---- one text ----

  lemma PlusKeepsEscapes(s: string)
    ensures StartsWithEscape(PlusToSpace(s)) <==> StartsWithEscape(s)
    ensures StartsWithEscape(s) ==> EscapedChar(PlusToSpace(s)) == EscapedChar(s)
  {
  }

  /** Turning pluses into spaces moves no escape. */
  lemma PlusKeepsEscaped(s: string, c: char)
    ensures Escapes(PlusToSpace(s), c) <==> Escapes(s, c)
  {
    hide StartsWithEscape, EscapedChar;
    forall i: nat
      ensures EscapeFor(PlusToSpace(s), i, c) <==> EscapeFor(s, i, c)
    {
      if i < |s| {
        PlusToSpaceDrops(s, i);
        PlusKeepsEscapes(s[i..]);
      }
    }
  }

  lemma {:induction false} DecodeLength(s: string)
    ensures |Decode(PlusToSpace(s))| == |Decode(s)|
  {
    hide StartsWithEscape, EscapedChar;
    if s == "" {
      assert PlusToSpace(s) == s;
    } else {
      EscapeIsLong(s);
      PlusKeepsEscapes(s);
      var k := if StartsWithEscape(s) then 3 else 1;
      PlusToSpaceDrops(s, k);
      DecodeLength(s[k..]);
    }
  }

  lemma HasEscapeStep(s: string)
    requires s != ""
    ensures HasEscape(s) <==> StartsWithEscape(s) || HasEscape(s[1..])
  {
    hide StartsWithEscape;
    assert s[0..] == s;
    if HasEscape(s) {
      var i: nat :| EscapeAt(s, i);
      if i > 0 {
        EscapeMoves(s, 1, i - 1, NUL);
        assert EscapeAt(s[1..], i - 1);
      }
    }
    if HasEscape(s[1..]) {
      var i: nat :| EscapeAt(s[1..], i);
      EscapeMoves(s, 1, i, NUL);
      assert EscapeAt(s, 1 + i);
    }
    if StartsWithEscape(s) {
      assert EscapeAt(s, 0);
    }
  }

  /** Decoding changes a text exactly if it has an escape, and then makes it lighter,
      even if the escape stands for a plus. */
  lemma {:induction false} DecodeWeight(s: string)
    requires '+' !in s
    ensures if HasEscape(s) then Weight(Decode(s)) < |s| else Decode(s) == s
  {
    hide StartsWithEscape, EscapedChar, HasEscape;
    if s == "" {
      NoEscapeInNothing();
    } else {
      EscapeIsLong(s);
      HasEscapeStep(s);
      var k := if StartsWithEscape(s) then 3 else 1;
      DecodeWeight(s[k..]);
      assert Decode(s)[1..] == Decode(s[k..]);
      if k == 1 {
        assert s == [s[0]] + s[1..];
      }
    }
  }

  lemma NoEscapeInNothing()
    ensures !HasEscape("")
  {
  }

  /** No terminator, written or escaped. */
  ghost predicate Clean(s: string) {
    NUL !in s && !Escapes(s, NUL)
  }

  /** The first reading of a text keeps the length of its decoding, and is heavier
      exactly if an escape stands for a plus. */
  lemma FirstReading(s: string)
    requires Clean(s)
    ensures Unescape(s) == Decode(PlusToSpace(s)) && |Unescape(s)| == |Decode(s)|
    ensures Weight(Unescape(s)) >= |Decode(s)|
    ensures Weight(Unescape(s)) == |Decode(s)| <==> !Escapes(s, '+')
  {
    hide Decode, Escapes;
    DecodeLength(s);
    PlusKeepsEscaped(s, NUL);
    PlusKeepsEscaped(s, '+');
    DecodesTo(PlusToSpace(s), NUL);
    DecodesTo(PlusToSpace(s), '+');
    UntilNulIs(Decode(PlusToSpace(s)));
  }

  lemma NoPlusLeft(s: string)
    ensures '+' !in PlusToSpace(s) && (NUL !in s ==> NUL !in PlusToSpace(s))
  {
  }

  lemma PlusKeepsHasEscape(s: string)
    ensures HasEscape(PlusToSpace(s)) <==> HasEscape(s)
  {
    hide StartsWithEscape;
    forall i: nat
      ensures EscapeAt(PlusToSpace(s), i) <==> EscapeAt(s, i)
    {
      if i < |s| {
        PlusToSpaceDrops(s, i);
        PlusKeepsEscapes(s[i..]);
      }
    }
  }

  /** A second reading never makes a text heavier than it is long. */
  lemma SecondReading(s: string)
    ensures Weight(Unescape(s)) <= |s| && |Unescape(s)| <= |s|
    ensures HasEscape(s) ==> Weight(Unescape(s)) < |s|
    ensures !HasEscape(s) && NUL !in s ==> Unescape(s) == PlusToSpace(s)
  {
    hide Decode, HasEscape;
    var t := PlusToSpace(s);
    NoPlusLeft(s);
    DecodeWeight(t);
    PlusKeepsHasEscape(s);
    WeightOfCut(Decode(t));
    assert !HasEscape(s) ==> Weight(Decode(t)) == |s|;
    if NUL !in t {
      UntilNulIs(t);
    }
  }

  lemma PlusStep(c: char, t: string)
    ensures PlusToSpace([c] + t) == [if c == '+' then ' ' else c] + PlusToSpace(t)
  {
  }

  lemma DecodeStep(s: string)
    requires s != ""
    ensures StartsWithEscape(s) ==> 3 <= |s| && Decode(s) == [EscapedChar(s)] + Decode(s[3..])
    ensures !StartsWithEscape(s) ==> Decode(s) == [s[0]] + Decode(s[1..])
  {
    hide EscapedChar;
  }

  lemma {:induction false} PlusCommutes(s: string)
    requires !Escapes(s, '+')
    ensures PlusToSpace(Decode(s)) == Decode(PlusToSpace(s))
  {
    hide StartsWithEscape, EscapedChar, Escapes, Decode, PlusToSpace;
    if s == "" {
      NothingToRead();
    } else {
      var t := PlusToSpace(s);
      DecodeStep(s);
      DecodeStep(t);
      EscapesStep(s, '+');
      PlusKeepsEscapes(s);
      if StartsWithEscape(s) {
        PlusToSpaceDrops(s, 3);
        PlusCommutes(s[3..]);
        PlusStep(EscapedChar(s), Decode(s[3..]));
      } else {
        PlusToSpaceDrops(s, 1);
        PlusCommutes(s[1..]);
        PlusStep(s[0], Decode(s[1..]));
        PlusStep(s[0], s[1..]);
        assert s == [s[0]] + s[1..];
      }
    }
  }

  lemma NothingToRead()
    ensures PlusToSpace("") == "" && Decode("") == ""
  {
  }

  /** Both readings of a text agree if no escape stands for a plus and the decoded text
      has no escape. */
  lemma SameText(s: string)
    requires Clean(s) && !Escapes(s, '+') && !HasEscape(Decode(s))
    ensures Unescape(Decode(s)) == Unescape(s)
  {
    hide Decode, Escapes, HasEscape;
    FirstReading(s);
    DecodesTo(s, NUL);
    SecondReading(Decode(s));
    PlusCommutes(s);
  }

  // ---- cutting at delimiters ----

  lemma EscapeAtConcat(p: string, q: string, i: nat, c: char)
    requires q == "" || HexValue(q[0]) < 0
    ensures EscapeAt(p + q, i) <==> if i < |p| then EscapeAt(p, i) else EscapeAt(q, i - |p|)
    ensures EscapeFor(p + q, i, c) <==> if i < |p| then EscapeFor(p, i, c) else EscapeFor(q, i - |p|, c)
  {
    hide StartsWithEscape, EscapedChar, HexValue;
    if i < |p| {
      assert (p + q)[i..] == p[i..] + q;
      EscapeStaysInside(p[i..], q);
    } else if i < |p + q| {
      assert (p + q)[i..] == q[i - |p|..];
    }
  }

  /** No escape straddles a delimiter. */
  lemma EscapesConcat(p: string, q: string, c: char)
    requires q == "" || HexValue(q[0]) < 0
    ensures Escapes(p + q, c) <==> Escapes(p, c) || Escapes(q, c)
    ensures HasEscape(p + q) <==> HasEscape(p) || HasEscape(q)
  {
    hide HexValue, EscapeAt, EscapeFor;
    forall i: nat
      ensures EscapeAt(p + q, i) <==> if i < |p| then EscapeAt(p, i) else EscapeAt(q, i - |p|)
      ensures EscapeFor(p + q, i, c) <==> if i < |p| then EscapeFor(p, i, c) else EscapeFor(q, i - |p|, c)
    {
      EscapeAtConcat(p, q, i, c);
    }
    if i: nat :| EscapeAt(p, i) {
      EscapeIsInside(p, i);
      assert EscapeAt(p + q, i);
    }
    if i: nat :| EscapeAt(q, i) {
      EscapeAtConcat(p, q, |p| + i, c);
      assert EscapeAt(p + q, |p| + i);
    }
    if i: nat :| EscapeFor(p, i, c) {
      EscapeIsInside(p, i);
      assert EscapeFor(p + q, i, c);
    }
    if i: nat :| EscapeFor(q, i, c) {
      EscapeAtConcat(p, q, |p| + i, c);
      assert EscapeFor(p + q, |p| + i, c);
    }
  }

  lemma EscapeIsInside(s: string, i: nat)
    ensures EscapeAt(s, i) ==> i < |s|
    ensures forall c :: EscapeFor(s, i, c) ==> i < |s|
  {
  }

  /** The same for a text, one delimiter and another text. */
  lemma CutAt(p: string, d: char, q: string, c: char)
    requires HexValue(d) < 0 && d != '%'
    ensures Escapes(p + ([d] + q), c) <==> Escapes(p, c) || Escapes(q, c)
    ensures HasEscape(p + ([d] + q)) <==> HasEscape(p) || HasEscape(q)
    ensures Decode(p + ([d] + q)) == Decode(p) + ([d] + Decode(q))
  {
    hide HasEscape, Escapes, Decode, HexValue;
    var r := [d] + q;
    EscapesConcat(p, r, c);
    DecodeConcat(p, r);
    DecodeStep(r);
    EscapesStep(r, c);
    HasEscapeStep(r);
    EscapeIsLong(r);
    assert r[1..] == q;
  }

  // ---- one argument ----

  /** What precedes the first '=' of a segment. */
  function KeyOf(seg: string): (k: string)
    ensures '=' !in k
  {
    seg[..IndexOf(seg, '=', 0)]
  }

  lemma SegmentParts(seg: string)
    ensures KeyOf(seg) == seg ==> ParseSegment(seg) == Pair(Unescape(seg), None)
    ensures KeyOf(seg) != seg ==>
              && |KeyOf(seg)| < |seg|
              && var v := seg[|KeyOf(seg)| + 1..];
                 seg == KeyOf(seg) + (['='] + v) && ParseSegment(seg) == Pair(Unescape(KeyOf(seg)), Some(Unescape(v)))
  {
    hide Unescape, IndexOf;
    var e := IndexOf(seg, '=', 0);
    if e == |seg| {
      assert seg[..e] == seg;
    } else {
      assert seg == seg[..e] + ([seg[e]] + seg[e + 1..]);
    }
  }

  lemma PieceWeight(p: string)
    ensures PairWeight(ParseSegment(p)) <= |p|
    ensures HasEscape(p) ==> PairWeight(ParseSegment(p)) < |p|
  {
    hide ParseSegment, KeyOf, Unescape, HasEscape, Weight;
    SegmentParts(p);
    var k := KeyOf(p);
    SecondReading(k);
    if k != p {
      var v := p[|k| + 1..];
      SecondReading(v);
      CutAt(k, '=', v, NUL);
    }
  }

  lemma SegmentWeight(seg: string)
    requires Clean(seg)
    ensures PairWeight(ParseSegment(seg)) >= |Decode(seg)|
    ensures Escapes(seg, '+') ==> PairWeight(ParseSegment(seg)) > |Decode(seg)|
  {
    hide ParseSegment, KeyOf, Unescape, HasEscape, Weight, Decode, Escapes;
    SegmentParts(seg);
    var k := KeyOf(seg);
    if k == seg {
      FirstReading(k);
    } else {
      var v := seg[|k| + 1..];
      CutAt(k, '=', v, NUL);
      CutAt(k, '=', v, '+');
      FirstReading(k);
      FirstReading(v);
    }
  }

  /** Both readings of one argument agree if no escape of its key stands for '=';
      otherwise the second has a shorter key. */
  lemma SegmentKeys(seg: string)
    requires Clean(seg) && !Escapes(seg, '+') && !HasEscape(Decode(seg))
    ensures !Escapes(KeyOf(seg), '=') ==> ParseSegment(Decode(seg)) == ParseSegment(seg)
    ensures Escapes(KeyOf(seg), '=') ==> |ParseSegment(Decode(seg)).key| < |ParseSegment(seg).key|
  {
    hide ParseSegment, KeyOf, Unescape, HasEscape, Weight, Decode, Escapes;
    SegmentParts(seg);
    var k := KeyOf(seg);
    var v := if k == seg then "" else seg[|k| + 1..];
    if k != seg {
      CutAt(k, '=', v, NUL);
      CutAt(k, '=', v, '+');
      CutAt(Decode(k), '=', Decode(v), NUL);
    }
    DecodesTo(k, '=');
    FirstReading(k);
    if Escapes(k, '=') {
      ShorterKey(Decode(seg), Decode(k), if k == seg then "" else ['='] + Decode(v));
    } else {
      SameText(k);
      if k == seg {
        KeyAlone(Decode(k));
      } else {
        SameText(v);
        KeyWithValue(Decode(k), Decode(v));
      }
    }
  }

  lemma KeyAlone(k: string)
    requires '=' !in k
    ensures ParseSegment(k) == Pair(Unescape(k), None)
  {
    hide Unescape, IndexOf;
    IndexOfIs(k, '=', 0, |k|);
  }

  lemma KeyWithValue(k: string, v: string)
    requires '=' !in k
    ensures ParseSegment(k + (['='] + v)) == Pair(Unescape(k), Some(Unescape(v)))
  {
    hide Unescape, IndexOf;
    var seg := k + (['='] + v);
    IndexOfIs(seg, '=', 0, |k|);
    assert seg[..|k|] == k && seg[|k| + 1..] == v;
  }

  lemma ShorterKey(seg: string, k: string, rest: string)
    requires seg == k + rest && '=' in k
    ensures |ParseSegment(seg).key| < |k|
  {
    hide Unescape, IndexOf;
    var e := IndexOf(seg, '=', 0);
    var i :| 0 <= i < |k| && k[i] == '=';
    assert seg[i] == '=';
    assert e <= i;
    SecondReading(seg[..e]);
  }

  // ---- whole queries ----

  function TotalWeight(pairs: seq<Pair>): nat {
    if pairs == [] then 0 else PairWeight(pairs[0]) + TotalWeight(pairs[1..])
  }

  function TotalKeys(pairs: seq<Pair>): nat {
    if pairs == [] then 0 else |pairs[0].key| + TotalKeys(pairs[1..])
  }

  lemma {:induction false} TotalsAppend(a: seq<Pair>, b: seq<Pair>)
    ensures TotalWeight(a + b) == TotalWeight(a) + TotalWeight(b)
    ensures TotalKeys(a + b) == TotalKeys(a) + TotalKeys(b)
  {
    hide PairWeight;
    if a == [] {
      assert a + b == b;
    } else {
      assert (a + b)[1..] == a[1..] + b;
      TotalsAppend(a[1..], b);
    }
  }

  lemma TotalsWithout(s: seq<Pair>, i: nat)
    requires i < |s|
    ensures var t := s[..i] + s[i + 1..];
            && multiset(t) == multiset(s) - multiset{s[i]}
            && TotalWeight(s) == PairWeight(s[i]) + TotalWeight(t) && TotalKeys(s) == |s[i].key| + TotalKeys(t)
  {
    hide PairWeight, TotalWeight, TotalKeys;
    var before, after := s[..i], s[i + 1..];
    assert s == before + ([s[i]] + after);
    TotalsAppend(before, after);
    TotalsAppend(before, [s[i]] + after);
    TotalsAppend([s[i]], after);
    TotalsOfOne(s[i]);
  }

  lemma TotalsOfOne(p: Pair)
    ensures TotalWeight([p]) == PairWeight(p) && TotalKeys([p]) == |p.key|
  {
    hide PairWeight;
    assert [p][1..] == [];
  }

  /** Totals do not depend on the order. */
  lemma {:induction false} TotalsOfMultiset(a: seq<Pair>, b: seq<Pair>)
    requires multiset(a) == multiset(b)
    ensures TotalWeight(a) == TotalWeight(b) && TotalKeys(a) == TotalKeys(b)
  {
    hide PairWeight, TotalWeight, TotalKeys;
    if a == [] {
      assert |multiset(b)| == 0;
    } else {
      assert a[0] in multiset(a);
      var i :| 0 <= i < |b| && b[i] == a[0];
      TotalsWithout(a, 0);
      TotalsWithout(b, i);
      TotalsOfMultiset(a[..0] + a[1..], b[..i] + b[i + 1..]);
    }
  }

  lemma CutHere(s: string, a: nat)
    requires a < |s|
    ensures s == s[..a] + ([s[a]] + s[a + 1..])
  {
  }

  lemma SplitStep(s: string)
    ensures var a := IndexOf(s, '&', 0);
            Split(s, '&') == if a == |s| then [s] else [s[..a]] + Split(s[a + 1..], '&')
  {
    hide IndexOf;
  }

  lemma SplitFirst(s: string)
    ensures '&' !in s ==> Split(s, '&') == [s]
    ensures '&' in s ==>
              var a := IndexOf(s, '&', 0);
              && a < |s| && s == s[..a] + (['&'] + s[a + 1..]) && '&' !in s[..a]
              && Split(s, '&') == [s[..a]] + Split(s[a + 1..], '&')
  {
    hide IndexOf, Split;
    var a := IndexOf(s, '&', 0);
    SplitStep(s);
    if a < |s| {
      CutHere(s, a);
    }
  }

  lemma SplitAt(s: string, first: string, rest: string)
    requires s == first + (['&'] + rest) && '&' !in first
    ensures Split(s, '&') == [first] + Split(rest, '&')
  {
    hide IndexOf, Split;
    SplitStep(s);
    IndexOfIs(s, '&', 0, |first|);
    assert s[..|first|] == first && s[|first| + 1..] == rest;
  }

  lemma {:induction false} SplitConcat(s: string, t: string)
    ensures Split(s + (['&'] + t), '&') == Split(s, '&') + Split(t, '&')
    decreases |s|
  {
    hide IndexOf, Split;
    var u := s + (['&'] + t);
    SplitFirst(s);
    if '&' in s {
      var a := IndexOf(s, '&', 0);
      var first, rest := s[..a], s[a + 1..];
      Associates(first, ['&'] + rest, ['&'] + t);
      Associates(['&'], rest, ['&'] + t);
      SplitConcat(rest, t);
      SplitAt(u, first, rest + (['&'] + t));
      SplitAt(s, first, rest);
    } else {
      SplitAt(u, s, t);
    }
  }

  lemma ParsedConcat(a: seq<string>, b: seq<string>)
    ensures ParseSegments(a + b) == ParseSegments(a) + ParseSegments(b)
  {
    hide ParseSegment;
  }

  /** All arguments of a text together weigh no more than it is long, and less if it has
      a delimiter between them or an escape. */
  lemma {:induction false} SplitWeight(s: string)
    ensures TotalWeight(ParseSegments(Split(s, '&'))) <= |s|
    ensures '&' in s || HasEscape(s) ==> TotalWeight(ParseSegments(Split(s, '&'))) < |s|
    decreases |s|
  {
    hide Split, IndexOf, ParseSegment, ParseSegments, PairWeight, HasEscape;
    SplitFirst(s);
    if '&' in s {
      var a := IndexOf(s, '&', 0);
      var first, rest := s[..a], s[a + 1..];
      SplitWeight(rest);
      PieceWeight(first);
      OneParsed(first);
      ParsedConcat([first], Split(rest, '&'));
      TotalsAppend(ParseSegments([first]), ParseSegments(Split(rest, '&')));
    } else {
      PieceWeight(s);
      OneParsed(s);
    }
  }

  lemma OneParsed(p: string)
    ensures ParseSegments([p]) == [ParseSegment(p)]
    ensures TotalWeight(ParseSegments([p])) == PairWeight(ParseSegment(p))
    ensures TotalKeys(ParseSegments([p])) == |ParseSegment(p).key|
  {
    hide ParseSegment, PairWeight;
    assert ParseSegments([p])[1..] == [];
  }

  /** No escape of the query stands for '&' or '+', and the decoded query has no escape. */
  ghost predicate Tame(s: string) {
    !Escapes(s, '&') && !Escapes(s, '+') && !HasEscape(Decode(s))
  }

  lemma CutTame(p: string, q: string)
    ensures Clean(p + (['&'] + q)) <==> Clean(p) && Clean(q)
    ensures Tame(p + (['&'] + q)) <==> Tame(p) && Tame(q)
  {
    hide Escapes, HasEscape, Decode;
    CutAt(p, '&', q, NUL);
    CutAt(p, '&', q, '&');
    CutAt(p, '&', q, '+');
    CutAt(Decode(p), '&', Decode(q), NUL);
  }

  /** The second reading of a query is lighter than the first unless the query is tame. */
  lemma {:induction false} SecondIsLighter(s: string)
    requires Clean(s)
    ensures var once, twice := ParseSegments(Split(s, '&')), ParseSegments(Split(Decode(s), '&'));
            if Tame(s) then TotalWeight(twice) <= TotalWeight(once) else TotalWeight(twice) < TotalWeight(once)
    decreases |s|
  {
    hide Split, IndexOf, ParseSegment, ParseSegments, PairWeight, HasEscape, Escapes, Decode;
    SplitFirst(s);
    if '&' in s {
      var a := IndexOf(s, '&', 0);
      var first, rest := s[..a], s[a + 1..];
      CutTame(first, rest);
      CutAt(first, '&', rest, NUL);
      SecondIsLighter(rest);
      SegmentIsLighter(first);
      SplitConcat(Decode(first), Decode(rest));
      ParsedConcat([first], Split(rest, '&'));
      TotalsAppend(ParseSegments([first]), ParseSegments(Split(rest, '&')));
      ParsedConcat(Split(Decode(first), '&'), Split(Decode(rest), '&'));
      TotalsAppend(ParseSegments(Split(Decode(first), '&')), ParseSegments(Split(Decode(rest), '&')));
    } else {
      SegmentIsLighter(s);
    }
  }

  lemma SegmentIsLighter(seg: string)
    requires Clean(seg) && '&' !in seg
    ensures var once, twice := ParseSegments([seg]), ParseSegments(Split(Decode(seg), '&'));
            if Tame(seg) then TotalWeight(twice) <= TotalWeight(once) else TotalWeight(twice) < TotalWeight(once)
  {
    hide Split, ParseSegment, ParseSegments, PairWeight, HasEscape, Escapes, Decode;
    OneParsed(seg);
    SegmentWeight(seg);
    SplitWeight(Decode(seg));
    DecodesTo(seg, '&');
  }

  // ---- tame queries ----

  function DecodeAll(parts: seq<string>): (d: seq<string>)
    ensures |d| == |parts| && forall i :: 0 <= i < |parts| ==> d[i] == Decode(parts[i])
  {
    seq(|parts|, i requires 0 <= i < |parts| => Decode(parts[i]))
  }

  ghost predicate TamePart(s: string) {
    Clean(s) && Tame(s) && '&' !in s
  }

  lemma {:induction false} TameSplit(s: string)
    requires Clean(s) && Tame(s)
    ensures Split(Decode(s), '&') == DecodeAll(Split(s, '&'))
    ensures forall i :: 0 <= i < |Split(s, '&')| ==> TamePart(Split(s, '&')[i])
    decreases |s|
  {
    hide Split, IndexOf, Tame, Clean, Decode;
    SplitFirst(s);
    if '&' in s {
      var a := IndexOf(s, '&', 0);
      var first, rest := s[..a], s[a + 1..];
      CutTame(first, rest);
      CutAt(first, '&', rest, NUL);
      TameSplit(rest);
      TameAlone(first);
      SplitConcat(Decode(first), Decode(rest));
    } else {
      TameAlone(s);
    }
  }

  lemma TameAlone(seg: string)
    requires Clean(seg) && Tame(seg) && '&' !in seg
    ensures Split(Decode(seg), '&') == [Decode(seg)]
  {
    hide Split, Decode, Escapes, HasEscape;
    DecodesTo(seg, '&');
    SplitFirst(Decode(seg));
  }

  /** No escape of a key stands for '='. */
  ghost predicate KeysPlain(parts: seq<string>) {
    forall i :: 0 <= i < |parts| ==> !Escapes(KeyOf(parts[i]), '=')
  }

  lemma {:induction false} PartsKeys(parts: seq<string>)
    requires forall i :: 0 <= i < |parts| ==> TamePart(parts[i])
    ensures var once, twice := ParseSegments(parts), ParseSegments(DecodeAll(parts));
            if KeysPlain(parts) then twice == once else TotalKeys(twice) < TotalKeys(once)
  {
    hide ParseSegment, KeyOf, Escapes, HasEscape, Decode;
    if parts == [] {
    } else {
      var first, rest := parts[0], parts[1..];
      PartsKeys(rest);
      assert TamePart(first);
      SegmentKeys(first);
      assert ParseSegments(parts)[1..] == ParseSegments(rest);
      assert ParseSegments(DecodeAll(parts))[1..] == ParseSegments(DecodeAll(rest));
      assert KeysPlain(parts) <==> !Escapes(KeyOf(first), '=') && KeysPlain(rest);
      ParseSegmentsStep(parts);
    }
  }

  lemma ParseSegmentsStep(parts: seq<string>)
    requires parts != []
    ensures ParseSegments(parts) == [ParseSegment(parts[0])] + ParseSegments(parts[1..])
  {
    hide ParseSegment;
  }

  lemma DropKeepsTotals(parts: seq<string>)
    requires parts != []
    ensures TotalWeight(ParseSegments(DropEmptyEnd(parts))) == TotalWeight(ParseSegments(parts))
    ensures TotalKeys(ParseSegments(DropEmptyEnd(parts))) == TotalKeys(ParseSegments(parts))
  {
    hide ParseSegment, ParseSegments, PairWeight, TotalWeight, TotalKeys;
    var n := |parts| - 1;
    if parts[n] == "" {
      assert parts == parts[..n] + [""];
      ParsedConcat(parts[..n], [""]);
      TotalsAppend(ParseSegments(parts[..n]), ParseSegments([""]));
      OneParsed("");
      EmptyWeighsNothing();
    }
  }

  lemma EmptyWeighsNothing()
    ensures ParseSegment("") == Pair("", None) && PairWeight(ParseSegment("")) == 0
  {
    KeyAlone("");
    NothingToRead();
  }

  /** No escape of the query stands for '&' or '+', none in a key for '=', and the
      decoded query has no escape. */
  ghost predicate Stable(query: string) {
    Tame(query) && KeysPlain(Split(query, '&'))
  }

  lemma DropCommutes(parts: seq<string>)
    requires parts != []
    ensures DropEmptyEnd(DecodeAll(parts)) == DecodeAll(DropEmptyEnd(parts))
  {
    var last := parts[|parts| - 1];
    if last != "" {
      DecodeStep(last);
    } else {
      NothingToRead();
    }
  }

  /** Both readings of a query give the same arguments, as lists or only as multisets,
      if and only if the query is stable. */
  lemma ReadTheSameExactly(query: string)
    requires Clean(query)
    ensures Stable(query) <==> ParseArguments(Decode(query)) == ParseArguments(query)
    ensures Stable(query) <==> multiset(ParseArguments(Decode(query))) == multiset(ParseArguments(query))
  {
    hide Split, Tame, Decode, ParseSegments, KeysPlain, TotalWeight, TotalKeys;
    var parts := Split(query, '&');
    DropKeepsTotals(parts);
    DropKeepsTotals(Split(Decode(query), '&'));
    SecondIsLighter(query);
    if Tame(query) {
      TameSplit(query);
      PartsKeys(parts);
      if KeysPlain(parts) {
        DropCommutes(parts);
        DroppedParts(parts);
      }
    }
    if multiset(ParseArguments(Decode(query))) == multiset(ParseArguments(query)) {
      TotalsOfMultiset(ParseArguments(Decode(query)), ParseArguments(query));
    }
  }

  lemma DroppedParts(parts: seq<string>)
    requires parts != [] && KeysPlain(parts) && forall i :: 0 <= i < |parts| ==> TamePart(parts[i])
    ensures ParseSegments(DecodeAll(DropEmptyEnd(parts))) == ParseSegments(DropEmptyEnd(parts))
  {
    hide TamePart, ParseSegments;
    PartsKeys(DropEmptyEnd(parts));
  }

  // ---- conditions on the text alone ----

  /** Every '%' starts an escape, and none of them stands for '&', '=', '+' or '%'. */
  ghost predicate PlainEscapes(s: string) {
    && (forall i :: 0 <= i < |s| && s[i] == '%' ==> EscapeAt(s, i))
    && !Escapes(s, '&') && !Escapes(s, '=') && !Escapes(s, '+') && !Escapes(s, '%')
  }

  lemma {:induction false} NoPercentLeft(s: string)
    requires forall i :: 0 <= i < |s| && s[i] == '%' ==> EscapeAt(s, i)
    requires !Escapes(s, '%')
    ensures '%' !in Decode(s)
  {
    hide StartsWithEscape, EscapedChar, Escapes;
    if s == "" {
      NothingToRead();
    } else {
      EscapeIsLong(s);
      EscapesStep(s, '%');
      DecodeStep(s);
      assert s[0..] == s;
      var k := if StartsWithEscape(s) then 3 else 1;
      forall i | 0 <= i < |s[k..]| && s[k..][i] == '%'
        ensures EscapeAt(s[k..], i)
      {
        EscapeMoves(s, k, i, NUL);
        assert EscapeAt(s, k + i);
      }
      NoPercentLeft(s[k..]);
    }
  }

  lemma {:induction false} PlainKeys(s: string)
    requires !Escapes(s, '=')
    ensures KeysPlain(Split(s, '&'))
    decreases |s|
  {
    hide Split, IndexOf, KeyOf, Escapes;
    SplitFirst(s);
    if '&' in s {
      var a := IndexOf(s, '&', 0);
      CutAt(s[..a], '&', s[a + 1..], '=');
      PlainKeys(s[a + 1..]);
      PlainKey(s[..a]);
    } else {
      PlainKey(s);
    }
  }

  lemma PlainKey(seg: string)
    requires !Escapes(seg, '=')
    ensures !Escapes(KeyOf(seg), '=')
  {
    hide Escapes, KeyOf;
    SegmentParts(seg);
    if KeyOf(seg) != seg {
      CutAt(KeyOf(seg), '=', seg[|KeyOf(seg)| + 1..], '=');
    }
  }

  lemma PlainEscapesAreStable(s: string)
    requires PlainEscapes(s)
    ensures Stable(s)
  {
    hide Escapes, Split, KeysPlain, Decode;
    NoPercentLeft(s);
    PlainKeys(s);
    NoPercentNoEscape(Decode(s));
  }

  lemma NoPercentNoEscape(s: string)
    requires '%' !in s
    ensures !HasEscape(s) && forall c :: !Escapes(s, c)
  {
  }

  lemma {:induction false} AtMostOneAPlace(s: string)
    ensures |ParseArguments(s)| <= |s|
    decreases |s|
  {
    hide ParseArguments, ParseSegment, IndexOf;
    ParseArgumentsStep(s);
    if s == "" {
    } else {
      var a := IndexOf(s, '&', 0);
      if a < |s| {
        AtMostOneAPlace(s[a + 1..]);
      }
    }
  }

  /** A terminator cuts the second reading at the first "%00". */
  lemma {:induction false} NulCuts(s: string, i: nat)
    requires NUL !in s && EscapeFor(s, i, NUL) && forall j: nat :: j < i ==> !EscapeFor(s, j, NUL)
    ensures UntilNul(Decode(s)) == Decode(s[..i])
  {
    hide StartsWithEscape, EscapedChar;
    EscapeIsInside(s, i);
    var rest := s[i..];
    assert s == s[..i] + rest;
    EscapeIsLong(rest);
    DecodeConcat(s[..i], rest);
    DecodeStep(rest);
    if Escapes(s[..i], NUL) {
      var j: nat :| EscapeFor(s[..i], j, NUL);
      EscapeAtConcat(s[..i], rest, j, NUL);
      EscapeIsInside(s[..i], j);
    }
    DecodesTo(s[..i], NUL);
    CutAtNul(Decode(s[..i]), Decode(rest));
  }

  lemma CutAtNul(a: string, b: string)
    requires NUL !in a && b != "" && b[0] == NUL
    ensures UntilNul(a + b) == a
  {
    hide IndexOf;
    IndexOfIs(a + b, NUL, 0, |a|);
    assert (a + b)[..|a|] == a;
  }
}
