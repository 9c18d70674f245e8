/** The URL argument parser and percent-decoder of internal.c: `MHD_unescape_plus`,
    `MHD_http_unescape` and `MHD_parse_arguments_`.

    The program works on one mutable buffer: it overwrites delimiters with
    terminators and compacts escapes with a read and a write position.  Here the
    three functions run on an array, and each is proved to compute a pure function
    of the string that the buffer held. */
module UrlArguments {
  import opened CStrings

  // ------------------------------------------------------------------ decoding

  function PlusToSpace(s: string): (t: string)
    ensures |t| == |s|
  {
    seq(|s|, i requires 0 <= i < |s| => if s[i] == '+' then ' ' else s[i])
  }

  /** '%' followed by two hexadecimal digits. */
  predicate StartsWithEscape(s: string) {
    3 <= |s| && s[0] == '%' && HexValue(s[1]) >= 0 && HexValue(s[2]) >= 0
  }

  function EscapedChar(s: string): (c: char)
    requires StartsWithEscape(s)
    ensures c as int < 256
  {
    (16 * HexValue(s[1]) + HexValue(s[2])) as char
  }

  /** Percent-decoding; a '%' that starts no escape stands for itself. */
  function Decode(s: string): (t: string)
    ensures |t| <= |s|
  {
    if s == "" then ""
    else if StartsWithEscape(s) then [EscapedChar(s)] + Decode(s[3..])
    else [s[0]] + Decode(s[1..])
  }

  /** What a C string function sees of a decoded key or value. */
  function Unescape(s: string): string {
    UntilNul(Decode(PlusToSpace(s)))
  }

  // ------------------------------------------------------------------ the pure parser

  datatype Pair = Pair(key: string, value: Option<string>)

  /** All segments of s between occurrences of c; there is always at least one. */
  function Split(s: string, c: char): (parts: seq<string>)
    ensures parts != []
    decreases |s|
  {
    var p := IndexOf(s, c, 0);
    if p == |s| then [s] else [s[..p]] + Split(s[p + 1..], c)
  }

  function DropEmptyEnd(parts: seq<string>): seq<string>
    requires parts != []
  {
    if parts[|parts| - 1] == "" then parts[..|parts| - 1] else parts
  }

  function ParseSegment(seg: string): Pair {
    var e := IndexOf(seg, '=', 0);
    if e == |seg| then Pair(Unescape(seg), None)
    else Pair(Unescape(seg[..e]), Some(Unescape(seg[e + 1..])))
  }

  function ParseSegments(parts: seq<string>): (pairs: seq<Pair>)
    ensures |pairs| == |parts|
  {
    seq(|parts|, i requires 0 <= i < |parts| => ParseSegment(parts[i]))
  }

  /** The arguments of a query string: split it on '&', drop an empty last
      segment, and decode both sides of the first '=' of each segment. */
  function ParseArguments(s: string): seq<Pair> {
    ParseSegments(DropEmptyEnd(Split(s, '&')))
  }

  lemma ParseFirst(first: string, rest: seq<string>)
    ensures ParseSegments([first] + rest) == [ParseSegment(first)] + ParseSegments(rest)
  {
    hide ParseSegment;
  }

  lemma ParseArgumentsStep(s: string)
    ensures ParseArguments("") == []
    ensures s != "" ==>
              var a := IndexOf(s, '&', 0);
              ParseArguments(s) == [ParseSegment(s[..a])] + if a == |s| then [] else ParseArguments(s[a + 1..])
  {
    hide IndexOf, ParseSegment, ParseSegments;
    var a := IndexOf(s, '&', 0);
    if a == |s| {
      assert Split(s, '&') == [s];
      assert s[..a] == s;
      ParseFirst(s, []);
      assert [s] + [] == [s];
    } else {
      var rest := Split(s[a + 1..], '&');
      DropFromLonger(s[..a], rest);
      ParseFirst(s[..a], DropEmptyEnd(rest));
    }
    ParseNothing();
  }

  lemma ParseNothing()
    ensures ParseSegments([]) == []
  {
  }

  lemma DropFromLonger(first: string, rest: seq<string>)
    requires rest != []
    ensures DropEmptyEnd([first] + rest) == [first] + DropEmptyEnd(rest)
  {
  }

  // ------------------------------------------------------------------ in place

  method UnescapePlus(buf: array<char>, arg: nat)
    requires Terminated(buf[..], arg)
    modifies buf
    ensures var s := StringAt(old(buf[..]), arg);
            buf[..] == old(buf[..arg]) + PlusToSpace(s) + old(buf[arg + |s|..])
  {
    hide IndexOf;
    ghost var before := buf[..];
    ghost var e := EndOf(before, arg);
    var p := StrChr(buf[..], arg, '+');
    ghost var done := if p.Some? then p.value else e;
    while p.Some?
      invariant arg <= done <= e
      invariant p == if done == e then None else Some(done)
      invariant done < e ==> before[done] == '+'
      invariant forall k :: arg <= k < done ==> buf[k] == if before[k] == '+' then ' ' else before[k]
      invariant forall k :: 0 <= k < buf.Length && !(arg <= k < done) ==> buf[k] == before[k]
      decreases e - done
    {
      buf[p.value] := ' ';
      IndexOfIs(buf[..], NUL, p.value + 1, e);
      p := StrChr(buf[..], p.value + 1, '+');
      done := if p.Some? then p.value else e;
    }
  }

  lemma HexNumberOfTwo(s: string)
    requires |s| == 2 && HexValue(s[0]) >= 0 && HexValue(s[1]) >= 0
    ensures HexNumber(s) == 16 * HexValue(s[0]) + HexValue(s[1])
  {
    assert s[..1][..0] == "";
    assert HexNumber(s[..1]) == HexValue(s[0]);
  }

  /** The conversion of two digits succeeds exactly on an escape. */
  lemma EscapeIsSeen(buf: string, r: nat, e: nat)
    requires r < e < |buf| && buf[e] == NUL && buf[r] == '%'
    ensures var (n, num) := HexToUint(buf[r + 1..], 2, UINT32_MAX);
            && (n == 2 <==> StartsWithEscape(buf[r..e]))
            && (n == 2 ==> num < 256 && num as char == EscapedChar(buf[r..e]))
  {
    var t := buf[r + 1..];
    var k := HexPrefix(t, 2);
    if k == 2 {
      HexNumberOfTwo(t[..2]);
      assert t[0] == buf[r + 1] && t[1] == buf[r + 2];
    } else if k == 1 {
      assert HexNumber(t[..1]) == HexValue(t[0]) by { assert t[..1][..0] == ""; }
    }
  }

  /** The `switch` of MHD_http_unescape: the character to write and how far to move on. */
  method ReadOne(buf: array<char>, rpos: nat, ghost e: nat, ghost text: string)
    returns (c: char, step: nat, ghost rest: string)
    requires rpos < e < buf.Length && buf[e] == NUL && NUL !in buf[rpos..e]
    requires text == Decode(buf[rpos..e])
    ensures 1 <= step <= e - rpos && rest == Decode(buf[rpos + step..e])
    ensures text == [c] + rest
  {
    ghost var s := buf[rpos..e];
    assert s[1..] == buf[rpos + 1..e];
    c, step := buf[rpos], 1;
    if c == '%' {
      EscapeIsSeen(buf[..], rpos, e);
      assert buf[..][rpos + 1..] == buf[rpos + 1..];
      assert buf[..][rpos..e] == s;
      var n, num := StrxToUintN(buf[rpos + 1..], 2, UINT32_MAX);
      if n == 2 {
        c, step := num as char, 3;
        assert s[3..] == buf[rpos + 3..e];
      }
    }
    rest := Decode(buf[rpos + step..e]);
  }

  /** The function has read up to rpos and written up to wpos: behind the decoded part the
      buffer is as before, and `rest` is what the remaining text decodes to. */
  ghost predicate Rewritten(now: string, before: string, val: nat, wpos: nat, rpos: nat, end: nat, t: string, rest: string) {
    && val <= wpos <= rpos <= end < |now| == |before|
    && wpos - val <= |t| && t[wpos - val..] == rest && rest == Decode(now[rpos..end])
    && (forall k :: val <= k < wpos ==> now[k] == t[k - val])
    && (forall k :: 0 <= k < val || wpos <= k < |now| ==> now[k] == before[k])
  }

  lemma RewrittenStep(now: string, before: string, val: nat, wpos: nat, rpos: nat, end: nat, t: string, rest: string,
                      c: char, step: nat, less: string)
    requires Rewritten(now, before, val, wpos, rpos, end, t, rest)
    requires 1 <= step <= end - rpos && less == Decode(now[rpos + step..end]) && rest == [c] + less
    ensures Rewritten(now[wpos := c], before, val, wpos + 1, rpos + step, end, t, less)
  {
    hide Decode;
    assert now[wpos := c][rpos + step..end] == now[rpos + step..end];
    assert t[wpos - val] == rest[0] && t[wpos - val + 1..] == rest[1..] == less;
  }

  lemma RewrittenEnds(now: string, before: string, val: nat, wpos: nat, end: nat, t: string, rest: string)
    requires Rewritten(now, before, val, wpos, end, end, t, rest)
    ensures wpos == val + |t|
    ensures now[wpos := NUL] == before[..val] + t + [NUL] + before[val + |t| + 1..]
  {
    hide Decode;
    DecodeEmpty(now[end..end]);
    Reassemble(now[wpos := NUL], before, val, t);
  }

  method HttpUnescape(buf: array<char>, val: nat) returns (len: nat)
    requires Terminated(buf[..], val)
    modifies buf
    ensures var s := StringAt(old(buf[..]), val);
            && len == |Decode(s)| <= |s|
            && buf[..] == old(buf[..val]) + Decode(s) + [NUL] + old(buf[val + len + 1..])
  {
    hide Decode, IndexOf, Rewritten;
    ghost var before := buf[..];
    ghost var end := EndOf(before, val);
    ghost var t := Decode(before[val..end]);
    ghost var rest := t;
    var rpos, wpos := val, val;
    RewrittenStarts(before, val, end);
    while buf[rpos] != NUL
      invariant val <= wpos <= rpos <= end < buf.Length && Rewritten(buf[..], before, val, wpos, rpos, end, t, rest)
      invariant EndOf(buf[..], rpos) == end
      decreases end - rpos
    {
      StillToRead(buf[..], before, val, wpos, rpos, end, t, rest);
      ghost var now := buf[..];
      var c, step;
      ghost var less;
      c, step, less := ReadOne(buf, rpos, end, rest);
      RewrittenStep(now, before, val, wpos, rpos, end, t, rest, c, step, less);
      EndStays(now, rpos, end, step, wpos, c);
      buf[wpos] := c;
      assert buf[..] == now[wpos := c];
      wpos, rpos, rest := wpos + 1, rpos + step, less;
    }
    RewrittenEnds(buf[..], before, val, wpos, end, t, rest);
    ghost var now := buf[..];
    buf[wpos] := NUL;
    assert buf[..] == now[wpos := NUL];
    len := wpos - val;
  }

  lemma RewrittenStarts(before: string, val: nat, end: nat)
    requires val <= end < |before|
    ensures var t := Decode(before[val..end]); Rewritten(before, before, val, val, val, end, t, t)
  {
    hide Decode;
  }

  lemma StillToRead(now: string, before: string, val: nat, wpos: nat, rpos: nat, end: nat, t: string, rest: string)
    requires Rewritten(now, before, val, wpos, rpos, end, t, rest) && now[rpos] != NUL && EndOf(now, rpos) == end
    ensures rpos < end && now[end] == NUL && NUL !in now[rpos..end] && rest == Decode(now[rpos..end])
  {
    hide Decode, IndexOf;
  }

  lemma EndStays(now: string, rpos: nat, end: nat, step: nat, wpos: nat, c: char)
    requires rpos < end < |now| && EndOf(now, rpos) == end && wpos <= rpos && 1 <= step <= end - rpos
    ensures EndOf(now[wpos := c], rpos + step) == end
  {
    hide IndexOf;
    IndexOfIs(now[wpos := c], NUL, rpos + step, end);
  }

  lemma Reassemble(after: string, before: string, val: nat, t: string)
    requires val + |t| < |after| == |before|
    requires forall k :: 0 <= k < val || val + |t| < k < |after| ==> after[k] == before[k]
    requires forall k :: val <= k < val + |t| ==> after[k] == t[k - val]
    requires after[val + |t|] == NUL
    ensures after == before[..val] + t + [NUL] + before[val + |t| + 1..]
  {
  }

  lemma DecodeEmpty(s: string)
    requires s == ""
    ensures Decode(s) == ""
  {
  }

  /** The string that occupies [p, e) of a buffer and ends there. */
  ghost predicate Occupies(buf: string, p: nat, e: nat) {
    p <= e < |buf| && buf[e] == NUL && NUL !in buf[p..e]
  }

  lemma OccupiesIsString(buf: string, p: nat, e: nat)
    requires Occupies(buf, p, e)
    ensures EndOf(buf, p) == e && StringAt(buf, p) == buf[p..e]
  {
    hide IndexOf;
    forall k | p <= k < e
      ensures buf[k] != NUL
    {
      assert buf[k] == buf[p..e][k - p];
    }
    IndexOfIs(buf, NUL, p, e);
  }

  lemma StringBeforeNul(buf: string, p: nat, t: string)
    requires p + |t| < |buf| && buf[p..p + |t|] == t && buf[p + |t|] == NUL
    ensures StringAt(buf, p) == UntilNul(t) && EndOf(buf, p) <= p + |t|
  {
    hide IndexOf;
    var q := IndexOf(t, NUL, 0);
    forall k | p <= k < p + q
      ensures buf[k] != NUL
    {
      assert buf[k] == t[k - p];
    }
    assert q < |t| ==> buf[p + q] == t[q];
    IndexOfIs(buf, NUL, p, p + q);
  }

  /** A string does not depend on what lies behind its terminator. */
  lemma StringIsLocal(a: string, b: string, p: nat, q: nat)
    requires p <= |a| && p <= |b| && EndOf(a, p) < q <= |a| && q <= |b| && a[..q] == b[..q]
    ensures StringAt(b, p) == StringAt(a, p)
  {
    hide IndexOf;
    var e := EndOf(a, p);
    forall k | p <= k <= e
      ensures a[k] == b[k]
    {
      assert a[k] == a[..q][k];
    }
    IndexOfIs(b, NUL, p, e);
  }

  /** MHD_unescape_plus followed by the unescape callback, whose default is
      MHD_http_unescape. */
  method UnescapeArgument(buf: array<char>, arg: nat, ghost e: nat)
    requires Occupies(buf[..], arg, e)
    modifies buf
    ensures StringAt(buf[..], arg) == Unescape(old(buf[arg..e])) && EndOf(buf[..], arg) <= e
    ensures buf[..arg] == old(buf[..arg]) && buf[e..] == old(buf[e..])
  {
    hide IndexOf, Decode, PlusToSpace, EndOf, StringAt;
    ghost var before := buf[..];
    OccupiesIsString(before, arg, e);
    UnescapePlus(buf, arg);
    ghost var middle := buf[..];
    ghost var s := PlusToSpace(before[arg..e]);
    assert middle == before[..arg] + s + before[e..];
    assert middle[arg..e] == s;
    PlusKeepsNul(before[arg..e]);
    OccupiesIsString(middle, arg, e);
    var len := HttpUnescape(buf, arg);
    Disassemble(buf[..], middle, arg, Decode(s), e);
    StringBeforeNul(buf[..], arg, Decode(s));
  }

  lemma Disassemble(after: string, before: string, val: nat, t: string, e: nat)
    requires val + |t| <= e < |before| && before[e] == NUL
    requires after == before[..val] + t + [NUL] + before[val + |t| + 1..]
    ensures |after| == |before| && after[..val] == before[..val] && after[e..] == before[e..]
    ensures after[val..val + |t|] == t && after[val + |t|] == NUL
  {
  }

  lemma PlusKeepsNul(s: string)
    requires NUL !in s
    ensures NUL !in PlusToSpace(s)
  {
  }

  // ------------------------------------------------------------------ the parser

  /** A key without a value in [args, e). */
  method KeyOnly(buf: array<char>, args: nat, ghost e: nat) returns (pair: Pair)
    requires Occupies(buf[..], args, e) && '=' !in buf[args..e]
    modifies buf
    ensures pair == ParseSegment(old(buf[args..e]))
    ensures buf[..args] == old(buf[..args]) && buf[e..] == old(buf[e..])
  {
    hide IndexOf, Unescape;
    IndexOfIs(buf[args..e], '=', 0, e - args);
    UnescapeArgument(buf, args, e);
    pair := Pair(StringAt(buf[..], args), None);
  }

  /** What lies behind position q is not touched by rewriting the string before it. */
  lemma StaysOccupied(a: string, b: string, q: nat, p: nat, e: nat)
    requires |a| == |b| && q <= p && q <= |a| && b[q..] == a[q..] && Occupies(a, p, e)
    ensures Occupies(b, p, e) && b[p..e] == a[p..e]
  {
    forall k | q <= k < |a|
      ensures b[k] == a[k]
    {
      assert b[k] == b[q..][k - q] && a[k] == a[q..][k - q];
    }
  }

  /** The first '=' is replaced by a terminator. */
  lemma CutAtEquals(buf: string, args: nat, eq: nat, e: nat)
    requires Occupies(buf, args, e) && args <= eq < e && buf[eq] == '=' && '=' !in buf[args..eq]
    ensures var b := buf[eq := NUL];
            && Occupies(b, args, eq) && Occupies(b, eq + 1, e)
            && ParseSegment(buf[args..e]) == Pair(Unescape(b[args..eq]), Some(Unescape(b[eq + 1..e])))
            && b[..args] == buf[..args] && b[e..] == buf[e..]
  {
    hide IndexOf, Unescape;
    var seg, b := buf[args..e], buf[eq := NUL];
    IndexOfIs(seg, '=', 0, eq - args);
    assert seg[..eq - args] == b[args..eq] && seg[eq - args + 1..] == b[eq + 1..e];
    assert NUL !in seg[..eq - args] && NUL !in seg[eq - args + 1..];
  }

  /** Two rewritings, of [args, eq) and of [eq + 1, e). */
  lemma FramesCompose(cut: string, halfway: string, after: string, args: nat, eq: nat, e: nat)
    requires args <= eq < e <= |cut| == |halfway| == |after|
    requires halfway[..args] == cut[..args] && halfway[eq..] == cut[eq..]
    requires after[..eq + 1] == halfway[..eq + 1] && after[e..] == halfway[e..]
    ensures after[..args] == cut[..args] && after[e..] == cut[e..]
  {
    assert after[..args] == after[..eq + 1][..args] && halfway[..args] == halfway[..eq + 1][..args];
    assert halfway[e..] == halfway[eq..][e - eq..] && cut[e..] == cut[eq..][e - eq..];
  }

  /** A key in [args, eq) and a value in [eq + 1, e), where eq is the first '='. */
  method KeyAndValue(buf: array<char>, args: nat, eq: nat, ghost e: nat) returns (pair: Pair)
    requires Occupies(buf[..], args, e) && args <= eq < e
    requires buf[eq] == '=' && '=' !in buf[args..eq]
    modifies buf
    ensures pair == ParseSegment(old(buf[args..e]))
    ensures buf[..args] == old(buf[..args]) && buf[e..] == old(buf[e..])
  {
    hide IndexOf, Unescape, StringAt, EndOf, ParseSegment, Occupies;
    ghost var before := buf[..];
    OccupiedInside(before, args, e);
    CutAtEquals(before, args, eq, e);
    buf[eq] := NUL;
    ghost var cut := buf[..];
    assert cut == before[eq := NUL];
    UnescapeArgument(buf, args, eq);
    ghost var halfway := buf[..];
    StaysOccupied(cut, halfway, eq, eq + 1, e);
    UnescapeArgument(buf, eq + 1, e);
    FramesCompose(cut, halfway, buf[..], args, eq, e);
    StringIsLocal(halfway, buf[..], args, eq + 1);
    pair := Pair(StringAt(buf[..], args), Some(StringAt(buf[..], eq + 1)));
  }

  lemma OccupiedInside(buf: string, p: nat, e: nat)
    requires Occupies(buf, p, e)
    ensures p <= e < |buf|
  {
  }

  /** One turn of the loop sees the first segment of what is left. */
  lemma FirstSegment(buf: string, args: nat, e: nat)
    requires Occupies(buf, args, e) && args < e
    ensures var s := buf[args..e];
            var a := args + IndexOf(s, '&', 0);
            var q := args + IndexOf(s, '=', 0);
            && ParseArguments(s) == [ParseSegment(buf[args..a])] + (if a == e then [] else ParseArguments(buf[a + 1..e]))
            && StrChr(buf, args, '&') == (if a == e then None else Some(a))
            && StrChr(buf, args, '=') == (if q == e then None else Some(q))
            && (q < a ==> '=' !in buf[args..q])
            && (a <= q ==> '=' !in buf[args..a])
  {
    hide IndexOf, StrChr, ParseSegment, ParseArguments;
    var s := buf[args..e];
    OccupiesIsString(buf, args, e);
    StrChrSearches(buf, args, '&');
    StrChrSearches(buf, args, '=');
    ParseArgumentsStep(s);
    var a := IndexOf(s, '&', 0);
    assert s[..a] == buf[args..args + a];
    if a < |s| { assert s[a + 1..] == buf[args + a + 1..e]; }
  }

  /** The argument in [args, e): with a value if the first '=' found lies in it. */
  method Argument(buf: array<char>, args: nat, equals: Option<nat>, ghost e: nat) returns (pair: Pair)
    requires Occupies(buf[..], args, e)
    requires match equals
             case None => '=' !in buf[args..e]
             case Some(q) => args <= q < e && buf[q] == '=' && '=' !in buf[args..q]
    modifies buf
    ensures pair == ParseSegment(old(buf[args..e]))
    ensures buf[e..] == old(buf[e..])
  {
    match equals
    case None => pair := KeyOnly(buf, args, e);
    case Some(q) => pair := KeyAndValue(buf, args, q, e);
  }

  /** What is left to parse: the string at `args`, or nothing once it is NULL. */
  ghost predicate Remaining(buf: string, args: Option<nat>, e: nat, rest: string) {
    match args
    case None => rest == ""
    case Some(p) => Occupies(buf, p, e) && rest == buf[p..e]
  }

  /** An argument that ends at the '&' at position a, and what follows it. */
  method ArgumentBefore(buf: array<char>, args: nat, equals: Option<nat>, a: nat, ghost e: nat) returns (pair: Pair)
    requires Occupies(buf[..], args, e) && args <= a < e && buf[a] == '&'
    requires match equals
             case None => '=' !in buf[args..a]
             case Some(q) => args <= q < e && buf[q] == '=' && if q < a then '=' !in buf[args..q] else '=' !in buf[args..a]
    modifies buf
    ensures pair == ParseSegment(old(buf[args..a]))
    ensures Occupies(buf[..], a + 1, e) && buf[a + 1..e] == old(buf[a + 1..e])
  {
    hide IndexOf, ParseSegment;
    ghost var before := buf[..];
    buf[a] := NUL;
    CutAtAmpersand(before, args, a, e);
    ghost var cut := buf[..];
    assert cut == before[a := NUL];
    if equals.None? || equals.value >= a + 1 {
      pair := Argument(buf, args, None, a);
    } else {
      assert buf[args..equals.value] == before[args..equals.value];
      pair := Argument(buf, args, equals, a);
    }
    StaysOccupied(cut, buf[..], a, a + 1, e);
  }

  lemma CutAtAmpersand(buf: string, args: nat, a: nat, e: nat)
    requires Occupies(buf, args, e) && args <= a < e
    ensures var b := buf[a := NUL];
            Occupies(b, args, a) && Occupies(b, a + 1, e) && b[args..a] == buf[args..a] && b[a + 1..e] == buf[a + 1..e]
  {
    var b, s := buf[a := NUL], buf[args..e];
    assert s[..a - args] == b[args..a] && s[a - args + 1..] == b[a + 1..e];
    assert NUL !in s[..a - args] && NUL !in s[a - args + 1..];
    assert buf[args..a] == s[..a - args] && buf[a + 1..e] == s[a - args + 1..];
  }

  /** The body of the loop up to the callback: the pair it is called with and
      where the next turn starts. */
  method OneArgument(buf: array<char>, args: nat, ghost e: nat)
    returns (pair: Pair, next: Option<nat>, ghost rest: string)
    requires Occupies(buf[..], args, e) && args < e
    modifies buf
    ensures ParseArguments(old(buf[args..e])) == [pair] + ParseArguments(rest)
    ensures Remaining(buf[..], next, e, rest) && |rest| < e - args
  {
    hide IndexOf, ParseSegment, ParseArguments, Occupies;
    FirstSegment(buf[..], args, e);
    OccupiedInside(buf[..], args, e);
    ParseArgumentsStep("");
    var equals := StrChr(buf[..], args, '=');
    var amper := StrChr(buf[..], args, '&');
    if amper.None? {
      next, rest := None, "";
      pair := Argument(buf, args, equals, e);
      return;
    }
    var a := amper.value;
    pair := ArgumentBefore(buf, args, equals, a, e);
    next, rest := Some(a + 1), buf[a + 1..e];
  }

  /** What the caller learns: the pairs handed to the callback are the parsed
      ones, up to and including the first that it refuses. */
  ghost predicate Delivered(cb: (string, Option<string>) -> bool, all: seq<Pair>,
                            ok: bool, numHeaders: nat, calls: seq<Pair>) {
    && calls <= all
    && numHeaders == (if ok then |calls| else |calls| - 1) % UINT32_LIMIT
    && if ok then calls == all && Accepts(cb, calls)
       else calls != [] && Accepts(cb, calls[..|calls| - 1]) && !Accepts(cb, calls)
  }

  ghost predicate Accepts(cb: (string, Option<string>) -> bool, pairs: seq<Pair>) {
    forall i :: 0 <= i < |pairs| ==> cb(pairs[i].key, pairs[i].value)
  }

  /** MHD_parse_arguments_.  `calls` records the callback's arguments in order. */
  method ParseArgumentsInPlace(buf: array<char>, start: nat, cb: (string, Option<string>) -> bool)
    returns (ok: bool, numHeaders: nat, calls: seq<Pair>)
    requires Terminated(buf[..], start)
    modifies buf
    ensures Delivered(cb, ParseArguments(StringAt(old(buf[..]), start)), ok, numHeaders, calls)
  {
    hide IndexOf, ParseSegment, ParseArguments;
    ghost var e := EndOf(buf[..], start);
    ghost var rest := StringAt(buf[..], start);
    ghost var all := ParseArguments(rest);
    ParseArgumentsStep("");
    var args: Option<nat> := Some(start);
    numHeaders, calls := 0, [];
    while args.Some? && buf[args.value] != NUL
      invariant Remaining(buf[..], args, e, rest)
      invariant all == calls + ParseArguments(rest)
      invariant Accepts(cb, calls) && numHeaders == |calls| % UINT32_LIMIT
      decreases |rest|
    {
      var pair;
      pair, args, rest := OneArgument(buf, args.value, e);
      ghost var before := calls;
      calls := calls + [pair];
      ok := cb(pair.key, pair.value);
      if !ok {
        assert calls[..|calls| - 1] == before && calls[|calls| - 1] == pair;
        return;
      }
      numHeaders := (numHeaders + 1) % UINT32_LIMIT;
    }
    ok := true;
  }
}
