/** Printing and parsing are inverse: whatever encoder a client uses, decoding its
    output gives the original text, and the argument parser gives back the list of
    arguments it was given. */
module UrlPrinting {
  import opened CStrings
  import opened UrlArguments

  /** Characters that may stand for themselves: any but '%', and in a form also
      none that the parser treats specially. */
  predicate Literal(c: char, form: bool) {
    c != '%' && (form ==> c != '+' && c != '&' && c != '=')
  }

  /** e starts with '%' and two digits, of either case, that stand for c. */
  predicate Escape(e: string, c: char) {
    && 3 <= |e| && e[0] == '%' && c as int < 256
    && Denotes(e[1], c as int / 16) && Denotes(e[2], c as int % 16)
  }

  /** The decoder sees exactly these escapes. */
  lemma EscapeExactly(e: string, c: char)
    ensures Escape(e, c) <==> StartsWithEscape(e) && EscapedChar(e) == c
  {
    hide Denotes, HexValue;
    if 3 <= |e| {
      if c as int < 256 {
        HexValueExactly(e[1], c as int / 16);
        HexValueExactly(e[2], c as int % 16);
      }
    }
  }

  /** The text e encodes s: each character is written literally, as '%HH' with
      digits of either case (section 2.1 of RFC 3986), or in a form a space as '+'. */
  predicate Encodes(e: string, s: string, form: bool) {
    if s == "" then e == ""
    else
      || (e != "" && e[0] == s[0] && Literal(s[0], form) && Encodes(e[1..], s[1..], form))
      || (Escape(e, s[0]) && Encodes(e[3..], s[1..], form))
      || (form && e != "" && e[0] == '+' && s[0] == ' ' && Encodes(e[1..], s[1..], form))
  }

  lemma {:induction false} DecodeInvertsPercentEncoding(e: string, s: string)
    requires Encodes(e, s, false)
    ensures Decode(e) == s
  {
    if s == "" {
    } else {
      EscapeExactly(e, s[0]);
      if Escape(e, s[0]) && Encodes(e[3..], s[1..], false) {
        DecodeInvertsPercentEncoding(e[3..], s[1..]);
      } else {
        DecodeInvertsPercentEncoding(e[1..], s[1..]);
      }
    }
  }

  lemma PlusToSpaceDrops(e: string, k: nat)
    requires k <= |e|
    ensures PlusToSpace(e)[k..] == PlusToSpace(e[k..])
  {
  }

  lemma {:induction false} DecodeInvertsFormEncoding(e: string, s: string)
    requires Encodes(e, s, true)
    ensures Decode(PlusToSpace(e)) == s
  {
    if s == "" {
    } else {
      var t := PlusToSpace(e);
      EscapeExactly(e, s[0]);
      if Escape(e, s[0]) && Encodes(e[3..], s[1..], true) {
        DecodeInvertsFormEncoding(e[3..], s[1..]);
        PlusToSpaceDrops(e, 3);
        assert StartsWithEscape(t) && EscapedChar(t) == EscapedChar(e);
      } else {
        DecodeInvertsFormEncoding(e[1..], s[1..]);
        PlusToSpaceDrops(e, 1);
        assert !StartsWithEscape(t) && t[0] == s[0];
      }
    }
  }

  lemma {:induction false} FormEncodingHasNoDelimiters(e: string, s: string)
    requires Encodes(e, s, true)
    ensures '&' !in e && '=' !in e
  {
    if s == "" {
    } else {
      EscapeExactly(e, s[0]);
      if Escape(e, s[0]) && Encodes(e[3..], s[1..], true) {
        FormEncodingHasNoDelimiters(e[3..], s[1..]);
        assert e == [e[0], e[1], e[2]] + e[3..];
      } else {
        FormEncodingHasNoDelimiters(e[1..], s[1..]);
        assert e == [e[0]] + e[1..];
      }
    }
  }

  // ------------------------------------------------------------------ an encoder

  /** Every character as '%HH'. */
  function Encode(s: string): (e: string)
    requires IsBytes(s)
  {
    if s == "" then ""
    else ['%', HexDigit(s[0] as int / 16), HexDigit(s[0] as int % 16)] + Encode(s[1..])
  }

  /** Every byte string has an encoding. */
  lemma {:induction false} EncodeEncodes(s: string, form: bool)
    requires IsBytes(s)
    ensures Encodes(Encode(s), s, form)
  {
    if s == "" {
    } else {
      EncodeEncodes(s[1..], form);
      EscapeExactly(Encode(s), s[0]);
      assert Encode(s)[3..] == Encode(s[1..]);
    }
  }

  // ------------------------------------------------------------------ lists of arguments

  /** An argument as it is written: key and value already encoded. */
  datatype Written = Written(key: string, value: Option<string>)

  function PrintOne(w: Written): string {
    match w.value
    case None => w.key
    case Some(v) => w.key + "=" + v
  }

  function Print(ws: seq<Written>): string {
    if ws == [] then ""
    else if |ws| == 1 then PrintOne(ws[0])
    else PrintOne(ws[0]) + "&" + Print(ws[1..])
  }

  ghost predicate WritesText(e: string, s: string) {
    Encodes(e, s, true) && NUL !in s
  }

  ghost predicate Writes(w: Written, p: Pair) {
    && WritesText(w.key, p.key)
    && (w.value.Some? <==> p.value.Some?)
    && (w.value.Some? ==> WritesText(w.value.value, p.value.value))
  }

  lemma TextComesBack(e: string, s: string)
    requires WritesText(e, s)
    ensures Unescape(e) == s && '&' !in e && '=' !in e && (e == "" <==> s == "")
  {
    DecodeInvertsFormEncoding(e, s);
    FormEncodingHasNoDelimiters(e, s);
    UntilNulIs(s);
  }

  lemma SegmentComesBack(w: Written, p: Pair)
    requires Writes(w, p)
    ensures ParseSegment(PrintOne(w)) == p && '&' !in PrintOne(w)
    ensures PrintOne(w) == "" <==> p == Pair("", None)
  {
    hide IndexOf, Encodes, Unescape;
    TextComesBack(w.key, p.key);
    var seg := PrintOne(w);
    if w.value.Some? {
      TextComesBack(w.value.value, p.value.value);
      IndexOfIs(seg, '=', 0, |w.key|);
      assert seg[..|w.key|] == w.key && seg[|w.key| + 1..] == w.value.value;
    } else {
      IndexOfIs(seg, '=', 0, |seg|);
    }
  }

  /** Printing a list of arguments and parsing the text gives the list back, except
      that an empty key without a value is lost when it comes last. */
  lemma {:induction false} ParseInvertsPrint(ws: seq<Written>, ps: seq<Pair>)
    requires |ws| == |ps| && forall i :: 0 <= i < |ws| ==> Writes(ws[i], ps[i])
    ensures ParseArguments(Print(ws)) ==
              if ps != [] && ps[|ps| - 1] == Pair("", None) then ps[..|ps| - 1] else ps
    ensures ParseArguments(Print(ws)) == ps <==> ps == [] || ps[|ps| - 1] != Pair("", None)
  {
    hide IndexOf, Writes, ParseSegment, ParseArguments, PrintOne;
    var text := Print(ws);
    ParseArgumentsStep(text);
    ParseArgumentsStep("");
    if |ws| == 1 {
      SegmentComesBack(ws[0], ps[0]);
      IndexOfIs(text, '&', 0, |text|);
      assert text[..|text|] == text;
      assert ps == [ps[0]];
    } else if |ws| > 1 {
      SegmentComesBack(ws[0], ps[0]);
      var first, rest := PrintOne(ws[0]), Print(ws[1..]);
      IndexOfIs(text, '&', 0, |first|);
      assert text[..|first|] == first && text[|first| + 1..] == rest;
      ParseInvertsPrint(ws[1..], ps[1..]);
      assert ps == [ps[0]] + ps[1..];
      assert ps[..|ps| - 1] == [ps[0]] + ps[1..][..|ps| - 2];
    }
  }

  // ------------------------------------------------------------------ what escapes stand for

  /** There is an escape at position i.  As '%' is no digit, escapes never overlap. */
  predicate EscapeAt(s: string, i: nat) {
    i < |s| && StartsWithEscape(s[i..])
  }

  ghost predicate HasEscape(s: string) {
    exists i: nat :: EscapeAt(s, i)
  }

  predicate EscapeFor(s: string, i: nat, c: char) {
    EscapeAt(s, i) && EscapedChar(s[i..]) == c
  }

  /** Some escape of s stands for c. */
  ghost predicate Escapes(s: string, c: char) {
    exists i: nat :: EscapeFor(s, i, c)
  }

  lemma EscapeMoves(s: string, k: nat, i: nat, c: char)
    requires k <= |s|
    ensures EscapeAt(s[k..], i) <==> EscapeAt(s, k + i)
    ensures EscapeFor(s[k..], i, c) <==> EscapeFor(s, k + i, c)
  {
    if i < |s| - k {
      assert s[k..][i..] == s[k + i..];
    }
  }

  lemma NoEscapeInside(s: string, i: nat)
    requires StartsWithEscape(s) && EscapeAt(s, i)
    ensures i == 0 || i >= 3
  {
    assert s[i..][0] == s[i];
  }

  /** How the escapes of a text are those of its first character and of the rest. */
  lemma EscapesStep(s: string, c: char)
    requires s != ""
    ensures var k := if StartsWithEscape(s) then 3 else 1;
            Escapes(s, c) <==> (StartsWithEscape(s) && EscapedChar(s) == c) || Escapes(s[k..], c)
  {
    hide StartsWithEscape, EscapedChar;
    EscapeIsLong(s);
    var k := if StartsWithEscape(s) then 3 else 1;
    assert s[0..] == s;
    if i: nat :| EscapeFor(s[k..], i, c) {
      EscapeMoves(s, k, i, c);
      assert EscapeFor(s, k + i, c);
    }
    if i: nat :| EscapeFor(s, i, c) {
      if i > 0 {
        if StartsWithEscape(s) {
          NoEscapeInside(s, i);
        }
        EscapeMoves(s, k, i - k, c);
        assert EscapeFor(s[k..], i - k, c);
      }
    }
    if StartsWithEscape(s) {
      assert EscapeFor(s, 0, EscapedChar(s));
    }
  }

  lemma EscapeIsLong(s: string)
    ensures StartsWithEscape(s) ==> 3 <= |s| && s[0] == '%'
  {
  }

  /** A character that does not occur in a text is decoded from it if and only if an
      escape stands for it. */
  lemma {:induction false} DecodesTo(s: string, c: char)
    requires c !in s
    ensures c in Decode(s) <==> Escapes(s, c)
  {
    hide StartsWithEscape, EscapedChar;
    if s == "" {
      assert Decode(s) == "";
    } else {
      EscapesStep(s, c);
      EscapeIsLong(s);
      DecodesTo(s[if StartsWithEscape(s) then 3 else 1..], c);
    }
  }

  /** "%00" at position i. */
  predicate NulEscapeAt(s: string, i: nat) {
    i + 3 <= |s| && s[i] == '%' && s[i + 1] == '0' && s[i + 2] == '0'
  }

  lemma NulEscapes(s: string)
    ensures Escapes(s, NUL) <==> exists i: nat :: NulEscapeAt(s, i)
  {
    if i: nat :| NulEscapeAt(s, i) {
      assert EscapeFor(s, i, NUL);
    }
    if i: nat :| EscapeFor(s, i, NUL) {
      assert NulEscapeAt(s, i);
    }
  }

  /** The length that MHD_http_unescape returns is what strlen gives afterwards
      exactly when the text has no "%00". */
  lemma ReturnedLengthIsStrlen(s: string)
    requires NUL !in s
    ensures |UntilNul(Decode(s))| == |Decode(s)| <==> !exists i: nat :: NulEscapeAt(s, i)
  {
    hide Decode, Escapes;
    DecodesTo(s, NUL);
    NulEscapes(s);
    if NUL !in Decode(s) {
      UntilNulIs(Decode(s));
    }
  }

  /** The same of the function on its buffer. */
  method ReturnedLength(buf: array<char>, val: nat) returns (len: nat)
    requires Terminated(buf[..], val)
    modifies buf
    ensures var s := StringAt(old(buf[..]), val);
            len == |StringAt(buf[..], val)| <==> !exists i: nat :: NulEscapeAt(s, i)
  {
    hide Decode, IndexOf;
    ghost var before := buf[..];
    ghost var s := StringAt(before, val);
    ReturnedLengthIsStrlen(s);
    len := HttpUnescape(buf, val);
    Disassemble(buf[..], before, val, Decode(s), EndOf(before, val));
    StringBeforeNul(buf[..], val, Decode(s));
  }

  /** For "%00" it returns 1 and leaves the empty string. */
  lemma NulEscapeIsCounted()
    ensures |Decode("%00")| == 1 && UntilNul(Decode("%00")) == ""
  {
    var s := "%00";
    assert StartsWithEscape(s) && s[3..] == "";
    assert Decode("") == "";
    assert NUL in Decode(s);
  }

  // ------------------------------------------------------------------ decoding part by part

  lemma EscapeStaysInside(p: string, q: string)
    requires p != "" && (q == "" || HexValue(q[0]) < 0)
    ensures StartsWithEscape(p + q) <==> StartsWithEscape(p)
    ensures StartsWithEscape(p) ==> EscapedChar(p + q) == EscapedChar(p) && (p + q)[3..] == p[3..] + q
    ensures (p + q)[1..] == p[1..] + q
  {
    hide HexValue;
  }

  /** Decoding distributes over a cut that no escape can straddle. */
  lemma {:induction false} DecodeConcat(p: string, q: string)
    requires q == "" || HexValue(q[0]) < 0
    ensures Decode(p + q) == Decode(p) + Decode(q)
  {
    hide StartsWithEscape, EscapedChar, HexValue;
    if p == "" {
      assert p + q == q;
    } else {
      EscapeStaysInside(p, q);
      if StartsWithEscape(p) {
        EscapeLength(p);
        DecodeConcat(p[3..], q);
      } else {
        DecodeConcat(p[1..], q);
      }
    }
  }

  lemma EscapeLength(p: string)
    requires StartsWithEscape(p)
    ensures 3 <= |p|
  {
  }

  /** A text without '%' decodes to itself. */
  lemma {:induction false} DecodePlain(s: string)
    requires '%' !in s
    ensures Decode(s) == s
  {
    if s == "" {
    } else {
      DecodePlain(s[1..]);
    }
  }
}
