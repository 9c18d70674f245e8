/** The Base64 encoder of tlsauthentication.c and the decoder of base64.c.

    A byte is a character below 256.  The shifts and masks of the decoder work on disjoint
    groups of bits, so they are written as products, quotients and remainders; those of the
    encoder, which do not, are in `Base64Bits`. */
module Base64 {
  import opened Base64Bits
  import opened CStrings

  /** The digit of a value below 64, by section 4 of RFC 4648. */
  function Letter(v: nat): (c: char)
    requires v < 64
    ensures 0 < c as int < 255 && c != '='
  {
    if v < 26 then (65 + v) as char
    else if v < 52 then (97 + v - 26) as char
    else if v < 62 then (48 + v - 52) as char
    else if v == 62 then '+'
    else '/'
  }

  /** The table `base64_digits`: the pad has its own entry, and every other character
      that is not a digit has the value 0. */
  function Digit(c: char): (v: int)
    ensures -1 <= v < 64 && (v == -1 <==> c == '=')
  {
    if 'A' <= c <= 'Z' then c as int - 65
    else if 'a' <= c <= 'z' then c as int - 97 + 26
    else if '0' <= c <= '9' then c as int - 48 + 52
    else if c == '+' then 62
    else if c == '/' then 63
    else if c == '=' then -1
    else 0
  }

  const OTHERS: string := "0123456789+/"
  const ALPHABET: string := UPPER_CASE + LOWER_CASE + OTHERS

  /** The digits are those of the alphabet, in its order. */
  lemma LetterExactly(v: nat)
    requires v < 64
    ensures Letter(v) == ALPHABET[v]
  {
    hide Letter;
    LetterByPart(v);
    if v < 26 {
      CapitalAt(v);
    } else if v < 52 {
      CapitalAt(v - 26);
    }
  }

  lemma LetterByPart(v: nat)
    requires v < 64
    ensures v < 26 ==> Letter(v) as int == 'A' as int + v
    ensures 26 <= v < 52 ==> Letter(v) as int == 'a' as int + v - 26
    ensures 52 <= v ==> Letter(v) == OTHERS[v - 52]
  {
  }

  /** A character outside the alphabet counts as 0, only the pad is told from it. */
  lemma OtherCharactersAreZero(c: char)
    requires c !in ALPHABET
    ensures Digit(c) == if c == '=' then -1 else 0
  {
    if Digit(c) >= 0 {
      LetterExactly(Digit(c));
    }
  }

  lemma DigitOfLetter(v: nat)
    requires v < 64
    ensures Digit(Letter(v)) == v
  {
  }

  // ---- one group ----

  /** The three bytes of four six-bit digits; a pad counts as 63. */
  function Byte1(a: int, b: int): char {
    (a % 64 * 4 + b % 64 / 16) as char
  }

  function Byte2(b: int, c: int): char {
    (b % 16 * 16 + c % 64 / 4) as char
  }

  function Byte3(c: int, d: int): char {
    (c % 4 * 64 + d % 64) as char
  }

  /** The k-th six-bit digit of a group of 24 bits, the highest first. */
  function Sextet(l: nat, k: nat): (v: nat)
    requires k < 4
    ensures v < 64
  {
    (if k == 0 then l / 0x4_0000 else if k == 1 then l / 0x1000 else if k == 2 then l / 0x40 else l) % 64
  }

  function Group(m: string): (l: nat)
    requires 0 < |m| <= 3
  {
    m[0] as int * 0x1_0000 + (if |m| > 1 then m[1] as int * 0x100 else 0) + (if |m| > 2 then m[2] as int else 0)
  }

  lemma SextetsAre(l: nat, a: nat, b: nat, c: nat, d: nat)
    requires a < 64 && b < 64 && c < 64 && d < 64 && l == a * 0x4_0000 + b * 0x1000 + c * 0x40 + d
    ensures Sextet(l, 0) == a && Sextet(l, 1) == b && Sextet(l, 2) == c && Sextet(l, 3) == d
  {
    assert l / 0x40 == a * 0x1000 + b * 0x40 + c;
    assert l / 0x1000 == a * 0x40 + b;
    assert l / 0x4_0000 == a;
  }

  /** The sextets of a group cut its bytes at the bits 6, 4 and 2. */
  lemma SextetsOfBytes(x: nat, y: nat, z: nat)
    requires x < 256 && y < 256 && z < 256
    ensures var l := x * 0x1_0000 + y * 0x100 + z;
            && Sextet(l, 0) == x / 4 && Sextet(l, 1) == x % 4 * 16 + y / 16
            && Sextet(l, 2) == y % 16 * 4 + z / 64 && Sextet(l, 3) == z % 64
  {
    var l := x * 0x1_0000 + y * 0x100 + z;
    var a, b, c, d := x / 4, x % 4 * 16 + y / 16, y % 16 * 4 + z / 64, z % 64;
    assert l == a * 0x4_0000 + b * 0x1000 + c * 0x40 + d;
    SextetsAre(l, a, b, c, d);
  }

  lemma JoinSplit(hi: nat, lo: nat)
    ensures lo < 16 ==> (hi * 16 + lo) / 16 == hi && (hi * 16 + lo) % 16 == lo
    ensures lo < 4 ==> (hi * 4 + lo) / 4 == hi && (hi * 4 + lo) % 4 == lo
  {
  }

  lemma FirstByte(x: nat, y: nat)
    requires x < 256 && y < 256
    ensures Byte1(x / 4, x % 4 * 16 + y / 16) as int == x
  {
    var b := x % 4 * 16 + y / 16;
    JoinSplit(x % 4, y / 16);
    assert x / 4 % 64 == x / 4 && b % 64 == b;
  }

  lemma SecondByte(x: nat, y: nat, z: nat)
    requires y < 256 && z < 256
    ensures Byte2(x % 4 * 16 + y / 16, y % 16 * 4 + z / 64) as int == y
  {
    var c := y % 16 * 4 + z / 64;
    JoinSplit(x % 4, y / 16);
    JoinSplit(y % 16, z / 64);
    assert c % 64 == c;
  }

  lemma ThirdByte(y: nat, z: nat)
    requires z < 256
    ensures Byte3(y % 16 * 4 + z / 64, z % 64) as int == z
  {
    JoinSplit(y % 16, z / 64);
    assert z % 64 % 64 == z % 64;
  }

  /** The bytes come back from the sextets of their group. */
  lemma GroupComesBack(m: string)
    requires 0 < |m| <= 3 && IsBytes(m)
    ensures var l := Group(m);
            && Byte1(Sextet(l, 0), Sextet(l, 1)) == m[0]
            && (|m| > 1 ==> Byte2(Sextet(l, 1), Sextet(l, 2)) == m[1])
            && (|m| > 2 ==> Byte3(Sextet(l, 2), Sextet(l, 3)) == m[2])
  {
    var x, y, z := m[0] as int, if |m| > 1 then m[1] as int else 0, if |m| > 2 then m[2] as int else 0;
    hide Byte1, Byte2, Byte3, Sextet;
    SextetsOfBytes(x, y, z);
    FirstByte(x, y);
    SecondByte(x, y, z);
    ThirdByte(y, z);
  }

  // ---- the encoding ----

  /** The four characters of a group of one to three bytes. */
  function Quad(m: string): (q: string)
    requires 0 < |m| <= 3
    ensures |q| == 4
  {
    var l := Group(m);
    [Letter(Sextet(l, 0)), Letter(Sextet(l, 1)),
     if |m| > 1 then Letter(Sextet(l, 2)) else '=',
     if |m| > 2 then Letter(Sextet(l, 3)) else '=']
  }

  function Encode(m: string): (e: string)
    ensures |e| == (|m| + 2) / 3 * 4 && |e| % 4 == 0
  {
    if |m| == 0 then "" else if |m| <= 3 then Quad(m) else Quad(m[..3]) + Encode(m[3..])
  }

  // ---- the decoding ----

  /** One byte if the third character is a pad, two if the fourth is, otherwise three. */
  function DecodeGroup(q: string): (g: string)
    requires |q| == 4
    ensures 1 <= |g| <= 3
  {
    var a, b, c, d := Digit(q[0]), Digit(q[1]), Digit(q[2]), Digit(q[3]);
    [Byte1(a, b)] + if c == -1 then [] else [Byte2(b, c)] + if d == -1 then [] else [Byte3(c, d)]
  }

  /** Decoding stops behind the first group with a pad in its second half. */
  function Decode(e: string): (m: string)
    requires |e| % 4 == 0
    ensures |m| <= |e| / 4 * 3
  {
    if |e| == 0 then ""
    else
      var g := DecodeGroup(e[..4]);
      assert |e| / 4 == 1 + (|e| - 4) / 4 && (|e| - 4) % 4 == 0;
      if |g| < 3 then g else g + Decode(e[4..])
  }

  lemma DigitsOfQuad(m: string)
    requires 0 < |m| <= 3
    ensures var l, q := Group(m), Quad(m);
            && Digit(q[0]) == Sextet(l, 0) && Digit(q[1]) == Sextet(l, 1)
            && Digit(q[2]) == (if |m| > 1 then Sextet(l, 2) else -1)
            && Digit(q[3]) == (if |m| > 2 then Sextet(l, 3) else -1)
  {
    hide Sextet, Group, Digit, Letter;
    var l := Group(m);
    DigitOfLetter(Sextet(l, 0));
    DigitOfLetter(Sextet(l, 1));
    DigitOfLetter(Sextet(l, 2));
    DigitOfLetter(Sextet(l, 3));
  }

  lemma QuadDecodes(m: string)
    requires 0 < |m| <= 3 && IsBytes(m)
    ensures DecodeGroup(Quad(m)) == m
  {
    hide Byte1, Byte2, Byte3, Sextet, Group, Digit, Letter, Quad;
    GroupComesBack(m);
    DigitsOfQuad(m);
  }

  /** The decoder undoes the encoder on every string of bytes. */
  lemma {:induction false} DecodeInvertsEncode(m: string)
    requires IsBytes(m)
    ensures Decode(Encode(m)) == m
  {
    hide DecodeGroup, Quad;
    var e := Encode(m);
    if |m| == 0 {
    } else if |m| <= 3 {
      QuadDecodes(m);
      assert e[..4] == e && Decode(e[4..]) == "";
    } else {
      DecodeInvertsEncode(m[3..]);
      QuadDecodes(m[..3]);
      assert e[..4] == Quad(m[..3]) && e[4..] == Encode(m[3..]);
      assert m[..3] + m[3..] == m;
    }
  }

  /** The decoder accepts what the encoder writes. */
  lemma {:induction false} EncodedIsAccepted(m: string)
    ensures forall i :: 0 <= i < |Encode(m)| ==> 0 < Encode(m)[i] as int < 255
  {
    hide Sextet, Group, Letter;
    if |m| <= 3 {
    } else {
      EncodedIsAccepted(m[3..]);
    }
  }

  lemma EncodeGroups3(m: string, rest: string)
    requires |m| == 3 && rest != ""
    ensures Encode(m + rest) == Quad(m) + Encode(rest)
  {
    hide Quad;
    assert (m + rest)[..3] == m && (m + rest)[3..] == rest;
  }

  /** A quad given by the places of its digits in the alphabet. */
  lemma QuadIs(m: string, a: nat, b: nat, c: nat, d: nat)
    requires 0 < |m| <= 3 && a < 64 && b < 64 && c < 64 && d < 64
    requires Group(m) == a * 0x4_0000 + b * 0x1000 + c * 0x40 + d
    ensures Quad(m) == [ALPHABET[a], ALPHABET[b], if |m| > 1 then ALPHABET[c] else '=', if |m| > 2 then ALPHABET[d] else '=']
  {
    hide Letter, Group, Sextet;
    SextetsAre(Group(m), a, b, c, d);
    LetterExactly(a);
    LetterExactly(b);
    LetterExactly(c);
    LetterExactly(d);
  }

  lemma Quads()
    ensures Quad("f") == "Zg==" && Quad("fo") == "Zm8=" && Quad("foo") == "Zm9v"
    ensures Quad("b") == "Yg==" && Quad("ba") == "YmE=" && Quad("bar") == "YmFy"
  {
    hide Quad;
    QuadIs("f", 25, 32, 0, 0);
    QuadIs("fo", 25, 38, 60, 0);
    QuadIs("foo", 25, 38, 61, 47);
    QuadIs("b", 24, 32, 0, 0);
    QuadIs("ba", 24, 38, 4, 0);
    QuadIs("bar", 24, 38, 5, 50);
  }

  /** The test vectors of section 10 of RFC 4648. */
  lemma TestVectors()
    ensures Encode("") == "" && Encode("f") == "Zg==" && Encode("fo") == "Zm8=" && Encode("foo") == "Zm9v"
    ensures Encode("foob") == "Zm9vYg==" && Encode("fooba") == "Zm9vYmE=" && Encode("foobar") == "Zm9vYmFy"
  {
    hide Quad;
    Quads();
    EncodeGroups3("foo", "b");
    EncodeGroups3("foo", "ba");
    EncodeGroups3("foo", "bar");
    assert "foo" + "b" == "foob" && "foo" + "ba" == "fooba" && "foo" + "bar" == "foobar";
  }

  // ---- the functions on buffers ----

  /** The body of the decoder's loop: writes the bytes of one group at w. */
  method WriteGroup(q: string, dest: array<char>, w: nat) returns (n: nat)
    requires |q| == 4 && w + 3 <= dest.Length
    modifies dest
    ensures n == |DecodeGroup(q)| && dest[..w + n] == old(dest[..w]) + DecodeGroup(q)
  {
    hide Digit, Byte1, Byte2, Byte3;
    var a, b, c, d := Digit(q[0]), Digit(q[1]), Digit(q[2]), Digit(q[3]);
    dest[w] := Byte1(a, b);
    if c == -1 {
      return 1;
    }
    dest[w + 1] := Byte2(b, c);
    if d == -1 {
      return 2;
    }
    dest[w + 2] := Byte3(c, d);
    return 3;
  }

  lemma DecodeOne(e: string, q: string, rest: string)
    requires |q| == 4 && e == q + rest && |e| % 4 == 0 && |rest| % 4 == 0
    ensures Decode(e) == if |DecodeGroup(q)| < 3 then DecodeGroup(q) else DecodeGroup(q) + Decode(rest)
  {
    hide DecodeGroup;
    assert e[..4] == q && e[4..] == rest;
  }

  lemma SplitGroup(src: string, p: nat, n: nat)
    requires p + 4 * n == |src| && n > 0
    ensures |src[p..]| % 4 == 0 && |src[p + 4..]| % 4 == 0
    ensures var g := DecodeGroup(src[p..p + 4]);
            Decode(src[p..]) == if |g| < 3 then g else g + Decode(src[p + 4..])
  {
    hide DecodeGroup, Decode;
    assert src[p..] == src[p..p + 4] + src[p + 4..];
    assert |src[p + 4..]| == 4 * (n - 1);
    DecodeOne(src[p..], src[p..p + 4], src[p + 4..]);
  }

  lemma DecodeNothing()
    ensures Decode("") == ""
  {
  }

  lemma MultipleOfFour(n: nat)
    ensures 4 * n % 4 == 0
  {
  }

  /** The decoder's loop over n groups and the terminator. */
  method DecodeGroups(src: string, n: nat, dest: array<char>)
    requires |src| == 4 * n && dest.Length == 3 * n + 1
    modifies dest
    ensures Decode(src) + [NUL] <= dest[..]
  {
    hide DecodeGroup, Decode;
    DecodeNothing();
    MultipleOfFour(n);
    ghost var k := 0;
    var p, w := 0, 0;
    while p < |src|
      invariant p == 4 * k && w == 3 * k && k <= n && |src[p..]| % 4 == 0
      invariant dest[..w] + Decode(src[p..]) == Decode(src)
    {
      ghost var done, q, rest := dest[..w], src[p..p + 4], src[p + 4..];
      SplitGroup(src, p, n - k);
      var len := WriteGroup(src[p..p + 4], dest, w);
      w, p, k := w + len, p + 4, k + 1;
      if len < 3 {
        break;
      }
      Associates(done, DecodeGroup(q), Decode(rest));
    }
    assert dest[..w] == Decode(src);
    dest[w] := NUL;
  }

  /** `BASE64Decode`: null for a length that is no multiple of four.  The decoded
      bytes and their terminator fit the buffer of three bytes a group and one. */
  method BASE64Decode(src: string) returns (dest: array?<char>)
    requires NUL !in src && forall i :: 0 <= i < |src| ==> src[i] as int < 255
    ensures dest == null <==> |src| % 4 != 0
    ensures dest != null ==> dest.Length == |src| / 4 * 3 + 1 && Decode(src) + [NUL] <= dest[..]
  {
    hide Decode;
    if |src| % 4 != 0 {
      return null;
    }
    dest := new char[|src| / 4 * 3 + 1];
    DecodeGroups(src, |src| / 4, dest);
  }

  // ---- the encoder ----

  /** The encoder converts each `char` to `unsigned long` and combines three of them with
      shifts and `|`.  A character from 128 on is negative, so its conversion has all
      higher bits set, and these cover the bytes of its group that come before it. */
  predicate Covered(m: string, i: nat)
    requires i < |m|
  {
    || (i % 3 < 2 && i + 1 < |m| && m[i + 1] as int >= 128)
    || (i % 3 == 0 && i + 2 < |m| && m[i + 2] as int >= 128)
  }

  /** What the encoder encodes in place of the message. */
  function Smeared(m: string): (s: string)
    ensures |s| == |m| && forall i :: 0 <= i < |m| ==> s[i] == if Covered(m, i) then 255 as char else m[i]
  {
    seq(|m|, i requires 0 <= i < |m| => if Covered(m, i) then 255 as char else m[i])
  }

  /** The round trip through encoder and decoder gives the message back exactly if every
      byte that is followed in its group by one from 128 on is 255 itself. */
  lemma RoundTripExactly(m: string)
    requires IsBytes(m)
    ensures Decode(Encode(Smeared(m))) == m <==> forall i :: 0 <= i < |m| && Covered(m, i) ==> m[i] as int == 255
  {
    hide Encode, Decode, Covered;
    var s := Smeared(m);
    DecodeInvertsEncode(s);
    if s == m {
      forall i | 0 <= i < |m| && Covered(m, i)
        ensures m[i] as int == 255
      {
        assert s[i] == m[i];
      }
    }
  }

  /** So text of seven-bit characters comes back, */
  lemma SevenBitComesBack(m: string)
    requires forall i :: 0 <= i < |m| ==> m[i] as int < 128
    ensures Smeared(m) == m && Decode(Encode(Smeared(m))) == m
  {
    hide Encode, Decode;
    assert forall i :: 0 <= i < |m| ==> !Covered(m, i);
    RoundTripExactly(m);
  }

  /** and, in UTF-8, a letter with an accent does not. */
  lemma AccentIsGarbled()
    ensures var m := [0xC3 as char, 0xA9 as char, ':', 'p', 'w'];
            Smeared(m) == [255 as char, 0xA9 as char, ':', 'p', 'w'] && Decode(Encode(Smeared(m))) != m
  {
    hide Encode, Decode;
    var m := [0xC3 as char, 0xA9 as char, ':', 'p', 'w'];
    assert Covered(m, 0) && m[0] as int != 255;
    RoundTripExactly(m);
  }

  lemma AppendToString(a: string, b: string, e: nat, c: char)
    requires e + 1 < |a| == |b| && EndOf(a, 0) == e && c != NUL
    requires b == a[..e] + [c, NUL] + a[e + 2..]
    ensures EndOf(b, 0) == e + 1 && StringAt(b, 0) == StringAt(a, 0) + [c]
  {
    IndexOfIs(b, NUL, 0, e + 1);
  }

  /** `strncat` of one character. */
  method Append(tmp: array<char>, c: char)
    requires EndOf(tmp[..], 0) + 1 < tmp.Length && c != NUL
    modifies tmp
    ensures EndOf(tmp[..], 0) == old(EndOf(tmp[..], 0)) + 1
    ensures StringAt(tmp[..], 0) == old(StringAt(tmp[..], 0)) + [c]
  {
    ghost var a := tmp[..];
    var e := 0;
    while tmp[e] != NUL
      invariant e <= EndOf(a, 0) && NUL !in a[..e]
      decreases tmp.Length - e
    {
      e := e + 1;
    }
    IndexOfIs(a, NUL, 0, e);
    tmp[e] := c;
    tmp[e + 1] := NUL;
    AppendToString(a, tmp[..], e, c);
  }

  /** The part of a quad that the encoder's loop writes: without its pads. */
  function Unpadded(m: string): (q: string)
    requires 0 < |m| <= 3
  {
    Quad(m)[..|m| + 1]
  }

  /** The first n pads of the literal that the encoder ends with. */
  function Pads(n: nat): string
    requires n <= 3
  {
    "==="[..n]
  }

  lemma QuadIsPadded(m: string)
    requires 0 < |m| <= 3
    ensures Quad(m) == Unpadded(m) + Pads(3 - |m|)
  {
    hide Sextet, Letter;
    var q := Quad(m);
    assert forall k :: |m| + 1 <= k < 4 ==> q[k] == '=';
    assert q == q[..|m| + 1] + q[|m| + 1..];
    assert q[|m| + 1..] == Pads(3 - |m|);
  }

  lemma EncodeOne(s: string, m: string, rest: string)
    requires s == m + rest && 0 < |m| <= 3 && (rest != "" ==> |m| == 3)
    ensures Encode(s) == Quad(m) + Encode(rest)
  {
    hide Quad;
    if rest == "" {
      assert s == m;
    } else {
      assert s[..3] == m && s[3..] == rest;
    }
  }

  /** What is still to be written at position i of the message; past its end, pads. */
  function Rest(message: string, i: nat): string
    requires i <= |message| + 2
  {
    if i <= |message| then Encode(message[i..]) else Pads(i - |message|)
  }

  lemma RestAfterGroup(message: string, i: nat, m: string)
    requires i < |message| && m == message[i..if i + 3 <= |message| then i + 3 else |message|]
    ensures Rest(message, i) == Unpadded(m) + Rest(message, i + 3)
  {
    hide Quad, Unpadded, Encode;
    var rest := message[i + |m|..];
    assert message[i..] == m + rest;
    EncodeOne(message[i..], m, rest);
    QuadIsPadded(m);
    EncodeNothing();
    if |m| == 3 {
      assert Pads(0) == "";
    } else {
      assert rest == "";
    }
  }

  /** One byte of the combination of a group. */
  function Or(x: int, extended: bool): int {
    if extended then 255 else x
  }

  /** The 24 bits of a group that the encoder looks at. */
  lemma CombinedIsGroup(message: string, i: nat)
    requires i < |message| && i % 3 == 0 && IsBytes(message)
    ensures var x, y, z := message[i] as int, if i + 1 < |message| then message[i + 1] as int else 0,
                           if i + 2 < |message| then message[i + 2] as int else 0;
            Or(x, y >= 128 || z >= 128) * 0x1_0000 + Or(y, z >= 128) * 0x100 + z ==
            Group(Smeared(message)[i..if i + 3 <= |message| then i + 3 else |message|])
  {
    hide Smeared;
    var s := Smeared(message);
    var m := s[i..if i + 3 <= |message| then i + 3 else |message|];
    assert m[0] == s[i] && (|m| > 1 ==> m[1] == s[i + 1]) && (|m| > 2 ==> m[2] == s[i + 2]);
  }

  /** The bits of the character at position k, or none behind the end. */
  function BitsAt(message: string, k: nat): (b: bv8)
    requires IsBytes(message)
    ensures Value(b) == if k < |message| then message[k] as int else 0
  {
    ZeroHasNoValue();
    if k < |message| then Bits(message[k]) else 0
  }

  /** The `unsigned long` of a group: only characters of the message are extended. */
  function Long(message: string, i: nat): bv64
    requires i < |message| && IsBytes(message)
  {
    (Extended(Bits(message[i])) << 16)
    | (if i + 1 < |message| then Extended(Bits(message[i + 1])) << 8 else 0)
    | (if i + 2 < |message| then Extended(Bits(message[i + 2])) else 0)
  }

  lemma LongIsCombined(message: string, i: nat)
    requires i < |message| && IsBytes(message)
    ensures Long(message, i) == Combined(BitsAt(message, i), BitsAt(message, i + 1), BitsAt(message, i + 2))
  {
    hide Bits, Value, Extended;
    NothingExtended();
  }

  lemma NothingExtended()
    ensures Extended(0) == 0 && Extended(0) << 8 == 0
  {
  }

  /** The masks cut the sextets of the group with its covered bytes out of it. */
  lemma SixBitsAreSextets(message: string, i: nat)
    requires i < |message| && i % 3 == 0 && IsBytes(message)
    ensures var g := Group(Smeared(message)[i..if i + 3 <= |message| then i + 3 else |message|]);
            forall k: nat :: k < 4 ==> Value(SixBits(Long(message, i), k)) == Sextet(g, k)
  {
    hide Smeared, Group, Sextet, Value, SixBits, Long, Combined, BitsAt;
    var x, y, z := BitsAt(message, i), BitsAt(message, i + 1), BitsAt(message, i + 2);
    LongIsCombined(message, i);
    SixBitsAre(x, y, z);
    CombinedIsGroup(message, i);
    SextetsOfBytes(Or(Value(x), Value(y) >= 128 || Value(z) >= 128), Or(Value(y), Value(z) >= 128), Value(z));
  }

  /** The body of the encoder's loop. */
  method EncodeGroup(message: string, i: nat, tmp: array<char>)
    requires i < |message| && i % 3 == 0 && IsBytes(message)
    requires EndOf(tmp[..], 0) + 4 < tmp.Length
    modifies tmp
    ensures var s := Smeared(message);
            var m := s[i..if i + 3 <= |s| then i + 3 else |s|];
            && StringAt(tmp[..], 0) == old(StringAt(tmp[..], 0)) + Unpadded(m)
            && Rest(s, i) == Unpadded(m) + Rest(s, i + 3)
            && EndOf(tmp[..], 0) == old(EndOf(tmp[..], 0)) + |m| + 1
  {
    hide EndOf, StringAt, Letter, Sextet, Rest, Smeared, Group, Value, SixBits, Long;
    ghost var s := Smeared(message);
    ghost var m := s[i..if i + 3 <= |s| then i + 3 else |s|];
    RestAfterGroup(s, i, m);
    SixBitsAreSextets(message, i);
    var l := Long(message, i);
    Append(tmp, Letter(Value(SixBits(l, 0))));
    Append(tmp, Letter(Value(SixBits(l, 1))));
    if i + 1 < |message| {
      Append(tmp, Letter(Value(SixBits(l, 2))));
    }
    if i + 2 < |message| {
      Append(tmp, Letter(Value(SixBits(l, 3))));
    }
  }

  /** `strncat` of the first n pads. */
  method AppendPads(tmp: array<char>, n: nat)
    requires n <= 3 && EndOf(tmp[..], 0) + n < tmp.Length
    modifies tmp
    ensures StringAt(tmp[..], 0) == old(StringAt(tmp[..], 0)) + Pads(n)
  {
    hide EndOf, StringAt;
    var j := 0;
    while j < n
      invariant j <= n && EndOf(tmp[..], 0) == old(EndOf(tmp[..], 0)) + j
      invariant StringAt(tmp[..], 0) == old(StringAt(tmp[..], 0)) + Pads(j)
    {
      Append(tmp, "==="[j]);
      j := j + 1;
      assert Pads(j) == Pads(j - 1) + ["==="[j - 1]];
    }
  }

  /** The encoder's loop; i is where it ends, up to two positions past the message. */
  method EncodeGroups(message: string, tmp: array<char>) returns (i: nat)
    requires IsBytes(message) && tmp.Length == 2 * |message| && |Encode(message)| + 1 <= tmp.Length
    requires EndOf(tmp[..], 0) == 0 && StringAt(tmp[..], 0) == ""
    modifies tmp
    ensures |message| <= i <= |message| + 2 && i % 3 == 0
    ensures EndOf(tmp[..], 0) + (i - |message|) < tmp.Length
    ensures StringAt(tmp[..], 0) + Rest(Smeared(message), i) == Encode(Smeared(message))
  {
    hide EndOf, StringAt, Encode, Quad, Unpadded, Rest, Smeared;
    ghost var s := Smeared(message);
    RestIsAll(s);
    ghost var k := 0;
    i := 0;
    while i < |message|
      invariant i == 3 * k && i < |message| + 3
      invariant EndOf(tmp[..], 0) == if i <= |message| then 4 * k else 4 * k - (i - |message|)
      invariant StringAt(tmp[..], 0) + Rest(s, i) == Encode(s)
    {
      EncodeGroup(message, i, tmp);
      i, k := i + 3, k + 1;
    }
  }

  /** `string_to_base64`, when the code fits its buffer. */
  method StringToBase64(message: string) returns (tmp: array<char>)
    requires IsBytes(message) && NUL !in message
    requires |Encode(message)| + 1 <= 2 * |message|
    ensures tmp.Length == 2 * |message| && StringAt(tmp[..], 0) == Encode(Smeared(message))
  {
    hide EndOf, StringAt, Encode, Rest, Smeared, Pads;
    var length := |message|;
    tmp := new char[length * 2];
    tmp[0] := NUL;
    EmptyString(tmp[..]);
    ghost var i := EncodeGroups(message, tmp);
    RestAtEnd(Smeared(message), i);
    PadsNeeded(length, i);
    if length % 3 != 0 {
      AppendPads(tmp, 3 - length % 3);
    } else {
      NoPads();
    }
  }

  lemma NoPads()
    ensures Pads(0) == ""
  {
  }

  lemma PadsNeeded(length: nat, i: nat)
    requires length <= i <= length + 2 && i % 3 == 0
    ensures i - length == if length % 3 != 0 then 3 - length % 3 else 0
  {
  }

  lemma RestIsAll(message: string)
    ensures Rest(message, 0) == Encode(message)
  {
    assert message[0..] == message;
  }

  lemma RestAtEnd(message: string, i: nat)
    requires |message| <= i <= |message| + 2
    ensures Rest(message, i) == Pads(i - |message|)
  {
    EncodeNothing();
  }

  lemma EmptyString(a: string)
    requires |a| > 0 && a[0] == NUL
    ensures EndOf(a, 0) == 0 && StringAt(a, 0) == ""
  {
  }

  lemma EncodeNothing()
    ensures Encode("") == ""
  {
  }

  /** The encoded text and its terminator fit twice the length of the message exactly
      for three characters and for five or more. */
  lemma EncodedFitsExactly(m: string)
    ensures |Encode(m)| + 1 <= 2 * |m| <==> |m| == 3 || |m| >= 5
  {
  }
}
