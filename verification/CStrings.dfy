/** What the modelled code uses of <string.h> and of mhd_str.c.

    A C string is the sequence of its characters, without the terminator; a `char`
    of the program is a Dafny `char` below 256. */
module CStrings {

  datatype Option<+T> = None | Some(value: T)

  /** Only characters that a `char` of the program can hold. */
  predicate IsBytes(s: string) {
    forall i :: 0 <= i < |s| ==> s[i] as int < 256
  }

  const NUL: char := '\0'

  /** Concatenation is associative. */
  lemma Associates(a: string, b: string, c: string)
    ensures a + (b + c) == (a + b) + c
  {
  }

  /** The first position at or after `from` that holds c, or |s|. */
  function IndexOf(s: string, c: char, from: nat): (p: nat)
    requires from <= |s|
    ensures from <= p <= |s|
    ensures forall k :: from <= k < p ==> s[k] != c
    ensures p < |s| ==> s[p] == c
    decreases |s| - from
  {
    if from == |s| || s[from] == c then from else IndexOf(s, c, from + 1)
  }

  lemma IndexOfIs(s: string, c: char, from: nat, p: nat)
    requires from <= p <= |s|
    requires forall k :: from <= k < p ==> s[k] != c
    requires p < |s| ==> s[p] == c
    ensures IndexOf(s, c, from) == p
  {
  }

  /** Where the C string that starts at p in a buffer ends. */
  function EndOf(buf: string, p: nat): (e: nat)
    requires p <= |buf|
    ensures p <= e <= |buf|
  {
    IndexOf(buf, NUL, p)
  }

  predicate Terminated(buf: string, p: nat) {
    p <= |buf| && EndOf(buf, p) < |buf|
  }

  /** The C string that starts at p in a buffer. */
  function StringAt(buf: string, p: nat): (s: string)
    requires p <= |buf|
    ensures NUL !in s
  {
    buf[p..EndOf(buf, p)]
  }

  /** What a C string function sees of data that may contain a terminator. */
  function UntilNul(s: string): (t: string)
    ensures NUL !in t && t <= s
  {
    s[..IndexOf(s, NUL, 0)]
  }

  lemma UntilNulIs(s: string)
    requires NUL !in s
    ensures UntilNul(s) == s
  {
    IndexOfIs(s, NUL, 0, |s|);
  }

  /** A buffer that starts with a text and its terminator holds that string. */
  lemma BufferHolds(buf: string, text: string)
    requires NUL !in text && text + [NUL] <= buf
    ensures Terminated(buf, 0) && StringAt(buf, 0) == text
  {
    hide IndexOf;
    assert buf[|text|] == (text + [NUL])[|text|];
    assert forall k :: 0 <= k < |text| ==> buf[k] == (text + [NUL])[k] == text[k];
    IndexOfIs(buf, NUL, 0, |text|);
  }

  /** strchr, for a character other than the terminator. */
  function StrChr(buf: string, p: nat, c: char): (q: Option<nat>)
    requires p <= |buf|
    ensures q.Some? ==> p <= q.value < EndOf(buf, p) && buf[q.value] == c
    ensures q.Some? ==> forall k :: p <= k < q.value ==> buf[k] != c
    ensures q.None? ==> forall k :: p <= k < EndOf(buf, p) ==> buf[k] != c
  {
    var e := EndOf(buf, p);
    var q := IndexOf(buf[..e], c, p);
    if q < e then Some(q) else None
  }

  /** strchr in a buffer is a search in the string that starts there. */
  lemma StrChrSearches(buf: string, p: nat, c: char)
    requires p <= |buf|
    ensures var s := StringAt(buf, p);
            var q := IndexOf(s, c, 0);
            StrChr(buf, p, c) == if q == |s| then None else Some(p + q)
  {
    hide IndexOf;
    var s := StringAt(buf, p);
    match StrChr(buf, p, c)
    case None => IndexOfIs(s, c, 0, |s|);
    case Some(q) => IndexOfIs(s, c, 0, q - p);
  }

  // ------------------------------------------------------------------ case

  function ToLower(c: char): char {
    if 'A' <= c <= 'Z' then (c as int - 'A' as int + 'a' as int) as char else c
  }

  const UPPER_CASE: string := "ABCDEFGHIJKLMNOPQRSTUVWXYZ"
  const LOWER_CASE: string := "abcdefghijklmnopqrstuvwxyz"

  /** The 26 capital letters become small ones, and nothing else changes. */
  lemma ToLowerExactly(c: char, i: nat)
    requires i < 26
    ensures ToLower(UPPER_CASE[i]) == LOWER_CASE[i]
    ensures c !in UPPER_CASE ==> ToLower(c) == c
  {
    CapitalAt(i);
    if c !in UPPER_CASE && 'A' <= c <= 'Z' {
      CapitalAt(c as int - 'A' as int);
    }
  }

  lemma CapitalAt(i: nat)
    requires i < 26
    ensures UPPER_CASE[i] as int == 'A' as int + i && LOWER_CASE[i] as int == 'a' as int + i
  {
  }

  predicate EqualCaseless(a: string, b: string) {
    |a| == |b| && forall i :: 0 <= i < |a| ==> ToLower(a[i]) == ToLower(b[i])
  }

  // ------------------------------------------------------------------ hexadecimal digits

  /** toxdigitvalue: -1 for a character that is no hexadecimal digit. */
  function HexValue(c: char): (v: int)
    ensures -1 <= v < 16
  {
    if '0' <= c <= '9' then c as int - '0' as int
    else if 'A' <= c <= 'F' then c as int - 'A' as int + 10
    else if 'a' <= c <= 'f' then c as int - 'a' as int + 10
    else -1
  }

  const UPPER_DIGITS: string := "0123456789ABCDEF"
  const LOWER_DIGITS: string := "0123456789abcdef"

  /** The digit c stands for v, in either case. */
  predicate Denotes(c: char, v: nat)
    requires v < 16
  {
    c == UPPER_DIGITS[v] || c == LOWER_DIGITS[v]
  }

  lemma DigitAt(v: nat)
    requires v < 16
    ensures UPPER_DIGITS[v] as int == (if v < 10 then '0' as int + v else 'A' as int + v - 10)
    ensures LOWER_DIGITS[v] as int == (if v < 10 then '0' as int + v else 'a' as int + v - 10)
  {
  }

  /** The value of every character. */
  lemma HexValueExactly(c: char, v: nat)
    requires v < 16
    ensures HexValue(c) == v <==> Denotes(c, v)
    ensures HexValue(c) == -1 <==> c !in UPPER_DIGITS && c !in LOWER_DIGITS
  {
    hide Denotes;
    DigitAt(v);
    DenotesAt(c, v);
    if HexValue(c) >= 0 {
      DigitAt(HexValue(c));
      DenotesAt(c, HexValue(c));
      assert Denotes(c, HexValue(c)) ==> c in UPPER_DIGITS || c in LOWER_DIGITS by { DenotedIsThere(c, HexValue(c)); }
    } else {
      forall i: nat | i < 16
        ensures UPPER_DIGITS[i] != c && LOWER_DIGITS[i] != c
      {
        DigitAt(i);
      }
    }
  }

  lemma DenotesAt(c: char, v: nat)
    requires v < 16
    ensures Denotes(c, v) <==> c == UPPER_DIGITS[v] || c == LOWER_DIGITS[v]
  {
  }

  lemma DenotedIsThere(c: char, v: nat)
    requires v < 16 && Denotes(c, v)
    ensures c in UPPER_DIGITS || c in LOWER_DIGITS
  {
  }

  function HexDigit(n: nat): (c: char)
    requires n < 16
    ensures HexValue(c) == n && c as int < 128
  {
    if n <= 9 then (n + '0' as int) as char else (n - 10 + 'a' as int) as char
  }

  lemma HexDigitIsLower(n: nat)
    requires n < 16
    ensures HexDigit(n) == LOWER_DIGITS[n]
  {
    DigitAt(n);
  }

  /** The number written by a sequence of hexadecimal digits. */
  function HexNumber(s: string): nat
    requires forall c :: c in s ==> HexValue(c) >= 0
  {
    if s == "" then 0 else 16 * HexNumber(s[..|s| - 1]) + HexValue(s[|s| - 1])
  }

  /** How many of the first n characters are leading hexadecimal digits. */
  function HexPrefix(s: string, n: nat): (k: nat)
    ensures k <= n && k <= |s|
    ensures forall i :: 0 <= i < k ==> HexValue(s[i]) >= 0
    ensures k < n && k < |s| ==> HexValue(s[k]) < 0
  {
    if n == 0 || s == "" || HexValue(s[0]) < 0 then 0 else 1 + HexPrefix(s[1..], n - 1)
  }

  const UINT32_MAX: nat := 0xFFFF_FFFF
  const UINT64_MAX: nat := 0xFFFF_FFFF_FFFF_FFFF
  const UINT32_LIMIT: nat := 0x1_0000_0000
  const UINT64_LIMIT: nat := 0x1_0000_0000_0000_0000

  /** How many characters are converted and their value: the leading hexadecimal
      digits, or nothing at all when their value exceeds max. */
  function HexToUint(s: string, maxlen: nat, max: nat): (r: (nat, nat))
    ensures r.0 <= maxlen && r.0 <= |s| && r.1 <= max
  {
    var k := HexPrefix(s, maxlen);
    var v := HexNumber(s[..k]);
    if v <= max then (k, v) else (0, 0)
  }

  lemma {:induction false} HexNumberGrows(s: string, k: nat)
    requires k <= |s| && forall c :: c in s ==> HexValue(c) >= 0
    ensures HexNumber(s[..k]) <= HexNumber(s)
  {
    if k < |s| {
      HexNumberGrows(s[..|s| - 1], k);
      assert s[..|s| - 1][..k] == s[..k];
    } else {
      assert s[..k] == s;
    }
  }

  function Pow16(n: nat): (p: nat)
    ensures p > 0
  {
    if n == 0 then 1 else 16 * Pow16(n - 1)
  }

  lemma {:induction false} DigitsAreBelow(s: string, n: nat)
    requires |s| <= n && forall c :: c in s ==> HexValue(c) >= 0
    ensures HexNumber(s) < Pow16(n)
    decreases n
  {
    if |s| < n {
      DigitsAreBelow(s, n - 1);
    } else if s != "" {
      DigitsAreBelow(s[..|s| - 1], n - 1);
    }
  }

  lemma HexPrefixIs(s: string, n: nat, k: nat)
    requires k <= n && k <= |s|
    requires forall i :: 0 <= i < k ==> HexValue(s[i]) >= 0
    requires k == n || k == |s| || HexValue(s[k]) < 0
    ensures HexPrefix(s, n) == k
  {
  }

  /** Digits, and behind them the end, a limit or another character: the whole number is
      read if it is not too large, and otherwise nothing. */
  lemma DigitsAreRead(s: string, rest: string, maxlen: nat, max: nat)
    requires |s| <= maxlen && forall c :: c in s ==> HexValue(c) >= 0
    requires |s| == maxlen || rest == "" || HexValue(rest[0]) < 0
    ensures HexToUint(s + rest, maxlen, max) == if HexNumber(s) <= max then (|s|, HexNumber(s)) else (0, 0)
  {
    HexPrefixIs(s + rest, maxlen, |s|);
    assert (s + rest)[..|s|] == s;
  }

  /** The limits are those of words of 32 and of 64 bits. */
  lemma LimitsOfWords()
    ensures var zero: bv32 := 0; (!zero) as int == UINT32_MAX == UINT32_LIMIT - 1
    ensures var zero: bv64 := 0; (!zero) as int == UINT64_MAX == UINT64_LIMIT - 1
  {
  }

  /** MHD_strx_to_uint32_n_ and MHD_strx_to_uint64_n_, for max = 2^32-1 and 2^64-1:
      the overflow test before every digit refuses exactly the values above max. */
  method StrxToUintN(s: string, maxlen: nat, max: nat) returns (n: nat, value: nat)
    ensures (n, value) == HexToUint(s, maxlen, max)
  {
    n, value := 0, 0;
    while n < maxlen && n < |s| && HexValue(s[n]) >= 0
      invariant 0 <= n <= maxlen && n <= |s|
      invariant forall i :: 0 <= i < n ==> HexValue(s[i]) >= 0
      invariant value == HexNumber(s[..n]) <= max
    {
      var digit := HexValue(s[n]);
      assert s[..n + 1][..n] == s[..n];
      assert HexNumber(s[..n + 1]) == 16 * value + digit;
      if value > max / 16 || (value == max / 16 && digit > max % 16) {
        var k := HexPrefix(s, maxlen);
        assert n + 1 <= k;
        assert s[..k][..n + 1] == s[..n + 1];
        HexNumberGrows(s[..k], n + 1);
        return 0, 0;
      }
      value := value * 16 + digit;
      n := n + 1;
    }
    HexPrefixIs(s, maxlen, n);
  }
}
