/** The scanner for the fields of an Authorization header: `lookup_sub_value` of
    digestauth.c.

    The scanner walks over `key=value` fields, quoted or not, and stops at the
    first field whose key it was asked for.  The specification is a scan that does
    not depend on any key: `Scan` lists all fields of a header. */
module AuthHeader {
  import opened CStrings

  // ------------------------------------------------------------------ comparing keys

  /** MHD_str_equal_caseless_n_ (&data[p], key, strlen (key)): reading past the end
      of data meets the terminator, which equals no character of the key. */
  method EqualCaselessN(data: string, p: nat, key: string) returns (equal: bool)
    requires p <= |data| && NUL !in data && NUL !in key
    ensures equal <==> p + |key| <= |data| && EqualCaseless(data[p..p + |key|], key)
  {
    var i := 0;
    while i < |key|
      invariant 0 <= i <= |key| && p + i <= |data|
      invariant forall k :: 0 <= k < i ==> ToLower(data[p + k]) == ToLower(key[k])
    {
      var c1 := if p + i < |data| then data[p + i] else NUL;
      var c2 := key[i];
      if c1 != c2 && ToLower(c1) != ToLower(c2) {
        assert p + |key| <= |data| ==> data[p..p + |key|][i] == c1;
        return false;
      }
      assert p + i < |data|;
      i := i + 1;
    }
    return true;
  }

  // ------------------------------------------------------------------ the fields of a header

  datatype Field = Field(key: string, value: string)

  function SkipSpaces(s: string, p: nat): (q: nat)
    requires p <= |s|
    ensures p <= q <= |s|
    ensures forall k :: p <= k < q ==> s[k] == ' '
    ensures q < |s| ==> s[q] != ' '
    decreases |s| - p
  {
    if p < |s| && s[p] == ' ' then SkipSpaces(s, p + 1) else p
  }

  /** What follows the comma at c, or nothing if there is none. */
  function Following(s: string, c: nat): (rest: string)
    requires c <= |s|
    ensures c + |rest| <= |s| && (c < |s| ==> c + |rest| < |s|)
  {
    if c == |s| then "" else s[SkipSpaces(s, c + 1)..]
  }

  /** The field of s whose key ends at eq and whose value starts at q1, and the
      rest to scan; none if a quoted value does not end. */
  function FieldWith(s: string, eq: nat, q1: nat): (r: Option<(Field, string)>)
    requires eq < q1 <= |s|
    ensures r.Some? ==> |r.value.0.key| + 1 + |r.value.0.value| + |r.value.1| <= |s|
  {
    if q1 < |s| && s[q1] == '"' then
      var q2 := IndexOf(s, '"', q1 + 1);
      if q2 == |s| then None
      else Some((Field(s[..eq], s[q1 + 1..q2]), Following(s, IndexOf(s, ',', q2 + 1))))
    else
      var q2 := IndexOf(s, ',', q1);
      Some((Field(s[..eq], s[q1..q2]), Following(s, q2)))
  }

  /** The first field of s: none without a '='. */
  function FirstField(s: string): (r: Option<(Field, string)>)
    ensures r.Some? ==> |r.value.0.key| + 1 + |r.value.0.value| + |r.value.1| <= |s|
  {
    var eq := IndexOf(s, '=', 0);
    if eq == |s| then None else FieldWith(s, eq, SkipSpaces(s, eq + 1))
  }

  function Scan(s: string): seq<Field>
    decreases |s|
  {
    match FirstField(s)
    case None => []
    case Some((field, rest)) => [field] + Scan(rest)
  }

  /** The first field with the given key. */
  function Find(fields: seq<Field>, key: string): (i: nat)
    ensures i <= |fields|
    ensures forall k :: 0 <= k < i ==> !EqualCaseless(fields[k].key, key)
    ensures i < |fields| ==> EqualCaseless(fields[i].key, key)
  {
    if fields == [] || EqualCaseless(fields[0].key, key) then 0 else 1 + Find(fields[1..], key)
  }

  function Lookup(header: string, key: string): Option<string> {
    var fields := Scan(header);
    var i := Find(fields, key);
    if i == |fields| then None else Some(fields[i].value)
  }

  /** A value cut to fit a buffer of the given size. */
  function Cut(value: string, size: nat): (v: string)
    requires 0 < size
    ensures |v| == (if |value| < size then |value| else size - 1) && v <= value
  {
    if |value| < size then value else value[..size - 1]
  }

  // ------------------------------------------------------------------ the scanner

  lemma LookupStep(s: string, key: string)
    ensures Lookup(s, key) ==
              match FirstField(s)
              case None => None
              case Some((field, rest)) => if EqualCaseless(field.key, key) then Some(field.value) else Lookup(rest, key)
  {
    hide FirstField, EqualCaseless;
    match FirstField(s)
    case None =>
    case Some((field, rest)) =>
      assert Scan(s)[1..] == Scan(rest);
  }

  lemma IndexOfShifts(data: string, ptr: nat, c: char, from: nat)
    requires ptr <= from <= |data|
    ensures IndexOf(data[ptr..], c, from - ptr) == IndexOf(data, c, from) - ptr
  {
    hide IndexOf;
    var q := IndexOf(data, c, from);
    forall k | from - ptr <= k < q - ptr
      ensures data[ptr..][k] != c
    {
      assert data[ptr..][k] == data[ptr + k];
    }
    IndexOfIs(data[ptr..], c, from - ptr, q - ptr);
  }

  lemma {:induction false} SkipSpacesShifts(data: string, ptr: nat, from: nat)
    requires ptr <= from <= |data|
    ensures SkipSpaces(data[ptr..], from - ptr) == SkipSpaces(data, from) - ptr
    decreases |data| - from
  {
    if from < |data| && data[from] == ' ' { SkipSpacesShifts(data, ptr, from + 1); }
  }

  lemma FollowingShifts(data: string, ptr: nat, c: nat)
    requires ptr <= c <= |data|
    ensures Following(data[ptr..], c - ptr) == Following(data, c)
  {
    hide SkipSpaces;
    if c < |data| {
      SkipSpacesShifts(data, ptr, c + 1);
      var q := SkipSpaces(data, c + 1);
      assert SkipSpaces(data[ptr..], c - ptr + 1) == q - ptr;
      assert data[ptr..][q - ptr..] == data[q..];
    }
  }

  lemma FirstFieldAt(data: string, ptr: nat)
    requires ptr <= |data|
    ensures var eq := IndexOf(data, '=', ptr);
            FirstField(data[ptr..]) ==
              if eq == |data| then None
              else FieldWith(data[ptr..], eq - ptr, SkipSpaces(data, eq + 1) - ptr)
  {
    hide IndexOf, SkipSpaces, FieldWith;
    IndexOfShifts(data, ptr, '=', ptr);
    var eq := IndexOf(data, '=', ptr);
    if eq < |data| { SkipSpacesShifts(data, ptr, eq + 1); }
  }

  /** The key and the value of a field, seen from the start of the data. */
  lemma PartsShift(data: string, ptr: nat, eq: nat, a: nat, b: nat)
    requires ptr <= eq <= |data| && ptr <= a <= b <= |data|
    ensures data[ptr..][..eq - ptr] == data[ptr..eq] && data[ptr..][a - ptr..b - ptr] == data[a..b]
  {
  }

  lemma FieldWithoutQuotes(s: string, eq: nat, q1: nat, q2: nat, key: string, value: string, rest: string)
    requires eq < q1 <= q2 <= |s| && (q1 == |s| || s[q1] != '"') && IndexOf(s, ',', q1) == q2
    requires s[..eq] == key && s[q1..q2] == value && Following(s, q2) == rest
    ensures FieldWith(s, eq, q1) == Some((Field(key, value), rest))
  {
    hide IndexOf, Following;
  }

  lemma FieldWithQuotes(s: string, eq: nat, q: nat, q2: nat, c: nat, key: string, value: string, rest: string)
    requires eq < q < q2 < |s| && q2 < c <= |s| && s[q] == '"'
    requires IndexOf(s, '"', q + 1) == q2 && IndexOf(s, ',', q2 + 1) == c
    requires s[..eq] == key && s[q + 1..q2] == value && Following(s, c) == rest
    ensures FieldWith(s, eq, q) == Some((Field(key, value), rest))
  {
    hide IndexOf, Following;
  }

  lemma NoFieldWithOpenQuote(s: string, eq: nat, q: nat)
    requires eq < q < |s| && s[q] == '"' && IndexOf(s, '"', q + 1) == |s|
    ensures FieldWith(s, eq, q) == None
  {
    hide IndexOf;
  }

  lemma UnquotedField(data: string, ptr: nat, eq: nat, q1: nat)
    requires ptr <= eq < q1 <= |data| && (q1 == |data| || data[q1] != '"')
    ensures var q2 := IndexOf(data, ',', q1);
            FieldWith(data[ptr..], eq - ptr, q1 - ptr) == Some((Field(data[ptr..eq], data[q1..q2]), Following(data, q2)))
  {
    hide IndexOf, Following, FieldWith;
    var q2 := IndexOf(data, ',', q1);
    IndexOfShifts(data, ptr, ',', q1);
    FollowingShifts(data, ptr, q2);
    PartsShift(data, ptr, eq, q1, q2);
    FieldWithoutQuotes(data[ptr..], eq - ptr, q1 - ptr, q2 - ptr, data[ptr..eq], data[q1..q2], Following(data, q2));
  }

  lemma QuotedFieldEnding(data: string, ptr: nat, eq: nat, q: nat, q2: nat, c: nat)
    requires ptr <= eq < q < q2 < c <= |data| && data[q] == '"'
    requires IndexOf(data, '"', q + 1) == q2 && IndexOf(data, ',', q2 + 1) == c
    ensures FieldWith(data[ptr..], eq - ptr, q - ptr) == Some((Field(data[ptr..eq], data[q + 1..q2]), Following(data, c)))
  {
    hide IndexOf, Following, FieldWith;
    IndexOfShifts(data, ptr, '"', q + 1);
    IndexOfShifts(data, ptr, ',', q2 + 1);
    FollowingShifts(data, ptr, c);
    PartsShift(data, ptr, eq, q + 1, q2);
    var s, key, value := data[ptr..], data[ptr..eq], data[q + 1..q2];
    FieldWithQuotes(s, eq - ptr, q - ptr, q2 - ptr, c - ptr, key, value, Following(data, c));
  }

  lemma QuotedField(data: string, ptr: nat, eq: nat, q: nat)
    requires ptr <= eq < q < |data| && data[q] == '"'
    ensures var q2 := IndexOf(data, '"', q + 1);
            FieldWith(data[ptr..], eq - ptr, q - ptr) ==
              if q2 == |data| then None
              else Some((Field(data[ptr..eq], data[q + 1..q2]), Following(data, IndexOf(data, ',', q2 + 1))))
  {
    hide IndexOf, Following, FieldWith;
    var q2 := IndexOf(data, '"', q + 1);
    if q2 == |data| {
      IndexOfShifts(data, ptr, '"', q + 1);
      NoFieldWithOpenQuote(data[ptr..], eq - ptr, q - ptr);
    } else {
      QuotedFieldEnding(data, ptr, eq, q, q2, IndexOf(data, ',', q2 + 1));
    }
  }

  /** One turn of the loop up to the comparison of keys: the key ends at eq, the
      value is [q1, q2), and the search for the next comma starts at qn. */
  method NextField(data: string, ptr: nat) returns (found: bool, eq: nat, q1: nat, q2: nat, qn: nat)
    requires ptr <= |data|
    ensures found <==> FirstField(data[ptr..]).Some?
    ensures found ==> ptr <= eq < q1 <= q2 <= qn <= |data|
    ensures found ==>
              FirstField(data[ptr..]) == Some((Field(data[ptr..eq], data[q1..q2]), Following(data, IndexOf(data, ',', qn))))
  {
    hide IndexOf, SkipSpaces, FirstField, FieldWith, Following;
    FirstFieldAt(data, ptr);
    q1, q2, qn := 0, 0, 0;
    eq := IndexOf(data, '=', ptr);
    if eq == |data| { return false, eq, q1, q2, qn; }
    q1 := PastSpaces(data, eq + 1);
    if q1 == |data| || data[q1] != '"' {
      UnquotedField(data, ptr, eq, q1);
      q2 := IndexOf(data, ',', q1);
      qn := q2;
      IndexOfIs(data, ',', qn, q2);
    } else {
      QuotedField(data, ptr, eq, q1);
      q1 := q1 + 1;
      q2 := IndexOf(data, '"', q1);
      if q2 == |data| { return false, eq, q1, q2, qn; }
      qn := q2 + 1;
    }
    found := true;
  }

  /** memcpy of a value, cut to the buffer, and its terminator. */
  method CopyValue(dest: array<char>, size: nat, data: string, q1: nat, q2: nat) returns (len: nat)
    requires 0 < size <= dest.Length && q1 <= q2 <= |data|
    modifies dest
    ensures len == |Cut(data[q1..q2], size)|
    ensures dest[..] == Cut(data[q1..q2], size) + [NUL] + old(dest[len + 1..])
  {
    len := size;
    if len > q2 - q1 + 1 {
      len := q2 - q1 + 1;
    }
    len := len - 1;
    forall k | 0 <= k < len { dest[k] := data[q1 + k]; }
    dest[len] := NUL;
  }

  /** lookup_sub_value: the value of the first field whose key is equal up to case,
      cut to the buffer and terminated; nothing is written if there is none. */
  method LookupSubValue(dest: array<char>, size: nat, data: string, key: string) returns (len: nat)
    requires size <= dest.Length && NUL !in data && NUL !in key
    modifies dest
    ensures size == 0 || Lookup(data, key).None? ==> len == 0 && dest[..] == old(dest[..])
    ensures 0 < size && Lookup(data, key).Some? ==>
              var v := Cut(Lookup(data, key).value, size);
              len == |v| && dest[..] == v + [NUL] + old(dest[len + 1..])
  {
    hide IndexOf, SkipSpaces, FirstField, Lookup, EqualCaseless, Cut;
    if size == 0 { return 0; }
    var ptr := 0;
    assert data[0..] == data;
    while ptr < |data|
      invariant 0 <= ptr <= |data|
      invariant Lookup(data, key) == Lookup(data[ptr..], key)
      invariant dest[..] == old(dest[..])
      decreases |data| - ptr
    {
      LookupStep(data[ptr..], key);
      LookupNothing(key);
      var found, eq, q1, q2, qn := NextField(data, ptr);
      if !found { return 0; }
      var equal := EqualCaselessN(data, ptr, key);
      KeyLength(data, ptr, eq, key);
      if equal && eq == ptr + |key| {
        len := CopyValue(dest, size, data, q1, q2);
        return;
      }
      ptr := IndexOf(data, ',', qn);
      if ptr == |data| { return 0; }
      ptr := PastSpaces(data, ptr + 1);
    }
    LookupNothing(key);
    assert data[ptr..] == "";
    return 0;
  }

  lemma LookupNothing(key: string)
    ensures Lookup("", key) == None
  {
    LookupStep("", key);
  }

  lemma KeyLength(data: string, ptr: nat, eq: nat, key: string)
    requires ptr <= eq <= |data|
    ensures EqualCaseless(data[ptr..eq], key) ==> eq == ptr + |key|
  {
  }

  method PastSpaces(data: string, p: nat) returns (q: nat)
    requires p <= |data|
    ensures q == SkipSpaces(data, p)
  {
    q := p;
    while q < |data| && data[q] == ' '
      invariant p <= q <= |data| && SkipSpaces(data, p) == SkipSpaces(data, q)
    {
      q := q + 1;
    }
  }
}
