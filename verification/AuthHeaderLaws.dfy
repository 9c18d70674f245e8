/** Two laws about the fields of an Authorization header: lookups of different
    keys share no character of the header, and scanning undoes printing. */
module AuthHeaderLaws {
  import opened CStrings
  import opened AuthHeader

  // ------------------------------------------------------------------ disjoint fields

  /** The characters of a header that a field takes: key, '=' and value. */
  function Weight(f: Field): nat {
    |f.key| + 1 + |f.value|
  }

  /** The weight of the fields at the positions in `keep`. */
  function Kept(fields: seq<Field>, keep: set<nat>): nat {
    if fields == [] then 0
    else Kept(fields[..|fields| - 1], keep) + if |fields| - 1 in keep then Weight(fields[|fields| - 1]) else 0
  }

  function Total(fields: seq<Field>): nat {
    if fields == [] then 0 else Weight(fields[0]) + Total(fields[1..])
  }

  lemma {:induction false} TotalAppends(fields: seq<Field>)
    requires fields != []
    ensures Total(fields) == Total(fields[..|fields| - 1]) + Weight(fields[|fields| - 1])
  {
    if |fields| > 1 {
      TotalAppends(fields[1..]);
      assert fields[1..][..|fields| - 2] == fields[..|fields| - 1][1..];
    } else {
      assert fields[1..] == [] == fields[..|fields| - 1];
    }
  }

  lemma {:induction false} KeptIsAtMostTotal(fields: seq<Field>, keep: set<nat>)
    ensures Kept(fields, keep) <= Total(fields)
  {
    if fields == [] {
    } else {
      KeptIsAtMostTotal(fields[..|fields| - 1], keep);
      TotalAppends(fields);
    }
  }

  lemma {:induction false} KeepOneMore(fields: seq<Field>, keep: set<nat>, i: nat)
    requires i !in keep
    ensures Kept(fields, keep + {i}) == Kept(fields, keep) + if i < |fields| then Weight(fields[i]) else 0
  {
    if fields == [] {
    } else {
      var n := |fields| - 1;
      KeepOneMore(fields[..n], keep, i);
    }
  }

  lemma {:induction false} FieldsFit(header: string)
    ensures Total(Scan(header)) <= |header|
    decreases |header|
  {
    match FirstField(header)
    case None =>
    case Some((field, rest)) =>
      FieldsFit(rest);
      assert Scan(header)[1..] == Scan(rest);
  }

  /** Keys that no two of which are equal up to case. */
  ghost predicate Distinct(keys: seq<string>) {
    forall i, j :: 0 <= i < j < |keys| ==> !EqualCaseless(keys[i], keys[j])
  }

  ghost predicate AllFound(header: string, keys: seq<string>) {
    forall i :: 0 <= i < |keys| ==> Lookup(header, keys[i]).Some?
  }

  /** What the keys and values of the fields found for some keys take. */
  function Used(header: string, keys: seq<string>): nat {
    if keys == [] then 0
    else Used(header, keys[..|keys| - 1]) + UsedFor(header, keys[|keys| - 1])
  }

  function UsedFor(header: string, key: string): nat {
    |key| + 1 + match Lookup(header, key) case None => 0 case Some(v) => |v|
  }

  function Positions(fields: seq<Field>, keys: seq<string>): set<nat> {
    if keys == [] then {} else Positions(fields, keys[..|keys| - 1]) + {Find(fields, keys[|keys| - 1])}
  }

  lemma {:induction false} PositionOf(fields: seq<Field>, keys: seq<string>, i: nat)
    requires i in Positions(fields, keys)
    ensures exists k :: 0 <= k < |keys| && Find(fields, keys[k]) == i
  {
    hide Find;
    if keys != [] && i in Positions(fields, keys[..|keys| - 1]) {
      PositionOf(fields, keys[..|keys| - 1], i);
      var k :| 0 <= k < |keys| - 1 && Find(fields, keys[..|keys| - 1][k]) == i;
      assert Find(fields, keys[k]) == i;
    } else {
      assert Find(fields, keys[|keys| - 1]) == i;
    }
  }

  /** Two keys that select the same field are equal up to case. */
  lemma SameFieldSameKey(header: string, k1: string, k2: string)
    requires Lookup(header, k1).Some? && Find(Scan(header), k1) == Find(Scan(header), k2)
    ensures EqualCaseless(k1, k2)
  {
    hide Scan;
  }

  lemma UsedForIsWeight(header: string, key: string)
    requires Lookup(header, key).Some?
    ensures var i := Find(Scan(header), key);
            i < |Scan(header)| && UsedFor(header, key) == Weight(Scan(header)[i])
  {
    hide Scan;
  }

  lemma {:induction false} UsedIsKept(header: string, keys: seq<string>)
    requires Distinct(keys) && AllFound(header, keys)
    ensures Used(header, keys) == Kept(Scan(header), Positions(Scan(header), keys))
  {
    hide Scan, Find, Lookup, EqualCaseless, UsedFor, Weight, Kept;
    var fields := Scan(header);
    if keys == [] {
      KeepNothing(fields);
    } else {
      var n := |keys| - 1;
      var before, i := keys[..n], Find(fields, keys[n]);
      UsedIsKept(header, before);
      if i in Positions(fields, before) {
        PositionOf(fields, before, i);
        var k :| 0 <= k < n && Find(fields, before[k]) == i;
        SameFieldSameKey(header, keys[k], keys[n]);
        assert false;
      }
      KeepOneMore(fields, Positions(fields, before), i);
      UsedForIsWeight(header, keys[n]);
    }
  }

  lemma {:induction false} KeepNothing(fields: seq<Field>)
    ensures Kept(fields, {}) == 0
  {
    if fields == [] {
    } else {
      KeepNothing(fields[..|fields| - 1]);
    }
  }

  /** Different keys are found in different fields, so the keys and values of all
      fields that are found fit into the header together. */
  lemma LookupsAreDisjoint(header: string, keys: seq<string>)
    requires Distinct(keys) && AllFound(header, keys)
    ensures Used(header, keys) <= |header|
  {
    UsedIsKept(header, keys);
    KeptIsAtMostTotal(Scan(header), Positions(Scan(header), keys));
    FieldsFit(header);
  }

  lemma UsedByFour(header: string, a: string, b: string, c: string, d: string)
    ensures Used(header, [a, b, c]) == UsedFor(header, a) + UsedFor(header, b) + UsedFor(header, c)
    ensures Used(header, [a, b, c, d]) == Used(header, [a, b, c]) + UsedFor(header, d)
  {
    hide UsedFor;
    assert [a, b, c, d][..3] == [a, b, c] && [a, b, c][..2] == [a, b] && [a, b][..1] == [a] && [a][..0] == [];
    assert Used(header, [a]) == UsedFor(header, a);
    assert Used(header, [a, b]) == UsedFor(header, a) + UsedFor(header, b);
  }

  lemma KeysDiffer()
    ensures Distinct(["username", "realm", "nonce", "uri"]) && Distinct(["username", "realm", "nonce"])
  {
    assert ToLower("realm"[0]) != ToLower("nonce"[0]);
    assert !EqualCaseless("realm", "nonce");
  }

  /** What MHD_digest_auth_check keeps in `left` after it has looked up the user
      name, the realm and the nonce. */
  function Left(header: string, un: string, r: string, nonce: string): int {
    |header| - (|"username"| + |un|) - (|"realm"| + |r|) - (|"nonce"| + |nonce|)
  }

  /** A buffer received the value that was found, or the part of it that fits. */
  ghost predicate IsCutOf(buffer: string, found: Option<string>) {
    found.Some? && buffer <= found.value
  }

  /** `left` never underflows, and a buffer of left + 1 bytes holds the whole uri,
      wherever the fields are and however the buffers cut the first three values. */
  lemma LeftHoldsTheUri(header: string, un: string, r: string, nonce: string)
    requires IsCutOf(un, Lookup(header, "username"))
    requires IsCutOf(r, Lookup(header, "realm"))
    requires IsCutOf(nonce, Lookup(header, "nonce"))
    ensures 0 <= Left(header, un, r, nonce)
    ensures var uri := Lookup(header, "uri");
            uri.Some? ==> Cut(uri.value, Left(header, un, r, nonce) + 1) == uri.value
  {
    hide Lookup, Used, EqualCaseless;
    KeysDiffer();
    UsedByFour(header, "username", "realm", "nonce", "uri");
    LookupsAreDisjoint(header, ["username", "realm", "nonce"]);
    if Lookup(header, "uri").Some? {
      LookupsAreDisjoint(header, ["username", "realm", "nonce", "uri"]);
    }
  }

  // ------------------------------------------------------------------ scanning undoes printing

  /** A field as a client may write it: spaces before the key and after the '=',
      the value plain or in quotes, and any text without a comma after the quote. */
  datatype Item = Item(lead: nat, key: string, gap: nat, quoted: bool, value: string, trail: string)

  function Spaces(n: nat): (s: string)
    ensures |s| == n && forall i :: 0 <= i < n ==> s[i] == ' '
  {
    seq(n, _ => ' ')
  }

  /** Keys have no '='; quoted values no quote, so commas and '=' are fine; plain
      values no comma, and they start with neither a space nor a quote. */
  predicate Writable(it: Item) {
    && '=' !in it.key && (it.key != "" ==> it.key[0] != ' ')
    && if it.quoted then '"' !in it.value && ',' !in it.trail
       else ',' !in it.value && (it.value != "" ==> it.value[0] != ' ' && it.value[0] != '"') && it.trail == ""
  }

  function PrintValue(it: Item): string {
    if it.quoted then "\"" + it.value + "\"" + it.trail else it.value
  }

  /** A list of fields without the spaces before the first key. */
  function PrintFrom(items: seq<Item>): string
    requires items != []
    decreases |items|, 0
  {
    items[0].key + "=" + Spaces(items[0].gap) + PrintValue(items[0]) + PrintMore(items[1..])
  }

  function PrintMore(items: seq<Item>): string
    decreases |items|, 1
  {
    if items == [] then "" else "," + Spaces(items[0].lead) + PrintFrom(items)
  }

  function Fields(items: seq<Item>): (fields: seq<Field>)
    ensures |fields| == |items|
  {
    seq(|items|, i requires 0 <= i < |items| => Field(items[i].key, items[i].value))
  }

  lemma SkipSpacesIs(s: string, p: nat, n: nat)
    requires p + n <= |s|
    requires forall k :: p <= k < p + n ==> s[k] == ' '
    requires p + n < |s| ==> s[p + n] != ' '
    ensures SkipSpaces(s, p) == p + n
  {
  }

  lemma StartsWithNoSpace(items: seq<Item>)
    requires items != [] && Writable(items[0])
    ensures PrintFrom(items) != "" && PrintFrom(items)[0] != ' '
  {
  }

  lemma Behind(s: string, c: nat, a: string, b: string)
    requires c <= |s| && s[c..] == a + b
    ensures c + |a| <= |s| && s[c + |a|..] == b
    ensures forall k :: 0 <= k < |a| ==> s[c + k] == a[k]
  {
    assert s[c..][|a|..] == b;
    forall k | 0 <= k < |a| ensures s[c + k] == a[k] { assert s[c..][k] == a[k]; }
  }

  lemma FollowingIsRest(s: string, c: nat, items: seq<Item>)
    requires c <= |s| && s[c..] == PrintMore(items)
    requires AllWritable(items)
    ensures Following(s, c) == PrintRest(items)
  {
    hide PrintFrom, SkipSpaces, Writable;
    if items != [] {
      var n := items[0].lead;
      StartsWithNoSpace(items);
      Behind(s, c, "," + Spaces(n), PrintFrom(items));
      forall k | c + 1 <= k < c + 1 + n ensures s[k] == ' ' { assert s[c + (k - c)] == ("," + Spaces(n))[k - c]; }
      assert s[c + 1 + n] == s[c + 1 + n..][0];
      SkipSpacesIs(s, c + 1, n);
    }
  }

  lemma MoreStartsWithComma(rest: seq<Item>)
    ensures PrintMore(rest) == "" || PrintMore(rest)[0] == ','
  {
  }

  /** A search from p for the character that ends the text a. */
  lemma IndexPast(s: string, p: nat, a: string, b: string, c: char)
    requires p <= |s| && s[p..] == a + b
    requires c !in a && (b == "" || b[0] == c)
    ensures p + |a| <= |s| && s[p..p + |a|] == a && s[p + |a|..] == b
    ensures IndexOf(s, c, p) == p + |a|
  {
    hide IndexOf;
    Behind(s, p, a, b);
    assert s[p..p + |a|] == s[p..][..|a|] == a;
    forall k | p <= k < p + |a| ensures s[k] != c { assert s[p + (k - p)] == a[k - p]; }
    if b != "" { assert s[p + |a|] == s[p + |a|..][0]; }
    IndexOfIs(s, c, p, p + |a|);
  }

  lemma ScansPlain(s: string, eq: nat, q1: nat, field: Field, rest: string)
    requires eq < q1 <= |s| && (q1 == |s| || s[q1] != '"')
    requires s[..eq] == field.key && s[q1..IndexOf(s, ',', q1)] == field.value
    requires Following(s, IndexOf(s, ',', q1)) == rest
    ensures FieldWith(s, eq, q1) == Some((field, rest))
  {
    hide IndexOf, Following;
  }

  lemma ScansQuoted(s: string, eq: nat, q1: nat, q2: nat, c: nat, field: Field, rest: string)
    requires eq < q1 < q2 < c + 1 <= |s| + 1 && q2 < |s| && s[q1] == '"'
    requires q2 == IndexOf(s, '"', q1 + 1) && c == IndexOf(s, ',', q2 + 1)
    requires s[..eq] == field.key && s[q1 + 1..q2] == field.value && Following(s, c) == rest
    ensures FieldWith(s, eq, q1) == Some((field, rest))
  {
    hide IndexOf, Following;
  }

  lemma FirstFieldIs(s: string, eq: nat, q1: nat)
    requires eq < |s| && eq == IndexOf(s, '=', 0) && q1 == SkipSpaces(s, eq + 1)
    ensures FirstField(s) == FieldWith(s, eq, q1)
  {
    hide FieldWith, IndexOf, SkipSpaces;
  }

  function PrintRest(rest: seq<Item>): string {
    if rest == [] then "" else PrintFrom(rest)
  }

  ghost predicate AllWritable(items: seq<Item>) {
    forall i :: 0 <= i < |items| ==> Writable(items[i])
  }

  /** Scanning a plain value, which starts at q1. */
  lemma PrintedPlain(s: string, eq: nat, q1: nat, it: Item, rest: seq<Item>)
    requires eq < q1 <= |s| && s[..eq] == it.key && s[q1..] == it.value + PrintMore(rest)
    requires Writable(it) && !it.quoted && AllWritable(rest)
    ensures FieldWith(s, eq, q1) == Some((Field(it.key, it.value), PrintRest(rest)))
  {
    hide PrintRest, PrintMore, IndexOf, Following, FieldWith, AllWritable;
    PlainStart(s, q1, it, rest);
    MoreStartsWithComma(rest);
    IndexPast(s, q1, it.value, PrintMore(rest), ',');
    FollowingIsRest(s, q1 + |it.value|, rest);
    ScansPlain(s, eq, q1, Field(it.key, it.value), PrintRest(rest));
  }

  lemma PlainStart(s: string, q1: nat, it: Item, rest: seq<Item>)
    requires q1 <= |s| && s[q1..] == it.value + PrintMore(rest)
    requires Writable(it) && !it.quoted
    ensures q1 < |s| ==> s[q1] != ' ' && s[q1] != '"'
  {
    hide PrintMore;
    MoreStartsWithComma(rest);
    if q1 < |s| { assert s[q1] == s[q1..][0]; }
  }

  /** Scanning a quoted value, whose first quote is at q1. */
  lemma PrintedQuoted(s: string, eq: nat, q1: nat, it: Item, rest: seq<Item>)
    requires eq < q1 <= |s| && s[..eq] == it.key
    requires s[q1..] == "\"" + (it.value + ("\"" + (it.trail + PrintMore(rest))))
    requires Writable(it) && it.quoted && AllWritable(rest)
    ensures q1 < |s| && s[q1] == '"'
    ensures FieldWith(s, eq, q1) == Some((Field(it.key, it.value), PrintRest(rest)))
  {
    hide PrintRest, PrintMore, IndexOf, Following, FieldWith, AllWritable;
    var end := "\"" + (it.trail + PrintMore(rest));
    Behind(s, q1, "\"", it.value + end);
    assert s[q1 + 0] == '"';
    IndexPast(s, q1 + 1, it.value, end, '"');
    var q2 := q1 + 1 + |it.value|;
    var c := q2 + 1 + |it.trail|;
    ClosingQuote(s, q2, c, it, rest);
    ScansQuoted(s, eq, q1, q2, c, Field(it.key, it.value), PrintRest(rest));
  }

  /** From the closing quote, at q2, to the comma or the end, at c. */
  lemma ClosingQuote(s: string, q2: nat, c: nat, it: Item, rest: seq<Item>)
    requires q2 <= |s| && s[q2..] == "\"" + (it.trail + PrintMore(rest))
    requires ',' !in it.trail && AllWritable(rest) && c == q2 + 1 + |it.trail|
    ensures c <= |s| && IndexOf(s, ',', q2 + 1) == c && Following(s, c) == PrintRest(rest)
  {
    hide PrintRest, PrintMore, IndexOf, Following, AllWritable;
    MoreStartsWithComma(rest);
    Behind(s, q2, "\"", it.trail + PrintMore(rest));
    IndexPast(s, q2 + 1, it.trail, PrintMore(rest), ',');
    FollowingIsRest(s, c, rest);
  }

  lemma ValueReassociates(it: Item, more: string)
    ensures it.quoted ==> PrintValue(it) + more == "\"" + (it.value + ("\"" + (it.trail + more)))
    ensures !it.quoted ==> PrintValue(it) + more == it.value + more
  {
  }

  lemma PrintedKey(s: string, it: Item, tail: string)
    requires Writable(it) && s == it.key + ("=" + (Spaces(it.gap) + tail))
    ensures var eq := |it.key|;
            && IndexOf(s, '=', 0) == eq < eq + 1 + it.gap <= |s| && s[..eq] == it.key
            && s[eq + 1 + it.gap..] == tail
            && forall k :: 0 <= k < it.gap ==> s[eq + 1 + k] == Spaces(it.gap)[k]
  {
    hide IndexOf;
    var eq := |it.key|;
    assert s[0..] == s;
    IndexPast(s, 0, it.key, "=" + (Spaces(it.gap) + tail), '=');
    Behind(s, eq, "=", Spaces(it.gap) + tail);
    Behind(s, eq + 1, Spaces(it.gap), tail);
  }

  lemma FirstFieldOfPrint(items: seq<Item>)
    requires items != [] && AllWritable(items)
    ensures FirstField(PrintFrom(items)) == Some((Field(items[0].key, items[0].value), PrintRest(items[1..])))
  {
    hide PrintFrom, PrintRest, PrintMore, PrintValue, SkipSpaces, IndexOf, FieldWith, FirstField;
    var it, rest := items[0], items[1..];
    var s := PrintFrom(items);
    var eq := |it.key|;
    var q1 := eq + 1 + it.gap;
    PrintFromIs(items);
    ValueReassociates(it, PrintMore(rest));
    PrintedKey(s, it, PrintValue(it) + PrintMore(rest));
    if it.quoted {
      PrintedQuoted(s, eq, q1, it, rest);
    } else {
      PrintedPlain(s, eq, q1, it, rest);
      PlainStart(s, q1, it, rest);
    }
    PrintedSpaces(s, eq + 1, it.gap);
    FirstFieldIs(s, eq, q1);
  }

  lemma PrintedSpaces(s: string, p: nat, n: nat)
    requires p + n <= |s| && forall k :: 0 <= k < n ==> s[p + k] == Spaces(n)[k]
    requires p + n == |s| || s[p + n] != ' '
    ensures SkipSpaces(s, p) == p + n
  {
    forall k | p <= k < p + n ensures s[k] == ' ' { assert s[p + (k - p)] == Spaces(n)[k - p]; }
    SkipSpacesIs(s, p, n);
  }

  lemma PrintFromIs(items: seq<Item>)
    requires items != []
    ensures PrintFrom(items) ==
              items[0].key + ("=" + (Spaces(items[0].gap) + (PrintValue(items[0]) + PrintMore(items[1..]))))
  {
    hide PrintMore, PrintValue;
  }

  /** Whatever the spacing and the quoting, the scanner reads back the fields that
      were written. */
  lemma {:induction false} ScanInvertsPrint(items: seq<Item>)
    requires items != [] && AllWritable(items)
    ensures Scan(PrintFrom(items)) == Fields(items)
  {
    hide FirstField, PrintFrom, Writable;
    FirstFieldOfPrint(items);
    var rest := items[1..];
    if rest == [] {
      NoFieldInNothing();
      assert Fields(items) == [Field(items[0].key, items[0].value)];
    } else {
      ScanInvertsPrint(rest);
      assert Fields(items) == [Field(items[0].key, items[0].value)] + Fields(rest);
    }
  }

  lemma NoFieldInNothing()
    ensures FirstField("") == None
  {
  }

  /** The value of the first written field whose key is equal up to case. */
  function ValueWritten(items: seq<Item>, key: string): Option<string> {
    if items == [] then None
    else if EqualCaseless(items[0].key, key) then Some(items[0].value)
    else ValueWritten(items[1..], key)
  }

  lemma {:induction false} FindInWritten(items: seq<Item>, key: string)
    ensures var i := Find(Fields(items), key);
            ValueWritten(items, key) == if i == |items| then None else Some(items[i].value)
  {
    hide EqualCaseless;
    if items == [] {
    } else {
      assert Fields(items)[1..] == Fields(items[1..]);
      FindInWritten(items[1..], key);
    }
  }

  /** Hence a lookup in a header returns what was written for its key. */
  lemma LookupInvertsPrint(items: seq<Item>, key: string)
    requires items != [] && AllWritable(items)
    ensures Lookup(PrintFrom(items), key) == ValueWritten(items, key)
  {
    hide PrintFrom, Scan, Find, ValueWritten;
    ScanInvertsPrint(items);
    FindInWritten(items, key);
  }
}
