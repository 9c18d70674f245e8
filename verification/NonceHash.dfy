/** Which slot of the table a nonce reaches: what the xor-based hash of
    `check_nonce_nc` makes of a text and what it can tell apart, and that nonces of
    different slots do not disturb each other. */
module NonceHash {
  import opened CStrings
  import Md5Block
  import opened NonceWindow

  // ------------------------------------------------------------------ words and their numbers

  lemma ValueKeepsOrder(u: bv8, v: bv8)
    ensures u < v <==> Value(u) < Value(v)
  {
  }

  lemma ValueTells(u: bv8, v: bv8)
    ensures (u < v <==> Value(u) < Value(v)) && (u == v <==> Value(u) == Value(v))
  {
    hide Value;
    ValueKeepsOrder(u, v);
    ValueKeepsOrder(v, u);
  }

  lemma OctetExactly(c: char)
    ensures Value(Octet(c)) == c as int % 256
  {
    Md5Block.ByteThereAndBack(c as int % 256);
  }

  lemma HalfOfBytes(b: bv8)
    ensures b < 0x80 <==> Value(b) < 128
    ensures Value(0) == 0 && Value(0xff) == 255
  {
  }

  lemma BytesOfWidened(b: bv8)
    ensures Byte0(Widen(b)) == b
    ensures Byte1(Widen(b)) == Byte2(Widen(b)) == Byte3(Widen(b)) == if b < 0x80 then 0 else 0xff
  {
  }

  /** A `char` from 128 on is negative: its 32 bits are those of the character less 256. */
  lemma WidenExactly(c: char)
    requires c as int < 256
    ensures Number(Widen(Octet(c))) == if c as int < 128 then c as int else UINT32_LIMIT + c as int - 256
  {
    hide Value, Octet, Widen, Byte0, Byte1, Byte2, Byte3;
    OctetExactly(c);
    HalfOfBytes(Octet(c));
    BytesOfWidened(Octet(c));
  }

  // ------------------------------------------------------------------ the hash

  predicate IsAscii(s: string) {
    forall i :: 0 <= i < |s| ==> s[i] as int < 128
  }

  /** Every fourth character, counted back from the n-th, combined by `^`. */
  function Column(s: string, n: int): bv8
    requires n <= |s|
    decreases n
  {
    if n <= 0 then 0 else Octet(s[n - 1]) ^ Column(s, n - 4)
  }

  lemma {:induction false} ColumnOfPrefix(s: string, m: nat, n: int)
    requires n <= m <= |s|
    ensures Column(s[..m], n) == Column(s, n)
    decreases n
  {
    if n <= 0 {
    } else {
      ColumnOfPrefix(s, m, n - 4);
    }
  }

  /** A word from four bytes, the high one first. */
  function Word(w: bv8, x: bv8, y: bv8, z: bv8): bv32 {
    ((w as bv32) << 24) | ((x as bv32) << 16) | ((y as bv32) << 8) | (z as bv32)
  }

  lemma BytesOfWord(w: bv8, x: bv8, y: bv8, z: bv8)
    ensures var h := Word(w, x, y, z); Byte3(h) == w && Byte2(h) == x && Byte1(h) == y && Byte0(h) == z
  {
  }

  lemma StepShiftsBytes(w: bv8, x: bv8, y: bv8, z: bv8, b: bv8)
    requires b < 0x80
    ensures HashStep(Word(w, x, y, z), Widen(b)) == Word(x, y, z, b ^ w)
  {
  }

  lemma ColumnStep(s: string, n: int)
    requires 0 < n <= |s|
    ensures Column(s, n) == Octet(s[n - 1]) ^ Column(s, n - 4)
  {
  }

  /** One word of four columns. */
  function Columns(s: string, n: int): bv32
    requires n <= |s|
  {
    Word(Column(s, n - 3), Column(s, n - 2), Column(s, n - 1), Column(s, n))
  }

  lemma ColumnsOfPrefix(s: string, n: nat)
    requires n <= |s|
    ensures Columns(s[..n], n) == Columns(s, n)
  {
    hide Column, Word;
    ColumnOfPrefix(s, n, n - 3);
    ColumnOfPrefix(s, n, n - 2);
    ColumnOfPrefix(s, n, n - 1);
    ColumnOfPrefix(s, n, n);
  }

  lemma ColumnsStep(s: string, n: nat)
    requires n < |s| && s[n] as int < 128
    ensures HashStep(Columns(s, n), Widen(Octet(s[n]))) == Columns(s, n + 1)
  {
    hide Value, Octet, HashStep, Widen, Word, Column;
    OctetExactly(s[n]);
    HalfOfBytes(Octet(s[n]));
    ColumnStep(s, n + 1);
    StepShiftsBytes(Column(s, n - 3), Column(s, n - 2), Column(s, n - 1), Column(s, n), Octet(s[n]));
  }

  lemma NothingToHash()
    ensures Hash("") == Columns("", 0) == 0
  {
  }

  lemma {:induction false} HashIsWord(s: string)
    requires IsAscii(s)
    ensures Hash(s) == Columns(s, |s|)
  {
    hide Value, Octet, HashStep, Widen, Columns;
    var n := |s|;
    if s == "" {
      NothingToHash();
    } else {
      HashIsWord(s[..n - 1]);
      ColumnsOfPrefix(s, n - 1);
      ColumnsStep(s, n - 1);
    }
  }

  /** The hash of an ASCII text: each of its four bytes combines every fourth character,
      the lowest from the last one on. */
  lemma HashIsColumns(s: string)
    requires IsAscii(s)
    ensures var n := |s|;
            Number(Hash(s)) == 0x100_0000 * Value(Column(s, n - 3)) + 0x1_0000 * Value(Column(s, n - 2))
                             + 0x100 * Value(Column(s, n - 1)) + Value(Column(s, n))
  {
    hide Value, Column, Hash, Word, Byte0, Byte1, Byte2, Byte3;
    var n := |s|;
    HashIsWord(s);
    BytesOfWord(Column(s, n - 3), Column(s, n - 2), Column(s, n - 1), Column(s, n));
  }

  lemma HashOfOneMore(p: string, c: char)
    ensures Hash(p + [c]) == HashStep(Hash(p), Widen(Octet(c)))
  {
    hide HashStep, Widen, Octet;
    assert (p + [c])[..|p|] == p;
  }

  lemma CoversBits(h: bv32, b: bv8)
    requires 0x80 <= b
    ensures HashStep(h, Widen(b)) == 0xFFFF_FF00 | ((b as bv32) ^ (h >> 24))
  {
  }

  /** A character from 128 on covers all but the highest byte of what came before it. */
  lemma HighCharacterCovers(p: string, c: char)
    requires 128 <= c as int < 256
    ensures Hash(p + [c]) == 0xFFFF_FF00 | ((Octet(c) as bv32) ^ (Hash(p) >> 24))
  {
    hide Value, Octet, Hash, HashStep, Widen;
    OctetExactly(c);
    HalfOfBytes(Octet(c));
    HashOfOneMore(p, c);
    CoversBits(Hash(p), Octet(c));
  }

  function Xor(x: bv8, y: bv8): bv8 { x ^ y }

  lemma LowByteOfStep(h: bv32, b: bv8)
    ensures Byte0(HashStep(h, Widen(b))) == Xor(b, Byte3(h))
  {
  }

  lemma LowByteOfHash(p: string, c: char)
    ensures Byte0(Hash(p + [c])) == Xor(Octet(c), Byte3(Hash(p)))
  {
    hide Octet, Hash, HashStep, Widen, Byte0, Byte3, Xor;
    HashOfOneMore(p, c);
    LowByteOfStep(Hash(p), Octet(c));
  }

  lemma XorTells(x: bv8, y: bv8, t: bv8)
    ensures Xor(x, t) == Xor(y, t) <==> x == y
    ensures Xor(x, t) & 3 == Xor(y, t) & 3 <==> x & 3 == y & 3
  {
  }

  /** Texts that differ in their last character have different hashes. */
  lemma LastCharacterTells(p: string, c: char, d: char)
    requires c as int < 256 && d as int < 256
    ensures Hash(p + [c]) == Hash(p + [d]) <==> c == d
  {
    hide Value, Octet, Hash, Byte0, Byte3, Xor;
    LowByteOfHash(p, c);
    LowByteOfHash(p, d);
    OctetExactly(c);
    OctetExactly(d);
    XorTells(Octet(c), Octet(d), Byte3(Hash(p)));
  }

  lemma LowBits(b: bv8)
    ensures Value(b & 3) == Value(b) % 4
  {
  }

  lemma SameLowBits(x: bv8, y: bv8)
    ensures x & 3 == y & 3 <==> Value(x) % 4 == Value(y) % 4
  {
    hide Value;
    LowBits(x);
    LowBits(y);
    ValueTells(x & 3, y & 3);
  }

  lemma SlotByLowByte(s: string)
    ensures SlotOf(s, 4) == Value(Byte0(Hash(s))) % 4
  {
    hide Value, Hash, Byte0, Byte1, Byte2, Byte3;
    var h := Hash(s);
    MultiplesOfFour(0x40_0000 * Value(Byte3(h)) + 0x4000 * Value(Byte2(h)) + 0x40 * Value(Byte1(h)), Value(Byte0(h)));
  }

  lemma MultiplesOfFour(q: nat, r: nat)
    ensures (4 * q + r) % 4 == r % 4
  {
  }

  /** In the table of four slots that a daemon has by default, texts that differ in their
      last character alone share a slot if and only if it is the same modulo four. */
  lemma FourSlots(p: string, c: char, d: char)
    requires c as int < 256 && d as int < 256
    ensures SlotOf(p + [c], 4) == SlotOf(p + [d], 4) <==> c as int % 4 == d as int % 4
  {
    hide Value, Octet, Hash, SlotOf, Byte0, Byte3, Xor;
    var t := Byte3(Hash(p));
    SlotByLowByte(p + [c]);
    SlotByLowByte(p + [d]);
    LowByteOfHash(p, c);
    LowByteOfHash(p, d);
    SameLowBits(Xor(Octet(c), t), Xor(Octet(d), t));
    XorTells(Octet(c), Octet(d), t);
    OctetExactly(c);
    OctetExactly(d);
    SameLowBits(Octet(c), Octet(d));
  }

  // ------------------------------------------------------------------ several clients

  /** Calls that do not reach a slot leave it as it is. */
  lemma {:induction false} OthersLeaveSlot(state: seq<Slot>, qs: seq<Request>, i: nat)
    requires i < |state| && forall q :: q in qs ==> !Reaches(q, i, |state|)
    ensures Calls(state, qs)[i] == state[i]
  {
    hide SlotOf, PresentTo;
    if qs == [] {
    } else {
      OthersLeaveSlot(state, qs[..|qs| - 1], i);
      assert !Reaches(qs[|qs| - 1], i, |state|);
    }
  }

  /** Two clients are challenged in turn with nonces that differ in their last character,
      by a daemon with the default table, and the first one answers: it is served if and
      only if the second one did not take its slot. */
  method FirstOfTwoClients(table: NonceTable, p: string, c: char, d: char) returns (ok: bool)
    requires table.Valid() && |table.nnc| == 4
    requires |p| < 128 && c as int < 256 && d as int < 256 && c != d
    modifies table.nnc
    ensures ok <==> c as int % 4 != d as int % 4
  {
    hide SlotOf;
    var a, b := p + [c], p + [d];
    assert a[|p|] == c && b[|p|] == d;
    FourSlots(p, c, d);
    var first := table.CheckNonceNc(a, 0);
    var second := table.CheckNonceNc(b, 0);
    ok := table.CheckNonceNc(a, 1);
  }
}
