/** The bits that the Base64 encoder of tlsauthentication.c works on: a `char` is widened to
    `unsigned long`, three of them are shifted and combined, and six bits at a time are
    masked out.  The numbers that come out are given by quotients and remainders. */
module Base64Bits {

  function Value(b: bv8): int {
    b as int
  }

  lemma ZeroHasNoValue()
    ensures Value(0) == 0
  {
  }

  lemma ValueOfSuccessor(k: bv8)
    requires k < 255
    ensures Value(k + 1) == Value(k) + 1
  {
  }

  lemma SumOfSuccessor(j: bv8, i: bv8, k: bv8)
    requires k != 0 && i == k - 1 && j <= 255 - k
    ensures i < k && j <= 255 - i && Value(k) == Value(i) + 1 && Value(j + k) == Value(j + i) + 1
  {
    hide Value;
    ValueOfSuccessor(i);
    ValueOfSuccessor(j + i);
    assert i + 1 == k && (j + i) + 1 == j + k;
  }

  lemma SumWithZero(j: bv8)
    ensures Value(j + 0) == Value(j) + Value(0)
  {
    hide Value;
    ZeroHasNoValue();
    assert j + 0 == j;
  }

  lemma {:induction false} ValueOfSum(j: bv8, k: bv8)
    requires j <= 255 - k
    ensures Value(j + k) == Value(j) + Value(k)
    decreases k
  {
    hide Value;
    if k == 0 {
      SumWithZero(j);
    } else {
      SumOfSuccessor(j, k - 1, k);
      ValueOfSum(j, k - 1);
    }
  }

  /** Numbers without a common bit are added by `|`. */
  lemma ValueOfOr(p: bv8, q: bv8)
    requires p & q == 0
    ensures Value(p | q) == Value(p) + Value(q)
  {
    hide Value;
    assert p | q == p + q && p <= 255 - q;
    ValueOfSum(p, q);
  }

  lemma ValueOfPart2(x: bv8)
    ensures Value(x & 3) == Value(x) % 4
  {
  }

  lemma ValueOfPart4(x: bv8)
    ensures Value(x & 15) == Value(x) % 16
  {
  }

  lemma ValueOfPart6(x: bv8)
    ensures Value(x & 63) == Value(x) % 64
  {
  }

  lemma ValueOfQuotients(x: bv8)
    ensures Value(x >> 2) == Value(x) / 4 && Value(x >> 4) == Value(x) / 16 && Value(x >> 6) == Value(x) / 64
  {
  }

  lemma ValueOfProducts(x: bv8)
    ensures x < 16 ==> Value(x << 4) == Value(x) * 16
    ensures x < 64 ==> Value(x << 2) == Value(x) * 4
  {
  }

  lemma ValueOfNibbles(h: bv8, l: bv8)
    requires h < 16 && l < 16
    ensures Value((h << 4) | l) == Value(h) * 16 + Value(l)
  {
    hide Value;
    assert (h << 4) & l == 0;
    ValueOfOr(h << 4, l);
    ValueOfProducts(h);
  }

  function Nibble(n: nat): (b: bv8)
    requires n < 16
    ensures Value(b) == n && b < 16
  {
    n as bv8
  }

  /** The eight bits of a character. */
  function Bits(c: char): (b: bv8)
    requires c as int < 256
    ensures Value(b) == c as int
  {
    hide Value;
    var h, l := Nibble(c as int / 16), Nibble(c as int % 16);
    ValueOfNibbles(h, l);
    (h << 4) | l
  }

  /** A `char` is signed: from 128 on its conversion to `unsigned long` has all higher
      bits set. */
  function Extended(b: bv8): bv64 {
    if b < 0x80 then b as bv64 else 0xFFFF_FFFF_FFFF_FF00 | (b as bv64)
  }

  function Combined(x: bv8, y: bv8, z: bv8): bv64 {
    (Extended(x) << 16) | (Extended(y) << 8) | Extended(z)
  }

  /** Six bits masked out, the highest of 24 first. */
  function SixBits(l: bv64, k: nat): (v: bv8)
    requires k < 4
    ensures v < 64
  {
    ((if k == 0 then l >> 18 else if k == 1 then l >> 12 else if k == 2 then l >> 6 else l) & 0x3F) as bv8
  }

  /** A byte that one behind it may cover. */
  function Cover(x: bv8, covered: bool): bv8 {
    if covered then 0xFF else x
  }

  lemma SixBitsOfBytes(x: bv8, y: bv8, z: bv8)
    ensures var l, a, b := Combined(x, y, z), Cover(x, y >= 0x80 || z >= 0x80), Cover(y, z >= 0x80);
            && SixBits(l, 0) == a >> 2 && SixBits(l, 1) == ((a & 3) << 4) | (b >> 4)
            && SixBits(l, 2) == ((b & 15) << 2) | (z >> 6) && SixBits(l, 3) == z & 63
  {
  }

  lemma CoverIsFull(x: bv8, y: bv8, covered: bool)
    ensures Value(Cover(x, covered)) == if covered then 255 else Value(x)
    ensures y >= 0x80 <==> Value(y) >= 128
  {
  }

  lemma SplitValues(a: bv8, b: bv8)
    ensures Value(((a & 3) << 4) | (b >> 4)) == Value(a) % 4 * 16 + Value(b) / 16
    ensures Value(((a & 15) << 2) | (b >> 6)) == Value(a) % 16 * 4 + Value(b) / 64
  {
    hide Value;
    ValueOfPart2(a);
    ValueOfPart4(a);
    ValueOfQuotients(b);
    ValueOfProducts(a & 3);
    ValueOfProducts(a & 15);
    assert ((a & 3) << 4) & (b >> 4) == 0 && ((a & 15) << 2) & (b >> 6) == 0;
    ValueOfOr((a & 3) << 4, b >> 4);
    ValueOfOr((a & 15) << 2, b >> 6);
  }

  /** What the encoder masks out of the combination of three characters: the sextets of
      their bytes, where a byte that is followed by one from 128 on counts as 255. */
  lemma SixBitsAre(x: bv8, y: bv8, z: bv8)
    ensures var l := Combined(x, y, z);
            var a := if Value(y) >= 128 || Value(z) >= 128 then 255 else Value(x);
            var b, c := if Value(z) >= 128 then 255 else Value(y), Value(z);
            && Value(SixBits(l, 0)) == a / 4 && Value(SixBits(l, 1)) == a % 4 * 16 + b / 16
            && Value(SixBits(l, 2)) == b % 16 * 4 + c / 64 && Value(SixBits(l, 3)) == c % 64
  {
    hide Value, SixBits, Combined, Cover;
    var a, b := Cover(x, y >= 0x80 || z >= 0x80), Cover(y, z >= 0x80);
    SixBitsOfBytes(x, y, z);
    CoverIsFull(x, y, y >= 0x80 || z >= 0x80);
    CoverIsFull(y, z, z >= 0x80);
    ValueOfQuotients(a);
    SplitValues(a, b);
    SplitValues(b, z);
    ValueOfPart6(z);
  }
}
