/** The MD5 block function: `MD5Transform` of md5.c, with its optimised auxiliary
    functions and 64 unrolled steps, proved equal to the table-driven algorithm of
    section 3.4 of RFC 1321. */
module Md5Block {

  type byte = n: int | 0 <= n < 256
  type word = bv32

  /** The four registers A, B, C, D. */
  datatype Regs = Regs(a: word, b: word, c: word, d: word)

  // ------------------------------------------------------------------ section 3.4 of RFC 1321

  function F(x: word, y: word, z: word): word { (x & y) | (!x & z) }
  function G(x: word, y: word, z: word): word { (x & z) | (y & !z) }
  function H(x: word, y: word, z: word): word { x ^ y ^ z }
  function I(x: word, y: word, z: word): word { y ^ (x | !z) }

  function RotateLeft(w: word, s: nat): word
    requires s <= 32
  {
    (w << s) | (w >> (32 - s))
  }

  lemma RotatedBy7(w: word)
    ensures RotateLeft(w, 7) & 0x7f == w >> 25 && RotateLeft(w, 7) >> 7 == w & 0x1ffffff
  {
  }

  lemma RotatedBy12(w: word)
    ensures RotateLeft(w, 12) & 0xfff == w >> 20 && RotateLeft(w, 12) >> 12 == w & 0xfffff
  {
  }

  lemma RotatedBy17(w: word)
    ensures RotateLeft(w, 17) & 0x1ffff == w >> 15 && RotateLeft(w, 17) >> 17 == w & 0x7fff
  {
  }

  lemma RotatedBy22(w: word)
    ensures RotateLeft(w, 22) & 0x3fffff == w >> 10 && RotateLeft(w, 22) >> 22 == w & 0x3ff
  {
  }

  lemma RotatedBy5(w: word)
    ensures RotateLeft(w, 5) & 0x1f == w >> 27 && RotateLeft(w, 5) >> 5 == w & 0x7ffffff
  {
  }

  lemma RotatedBy9(w: word)
    ensures RotateLeft(w, 9) & 0x1ff == w >> 23 && RotateLeft(w, 9) >> 9 == w & 0x7fffff
  {
  }

  lemma RotatedBy14(w: word)
    ensures RotateLeft(w, 14) & 0x3fff == w >> 18 && RotateLeft(w, 14) >> 14 == w & 0x3ffff
  {
  }

  lemma RotatedBy20(w: word)
    ensures RotateLeft(w, 20) & 0xfffff == w >> 12 && RotateLeft(w, 20) >> 20 == w & 0xfff
  {
  }

  lemma RotatedBy4(w: word)
    ensures RotateLeft(w, 4) & 0xf == w >> 28 && RotateLeft(w, 4) >> 4 == w & 0xfffffff
  {
  }

  lemma RotatedBy11(w: word)
    ensures RotateLeft(w, 11) & 0x7ff == w >> 21 && RotateLeft(w, 11) >> 11 == w & 0x1fffff
  {
  }

  lemma RotatedBy16(w: word)
    ensures RotateLeft(w, 16) & 0xffff == w >> 16 && RotateLeft(w, 16) >> 16 == w & 0xffff
  {
  }

  lemma RotatedBy23(w: word)
    ensures RotateLeft(w, 23) & 0x7fffff == w >> 9 && RotateLeft(w, 23) >> 23 == w & 0x1ff
  {
  }

  lemma RotatedBy6(w: word)
    ensures RotateLeft(w, 6) & 0x3f == w >> 26 && RotateLeft(w, 6) >> 6 == w & 0x3ffffff
  {
  }

  lemma RotatedBy10(w: word)
    ensures RotateLeft(w, 10) & 0x3ff == w >> 22 && RotateLeft(w, 10) >> 10 == w & 0x3fffff
  {
  }

  lemma RotatedBy15(w: word)
    ensures RotateLeft(w, 15) & 0x7fff == w >> 17 && RotateLeft(w, 15) >> 15 == w & 0x1ffff
  {
  }

  lemma RotatedBy21(w: word)
    ensures RotateLeft(w, 21) & 0x1fffff == w >> 11 && RotateLeft(w, 21) >> 21 == w & 0x7ff
  {
  }

  /** Where the bits go in the four rounds: for each of their amounts s, the upper s bits
      come to lie at the bottom, in order, and the others move up over them. */
  lemma RotationsOfRound1(w: word)
    ensures RotateLeft(w, 7) & 0x7f == w >> 25 && RotateLeft(w, 7) >> 7 == w & 0x1ffffff
    ensures RotateLeft(w, 12) & 0xfff == w >> 20 && RotateLeft(w, 12) >> 12 == w & 0xfffff
    ensures RotateLeft(w, 17) & 0x1ffff == w >> 15 && RotateLeft(w, 17) >> 17 == w & 0x7fff
    ensures RotateLeft(w, 22) & 0x3fffff == w >> 10 && RotateLeft(w, 22) >> 22 == w & 0x3ff
  {
    hide RotateLeft;
    RotatedBy7(w);
    RotatedBy12(w);
    RotatedBy17(w);
    RotatedBy22(w);
  }

  lemma RotationsOfRound2(w: word)
    ensures RotateLeft(w, 5) & 0x1f == w >> 27 && RotateLeft(w, 5) >> 5 == w & 0x7ffffff
    ensures RotateLeft(w, 9) & 0x1ff == w >> 23 && RotateLeft(w, 9) >> 9 == w & 0x7fffff
    ensures RotateLeft(w, 14) & 0x3fff == w >> 18 && RotateLeft(w, 14) >> 14 == w & 0x3ffff
    ensures RotateLeft(w, 20) & 0xfffff == w >> 12 && RotateLeft(w, 20) >> 20 == w & 0xfff
  {
    hide RotateLeft;
    RotatedBy5(w);
    RotatedBy9(w);
    RotatedBy14(w);
    RotatedBy20(w);
  }

  lemma RotationsOfRound3(w: word)
    ensures RotateLeft(w, 4) & 0xf == w >> 28 && RotateLeft(w, 4) >> 4 == w & 0xfffffff
    ensures RotateLeft(w, 11) & 0x7ff == w >> 21 && RotateLeft(w, 11) >> 11 == w & 0x1fffff
    ensures RotateLeft(w, 16) & 0xffff == w >> 16 && RotateLeft(w, 16) >> 16 == w & 0xffff
    ensures RotateLeft(w, 23) & 0x7fffff == w >> 9 && RotateLeft(w, 23) >> 23 == w & 0x1ff
  {
    hide RotateLeft;
    RotatedBy4(w);
    RotatedBy11(w);
    RotatedBy16(w);
    RotatedBy23(w);
  }

  lemma RotationsOfRound4(w: word)
    ensures RotateLeft(w, 6) & 0x3f == w >> 26 && RotateLeft(w, 6) >> 6 == w & 0x3ffffff
    ensures RotateLeft(w, 10) & 0x3ff == w >> 22 && RotateLeft(w, 10) >> 10 == w & 0x3fffff
    ensures RotateLeft(w, 15) & 0x7fff == w >> 17 && RotateLeft(w, 15) >> 15 == w & 0x1ffff
    ensures RotateLeft(w, 21) & 0x1fffff == w >> 11 && RotateLeft(w, 21) >> 21 == w & 0x7ff
  {
    hide RotateLeft;
    RotatedBy6(w);
    RotatedBy10(w);
    RotatedBy15(w);
    RotatedBy21(w);
  }

  function Auxiliary(i: nat, x: word, y: word, z: word): word
    requires i < 64
  {
    if i < 16 then F(x, y, z) else if i < 32 then G(x, y, z) else if i < 48 then H(x, y, z) else I(x, y, z)
  }

  /** Which word of the block step i uses. */
  function WordIndex(i: nat): (k: nat)
    requires i < 64
    ensures k < 16
  {
    if i < 16 then i
    else if i < 32 then (5 * i + 1) % 16
    else if i < 48 then (3 * i + 5) % 16
    else 7 * i % 16
  }

  function ShiftAmount(i: nat): (s: nat)
    requires i < 64
    ensures s < 32
  {
    match (i / 16, i % 4)
    case (0, 0) => 7  case (0, 1) => 12 case (0, 2) => 17 case (0, _) => 22
    case (1, 0) => 5  case (1, 1) => 9  case (1, 2) => 14 case (1, _) => 20
    case (2, 0) => 4  case (2, 1) => 11 case (2, 2) => 16 case (2, _) => 23
    case (_, 0) => 6  case (_, 1) => 10 case (_, 2) => 15 case (_, _) => 21
  }

  /** The table T, four entries a row: entry i is the integer part of 2^32 times
      abs(sin(i + 1)). */
  function TableRow(row: nat): (word, word, word, word)
    requires row < 16
  {
    match row
    case 0 => (0xd76aa478, 0xe8c7b756, 0x242070db, 0xc1bdceee)
    case 1 => (0xf57c0faf, 0x4787c62a, 0xa8304613, 0xfd469501)
    case 2 => (0x698098d8, 0x8b44f7af, 0xffff5bb1, 0x895cd7be)
    case 3 => (0x6b901122, 0xfd987193, 0xa679438e, 0x49b40821)
    case 4 => (0xf61e2562, 0xc040b340, 0x265e5a51, 0xe9b6c7aa)
    case 5 => (0xd62f105d, 0x02441453, 0xd8a1e681, 0xe7d3fbc8)
    case 6 => (0x21e1cde6, 0xc33707d6, 0xf4d50d87, 0x455a14ed)
    case 7 => (0xa9e3e905, 0xfcefa3f8, 0x676f02d9, 0x8d2a4c8a)
    case 8 => (0xfffa3942, 0x8771f681, 0x6d9d6122, 0xfde5380c)
    case 9 => (0xa4beea44, 0x4bdecfa9, 0xf6bb4b60, 0xbebfbc70)
    case 10 => (0x289b7ec6, 0xeaa127fa, 0xd4ef3085, 0x04881d05)
    case 11 => (0xd9d4d039, 0xe6db99e5, 0x1fa27cf8, 0xc4ac5665)
    case 12 => (0xf4292244, 0x432aff97, 0xab9423a7, 0xfc93a039)
    case 13 => (0x655b59c3, 0x8f0ccc92, 0xffeff47d, 0x85845dd1)
    case 14 => (0x6fa87e4f, 0xfe2ce6e0, 0xa3014314, 0x4e0811a1)
    case _ => (0xf7537e82, 0xbd3af235, 0x2ad7d2bb, 0xeb86d391)
  }

  function T(i: nat): word
    requires i < 64
  {
    var row := TableRow(i / 4);
    match i % 4 case 0 => row.0 case 1 => row.1 case 2 => row.2 case _ => row.3
  }

  /** Addition of words, modulo 2^32. */
  function Add(x: word, y: word): word { x + y }

  function Sum(w: word, x: word, y: word, z: word): word { w + x + y + z }

  /** One step: a = b + ((a + f(b,c,d) + X[k] + T[i]) <<< s), then the roles rotate. */
  function Step(i: nat, x: seq<word>, r: Regs): Regs
    requires i < 64 && |x| == 16
  {
    var sum := Sum(r.a, Auxiliary(i, r.b, r.c, r.d), x[WordIndex(i)], T(i));
    Regs(r.d, Add(r.b, RotateLeft(sum, ShiftAmount(i))), r.b, r.c)
  }

  /** The first n steps. */
  function Steps(x: seq<word>, r: Regs, n: nat): Regs
    requires n <= 64 && |x| == 16
  {
    if n == 0 then r else Step(n - 1, x, Steps(x, r, n - 1))
  }

  lemma NoSteps(x: seq<word>, r: Regs)
    requires |x| == 16
    ensures Steps(x, r, 0) == r
  {
  }

  function AddRegs(r: Regs, s: Regs): Regs {
    Regs(Add(r.a, s.a), Add(r.b, s.b), Add(r.c, s.c), Add(r.d, s.d))
  }

  // ------------------------------------------------------------------ words and bytes

  function ToBv8(b: byte): bv8 { b as bv8 }

  function FromBv8(v: bv8): byte { v as int }

  function ToWord(b: byte): word { ToBv8(b) as word }

  function LowBits(w: word): bv8 { (w & 0xff) as bv8 }

  function LowByte(w: word): byte { FromBv8(LowBits(w)) }

  /** A word from four bytes, low-order byte first. */
  function LoadWord(b: seq<byte>): word
    requires |b| == 4
  {
    ToWord(b[0]) | (ToWord(b[1]) << 8) | (ToWord(b[2]) << 16) | (ToWord(b[3]) << 24)
  }

  function Right(w: word, s: nat): word
    requires s <= 32
  {
    w >> s
  }

  /** PUT_32BIT_LE. */
  function StoreWord(w: word): (b: seq<byte>)
    ensures |b| == 4
  {
    [LowByte(w), LowByte(Right(w, 8)), LowByte(Right(w, 16)), LowByte(Right(w, 24))]
  }

  function LoadWords(block: seq<byte>): (x: seq<word>)
    requires |block| == 64
    ensures |x| == 16
  {
    seq(16, k requires 0 <= k < 16 => LoadWord(block[4 * k..4 * k + 4]))
  }

  lemma Bv8ThereAndBack(v: bv8)
    ensures ToBv8(FromBv8(v)) == v
  {
  }

  lemma Bv8Successor(v: bv8)
    requires v < 255
    ensures (v + 1) as int == v as int + 1
  {
  }

  lemma {:induction false} FindBv8(b: byte) returns (v: bv8)
    ensures v as int == b
  {
    if b == 0 {
      v := 0;
    } else {
      v := FindBv8(b - 1);
      Bv8Successor(v);
      v := v + 1;
    }
  }

  lemma ByteThereAndBack(b: byte)
    ensures FromBv8(ToBv8(b)) == b
  {
    var v := FindBv8(b);
    Bv8ThereAndBack(v);
  }

  lemma LowBitsWiden(w: word)
    ensures ((w & 0xff) as bv8) as word == w & 0xff
  {
  }

  lemma ByteOfWord(w: word)
    ensures ToWord(LowByte(w)) == w & 0xff
  {
    hide FromBv8, ToBv8;
    Bv8ThereAndBack(LowBits(w));
    LowBitsWiden(w);
  }

  lemma WordOfByte(w: word, b: byte)
    requires w & 0xff == ToWord(b)
    ensures LowByte(w) == b
  {
    hide FromBv8, ToBv8;
    ByteThereAndBack(b);
    assert LowBits(w) == ToBv8(b);
  }

  lemma SplitWord(w: word)
    ensures (w & 0xff) | (((w >> 8) & 0xff) << 8) | (((w >> 16) & 0xff) << 16) | (((w >> 24) & 0xff) << 24) == w
  {
  }

  lemma JoinWord(a: word, b: word, c: word, d: word)
    requires a <= 0xff && b <= 0xff && c <= 0xff && d <= 0xff
    ensures var w := a | (b << 8) | (c << 16) | (d << 24);
            w & 0xff == a && (w >> 8) & 0xff == b && (w >> 16) & 0xff == c && (w >> 24) & 0xff == d
  {
  }

  lemma ToWordIsSmall(b: byte)
    ensures ToWord(b) <= 0xff
  {
  }

  /** Loading and storing are inverse to each other, so the byte-wise load yields
      the only words whose little-endian memory image is the block. */
  lemma LoadAfterStore(w: word)
    ensures LoadWord(StoreWord(w)) == w
  {
    hide ToWord, LowByte;
    ByteOfWord(w);
    ByteOfWord(w >> 8);
    ByteOfWord(w >> 16);
    ByteOfWord(w >> 24);
    SplitWord(w);
  }

  lemma BytesOfLoadedWord(b: seq<byte>)
    requires |b| == 4
    ensures var w := LoadWord(b);
            && w & 0xff == ToWord(b[0]) && Right(w, 8) & 0xff == ToWord(b[1])
            && Right(w, 16) & 0xff == ToWord(b[2]) && Right(w, 24) & 0xff == ToWord(b[3])
  {
    hide ToWord;
    ToWordIsSmall(b[0]);
    ToWordIsSmall(b[1]);
    ToWordIsSmall(b[2]);
    ToWordIsSmall(b[3]);
    JoinWord(ToWord(b[0]), ToWord(b[1]), ToWord(b[2]), ToWord(b[3]));
  }

  lemma StoreAfterLoad(b: seq<byte>)
    requires |b| == 4
    ensures StoreWord(LoadWord(b)) == b
  {
    hide ToWord, LowByte, LoadWord, Right;
    BytesOfLoadedWord(b);
    var w := LoadWord(b);
    WordOfByte(w, b[0]);
    WordOfByte(Right(w, 8), b[1]);
    WordOfByte(Right(w, 16), b[2]);
    WordOfByte(Right(w, 24), b[3]);
  }

  function Compress(r: Regs, block: seq<byte>): Regs
    requires |block| == 64
  {
    AddRegs(r, Steps(LoadWords(block), r, 64))
  }

  // ------------------------------------------------------------------ the optimised form

  function F1(x: word, y: word, z: word): word { z ^ (x & (y ^ z)) }
  function F2(x: word, y: word, z: word): word { F1(z, x, y) }
  function F3(x: word, y: word, z: word): word { x ^ y ^ z }
  function F4(x: word, y: word, z: word): word { y ^ (x | !z) }

  lemma F1IsF(x: word, y: word, z: word)
    ensures F1(x, y, z) == F(x, y, z)
  {
    assert z ^ (x & (y ^ z)) == (x & y) | (!x & z);
  }

  lemma F2IsG(x: word, y: word, z: word)
    ensures F2(x, y, z) == G(x, y, z)
  {
    assert y ^ (z & (x ^ y)) == (x & z) | (y & !z);
  }

  function Optimised(i: nat, x: word, y: word, z: word): word
    requires i < 64
  {
    if i < 16 then F1(x, y, z) else if i < 32 then F2(x, y, z) else if i < 48 then F3(x, y, z) else F4(x, y, z)
  }

  lemma OptimisedAgrees(i: nat, x: word, y: word, z: word)
    requires i < 64
    ensures Optimised(i, x, y, z) == Auxiliary(i, x, y, z)
  {
    if i < 16 {
      hide F1, F;
      F1IsF(x, y, z);
    } else if i < 32 {
      hide F2, G;
      F2IsG(x, y, z);
    }
  }

  /** w += f(x, y, z) + data, where data is a word plus a constant. */
  function Accumulate(w: word, fxyz: word, m: word, t: word): word { w + (fxyz + (m + t)) }

  /** MD5STEP(f, w, x, y, z, data, s) with fxyz = f(x, y, z) and data = m + t. */
  function Md5Step(fxyz: word, w: word, x: word, m: word, t: word, s: nat): word
    requires s <= 32
  {
    Add(RotateLeft(Accumulate(w, fxyz, m, t), s), x)
  }

  lemma SumsAgree(w: word, f: word, m: word, t: word)
    ensures Accumulate(w, f, m, t) == Sum(w, f, m, t)
  {
  }

  lemma AddCommutes(x: word, y: word)
    ensures Add(x, y) == Add(y, x)
  {
  }

  /** After i steps the registers are w, x, y, z; the macro for step i updates w. */
  lemma StepAgrees(i: nat, words: seq<word>, r: Regs, w: word, x: word, y: word, z: word,
                   fxyz: word, k: nat, t: word, s: nat)
    requires i < 64 && |words| == 16
    requires Steps(words, r, i) == Regs(w, x, y, z)
    requires fxyz == Optimised(i, x, y, z) && k == WordIndex(i) && t == T(i) && s == ShiftAmount(i)
    ensures Steps(words, r, i + 1) == Regs(z, Md5Step(fxyz, w, x, words[k], t, s), x, y)
  {
    hide RotateLeft, Auxiliary, Optimised, Add, Sum, Accumulate, T, WordIndex, ShiftAmount;
    OptimisedAgrees(i, x, y, z);
    SumsAgree(w, fxyz, words[k], t);
    AddCommutes(RotateLeft(Sum(w, fxyz, words[k], t), s), x);
  }

  /** Steps 0 to 7, unrolled. */
  method Round1a(words: seq<word>, ghost r: Regs, a0: word, b0: word, c0: word, d0: word)
    returns (a: word, b: word, c: word, d: word)
    requires |words| == 16 && Regs(a0, b0, c0, d0) == Steps(words, r, 0)
    ensures Regs(a, b, c, d) == Steps(words, r, 8)
  {
    hide Md5Step, F1, F2, F3, F4, Steps;
    a, b, c, d := a0, b0, c0, d0;
    StepAgrees(0, words, r, a, b, c, d, F1(b, c, d), 0, 0xd76aa478, 7);
    a := Md5Step(F1(b, c, d), a, b, words[0], 0xd76aa478, 7);
    StepAgrees(1, words, r, d, a, b, c, F1(a, b, c), 1, 0xe8c7b756, 12);
    d := Md5Step(F1(a, b, c), d, a, words[1], 0xe8c7b756, 12);
    StepAgrees(2, words, r, c, d, a, b, F1(d, a, b), 2, 0x242070db, 17);
    c := Md5Step(F1(d, a, b), c, d, words[2], 0x242070db, 17);
    StepAgrees(3, words, r, b, c, d, a, F1(c, d, a), 3, 0xc1bdceee, 22);
    b := Md5Step(F1(c, d, a), b, c, words[3], 0xc1bdceee, 22);
    StepAgrees(4, words, r, a, b, c, d, F1(b, c, d), 4, 0xf57c0faf, 7);
    a := Md5Step(F1(b, c, d), a, b, words[4], 0xf57c0faf, 7);
    StepAgrees(5, words, r, d, a, b, c, F1(a, b, c), 5, 0x4787c62a, 12);
    d := Md5Step(F1(a, b, c), d, a, words[5], 0x4787c62a, 12);
    StepAgrees(6, words, r, c, d, a, b, F1(d, a, b), 6, 0xa8304613, 17);
    c := Md5Step(F1(d, a, b), c, d, words[6], 0xa8304613, 17);
    StepAgrees(7, words, r, b, c, d, a, F1(c, d, a), 7, 0xfd469501, 22);
    b := Md5Step(F1(c, d, a), b, c, words[7], 0xfd469501, 22);
  }

  /** Steps 8 to 15, unrolled. */
  method Round1b(words: seq<word>, ghost r: Regs, a0: word, b0: word, c0: word, d0: word)
    returns (a: word, b: word, c: word, d: word)
    requires |words| == 16 && Regs(a0, b0, c0, d0) == Steps(words, r, 8)
    ensures Regs(a, b, c, d) == Steps(words, r, 16)
  {
    hide Md5Step, F1, F2, F3, F4, Steps;
    a, b, c, d := a0, b0, c0, d0;
    StepAgrees(8, words, r, a, b, c, d, F1(b, c, d), 8, 0x698098d8, 7);
    a := Md5Step(F1(b, c, d), a, b, words[8], 0x698098d8, 7);
    StepAgrees(9, words, r, d, a, b, c, F1(a, b, c), 9, 0x8b44f7af, 12);
    d := Md5Step(F1(a, b, c), d, a, words[9], 0x8b44f7af, 12);
    StepAgrees(10, words, r, c, d, a, b, F1(d, a, b), 10, 0xffff5bb1, 17);
    c := Md5Step(F1(d, a, b), c, d, words[10], 0xffff5bb1, 17);
    StepAgrees(11, words, r, b, c, d, a, F1(c, d, a), 11, 0x895cd7be, 22);
    b := Md5Step(F1(c, d, a), b, c, words[11], 0x895cd7be, 22);
    StepAgrees(12, words, r, a, b, c, d, F1(b, c, d), 12, 0x6b901122, 7);
    a := Md5Step(F1(b, c, d), a, b, words[12], 0x6b901122, 7);
    StepAgrees(13, words, r, d, a, b, c, F1(a, b, c), 13, 0xfd987193, 12);
    d := Md5Step(F1(a, b, c), d, a, words[13], 0xfd987193, 12);
    StepAgrees(14, words, r, c, d, a, b, F1(d, a, b), 14, 0xa679438e, 17);
    c := Md5Step(F1(d, a, b), c, d, words[14], 0xa679438e, 17);
    StepAgrees(15, words, r, b, c, d, a, F1(c, d, a), 15, 0x49b40821, 22);
    b := Md5Step(F1(c, d, a), b, c, words[15], 0x49b40821, 22);
  }

  /** Steps 16 to 23, unrolled. */
  method Round2a(words: seq<word>, ghost r: Regs, a0: word, b0: word, c0: word, d0: word)
    returns (a: word, b: word, c: word, d: word)
    requires |words| == 16 && Regs(a0, b0, c0, d0) == Steps(words, r, 16)
    ensures Regs(a, b, c, d) == Steps(words, r, 24)
  {
    hide Md5Step, F1, F2, F3, F4, Steps;
    a, b, c, d := a0, b0, c0, d0;
    StepAgrees(16, words, r, a, b, c, d, F2(b, c, d), 1, 0xf61e2562, 5);
    a := Md5Step(F2(b, c, d), a, b, words[1], 0xf61e2562, 5);
    StepAgrees(17, words, r, d, a, b, c, F2(a, b, c), 6, 0xc040b340, 9);
    d := Md5Step(F2(a, b, c), d, a, words[6], 0xc040b340, 9);
    StepAgrees(18, words, r, c, d, a, b, F2(d, a, b), 11, 0x265e5a51, 14);
    c := Md5Step(F2(d, a, b), c, d, words[11], 0x265e5a51, 14);
    StepAgrees(19, words, r, b, c, d, a, F2(c, d, a), 0, 0xe9b6c7aa, 20);
    b := Md5Step(F2(c, d, a), b, c, words[0], 0xe9b6c7aa, 20);
    StepAgrees(20, words, r, a, b, c, d, F2(b, c, d), 5, 0xd62f105d, 5);
    a := Md5Step(F2(b, c, d), a, b, words[5], 0xd62f105d, 5);
    StepAgrees(21, words, r, d, a, b, c, F2(a, b, c), 10, 0x02441453, 9);
    d := Md5Step(F2(a, b, c), d, a, words[10], 0x02441453, 9);
    StepAgrees(22, words, r, c, d, a, b, F2(d, a, b), 15, 0xd8a1e681, 14);
    c := Md5Step(F2(d, a, b), c, d, words[15], 0xd8a1e681, 14);
    StepAgrees(23, words, r, b, c, d, a, F2(c, d, a), 4, 0xe7d3fbc8, 20);
    b := Md5Step(F2(c, d, a), b, c, words[4], 0xe7d3fbc8, 20);
  }

  /** Steps 24 to 31, unrolled. */
  method Round2b(words: seq<word>, ghost r: Regs, a0: word, b0: word, c0: word, d0: word)
    returns (a: word, b: word, c: word, d: word)
    requires |words| == 16 && Regs(a0, b0, c0, d0) == Steps(words, r, 24)
    ensures Regs(a, b, c, d) == Steps(words, r, 32)
  {
    hide Md5Step, F1, F2, F3, F4, Steps;
    a, b, c, d := a0, b0, c0, d0;
    StepAgrees(24, words, r, a, b, c, d, F2(b, c, d), 9, 0x21e1cde6, 5);
    a := Md5Step(F2(b, c, d), a, b, words[9], 0x21e1cde6, 5);
    StepAgrees(25, words, r, d, a, b, c, F2(a, b, c), 14, 0xc33707d6, 9);
    d := Md5Step(F2(a, b, c), d, a, words[14], 0xc33707d6, 9);
    StepAgrees(26, words, r, c, d, a, b, F2(d, a, b), 3, 0xf4d50d87, 14);
    c := Md5Step(F2(d, a, b), c, d, words[3], 0xf4d50d87, 14);
    StepAgrees(27, words, r, b, c, d, a, F2(c, d, a), 8, 0x455a14ed, 20);
    b := Md5Step(F2(c, d, a), b, c, words[8], 0x455a14ed, 20);
    StepAgrees(28, words, r, a, b, c, d, F2(b, c, d), 13, 0xa9e3e905, 5);
    a := Md5Step(F2(b, c, d), a, b, words[13], 0xa9e3e905, 5);
    StepAgrees(29, words, r, d, a, b, c, F2(a, b, c), 2, 0xfcefa3f8, 9);
    d := Md5Step(F2(a, b, c), d, a, words[2], 0xfcefa3f8, 9);
    StepAgrees(30, words, r, c, d, a, b, F2(d, a, b), 7, 0x676f02d9, 14);
    c := Md5Step(F2(d, a, b), c, d, words[7], 0x676f02d9, 14);
    StepAgrees(31, words, r, b, c, d, a, F2(c, d, a), 12, 0x8d2a4c8a, 20);
    b := Md5Step(F2(c, d, a), b, c, words[12], 0x8d2a4c8a, 20);
  }

  /** Steps 32 to 39, unrolled. */
  method Round3a(words: seq<word>, ghost r: Regs, a0: word, b0: word, c0: word, d0: word)
    returns (a: word, b: word, c: word, d: word)
    requires |words| == 16 && Regs(a0, b0, c0, d0) == Steps(words, r, 32)
    ensures Regs(a, b, c, d) == Steps(words, r, 40)
  {
    hide Md5Step, F1, F2, F3, F4, Steps;
    a, b, c, d := a0, b0, c0, d0;
    StepAgrees(32, words, r, a, b, c, d, F3(b, c, d), 5, 0xfffa3942, 4);
    a := Md5Step(F3(b, c, d), a, b, words[5], 0xfffa3942, 4);
    StepAgrees(33, words, r, d, a, b, c, F3(a, b, c), 8, 0x8771f681, 11);
    d := Md5Step(F3(a, b, c), d, a, words[8], 0x8771f681, 11);
    StepAgrees(34, words, r, c, d, a, b, F3(d, a, b), 11, 0x6d9d6122, 16);
    c := Md5Step(F3(d, a, b), c, d, words[11], 0x6d9d6122, 16);
    StepAgrees(35, words, r, b, c, d, a, F3(c, d, a), 14, 0xfde5380c, 23);
    b := Md5Step(F3(c, d, a), b, c, words[14], 0xfde5380c, 23);
    StepAgrees(36, words, r, a, b, c, d, F3(b, c, d), 1, 0xa4beea44, 4);
    a := Md5Step(F3(b, c, d), a, b, words[1], 0xa4beea44, 4);
    StepAgrees(37, words, r, d, a, b, c, F3(a, b, c), 4, 0x4bdecfa9, 11);
    d := Md5Step(F3(a, b, c), d, a, words[4], 0x4bdecfa9, 11);
    StepAgrees(38, words, r, c, d, a, b, F3(d, a, b), 7, 0xf6bb4b60, 16);
    c := Md5Step(F3(d, a, b), c, d, words[7], 0xf6bb4b60, 16);
    StepAgrees(39, words, r, b, c, d, a, F3(c, d, a), 10, 0xbebfbc70, 23);
    b := Md5Step(F3(c, d, a), b, c, words[10], 0xbebfbc70, 23);
  }

  /** Steps 40 to 47, unrolled. */
  method Round3b(words: seq<word>, ghost r: Regs, a0: word, b0: word, c0: word, d0: word)
    returns (a: word, b: word, c: word, d: word)
    requires |words| == 16 && Regs(a0, b0, c0, d0) == Steps(words, r, 40)
    ensures Regs(a, b, c, d) == Steps(words, r, 48)
  {
    hide Md5Step, F1, F2, F3, F4, Steps;
    a, b, c, d := a0, b0, c0, d0;
    StepAgrees(40, words, r, a, b, c, d, F3(b, c, d), 13, 0x289b7ec6, 4);
    a := Md5Step(F3(b, c, d), a, b, words[13], 0x289b7ec6, 4);
    StepAgrees(41, words, r, d, a, b, c, F3(a, b, c), 0, 0xeaa127fa, 11);
    d := Md5Step(F3(a, b, c), d, a, words[0], 0xeaa127fa, 11);
    StepAgrees(42, words, r, c, d, a, b, F3(d, a, b), 3, 0xd4ef3085, 16);
    c := Md5Step(F3(d, a, b), c, d, words[3], 0xd4ef3085, 16);
    StepAgrees(43, words, r, b, c, d, a, F3(c, d, a), 6, 0x04881d05, 23);
    b := Md5Step(F3(c, d, a), b, c, words[6], 0x04881d05, 23);
    StepAgrees(44, words, r, a, b, c, d, F3(b, c, d), 9, 0xd9d4d039, 4);
    a := Md5Step(F3(b, c, d), a, b, words[9], 0xd9d4d039, 4);
    StepAgrees(45, words, r, d, a, b, c, F3(a, b, c), 12, 0xe6db99e5, 11);
    d := Md5Step(F3(a, b, c), d, a, words[12], 0xe6db99e5, 11);
    StepAgrees(46, words, r, c, d, a, b, F3(d, a, b), 15, 0x1fa27cf8, 16);
    c := Md5Step(F3(d, a, b), c, d, words[15], 0x1fa27cf8, 16);
    StepAgrees(47, words, r, b, c, d, a, F3(c, d, a), 2, 0xc4ac5665, 23);
    b := Md5Step(F3(c, d, a), b, c, words[2], 0xc4ac5665, 23);
  }

  /** Steps 48 to 55, unrolled. */
  method Round4a(words: seq<word>, ghost r: Regs, a0: word, b0: word, c0: word, d0: word)
    returns (a: word, b: word, c: word, d: word)
    requires |words| == 16 && Regs(a0, b0, c0, d0) == Steps(words, r, 48)
    ensures Regs(a, b, c, d) == Steps(words, r, 56)
  {
    hide Md5Step, F1, F2, F3, F4, Steps;
    a, b, c, d := a0, b0, c0, d0;
    StepAgrees(48, words, r, a, b, c, d, F4(b, c, d), 0, 0xf4292244, 6);
    a := Md5Step(F4(b, c, d), a, b, words[0], 0xf4292244, 6);
    StepAgrees(49, words, r, d, a, b, c, F4(a, b, c), 7, 0x432aff97, 10);
    d := Md5Step(F4(a, b, c), d, a, words[7], 0x432aff97, 10);
    StepAgrees(50, words, r, c, d, a, b, F4(d, a, b), 14, 0xab9423a7, 15);
    c := Md5Step(F4(d, a, b), c, d, words[14], 0xab9423a7, 15);
    StepAgrees(51, words, r, b, c, d, a, F4(c, d, a), 5, 0xfc93a039, 21);
    b := Md5Step(F4(c, d, a), b, c, words[5], 0xfc93a039, 21);
    StepAgrees(52, words, r, a, b, c, d, F4(b, c, d), 12, 0x655b59c3, 6);
    a := Md5Step(F4(b, c, d), a, b, words[12], 0x655b59c3, 6);
    StepAgrees(53, words, r, d, a, b, c, F4(a, b, c), 3, 0x8f0ccc92, 10);
    d := Md5Step(F4(a, b, c), d, a, words[3], 0x8f0ccc92, 10);
    StepAgrees(54, words, r, c, d, a, b, F4(d, a, b), 10, 0xffeff47d, 15);
    c := Md5Step(F4(d, a, b), c, d, words[10], 0xffeff47d, 15);
    StepAgrees(55, words, r, b, c, d, a, F4(c, d, a), 1, 0x85845dd1, 21);
    b := Md5Step(F4(c, d, a), b, c, words[1], 0x85845dd1, 21);
  }

  /** Steps 56 to 63, unrolled. */
  method Round4b(words: seq<word>, ghost r: Regs, a0: word, b0: word, c0: word, d0: word)
    returns (a: word, b: word, c: word, d: word)
    requires |words| == 16 && Regs(a0, b0, c0, d0) == Steps(words, r, 56)
    ensures Regs(a, b, c, d) == Steps(words, r, 64)
  {
    hide Md5Step, F1, F2, F3, F4, Steps;
    a, b, c, d := a0, b0, c0, d0;
    StepAgrees(56, words, r, a, b, c, d, F4(b, c, d), 8, 0x6fa87e4f, 6);
    a := Md5Step(F4(b, c, d), a, b, words[8], 0x6fa87e4f, 6);
    StepAgrees(57, words, r, d, a, b, c, F4(a, b, c), 15, 0xfe2ce6e0, 10);
    d := Md5Step(F4(a, b, c), d, a, words[15], 0xfe2ce6e0, 10);
    StepAgrees(58, words, r, c, d, a, b, F4(d, a, b), 6, 0xa3014314, 15);
    c := Md5Step(F4(d, a, b), c, d, words[6], 0xa3014314, 15);
    StepAgrees(59, words, r, b, c, d, a, F4(c, d, a), 13, 0x4e0811a1, 21);
    b := Md5Step(F4(c, d, a), b, c, words[13], 0x4e0811a1, 21);
    StepAgrees(60, words, r, a, b, c, d, F4(b, c, d), 4, 0xf7537e82, 6);
    a := Md5Step(F4(b, c, d), a, b, words[4], 0xf7537e82, 6);
    StepAgrees(61, words, r, d, a, b, c, F4(a, b, c), 11, 0xbd3af235, 10);
    d := Md5Step(F4(a, b, c), d, a, words[11], 0xbd3af235, 10);
    StepAgrees(62, words, r, c, d, a, b, F4(d, a, b), 2, 0x2ad7d2bb, 15);
    c := Md5Step(F4(d, a, b), c, d, words[2], 0x2ad7d2bb, 15);
    StepAgrees(63, words, r, b, c, d, a, F4(c, d, a), 9, 0xeb86d391, 21);
    b := Md5Step(F4(c, d, a), b, c, words[9], 0xeb86d391, 21);
  }

  /** On a little-endian machine `memcpy` fills sixteen words with the block as
      their memory image; these are the words that the byte-wise loop loads. */
  lemma MemcpyLoadsTheSame(words: seq<word>, block: seq<byte>)
    requires |words| == 16 && |block| == 64
    ensures words == LoadWords(block) <==>
              forall k :: 0 <= k < 16 ==> StoreWord(words[k]) == block[4 * k..4 * k + 4]
  {
    hide LoadWord, StoreWord;
    forall k | 0 <= k < 16
      ensures words[k] == LoadWord(block[4 * k..4 * k + 4]) <==> StoreWord(words[k]) == block[4 * k..4 * k + 4]
    {
      LoadAfterStore(words[k]);
      StoreAfterLoad(block[4 * k..4 * k + 4]);
    }
    if forall k :: 0 <= k < 16 ==> StoreWord(words[k]) == block[4 * k..4 * k + 4] {
      assert words == LoadWords(block);
    }
  }

  ghost function Registers(state: array<word>): Regs
    requires state.Length == 4
    reads state
  {
    Regs(state[0], state[1], state[2], state[3])
  }

  /** `MD5Transform`: the state in place, the words loaded byte by byte. */
  method MD5Transform(state: array<word>, block: seq<byte>)
    requires state.Length == 4 && |block| == 64
    modifies state
    ensures Registers(state) == Compress(old(Registers(state)), block)
  {
    hide LoadWord, Steps, Add;
    var words: seq<word> := [];
    for k := 0 to 16
      invariant |words| == k
      invariant forall i :: 0 <= i < k ==> words[i] == LoadWord(block[4 * i..4 * i + 4])
    {
      words := words + [LoadWord(block[4 * k..4 * k + 4])];
    }
    assert words == LoadWords(block);
    ghost var r := Registers(state);
    NoSteps(words, r);
    var a, b, c, d := Round1a(words, r, state[0], state[1], state[2], state[3]);
    a, b, c, d := Round1b(words, r, a, b, c, d);
    a, b, c, d := Round2a(words, r, a, b, c, d);
    a, b, c, d := Round2b(words, r, a, b, c, d);
    a, b, c, d := Round3a(words, r, a, b, c, d);
    a, b, c, d := Round3b(words, r, a, b, c, d);
    a, b, c, d := Round4a(words, r, a, b, c, d);
    a, b, c, d := Round4b(words, r, a, b, c, d);
    state[0] := Add(state[0], a);
    state[1] := Add(state[1], b);
    state[2] := Add(state[2], c);
    state[3] := Add(state[3], d);
  }
}
