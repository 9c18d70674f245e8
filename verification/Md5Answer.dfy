/** A known answer: the digest of "abc" in section A.5 of RFC 1321, computed step by step
    from the definitions, and the text that the header fields hold for it. */
module Md5Answer {
  import opened CStrings
  import opened Md5Block
  import opened Md5
  import opened DigestFormulas

  /** The words of the padded message. */
  function WordAt(k: nat): word {
    if k == 0 then 0x80636261 else if k == 14 then 0x18 else 0
  }

  const WORDS: seq<word> := seq(16, k requires 0 <= k < 16 => WordAt(k))

  /** One step, with the values on the way. */
  lemma Next(i: nat, r: Regs, m: word, t: word, s: nat, f: word, sum: word, rotated: word, b: word)
    requires i < 64 && Steps(WORDS, INITIAL, i) == r
    requires m == WordAt(WordIndex(i)) && t == T(i) && s == ShiftAmount(i)
    requires Auxiliary(i, r.b, r.c, r.d) == f && Sum(r.a, f, m, t) == sum
    requires RotateLeft(sum, s) == rotated && Add(r.b, rotated) == b
    ensures Steps(WORDS, INITIAL, i + 1) == Regs(r.d, b, r.b, r.c)
  {
    hide Auxiliary, Sum, T, RotateLeft, ShiftAmount, WordIndex, Add, WordAt;
  }

  lemma After8()
    ensures Steps(WORDS, INITIAL, 8) == Regs(0xc73741ef, 0x928d99f6, 0x207dc67b, 0x8bac3051)
  {
    hide Steps;
    NoSteps(WORDS, INITIAL);
    Next(0, Regs(0x67452301, 0xefcdab89, 0x98badcfe, 0x10325476), 0x80636261, 0xd76aa478, 7, 0x98badcfe, 0x57ce06d8, 0xe7036c2b, 0xd6d117b4);
    Next(1, Regs(0x10325476, 0xd6d117b4, 0xefcdab89, 0x98badcfe), 0, 0xe8c7b756, 12, 0xceebcbca, 0xc7e5d796, 0x5d796c7e, 0x344a8432);
    Next(2, Regs(0x98badcfe, 0x344a8432, 0xd6d117b4, 0xefcdab89), 0, 0x242070db, 17, 0xdfc52fb9, 0x9ca07d92, 0xfb253940, 0x2f6fbd72);
    Next(3, Regs(0xefcdab89, 0x2f6fbd72, 0x344a8432, 0xd6d117b4), 0, 0xc1bdceee, 22, 0xf4da86b6, 0xa666012d, 0x4b699980, 0x7ad956f2);
    Next(4, Regs(0xd6d117b4, 0x7ad956f2, 0x2f6fbd72, 0x344a8432), 0, 0xf57c0faf, 7, 0x2e4b9472, 0xfa98bbd5, 0x4c5deafd, 0xc73741ef);
    Next(5, Regs(0x344a8432, 0xc73741ef, 0x7ad956f2, 0x2f6fbd72), 0, 0x4787c62a, 12, 0x6a59fcf2, 0xe62c474e, 0xc474ee62, 0x8bac3051);
    Next(6, Regs(0x2f6fbd72, 0x8bac3051, 0xc73741ef, 0x7ad956f2), 0, 0xa8304613, 17, 0xf37546e3, 0xcb154a68, 0x94d1962a, 0x207dc67b);
    Next(7, Regs(0x7ad956f2, 0x207dc67b, 0x8bac3051, 0xc73741ef), 0, 0xfd469501, 22, 0xc72e01d5, 0x3f4dedc8, 0x720fd37b, 0x928d99f6);
  }

  lemma After16()
    ensures Steps(WORDS, INITIAL, 16) == Regs(0xdda9b9a6, 0x72aff2e0, 0xe396856b, 0xa1051895)
  {
    hide Steps;
    After8();
    Next(8, Regs(0xc73741ef, 0x928d99f6, 0x207dc67b, 0x8bac3051), 0, 0x698098d8, 7, 0x092da073, 0x39e57b3a, 0xf2bd9d1c, 0x854b3712);
    Next(9, Regs(0x8bac3051, 0x854b3712, 0x928d99f6, 0x207dc67b), 0, 0x8b44f7af, 12, 0xa03dd17b, 0xb72ef97b, 0xef97bb72, 0x74e2f284);
    Next(10, Regs(0x207dc67b, 0x74e2f284, 0x854b3712, 0x928d99f6), 0, 0xffff5bb1, 17, 0x864f3b72, 0xa6cc5d9e, 0xbb3d4d98, 0x3020401c);
    Next(11, Regs(0x928d99f6, 0x3020401c, 0x74e2f284, 0x854b3712), 0, 0x895cd7be, 22, 0xb56b7706, 0xd155e8ba, 0x2eb4557a, 0x5ed49596);
    Next(12, Regs(0x854b3712, 0x5ed49596, 0x3020401c, 0x74e2f284), 0, 0x6b901122, 7, 0x30226214, 0x20fdaa48, 0x7ed52410, 0xdda9b9a6);
    Next(13, Regs(0x74e2f284, 0xdda9b9a6, 0x5ed49596, 0x3020401c), 0, 0xfd987193, 12, 0x7c80d19e, 0xeefc35b5, 0xc35b5eef, 0xa1051895);
    Next(14, Regs(0x3020401c, 0xa1051895, 0xdda9b9a6, 0x5ed49596), 0x18, 0xa679438e, 17, 0xdfd19d86, 0xb66b2148, 0x42916cd6, 0xe396856b);
    Next(15, Regs(0x5ed49596, 0xe396856b, 0xa1051895, 0xdda9b9a6), 0, 0x49b40821, 22, 0xbd2d3885, 0x65b5d63c, 0x8f196d75, 0x72aff2e0);
  }

  lemma After24()
    ensures Steps(WORDS, INITIAL, 24) == Regs(0x59a8ffda, 0x47092c07, 0xabfc7920, 0x6d002f1e)
  {
    hide Steps;
    After16();
    Next(16, Regs(0xdda9b9a6, 0x72aff2e0, 0xe396856b, 0xa1051895), 0, 0xf61e2562, 5, 0x629795ea, 0x365f74f2, 0xcbee9e46, 0x3e9e9126);
    Next(17, Regs(0xa1051895, 0x3e9e9126, 0x72aff2e0, 0xe396856b), 0, 0xc040b340, 9, 0x32bff3a2, 0x9405bf77, 0x0b7eef28, 0x4a1d804e);
    Next(18, Regs(0xe396856b, 0x4a1d804e, 0x3e9e9126, 0x72aff2e0), 0, 0x265e5a51, 14, 0x4e1d8146, 0x58126102, 0x98409604, 0xe25e1652);
    Next(19, Regs(0x72aff2e0, 0xe25e1652, 0x4a1d804e, 0x3e9e9126), 0x80636261, 0xe9b6c7aa, 20, 0x621f104a, 0x3ee92d35, 0xd353ee92, 0xb5b204e4);
    Next(20, Regs(0x3e9e9126, 0xb5b204e4, 0xe25e1652, 0x4a1d804e), 0, 0xd62f105d, 5, 0xa0521654, 0xb51fb7d7, 0xa3f6faf6, 0x59a8ffda);
    Next(21, Regs(0x4a1d804e, 0x59a8ffda, 0xb5b204e4, 0xe25e1652), 0, 0x02441453, 9, 0x55a816f6, 0xa209ab97, 0x13572f44, 0x6d002f1e);
    Next(22, Regs(0xe25e1652, 0x6d002f1e, 0x59a8ffda, 0xb5b204e4), 0, 0xd8a1e681, 14, 0x6d08ff1e, 0x2808fbf1, 0x3efc4a02, 0xabfc7920);
    Next(23, Regs(0xb5b204e4, 0xabfc7920, 0x6d002f1e, 0x59a8ffda), 0, 0xe7d3fbc8, 20, 0x2da87904, 0xcb2e79b0, 0x9b0cb2e7, 0x47092c07);
  }

  lemma After32()
    ensures Steps(WORDS, INITIAL, 32) == Regs(0x790a77fb, 0x726342d3, 0xa62884aa, 0x9f47e4f8)
  {
    hide Steps;
    After24();
    Next(24, Regs(0x59a8ffda, 0x47092c07, 0xabfc7920, 0x6d002f1e), 0, 0x21e1cde6, 5, 0xc7fc7c26, 0x438749e6, 0x70e93cc8, 0xb7f268cf);
    Next(25, Regs(0x6d002f1e, 0xb7f268cf, 0x47092c07, 0xabfc7920), 0x18, 0xc33707d6, 9, 0xe7f16c07, 0x1828a313, 0x51462630, 0x09388eff);
    Next(26, Regs(0xabfc7920, 0x09388eff, 0xb7f268cf, 0x47092c07), 0, 0xf4d50d87, 14, 0xb1fa4ccf, 0x52cbd376, 0xf4dd94b2, 0xfe1623b1);
    Next(27, Regs(0x47092c07, 0xfe1623b1, 0x09388eff, 0xb7f268cf), 0, 0x455a14ed, 20, 0xbe1aa6b1, 0x4a7de7a5, 0x7a54a7de, 0x786acb8f);
    Next(28, Regs(0xb7f268cf, 0x786acb8f, 0xfe1623b1, 0x09388eff), 0, 0xa9e3e905, 5, 0xfe2eab8f, 0x6004fd63, 0x009fac6c, 0x790a77fb);
    Next(29, Regs(0x09388eff, 0x790a77fb, 0x786acb8f, 0xfe1623b1), 0, 0xfcefa3f8, 9, 0x786aebbf, 0x7e931eb6, 0x263d6cfd, 0x9f47e4f8);
    Next(30, Regs(0xfe1623b1, 0x9f47e4f8, 0x790a77fb, 0x786acb8f), 0, 0x676f02d9, 14, 0x1942f4f8, 0x7ec81b82, 0x06e09fb2, 0xa62884aa);
    Next(31, Regs(0x786acb8f, 0xa62884aa, 0x9f47e4f8, 0x790a77fb), 0, 0x8d2a4c8a, 20, 0xa64d84aa, 0xabe29cc3, 0xcc3abe29, 0x726342d3);
  }

  lemma After40()
    ensures Steps(WORDS, INITIAL, 40) == Regs(0x21b117b9, 0x5a2f5ea5, 0x3575227e, 0x6e7429d5)
  {
    hide Steps;
    After32();
    Next(32, Regs(0x790a77fb, 0x726342d3, 0xa62884aa, 0x9f47e4f8), 0, 0xfffa3942, 4, 0x4b0c2281, 0xc410d3be, 0x410d3bec, 0xb3707ebf);
    Next(33, Regs(0x9f47e4f8, 0xb3707ebf, 0x726342d3, 0xa62884aa), 0, 0x8771f681, 11, 0x673bb8c6, 0x8df5943f, 0xaca1fc6f, 0x60127b2e);
    Next(34, Regs(0xa62884aa, 0x60127b2e, 0xb3707ebf, 0x726342d3), 0, 0x6d9d6122, 16, 0xa1014742, 0xb4c72d0e, 0x2d0eb4c7, 0x8d212ff5);
    Next(35, Regs(0x726342d3, 0x8d212ff5, 0x60127b2e, 0xb3707ebf), 0x18, 0xfde5380c, 23, 0x5e432a64, 0xce8ba55b, 0xade745d2, 0x3b0875c7);
    Next(36, Regs(0xb3707ebf, 0x3b0875c7, 0x8d212ff5, 0x60127b2e), 0, 0xa4beea44, 4, 0xd63b211c, 0x2e6a8a1f, 0xe6a8a1f2, 0x21b117b9);
    Next(37, Regs(0x60127b2e, 0x21b117b9, 0x3b0875c7, 0x8d212ff5), 0, 0x4bdecfa9, 11, 0x97984d8b, 0x43899862, 0x4cc3121c, 0x6e7429d5);
    Next(38, Regs(0x8d212ff5, 0x6e7429d5, 0x21b117b9, 0x3b0875c7), 0, 0xf6bb4b60, 16, 0x74cd4bab, 0xf8a9c700, 0xc700f8a9, 0x3575227e);
    Next(39, Regs(0x3b0875c7, 0x3575227e, 0x6e7429d5, 0x21b117b9), 0, 0xbebfbc70, 23, 0x7ab01c12, 0x74784e49, 0x24ba3c27, 0x5a2f5ea5);
  }

  lemma After48()
    ensures Steps(WORDS, INITIAL, 48) == Regs(0x7f2e507b, 0x7beb9700, 0x8fae6399, 0x99d9679d)
  {
    hide Steps;
    After40();
    Next(40, Regs(0x21b117b9, 0x5a2f5ea5, 0x3575227e, 0x6e7429d5), 0, 0x289b7ec6, 4, 0x012e550e, 0x4b7aeb8d, 0xb7aeb8d4, 0x11de1779);
    Next(41, Regs(0x6e7429d5, 0x11de1779, 0x5a2f5ea5, 0x3575227e), 0x80636261, 0xeaa127fa, 11, 0x7e846ba2, 0x57fd1fd2, 0xe8fe92bf, 0xfadcaa38);
    Next(42, Regs(0x3575227e, 0xfadcaa38, 0x11de1779, 0x5a2f5ea5), 0, 0xd4ef3085, 16, 0xb12de3e4, 0xbb9236e7, 0x36e7bb92, 0x31c465ca);
    Next(43, Regs(0x5a2f5ea5, 0x31c465ca, 0xfadcaa38, 0x11de1779), 0, 0x04881d05, 23, 0xdac6d88b, 0x397e5435, 0x1a9cbf2a, 0x4c6124f4);
    Next(44, Regs(0x11de1779, 0x4c6124f4, 0x31c465ca, 0xfadcaa38), 0, 0xd9d4d039, 4, 0x8779eb06, 0x732cd2b8, 0x32cd2b87, 0x7f2e507b);
    Next(45, Regs(0xfadcaa38, 0x7f2e507b, 0x4c6124f4, 0x31c465ca), 0, 0xe6db99e5, 11, 0x028b1145, 0xe4435562, 0x1aab1722, 0x99d9679d);
    Next(46, Regs(0x31c465ca, 0x99d9679d, 0x7f2e507b, 0x4c6124f4), 0, 0x1fa27cf8, 16, 0xaa961312, 0xfbfcf5d4, 0xf5d4fbfc, 0x8fae6399);
    Next(47, Regs(0x4c6124f4, 0x8fae6399, 0x99d9679d, 0x7f2e507b), 0, 0xc4ac5665, 23, 0x6959547f, 0x7a66cfd8, 0xec3d3367, 0x7beb9700);
  }

  lemma After56()
    ensures Steps(WORDS, INITIAL, 56) == Regs(0x06cc5e8a, 0x3bfa2c27, 0x7d632dd0, 0x5b0d97aa)
  {
    hide Steps;
    After48();
    Next(48, Regs(0x7f2e507b, 0x7beb9700, 0x8fae6399, 0x99d9679d), 0x80636261, 0xf4292244, 6, 0xf041fcfb, 0xe3fcd21b, 0xff3486f8, 0x7b201df8);
    Next(49, Regs(0x99d9679d, 0x7b201df8, 0x7beb9700, 0x8fae6399), 0, 0x432aff97, 10, 0x009a0afe, 0xdd9e7232, 0x79c8cb76, 0xf4e8e96e);
    Next(50, Regs(0x8fae6399, 0xf4e8e96e, 0x7b201df8, 0x7beb9700), 0x18, 0xab9423a7, 15, 0x8fdcf407, 0xcb1f7b5f, 0xbdafe58f, 0xb298cefd);
    Next(51, Regs(0x7beb9700, 0xb298cefd, 0xf4e8e96e, 0x7b201df8), 0, 0xfc93a039, 21, 0x42370791, 0xbab63eca, 0xd95756c7, 0x8bf025c4);
    Next(52, Regs(0x7b201df8, 0x8bf025c4, 0xb298cefd, 0xf4e8e96e), 0, 0x655b59c3, 6, 0x396ff928, 0x19eb70e3, 0x7adc38c6, 0x06cc5e8a);
    Next(53, Regs(0xf4e8e96e, 0x06cc5e8a, 0x8bf025c4, 0xb298cefd), 0, 0x8f0ccc92, 10, 0xc41f5a4e, 0x4815104e, 0x54413920, 0x5b0d97aa);
    Next(54, Regs(0xb298cefd, 0x5b0d97aa, 0x06cc5e8a, 0x8bf025c4), 0, 0xffeff47d, 15, 0x79c38131, 0x2c4c44ab, 0x22559626, 0x7d632dd0);
    Next(55, Regs(0x8bf025c4, 0x7d632dd0, 0x5b0d97aa, 0x06cc5e8a), 0, 0x85845dd1, 21, 0xa67e3a5f, 0xb7f2bdf4, 0xbe96fe57, 0x3bfa2c27);
  }

  lemma After64()
    ensures Steps(WORDS, INITIAL, 64) == Regs(0x310ade8f, 0xc08226b3, 0xe484b9d8, 0x624d8cb2)
  {
    hide Steps;
    After56();
    Next(56, Regs(0x06cc5e8a, 0x3bfa2c27, 0x7d632dd0, 0x5b0d97aa), 0, 0x6fa87e4f, 6, 0xc29941a7, 0x390e1e80, 0x4387a00e, 0x7f81cc35);
    Next(57, Regs(0x5b0d97aa, 0x7f81cc35, 0x3bfa2c27, 0x7d632dd0), 0, 0xfe2ce6e0, 10, 0xc467f218, 0x1da270a2, 0x89c28876, 0x094454ab);
    Next(58, Regs(0x7d632dd0, 0x094454ab, 0x7f81cc35, 0x3bfa2c27), 0, 0xa3014314, 15, 0xb2c41bce, 0xd3288cb2, 0x46596994, 0x4f9dbe3f);
    Next(59, Regs(0x3bfa2c27, 0x4f9dbe3f, 0x094454ab, 0x7f81cc35), 0, 0x4e0811a1, 21, 0xc6bbeb54, 0x50be291c, 0x238a17c5, 0x7327d604);
    Next(60, Regs(0x7f81cc35, 0x7327d604, 0x4f9dbe3f, 0x094454ab), 0, 0xf7537e82, 6, 0xb822416b, 0x2ef78c22, 0xbde3088b, 0x310ade8f);
    Next(61, Regs(0x094454ab, 0x310ade8f, 0x7327d604, 0x4f9dbe3f), 0, 0xbd3af235, 10, 0xc24d09cb, 0x88cc50ab, 0x3142ae23, 0x624d8cb2);
    Next(62, Regs(0x4f9dbe3f, 0x624d8cb2, 0x310ade8f, 0x7327d604), 0, 0x2ad7d2bb, 15, 0xdfd77374, 0x5a4d046e, 0x82372d26, 0xe484b9d8);
    Next(63, Regs(0x7327d604, 0xe484b9d8, 0x624d8cb2, 0x310ade8f), 0, 0xeb86d391, 21, 0x8cb8354a, 0xeb66dedf, 0xdbfd6cdb, 0xc08226b3);
  }

  const ABC: seq<byte> := [0x61, 0x62, 0x63]

  lemma PaddedAbc()
    ensures Padded(ABC) == ABC + [0x80] + Zeros(52) + [24, 0, 0, 0, 0, 0, 0, 0]
  {
    LittleEndianShifts(24);
  }

  lemma WordsOfAbc()
    ensures LoadWords(Padded(ABC)) == WORDS
  {
    hide LoadWord;
    PaddedAbc();
    var p := Padded(ABC);
    forall k | 0 <= k < 16
      ensures LoadWord(p[4 * k..4 * k + 4]) == WordAt(k)
    {
      if k == 0 {
        assert p[0..4] == [0x61, 0x62, 0x63, 0x80];
      } else if k == 14 {
        assert p[56..60] == [24, 0, 0, 0];
      } else {
        assert p[4 * k..4 * k + 4] == [0, 0, 0, 0];
      }
      LoadedWords();
    }
  }

  lemma LoadedWords()
    ensures LoadWord([0x61, 0x62, 0x63, 0x80]) == 0x80636261
    ensures LoadWord([24, 0, 0, 0]) == 0x18 && LoadWord([0, 0, 0, 0]) == 0
  {
  }

  lemma ChainOfAbc()
    ensures Chain(Padded(ABC)) == Regs(0x98500190, 0xb04fd23c, 0x7d3f96d6, 0x727fe128)
  {
    hide Steps, LoadWords, Padded;
    After64();
    WordsOfAbc();
    PaddedAbc();
    var p := Padded(ABC);
    assert p[..0] == [] && p[0..] == p;
  }

  lemma DigestOfAbc()
    ensures Digest(ABC) == [0x90, 0x01, 0x50, 0x98, 0x3c, 0xd2, 0x4f, 0xb0, 0xd6, 0x96, 0x3f, 0x7d, 0x28, 0xe1, 0x7f, 0x72]
  {
    hide Chain, Padded;
    ChainOfAbc();
  }

  lemma HexOfWord(w: byte, x: byte, y: byte, z: byte)
    ensures Hex([w, x, y, z]) == [HexDigit(w / 16), HexDigit(w % 16), HexDigit(x / 16), HexDigit(x % 16),
                                  HexDigit(y / 16), HexDigit(y % 16), HexDigit(z / 16), HexDigit(z % 16)]
  {
    hide HexDigit, Hex;
    HexOfByte(w);
    HexOfByte(x);
    HexOfByte(y);
    HexOfByte(z);
    HexConcat([w], [x]);
    HexConcat([w, x], [y]);
    HexConcat([w, x, y], [z]);
    assert [w] + [x] == [w, x] && [w, x] + [y] == [w, x, y] && [w, x, y] + [z] == [w, x, y, z];
  }

  lemma HexOfByte(b: byte)
    ensures Hex([b]) == [HexDigit(b / 16), HexDigit(b % 16)]
  {
    hide HexDigit;
    assert Hex([b][..0]) == "";
  }

  lemma HexOfWords()
    ensures Hex([0x90, 0x01, 0x50, 0x98]) == "90015098" && Hex([0x3c, 0xd2, 0x4f, 0xb0]) == "3cd24fb0"
    ensures Hex([0xd6, 0x96, 0x3f, 0x7d]) == "d6963f7d" && Hex([0x28, 0xe1, 0x7f, 0x72]) == "28e17f72"
  {
    hide Hex;
    HexOfWord(0x90, 0x01, 0x50, 0x98);
    HexOfWord(0x3c, 0xd2, 0x4f, 0xb0);
    HexOfWord(0xd6, 0x96, 0x3f, 0x7d);
    HexOfWord(0x28, 0xe1, 0x7f, 0x72);
  }

  /** The hash of the text, as the header fields write it. */
  lemma HashOfAbc()
    ensures DigestFormulas.H("abc") == "90015098" + "3cd24fb0" + "d6963f7d" + "28e17f72"
  {
    hide Digest, Hex;
    DigestOfAbc();
    assert Octets("abc") == ABC;
    HexOfWords();
    var a, b, c, d: seq<byte> := [0x90, 0x01, 0x50, 0x98], [0x3c, 0xd2, 0x4f, 0xb0], [0xd6, 0x96, 0x3f, 0x7d], [0x28, 0xe1, 0x7f, 0x72];
    assert Digest(ABC) == a + b + c + d;
    HexConcat(a, b);
    HexConcat(a + b, c);
    HexConcat(a + b + c, d);
  }
}
