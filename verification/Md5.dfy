/** Streaming MD5: `MD5Init`, `MD5Update`, `MD5Pad` and `MD5Final` of md5.c.

    The context absorbs a message in pieces of any size.  The specification is the
    one-shot function `Digest`: pad the whole message as sections 3.1 to 3.3 of
    RFC 1321 say, fold the block function over it, and write the registers out. */
module Md5 {
  import opened CStrings
  import opened Md5Block

  const BLOCK: nat := 64
  const DIGEST: nat := 16

  // ------------------------------------------------------------------ one-shot MD5

  const INITIAL: Regs := Regs(0x67452301, 0xefcdab89, 0x98badcfe, 0x10325476)

  function Zeros(n: nat): (z: seq<byte>)
    ensures |z| == n
  {
    seq(n, _ => 0)
  }

  /** The k low-order bytes of a number, lowest first. */
  function LittleEndian(n: nat, k: nat): (b: seq<byte>)
    ensures |b| == k
  {
    if k == 0 then [] else [n % 256] + LittleEndian(n / 256, k - 1)
  }

  /** How many zero bytes bring a message of length n, followed by one byte, to
      56 modulo 64. */
  function ZeroFill(n: nat): (z: nat)
    ensures z < BLOCK && (n + 1 + z) % BLOCK == 56
    ensures (n + 1 + z + 8) % BLOCK == 0
  {
    (55 - n) % BLOCK
  }

  function Padded(m: seq<byte>): (p: seq<byte>)
    ensures |p| % BLOCK == 0
  {
    var z := ZeroFill(|m|);
    m + [0x80] + Zeros(z) + LittleEndian(8 * |m| % UINT64_LIMIT, 8)
  }

  function Chain(m: seq<byte>): Regs
    requires |m| % BLOCK == 0
  {
    if m == [] then INITIAL else Compress(Chain(m[..|m| - BLOCK]), m[|m| - BLOCK..])
  }

  function StoreRegs(r: Regs): (d: seq<byte>)
    ensures |d| == DIGEST
  {
    StoreWord(r.a) + StoreWord(r.b) + StoreWord(r.c) + StoreWord(r.d)
  }

  function Digest(m: seq<byte>): (d: seq<byte>)
    ensures |d| == DIGEST
  {
    StoreRegs(Chain(Padded(m)))
  }

  // ------------------------------------------------------------------ properties of the padding

  function Pow256(k: nat): nat {
    if k == 0 then 1 else 256 * Pow256(k - 1)
  }

  lemma {:induction false} LittleEndianIsInjective(m: nat, n: nat, k: nat)
    requires m < Pow256(k) && n < Pow256(k)
    requires LittleEndian(m, k) == LittleEndian(n, k)
    ensures m == n
  {
    if k == 0 {
    } else {
      var a, b := LittleEndian(m, k), LittleEndian(n, k);
      assert m % 256 == a[0] == b[0] == n % 256;
      assert a[1..] == LittleEndian(m / 256, k - 1) && b[1..] == LittleEndian(n / 256, k - 1);
      LittleEndianIsInjective(m / 256, n / 256, k - 1);
    }
  }

  lemma TimesGrows(d: nat, a: nat, b: nat)
    requires a <= b
    ensures d * a <= d * b
  {
  }

  lemma QuotientIs(n: nat, d: nat, q: nat, r: nat)
    requires n == d * q + r && r < d
    ensures n / d == q
  {
    var f := n / d;
    assert n == d * f + n % d;
    assert d * (f + 1) == d * f + d && d * (q + 1) == d * q + d;
    if q < f {
      TimesGrows(d, q + 1, f);
    } else if f < q {
      TimesGrows(d, f + 1, q);
    }
  }

  lemma QuotientOfQuotient(n: nat, p: nat)
    requires 0 < p
    ensures n / (256 * p) == n / 256 / p
  {
    var m := n / 256;
    var q, r := m / p, m % p;
    assert m == p * q + r;
    assert (256 * p) * q == 256 * (p * q);
    QuotientIs(n, 256 * p, q, 256 * r + n % 256);
  }

  lemma Pow256IsPositive(k: nat)
    ensures 0 < Pow256(k)
  {
  }

  /** Byte i counts the multiples of 256 to the power i. */
  lemma {:induction false} LittleEndianAt(n: nat, k: nat, i: nat)
    requires i < k
    ensures 0 < Pow256(i) && LittleEndian(n, k)[i] == n / Pow256(i) % 256
  {
    Pow256IsPositive(i);
    if i == 0 {
    } else {
      LittleEndianAt(n / 256, k - 1, i - 1);
      QuotientOfQuotient(n, Pow256(i - 1));
    }
  }

  /** Distinct messages shorter than 2^61 bytes are padded to distinct block
      sequences: the padding loses nothing. */
  lemma PaddingIsInjective(m: seq<byte>, n: seq<byte>)
    requires 8 * |m| < UINT64_LIMIT && 8 * |n| < UINT64_LIMIT
    requires Padded(m) == Padded(n)
    ensures m == n
  {
    hide Padded, LittleEndian, ZeroFill;
    assert Pow256(8) == UINT64_LIMIT;
    PaddingShows(m);
    PaddingShows(n);
    LittleEndianIsInjective(8 * |m|, 8 * |n|, 8);
  }

  /** The message and its length stand at the two ends. */
  lemma PaddingShows(m: seq<byte>)
    requires 8 * |m| < UINT64_LIMIT
    ensures var p := Padded(m); |m| + 8 <= |p| && p[..|m|] == m && p[|p| - 8..] == LittleEndian(8 * |m|, 8)
  {
    hide LittleEndian, ZeroFill;
  }

  // ------------------------------------------------------------------ the context

  lemma RemainderIs(x: nat, q: nat, r: nat)
    requires x == UINT64_LIMIT * q + r && r < UINT64_LIMIT
    ensures x % UINT64_LIMIT == r
  {
  }

  lemma OffsetIs(x: nat, q: nat, r: nat)
    requires x == BLOCK * q + r && r < BLOCK
    ensures x % BLOCK == r
  {
  }

  /** The bit count wraps at 2^64, the offset in the block survives it. */
  lemma CountGivesOffset(n: nat)
    ensures 8 * n % UINT64_LIMIT / 8 % BLOCK == n % BLOCK
  {
    var q, r := n / 0x2000_0000_0000_0000, n % 0x2000_0000_0000_0000;
    RemainderIs(8 * n, q, 8 * r);
    OffsetIs(n, 0x80_0000_0000_0000 * q + r / BLOCK, r % BLOCK);
  }

  lemma CountAdds(n: nat, len: nat)
    ensures (8 * n % UINT64_LIMIT + len * 8 % UINT64_LIMIT) % UINT64_LIMIT == 8 * (n + len) % UINT64_LIMIT
  {
    var a, b := 8 * n, len * 8;
    var q, s := a / UINT64_LIMIT + b / UINT64_LIMIT, a % UINT64_LIMIT + b % UINT64_LIMIT;
    assert a + b == UINT64_LIMIT * q + s;
    if s < UINT64_LIMIT {
      RemainderIs(a + b, q, s);
    } else {
      RemainderIs(a + b, q + 1, s - UINT64_LIMIT);
    }
  }

  /** The part of a message that fills whole blocks. */
  function Whole(m: seq<byte>): (w: seq<byte>)
    ensures |w| % BLOCK == 0
  {
    m[..|m| - |m| % BLOCK]
  }

  function Tail(m: seq<byte>): (t: seq<byte>)
    ensures |t| == |m| % BLOCK
  {
    m[|m| - |m| % BLOCK..]
  }

  lemma AnotherBlock(n: nat)
    requires n % BLOCK == 0
    ensures (n + BLOCK) % BLOCK == 0
  {
  }

  lemma ChainOneBlock(m: seq<byte>, block: seq<byte>)
    requires |m| % BLOCK == 0 && |block| == BLOCK
    ensures Chain(m + block) == Compress(Chain(m), block)
  {
    hide Compress;
    var mb := m + block;
    assert mb[..|mb| - BLOCK] == m;
    assert mb[|mb| - BLOCK..] == block;
  }

  /** A piece too short to fill the buffer only extends the tail. */
  lemma PieceFits(m: seq<byte>, piece: seq<byte>)
    requires |piece| < BLOCK - |m| % BLOCK
    ensures Whole(m + piece) == Whole(m) && Tail(m + piece) == Tail(m) + piece
  {
    assert |m + piece| % BLOCK == |m| % BLOCK + |piece|;
    assert |m + piece| - |m + piece| % BLOCK == |m| - |m| % BLOCK;
  }

  /** The first bytes of a piece that complete the buffered block. */
  lemma PieceCompletes(m: seq<byte>, first: seq<byte>)
    requires |first| == BLOCK - |m| % BLOCK
    ensures |m + first| % BLOCK == 0
    ensures Chain(m + first) == Compress(Chain(Whole(m)), Tail(m) + first)
  {
    hide Compress, Chain;
    ChainOneBlock(Whole(m), Tail(m) + first);
    assert Whole(m) + (Tail(m) + first) == m + first;
  }

  lemma AllWhole(m: seq<byte>)
    requires |m| % BLOCK == 0
    ensures Whole(m) == m && Tail(m) == []
  {
  }

  /** What is left of a piece once whole blocks are gone becomes the tail. */
  lemma PieceLeaves(m: seq<byte>, piece: seq<byte>, pos: nat)
    requires pos <= |piece| < pos + BLOCK && (|m| + pos) % BLOCK == 0
    ensures Whole(m + piece) == m + piece[..pos] && Tail(m + piece) == piece[pos..]
  {
    assert |m + piece| % BLOCK == |piece| - pos;
  }

  /** `struct MD5Context`; `message` is what has been absorbed since MD5Init. */
  class Context {
    const state: array<word>
    var count: nat
    const buffer: array<byte>
    ghost var message: seq<byte>

    ghost predicate Shaped() {
      state.Length == 4 && buffer.Length == BLOCK && state as object != buffer as object
    }

    ghost predicate Valid()
      reads this, state, buffer
    {
      && Shaped()
      && count == 8 * |message| % UINT64_LIMIT
      && Registers(state) == Chain(Whole(message))
      && buffer[..|message| % BLOCK] == Tail(message)
    }

    constructor ()
      ensures Shaped() && fresh(state) && fresh(buffer)
    {
      state := new word[4];
      count := 0;
      buffer := new byte[BLOCK];
      message := [];
    }

    method MD5Init()
      requires Shaped()
      modifies this, state
      ensures Valid() && message == []
    {
      count := 0;
      state[0], state[1], state[2], state[3] := 0x67452301, 0xefcdab89, 0x98badcfe, 0x10325476;
      message := [];
    }

    /** memcpy (buffer + at, data, |data|). */
    static method Copy(buffer: array<byte>, at: nat, data: seq<byte>)
      requires at + |data| <= buffer.Length
      modifies buffer
      ensures buffer[..] == old(buffer[..at]) + data + old(buffer[at + |data|..])
    {
      forall i | 0 <= i < |data| { buffer[at + i] := data[i]; }
    }

    /** The blocks that lie wholly in the input from pos on; m came before the input. */
    static method WholeBlocks(state: array<word>, input: seq<byte>, start: nat, ghost m: seq<byte>) returns (pos: nat)
      requires state.Length == 4 && start <= |input| && (|m| + start) % BLOCK == 0
      requires Registers(state) == Chain(m + input[..start])
      modifies state
      ensures start <= pos <= |input| < pos + BLOCK && (|m| + pos) % BLOCK == 0
      ensures Registers(state) == Chain(m + input[..pos])
    {
      hide Chain;
      pos := start;
      while BLOCK <= |input| - pos
        invariant start <= pos <= |input| && (|m| + pos) % BLOCK == 0
        invariant Registers(state) == Chain(m + input[..pos])
      {
        AnotherBlock(|m| + pos);
        ChainOneBlock(m + input[..pos], input[pos..pos + BLOCK]);
        MD5Transform(state, input[pos..pos + BLOCK]);
        assert m + input[..pos] + input[pos..pos + BLOCK] == m + input[..pos + BLOCK];
        pos := pos + BLOCK;
      }
    }

    method MD5Update(input: seq<byte>)
      requires Valid()
      modifies this, state, buffer
      ensures Valid() && message == old(message) + input
    {
      hide Compress, Chain, Whole, Tail;
      ghost var m := message;
      CountGivesOffset(|m|);
      CountAdds(|m|, |input|);
      var have := count / 8 % BLOCK;
      var need := BLOCK - have;
      count := (count + |input| * 8 % UINT64_LIMIT) % UINT64_LIMIT;
      message := m + input;
      assert count == 8 * |message| % UINT64_LIMIT;
      var pos := 0;
      if need <= |input| {
        if have != 0 {
          PieceCompletes(m, input[..need]);
          Copy(buffer, have, input[..need]);
          assert buffer[..] == Tail(m) + input[..need];
          MD5Transform(state, buffer[..]);
          pos := need;
          have := 0;
        } else {
          AllWhole(m);
          assert m + input[..0] == m;
        }
        assert (|m| + pos) % BLOCK == 0;
        pos := WholeBlocks(state, input, pos, m);
        PieceLeaves(m, input, pos);
      } else {
        PieceFits(m, input);
      }
      assert Registers(state) == Chain(Whole(message));
      if pos != |input| {
        Copy(buffer, have, input[pos..]);
      }
    }

    /** Between 1 and 64 bytes of padding and the eight bytes of the bit count. */
    method MD5Pad() returns (padlen: nat)
      requires Valid()
      modifies this, state, buffer
      ensures Valid() && message == Padded(old(message))
      ensures 1 <= padlen - 8 <= BLOCK
    {
      hide Compress, Chain, Whole, Tail, LittleEndian, Padded, LittleEndianBytes;
      ghost var m := message;
      CountGivesOffset(|m|);
      var bits := LittleEndianBytes(count);
      padlen := BLOCK - count / 8 % BLOCK;
      if padlen < 1 + 8 {
        padlen := padlen + BLOCK;
      }
      PaddedInTwoPieces(m, padlen);
      MD5Update(PADDING[..padlen - 8]);
      MD5Update(bits);
    }

    /** The digest of everything absorbed; the context is wiped. */
    method MD5Final(digest: array<byte>)
      requires Valid() && digest.Length == DIGEST && digest != buffer
      modifies this, state, buffer, digest
      ensures digest[..] == Digest(old(message))
      ensures count == 0 && state[..] == [0, 0, 0, 0] && buffer[..] == Zeros(BLOCK)
    {
      hide Compress, Chain, StoreRegs, Padded;
      var padlen := MD5Pad();
      AllWhole(message);
      for i := 0 to 4
        modifies digest
        invariant digest[..4 * i] == StoreRegs(Registers(state))[..4 * i]
      {
        PutWord(digest, 4 * i, state[i]);
        StoreRegsAt(state, i);
        assert StoreRegs(Registers(state))[..4 * i + 4]
            == StoreRegs(Registers(state))[..4 * i] + StoreRegs(Registers(state))[4 * i..4 * i + 4];
      }
      assert digest[..] == digest[..4 * 4];
      Wipe();
    }

    /** memset (ctx, 0, sizeof (*ctx)). */
    method Wipe()
      requires Shaped()
      modifies this, state, buffer
      ensures count == 0 && state[..] == [0, 0, 0, 0] && buffer[..] == Zeros(BLOCK)
    {
      count := 0;
      forall i | 0 <= i < 4 { state[i] := 0; }
      forall i | 0 <= i < BLOCK { buffer[i] := 0; }
    }
  }

  /** PUT_32BIT_LE. */
  method PutWord(cp: array<byte>, at: nat, value: word)
    requires at + 4 <= cp.Length
    modifies cp
    ensures cp[..at + 4] == old(cp[..at]) + StoreWord(value)
    ensures cp[at + 4..] == old(cp[at + 4..])
  {
    cp[at + 3] := LowByte(Right(value, 24));
    cp[at + 2] := LowByte(Right(value, 16));
    cp[at + 1] := LowByte(Right(value, 8));
    cp[at] := LowByte(value);
  }

  lemma StoreRegsAt(state: array<word>, i: nat)
    requires state.Length == 4 && i < 4
    ensures StoreRegs(Registers(state))[4 * i..4 * i + 4] == StoreWord(state[i])
  {
    hide StoreWord;
  }

  /** PUT_64BIT_LE, a shift being a division by a power of two. */
  function LittleEndianBytes(value: nat): seq<byte> {
    [value % 256, value / 0x100 % 256, value / 0x1_0000 % 256, value / 0x100_0000 % 256,
     value / 0x1_0000_0000 % 256, value / 0x100_0000_0000 % 256, value / 0x1_0000_0000_0000 % 256,
     value / 0x100_0000_0000_0000 % 256]
  }

  const PADDING: seq<byte> := [0x80] + Zeros(BLOCK - 1)

  lemma LittleEndianShifts(n: nat)
    ensures LittleEndianBytes(n) == LittleEndian(n, 8)
  {
    var a := n / 256;
    var b := a / 256;
    var c := b / 256;
    var d := c / 256;
    var e := d / 256;
    var f := e / 256;
    var g := f / 256;
    assert b == n / 0x1_0000 && c == n / 0x100_0000 && d == n / 0x1_0000_0000;
    assert e == n / 0x100_0000_0000 && f == n / 0x1_0000_0000_0000 && g == n / 0x100_0000_0000_0000;
    assert LittleEndian(g, 1) == [g % 256];
    assert LittleEndian(f, 2) == [f % 256, g % 256];
    assert LittleEndian(e, 3) == [e % 256, f % 256, g % 256];
    assert LittleEndian(d, 4) == [d % 256, e % 256, f % 256, g % 256];
    assert LittleEndian(c, 5) == [c % 256, d % 256, e % 256, f % 256, g % 256];
    assert LittleEndian(b, 6) == [b % 256, c % 256, d % 256, e % 256, f % 256, g % 256];
    assert LittleEndian(a, 7) == [a % 256, b % 256, c % 256, d % 256, e % 256, f % 256, g % 256];
  }

  /** The two pieces that MD5Pad absorbs, for the padding length it computes. */
  lemma PaddedInTwoPieces(m: seq<byte>, padlen: nat)
    requires var p := BLOCK - |m| % BLOCK; padlen == if p < 1 + 8 then p + BLOCK else p
    ensures 1 <= padlen - 8 <= BLOCK
    ensures m + PADDING[..padlen - 8] + LittleEndianBytes(8 * |m| % UINT64_LIMIT) == Padded(m)
  {
    hide LittleEndian, LittleEndianBytes;
    LittleEndianShifts(8 * |m| % UINT64_LIMIT);
    var z := ZeroFill(|m|);
    OffsetIs(|m|, |m| / BLOCK, |m| % BLOCK);
    assert padlen - 8 == 1 + z;
    assert PADDING[..1 + z] == [0x80] + Zeros(z);
  }

  function Flatten(pieces: seq<seq<byte>>): seq<byte> {
    if pieces == [] then [] else Flatten(pieces[..|pieces| - 1]) + pieces[|pieces| - 1]
  }

  /** Any way of cutting a message into MD5Update calls gives its digest. */
  method HashPieces(pieces: seq<seq<byte>>) returns (d: seq<byte>)
    ensures d == Digest(Flatten(pieces))
  {
    var md5 := new Context();
    md5.MD5Init();
    for i := 0 to |pieces|
      invariant md5.Valid() && fresh(md5) && fresh(md5.state) && fresh(md5.buffer)
      invariant md5.message == Flatten(pieces[..i])
    {
      md5.MD5Update(pieces[i]);
      assert pieces[..i + 1][..i] == pieces[..i];
    }
    assert pieces[..|pieces|] == pieces;
    var digest := new byte[DIGEST];
    md5.MD5Final(digest);
    d := digest[..];
  }
}
