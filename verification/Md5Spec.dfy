// MD5 as RFC 1321 defines it: bytes and words (section 2), padding and length (3.1, 3.2), the chaining value (3.3),
// the 64 steps of a block (3.4) and the digest (3.5).

module Md5Spec {
  import opened Bytes

  const TWO_TO_32: nat := 0x1_0000_0000

  type Word = w: int | 0 <= w < 0x1_0000_0000

  /** The chaining value, and the working registers within a block. */
  datatype Quad = Quad(a: Word, b: Word, c: Word, d: Word)

  // ---------- the auxiliary functions of section 3.4 ----------

  function Add(x: Word, y: Word): Word {
    (x + y) % TWO_TO_32
  }

  function F(x: Word, y: Word, z: Word): Word {
    ((x as bv32 & y as bv32) | (!(x as bv32) & z as bv32)) as int
  }

  function G(x: Word, y: Word, z: Word): Word {
    ((x as bv32 & z as bv32) | (y as bv32 & !(z as bv32))) as int
  }

  function H(x: Word, y: Word, z: Word): Word {
    (x as bv32 ^ y as bv32 ^ z as bv32) as int
  }

  function I(x: Word, y: Word, z: Word): Word {
    (y as bv32 ^ (x as bv32 | !(z as bv32))) as int
  }

  function RotateLeft(w: Word, n: nat): Word
    requires n <= 32
  {
    ((w as bv32 << n) | (w as bv32 >> (32 - n))) as int
  }

  /** T[i + 1] of the RFC: the integer part of 4294967296 times abs(sin(i + 1)). */
  function T(i: nat): Word
    requires i < 64
  {
    match i
    case 0 => 0xd76aa478
    case 1 => 0xe8c7b756
    case 2 => 0x242070db
    case 3 => 0xc1bdceee
    case 4 => 0xf57c0faf
    case 5 => 0x4787c62a
    case 6 => 0xa8304613
    case 7 => 0xfd469501
    case 8 => 0x698098d8
    case 9 => 0x8b44f7af
    case 10 => 0xffff5bb1
    case 11 => 0x895cd7be
    case 12 => 0x6b901122
    case 13 => 0xfd987193
    case 14 => 0xa679438e
    case 15 => 0x49b40821
    case 16 => 0xf61e2562
    case 17 => 0xc040b340
    case 18 => 0x265e5a51
    case 19 => 0xe9b6c7aa
    case 20 => 0xd62f105d
    case 21 => 0x02441453
    case 22 => 0xd8a1e681
    case 23 => 0xe7d3fbc8
    case 24 => 0x21e1cde6
    case 25 => 0xc33707d6
    case 26 => 0xf4d50d87
    case 27 => 0x455a14ed
    case 28 => 0xa9e3e905
    case 29 => 0xfcefa3f8
    case 30 => 0x676f02d9
    case 31 => 0x8d2a4c8a
    case 32 => 0xfffa3942
    case 33 => 0x8771f681
    case 34 => 0x6d9d6122
    case 35 => 0xfde5380c
    case 36 => 0xa4beea44
    case 37 => 0x4bdecfa9
    case 38 => 0xf6bb4b60
    case 39 => 0xbebfbc70
    case 40 => 0x289b7ec6
    case 41 => 0xeaa127fa
    case 42 => 0xd4ef3085
    case 43 => 0x04881d05
    case 44 => 0xd9d4d039
    case 45 => 0xe6db99e5
    case 46 => 0x1fa27cf8
    case 47 => 0xc4ac5665
    case 48 => 0xf4292244
    case 49 => 0x432aff97
    case 50 => 0xab9423a7
    case 51 => 0xfc93a039
    case 52 => 0x655b59c3
    case 53 => 0x8f0ccc92
    case 54 => 0xffeff47d
    case 55 => 0x85845dd1
    case 56 => 0x6fa87e4f
    case 57 => 0xfe2ce6e0
    case 58 => 0xa3014314
    case 59 => 0x4e0811a1
    case 60 => 0xf7537e82
    case 61 => 0xbd3af235
    case 62 => 0x2ad7d2bb
    case 63 => 0xeb86d391
  }

  /** Which of the block's 16 words step i reads. */
  function WordIndex(i: nat): (k: nat)
    ensures k < 16
  {
    if i < 16 then i % 16
    else if i < 32 then (5 * i + 1) % 16
    else if i < 48 then (3 * i + 5) % 16
    else 7 * i % 16
  }

  function Shift(i: nat): (n: nat)
    ensures n <= 32
  {
    if i < 16 then [7, 12, 17, 22][i % 4]
    else if i < 32 then [5, 9, 14, 20][i % 4]
    else if i < 48 then [4, 11, 16, 23][i % 4]
    else [6, 10, 15, 21][i % 4]
  }

  function Auxiliary(i: nat, x: Word, y: Word, z: Word): Word {
    if i < 16 then F(x, y, z) else if i < 32 then G(x, y, z) else if i < 48 then H(x, y, z) else I(x, y, z)
  }

  /** Step i in rotating registers: every step updates a and passes the registers on. */
  function Step(i: nat, q: Quad, x: seq<Word>): Quad
    requires i < 64 && |x| == 16
  {
    var sum := (q.a + Auxiliary(i, q.b, q.c, q.d) + x[WordIndex(i)] + T(i)) % TWO_TO_32;
    Quad(q.d, Add(q.b, RotateLeft(sum, Shift(i))), q.b, q.c)
  }

  /** The registers after the first n steps. */
  function Steps(n: nat, q: Quad, x: seq<Word>): Quad
    requires n <= 64 && |x| == 16
  {
    if n == 0 then q else Step(n - 1, Steps(n - 1, q, x), x)
  }

  function BlockWords(block: seq<Byte>): (x: seq<Word>)
    requires |block| == 64
    ensures |x| == 16
  {
    seq(16, i requires 0 <= i < 16 => WordOf(block[4 * i..4 * i + 4]))
  }

  function WordOf(s: seq<Byte>): Word
    requires |s| == 4
  {
    ValueOfFour(s);
    Value(s)
  }

  function AddQuads(p: Quad, q: Quad): Quad {
    Quad(Add(p.a, q.a), Add(p.b, q.b), Add(p.c, q.c), Add(p.d, q.d))
  }

  function Compress(q: Quad, block: seq<Byte>): Quad
    requires |block| == 64
  {
    AddQuads(q, Steps(64, q, BlockWords(block)))
  }

  // ---------- the message ----------

  const INITIAL := Quad(0x67452301, 0xefcdab89, 0x98badcfe, 0x10325476)

  /** The chaining value after the whole blocks of s; what is left over does not count. */
  function Chain(q: Quad, s: seq<Byte>): Quad
    decreases |s|
  {
    if |s| < 64 then q else Chain(Compress(q, s[..64]), s[64..])
  }

  lemma {:induction false} ChainAppend(q: Quad, s: seq<Byte>, t: seq<Byte>)
    requires |s| % 64 == 0
    ensures Chain(q, s + t) == Chain(Chain(q, s), t)
    decreases |s|
  {
    hide Compress;
    if |s| == 0 {
      assert s + t == t;
    } else {
      assert (s + t)[..64] == s[..64] && (s + t)[64..] == s[64..] + t;
      ChainAppend(Compress(q, s[..64]), s[64..], t);
    }
  }

  lemma ChainBlock(q: Quad, s: seq<Byte>, block: seq<Byte>)
    requires |s| % 64 == 0 && |block| == 64
    ensures Chain(q, s + block) == Compress(Chain(q, s), block)
  {
    hide Compress;
    ChainAppend(q, s, block);
    assert block[..64] == block && |block[64..]| == 0;
  }

  function Zeros(n: nat): (s: seq<Byte>)
    ensures |s| == n && forall i :: 0 <= i < n ==> s[i] == 0
  {
    seq(n, i => 0)
  }

  /** Sections 3.1 and 3.2: a 1 bit, zeros up to 56 bytes modulo 64, the bit length as two words. */
  function Padded(m: seq<Byte>): (s: seq<Byte>)
    ensures |s| % 64 == 0 && m <= s
  {
    m + [0x80] + Zeros((55 - |m|) % 64) + LittleEndian(8 * |m|, 8)
  }

  function QuadBytes(q: Quad): (s: seq<Byte>)
    ensures |s| == 16
  {
    LittleEndian(q.a, 4) + LittleEndian(q.b, 4) + LittleEndian(q.c, 4) + LittleEndian(q.d, 4)
  }

  function Digest(m: seq<Byte>): (d: seq<Byte>)
    ensures |d| == 16
  {
    QuadBytes(Chain(INITIAL, Padded(m)))
  }

  /** The padded message determines the message, as section 3.2 needs: no two messages shorter than 2^61 bytes pad
      to the same blocks. */
  lemma PaddingIsInjective(m: seq<Byte>, n: seq<Byte>)
    requires Padded(m) == Padded(n) && |m| < 0x2000_0000_0000_0000 && |n| < 0x2000_0000_0000_0000
    ensures m == n
  {
    var s := Padded(m);
    assert s[|s| - 8..] == LittleEndian(8 * |m|, 8);
    assert s[|s| - 8..] == LittleEndian(8 * |n|, 8);
    assert Power256(8) == 0x1_0000_0000_0000_0000 by {
      assert Power256(4) == TWO_TO_32;
      assert Power256(8) == 256 * 256 * 256 * 256 * Power256(4);
    }
    ValueOfLittleEndian(8 * |m|, 8);
    ValueOfLittleEndian(8 * |n|, 8);
    assert m == s[..|m|] && n == s[..|n|];
  }
}
