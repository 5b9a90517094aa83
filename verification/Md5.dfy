// The MD5 class: absorption through a 64-byte buffer, the two-word bit counter, padding and the digest.

module Md5Rounds {
  import opened Md5Spec

  const S11 := 7
  const S12 := 12
  const S13 := 17
  const S14 := 22
  const S21 := 5
  const S22 := 9
  const S23 := 14
  const S24 := 20
  const S31 := 4
  const S32 := 11
  const S33 := 16
  const S34 := 23
  const S41 := 6
  const S42 := 10
  const S43 := 15
  const S44 := 21

  /** The FF macro as the new value of its first argument; likewise GG, HH and II. */
  function FF(a: Word, b: Word, c: Word, d: Word, x: Word, s: nat, ac: Word): Word
    requires s <= 32
  {
    Add(RotateLeft(Add(a, Add(Add(F(b, c, d), x), ac)), s), b)
  }

  function GG(a: Word, b: Word, c: Word, d: Word, x: Word, s: nat, ac: Word): Word
    requires s <= 32
  {
    Add(RotateLeft(Add(a, Add(Add(G(b, c, d), x), ac)), s), b)
  }

  function HH(a: Word, b: Word, c: Word, d: Word, x: Word, s: nat, ac: Word): Word
    requires s <= 32
  {
    Add(RotateLeft(Add(a, Add(Add(H(b, c, d), x), ac)), s), b)
  }

  function II(a: Word, b: Word, c: Word, d: Word, x: Word, s: nat, ac: Word): Word
    requires s <= 32
  {
    Add(RotateLeft(Add(a, Add(Add(I(b, c, d), x), ac)), s), b)
  }

  lemma SumsAgree(a: Word, f: Word, x: Word, t: Word)
    ensures Add(a, Add(Add(f, x), t)) == (a + f + x + t) % TWO_TO_32
  {
    ModInside(t, f + x);
    ModInside(a, f + x + t);
  }

  lemma ModInside(a: nat, b: nat)
    ensures (a + b % TWO_TO_32) % TWO_TO_32 == (a + b) % TWO_TO_32
  {
    var k := b / TWO_TO_32;
    assert b == TWO_TO_32 * k + b % TWO_TO_32;
    assert a + b == TWO_TO_32 * k + (a + b % TWO_TO_32);
  }

  /** What one macro call puts into its first argument, when it stands for step i of the RFC. */
  function Called(i: nat, a: Word, b: Word, c: Word, d: Word, x: seq<Word>): Word
    requires i < 64 && |x| == 16
  {
    if i < 16 then FF(a, b, c, d, x[WordIndex(i)], Shift(i), T(i))
    else if i < 32 then GG(a, b, c, d, x[WordIndex(i)], Shift(i), T(i))
    else if i < 48 then HH(a, b, c, d, x[WordIndex(i)], Shift(i), T(i))
    else II(a, b, c, d, x[WordIndex(i)], Shift(i), T(i))
  }

  lemma CalledIsStep(i: nat, q: Quad, x: seq<Word>)
    requires i < 64 && |x| == 16
    ensures Step(i, q, x) == Quad(q.d, Called(i, q.a, q.b, q.c, q.d, x), q.b, q.c)
  {
    hide T, F, G, H, I, RotateLeft, Shift, WordIndex;
    SumsAgree(q.a, Auxiliary(i, q.b, q.c, q.d), x[WordIndex(i)], T(i));
  }

  /** Four macro calls with the registers named in turn make four steps, after which the names are back in place. */
  lemma FourSteps(i: nat, start: Quad, x: seq<Word>)
    requires i <= 60 && |x| == 16
    ensures
      var q := Steps(i, start, x);
      var a := Called(i, q.a, q.b, q.c, q.d, x);
      var d := Called(i + 1, q.d, a, q.b, q.c, x);
      var c := Called(i + 2, q.c, d, a, q.b, x);
      var b := Called(i + 3, q.b, c, d, a, x);
      Steps(i + 4, start, x) == Quad(a, b, c, d)
  {
    hide Step, Called;
    var q := Steps(i, start, x);
    CalledIsStep(i, q, x);
    var q1 := Step(i, q, x);
    CalledIsStep(i + 1, q1, x);
    var q2 := Step(i + 1, q1, x);
    CalledIsStep(i + 2, q2, x);
    var q3 := Step(i + 2, q2, x);
    CalledIsStep(i + 3, q3, x);
    assert Steps(i + 1, start, x) == q1;
    assert Steps(i + 2, start, x) == q2;
    assert Steps(i + 3, start, x) == q3;
  }

  /** Round 1 of transform, on the registers that the block starts with. */
  method Round1(a0: Word, b0: Word, c0: Word, d0: Word, x: array<Word>, ghost start: Quad)
    returns (a: Word, b: Word, c: Word, d: Word)
    requires x.Length == 16 && Quad(a0, b0, c0, d0) == Steps(0, start, x[..])
    ensures Quad(a, b, c, d) == Steps(16, start, x[..])
  {
    hide Step, Steps, FF, GG, HH, II;
    a, b, c, d := a0, b0, c0, d0;
    ghost var xs := x[..];
    a := FF(a, b, c, d, x[0], S11, 0xd76aa478);
    d := FF(d, a, b, c, x[1], S12, 0xe8c7b756);
    c := FF(c, d, a, b, x[2], S13, 0x242070db);
    b := FF(b, c, d, a, x[3], S14, 0xc1bdceee);
    FourSteps(0, start, xs);
    assert Steps(0 + 4, start, xs) == Quad(a, b, c, d);
    a := FF(a, b, c, d, x[4], S11, 0xf57c0faf);
    d := FF(d, a, b, c, x[5], S12, 0x4787c62a);
    c := FF(c, d, a, b, x[6], S13, 0xa8304613);
    b := FF(b, c, d, a, x[7], S14, 0xfd469501);
    FourSteps(4, start, xs);
    assert Steps(4 + 4, start, xs) == Quad(a, b, c, d);
    a := FF(a, b, c, d, x[8], S11, 0x698098d8);
    d := FF(d, a, b, c, x[9], S12, 0x8b44f7af);
    c := FF(c, d, a, b, x[10], S13, 0xffff5bb1);
    b := FF(b, c, d, a, x[11], S14, 0x895cd7be);
    FourSteps(8, start, xs);
    assert Steps(8 + 4, start, xs) == Quad(a, b, c, d);
    a := FF(a, b, c, d, x[12], S11, 0x6b901122);
    d := FF(d, a, b, c, x[13], S12, 0xfd987193);
    c := FF(c, d, a, b, x[14], S13, 0xa679438e);
    b := FF(b, c, d, a, x[15], S14, 0x49b40821);
    FourSteps(12, start, xs);
    assert Steps(12 + 4, start, xs) == Quad(a, b, c, d);
  }

  /** Round 2 of transform, on the registers that round 1 left. */
  method Round2(a0: Word, b0: Word, c0: Word, d0: Word, x: array<Word>, ghost start: Quad)
    returns (a: Word, b: Word, c: Word, d: Word)
    requires x.Length == 16 && Quad(a0, b0, c0, d0) == Steps(16, start, x[..])
    ensures Quad(a, b, c, d) == Steps(32, start, x[..])
  {
    hide Step, Steps, FF, GG, HH, II;
    a, b, c, d := a0, b0, c0, d0;
    ghost var xs := x[..];
    a := GG(a, b, c, d, x[1], S21, 0xf61e2562);
    d := GG(d, a, b, c, x[6], S22, 0xc040b340);
    c := GG(c, d, a, b, x[11], S23, 0x265e5a51);
    b := GG(b, c, d, a, x[0], S24, 0xe9b6c7aa);
    FourSteps(16, start, xs);
    assert Steps(16 + 4, start, xs) == Quad(a, b, c, d);
    a := GG(a, b, c, d, x[5], S21, 0xd62f105d);
    d := GG(d, a, b, c, x[10], S22, 0x02441453);
    c := GG(c, d, a, b, x[15], S23, 0xd8a1e681);
    b := GG(b, c, d, a, x[4], S24, 0xe7d3fbc8);
    FourSteps(20, start, xs);
    assert Steps(20 + 4, start, xs) == Quad(a, b, c, d);
    a := GG(a, b, c, d, x[9], S21, 0x21e1cde6);
    d := GG(d, a, b, c, x[14], S22, 0xc33707d6);
    c := GG(c, d, a, b, x[3], S23, 0xf4d50d87);
    b := GG(b, c, d, a, x[8], S24, 0x455a14ed);
    FourSteps(24, start, xs);
    assert Steps(24 + 4, start, xs) == Quad(a, b, c, d);
    a := GG(a, b, c, d, x[13], S21, 0xa9e3e905);
    d := GG(d, a, b, c, x[2], S22, 0xfcefa3f8);
    c := GG(c, d, a, b, x[7], S23, 0x676f02d9);
    b := GG(b, c, d, a, x[12], S24, 0x8d2a4c8a);
    FourSteps(28, start, xs);
    assert Steps(28 + 4, start, xs) == Quad(a, b, c, d);
  }

  /** Round 3 of transform, on the registers that round 2 left. */
  method Round3(a0: Word, b0: Word, c0: Word, d0: Word, x: array<Word>, ghost start: Quad)
    returns (a: Word, b: Word, c: Word, d: Word)
    requires x.Length == 16 && Quad(a0, b0, c0, d0) == Steps(32, start, x[..])
    ensures Quad(a, b, c, d) == Steps(48, start, x[..])
  {
    hide Step, Steps, FF, GG, HH, II;
    a, b, c, d := a0, b0, c0, d0;
    ghost var xs := x[..];
    a := HH(a, b, c, d, x[5], S31, 0xfffa3942);
    d := HH(d, a, b, c, x[8], S32, 0x8771f681);
    c := HH(c, d, a, b, x[11], S33, 0x6d9d6122);
    b := HH(b, c, d, a, x[14], S34, 0xfde5380c);
    FourSteps(32, start, xs);
    assert Steps(32 + 4, start, xs) == Quad(a, b, c, d);
    a := HH(a, b, c, d, x[1], S31, 0xa4beea44);
    d := HH(d, a, b, c, x[4], S32, 0x4bdecfa9);
    c := HH(c, d, a, b, x[7], S33, 0xf6bb4b60);
    b := HH(b, c, d, a, x[10], S34, 0xbebfbc70);
    FourSteps(36, start, xs);
    assert Steps(36 + 4, start, xs) == Quad(a, b, c, d);
    a := HH(a, b, c, d, x[13], S31, 0x289b7ec6);
    d := HH(d, a, b, c, x[0], S32, 0xeaa127fa);
    c := HH(c, d, a, b, x[3], S33, 0xd4ef3085);
    b := HH(b, c, d, a, x[6], S34, 0x04881d05);
    FourSteps(40, start, xs);
    assert Steps(40 + 4, start, xs) == Quad(a, b, c, d);
    a := HH(a, b, c, d, x[9], S31, 0xd9d4d039);
    d := HH(d, a, b, c, x[12], S32, 0xe6db99e5);
    c := HH(c, d, a, b, x[15], S33, 0x1fa27cf8);
    b := HH(b, c, d, a, x[2], S34, 0xc4ac5665);
    FourSteps(44, start, xs);
    assert Steps(44 + 4, start, xs) == Quad(a, b, c, d);
  }

  /** Round 4 of transform, on the registers that round 3 left. */
  method Round4(a0: Word, b0: Word, c0: Word, d0: Word, x: array<Word>, ghost start: Quad)
    returns (a: Word, b: Word, c: Word, d: Word)
    requires x.Length == 16 && Quad(a0, b0, c0, d0) == Steps(48, start, x[..])
    ensures Quad(a, b, c, d) == Steps(64, start, x[..])
  {
    hide Step, Steps, FF, GG, HH, II;
    a, b, c, d := a0, b0, c0, d0;
    ghost var xs := x[..];
    a := II(a, b, c, d, x[0], S41, 0xf4292244);
    d := II(d, a, b, c, x[7], S42, 0x432aff97);
    c := II(c, d, a, b, x[14], S43, 0xab9423a7);
    b := II(b, c, d, a, x[5], S44, 0xfc93a039);
    FourSteps(48, start, xs);
    assert Steps(48 + 4, start, xs) == Quad(a, b, c, d);
    a := II(a, b, c, d, x[12], S41, 0x655b59c3);
    d := II(d, a, b, c, x[3], S42, 0x8f0ccc92);
    c := II(c, d, a, b, x[10], S43, 0xffeff47d);
    b := II(b, c, d, a, x[1], S44, 0x85845dd1);
    FourSteps(52, start, xs);
    assert Steps(52 + 4, start, xs) == Quad(a, b, c, d);
    a := II(a, b, c, d, x[8], S41, 0x6fa87e4f);
    d := II(d, a, b, c, x[15], S42, 0xfe2ce6e0);
    c := II(c, d, a, b, x[6], S43, 0xa3014314);
    b := II(b, c, d, a, x[13], S44, 0x4e0811a1);
    FourSteps(56, start, xs);
    assert Steps(56 + 4, start, xs) == Quad(a, b, c, d);
    a := II(a, b, c, d, x[4], S41, 0xf7537e82);
    d := II(d, a, b, c, x[11], S42, 0xbd3af235);
    c := II(c, d, a, b, x[2], S43, 0x2ad7d2bb);
    b := II(b, c, d, a, x[9], S44, 0xeb86d391);
    FourSteps(60, start, xs);
    assert Steps(60 + 4, start, xs) == Quad(a, b, c, d);
  }
}

module Md5s {
  import opened Bytes
  import opened Md5Spec
  import opened Md5Rounds

  /** PADDING: one 0x80, then zeros. */
  function PaddingBytes(): (s: seq<Byte>)
    ensures |s| == 64
  {
    [0x80] + Zeros(63)
  }

  /** What absorbing input leaves in a buffer that held index unprocessed bytes. */
  function BufferAfter(buffer: seq<Byte>, index: nat, input: seq<Byte>): (s: seq<Byte>)
    requires |buffer| == 64 && index < 64
    ensures |s| == 64
  {
    if index + |input| < 64 then buffer[..index] + input + buffer[index + |input|..]
    else
      var rest := (index + |input|) % 64;
      input[|input| - rest..] + (buffer[..index] + input[..64 - index])[rest..]
  }

  /** What the object takes its message to be once getDigest has run: the unprocessed bytes are overwritten if the
      padding spilled into a second block. */
  function AfterDigest(m: seq<Byte>): (r: seq<Byte>) {
    if |m| % 64 < 56 then m else Done(m) + (Zeros(56) + LittleEndian(8 * |m|, 8)[..|m| % 64 - 56])
  }

  /** getDigest leaves the message as it was exactly when the padding fits behind the unprocessed bytes, or these
      happen to be what overwrites them. */
  lemma KeepsMessage(m: seq<Byte>)
    ensures |AfterDigest(m)| == |m|
    ensures AfterDigest(m) == m <==>
      |m| % 64 < 56 || Tail(m) == Zeros(56) + LittleEndian(8 * |m|, 8)[..|m| % 64 - 56]
  {
    hide LittleEndian, Zeros, Tail, Done;
    Splits(m);
    if |m| % 64 >= 56 {
      var tail := Zeros(56) + LittleEndian(8 * |m|, 8)[..|m| % 64 - 56];
      assert (Done(m) + tail)[|Done(m)|..] == tail && (Done(m) + Tail(m))[|Done(m)|..] == Tail(m);
    }
  }

  lemma SpillExample(m: seq<Byte>)
    requires |m| == 56 && m[0] == 0x61
    ensures AfterDigest(m) != m
  {
    KeepsMessage(m);
    assert Tail(m)[0] == 0x61;
    assert (Zeros(56) + LittleEndian(8 * |m|, 8)[..0])[0] == 0;
  }

  /** From the second call on, nothing more is lost. */
  lemma SecondDigestIsStable(m: seq<Byte>)
    ensures AfterDigest(AfterDigest(m)) == AfterDigest(m)
  {
    hide LittleEndian, Zeros;
    KeepsMessage(m);
    Splits(m);
    if |m| % 64 >= 56 {
      hide Tail;
      var tail := Zeros(56) + LittleEndian(8 * |m|, 8)[..|m| % 64 - 56];
      TailIs(Done(m), tail);
      KeepsMessage(AfterDigest(m));
    }
  }

  /** How many bytes of PADDING getDigest absorbs. */
  function PadLength(rest: nat): nat
    requires rest < 64
  {
    if rest < 56 then 56 - rest else 120 - rest
  }

  lemma PadLengthIs(n: nat)
    ensures PadLength(n % 64) - 1 == (55 - n) % 64 && (n + PadLength(n % 64)) % 64 == 56
  {}

  lemma PaddingPrefix(n: nat)
    requires n < 64
    ensures PaddingBytes()[..n + 1] == [0x80] + Zeros(n)
  {}

  lemma PadBytes(m: seq<Byte>)
    ensures PaddingBytes()[..PadLength(|m| % 64)] == [0x80] + Zeros((55 - |m|) % 64)
  {
    hide PadLength, PaddingBytes, Zeros;
    PadLengthIs(|m|);
    PaddingPrefix((55 - |m|) % 64);
  }

  lemma DigestBytes(m: seq<Byte>, pad: seq<Byte>, bits: seq<Byte>)
    requires pad == PaddingBytes()[..PadLength(|m| % 64)] && bits == LittleEndian(8 * |m|, 8)
    ensures (m + pad) + bits == Padded(m)
  {
    hide *;
    PadBytes(m);
    var zeros := Zeros((55 - |m|) % 64);
    PaddedIs(m, (55 - |m|) % 64, bits);
    Regroup(m, [0x80], zeros, bits);
  }

  lemma PaddedIs(m: seq<Byte>, n: nat, bits: seq<Byte>)
    requires n == (55 - |m|) % 64 && bits == LittleEndian(8 * |m|, 8)
    ensures Padded(m) == m + [0x80] + Zeros(n) + bits
  {}

  lemma Regroup(a: seq<Byte>, b: seq<Byte>, c: seq<Byte>, d: seq<Byte>)
    ensures (a + (b + c)) + d == a + b + c + d
  {}

  /** What the two calls of init in getDigest leave of the unprocessed bytes, when the padding fits behind them. */
  lemma FitsBehind(before: seq<Byte>, rest: nat, pad: seq<Byte>, bits: seq<Byte>)
    requires |before| == 64 && rest < 56 && |pad| == 56 - rest && |bits| == 8
    ensures BufferAfter(BufferAfter(before, rest, pad), 56, bits)[..rest] == before[..rest]
  {
    var middle := before[..rest] + pad + before[56..];
    assert BufferAfter(before, rest, pad) == middle;
    EightMore(middle, bits);
  }

  /** And when it spills. */
  lemma Spills(before: seq<Byte>, rest: nat, pad: seq<Byte>, bits: seq<Byte>)
    requires |before| == 64 && 56 <= rest < 64 && |bits| == 8 && pad == PaddingBytes()[..120 - rest]
    ensures BufferAfter(BufferAfter(before, rest, pad), 56, bits)[..rest] == Zeros(56) + bits[..rest - 56]
  {
    var middle := BufferAfter(before, rest, pad);
    var front := (before[..rest] + pad[..64 - rest])[56..];
    assert (rest + |pad|) % 64 == 56;
    assert pad[|pad| - 56..] == Zeros(56);
    assert middle == Zeros(56) + front;
    EightMore(middle, bits);
    assert middle[..56] == Zeros(56);
  }

  lemma EightMore(middle: seq<Byte>, bits: seq<Byte>)
    requires |middle| == 64 && |bits| == 8
    ensures BufferAfter(middle, 56, bits) == middle[..56] + bits
  {}

  lemma BufferAfterDigest(m: seq<Byte>, before: seq<Byte>, pad: seq<Byte>, bits: seq<Byte>, after: seq<Byte>)
    requires |before| == 64 && before[..|m| % 64] == Tail(m)
    requires pad == PaddingBytes()[..PadLength(|m| % 64)] && bits == LittleEndian(8 * |m|, 8)
    requires after == BufferAfter(BufferAfter(before, |m| % 64, pad), 56, bits)
    ensures |after| == 64 && after[..|AfterDigest(m)| % 64] == Tail(AfterDigest(m))
  {
    hide LittleEndian, BufferAfter, Tail, Zeros, Done;
    KeepsMessage(m);
    if |m| % 64 < 56 {
      FitsBehind(before, |m| % 64, pad, bits);
    } else {
      Spills(before, |m| % 64, pad, bits);
      Splits(m);
      TailIs(Done(m), Zeros(56) + bits[..|m| % 64 - 56]);
    }
  }

  lemma ChainAfterDigest(m: seq<Byte>)
    ensures Chain(INITIAL, AfterDigest(m)) == Chain(INITIAL, m)
  {
    hide Chain, LittleEndian, Zeros;
    Splits(m);
    ChainRest(INITIAL, Done(m), Tail(m));
    if |m| % 64 >= 56 {
      ChainRest(INITIAL, Done(m), Zeros(56) + LittleEndian(8 * |m|, 8)[..|m| % 64 - 56]);
    }
  }

  /** Bytes that do not fill a block leave the chaining value alone. */
  lemma ChainRest(q: Quad, s: seq<Byte>, t: seq<Byte>)
    requires |s| % 64 == 0 && |t| < 64
    ensures Chain(q, s + t) == Chain(q, s)
  {
    ChainAppend(q, s, t);
  }

  /** Two words that hold the number of bits in n bytes, modulo 2^64, low-order word first. */
  predicate Counts(n: nat, low: Word, high: Word) {
    low == 8 * n % TWO_TO_32 && high == 8 * n / TWO_TO_32 % TWO_TO_32
  }

  /** The carry rule of init keeps the two words equal to the 64-bit number of bits. */
  lemma CarryIsRight(n: nat, len: nat, low: Word, high: Word)
    requires len < TWO_TO_32 && Counts(n, low, high)
    ensures
      var added := 8 * len % TWO_TO_32;
      var low' := (low + added) % TWO_TO_32;
      var carried := if low' < added then (high + 1) % TWO_TO_32 else high;
      Counts(n + len, low', (carried + len / 0x2000_0000) % TWO_TO_32)
  {
    hide Counts;
    var more, added := len / 0x2000_0000, 8 * (len % 0x2000_0000);
    assert 8 * len % TWO_TO_32 == added by { Quotient(8 * len, more, added); }
    var carry := if low + added >= 0x1_0000_0000 then 1 else 0;
    assert (low + added) % TWO_TO_32 == low + added - 0x1_0000_0000 * carry by {
      Quotient(low + added, carry, low + added - 0x1_0000_0000 * carry);
    }
    WithCarry(n, len, low, high, more, added, carry);
    assert carry == 0 ==> high % 0x1_0000_0000 == high;
  }

  lemma WithCarry(n: nat, len: nat, low: Word, high: Word, more: nat, added: nat, carry: nat)
    requires Counts(n, low, high) && 8 * len == 0x1_0000_0000 * more + added && more < 8 && carry <= 1
    requires 0 <= low + added - 0x1_0000_0000 * carry < 0x1_0000_0000
    ensures Counts(n + len, low + added - 0x1_0000_0000 * carry, ((high + carry) % 0x1_0000_0000 + more) % 0x1_0000_0000)
  {
    var h := 8 * n / 0x1_0000_0000;
    assert 8 * n == 0x1_0000_0000 * h + low;
    Quotient(8 * (n + len), h + more + carry, low + added - 0x1_0000_0000 * carry);
    CarryWraps(h, high, more, carry);
  }

  lemma Quotient(x: nat, q: nat, r: nat)
    requires x == 0x1_0000_0000 * q + r && r < 0x1_0000_0000
    ensures x / 0x1_0000_0000 == q && x % 0x1_0000_0000 == r
  {}

  lemma CarryWraps(h: nat, high: nat, more: nat, carry: nat)
    requires high == h % 0x1_0000_0000 && more < 8 && carry <= 1
    ensures ((high + carry) % 0x1_0000_0000 + more) % 0x1_0000_0000 == (h + more + carry) % 0x1_0000_0000
  {
    var k := h / 0x1_0000_0000;
    assert h + more + carry == 0x1_0000_0000 * k + (high + more + carry);
  }

  lemma CountBytes(n: nat, low: Word, high: Word)
    requires Counts(n, low, high)
    ensures LittleEndian(low, 4) + LittleEndian(high, 4) == LittleEndian(8 * n, 8)
  {
    assert Power256(4) == TWO_TO_32;
    var top := 8 * n / TWO_TO_32;
    LittleEndianSplit(low, top, 4, 4);
    assert low + TWO_TO_32 * top == 8 * n;
    LittleEndianSplit(high, top / TWO_TO_32, 4, 0);
    assert high + TWO_TO_32 * (top / TWO_TO_32) == top;
    assert LittleEndian(top, 4) == LittleEndian(high, 4) + LittleEndian(top / TWO_TO_32, 0);
  }

  lemma IndexFromCount(n: nat, low: Word, high: Word)
    requires Counts(n, low, high)
    ensures low / 8 % 64 == n % 64
  {
    var h: int := 8 * n / 0x1_0000_0000;
    IndexInts(n, low, h);
  }

  lemma IndexInts(n: int, low: int, h: int)
    requires 8 * n == 0x1_0000_0000 * h + low
    ensures low / 8 % 64 == n % 64
  {
    var k := n - 0x2000_0000 * h;
    assert low == 8 * k;
    assert n == k + 64 * (0x80_0000 * h);
    Multiple64(k, 0x80_0000 * h);
  }

  lemma Multiple64(k: int, m: int)
    ensures (k + 64 * m) % 64 == k % 64
  {}

  /** The first n words of the input stand in the output, low-order byte first. */
  ghost predicate WordsStored(input: seq<Word>, output: seq<Byte>, n: nat)
    requires n <= |input| && 4 * n <= |output|
  {
    forall k :: 0 <= k < n ==> output[4 * k..4 * k + 4] == LittleEndian(input[k], 4)
  }

  /** One word more. */
  lemma WordStored(input: seq<Word>, was: seq<Byte>, now: seq<Byte>, n: nat, length: nat)
    requires n < |input| && 4 * n + 4 <= length <= |was| == |now| && WordsStored(input, was, n)
    requires forall k :: 0 <= k < |was| && !(4 * n <= k < 4 * n + 4) ==> now[k] == was[k]
    requires var w := input[n];
      && now[4 * n] == w % 256 && now[4 * n + 1] == w / 256 % 256
      && now[4 * n + 2] == w / 65536 % 256 && now[4 * n + 3] == w / 16777216 % 256
    ensures WordsStored(input, now, n + 1) && now[length..] == was[length..]
  {
    hide LittleEndian;
    FourBytes(input[n]);
    assert now[4 * n..4 * n + 4] == LittleEndian(input[n], 4);
    forall k | 0 <= k < n ensures now[4 * k..4 * k + 4] == LittleEndian(input[k], 4) {
      assert now[4 * k..4 * k + 4] == was[4 * k..4 * k + 4];
    }
  }

  /** The bytes of m that fill blocks, and the rest. */
  function Done(m: seq<Byte>): (d: seq<Byte>) {
    m[..|m| - |m| % 64]
  }

  function Tail(m: seq<Byte>): (t: seq<Byte>) {
    m[|m| - |m| % 64..]
  }

  lemma Splits(m: seq<Byte>)
    ensures m == Done(m) + Tail(m) && |Done(m)| % 64 == 0 && |Tail(m)| == |m| % 64
  {}

  lemma TailIs(done: seq<Byte>, tail: seq<Byte>)
    requires |done| % 64 == 0 && |tail| < 64
    ensures Tail(done + tail) == tail && |done + tail| % 64 == |tail|
  {}

  lemma FirstBlock(done: seq<Byte>, tail: seq<Byte>, part: seq<Byte>)
    requires |done| % 64 == 0 && |tail| < 64 && |tail| + |part| == 64
    ensures Chain(INITIAL, (done + tail) + part) == Compress(Chain(INITIAL, done + tail), tail + part)
  {
    hide Chain, Compress;
    ChainRest(INITIAL, done, tail);
    ChainBlock(INITIAL, done, tail + part);
    assert done + (tail + part) == (done + tail) + part;
  }

  lemma NextBlock(m: seq<Byte>, bytes: seq<Byte>, i: nat)
    requires i + 64 <= |bytes| && (|m| + i) % 64 == 0
    ensures Chain(INITIAL, m + bytes[..i + 64]) == Compress(Chain(INITIAL, m + bytes[..i]), bytes[i..i + 64])
  {
    hide Chain, Compress;
    ChainBlock(INITIAL, m + bytes[..i], bytes[i..i + 64]);
    assert (m + bytes[..i]) + bytes[i..i + 64] == m + bytes[..i + 64];
  }

  lemma LastBytes(m: seq<Byte>, bytes: seq<Byte>, i: nat)
    requires i <= |bytes| < i + 64 && (|m| + i) % 64 == 0
    ensures Chain(INITIAL, m + bytes) == Chain(INITIAL, m + bytes[..i])
    ensures Tail(m + bytes) == bytes[i..] && |m + bytes| % 64 == |bytes| - i
  {
    hide Chain, Compress, Tail;
    ChainRest(INITIAL, m + bytes[..i], bytes[i..]);
    TailIs(m + bytes[..i], bytes[i..]);
    assert (m + bytes[..i]) + bytes[i..] == m + bytes;
  }

  lemma FewBytes(done: seq<Byte>, tail: seq<Byte>, bytes: seq<Byte>)
    requires |done| % 64 == 0 && |tail| + |bytes| < 64
    ensures Chain(INITIAL, (done + tail) + bytes) == Chain(INITIAL, done + tail)
    ensures Tail((done + tail) + bytes) == tail + bytes && |(done + tail) + bytes| % 64 == |tail| + |bytes|
  {
    hide Chain, Compress, Tail;
    ChainRest(INITIAL, done, tail);
    ChainRest(INITIAL, done, tail + bytes);
    TailIs(done, tail + bytes);
    assert done + (tail + bytes) == (done + tail) + bytes;
  }

  lemma Aligned(n: nat, i: nat)
    requires (n % 64 + i) % 64 == 0
    ensures (n + i) % 64 == 0
  {}

  /** Within its domain the 32-bit loop counter of init does not wrap around. */
  lemma NoWrap(index: nat, i: nat, len: nat)
    requires i <= len && (len < TWO_TO_32 - 64 || (len < TWO_TO_32 && index == 0)) && (index + i) % 64 == 0
    ensures i + 63 < TWO_TO_32 && i % TWO_TO_32 == i && (index + i + 64) % 64 == 0
  {}

  /** The last memcpy of init leaves the unprocessed bytes of the longer message at the front of the buffer. */
  lemma FilledFew(before: seq<Byte>, tail: seq<Byte>, bytes: seq<Byte>, after: seq<Byte>)
    requires |before| == 64 && |tail| + |bytes| < 64 && before[..|tail|] == tail
    requires after == before[..|tail|] + bytes + before[|tail| + |bytes|..]
    ensures after == BufferAfter(before, |tail|, bytes) && after[..|tail| + |bytes|] == tail + bytes
  {}

  lemma FilledMany(before: seq<Byte>, index: nat, bytes: seq<Byte>, i: nat, after: seq<Byte>)
    requires |before| == 64 && index < 64 && 64 - index <= i <= |bytes| < i + 64 && (index + i) % 64 == 0
    requires after == bytes[i..] + (before[..index] + bytes[..64 - index])[|bytes| - i..]
    ensures after == BufferAfter(before, index, bytes) && after[..|bytes| - i] == bytes[i..]
  {
    assert (index + |bytes|) % 64 == |bytes| - i;
  }

  /** What init leaves when it has completed blocks up to byte i of its input. */
  lemma AfterBlocks(q: Quad, m: seq<Byte>, index: nat, before: seq<Byte>, filled: seq<Byte>, input: seq<Byte>,
      len: nat, i: nat, after: seq<Byte>)
    requires |before| == 64 && index == |m| % 64
    requires 64 - index <= i <= len < i + 64 && len <= |input| && (index + i) % 64 == 0
    requires q == Chain(INITIAL, m + input[..i])
    requires filled == before[..index] + input[..64 - index]
    requires after == filled[..0] + input[i..i + (len - i)] + filled[0 + (len - i)..]
    ensures |after| == 64 && Absorbs(q, m, index, before, input[..len], after)
  {
    hide Chain, BufferAfter, Done, Tail;
    var bytes := input[..len];
    Aligned(|m|, i);
    SlicesOf(input, len, i);
    SlicesOf(input, len, 64 - index);
    assert after == bytes[i..] + filled[len - i..];
    LastBytes(m, bytes, i);
    FilledMany(before, index, bytes, i, after);
  }

  lemma SlicesOf(input: seq<Byte>, len: nat, i: nat)
    requires i <= len <= |input|
    ensures input[..len][..i] == input[..i] && input[..len][i..] == input[i..len]
  {}

  /** What init leaves when its input completes no block. */
  lemma AfterFew(q: Quad, m: seq<Byte>, index: nat, before: seq<Byte>, input: seq<Byte>, len: nat, after: seq<Byte>)
    requires |before| == 64 && index == |m| % 64 && before[..index] == Tail(m) && index + len < 64 && len <= |input|
    requires q == Chain(INITIAL, m)
    requires after == before[..index] + input[0..0 + len] + before[index + len..]
    ensures |after| == 64 && Absorbs(q, m, index, before, input[..len], after)
  {
    hide Chain, BufferAfter, Done, Tail;
    Splits(m);
    SlicesOf(input, len, 0);
    FewBytes(Done(m), Tail(m), input[..len]);
    FilledFew(before, Tail(m), input[..len], after);
  }

  /** Either of the two. */
  lemma InitDone(q: Quad, m: seq<Byte>, before: seq<Byte>, filled: seq<Byte>, input: seq<Byte>, len: nat, i: nat, after: seq<Byte>)
    requires |before| == 64 && before[..|m| % 64] == Tail(m) && i <= len <= |input|
    requires i > 0 ==> 64 - |m| % 64 <= i && len < i + 64 && (|m| % 64 + i) % 64 == 0 && q == Chain(INITIAL, m + input[..i])
    requires i > 0 ==> filled == before[..|m| % 64] + input[..64 - |m| % 64] && after == filled[..0] + input[i..len] + filled[len - i..]
    requires i == 0 ==> |m| % 64 + len < 64 && q == Chain(INITIAL, m)
    requires i == 0 ==> after == before[..|m| % 64] + input[0..len] + before[|m| % 64 + len..]
    ensures |after| == 64 && Absorbs(q, m, |m| % 64, before, input[..len], after)
  {
    hide Chain, Tail, Absorbs;
    if i > 0 {
      AfterBlocks(q, m, |m| % 64, before, filled, input, len, i, after);
    } else {
      AfterFew(q, m, |m| % 64, before, input, len, after);
    }
  }

  /** The registers and the buffer are those of m followed by bytes. */
  ghost predicate Absorbs(q: Quad, m: seq<Byte>, index: nat, before: seq<Byte>, bytes: seq<Byte>, after: seq<Byte>)
    requires |before| == |after| == 64 && index < 64
  {
    && q == Chain(INITIAL, m + bytes)
    && after[..|m + bytes| % 64] == Tail(m + bytes)
    && after == BufferAfter(before, index, bytes)
  }

  lemma BitsOfCount(n: nat, low: Word, high: Word, bits: seq<Byte>)
    requires Counts(n, low, high) && |bits| == 8
    requires bits[0..4] == LittleEndian(low, 4) && bits[4..8] == LittleEndian(high, 4)
    ensures bits == LittleEndian(8 * n, 8)
  {
    hide LittleEndian, Counts;
    CountBytes(n, low, high);
    assert bits == bits[0..4] + bits[4..8];
  }

  lemma IsDigest(d: seq<Byte>, q: Quad)
    requires |d| == 16 && d[0..4] == LittleEndian(q.a, 4) && d[4..8] == LittleEndian(q.b, 4)
    requires d[8..12] == LittleEndian(q.c, 4) && d[12..16] == LittleEndian(q.d, 4)
    ensures d == QuadBytes(q)
  {
    hide LittleEndian;
    assert d == d[0..4] + d[4..8] + d[8..12] + d[12..16];
  }

  lemma NothingAbsorbed()
    ensures Chain(INITIAL, []) == INITIAL && Tail([]) == [] && Counts(0, 0, 0)
  {
    hide *;
    assert Counts(0, 0, 0) by { ZeroCount(); }
    EmptyChain(INITIAL, []);
    EmptyTail([]);
  }

  lemma ZeroCount()
    ensures Counts(0, 0, 0)
  {}

  lemma EmptyChain(q: Quad, s: seq<Byte>)
    requires |s| == 0
    ensures Chain(q, s) == q
  {}

  lemma EmptyTail(s: seq<Byte>)
    requires |s| == 0
    ensures Tail(s) == s
  {}

  lemma DecodedBlock(block: seq<Byte>, x: seq<Word>)
    requires |block| == 64 && |x| == 16
    requires forall k :: 0 <= k < 16 ==> x[k] == WordOf(block[4 * k..4 * k + 4])
    ensures x == BlockWords(block)
  {}

  lemma NoSteps(q: Quad, x: seq<Word>)
    requires |x| == 16
    ensures Steps(0, q, x) == q
  {}

  const HEX_NUMBERS := "0123456789abcdef"

  function Hex(bytes: seq<Byte>): (s: string)
    ensures |s| == 2 * |bytes|
  {
    if bytes == [] then "" else [HEX_NUMBERS[bytes[0] / 16], HEX_NUMBERS[bytes[0] % 16]] + Hex(bytes[1..])
  }

  lemma HexOfNothing()
    ensures Hex([]) == ""
  {}

  lemma {:induction false} HexAppend(bytes: seq<Byte>, t: Byte)
    ensures Hex(bytes + [t]) == Hex(bytes) + [HEX_NUMBERS[t / 16]] + [HEX_NUMBERS[t % 16]]
  {
    if bytes != [] {
      assert (bytes + [t])[1..] == bytes[1..] + [t];
      HexAppend(bytes[1..], t);
    } else {
      assert (bytes + [t])[1..] == [];
    }
  }

  /** Different digests have different hexadecimal strings. */
  lemma {:induction false} HexIsInjective(a: seq<Byte>, b: seq<Byte>)
    requires Hex(a) == Hex(b)
    ensures a == b
  {
    if a != [] {
      assert |a| == |b|;
      var x, y := Hex(a), Hex(b);
      assert x[0] == y[0] && x[1] == y[1];
      assert x[2..] == Hex(a[1..]) && y[2..] == Hex(b[1..]);
      HexIsInjective(a[1..], b[1..]);
      SameNibble(a[0] / 16, b[0] / 16);
      SameNibble(a[0] % 16, b[0] % 16);
      assert a == [a[0]] + a[1..] && b == [b[0]] + b[1..];
    }
  }

  lemma SameNibble(i: nat, j: nat)
    requires i < 16 && j < 16 && HEX_NUMBERS[i] == HEX_NUMBERS[j]
    ensures i == j
  {}

  class MD5 {
    var finished: bool
    const state: array<Word>
    const count: array<Word>
    const buffer: array<Byte>
    const digest: array<Byte>
    /** Everything init has taken in since the object was made. */
    ghost var absorbed: seq<Byte>

    ghost predicate Shape() {
      && state.Length == 4 && count.Length == 2 && buffer.Length == 64 && digest.Length == 16
      && state != count && buffer != digest
    }

    function Registers(): Quad
      requires Shape()
      reads state
    {
      Quad(state[0], state[1], state[2], state[3])
    }

    ghost predicate CountsTo(n: nat)
      requires Shape()
      reads count
    {
      Counts(n, count[0], count[1])
    }

    ghost predicate Holds()
      requires Shape()
      reads this, state, buffer
    {
      Registers() == Chain(INITIAL, absorbed) && buffer[..|absorbed| % 64] == Tail(absorbed)
    }

    /** The registers, the counter and the buffer are those of the message absorbed. */
    ghost predicate Absorbing()
      reads this, state, count, buffer
    {
      Shape() && Holds() && CountsTo(|absorbed|)
    }

    ghost predicate Valid()
      reads this, state, count, buffer
    {
      Absorbing() && !finished
    }

    method Encode(input: array<Word>, output: array<Byte>, length: nat)
      requires length % 4 == 0 && length / 4 <= input.Length && length <= output.Length
      modifies output
      ensures forall k {:trigger input[k]} :: 0 <= k < length / 4 ==> output[4 * k..4 * k + 4] == LittleEndian(input[k], 4)
      ensures output[length..] == old(output[length..])
    {
      hide LittleEndian;
      var i, j := 0, 0;
      while j < length
        invariant j == 4 * i <= length && WordsStored(input[..], output[..], i)
        invariant output[length..] == old(output[length..])
      {
        ghost var was := output[..];
        output[j] := input[i] % 256;
        output[j + 1] := input[i] / 256 % 256;
        output[j + 2] := input[i] / 65536 % 256;
        output[j + 3] := input[i] / 16777216 % 256;
        WordStored(input[..], was, output[..], i, length);
        i, j := i + 1, j + 4;
      }
    }

    method Decode(input: array<Byte>, at: nat, output: array<Word>, length: nat)
      requires length % 4 == 0 && length / 4 == output.Length && at + length <= input.Length
      modifies output
      ensures forall k :: 0 <= k < output.Length ==> output[k] == WordOf(input[at + 4 * k..at + 4 * k + 4])
    {
      var i, j := 0, 0;
      while j < length
        invariant j == 4 * i <= length
        invariant forall k :: 0 <= k < i ==> output[k] == WordOf(input[at + 4 * k..at + 4 * k + 4])
      {
        ValueOfFour(input[at + 4 * i..at + 4 * i + 4]);
        var b0: int, b1: int, b2: int, b3: int := input[at + j], input[at + j + 1], input[at + j + 2], input[at + j + 3];
        output[i] := b0 + 256 * b1 + 65536 * b2 + 16777216 * b3;
        i, j := i + 1, j + 4;
      }
    }

    /** transform on one block is the compression function of RFC 1321 section 3.4. */
    method Transform(block: array<Byte>, at: nat)
      requires Shape() && at + 64 <= block.Length
      modifies state
      ensures Registers() == Compress(old(Registers()), block[at..at + 64])
    {
      hide Steps, Add;
      ghost var start := Registers();
      var x := new Word[16];
      Decode(block, at, x, 64);
      assert forall k :: 0 <= k < 16 ==> block[at..at + 64][4 * k..4 * k + 4] == block[at + 4 * k..at + 4 * k + 4];
      DecodedBlock(block[at..at + 64], x[..]);
      var a, b, c, d := state[0], state[1], state[2], state[3];
      assert Quad(a, b, c, d) == Steps(0, start, x[..]) by { NoSteps(start, x[..]); }
      a, b, c, d := Round1(a, b, c, d, x, start);
      a, b, c, d := Round2(a, b, c, d, x, start);
      a, b, c, d := Round3(a, b, c, d, x, start);
      a, b, c, d := Round4(a, b, c, d, x, start);
      state[0] := Add(state[0], a);
      state[1] := Add(state[1], b);
      state[2] := Add(state[2], c);
      state[3] := Add(state[3], d);
    }

    /** The first statements of init: the two-word counter goes up by the bits of len bytes. */
    method AddToCount(len: nat)
      requires Shape() && CountsTo(|absorbed|) && len < TWO_TO_32
      modifies count
      ensures CountsTo(|absorbed| + len)
    {
      CarryIsRight(|absorbed|, len, count[0], count[1]);
      count[0] := (count[0] + len * 8 % TWO_TO_32) % TWO_TO_32;
      if count[0] < len * 8 % TWO_TO_32 {
        count[1] := (count[1] + 1) % TWO_TO_32;
      }
      count[1] := (count[1] + len / 0x2000_0000) % TWO_TO_32;
    }

    /** memcpy. */
    method Copy(to: array<Byte>, at: nat, source: array<Byte>, from: nat, n: nat)
      requires at + n <= to.Length && from + n <= source.Length && to != source
      modifies to
      ensures to[..] == old(to[..at]) + source[from..from + n] + old(to[at + n..])
    {
      forall k | 0 <= k < n {
        to[at + k] := source[from + k];
      }
    }

    /** The branch of init that completes blocks: the buffered one first, then those wholly inside the input. The
        loop counter is a 32-bit word, as in the source. */
    method WholeBlocks(input: array<Byte>, len: nat, index: nat) returns (i: nat)
      requires Shape() && Holds() && input != buffer && index == |absorbed| % 64 && 64 - index <= len <= input.Length
      requires len < TWO_TO_32 - 64 || (len < TWO_TO_32 && index == 0)
      modifies state, buffer
      ensures 64 - index <= i <= len < i + 64 && (index + i) % 64 == 0
      ensures Registers() == Chain(INITIAL, absorbed + input[..i])
      ensures buffer[..] == old(buffer[..index]) + input[..64 - index]
    {
      hide Chain, Compress, Done, Tail;
      ghost var m := absorbed;
      ghost var done, tail := Done(m), Tail(m);
      Splits(m);
      var partLen := 64 - index;
      Copy(buffer, index, input, 0, partLen);
      assert buffer[..] == tail + input[..partLen];
      Transform(buffer, 0);
      assert buffer[0..64] == buffer[..];
      FirstBlock(done, tail, input[..partLen]);
      i := partLen;
      while (i + 63) % TWO_TO_32 < len
        invariant partLen <= i <= len && (index + i) % 64 == 0 && i + 63 < TWO_TO_32
        invariant Registers() == Chain(INITIAL, m + input[..i])
        modifies state
        decreases len - i
      {
        Transform(input, i);
        Aligned(|m|, i);
        NextBlock(m, input[..], i);
        NoWrap(index, i + 64, len);
        i := (i + 64) % TWO_TO_32;
      }
    }

    /** Absorbs len bytes. */
    method Init(input: array<Byte>, len: nat)
      requires Absorbing() && len <= input.Length && input != buffer
      requires len < TWO_TO_32 - 64 || (len < TWO_TO_32 && |absorbed| % 64 == 0)
      modifies this, state, count, buffer
      ensures Valid() && absorbed == old(absorbed) + input[..len]
      ensures buffer[..] == BufferAfter(old(buffer[..]), |old(absorbed)| % 64, input[..len])
    {
      hide Chain, Compress, BufferAfter, Counts, Done, Tail;
      finished := false;
      var index := count[0] / 8 % 64;
      assert index == |absorbed| % 64 by { IndexFromCount(|absorbed|, count[0], count[1]); }
      AddToCount(len);
      Fill(input, len, index);
      absorbed := absorbed + input[..len];
    }

    /** The rest of init: whole blocks are compressed, what remains is buffered. */
    method Fill(input: array<Byte>, len: nat, index: nat)
      requires Shape() && Holds() && len <= input.Length && input != buffer && index == |absorbed| % 64
      requires len < TWO_TO_32 - 64 || (len < TWO_TO_32 && index == 0)
      modifies state, buffer
      ensures Absorbs(Registers(), absorbed, index, old(buffer[..]), input[..len], buffer[..])
    {
      hide Chain, Compress, BufferAfter, Done, Tail, Absorbs;
      ghost var before := buffer[..];
      assert before[..index] == buffer[..index];
      var i, rest, partLen := 0, index, 64 - index;
      if len >= partLen {
        i := WholeBlocks(input, len, index);
        rest := 0;
      }
      ghost var filled := buffer[..];
      Copy(buffer, rest, input, i, len - i);
      InitDone(Registers(), absorbed, before, filled, input[..], len, i, buffer[..]);
    }

    constructor (message: array<Byte>)
      requires message.Length < TWO_TO_32
      ensures Valid() && absorbed == message[..]
      ensures fresh(state) && fresh(count) && fresh(buffer) && fresh(digest)
    {
      hide Chain, Counts, Tail, BufferAfter;
      finished := false;
      state := new Word[][0x67452301, 0xefcdab89, 0x98badcfe, 0x10325476];
      count := new Word[][0, 0];
      buffer := new Byte[64];
      digest := new Byte[16];
      absorbed := [];
      new;
      NothingAbsorbed();
      Init(message, message.Length);
      assert message[..message.Length] == message[..];
    }

    /** The middle of getDigest: absorbs the padding and the length, and stores the digest. */
    method Finish()
      requires Absorbing()
      modifies this, state, count, buffer, digest
      ensures Valid() && absorbed == Padded(old(absorbed)) && digest[..] == Digest(old(absorbed))
      ensures buffer[..|AfterDigest(old(absorbed))| % 64] == Tail(AfterDigest(old(absorbed)))
    {
      hide Chain, LittleEndian, BufferAfter, Counts, Tail, AfterDigest, Padded, QuadBytes;
      ghost var m, before := absorbed, buffer[..];
      var bits := new Byte[8];
      Encode(count, bits, 8);
      assert bits[..8] == LittleEndian(8 * |m|, 8) by { BitsOfCount(|m|, count[0], count[1], bits[..8]); }
      var index := count[0] / 8 % 64;
      assert index == |m| % 64 by { IndexFromCount(|m|, count[0], count[1]); }
      var padLen := if index < 56 then 56 - index else 120 - index;
      var padding := new Byte[64](i => if i == 0 then 0x80 else 0);
      assert padding[..padLen] == PaddingBytes()[..padLen];
      Init(padding, padLen);
      PadLengthIs(|m|);
      Init(bits, 8);
      DigestBytes(m, padding[..padLen], bits[..8]);
      BufferAfterDigest(m, before, padding[..padLen], bits[..8], buffer[..]);
      Encode(state, digest, 16);
      IsDigest(digest[..], Registers());
    }

    /** The digest of everything absorbed, as RFC 1321 defines it; and what is left to go on with. The finished flag
        is cleared by Init, so a second call computes again. */
    method GetDigest() returns (d: array<Byte>)
      requires Valid()
      modifies this, state, count, buffer, digest
      ensures d == digest && digest[..] == Digest(old(absorbed))
      ensures Valid() && absorbed == AfterDigest(old(absorbed))
    {
      hide Chain, Counts, Tail, AfterDigest, Padded, Digest;
      ghost var m := absorbed;
      if !finished {
        finished := true;
        var oldState, oldCount := new Word[4], new Word[2];
        oldState[0], oldState[1], oldState[2], oldState[3] := state[0], state[1], state[2], state[3];
        oldCount[0], oldCount[1] := count[0], count[1];
        Finish();
        state[0], state[1], state[2], state[3] := oldState[0], oldState[1], oldState[2], oldState[3];
        count[0], count[1] := oldCount[0], oldCount[1];
        absorbed := AfterDigest(m);
        KeepsMessage(m);
        ChainAfterDigest(m);
      }
      d := digest;
    }

    /** The digest in hexadecimal. */
    method ToStr() returns (str: string)
      requires Valid()
      modifies this, state, count, buffer, digest
      ensures str == Hex(Digest(old(absorbed))) && Valid() && absorbed == AfterDigest(old(absorbed))
    {
      hide Digest, AfterDigest, Absorbing, Hex;
      var d := GetDigest();
      ghost var all := d[..];
      str := "";
      assert str == Hex(all[..0]) by { HexOfNothing(); assert all[..0] == []; }
      for i := 0 to 16
        invariant str == Hex(all[..i])
        modifies {}
      {
        var t := d[i];
        str := str + [HEX_NUMBERS[t / 16]] + [HEX_NUMBERS[t % 16]];
        HexAppend(all[..i], t);
        assert all[..i + 1] == all[..i] + [t];
      }
      assert all[..16] == all;
    }
  }
}
