// Numbers as bytes, low-order byte first.

module Bytes {
  type Byte = b: int | 0 <= b < 256

  /** The n low-order bytes of v, low-order first. */
  function LittleEndian(v: nat, n: nat): (s: seq<Byte>)
    ensures |s| == n
  {
    if n == 0 then [] else [v % 256] + LittleEndian(v / 256, n - 1)
  }

  function Value(s: seq<Byte>): nat {
    if s == [] then 0 else s[0] + 256 * Value(s[1..])
  }

  function Power256(n: nat): (p: nat)
    ensures p > 0
  {
    if n == 0 then 1 else 256 * Power256(n - 1)
  }

  /** LittleEndian loses nothing of a value that fits. */
  lemma {:induction false} ValueOfLittleEndian(v: nat, n: nat)
    requires v < Power256(n)
    ensures Value(LittleEndian(v, n)) == v
  {
    if n > 0 {
      ValueOfLittleEndian(v / 256, n - 1);
    }
  }

  lemma FourBytes(v: nat)
    ensures LittleEndian(v, 4) == [v % 256, v / 256 % 256, v / 65536 % 256, v / 16777216 % 256]
  {
    assert v / 256 / 256 == v / 65536 && v / 65536 / 256 == v / 16777216;
    assert LittleEndian(v, 4) == [v % 256] + LittleEndian(v / 256, 3);
    assert LittleEndian(v / 256, 3) == [v / 256 % 256] + LittleEndian(v / 65536, 2);
    assert LittleEndian(v / 65536, 2) == [v / 65536 % 256] + LittleEndian(v / 16777216, 1);
    assert LittleEndian(v / 16777216, 1) == [v / 16777216 % 256] + LittleEndian(v / 16777216 / 256, 0);
  }

  lemma ValueOfFour(s: seq<Byte>)
    requires |s| == 4
    ensures var b0: int, b1: int, b2: int, b3: int := s[0], s[1], s[2], s[3];
      Value(s) == b0 + 256 * b1 + 65536 * b2 + 16777216 * b3 < 0x1_0000_0000
  {
    assert Value(s) == s[0] + 256 * Value(s[1..]);
    assert Value(s[1..]) == s[1] + 256 * Value(s[1..][1..]);
    assert s[1..][1..] == s[2..] && Value(s[2..]) == s[2] + 256 * Value(s[2..][1..]);
    assert s[2..][1..] == s[3..] && Value(s[3..]) == s[3] + 256 * Value(s[3..][1..]);
    assert s[3..][1..] == [];
  }

  /** A 64-bit value is its low-order word followed by its high-order word. */
  lemma {:induction false} LittleEndianSplit(low: nat, high: nat, n: nat, m: nat)
    requires low < Power256(n)
    ensures LittleEndian(low + Power256(n) * high, n + m) == LittleEndian(low, n) + LittleEndian(high, m)
  {
    hide Power256, LittleEndian;
    if n > 0 {
      var rest := Power256(n - 1) * high;
      PowerStep(n, high);
      DivideOut(low, rest);
      LittleEndianSplit(low / 256, high, n - 1, m);
      FirstByte(low + 256 * rest, n + m);
      FirstByte(low, n);
    } else {
      NoByte(low, high);
    }
  }

  lemma FirstByte(v: nat, n: nat)
    requires n > 0
    ensures LittleEndian(v, n) == [v % 256] + LittleEndian(v / 256, n - 1)
  {}

  lemma NoByte(low: nat, high: nat)
    requires low < Power256(0)
    ensures LittleEndian(low, 0) == [] && low + Power256(0) * high == high
  {}

  lemma PowerStep(n: nat, high: nat)
    requires n > 0
    ensures Power256(n) * high == 256 * (Power256(n - 1) * high) && Power256(n - 1) * high >= 0
    ensures forall low: nat :: low < Power256(n) ==> low / 256 < Power256(n - 1)
  {
    var p := Power256(n - 1);
    assert Power256(n) == 256 * p;
    assert (256 * p) * high == 256 * (p * high);
  }

  lemma DivideOut(low: nat, rest: int)
    requires rest >= 0
    ensures (low + 256 * rest) % 256 == low % 256 && (low + 256 * rest) / 256 == low / 256 + rest
  {}
}
