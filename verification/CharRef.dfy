// Numeric character references: XMLUtil::GetCharacterRef and ConvertUTF32ToUTF8.

module Utf8 {
  import opened Options

  /** The last of the UTF-8 bytes: marker bit plus the six low bits of the value. */
  function Trail(u: nat): char {
    (0x80 + u % 64) as char
  }

  /** The bytes ConvertUTF32ToUTF8 leaves in its output; empty when it gives up. */
  function Encode(u: nat): string {
    if u < 0x80 then [u as char]
    else if u < 0x800 then [(0xC0 + u / 64) as char, Trail(u)]
    else if u < 0x10000 then [(0xE0 + u / 4096) as char, Trail(u / 64), Trail(u)]
    else if u < 0x200000 then [(0xF0 + u / 262144) as char, Trail(u / 4096), Trail(u / 64), Trail(u)]
    else ""
  }

  /** The arithmetic of Trail is the source's (input | 0x80) & 0xBF. */
  lemma TrailIsMasked(x: bv32)
    ensures ((x | 0x80) & 0xBF) & 0xFF == 0x80 + x % 64
  {
    assert x % 64 == x & 0x3F;
  }

  ghost predicate IsScalar(u: nat) {
    u < 0x110000 && !(0xD800 <= u < 0xE000)
  }

  predicate IsTail(c: char) {
    0x80 <= c as int < 0xC0
  }

  /** Decoder written from the octet grammar of section 4 of RFC 3629, one sequence per string. */
  function Decode(s: string): Option<nat> {
    if |s| == 1 && s[0] as int < 0x80 then Some(s[0] as int)
    else if |s| == 2 && 0xC2 <= s[0] as int < 0xE0 && IsTail(s[1]) then
      Some((s[0] as int - 0xC0) * 64 + (s[1] as int - 0x80))
    else if |s| == 3 && 0xE0 <= s[0] as int < 0xF0 && IsTail(s[1]) && IsTail(s[2])
            && (s[0] as int == 0xE0 ==> s[1] as int >= 0xA0)
            && (s[0] as int == 0xED ==> s[1] as int < 0xA0) then
      Some((s[0] as int - 0xE0) * 4096 + (s[1] as int - 0x80) * 64 + (s[2] as int - 0x80))
    else if |s| == 4 && 0xF0 <= s[0] as int < 0xF5 && IsTail(s[1]) && IsTail(s[2]) && IsTail(s[3])
            && (s[0] as int == 0xF0 ==> s[1] as int >= 0x90)
            && (s[0] as int == 0xF4 ==> s[1] as int < 0x90) then
      Some((s[0] as int - 0xF0) * 262144 + (s[1] as int - 0x80) * 4096 + (s[2] as int - 0x80) * 64 + (s[3] as int - 0x80))
    else None
  }

  lemma ThreeBytes(u: nat)
    requires 0x800 <= u < 0x10000
    ensures Decode(Encode(u)) == Some(u) <==> IsScalar(u)
  {
    var b0, b1, b2 := u / 4096, u / 64 % 64, u % 64;
    assert u == b0 * 4096 + b1 * 64 + b2;
  }

  lemma FourBytes(u: nat)
    requires 0x10000 <= u < 0x200000
    ensures Decode(Encode(u)) == Some(u) <==> IsScalar(u)
  {
    hide Decode;
    var b0, b1, b2, b3 := u / 262144, u / 4096 % 64, u / 64 % 64, u % 64;
    FourDigits(u);
    assert Encode(u) == [(0xF0 + b0) as char, (0x80 + b1) as char, (0x80 + b2) as char, (0x80 + b3) as char];
    FourDecoded(b0, b1, b2, b3);
  }

  lemma FourDigits(u: nat)
    requires u < 0x200000
    ensures u / 262144 < 8 && u == u / 262144 * 262144 + u / 4096 % 64 * 4096 + u / 64 % 64 * 64 + u % 64
  {
    assert u / 64 / 64 == u / 4096 && u / 4096 / 64 == u / 262144;
  }

  lemma FourDecoded(b0: nat, b1: nat, b2: nat, b3: nat)
    requires b0 < 8 && b1 < 64 && b2 < 64 && b3 < 64
    ensures var u := b0 * 262144 + b1 * 4096 + b2 * 64 + b3;
      var s := [(0xF0 + b0) as char, (0x80 + b1) as char, (0x80 + b2) as char, (0x80 + b3) as char];
      u >= 0x10000 ==> (Decode(s) == Some(u) <==> u < 0x110000)
  {}

  /** The emitted bytes are the UTF-8 form of the code point exactly for Unicode scalar values. */
  lemma EncodeIsUtf8(u: nat)
    ensures Decode(Encode(u)) == Some(u) <==> IsScalar(u)
  {
    if 0x800 <= u < 0x10000 {
      ThreeBytes(u);
    } else if 0x10000 <= u < 0x200000 {
      FourBytes(u);
    }
  }

  /** ConvertUTF32ToUTF8: fills `output` from its last byte backwards. */
  method ConvertUTF32ToUTF8(input: nat, output: array<char>) returns (length: nat)
    requires output.Length >= 4
    modifies output
    ensures length <= 4 && output[..length] == Encode(input)
    ensures forall i :: length <= i < output.Length ==> output[i] == old(output[i])
  {
    var u := input;
    if u < 0x80 { length := 1; }
    else if u < 0x800 { length := 2; }
    else if u < 0x10000 { length := 3; }
    else if u < 0x200000 { length := 4; }
    else { return 0; }
    var o := length;
    while o > 1
      invariant 1 <= o <= length
      invariant u == if o == length then input else if o == length - 1 then input / 64
                     else if o == length - 2 then input / 4096 else input / 262144
      invariant forall i :: o <= i < length ==> output[i] == Encode(input)[i]
      invariant forall i :: length <= i < output.Length ==> output[i] == old(output[i])
    {
      o := o - 1;
      output[o] := Trail(u);
      u := u / 64;
    }
    var mark := if length == 1 then 0 else if length == 2 then 0xC0 else if length == 3 then 0xE0 else 0xF0;
    output[0] := (mark + u) as char;
  }
}

module CharRefs {
  import opened Options
  import Utf8

  const WORD: nat := 0x1_0000_0000

  /** Index of the first semicolon at or after `from` (strchr). */
  function FindSemicolon(r: string, from: nat): (k: Option<nat>)
    requires from <= |r|
    ensures k.Some? ==> from <= k.value < |r| && r[k.value] == ';'
    ensures k.Some? ==> forall i :: from <= i < k.value ==> r[i] != ';'
    ensures k.None? ==> forall i :: from <= i < |r| ==> r[i] != ';'
    decreases |r| - from
  {
    if from == |r| then None
    else if r[from] == ';' then Some(from)
    else FindSemicolon(r, from + 1)
  }

  function DigitValue(c: char, base: nat): Option<nat> {
    if '0' <= c <= '9' then Some(c as int - '0' as int)
    else if base == 16 && 'a' <= c <= 'f' then Some(c as int - 'a' as int + 10)
    else if base == 16 && 'A' <= c <= 'F' then Some(c as int - 'A' as int + 10)
    else None
  }

  /** The right-to-left digit loop; r[j] is the 'x' or '#' it stops at. `mult` and each product wrap at 32 bits, `ucs` is wider. */
  function ScanDigits(r: string, j: nat, q: nat, base: nat, mult: nat, ucs: nat): Option<nat>
    requires j <= q < |r|
    decreases q
  {
    if r[q] == r[j] then Some(ucs)
    else match DigitValue(r[q], base)
      case None => None
      case Some(d) => ScanDigits(r, j, q - 1, base, mult * base % WORD, ucs + mult * d % WORD)
  }

  /** The code point and the index of the semicolon of a numeric reference. */
  datatype Number = Number(ucs: nat, semicolon: nat)

  function ReferenceNumber(r: string): (n: Option<Number>)
    requires |r| >= 3
    ensures n.Some? ==> 2 <= n.value.semicolon < |r| && (n.value.semicolon == 2 ==> n.value.ucs == 0)
  {
    var hex := r[2] == 'x';
    var first := if hex then 3 else 2;
    match FindSemicolon(r, first)
    case None => None
    case Some(k) =>
      match ScanDigits(r, first - 1, k - 1, if hex then 16 else 10, 1, 0)
      case None => None
      case Some(ucs) => Some(Number(ucs, k))
  }

  /** What GetCharacterRef reports for the C string r that starts at the ampersand. */
  datatype Ref = NotARef | Ref(text: string, consumed: nat)

  function CharacterRef(r: string): (res: Ref)
    requires |r| > 0
    ensures res.Ref? ==> 1 <= res.consumed <= |r| && |res.text| <= res.consumed
  {
    if |r| < 3 || r[1] != '#' then Ref("", 1)
    else match ReferenceNumber(r)
      case None => NotARef
      case Some(n) => Ref(Utf8.Encode(n.ucs), n.semicolon + 1)
  }

  // ---------- meaning of the digit loop ----------

  /** Left-to-right positional value: the reference the loop is compared with. */
  function Positional(ds: string, base: nat): nat
    requires forall i :: 0 <= i < |ds| ==> DigitValue(ds[i], base).Some?
  {
    if |ds| == 0 then 0
    else Positional(ds[..|ds| - 1], base) * base + DigitValue(ds[|ds| - 1], base).value
  }

  ghost predicate Digits(r: string, j: nat, k: nat, base: nat)
    requires j <= k <= |r|
  {
    forall i :: j <= i < k ==> DigitValue(r[i], base).Some?
  }

  lemma Expand(base: nat, mult: nat, v: nat, d: nat)
    ensures mult * (v * base + d) == (mult * base) * v + mult * d
  {}

  const TENS: seq<nat> := [1, 10, 100, 1000, 10000, 100000, 1000000, 10000000, 100000000, 1000000000]

  lemma TensFit(i: nat, d: nat)
    requires i < 9 && d < 10
    ensures TENS[i] * d % WORD == TENS[i] * d && TENS[i] * 10 % WORD == TENS[i + 1] == TENS[i] * 10
  {}

  /** Up to nine decimal digits the loop computes their positional value, without wrapping. */
  lemma {:induction false} DecimalScanIsPositional(r: string, j: nat, q: nat, i: nat, ucs: nat)
    requires j <= q < |r| && r[j] == '#' && Digits(r, j + 1, q + 1, 10)
    requires i + (q - j) <= 9
    ensures ScanDigits(r, j, q, 10, TENS[i], ucs) == Some(ucs + TENS[i] * Positional(r[j + 1..q + 1], 10))
    decreases q
  {
    var ds := r[j + 1..q + 1];
    if q == j {
      assert ds == "";
    } else {
      var d := DigitValue(r[q], 10).value;
      assert ds[..|ds| - 1] == r[j + 1..q];
      TensFit(i, d);
      Expand(10, TENS[i], Positional(r[j + 1..q], 10), d);
      DecimalScanIsPositional(r, j, q - 1, i + 1, ucs + TENS[i] * d);
    }
  }

  lemma DecimalScan(r: string, j: nat, q: nat)
    requires j <= q < |r| && r[j] == '#' && Digits(r, j + 1, q + 1, 10)
    requires q - j <= 9
    ensures ScanDigits(r, j, q, 10, 1, 0) == Some(Positional(r[j + 1..q + 1], 10))
  {
    DecimalScanIsPositional(r, j, q, 0, 0);
  }

  /** The hexadecimal multipliers; after eight digits the 32-bit multiplier has wrapped to zero. */
  const SIXTEENS: seq<nat> := [1, 0x10, 0x100, 0x1000, 0x10000, 0x100000, 0x1000000, 0x10000000, 0]

  lemma SixteensFit(i: nat, v: nat, d: nat)
    requires i < 8 && d < 16 && (i == 7 ==> v == 0)
    ensures SIXTEENS[i] * d % WORD == SIXTEENS[i] * d && SIXTEENS[i] * 16 % WORD == SIXTEENS[i + 1]
    ensures SIXTEENS[i] * (v * 16 + d) == SIXTEENS[i + 1] * v + SIXTEENS[i] * d
  {}

  /** Once the multiplier has wrapped to zero further digits add nothing. */
  lemma {:induction false} DigitsIgnored(r: string, j: nat, q: nat, ucs: nat)
    requires j <= q < |r| && r[j] == 'x' && Digits(r, j + 1, q + 1, 16)
    ensures ScanDigits(r, j, q, 16, 0, ucs) == Some(ucs)
    decreases q
  {
    if j < q { DigitsIgnored(r, j, q - 1, ucs); }
  }

  /** The last n of the digits, or all of them. */
  function LastOf(ds: string, n: nat): (t: string)
    ensures |t| <= n && |t| <= |ds| && forall i :: 0 <= i < |t| ==> t[i] == ds[|ds| - |t| + i]
  {
    if |ds| <= n then ds else ds[|ds| - n..]
  }

  lemma LastOneMore(ds: string, n: nat)
    requires ds != "" && n > 0
    ensures var t, k := LastOf(ds, n), |ds| - 1;
      t != "" && t[|t| - 1] == ds[k] && t[..|t| - 1] == LastOf(ds[..k], n - 1)
  {}

  lemma DigitBound(c: char, base: nat)
    requires base in {10, 16} && DigitValue(c, base).Some?
    ensures DigitValue(c, base).value < base && c != '#' && c != 'x' && c != ';'
  {}

  /** One turn of the digit loop. */
  lemma ScanStep(r: string, j: nat, q: nat, base: nat, mult: nat, ucs: nat)
    requires j < q < |r| && base in {10, 16} && r[j] in {'#', 'x'} && DigitValue(r[q], base).Some?
    ensures ScanDigits(r, j, q, base, mult, ucs)
         == ScanDigits(r, j, q - 1, base, mult * base % WORD, ucs + mult * DigitValue(r[q], base).value % WORD)
  {
    DigitBound(r[q], base);
  }

  lemma ScanEnd(r: string, j: nat, base: nat, mult: nat, ucs: nat)
    requires j < |r|
    ensures ScanDigits(r, j, j, base, mult, ucs) == Some(ucs)
  {}

  lemma PositionalStep(ds: string, base: nat)
    requires ds != "" && forall i :: 0 <= i < |ds| ==> DigitValue(ds[i], base).Some?
    ensures Positional(ds, base) == Positional(ds[..|ds| - 1], base) * base + DigitValue(ds[|ds| - 1], base).value
  {}

  lemma PositionalOfNone(base: nat)
    ensures Positional("", base) == 0
  {}

  /** The hexadecimal loop computes the positional value of the last eight digits, whatever their number. */
  lemma {:induction false} HexScanIsPositional(r: string, j: nat, q: nat, i: nat, ucs: nat)
    requires j <= q < |r| && r[j] == 'x' && Digits(r, j + 1, q + 1, 16) && i <= 8
    ensures ScanDigits(r, j, q, 16, SIXTEENS[i], ucs) == Some(ucs + SIXTEENS[i] * Positional(LastOf(r[j + 1..q + 1], 8 - i), 16))
    decreases q
  {
    hide LastOf, DigitValue, Positional, ScanDigits;
    var ds := r[j + 1..q + 1];
    PositionalOfNone(16);
    if i == 8 {
      DigitsIgnored(r, j, q, ucs);
      assert LastOf(ds, 0) == "";
    } else if q == j {
      ScanEnd(r, j, 16, SIXTEENS[i], ucs);
      assert LastOf(ds, 8 - i) == "";
    } else {
      var d, used, front := DigitValue(r[q], 16).value, LastOf(ds, 8 - i), LastOf(r[j + 1..q], 7 - i);
      assert ds[..|ds| - 1] == r[j + 1..q] && ds[|ds| - 1] == r[q];
      LastOneMore(ds, 8 - i);
      PositionalStep(used, 16);
      DigitBound(r[q], 16);
      if i == 7 { assert front == ""; }
      SixteensFit(i, Positional(front, 16), d);
      ScanStep(r, j, q, 16, SIXTEENS[i], ucs);
      HexScanIsPositional(r, j, q - 1, i + 1, ucs + SIXTEENS[i] * d);
    }
  }

  /** Every hexadecimal reference "&#xh...h;" is consumed whole and denotes the value of its last eight digits. */
  lemma HexReference(r: string, ds: string)
    requires forall i :: 0 <= i < |ds| ==> DigitValue(ds[i], 16).Some?
    requires |r| >= |ds| + 4 && r[..3] == "&#x" && r[3..3 + |ds|] == ds && r[3 + |ds|] == ';'
    ensures ReferenceNumber(r) == Some(Number(Positional(LastOf(ds, 8), 16), |ds| + 3)) && Positional(LastOf(ds, 8), 16) < WORD
  {
    hide LastOf, DigitValue, Positional, ScanDigits, FindSemicolon;
    HexBound(LastOf(ds, 8));
    var k := 3 + |ds|;
    DigitsAt(r, ds, 3, 16);
    assert r[2] == r[..3][2] == 'x';
    FirstSemicolon(r, 3, k);
    assert SIXTEENS[0] == 1 && 8 - 0 == 8;
    HexScanIsPositional(r, 2, k - 1, 0, 0);
  }

  /** The digits of a reference, where they stand. */
  lemma DigitsAt(r: string, ds: string, at: nat, base: nat)
    requires at + |ds| < |r| && r[at..at + |ds|] == ds && base in {10, 16}
    requires forall i :: 0 <= i < |ds| ==> DigitValue(ds[i], base).Some?
    ensures Digits(r, at, at + |ds|, base) && forall i :: at <= i < at + |ds| ==> r[i] != ';'
  {
    hide DigitValue;
    forall i | at <= i < at + |ds| ensures DigitValue(r[i], base).Some? && r[i] != ';' {
      assert r[i] == ds[i - at];
      DigitBound(r[i], base);
    }
  }

  /** The decimal loop computes the positional value modulo 2^32, whatever the number of digits: its multiplier is the
      power of ten modulo 2^32. */
  lemma {:induction false} DecimalScanWraps(r: string, j: nat, q: nat, mult: nat, ucs: nat)
    requires j <= q < |r| && r[j] == '#' && Digits(r, j + 1, q + 1, 10)
    ensures var scan := ScanDigits(r, j, q, 10, mult, ucs);
      scan.Some? && scan.value % WORD == (ucs + mult * Positional(r[j + 1..q + 1], 10)) % WORD
    decreases q
  {
    hide DigitValue, Positional, ScanDigits;
    var ds := r[j + 1..q + 1];
    if q > j {
      var d, front := DigitValue(r[q], 10).value, r[j + 1..q];
      assert ds[..|ds| - 1] == front;
      var v := Positional(front, 10);
      PositionalStep(ds, 10);
      ScanStep(r, j, q, 10, mult, ucs);
      DecimalScanWraps(r, j, q - 1, mult * 10 % WORD, ucs + mult * d % WORD);
      WrapStep(ucs, mult, v, d);
    } else {
      PositionalOfNone(10);
      ScanEnd(r, j, 10, mult, ucs);
      assert ds == "" && mult * 0 == 0;
    }
  }

  /** One digit more, modulo 2^32. */
  lemma WrapStep(ucs: nat, mult: nat, v: nat, d: nat)
    ensures (ucs + mult * d % WORD + (mult * 10 % WORD) * v) % WORD == (ucs + mult * (v * 10 + d)) % WORD
  {
    var a, b := mult * d / WORD, mult * 10 / WORD;
    assert mult * d == a * WORD + mult * d % WORD && mult * 10 == b * WORD + mult * 10 % WORD;
    Expand(10, mult, v, d);
    Spread(b, mult * 10 % WORD, v);
    DropMultiple(ucs + mult * d % WORD + (mult * 10 % WORD) * v, a + b * v);
  }

  lemma Spread(b: nat, m: nat, v: nat)
    ensures (b * WORD + m) * v == (b * v) * WORD + m * v
  {}

  lemma DropMultiple(x: nat, k: nat)
    ensures (x + k * WORD) % WORD == x % WORD
  {}

  /** Every decimal reference "&#d...d;" is consumed whole and denotes its value modulo 2^32; with at most nine digits,
      its value. */
  lemma DecimalReference(r: string, ds: string)
    requires ds != "" && forall i :: 0 <= i < |ds| ==> DigitValue(ds[i], 10).Some?
    requires |r| >= |ds| + 3 && r[..2] == "&#" && r[2..2 + |ds|] == ds && r[2 + |ds|] == ';'
    ensures ReferenceNumber(r).Some? && ReferenceNumber(r).value.semicolon == |ds| + 2
    ensures ReferenceNumber(r).value.ucs % WORD == Positional(ds, 10) % WORD
    ensures |ds| <= 9 ==> ReferenceNumber(r).value.ucs == Positional(ds, 10) < 1000000000
  {
    hide DigitValue, Positional, ScanDigits, FindSemicolon;
    var k := 2 + |ds|;
    DigitsAt(r, ds, 2, 10);
    DigitBound(r[2], 10);
    assert r[1] == r[..2][1] == '#';
    FirstSemicolon(r, 2, k);
    DecimalScanWraps(r, 1, k - 1, 1, 0);
    if |ds| <= 9 {
      DecimalScan(r, 1, k - 1);
      DecimalBound(ds);
    }
  }

  lemma FirstSemicolon(r: string, from: nat, k: nat)
    requires from <= k < |r| && r[k] == ';' && forall i :: from <= i < k ==> r[i] != ';'
    ensures FindSemicolon(r, from) == Some(k)
  {}

  lemma {:induction false} DecimalBound(ds: string)
    requires |ds| <= 9 && forall i :: 0 <= i < |ds| ==> DigitValue(ds[i], 10).Some?
    ensures Positional(ds, 10) < TENS[|ds|] <= TENS[9]
  {
    if |ds| > 0 { DecimalBound(ds[..|ds| - 1]); }
  }

  lemma {:induction false} HexBound(ds: string)
    requires |ds| <= 8 && forall i :: 0 <= i < |ds| ==> DigitValue(ds[i], 16).Some?
    ensures Positional(ds, 16) < (if |ds| == 8 then WORD else SIXTEENS[|ds|]) <= WORD
  {
    if |ds| > 0 { HexBound(ds[..|ds| - 1]); }
  }
}
