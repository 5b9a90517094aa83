// StrPair: lazily decoded text held as an index range of the shared character buffer.

module TextDecoding {
  import opened Options
  import opened XmlChars
  import opened CharRefs

  /** Which transformations a text still needs. */
  datatype Flags = Flags(entities: bool, newlines: bool)

  /** One turn of the decoding loop at the head of r: what it writes and how far it reads,
      or Skip for an ampersand that starts nothing known. */
  datatype Step = Emit(text: string, consumed: nat) | Skip

  function NextStep(r: string, f: Flags): (s: Step)
    requires |r| > 0
    ensures s.Emit? ==> 1 <= s.consumed <= |r| && |s.text| <= s.consumed
    ensures s.Skip? ==> r[0] == '&'
  {
    if f.newlines && r[0] == CR then Emit([LF], if |r| > 1 && r[1] == LF then 2 else 1)
    else if f.newlines && r[0] == LF then Emit([LF], if |r| > 1 && r[1] == CR then 2 else 1)
    else if f.entities && r[0] == '&' then
      if |r| > 1 && r[1] == '#' then
        match CharacterRef(r)
        case NotARef => Emit(['&'], 1)
        case Ref(text, consumed) => Emit(text, consumed)
      else
        match EntityAt(r)
        case Some(e) => Emit([e.value], |e.pattern| + 2)
        case None => Skip
    else Emit([r[0]], 1)
  }

  /** The intended meaning: a left-to-right decoder that copies unknown ampersands. */
  function Decode(r: string, f: Flags): string
    decreases |r|
  {
    if |r| == 0 then ""
    else match NextStep(r, f)
      case Emit(text, consumed) => text + Decode(r[consumed..], f)
      case Skip => [r[0]] + Decode(r[1..], f)
  }

  /** What the two-cursor loop leaves behind: `out` is written so far, `p` is the read offset. On Skip the
      write cursor moves over a stale character, which is still the original one at that offset. */
  function InPlace(raw: string, p: nat, out: string, f: Flags): (res: string)
    requires |out| <= p <= |raw|
    ensures |res| <= |raw| && out <= res
    decreases |raw| - p
  {
    if p == |raw| then out
    else match NextStep(raw[p..], f)
      case Emit(text, consumed) => InPlace(raw, p + consumed, out + text, f)
      case Skip => InPlace(raw, p + 1, out + [raw[|out|]], f)
  }

  /** Every unknown ampersand met from offset p on, with n characters written, lands on an ampersand. */
  predicate StaleIsAmpersand(raw: string, p: nat, n: nat, f: Flags)
    requires n <= p <= |raw|
    decreases |raw| - p
  {
    p == |raw| ||
    match NextStep(raw[p..], f)
    case Emit(text, consumed) => StaleIsAmpersand(raw, p + consumed, n + |text|, f)
    case Skip => raw[n] == '&' && StaleIsAmpersand(raw, p + 1, n + 1, f)
  }

  lemma SkipStep(out: string, c: char, d: string, res: string)
    requires out + [c] <= res
    requires c == '&' ==> (res == out + [c] + d <==> res == out + ([c] + d))
    ensures c != '&' ==> res != out + (['&'] + d)
  {
    assert res[|out|] == (out + [c])[|out|] == c;
    assert (out + (['&'] + d))[|out|] == '&';
  }

  lemma Reassociate(a: string, b: string, c: string)
    ensures a + b + c == a + (b + c)
  {}

  lemma UnfoldDecode(raw: string, p: nat, f: Flags)
    requires p < |raw|
    ensures var step := NextStep(raw[p..], f);
            Decode(raw[p..], f) == if step.Emit? then step.text + Decode(raw[p + step.consumed..], f)
                                   else ['&'] + Decode(raw[p + 1..], f)
  {
    hide NextStep;
    var step := NextStep(raw[p..], f);
    if step.Emit? { assert raw[p..][step.consumed..] == raw[p + step.consumed..]; }
    assert raw[p..][1..] == raw[p + 1..];
  }

  /** The in-place loop agrees with the decoder exactly when no stale character shows through. */
  lemma {:induction false} InPlaceIsDecode(raw: string, p: nat, out: string, f: Flags)
    requires |out| <= p <= |raw|
    ensures InPlace(raw, p, out, f) == out + Decode(raw[p..], f) <==> StaleIsAmpersand(raw, p, |out|, f)
    decreases |raw| - p
  {
    hide NextStep, Decode;
    if p == |raw| {
      EmptyDecode(f);
    } else {
      UnfoldDecode(raw, p, f);
      var step := NextStep(raw[p..], f);
      if step.Emit? {
        InPlaceIsDecode(raw, p + step.consumed, out + step.text, f);
        Reassociate(out, step.text, Decode(raw[p + step.consumed..], f));
      } else {
        var c, d := raw[|out|], Decode(raw[p + 1..], f);
        InPlaceIsDecode(raw, p + 1, out + [c], f);
        Reassociate(out, [c], d);
        SkipStep(out, c, d, InPlace(raw, p + 1, out + [c], f));
      }
    }
  }

  lemma EmptyDecode(f: Flags)
    ensures Decode("", f) == ""
  {}

  /** Every ampersand at a step starts a reference or an entity of the table. */
  predicate AmpersandsKnown(r: string, f: Flags)
    decreases |r|
  {
    |r| == 0 ||
    match NextStep(r, f)
    case Emit(_, consumed) => AmpersandsKnown(r[consumed..], f)
    case Skip => false
  }

  lemma {:induction false} KnownIsFaithful(raw: string, p: nat, n: nat, f: Flags)
    requires n <= p <= |raw| && AmpersandsKnown(raw[p..], f)
    ensures StaleIsAmpersand(raw, p, n, f)
    decreases |raw| - p
  {
    hide NextStep;
    if p < |raw| {
      var step := NextStep(raw[p..], f);
      assert raw[p..][step.consumed..] == raw[p + step.consumed..];
      KnownIsFaithful(raw, p + step.consumed, n + |step.text|, f);
    }
  }

  /** Texts without unknown ampersands decode to what the pure decoder says. */
  lemma KnownDecodes(raw: string, f: Flags)
    requires AmpersandsKnown(raw, f)
    ensures InPlace(raw, 0, "", f) == Decode(raw, f)
  {
    assert raw[0..] == raw;
    KnownIsFaithful(raw, 0, 0, f);
    InPlaceIsDecode(raw, 0, "", f);
    assert "" + Decode(raw, f) == Decode(raw, f);
  }

  /** An unknown ampersand behind an entity is corrupted: "&lt;&x" reads back as "<lx". */
  lemma StaleCharacterShows()
    ensures var f := Flags(true, true);
            InPlace("&lt;&x", 0, "", f) == "<lx" && Decode("&lt;&x", f) == "<&x"
  {
    var f, raw := Flags(true, true), "&lt;&x";
    assert EntityMatches(raw, ENTITIES[3]);
    assert raw[1] == 'l' && raw[..][1..] == "lt;&x";
    assert EntityAt(raw) == Some(ENTITIES[3]);
    assert NextStep(raw, f) == Emit("<", 4);
    assert raw[0..] == raw && raw[4..] == "&x" && raw[5..] == "x" && raw[6..] == "";
    assert "&x"[1..] == "x" && "x"[1..] == "";
    assert NextStep("&x", f) == Skip;
    assert NextStep("x", f) == Emit("x", 1);
    assert Decode("x", f) == "x";
    assert Decode("&x", f) == "&x";
    assert InPlace(raw, 6, "<lx", f) == "<lx";
    assert InPlace(raw, 5, "<l", f) == "<lx";
    assert InPlace(raw, 4, "<", f) == "<lx";
  }
}

module StrPairs {
  import opened Options
  import opened XmlChars
  import opened CharRefs
  import opened TextDecoding

  /** StrPair: the range [start, end) of the buffer; `flush` is NEEDS_FLUSH. The character at `end`
      is the range's terminator, overwritten with NUL when the text is flushed. */
  datatype StrPair = StrPair(start: nat, end: nat, flags: Flags, flush: bool) {
    /** The state GetStr leaves behind. */
    function Flushed(): StrPair {
      if flush then StrPair(start, end, Flags(false, false), false) else this
    }

    predicate Within(length: nat) {
      start <= end < length
    }

    /** A pending range holds no NUL; a flushed one is terminated no later than its end. */
    ghost predicate Readable(s: seq<char>) {
      && Within(|s|)
      && (flush ==> NoNul(s[start..end]))
      && (!flush ==> s[end] == NUL)
    }
  }

  /** The C string at the head of s. */
  function UpToNul(s: seq<char>): string {
    if |s| == 0 || s[0] == NUL then "" else [s[0]] + UpToNul(s[1..])
  }

  /** The C string that GetStr returns for sp when the buffer holds s. */
  function Value(s: seq<char>, sp: StrPair): string
    requires sp.Within(|s|)
  {
    if sp.flush then UpToNul(InPlace(s[sp.start..sp.end], 0, "", sp.flags))
    else UpToNul(s[sp.start..sp.end])
  }

  lemma UpToNulPrefix(a: string, b: seq<char>)
    ensures UpToNul(a + [NUL] + b) == UpToNul(a)
  {
    if a == "" {
      assert (a + [NUL] + b)[0] == NUL;
    } else {
      UpToNulPrefix(a[1..], b);
      assert (a + [NUL] + b)[1..] == a[1..] + [NUL] + b;
    }
  }

  /** strchr(buf + q, ';') on the C string that ends at the NUL at `end`; the result is `end` when there is none. */
  method FindChar(buf: array<char>, ghost p: nat, q: nat, end: nat) returns (k: nat)
    requires p <= q <= end < buf.Length && buf[end] == NUL && NoNul(buf[p..end])
    ensures q <= k <= end
    ensures FindSemicolon(buf[p..end], q - p) == if k == end then None else Some(k - p)
  {
    k := q;
    while buf[k] != NUL && buf[k] != ';'
      invariant q <= k <= end
      invariant FindSemicolon(buf[p..end], q - p) == FindSemicolon(buf[p..end], k - p)
      decreases end - k
    {
      k := k + 1;
    }
    assert k < end ==> buf[k] == buf[p..end][k - p];
  }

  /** The part of GetCharacterRef that finds the semicolon and scans the digits, for buf[p..] == "&#c...". */
  method ScanReference(buf: array<char>, p: nat, end: nat) returns (n: Option<Number>)
    requires p + 3 <= end < buf.Length && buf[end] == NUL && NoNul(buf[p..end]) && buf[p + 1] == '#'
    ensures n == (match ReferenceNumber(buf[p..end])
                  case None => None
                  case Some(m) => Some(Number(m.ucs, p + m.semicolon)))
  {
    ghost var r := buf[p..end];
    var hex := buf[p + 2] == 'x';
    var first := if hex then p + 3 else p + 2;
    assert r[2] == buf[p + 2] && r[first - 1 - p] == buf[first - 1];
    if buf[first] == NUL {
      assert forall i :: p <= i < end ==> buf[i] == r[i - p] != NUL;
      assert first == end;
      return None;
    }
    var k := FindChar(buf, p, first, end);
    if k == end { return None; }
    var base := if hex then 16 else 10;
    var stop := if hex then 'x' else '#';
    var q, mult: nat, ucs: nat := k - 1, 1, 0;
    ghost var j := first - 1 - p;
    while buf[q] != stop
      decreases q
      invariant first - 1 <= q < k
      invariant ScanDigits(r, j, k - 1 - p, base, 1, 0) == ScanDigits(r, j, q - p, base, mult, ucs)
    {
      assert r[q - p] == buf[q];
      var d := DigitValue(buf[q], base);
      if d.None? { return None; }
      ucs := ucs + mult * d.value % WORD;
      mult := mult * base % WORD;
      q := q - 1;
    }
    assert r[q - p] == buf[q];
    n := Some(Number(ucs, k));
  }

  /** XMLUtil::GetCharacterRef at buf[p]; `adjusted` is -1 for the null result. */
  method GetCharacterRef(buf: array<char>, p: nat, end: nat, value: array<char>) returns (adjusted: int, length: nat)
    requires p < end < buf.Length && buf[end] == NUL && NoNul(buf[p..end])
    requires value.Length >= 4 && value != buf
    modifies value
    ensures match CharacterRef(buf[p..end])
            case NotARef => adjusted == -1
            case Ref(text, consumed) => adjusted == p + consumed && length <= value.Length && value[..length] == text
  {
    ghost var r := buf[p..end];
    assert forall i :: 0 <= i < |r| ==> r[i] == buf[p + i];
    length := 0;
    if buf[p + 1] == '#' && buf[p + 2] != NUL {
      var n := ScanReference(buf, p, end);
      match n {
        case None => adjusted := -1;
        case Some(number) =>
          length := Utf8.ConvertUTF32ToUTF8(number.ucs, value);
          adjusted := number.semicolon + 1;
      }
    } else {
      adjusted := p + 1;
      assert value[..0] == "";
    }
  }

  /** The entity loop of GetStr: the first table entry that matches at buf[p]. */
  method FindEntity(buf: array<char>, p: nat, end: nat) returns (e: Option<Entity>)
    requires p < end < buf.Length
    ensures e == EntityAt(buf[p..end])
  {
    var i := 0;
    while i < |ENTITIES|
      invariant i <= |ENTITIES|
      invariant EntityAt(buf[p..end]) == EntityAt(buf[p..end], i)
    {
      if EntityMatches(buf[p..end], ENTITIES[i]) {
        return Some(ENTITIES[i]);
      }
      i := i + 1;
    }
    e := None;
  }

  /** Without flags every character is copied onto itself. */
  lemma {:induction false} PlainText(raw: string, p: nat)
    requires p <= |raw|
    ensures InPlace(raw, p, raw[..p], Flags(false, false)) == raw
    decreases |raw| - p
  {
    if p < |raw| {
      assert raw[..p] + [raw[p]] == raw[..p + 1];
      PlainText(raw, p + 1);
    }
  }

  /** Its branch for a character reference. */
  method DecodeReference(buf: array<char>, p: nat, q: nat, end: nat, value: array<char>) returns (p': nat, q': nat)
    requires q <= p && p + 1 < end < buf.Length && buf[end] == NUL && NoNul(buf[p..end]) && buf[p] == '&' && buf[p + 1] == '#'
    requires value.Length == 10 && value != buf
    modifies buf, value
    ensures match CharacterRef(old(buf[p..end]))
            case Ref(text, consumed) => p' == p + consumed && q' == q + |text| && buf[q..q'] == text
            case NotARef => p' == p + 1 && q' == q + 1 && buf[q..q'] == "&"
    ensures p' <= end && q' <= p'
    ensures forall i :: 0 <= i < buf.Length && !(q <= i < q') ==> buf[i] == old(buf[i])
  {
    var adjusted, len := GetCharacterRef(buf, p, end, value);
    if adjusted == -1 {
      buf[q] := buf[p];
      p', q' := p + 1, q + 1;
    } else {
      p' := adjusted;
      forall i | 0 <= i < len { buf[q + i] := value[i]; }
      q' := q + len;
    }
  }

  /** One turn of the decoding loop of GetStr, with its read cursor p and write cursor q. */
  method DecodeTurn(buf: array<char>, p: nat, q: nat, end: nat, f: Flags, value: array<char>) returns (p': nat, q': nat)
    requires q <= p < end < buf.Length && buf[end] == NUL && NoNul(buf[p..end])
    requires value.Length == 10 && value != buf
    modifies buf, value
    ensures match NextStep(old(buf[p..end]), f)
            case Emit(text, consumed) => p' == p + consumed && q' == q + |text| && buf[q..q'] == text
            case Skip => p' == p + 1 && q' == q + 1 && buf[q] == old(buf[q])
    ensures p' <= end && q' <= p'
    ensures forall i :: 0 <= i < buf.Length && !(q <= i < q') ==> buf[i] == old(buf[i])
  {
    ghost var r := buf[p..end];
    assert r[0] == buf[p] && (p + 1 < end ==> r[1] == buf[p + 1]);
    if f.newlines && buf[p] == CR {
      p' := if buf[p + 1] == LF then p + 2 else p + 1;
      buf[q] := LF;
      q' := q + 1;
    } else if f.newlines && buf[p] == LF {
      p' := if buf[p + 1] == CR then p + 2 else p + 1;
      buf[q] := LF;
      q' := q + 1;
    } else if f.entities && buf[p] == '&' {
      if buf[p + 1] == '#' {
        p', q' := DecodeReference(buf, p, q, end, value);
      } else {
        var e := FindEntity(buf, p, end);
        match e {
          case Some(entity) =>
            buf[q] := entity.value;
            q' := q + 1;
            p' := p + |entity.pattern| + 2;
          case None =>
            p', q' := p + 1, q + 1;
        }
      }
    } else {
      buf[q] := buf[p];
      p', q' := p + 1, q + 1;
    }
  }

  lemma UnfoldInPlace(raw: string, p: nat, out: string, f: Flags)
    requires |out| <= p < |raw|
    ensures InPlace(raw, p, out, f) == match NextStep(raw[p..], f)
            case Emit(text, consumed) => InPlace(raw, p + consumed, out + text, f)
            case Skip => InPlace(raw, p + 1, out + [raw[|out|]], f)
  {
    hide NextStep;
  }

  lemma EndInPlace(raw: string, out: string, f: Flags)
    requires |out| <= |raw|
    ensures InPlace(raw, |raw|, out, f) == out
  {}

  lemma NoNulRest(s: string, p: nat)
    requires NoNul(s) && p <= |s|
    ensures NoNul(s[p..])
  {}

  /** In the middle of the loop: the output up to the write cursor, the original text behind it. */
  ghost predicate HalfDecoded(buf: array<char>, start: nat, end: nat, q: nat, raw: string, out: string)
    reads buf
  {
    && start <= q <= end < buf.Length && |raw| == end - start && |out| == q - start && buf[end] == NUL
    && (forall i :: start <= i < q ==> buf[i] == out[i - start])
    && (forall i :: q <= i < end ==> buf[i] == raw[i - start])
  }

  lemma Ahead(buf: array<char>, start: nat, end: nat, p: nat, q: nat, raw: string, out: string)
    requires HalfDecoded(buf, start, end, q, raw, out) && q <= p <= end
    ensures buf[p..end] == raw[p - start..] && (q < end ==> buf[q] == raw[|out|])
  {}

  /** A turn of the loop, in terms of what has been written and what the loop will have written. */
  method NextTurn(buf: array<char>, start: nat, end: nat, p: nat, q: nat, f: Flags, value: array<char>, ghost raw: string, ghost out: string)
    returns (p': nat, q': nat, ghost out': string)
    requires HalfDecoded(buf, start, end, q, raw, out) && q <= p < end && NoNul(raw)
    requires value.Length == 10 && value != buf
    modifies buf, value
    ensures HalfDecoded(buf, start, end, q', raw, out') && q' <= p' && p < p' <= end
    ensures InPlace(raw, p' - start, out', f) == InPlace(raw, p - start, out, f)
    ensures forall i :: 0 <= i < buf.Length && !(start <= i < end) ==> buf[i] == old(buf[i])
  {
    hide NextStep, InPlace, NoNul;
    Ahead(buf, start, end, p, q, raw, out);
    NoNulRest(raw, p - start);
    UnfoldInPlace(raw, p - start, out, f);
    ghost var step := NextStep(raw[p - start..], f);
    p', q' := DecodeTurn(buf, p, q, end, f, value);
    ghost var text := if step.Emit? then step.text else [raw[|out|]];
    assert buf[q..q'] == text;
    out' := out + text;
    Extended(buf, start, q, q', out, text);
  }

  /** What a turn writes extends what was written. */
  lemma Extended(buf: array<char>, start: nat, q: nat, q': nat, out: string, text: string)
    requires start <= q <= q' <= buf.Length && |out| == q - start && buf[q..q'] == text
    requires forall i :: start <= i < q ==> buf[i] == out[i - start]
    ensures forall i :: start <= i < q' ==> buf[i] == (out + text)[i - start]
  {
    forall i | q <= i < q' ensures buf[i] == (out + text)[i - start] {
      assert buf[i] == buf[q..q'][i - q];
    }
  }

  /** The decoding loop of GetStr over [start, end), closed with a NUL. */
  method DecodeInPlace(buf: array<char>, start: nat, end: nat, f: Flags)
    requires start <= end < buf.Length && buf[end] == NUL && NoNul(buf[start..end])
    modifies buf
    ensures var v := InPlace(old(buf[start..end]), 0, "", f);
            buf[start..start + |v|] == v && buf[start + |v|] == NUL
    ensures buf[end] == NUL
    ensures forall i :: 0 <= i < buf.Length && !(start <= i <= end) ==> buf[i] == old(buf[i])
  {
    hide InPlace, NoNul;
    ghost var raw := buf[start..end];
    ghost var out := "";
    var p, q := start, start;
    var value := new char[10];
    while p < end
      invariant start <= q <= p <= end && value != buf && value.Length == 10
      invariant HalfDecoded(buf, start, end, q, raw, out)
      invariant InPlace(raw, 0, "", f) == InPlace(raw, p - start, out, f)
      invariant forall i :: 0 <= i < buf.Length && !(start <= i < end) ==> buf[i] == old(buf[i])
      decreases end - p
    {
      p, q, out := NextTurn(buf, start, end, p, q, f, value, raw, out);
    }
    buf[q] := NUL;
    EndInPlace(raw, out, f);
    assert buf[start..q] == out;
  }

  /** StrPair::GetStr: decodes the range in place the first time, and only then. */
  method GetStr(buf: array<char>, sp: StrPair) returns (out: StrPair)
    requires sp.Readable(buf[..])
    modifies buf
    ensures out == sp.Flushed() && out.Readable(buf[..])
    ensures Value(buf[..], out) == old(Value(buf[..], sp))
    ensures !sp.flush ==> buf[..] == old(buf[..])
    ensures sp.flush ==> var v := InPlace(old(buf[sp.start..sp.end]), 0, "", sp.flags);
            buf[sp.start..sp.start + |v|] == v && buf[sp.start + |v|] == NUL
    ensures forall i :: 0 <= i < buf.Length && !(sp.start <= i <= sp.end) ==> buf[i] == old(buf[i])
  {
    hide InPlace, UpToNul;
    out := sp;
    if out.flush {
      ghost var raw := buf[sp.start..sp.end];
      assert raw == buf[..][sp.start..sp.end];
      ghost var v := InPlace(raw, 0, "", sp.flags);
      buf[out.end] := NUL;
      assert buf[sp.start..sp.end] == raw;
      if out.flags != Flags(false, false) {
        DecodeInPlace(buf, out.start, out.end, out.flags);
      } else {
        PlainText(raw, 0);
        assert raw[..0] == "";
      }
      out := StrPair(out.start, out.end, Flags(false, false), false);
      ghost var s := buf[..];
      if |v| < |raw| {
        assert s[sp.start..sp.end] == v + [NUL] + s[sp.start + |v| + 1..sp.end];
        UpToNulPrefix(v, s[sp.start + |v| + 1..sp.end]);
      } else {
        assert s[sp.start..sp.end] == v;
      }
    }
  }
}
