// Holder and tuple_serialize: a list of fields written one behind another into a buffer, and read back.

module TupleSerials {
  import opened Bytes
  import opened Options

  /** sizeof(size_t). */
  const SIZE_T := 8

  /** What a Holder holds: the memory image of a value of fixed size, a std::string, or an array of either. */
  datatype Field =
    | Fixed(image: seq<Byte>)
    | Text(chars: seq<Byte>)
    | FixedArray(width: nat, images: seq<seq<Byte>>)
    | TextArray(texts: seq<seq<Byte>>)

  /** The type of a field, which is all that unserialize knows in advance. */
  datatype Kind = FixedKind(size: nat) | TextKind | FixedArrayKind(width: nat, count: nat) | TextArrayKind(count: nat)

  function KindOf(f: Field): Kind {
    match f
    case Fixed(image) => FixedKind(|image|)
    case Text(_) => TextKind
    case FixedArray(width, images) => FixedArrayKind(width, |images|)
    case TextArray(texts) => TextArrayKind(|texts|)
  }

  function Kinds(fs: seq<Field>): (ks: seq<Kind>)
    ensures |ks| == |fs|
  {
    if fs == [] then [] else [KindOf(fs[0])] + Kinds(fs[1..])
  }

  /** Array elements are of the declared width, and lengths fit into a size_t. */
  predicate Fits(f: Field) {
    match f
    case Fixed(_) => true
    case Text(chars) => TextFits(chars)
    case FixedArray(width, images) => forall i :: 0 <= i < |images| ==> |images[i]| == width
    case TextArray(texts) => forall i :: 0 <= i < |texts| ==> TextFits(texts[i])
  }

  predicate TextFits(chars: seq<Byte>) {
    |chars| + 1 < Power256(SIZE_T)
  }

  predicate AllFit(fs: seq<Field>) {
    forall i :: 0 <= i < |fs| ==> Fits(fs[i])
  }

  // ---------- sizes ----------

  function TextSize(chars: seq<Byte>): nat {
    SIZE_T + |chars| + 1
  }

  function TextsSize(texts: seq<seq<Byte>>): nat {
    if texts == [] then 0 else TextSize(texts[0]) + TextsSize(texts[1..])
  }

  /** Holder::size. */
  function SizeOf(f: Field): nat {
    match f
    case Fixed(image) => |image|
    case Text(chars) => TextSize(chars)
    case FixedArray(width, images) => |images| * width
    case TextArray(texts) => TextsSize(texts)
  }

  /** tuple_size. */
  function TupleSize(fs: seq<Field>): nat {
    if fs == [] then 0 else SizeOf(fs[0]) + TupleSize(fs[1..])
  }

  // ---------- what is written ----------

  /** The length with the NUL, the characters, the NUL. */
  function TextBytes(chars: seq<Byte>): (s: seq<Byte>)
    ensures |s| == TextSize(chars)
  {
    LittleEndian(|chars| + 1, SIZE_T) + chars + [0]
  }

  function TextsBytes(texts: seq<seq<Byte>>): (s: seq<Byte>)
    ensures |s| == TextsSize(texts)
  {
    if texts == [] then [] else TextBytes(texts[0]) + TextsBytes(texts[1..])
  }

  function Flatten(images: seq<seq<Byte>>): seq<Byte> {
    if images == [] then [] else images[0] + Flatten(images[1..])
  }

  function FieldBytes(f: Field): seq<Byte> {
    match f
    case Fixed(image) => image
    case Text(chars) => TextBytes(chars)
    case FixedArray(_, images) => Flatten(images)
    case TextArray(texts) => TextsBytes(texts)
  }

  function TupleBytes(fs: seq<Field>): seq<Byte> {
    if fs == [] then [] else FieldBytes(fs[0]) + TupleBytes(fs[1..])
  }

  lemma {:induction false} FlattenSize(images: seq<seq<Byte>>, width: nat)
    requires forall i :: 0 <= i < |images| ==> |images[i]| == width
    ensures |Flatten(images)| == |images| * width
  {
    if images != [] {
      FlattenSize(images[1..], width);
      assert |images| * width == width + (|images| - 1) * width;
    }
  }

  /** size announces exactly what is written. */
  lemma FieldSizeIsRight(f: Field)
    requires Fits(f)
    ensures |FieldBytes(f)| == SizeOf(f)
  {
    if f.FixedArray? { FlattenSize(f.images, f.width); }
  }

  lemma {:induction false} TupleSizeIsRight(fs: seq<Field>)
    requires AllFit(fs)
    ensures |TupleBytes(fs)| == TupleSize(fs)
  {
    if fs != [] {
      FieldSizeIsRight(fs[0]);
      TupleSizeIsRight(fs[1..]);
    }
  }

  // ---------- what is read ----------

  /** A value read and how many bytes it took. */
  datatype Read<T> = Read(value: T, size: nat)

  /** A string: the length, then that many bytes. None when they run past the end of the bytes given. */
  function ReadText(s: seq<Byte>): (r: Option<Read<seq<Byte>>>)
    ensures r.Some? ==> r.value.size <= |s|
  {
    if |s| < SIZE_T then None
    else
      var n := Value(s[..SIZE_T]);
      if SIZE_T + n > |s| then None else Some(Read(s[SIZE_T..SIZE_T + n], SIZE_T + n))
  }

  function ReadTexts(count: nat, s: seq<Byte>): (r: Option<Read<seq<seq<Byte>>>>)
    ensures r.Some? ==> r.value.size <= |s|
  {
    if count == 0 then Some(Read([], 0))
    else
      match ReadText(s)
      case None => None
      case Some(first) =>
        match ReadTexts(count - 1, s[first.size..])
        case None => None
        case Some(more) => Some(Read([first.value] + more.value, first.size + more.size))
  }

  function Chop(s: seq<Byte>, width: nat, count: nat): seq<seq<Byte>>
    requires |s| == count * width
  {
    if count == 0 then []
    else
      assert count * width == width + (count - 1) * width;
      [s[..width]] + Chop(s[width..], width, count - 1)
  }

  function ReadField(k: Kind, s: seq<Byte>): (r: Option<Read<Field>>)
    ensures r.Some? ==> r.value.size <= |s|
  {
    match k
    case FixedKind(size) => if size > |s| then None else Some(Read(Fixed(s[..size]), size))
    case TextKind =>
      (match ReadText(s)
       case None => None
       case Some(t) => Some(Read(Text(t.value), t.size)))
    case FixedArrayKind(width, count) =>
      if count * width > |s| then None
      else Some(Read(FixedArray(width, Chop(s[..count * width], width, count)), count * width))
    case TextArrayKind(count) =>
      (match ReadTexts(count, s)
       case None => None
       case Some(ts) => Some(Read(TextArray(ts.value), ts.size)))
  }

  function ReadTuple(ks: seq<Kind>, s: seq<Byte>): (r: Option<Read<seq<Field>>>)
    ensures r.Some? ==> r.value.size <= |s|
  {
    if ks == [] then Some(Read([], 0))
    else
      match ReadField(ks[0], s)
      case None => None
      case Some(first) =>
        match ReadTuple(ks[1..], s[first.size..])
        case None => None
        case Some(more) => Some(Read([first.value] + more.value, first.size + more.size))
  }

  // ---------- the round trip ----------

  /** What comes back: a string comes back with the stored NUL as its last character. */
  function RestoredTexts(texts: seq<seq<Byte>>): (r: seq<seq<Byte>>)
    ensures |r| == |texts| && forall i :: 0 <= i < |r| ==> r[i] == texts[i] + [0]
  {
    if texts == [] then [] else [texts[0] + [0]] + RestoredTexts(texts[1..])
  }

  function Restored(f: Field): Field {
    match f
    case Text(chars) => Text(chars + [0])
    case TextArray(texts) => TextArray(RestoredTexts(texts))
    case _ => f
  }

  function RestoredTuple(fs: seq<Field>): (r: seq<Field>)
    ensures |r| == |fs| && forall i :: 0 <= i < |r| ==> r[i] == Restored(fs[i])
  {
    if fs == [] then [] else [Restored(fs[0])] + RestoredTuple(fs[1..])
  }

  lemma TextBack(chars: seq<Byte>, rest: seq<Byte>)
    requires TextFits(chars)
    ensures ReadText(TextBytes(chars) + rest) == Some(Read(chars + [0], TextSize(chars)))
  {
    hide LittleEndian, Value, Power256;
    var s := TextBytes(chars) + rest;
    assert s[..SIZE_T] == LittleEndian(|chars| + 1, SIZE_T);
    ValueOfLittleEndian(|chars| + 1, SIZE_T);
    assert s[SIZE_T..SIZE_T + |chars| + 1] == chars + [0];
  }

  lemma {:induction false} TextsBack(texts: seq<seq<Byte>>, rest: seq<Byte>)
    requires forall i :: 0 <= i < |texts| ==> TextFits(texts[i])
    ensures ReadTexts(|texts|, TextsBytes(texts) + rest) == Some(Read(RestoredTexts(texts), TextsSize(texts)))
  {
    hide TextFits, ReadText, TextBytes;
    if texts != [] {
      var first, more := TextBytes(texts[0]), TextsBytes(texts[1..]);
      assert (first + more) + rest == first + (more + rest);
      TextBack(texts[0], more + rest);
      assert (first + (more + rest))[|first|..] == more + rest;
      TextsBack(texts[1..], rest);
    }
  }

  lemma {:induction false} ImagesBack(images: seq<seq<Byte>>, width: nat)
    requires forall i :: 0 <= i < |images| ==> |images[i]| == width
    ensures |Flatten(images)| == |images| * width && Chop(Flatten(images), width, |images|) == images
  {
    FlattenSize(images, width);
    if images != [] {
      var all := Flatten(images);
      assert all[..width] == images[0] && all[width..] == Flatten(images[1..]);
      ImagesBack(images[1..], width);
    }
  }

  /** A field is read back from its bytes, whatever follows them: fixed-size values exactly, strings with the NUL. */
  lemma FieldBack(f: Field, rest: seq<Byte>)
    requires Fits(f)
    ensures ReadField(KindOf(f), FieldBytes(f) + rest) == Some(Read(Restored(f), SizeOf(f)))
  {
    hide TextFits, ReadText, TextBytes;
    var s := FieldBytes(f) + rest;
    match f
    case Fixed(image) => assert s[..|image|] == image;
    case Text(chars) => TextBack(chars, rest);
    case FixedArray(width, images) =>
      ImagesBack(images, width);
      assert s[..|images| * width] == Flatten(images);
    case TextArray(texts) => TextsBack(texts, rest);
  }

  /** tuple_unserialize consumes exactly the bytes tuple_serialize wrote and restores every field. */
  lemma {:induction false} TupleBack(fs: seq<Field>, rest: seq<Byte>)
    requires AllFit(fs)
    ensures ReadTuple(Kinds(fs), TupleBytes(fs) + rest) == Some(Read(RestoredTuple(fs), TupleSize(fs)))
  {
    hide ReadField, FieldBytes, SizeOf, Restored, Fits;
    if fs != [] {
      var first, more := FieldBytes(fs[0]), TupleBytes(fs[1..]);
      assert (first + more) + rest == first + (more + rest);
      FieldBack(fs[0], more + rest);
      FieldSizeIsRight(fs[0]);
      assert (first + (more + rest))[|first|..] == more + rest;
      TupleBack(fs[1..], rest);
    }
  }

  /** The round trip is exact just when there is no string in the list. */
  lemma ExactWithoutStrings(fs: seq<Field>)
    ensures RestoredTuple(fs) == fs <==>
      forall i :: 0 <= i < |fs| ==> !fs[i].Text? && (fs[i].TextArray? ==> fs[i].texts == [])
  {
    forall i | 0 <= i < |fs|
      ensures Restored(fs[i]) == fs[i] <==> !fs[i].Text? && (fs[i].TextArray? ==> fs[i].texts == [])
    {
      if fs[i].Text? {
        assert |fs[i].chars + [0]| != |fs[i].chars|;
      } else if fs[i].TextArray? && fs[i].texts != [] {
        assert |RestoredTexts(fs[i].texts)[0]| != |fs[i].texts[0]|;
      }
    }
  }

  // ---------- writing and reading in a buffer ----------

  method Memcpy(buf: array<Byte>, at: nat, data: seq<Byte>)
    requires at + |data| <= buf.Length
    modifies buf
    ensures buf[..] == old(buf[..at]) + data + old(buf[at + |data|..])
  {
    forall k | 0 <= k < |data| {
      buf[at + k] := data[k];
    }
  }

  /** Writing more directly behind what has been written. */
  lemma Extended(first: seq<Byte>, at: nat, done: seq<Byte>, more: seq<Byte>, before: seq<Byte>, after: seq<Byte>)
    requires at + |done| + |more| <= |first|
    requires before == first[..at] + done + first[at + |done|..]
    requires after == before[..at + |done|] + more + before[at + |done| + |more|..]
    ensures after == first[..at] + (done + more) + first[at + |done| + |more|..]
  {
    assert before[at + |done| + |more|..] == first[at + |done| + |more|..];
  }

  /** Holder::serialize_help for a std::string. */
  method SerializeText(chars: seq<Byte>, buf: array<Byte>, at: nat, len: nat) returns (s: nat)
    requires at + len <= buf.Length && TextSize(chars) <= len
    modifies buf
    ensures s == TextSize(chars) && buf[..] == old(buf[..at]) + TextBytes(chars) + old(buf[at + s..])
  {
    hide LittleEndian;
    var dataLen := |chars| + 1;
    Memcpy(buf, at, LittleEndian(dataLen, SIZE_T));
    ghost var before := buf[..];
    Memcpy(buf, at + SIZE_T, chars + [0]);
    Extended(old(buf[..]), at, LittleEndian(dataLen, SIZE_T), chars + [0], before, buf[..]);
    assert LittleEndian(dataLen, SIZE_T) + (chars + [0]) == TextBytes(chars);
    s := SIZE_T + dataLen;
  }

  lemma {:induction false} TextsAppend(a: seq<seq<Byte>>, b: seq<seq<Byte>>)
    ensures TextsBytes(a + b) == TextsBytes(a) + TextsBytes(b)
  {
    hide TextBytes;
    if a == [] {
      assert a + b == b;
    } else {
      assert (a + b)[1..] == a[1..] + b;
      TextsAppend(a[1..], b);
    }
  }

  lemma {:induction false} SizesAdd(a: seq<seq<Byte>>, b: seq<seq<Byte>>)
    ensures TextsSize(a + b) == TextsSize(a) + TextsSize(b)
  {
    hide TextSize;
    if a == [] {
      assert a + b == b;
    } else {
      assert (a + b)[1..] == a[1..] + b;
      SizesAdd(a[1..], b);
    }
  }

  lemma OneText(t: seq<Byte>)
    ensures TextsBytes([t]) == TextBytes(t) && TextsSize([t]) == TextSize(t)
  {
    hide TextBytes, TextSize;
    assert [t][1..] == [];
    assert TextBytes(t) + [] == TextBytes(t);
  }

  lemma TextsUpTo(texts: seq<seq<Byte>>, i: nat)
    requires i < |texts|
    ensures TextsBytes(texts[..i + 1]) == TextsBytes(texts[..i]) + TextBytes(texts[i])
    ensures TextsSize(texts[..i + 1]) == TextsSize(texts[..i]) + TextSize(texts[i]) <= TextsSize(texts)
  {
    hide TextBytes, TextsBytes, TextsSize, TextSize;
    assert texts[..i + 1] == texts[..i] + [texts[i]];
    OneText(texts[i]);
    TextsAppend(texts[..i], [texts[i]]);
    SizesAdd(texts[..i], [texts[i]]);
    assert texts == texts[..i + 1] + texts[i + 1..];
    SizesAdd(texts[..i + 1], texts[i + 1..]);
  }

  /** Holder<T[n]>::serialize_help for an array of std::string. */
  method SerializeTexts(texts: seq<seq<Byte>>, buf: array<Byte>, at: nat, len: nat) returns (total: nat)
    requires at + len <= buf.Length && TextsSize(texts) <= len
    modifies buf
    ensures total == TextsSize(texts) && buf[..] == old(buf[..at]) + TextsBytes(texts) + old(buf[at + total..])
  {
    hide TextBytes, TextsBytes, TextsSize, TextSize;
    total := 0;
    NoTexts();
    assert texts[..0] == [];
    for i := 0 to |texts|
      invariant total == TextsSize(texts[..i]) <= len
      invariant buf[..] == old(buf[..at]) + TextsBytes(texts[..i]) + old(buf[at + total..])
    {
      TextsUpTo(texts, i);
      ghost var before := buf[..];
      var s := SerializeText(texts[i], buf, at + total, len - total);
      Extended(old(buf[..]), at, TextsBytes(texts[..i]), TextBytes(texts[i]), before, buf[..]);
      total := total + s;
    }
    assert texts[..|texts|] == texts;
  }

  lemma NoTexts()
    ensures TextsBytes([]) == [] && TextsSize([]) == 0
  {}

  /** Holder::serialize and Holder<T[n]>::serialize. */
  method Serialize(f: Field, buf: array<Byte>, at: nat, len: nat) returns (s: nat)
    requires at + len <= buf.Length && Fits(f) && SizeOf(f) <= len
    modifies buf
    ensures s == SizeOf(f) && buf[..] == old(buf[..at]) + FieldBytes(f) + old(buf[at + s..])
  {
    hide TextBytes, TextsBytes, Flatten, TextFits, TextsSize, TextSize;
    FieldSizeIsRight(f);
    match f
    case Fixed(image) =>
      Memcpy(buf, at, image);
      s := |image|;
    case Text(chars) => s := SerializeText(chars, buf, at, len);
    case FixedArray(width, images) =>
      Memcpy(buf, at, Flatten(images));
      s := width * |images|;
    case TextArray(texts) => s := SerializeTexts(texts, buf, at, len);
  }

  lemma TupleStep(fs: seq<Field>)
    requires AllFit(fs)
    ensures fs == [] ==> TupleSize(fs) == 0 && TupleBytes(fs) == []
    ensures fs != [] ==>
      && Fits(fs[0]) && AllFit(fs[1..])
      && |FieldBytes(fs[0])| == SizeOf(fs[0]) && |TupleBytes(fs[1..])| == TupleSize(fs[1..])
      && TupleSize(fs) == SizeOf(fs[0]) + TupleSize(fs[1..])
      && TupleBytes(fs) == FieldBytes(fs[0]) + TupleBytes(fs[1..])
  {
    hide FieldBytes, SizeOf, Fits;
    if fs != [] {
      FieldSizeIsRight(fs[0]);
      TupleSizeIsRight(fs[1..]);
    }
  }

  /** tuple_serialize: writes exactly tuple_size bytes, and nothing else in the buffer changes. */
  method TupleSerialize(fs: seq<Field>, buf: array<Byte>, at: nat, len: nat) returns (s: nat)
    requires at + len <= buf.Length && AllFit(fs) && TupleSize(fs) <= len
    modifies buf
    ensures s == TupleSize(fs) && buf[..] == old(buf[..at]) + TupleBytes(fs) + old(buf[at + s..])
    decreases fs
  {
    hide FieldBytes, SizeOf, Fits, AllFit, TupleBytes, TupleSize;
    TupleStep(fs);
    if fs == [] {
      s := 0;
    } else {
      s := Serialize(fs[0], buf, at, len);
      ghost var before := buf[..];
      var t := TupleSerialize(fs[1..], buf, at + s, len - s);
      Extended(old(buf[..]), at, FieldBytes(fs[0]), TupleBytes(fs[1..]), before, buf[..]);
      s := s + t;
    }
  }

  lemma Inside(s: seq<Byte>, at: nat, len: nat, i: nat, j: nat)
    requires at + len <= |s| && i <= j <= len
    ensures s[at..at + len][i..j] == s[at + i..at + j] && s[at..at + len][i..] == s[at + i..at + len]
  {
    var t, u := s[at..at + len], s[at + i..at + j];
    forall k | 0 <= k < j - i ensures t[i..j][k] == u[k] {
      assert t[i..j][k] == t[i + k] == s[at + (i + k)];
    }
    assert t[i..j] == u;
  }

  /** Holder::unserialize_help for a std::string. The source does not check the length it finds against len. */
  method UnserializeText(buf: array<Byte>, at: nat, len: nat) returns (chars: seq<Byte>, s: nat)
    requires at + len <= buf.Length && ReadText(buf[at..at + len]).Some?
    ensures ReadText(buf[at..at + len]) == Some(Read(chars, s))
  {
    hide Value;
    Inside(buf[..], at, len, 0, SIZE_T);
    var n := Value(buf[at..at + SIZE_T]);
    Inside(buf[..], at, len, SIZE_T, SIZE_T + n);
    chars := buf[at + SIZE_T..at + SIZE_T + n];
    s := SIZE_T + n;
  }

  lemma ReadTextsStep(count: nat, s: seq<Byte>)
    requires ReadTexts(count, s).Some?
    ensures count == 0 ==> ReadTexts(count, s) == Some(Read([], 0))
    ensures count > 0 ==>
      && ReadText(s).Some?
      && var first := ReadText(s).value;
      && ReadTexts(count - 1, s[first.size..]).Some?
      && var more := ReadTexts(count - 1, s[first.size..]).value;
      ReadTexts(count, s) == Some(Read([first.value] + more.value, first.size + more.size))
  {}

  method UnserializeTexts(count: nat, buf: array<Byte>, at: nat, len: nat) returns (texts: seq<seq<Byte>>, total: nat)
    requires at + len <= buf.Length && ReadTexts(count, buf[at..at + len]).Some?
    ensures ReadTexts(count, buf[at..at + len]) == Some(Read(texts, total))
  {
    hide ReadText, ReadTexts;
    texts, total := [], 0;
    var left := len;
    ghost var all := ReadTexts(count, buf[at..at + len]).value;
    ghost var more := all;
    assert texts + more.value == all.value;
    for i := 0 to count
      invariant |texts| == i && total + left == len
      invariant ReadTexts(count - i, buf[at + total..at + total + left]) == Some(more)
      invariant all == Read(texts + more.value, total + more.size)
    {
      ReadTextsStep(count - i, buf[at + total..at + total + left]);
      var chars, s := UnserializeText(buf, at + total, left);
      Inside(buf[..], at + total, left, s, left);
      ghost var rest := ReadTexts(count - i - 1, buf[at + total + s..at + total + left]).value;
      assert texts + ([chars] + rest.value) == (texts + [chars]) + rest.value;
      texts, more := texts + [chars], rest;
      total := total + s;
      left := left - s;
    }
    ReadTextsStep(0, buf[at + total..at + total + left]);
    assert texts + [] == texts;
  }

  /** Holder::unserialize and Holder<T[n]>::unserialize, for a holder of the given type. */
  method Unserialize(k: Kind, buf: array<Byte>, at: nat, len: nat) returns (f: Field, s: nat)
    requires at + len <= buf.Length && ReadField(k, buf[at..at + len]).Some?
    ensures ReadField(k, buf[at..at + len]) == Some(Read(f, s))
  {
    match k
    case FixedKind(size) =>
      assert buf[at..at + len][..size] == buf[at..at + size];
      f, s := Fixed(buf[at..at + size]), size;
    case TextKind =>
      var chars, n := UnserializeText(buf, at, len);
      f, s := Text(chars), n;
    case FixedArrayKind(width, count) =>
      assert buf[at..at + len][..count * width] == buf[at..at + count * width];
      f, s := FixedArray(width, Chop(buf[at..at + count * width], width, count)), count * width;
    case TextArrayKind(count) =>
      var texts, n := UnserializeTexts(count, buf, at, len);
      f, s := TextArray(texts), n;
  }

  method TupleUnserialize(ks: seq<Kind>, buf: array<Byte>, at: nat, len: nat) returns (fs: seq<Field>, s: nat)
    requires at + len <= buf.Length && ReadTuple(ks, buf[at..at + len]).Some?
    ensures ReadTuple(ks, buf[at..at + len]) == Some(Read(fs, s))
    decreases ks
  {
    hide ReadField;
    if ks == [] {
      return [], 0;
    }
    var f, n := Unserialize(ks[0], buf, at, len);
    assert buf[at..at + len][n..] == buf[at + n..at + len];
    var more, t := TupleUnserialize(ks[1..], buf, at + n, len - n);
    return [f] + more, n + t;
  }

  /** Serialising into a buffer and reading it back, wherever in it and whatever else it holds. */
  method ThereAndBack(fs: seq<Field>, buf: array<Byte>, at: nat, len: nat) returns (back: seq<Field>, written: nat, read: nat)
    requires at + len <= buf.Length && AllFit(fs) && TupleSize(fs) <= len
    modifies buf
    ensures back == RestoredTuple(fs) && written == read == TupleSize(fs)
  {
    hide ReadTuple, TupleBytes, TupleSize, AllFit, RestoredTuple;
    written := TupleSerialize(fs, buf, at, len);
    TupleSizeIsRight(fs);
    assert buf[at..at + len] == TupleBytes(fs) + buf[at + written..at + len];
    TupleBack(fs, buf[at + written..at + len]);
    back, read := TupleUnserialize(Kinds(fs), buf, at, len);
  }
}
