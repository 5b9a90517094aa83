// Printing a document and parsing the result: what comes back, and exactly when it is the document.

module XmlReading {
  import opened StrPairs
  import opened XmlSyntax
  import opened XmlTree
  import opened XmlDocuments

  // ---------- the document a parse result stands for ----------

  function TextAt(s: string, sp: StrPair): string {
    if sp.start <= sp.end <= |s| then TextOf(s, sp) else ""
  }

  function ReadAttributes(s: string, attributes: seq<Attribute>): seq<DomAttribute> {
    if attributes == [] then []
    else
      var a := attributes[|attributes| - 1];
      ReadAttributes(s, attributes[..|attributes| - 1]) + [DomAttribute(TextAt(s, a.name), TextAt(s, a.value))]
  }

  function ReadNode(s: string, n: Node): Dom
    decreases n, 1
  {
    match n
    case Element(name, attributes, children) =>
      DomElement(TextAt(s, name), ReadAttributes(s, attributes), ReadNodes(s, children))
    case Text(value, cdata) => DomText(TextAt(s, value), cdata)
    case Comment(value) => DomComment(TextAt(s, value))
    case Declaration(value) => DomDeclaration(TextAt(s, value))
    case Unknown(value) => DomUnknown(TextAt(s, value))
  }

  function ReadNodes(s: string, ns: seq<Node>): seq<Dom>
    decreases ns, 0
  {
    if ns == [] then [] else ReadNodes(s, ns[..|ns| - 1]) + [ReadNode(s, ns[|ns| - 1])]
  }
}

// Scanning text that is known to start with a printed piece.
module XmlScanning {
  import opened Options
  import opened XmlChars
  import opened TextDecoding
  import opened StrPairs
  import opened Escaping
  import opened XmlSyntax
  import opened XmlTree
  import opened XmlDocuments

  /** From p on, s reads a and then b. */
  ghost predicate Reads(s: string, p: nat, a: string, b: string) {
    p <= |s| && s[p..] == a + b
  }

  lemma Advance(s: string, p: nat, a: string, b: string)
    requires Reads(s, p, a, b)
    ensures p + |a| + |b| == |s| && s[p + |a|..] == b && s[p..p + |a|] == a
    ensures forall i :: 0 <= i < |a| ==> s[p + i] == a[i]
    ensures forall i :: 0 <= i < |b| ==> s[p + |a| + i] == b[i]
  {
    assert s[p..][|a|..] == s[p + |a|..];
    assert (a + b)[|a|..] == b;
    assert s[p..][..|a|] == s[p..p + |a|];
    assert (a + b)[..|a|] == a;
    assert forall i :: 0 <= i < |a| ==> s[p + i] == s[p..][i] == (a + b)[i] == a[i];
    assert forall i :: 0 <= i < |b| ==> s[p + |a| + i] == s[p..][|a| + i] == (a + b)[|a| + i] == b[i];
  }

  lemma AdvanceReads(s: string, p: nat, a: string, b: string, c: string)
    requires Reads(s, p, a, b + c)
    ensures Reads(s, p + |a|, b, c)
  {
    Advance(s, p, a, b + c);
  }

  lemma NoBlanks(s: string, p: nat)
    requires p < |s| && !IsWhiteSpace(s[p])
    ensures SkipWhiteSpace(s, p) == p
  {}

  lemma {:induction false} FindFrom(s: string, p: nat, k: nat, tag: string)
    requires p <= k <= |s| && tag != "" && StartsWith(s, k, tag)
    requires forall i :: p <= i < k ==> !StartsWith(s, i, tag)
    ensures FindTag(s, p, tag) == Some(k)
    decreases k - p
  {
    if p < k { FindFrom(s, p + 1, k, tag); }
  }

  /** A one-character end tag that the value avoids. */
  lemma FindDelimiter(s: string, p: nat, v: string, tag: string, rest: string)
    requires |tag| == 1 && Avoids(v, tag[0]) && Reads(s, p, v, tag + rest)
    ensures FindTag(s, p, tag) == Some(p + |v|)
  {
    Advance(s, p, v, tag + rest);
    assert tag <= tag + rest;
    forall i | p <= i < p + |v| ensures !StartsWith(s, i, tag) {
      assert s[i] == v[i - p] && s[i..][0] == s[i];
    }
    FindFrom(s, p, p + |v|, tag);
  }

  /** An end tag whose last character occurs in it only there, behind a value that does not contain it. */
  lemma FindMarkupEnd(s: string, p: nat, v: string, tag: string, rest: string)
    requires tag != "" && Avoids(tag[..|tag| - 1], tag[|tag| - 1])
    requires !Contains(v, tag) && Reads(s, p, v, tag + rest)
    ensures FindTag(s, p, tag) == Some(p + |v|)
  {
    var last := |tag| - 1;
    Advance(s, p, v, tag + rest);
    assert tag <= tag + rest;
    forall i | p <= i < p + |v| ensures !StartsWith(s, i, tag) {
      var k := i - p;
      assert forall j :: 0 <= j < |tag| && i + j < |s| ==> s[i..][j] == s[i + j];
      if k + |tag| <= |v| {
        assert s[i..][..|tag|] == v[k..][..|tag|];
        assert !StartsWith(v, k, tag);
      } else {
        var j := k + last - |v|;
        assert s[i + last] == s[p + |v| + j] == (tag + rest)[j] == tag[..last][j];
      }
    }
    FindFrom(s, p, p + |v|, tag);
  }

  lemma {:induction false} NameEndFrom(s: string, p: nat, e: nat)
    requires p <= e < |s| && !IsNameChar(s[e]) && forall i :: p <= i < e ==> IsNameChar(s[i])
    ensures NameEnd(s, p) == e
    decreases e - p
  {
    if p < e { NameEndFrom(s, p + 1, e); }
  }

  /** A valid name followed by anything that is not a name character. */
  lemma ScanName(s: string, p: nat, name: string, rest: string)
    requires ValidName(name) && Reads(s, p, name, rest) && rest != "" && !IsNameChar(rest[0])
    ensures p < |s| && IsNameStartChar(s[p]) && !IsWhiteSpace(s[p]) && SkipWhiteSpace(s, p) == p
    ensures NameEnd(s, p + 1) == p + |name| < |s|
    ensures s[p..p + |name|] == name
  {
    Advance(s, p, name, rest);
    assert s[p] == name[0] && s[p + |name| + 0] == rest[0];
    assert forall i :: p <= i < p + |name| ==> s[i] == name[i - p];
    NameEndFrom(s, p + 1, p + |name|);
  }

  // ---------- what the scanned ranges read as ----------

  lemma {:induction false} NoNulIsWhole(v: string)
    requires Avoids(v, NUL)
    ensures UpToNul(v) == v
  {
    if v != "" { NoNulIsWhole(v[1..]); }
  }

  lemma {:induction false} LinesKept(raw: string, p: nat)
    requires p <= |raw| && Avoids(raw, CR)
    ensures InPlace(raw, p, raw[..p], LINE_FLAGS) == raw
    decreases |raw| - p
  {
    if p < |raw| {
      assert raw[p..][0] == raw[p] && (p + 1 < |raw| ==> raw[p..][1] == raw[p + 1]);
      assert raw[..p] + [raw[p]] == raw[..p + 1];
      LinesKept(raw, p + 1);
    }
  }

  lemma LinesRead(s: string, sp: StrPair, v: string)
    requires sp.start <= sp.end <= |s| && Slice(s, sp) == v && Plain(v) && sp.flags == LINE_FLAGS
    ensures TextOf(s, sp) == v
  {
    hide InPlace;
    LinesKept(v, 0);
    assert v[..0] == "";
    NoNulIsWhole(v);
  }

  lemma NameReads(s: string, sp: StrPair, v: string)
    requires sp.start <= sp.end <= |s| && Slice(s, sp) == v && Avoids(v, NUL) && sp.flags == NAME_FLAGS
    ensures TextOf(s, sp) == v
  {
    hide InPlace;
    PlainText(v, 0);
    assert v[..0] == "";
    NoNulIsWhole(v);
  }

  lemma EscapedReads(s: string, sp: StrPair, v: string, restricted: bool)
    requires sp.start <= sp.end <= |s| && Slice(s, sp) == Escape(v, restricted) && Plain(v) && sp.flags == TEXT_FLAGS
    ensures TextOf(s, sp) == v
  {
    hide InPlace;
    EscapeRoundTrip(v, restricted);
    NoNulIsWhole(v);
  }

  lemma NamesHaveNoNul(name: string)
    requires ValidName(name)
    ensures Avoids(name, NUL)
  {}
}

module XmlRoundTrip {
  import opened Options
  import opened XmlChars
  import opened StrPairs
  import opened Escaping
  import opened XmlSyntax
  import opened XmlTree
  import opened XmlDocuments
  import opened XmlReading
  import opened XmlScanning
  import opened XmlPrinting
  import opened XmlLayout
  import opened XmlSpacing

  lemma SnocReadAttribute(s: string, acc: seq<Attribute>, a: Attribute)
    ensures ReadAttributes(s, acc + [a]) == ReadAttributes(s, acc) + [DomAttribute(TextAt(s, a.name), TextAt(s, a.value))]
  {
    assert (acc + [a])[..|acc|] == acc;
  }

  lemma Concat4(a: string, b: string, c: string, d: string, rest: string)
    ensures (a + (b + (c + d))) + rest == a + (b + (c + (d + rest)))
  {}

  /** Where the pieces of a printed attribute lie. */
  lemma AttributeLayout(s: string, p: nat, name: string, v: string, rest: string)
    requires Reads(s, p, " " + (name + ("=\"" + (v + "\""))), rest)
    ensures p < |s| && s[p] == ' ' && Reads(s, p + 1, name, "=\"" + (v + ("\"" + rest)))
    ensures var e := p + 1 + |name|;
      e + 1 < |s| && s[e] == '=' && s[e + 1] == '"' && Reads(s, e + 2, v, "\"" + rest)
  {
    hide Reads;
    var r3 := v + ("\"" + rest);
    var r2 := "=\"" + r3;
    ReadsFour(s, p, " ", name, "=\"", v + "\"", rest);
    assert (v + "\"") + rest == r3;
    OneRead(s, p, ' ', name + r2);
    AdvanceReads(s, p, " ", name, r2);
    AdvanceReads(s, p + 1, name, "=\"", r3);
    TwoRead(s, p + 1 + |name|, '=', '"', r3);
    AdvanceReads(s, p + 1 + |name|, "=\"", v, "\"" + rest);
  }

  lemma ReadsFour(s: string, p: nat, a: string, b: string, c: string, d: string, rest: string)
    requires Reads(s, p, a + (b + (c + d)), rest)
    ensures Reads(s, p, a, b + (c + (d + rest)))
  {
    Concat4(a, b, c, d, rest);
  }

  lemma OneRead(s: string, p: nat, c: char, rest: string)
    requires Reads(s, p, [c], rest)
    ensures p < |s| && s[p] == c
  {
    Advance(s, p, [c], rest);
    assert s[p + 0] == c;
  }

  lemma TwoRead(s: string, p: nat, c: char, d: char, rest: string)
    requires Reads(s, p, [c, d], rest)
    ensures p + 1 < |s| && s[p] == c && s[p + 1] == d
  {
    Advance(s, p, [c, d], rest);
    assert s[p + 0] == c && s[p + 1] == d;
  }

  /** XMLAttribute::ParseDeep on such a layout. */
  lemma AttributeParses(s: string, n: nat, e: nat, k: nat)
    requires n < e && e + 1 < k < |s| && IsNameStartChar(s[n]) && NameEnd(s, n + 1) == e
    requires s[e] == '=' && s[e + 1] == '"' && FindTag(s, e + 2, "\"") == Some(k)
    ensures ParseAttribute(s, n)
         == AttributeAt(Attribute(StrPair(n, e, NAME_FLAGS, false), StrPair(e + 2, k, TEXT_FLAGS, true)), k + 1)
  {
    hide FindTag, NameEnd;
    NoBlanks(s, e);
    NoBlanks(s, e + 1);
    assert [s[e + 1]] == "\"";
  }

  /** One printed attribute is parsed back, up to the character behind its closing quote. */
  lemma AttributeBack(s: string, p: nat, a: DomAttribute, rest: string) returns (out: Attribute)
    requires Reads(s, p, PrintAttribute(a), rest) && ValidName(a.name) && Plain(a.value)
    ensures SkipWhiteSpace(s, p) == p + 1 < |s| && IsNameStartChar(s[p + 1])
    ensures ParseAttribute(s, p + 1) == AttributeAt(out, p + |PrintAttribute(a)|)
    ensures AttributeWithin(s, out) && Slice(s, out.name) == a.name
    ensures TextAt(s, out.name) == a.name && TextAt(s, out.value) == a.value
  {
    hide TextOf, Reads, ParseAttribute, NameEnd, FindTag, Escape;
    var v := Escape(a.value, false);
    AttributeLayout(s, p, a.name, v, rest);
    var n := p + 1;
    var e := n + |a.name|;
    ScanName(s, n, a.name, "=\"" + (v + ("\"" + rest)));
    EscapeProtects(a.value, false);
    FindDelimiter(s, e + 2, v, "\"", rest);
    Advance(s, e + 2, v, "\"" + rest);
    AttributeParses(s, n, e, e + 2 + |v|);
    out := Attribute(StrPair(n, e, NAME_FLAGS, false), StrPair(e + 2, e + 2 + |v|, TEXT_FLAGS, true));
    NamesHaveNoNul(a.name);
    NameReads(s, out.name, a.name);
    EscapedReads(s, out.value, a.value, false);
  }

  ghost predicate Fresh(s: string, acc: seq<Attribute>, attributes: seq<DomAttribute>)
    requires AttributesWithin(s, acc)
  {
    forall i, j :: 0 <= i < |acc| && 0 <= j < |attributes| ==> Slice(s, acc[i].name) != attributes[j].name
  }

  function TagEnd(sealed: bool): string {
    if sealed then "/>" else ">"
  }

  lemma TagEnds(s: string, p: nat, acc: seq<Attribute>, sealed: bool, rest: string)
    requires Reads(s, p, TagEnd(sealed), rest) && AttributesWithin(s, acc)
    ensures ParseAttributes(s, p, acc) == AttributesAt(acc, sealed, p + |TagEnd(sealed)|)
  {
    hide ParseAttribute, HasName, AttributesWithin;
    var tag := TagEnd(sealed);
    Advance(s, p, tag, rest);
    assert s[p + 0] == tag[0] && (sealed ==> s[p + 1] == tag[1]);
    NoBlanks(s, p);
  }

  lemma NextAttribute(s: string, p: nat, acc: seq<Attribute>, a: Attribute, next: nat)
    requires p + 1 < |s| && SkipWhiteSpace(s, p) == p + 1 && IsNameStartChar(s[p + 1]) && AttributesWithin(s, acc)
    requires ParseAttribute(s, p + 1) == AttributeAt(a, next) && !HasName(s, acc, Slice(s, a.name))
    ensures ParseAttributes(s, p, acc) == ParseAttributes(s, next, acc + [a])
  {
    hide ParseAttribute, HasName;
  }

  lemma FreshStep(s: string, acc: seq<Attribute>, a: Attribute, attributes: seq<DomAttribute>)
    requires attributes != [] && AttributesWithin(s, acc) && Fresh(s, acc, attributes) && AttributeWithin(s, a) && Slice(s, a.name) == attributes[0].name
    requires PrintableAttributes(attributes)
    ensures Fresh(s, acc + [a], attributes[1..]) && !HasName(s, acc, Slice(s, a.name)) && PrintableAttributes(attributes[1..])
  {
    forall i, j | 0 <= i < |acc + [a]| && 0 <= j < |attributes[1..]|
      ensures Slice(s, (acc + [a])[i].name) != attributes[1..][j].name
    {
      assert attributes[1..][j] == attributes[j + 1];
    }
  }

  /** A printed attribute list is parsed back, in order, up to the end of the tag. */
  lemma {:induction false} AttributesBack(s: string, p: nat, acc: seq<Attribute>, attributes: seq<DomAttribute>, sealed: bool, rest: string)
    returns (out: seq<Attribute>)
    requires Reads(s, p, PrintAttributes(attributes), TagEnd(sealed) + rest)
    requires PrintableAttributes(attributes) && AttributesWithin(s, acc) && Fresh(s, acc, attributes)
    ensures ParseAttributes(s, p, acc) == AttributesAt(out, sealed, p + |PrintAttributes(attributes)| + |TagEnd(sealed)|)
    ensures ReadAttributes(s, out) == ReadAttributes(s, acc) + attributes
    decreases |attributes|
  {
    hide ParseAttribute, ParseAttributes, TextAt, Reads, Fresh, PrintableAttributes, PrintAttribute, HasName, ReadAttributes;
    var tag := TagEnd(sealed) + rest;
    if attributes == [] {
      AdvanceReads(s, p, "", TagEnd(sealed), rest);
      TagEnds(s, p, acc, sealed, rest);
      out := acc;
    } else {
      var head, more := PrintAttribute(attributes[0]), PrintAttributes(attributes[1..]);
      ReadsSplit(s, p, head, more, tag);
      PrintableHead(attributes);
      var a := AttributeBack(s, p, attributes[0], more + tag);
      FreshStep(s, acc, a, attributes);
      NextAttribute(s, p, acc, a, p + |head|);
      out := AttributesBack(s, p + |head|, acc + [a], attributes[1..], sealed, rest);
      SnocReadAttribute(s, acc, a);
      assert attributes == [attributes[0]] + attributes[1..];
    }
  }

  lemma PrintableHead(attributes: seq<DomAttribute>)
    requires PrintableAttributes(attributes) && attributes != []
    ensures ValidName(attributes[0].name) && Plain(attributes[0].value)
  {}

  lemma ReadsSplit(s: string, p: nat, a: string, b: string, c: string)
    requires Reads(s, p, a + b, c)
    ensures Reads(s, p, a, b + c) && Reads(s, p + |a|, b, c)
  {
    assert a + b + c == a + (b + c);
    AdvanceReads(s, p, a, b, c);
  }

  // ---------- comments, CDATA, declarations, unknowns ----------

  /** The delimiter of markup kind i cannot be mistaken for an earlier kind. */
  ghost predicate Recognised(s: string, p: nat, i: nat)
    requires p <= |s| && i < 4
  {
    StartsWith(s, p, MARKUP[i].open) && forall j :: 0 <= j < i ==> !StartsWith(s, p, MARKUP[j].open)
  }

  lemma {:induction false} MarkupIs(s: string, p: nat, i: nat, from: nat)
    requires p <= |s| && from <= i < 4 && Recognised(s, p, i)
    ensures MarkupAt(s, p, from) == i
    decreases i - from
  {
    if from < i { MarkupIs(s, p, i, from + 1); }
  }

  lemma NotMarkup(s: string, p: nat)
    requires p < |s| && (s[p] != '<' || (p + 1 < |s| && s[p + 1] != '?' && s[p + 1] != '!'))
    ensures MarkupAt(s, p) == 4
  {
    forall i | 0 <= i < 4 ensures !StartsWith(s, p, MARKUP[i].open) {
      var open := MARKUP[i].open;
      assert s[p..][0] == s[p] && (p + 1 < |s| ==> s[p..][1] == s[p + 1]);
      assert open[0] == '<' && (open[1] == '?' || open[1] == '!');
      assert !(open <= s[p..]);
    }
    assert forall i :: 0 <= i <= 4 ==> MarkupAt(s, p, i) == 4 by {
      assert MarkupAt(s, p, 4) == 4 && MarkupAt(s, p, 3) == 4;
      assert MarkupAt(s, p, 2) == 4 && MarkupAt(s, p, 1) == 4;
    }
  }

  ghost predicate MarkupValue(i: nat, v: string)
    requires i < 4
  {
    Plain(v) && !Contains(v, MARKUP[i].close) && (i == 3 ==> !("--" <= v) && !("[CDATA[" <= v))
  }

  /** "<!" followed by v and '>' is a comment or CDATA opening only if v already starts like one. */
  lemma UnknownOpening(s: string, p: nat, v: string, head: string, rest: string)
    requires Reads(s, p, "<!", v + (">" + rest)) && Avoids(head, '>') && StartsWith(s, p, "<!" + head)
    ensures head <= v
  {
    var w := v + (">" + rest);
    assert head <= w by {
      assert s[p..] == "<!" + w && ("<!" + w)[2..] == w;
      assert ("<!" + head)[2..] == head;
      assert s[p..][..2 + |head|] == "<!" + head;
    }
    StopsAt(v, '>', rest, head);
  }

  /** A prefix that avoids the delimiter behind v is a prefix of v. */
  lemma StopsAt(v: string, c: char, rest: string, head: string)
    requires head <= v + ([c] + rest) && Avoids(head, c)
    ensures head <= v
  {
    var w := v + ([c] + rest);
    assert w[|v|] == c && head == w[..|head|];
    assert |v| >= |head| by { assert forall k :: 0 <= k < |head| ==> w[k] == head[k] != c; }
  }

  lemma DiffersAt(s: string, p: nat, open: string, rest: string, other: string, k: nat)
    requires Reads(s, p, open, rest) && k < |open| && k < |other| && open[k] != other[k]
    ensures !StartsWith(s, p, other)
  {
    assert s[p..][k] == (open + rest)[k] == open[k];
    assert |other| <= |s[p..]| ==> s[p..][..|other|][k] == s[p..][k];
  }

  lemma MarkupRecognised(s: string, p: nat, i: nat, v: string, rest: string)
    requires i < 4 && MarkupValue(i, v) && Reads(s, p, MARKUP[i].open, v + (MARKUP[i].close + rest))
    ensures Recognised(s, p, i)
  {
    hide Reads, Contains;
    var open, tail := MARKUP[i].open, v + (MARKUP[i].close + rest);
    assert StartsWith(s, p, open) by { Advance(s, p, open, tail); }
    forall j | 0 <= j < i ensures !StartsWith(s, p, MARKUP[j].open) {
      if i == 3 && j > 0 {
        var head := if j == 1 then "--" else "[CDATA[";
        assert MARKUP[j].open == "<!" + head;
        if StartsWith(s, p, MARKUP[j].open) { UnknownOpening(s, p, v, head, rest); }
      } else {
        DiffersAt(s, p, open, tail, MARKUP[j].open, if j == 0 then 1 else 2);
      }
    }
  }

  lemma MarkupParses(s: string, p: nat, d: bool, i: nat, k: nat)
    requires i < 4 && (i == 0 ==> d) && p < |s| && s[p] == '<' && MarkupAt(s, p) == i
    requires p + |MARKUP[i].open| <= |s| && FindTag(s, p + |MARKUP[i].open|, MARKUP[i].close) == Some(k)
    ensures ParseItem(s, p, d)
         == Child(MarkupNode(i, StrPair(p + |MARKUP[i].open|, k, LINE_FLAGS, true)), k + |MARKUP[i].close|)
  {
    hide FindTag, MarkupAt;
    NoBlanks(s, p);
  }

  /** A printed comment, CDATA section, declaration or unknown is parsed back. */
  lemma MarkupBack(s: string, p: nat, d: bool, i: nat, v: string, rest: string) returns (out: Node)
    requires i < 4 && MarkupValue(i, v) && (i == 0 ==> d)
    requires Reads(s, p, MARKUP[i].open + (v + MARKUP[i].close), rest)
    ensures p < |s| && ParseItem(s, p, d) == Child(out, p + |MARKUP[i].open + (v + MARKUP[i].close)|)
    ensures exists sp :: out == MarkupNode(i, sp) && TextAt(s, sp) == v
  {
    hide TextOf, FindTag, MarkupAt, Contains, ParseItem, Reads, Recognised;
    var open, close := MARKUP[i].open, MARKUP[i].close;
    ReadsThree(s, p, open, v, close, rest);
    MarkupRecognised(s, p, i, v, rest);
    MarkupIs(s, p, i, 0);
    Advance(s, p, open, v + (close + rest));
    assert s[p + 0] == open[0] == '<';
    var start := p + |open|;
    AdvanceReads(s, p, open, v, close + rest);
    FindMarkupEnd(s, start, v, close, rest);
    MarkupParses(s, p, d, i, start + |v|);
    out := MarkupNode(i, StrPair(start, start + |v|, LINE_FLAGS, true));
    LinesReadBack(s, start, v, close + rest);
  }

  lemma LinesReadBack(s: string, start: nat, v: string, rest: string)
    requires Reads(s, start, v, rest) && Plain(v)
    ensures TextAt(s, StrPair(start, start + |v|, LINE_FLAGS, true)) == v
  {
    hide TextOf;
    Advance(s, start, v, rest);
    LinesRead(s, StrPair(start, start + |v|, LINE_FLAGS, true), v);
  }

  lemma ReadsThree(s: string, p: nat, a: string, b: string, c: string, rest: string)
    requires Reads(s, p, a + (b + c), rest)
    ensures Reads(s, p, a, b + (c + rest))
  {
    assert a + (b + c) + rest == a + (b + (c + rest));
  }

  // ---------- plain text ----------

  lemma {:induction false} EscapeKeepsInk(v: string, restricted: bool)
    requires HasInk(v)
    ensures HasInk(Escape(v, restricted))
  {
    var head, rest := EscapeChar(v[0], restricted), Escape(v[1..], restricted);
    if !IsWhiteSpace(v[0]) {
      assert (head + rest)[0] == head[0];
    } else {
      var i :| 0 <= i < |v| && !IsWhiteSpace(v[i]);
      assert v[1..][i - 1] == v[i];
      EscapeKeepsInk(v[1..], restricted);
      var k :| 0 <= k < |rest| && !IsWhiteSpace(rest[k]);
      assert (head + rest)[|head| + k] == rest[k];
    }
  }

  /** Printed text is parsed back when a tag follows. */
  lemma TextBack(s: string, p: nat, d: bool, v: string, rest: string) returns (out: Node)
    requires Plain(v) && HasInk(v) && |rest| >= 2 && rest[0] == '<'
    requires Reads(s, p, Escape(v, true), rest)
    ensures p < |s| && ParseItem(s, p, d) == Child(out, p + |Escape(v, true)|)
    ensures out.Text? && !out.cdata && TextAt(s, out.value) == v
  {
    hide TextOf, FindTag, MarkupAt, Escape;
    var e := Escape(v, true);
    EscapeKeepsInk(v, true);
    EscapeProtects(v, true);
    TextStarts(s, p, e, rest);
    var q := SkipWhiteSpace(s, p);
    NotMarkup(s, q);
    assert rest == "<" + rest[1..];
    FindDelimiter(s, p, e, "<", rest[1..]);
    var sp := StrPair(p, p + |e|, TEXT_FLAGS, true);
    EscapedReads(s, sp, v, true);
    out := Text(sp, false);
  }

  lemma TextStarts(s: string, p: nat, e: string, rest: string)
    requires Reads(s, p, e, rest) && HasInk(e) && Avoids(e, '<')
    ensures var q := SkipWhiteSpace(s, p);
      q < p + |e| <= |s| && s[q] != '<' && p < |s| && s[p] != '<'
  {
    Advance(s, p, e, rest);
    var k :| 0 <= k < |e| && !IsWhiteSpace(e[k]);
    var q := SkipWhiteSpace(s, p);
    assert q <= p + k by { assert s[p + k] == e[k]; }
    assert s[q] == e[q - p] && s[p + 0] == e[0];
  }

  // ---------- elements ----------

  /** A printed name, attribute list and tag end are parsed back. */
  lemma HeadBack(s: string, p: nat, q: nat, slash: bool, name: string, attributes: seq<DomAttribute>, sealed: bool, rest: string)
    returns (out: seq<Attribute>)
    requires p <= q && ValidName(name) && PrintableAttributes(attributes)
    requires Reads(s, q, name, PrintAttributes(attributes) + (TagEnd(sealed) + rest))
    requires if slash then q == p + 1 && p < |s| && s[p] == '/' else q == p
    ensures var e := q + |name|;
      ParseHead(s, p) == Head(StrPair(q, e, NAME_FLAGS, true), out,
                              if sealed then CLOSED else if slash then CLOSING else OPEN,
                              e + |PrintAttributes(attributes)| + |TagEnd(sealed)|)
    ensures ReadAttributes(s, out) == attributes
    ensures Slice(s, StrPair(q, q + |name|, NAME_FLAGS, true)) == name
  {
    hide ParseAttributes, PrintableAttributes, Reads, NameEnd, ParseHead, PrintAttributes, Fresh, ReadAttributes;
    var e := q + |name|;
    TagFollows(attributes, sealed, rest);
    ScanName(s, q, name, PrintAttributes(attributes) + (TagEnd(sealed) + rest));
    AdvanceReads(s, q, name, PrintAttributes(attributes), TagEnd(sealed) + rest);
    NothingFresh(s, attributes);
    out := AttributesBack(s, e, [], attributes, sealed, rest);
    HeadParses(s, p, q, slash, e, out, sealed, e + |PrintAttributes(attributes)| + |TagEnd(sealed)|);
  }

  lemma NothingFresh(s: string, attributes: seq<DomAttribute>)
    ensures Fresh(s, [], attributes) && ReadAttributes(s, []) + attributes == attributes
  {}

  lemma HeadParses(s: string, p: nat, q: nat, slash: bool, e: nat, out: seq<Attribute>, sealed: bool, next: nat)
    requires p <= q < e <= |s| && IsNameStartChar(s[q]) && !IsWhiteSpace(s[q])
    requires if slash then q == p + 1 && s[p] == '/' else q == p
    requires NameEnd(s, q + 1) == e && ParseAttributes(s, e, []) == AttributesAt(out, sealed, next)
    ensures ParseHead(s, p)
         == Head(StrPair(q, e, NAME_FLAGS, true), out, if sealed then CLOSED else if slash then CLOSING else OPEN, next)
  {
    hide ParseAttributes, NameEnd;
    NoBlanks(s, p);
  }

  lemma TagFollows(attributes: seq<DomAttribute>, sealed: bool, rest: string)
    ensures var tail := PrintAttributes(attributes) + (TagEnd(sealed) + rest); tail != "" && !IsNameChar(tail[0])
  {
    if attributes == [] {
      assert (PrintAttributes(attributes) + (TagEnd(sealed) + rest))[0] == TagEnd(sealed)[0];
    } else {
      assert PrintAttribute(attributes[0])[0] == ' ';
    }
  }

  /** An end tag is recognised as one. */
  lemma EndTagBack(s: string, p: nat, name: string, rest: string)
    requires ValidName(name) && Reads(s, p, "</" + (name + ">"), rest)
    ensures p < |s| && s[p] == '<'
    ensures var sp := StrPair(p + 2, p + 2 + |name|, NAME_FLAGS, true);
      ParseItem(s, p, false) == EndTag(sp, p + |"</" + (name + ">")|) && Slice(s, sp) == name
  {
    hide ParseHead, MarkupAt, ParseNodes;
    ReadsThree(s, p, "</", name, ">", rest);
    Advance(s, p, "</", name + (">" + rest));
    assert s[p + 0] == '<' && s[p + 1] == '/';
    AdvanceReads(s, p, "</", name, ">" + rest);
    NoBlanks(s, p);
    NotMarkup(s, p);
    assert PrintAttributes([]) + (TagEnd(false) + rest) == ">" + rest;
    var none := HeadBack(s, p + 1, p + 2, true, name, [], false, rest);
  }

  /** An opening tag that is not sealed starts an element whose content is read by ParseNodes. */
  lemma OpenElementParses(s: string, p: nat, d: bool, name: StrPair, attributes: seq<Attribute>, next: nat,
                          children: seq<Node>, endName: StrPair, after: nat)
    requires p < |s| && s[p] == '<' && MarkupAt(s, p) == 4
    requires ParseHead(s, p + 1) == Head(name, attributes, OPEN, next) && next < |s|
    requires ParseNodes(s, next, false, []) == Closed(children, endName, after)
    requires name.end <= |s| && name.start <= name.end && endName.start <= endName.end <= |s| && Slice(s, endName) == Slice(s, name)
    ensures ParseItem(s, p, d) == Child(Element(name.Flushed(), attributes, children), after)
  {
    hide ParseHead, MarkupAt, ParseNodes;
    NoBlanks(s, p);
  }

  lemma SealedElementParses(s: string, p: nat, d: bool, name: StrPair, attributes: seq<Attribute>, next: nat)
    requires p < |s| && s[p] == '<' && MarkupAt(s, p) == 4
    requires ParseHead(s, p + 1) == Head(name, attributes, CLOSED, next)
    ensures ParseItem(s, p, d) == Child(Element(name, attributes, []), next)
  {
    hide ParseHead, MarkupAt, ParseNodes;
    NoBlanks(s, p);
  }

  /** "<" and the name of a printed element. */
  lemma ElementStarts(s: string, p: nat, name: string, tail: string)
    requires ValidName(name) && Reads(s, p, "<", name + tail)
    ensures p < |s| && s[p] == '<' && MarkupAt(s, p) == 4 && Reads(s, p + 1, name, tail)
  {
    AdvanceReads(s, p, "<", name, tail);
    Advance(s, p, "<", name + tail);
    assert s[p + 0] == '<' && s[p + 1 + 0] == (name + tail)[0] == name[0];
    NotMarkup(s, p);
  }

  /** The printed element, regrouped around its tag end. */
  lemma ElementLayout(s: string, p: nat, name: string, a: string, t: string, c: string, e: string, rest: string)
    requires Reads(s, p, "<" + (name + (a + (t + (c + e)))), rest)
    ensures Reads(s, p, "<", name + (a + (t + (c + (e + rest)))))
  {
    assert "<" + (name + (a + (t + (c + e)))) + rest == "<" + (name + (a + (t + (c + (e + rest)))));
  }

  lemma SkipPieces(s: string, p: nat, a: string, t: string, c: string, rest: string)
    requires Reads(s, p, a, t + (c + rest))
    ensures Reads(s, p + |a| + |t|, c, rest)
  {
    AdvanceReads(s, p, a, t, c + rest);
    AdvanceReads(s, p + |a|, t, c, rest);
  }

  lemma EmptyElementBack(s: string, p: nat, d: bool, name: string, attributes: seq<DomAttribute>, rest: string) returns (out: Node)
    requires ValidName(name) && PrintableAttributes(attributes)
    requires Reads(s, p, PrintNode(DomElement(name, attributes, [])), rest)
    ensures p < |s| && ParseItem(s, p, d) == Child(out, p + |PrintNode(DomElement(name, attributes, []))|)
    ensures ReadNode(s, out) == DomElement(name, attributes, [])
  {
    hide ParseItem, ParseHead, Reads, PrintAttributes, PrintableAttributes, TextOf, MarkupAt;
    var a := PrintAttributes(attributes);
    ReadsFour(s, p, "<", name, a, "/>", rest);
    ElementStarts(s, p, name, a + ("/>" + rest));
    var attrs := HeadBack(s, p + 1, p + 1, false, name, attributes, true, rest);
    var e := p + 1 + |name|;
    var sp := StrPair(p + 1, e, NAME_FLAGS, true);
    SealedElementParses(s, p, d, sp, attrs, e + |a| + 2);
    NamesHaveNoNul(name);
    ReadsInside(s, p + 1, name, a + ("/>" + rest));
    NameReads(s, sp, name);
    out := Element(sp, attrs, []);
  }

  lemma ReadsInside(s: string, p: nat, a: string, b: string)
    requires Reads(s, p, a, b)
    ensures p + |a| + |b| == |s|
  {}

  lemma ParseItemStep(s: string, p: nat, d: bool, acc: seq<Node>, node: Node, next: nat)
    requires p < |s| && ParseItem(s, p, d) == Child(node, next)
    ensures next <= |s| && ParseNodes(s, p, d, acc) == ParseNodes(s, next, d && node.Declaration?, acc + [node])
  {
    hide ParseItem;
  }

  lemma EndTagStep(s: string, p: nat, acc: seq<Node>, name: StrPair, next: nat)
    requires p < |s| && ParseItem(s, p, false) == EndTag(name, next)
    ensures ParseNodes(s, p, false, acc) == Closed(acc, name, next)
  {
    hide ParseItem;
  }

  /** Blanks in front of a tag are skipped. */
  lemma BehindBlanks(s: string, p: nat, d: bool, w: string, rest: string)
    requires Blanks(w) && Reads(s, p, w, rest) && rest != "" && rest[0] == '<'
    ensures p <= p + |w| < |s| && ParseItem(s, p, d) == ParseItem(s, p + |w|, d)
  {
    hide MarkupAt, ParseHead, ParseNodes, ParseMarkup;
    Advance(s, p, w, rest);
    assert s[p + |w| + 0] == '<';
    SkipsTo(s, p, p + |w|);
    NoBlanks(s, p + |w|);
  }

  lemma {:induction false} SkipsTo(s: string, p: nat, k: nat)
    requires p <= k < |s| && !IsWhiteSpace(s[k]) && forall i :: p <= i < k ==> IsWhiteSpace(s[i])
    ensures SkipWhiteSpace(s, p) == k
    decreases k - p
  {
    if p < k { SkipsTo(s, p + 1, k); }
  }

  /** Everything but plain text is printed as a tag of at least two characters. */
  lemma BodyStarts(n: Dom, l: Layout)
    requires !IsPlainText(n) && (n.DomElement? ==> ValidName(n.name))
    ensures |Body(n, l)| >= 2 && Body(n, l)[0] == '<'
  {}

  /** Behind a text that ends the children no gap is printed. */
  lemma NoGapBehindText(children: seq<Dom>, l: Layout)
    requires l.depth > 0 && EndsWithText(children)
    ensures CloseGap(NodesAfter(children, l)) == ""
  {
    DepthRestored(children[..|children| - 1], l);
  }

  lemma EndTagBehind(s: string, m: nat, w: string, gap: string, name: string, rest: string)
    requires ValidName(name) && Blanks(w) && Blanks(gap) && Reads(s, m, w, (gap + ("</" + (name + ">"))) + rest)
    ensures var e := m + |w| + |gap|;
      var sp := StrPair(e + 2, e + 2 + |name|, NAME_FLAGS, true);
      && m < |s| && e + 3 + |name| + |rest| == |s| && Slice(s, sp) == name
      && ParseItem(s, m, false) == EndTag(sp, e + 3 + |name|)
  {
    hide ParseItem;
    var tag := "</" + (name + ">");
    assert s[m..] == (w + gap) + (tag + rest);
    assert Reads(s, m, w + gap, tag + rest);
    BlanksJoined(w, gap);
    assert (tag + rest)[0] == '<';
    BehindBlanks(s, m, false, w + gap, tag + rest);
    AdvanceReads(s, m, w + gap, tag, rest);
    EndTagBack(s, m + |w + gap|, name, rest);
    Advance(s, m + |w + gap|, tag, rest);
  }

  /** The printed start tag of an element with children; what is left is c and what follows it. */
  lemma StartTagBack(s: string, p: nat, name: string, attributes: seq<DomAttribute>, c: string, e: string, rest: string)
    returns (attrs: seq<Attribute>, next: nat)
    requires ValidName(name) && PrintableAttributes(attributes)
    requires Reads(s, p, "<" + (name + (PrintAttributes(attributes) + (">" + (c + e)))), rest)
    ensures p < |s| && s[p] == '<' && MarkupAt(s, p) == 4 && p + |"<" + (name + (PrintAttributes(attributes) + (">" + (c + e))))| + |rest| == |s|
    ensures var sp := StrPair(p + 1, p + 1 + |name|, NAME_FLAGS, true);
      && sp.end <= |s| && Slice(s, sp) == name && TextAt(s, sp.Flushed()) == name
      && ParseHead(s, p + 1) == Head(sp, attrs, OPEN, next) && next <= |s| && ReadAttributes(s, attrs) == attributes
    ensures Reads(s, next, c, e + rest)
  {
    hide ParseHead, Reads, PrintAttributes, PrintableAttributes, TextOf, MarkupAt;
    var a := PrintAttributes(attributes);
    ReadsInside(s, p, "<" + (name + (a + (">" + (c + e)))), rest);
    ElementLayout(s, p, name, a, ">", c, e, rest);
    ElementStarts(s, p, name, a + (">" + (c + (e + rest))));
    attrs := HeadBack(s, p + 1, p + 1, false, name, attributes, false, c + (e + rest));
    next := p + 1 + |name| + |a| + 1;
    AdvanceReads(s, p + 1, name, a, ">" + (c + (e + rest)));
    ReadsInside(s, p + 1, name, a + (">" + (c + (e + rest))));
    SkipPieces(s, p + 1 + |name|, a, ">", c, e + rest);
    ReadsInside(s, next, c, e + rest);
    NamesHaveNoNul(name);
    NameReads(s, StrPair(p + 1, p + 1 + |name|, NAME_FLAGS, true).Flushed(), name);
  }

  /** The printed children of an element and its end tag. */
  lemma ChildrenBack(s: string, next: nat, name: string, children: seq<Dom>, l: Layout, rest: string)
    returns (ns: seq<Node>, endSp: StrPair)
    requires children != [] && ValidName(name) && PrintableNodes(children) && l.entities && l.depth > 0
    requires var gap := CloseGap(NodesAfter(children, l));
      Reads(s, next, NodesText(children, l), (gap + ("</" + (name + ">"))) + rest)
    ensures endSp.start <= endSp.end < |s| && Slice(s, endSp) == name && endSp.end + 1 + |rest| == |s| && next < |s|
    ensures ParseNodes(s, next, false, []) == Closed(ns, endSp, endSp.end + 1)
    ensures ReadNodes(s, ns) == Back("", children, l)
    decreases children, 1
  {
    hide ParseItem, ParseNodes, Reads, PrintableNodes, ReadNodes, NodesText, NodesAfter, CloseGap, BodyNodes, Lead, Back;
    var c, gap, e := NodesText(children, l), CloseGap(NodesAfter(children, l)), "</" + (name + ">");
    NodesPieces(children, l);
    SpacingBlank(children[0], l);
    GapIsBlank(NodesAfter(children, l));
    if EndsWithText(children) { NoGapBehindText(children, l); }
    ReadsInside(s, next, c, (gap + e) + rest);
    var w, m;
    ns, w, m := ItemsBack(s, next, false, [], LeadOf(children, l), children, l, (gap + e) + rest);
    EndTagBehind(s, m, w, gap, name, rest);
    var q := m + |w| + |gap|;
    endSp := StrPair(q + 2, q + 2 + |name|, NAME_FLAGS, true);
    EndTagStep(s, m, ns, endSp, q + 3 + |name|);
    assert [] + ns == ns;
    LeadMatters(children, l);
  }

  lemma OpenElementBack(s: string, p: nat, d: bool, name: string, attributes: seq<DomAttribute>, children: seq<Dom>, l: Layout,
                        rest: string) returns (out: Node)
    requires children != [] && ValidName(name) && PrintableAttributes(attributes) && PrintableNodes(children)
    requires l.entities && l.depth >= 0 && Reads(s, p, Body(DomElement(name, attributes, children), l), rest)
    ensures p < |s| && ParseItem(s, p, d) == Child(out, p + |Body(DomElement(name, attributes, children), l)|)
    ensures ReadNode(s, out) == DomElement(name, attributes, Back("", children, Entered(l))) && out.Element?
    decreases children, 2
  {
    hide ParseItem, ParseHead, ParseNodes, Reads, PrintAttributes, PrintableAttributes, TextAt, MarkupAt, PrintableNodes, ReadNodes;
    hide NodesText, NodesAfter, CloseGap, Back, ReadAttributes, ValidName;
    var l1 := Entered(l);
    var c, e := NodesText(children, l1), CloseGap(NodesAfter(children, l1)) + ("</" + (name + ">"));
    var attrs, next := StartTagBack(s, p, name, attributes, c, e, rest);
    var ns, endSp := ChildrenBack(s, next, name, children, l1, rest);
    var sp := StrPair(p + 1, p + 1 + |name|, NAME_FLAGS, true);
    OpenElementParses(s, p, d, sp, attrs, next, ns, endSp, endSp.end + 1);
    out := Element(sp.Flushed(), attrs, ns);
  }

  lemma GapIsBlank(l: Layout)
    ensures Blanks(CloseGap(l))
  {
    SpacingBlank(DomComment(""), l);
  }

  /** What is printed in front of the first node only matters in front of a text, where nothing is. */
  lemma LeadMatters(ns: seq<Dom>, l: Layout)
    requires ns != []
    ensures Back(LeadOf(ns, l), ns, l) == Back("", ns, l)
  {}

  /** A printed node is parsed back, without what is printed around it for the looks. */
  lemma BodyBack(s: string, p: nat, d: bool, n: Dom, l: Layout, rest: string) returns (out: Node)
    requires PrintableNode(n) && !IsPlainText(n) && l.entities && l.depth >= 0 && Reads(s, p, Body(n, l), rest)
    ensures p < |s| && ParseItem(s, p, d) == Child(out, p + |Body(n, l)|) && !out.Declaration?
    ensures ReadNode(s, out) == BackNode("", n, "", l)
    decreases n, 2
  {
    hide ParseItem, Reads, TextOf, Contains;
    match n
    case DomElement(name, attributes, children) =>
      if children == [] {
        out := EmptyElementBack(s, p, d, name, attributes, rest);
      } else {
        out := OpenElementBack(s, p, d, name, attributes, children, l, rest);
      }
    case DomText(value, cdata) => out := MarkupBack(s, p, d, 2, value, rest);
    case DomComment(value) => out := MarkupBack(s, p, d, 1, value, rest);
    case DomUnknown(value) => out := MarkupBack(s, p, d, 3, value, rest);
  }

  /** A printed text and the blanks around it are parsed back as one text. */
  lemma SpacedTextBack(s: string, p: nat, d: bool, w: string, v: string, g: string, rest: string) returns (out: Node)
    requires Plain(v) && HasInk(v) && Blanks(w) && Blanks(g) && |rest| >= 2 && rest[0] == '<'
    requires Reads(s, p, w + Escape(v, true) + g, rest)
    ensures p < |s| && ParseItem(s, p, d) == Child(out, p + |w + Escape(v, true) + g|)
    ensures out.Text? && !out.cdata && TextAt(s, out.value) == w + v + g
  {
    hide ParseItem, Reads, TextOf, Escape;
    BlanksEscape(w);
    BlanksEscape(g);
    EscapeSplit(w + v, g);
    EscapeSplit(w, v);
    var i :| 0 <= i < |v| && !IsWhiteSpace(v[i]);
    assert (w + v + g)[|w| + i] == v[i];
    out := TextBack(s, p, d, w + v + g, rest);
  }

  lemma BlanksEscape(w: string)
    requires Blanks(w)
    ensures Escape(w, true) == w && Plain(w)
  {
    NothingToEscape(w);
  }

  lemma {:induction false} EscapeSplit(a: string, b: string)
    ensures Escape(a + b, true) == Escape(a, true) + Escape(b, true)
  {
    hide EscapeChar;
    if a == "" {
      assert a + b == b;
    } else {
      assert (a + b)[1..] == a[1..] + b;
      EscapeSplit(a[1..], b);
    }
  }

  lemma {:induction false} NothingToEscape(a: string)
    requires Avoids(a, '&') && Avoids(a, '<') && Avoids(a, '>')
    ensures Escape(a, true) == a
  {
    if a != "" { NothingToEscape(a[1..]); }
  }

  /** Printed siblings behind the blanks w are parsed back one by one; blanks behind the last one are left. */
  lemma {:induction false} ItemsBack(s: string, p: nat, d: bool, acc: seq<Node>, w: string, doms: seq<Dom>, l: Layout, rest: string)
    returns (ns: seq<Node>, left: string, m: nat)
    requires PrintableNodes(doms) && l.entities && l.depth >= 0 && Blanks(w) && Reads(s, p, w + BodyNodes(doms, l), rest)
    requires EndsWithText(doms) ==> |rest| >= 2 && rest[0] == '<'
    ensures Blanks(left) && Reads(s, m, left, rest) && (l.compact && w == "" ==> left == "")
    ensures ParseNodes(s, p, d, acc) == ParseNodes(s, m, d && doms == [], acc + ns)
    ensures ReadNodes(s, ns) == Back(w, doms, l)
    decreases doms, 0
  {
    hide ParseItem, ParseNodes, Reads, Body, Lead, Tail, PrintableNode, ReadNode, NodesText, NodeAfter, BackNode;
    if doms == [] {
      ns, left, m := [], w, p;
      assert acc + [] == acc && w + "" == w;
      ReadsInside(s, p, w, rest);
    } else {
      var n, more, l1 := doms[0], doms[1..], NodeAfter(doms[0], l);
      NodeKeepsMode(n, l);
      NodesPieces(more, l1);
      SpacingBlank(n, l);
      LeadIsBlank(more, l1);
      var out, q, w1 := FirstBack(s, p, d, w, doms, l, rest);
      ParseItemStep(s, p, d, acc, out, q);
      var ns1;
      ns1, left, m := ItemsBack(s, q, false, acc + [out], w1, more, l1, rest);
      ns := [out] + ns1;
      assert acc + [out] + ns1 == acc + ns;
      ReadFirst(s, out, ns1);
    }
  }

  lemma LeadIsBlank(ns: seq<Dom>, l: Layout)
    ensures Blanks(LeadOf(ns, l))
  {
    if ns != [] { SpacingBlank(ns[0], l); }
  }

  /** The first of some siblings. */
  lemma FirstBack(s: string, p: nat, d: bool, w: string, doms: seq<Dom>, l: Layout, rest: string)
    returns (out: Node, q: nat, w1: string)
    requires doms != [] && PrintableNodes(doms) && l.entities && l.depth >= 0 && Blanks(w) && Reads(s, p, w + BodyNodes(doms, l), rest)
    requires EndsWithText(doms) ==> |rest| >= 2 && rest[0] == '<'
    ensures p < |s| && ParseItem(s, p, d) == Child(out, q) && !out.Declaration?
    ensures var more, l1 := doms[1..], NodeAfter(doms[0], l);
      && ReadNode(s, out) == BackNode(w, doms[0], LeadOf(more, l1), l)
      && Blanks(w1) && Reads(s, q, w1 + BodyNodes(more, l1), rest) && (l.compact && w == "" ==> w1 == "")
      && Back(w1, more, l1) == Back(Tail(doms[0], l), more, l1)
    decreases doms[0], 4
  {
    hide ParseItem, Reads, Body, PrintableNode, ReadNode, NodesText, NodeAfter, BodyNodes, Lead, Tail, Back, BackNode;
    var n, more, l1 := doms[0], doms[1..], NodeAfter(doms[0], l);
    var g, bs := LeadOf(more, l1), BodyNodes(more, l1);
    NodeKeepsMode(n, l);
    NodesPieces(more, l1);
    FirstPieces(doms, l);
    SpacingBlank(n, l);
    LeadIsBlank(more, l1);
    if l.compact { CompactLeads(doms, l); }
    Regroup(s, p, w, Body(n, l), Tail(n, l), g, bs, rest);
    assert PrintableNode(n) by { hide LeadOf; }
    if IsPlainText(n) {
      w1 := "";
      TextFollowed(doms, l, rest);
      out := FirstTextBack(s, p, d, w, n, g, bs, rest, l);
      q := p + |w + Escape(n.value, true) + g|;
      assert "" + bs == bs;
    } else {
      w1 := Tail(n, l) + g;
      BlanksJoined(Tail(n, l), g);
      out := FirstTagBack(s, p, d, w, n, g, w1 + bs, rest, l);
      q := p + |w| + |Body(n, l)|;
      TailMatters(n, l, more, l1);
    }
  }

  lemma FirstPieces(ns: seq<Dom>, l: Layout)
    requires ns != []
    ensures BodyNodes(ns, l) == Body(ns[0], l) + (Tail(ns[0], l) + NodesText(ns[1..], NodeAfter(ns[0], l)))
  {
    hide Body, Tail, NodesText, NodeAfter;
  }

  lemma FirstTextBack(s: string, p: nat, d: bool, w: string, n: Dom, g: string, bs: string, rest: string, l: Layout)
    returns (out: Node)
    requires PrintableNode(n) && IsPlainText(n) && Blanks(w) && Blanks(g) && |bs + rest| >= 2 && (bs + rest)[0] == '<'
    requires Reads(s, p, w + Escape(n.value, true) + g, bs + rest)
    ensures p < |s| && ParseItem(s, p, d) == Child(out, p + |w + Escape(n.value, true) + g|) && !out.Declaration?
    ensures ReadNode(s, out) == BackNode(w, n, g, l) && Reads(s, p + |w + Escape(n.value, true) + g|, bs, rest)
  {
    hide ParseItem, Reads, PrintableNode, Escape;
    TextIsPrintable(n);
    out := SpacedTextBack(s, p, d, w, n.value, g, bs + rest);
    AdvanceReads(s, p, w + Escape(n.value, true) + g, bs, rest);
  }

  lemma FirstTagBack(s: string, p: nat, d: bool, w: string, n: Dom, g: string, x: string, rest: string, l: Layout)
    returns (out: Node)
    requires PrintableNode(n) && !IsPlainText(n) && Blanks(w) && l.entities && l.depth >= 0
    requires Reads(s, p, w, Body(n, l) + (x + rest))
    ensures p < |s| && ParseItem(s, p, d) == Child(out, p + |w| + |Body(n, l)|) && !out.Declaration?
    ensures ReadNode(s, out) == BackNode(w, n, g, l) && Reads(s, p + |w| + |Body(n, l)|, x, rest)
    decreases n, 3
  {
    hide ParseItem, Reads, PrintableNode, Body, ReadNode;
    NodeStarts(n, l);
    BehindBlanks(s, p, d, w, Body(n, l) + (x + rest));
    AdvanceReads(s, p, w, Body(n, l), x + rest);
    out := BodyBack(s, p + |w|, d, n, l, x + rest);
    AdvanceReads(s, p + |w|, Body(n, l), x, rest);
  }

  lemma CompactLeads(ns: seq<Dom>, l: Layout)
    requires l.compact && ns != []
    ensures Tail(ns[0], l) == "" && LeadOf(ns[1..], NodeAfter(ns[0], l)) == ""
  {
    NodeKeepsMode(ns[0], l);
    NoSpacing(ns[0], l);
    if |ns| > 1 { NoSpacing(ns[1], NodeAfter(ns[0], l)); }
  }

  lemma TextIsPrintable(n: Dom)
    requires PrintableNode(n) && IsPlainText(n)
    ensures Plain(n.value) && HasInk(n.value)
  {}

  lemma NodeStarts(n: Dom, l: Layout)
    requires PrintableNode(n) && !IsPlainText(n)
    ensures |Body(n, l)| >= 2 && Body(n, l)[0] == '<'
  {
    BodyStarts(n, l);
  }

  /** Behind a plain text comes a tag. */
  lemma TextFollowed(doms: seq<Dom>, l: Layout, rest: string)
    requires doms != [] && IsPlainText(doms[0]) && PrintableNodes(doms)
    requires EndsWithText(doms) ==> |rest| >= 2 && rest[0] == '<'
    ensures var more, l1 := doms[1..], NodeAfter(doms[0], l);
      && Tail(doms[0], l) == "" && Body(doms[0], l) == Escape(doms[0].value, true)
      && |BodyNodes(more, l1) + rest| >= 2 && (BodyNodes(more, l1) + rest)[0] == '<'
  {
    hide NodesText, Escape, NodeAfter;
    if |doms| > 1 { NodeStarts(doms[1], NodeAfter(doms[0], l)); }
  }

  /** The pieces of some siblings, grouped around the first of them. */
  lemma Regroup(s: string, p: nat, w: string, b: string, t: string, g: string, bs: string, rest: string)
    requires Reads(s, p, w + (b + (t + (g + bs))), rest)
    ensures Reads(s, p, w, b + (((t + g) + bs) + rest))
    ensures t == "" ==> Reads(s, p, w + b + g, bs + rest)
  {
    assert w + (b + (t + (g + bs))) + rest == w + (b + (((t + g) + bs) + rest));
    if t == "" { assert w + (b + (t + (g + bs))) + rest == (w + b + g) + (bs + rest); }
  }

  /** Blanks in front of a tag do not matter for what comes back. */
  lemma TailMatters(n: Dom, l: Layout, more: seq<Dom>, l1: Layout)
    ensures Back(Tail(n, l) + LeadOf(more, l1), more, l1) == Back(Tail(n, l), more, l1)
  {
    if more != [] && more[0].DomText? { assert Tail(n, l) + "" == Tail(n, l); }
  }

  /** What must follow printed siblings: a tag, unless they end with something other than plain text. */
  ghost predicate Follows(ns: seq<Dom>, rest: string) {
    EndsWithText(ns) ==> |rest| >= 2 && rest[0] == '<'
  }

  /** Compactly printed siblings are parsed back one by one. */
  lemma NodesBack(s: string, p: nat, d: bool, acc: seq<Node>, doms: seq<Dom>, rest: string) returns (ns: seq<Node>)
    requires PrintableNodes(doms) && Follows(doms, rest) && Reads(s, p, PrintNodes(doms), rest)
    ensures p + |PrintNodes(doms)| <= |s|
    ensures ParseNodes(s, p, d, acc) == ParseNodes(s, p + |PrintNodes(doms)|, d && doms == [], acc + ns)
    ensures ReadNodes(s, ns) == doms
  {
    hide ParseNodes, PrintNodes, PrintableNodes, ReadNodes, NodesText, BodyNodes, Back, Lead, Reads;
    CompactNodes(doms, NewPrinter(true));
    NodesPieces(doms, NewPrinter(true));
    if doms != [] { NoSpacing(doms[0], NewPrinter(true)); }
    assert "" + BodyNodes(doms, NewPrinter(true)) == BodyNodes(doms, NewPrinter(true));
    var left, m;
    ns, left, m := ItemsBack(s, p, d, acc, "", doms, NewPrinter(true), rest);
    CompactBack(doms, NewPrinter(true));
    ReadsInside(s, p, PrintNodes(doms), rest);
    ReadsInside(s, m, left, rest);
  }

  lemma {:induction false} ReadFirst(s: string, node: Node, ns: seq<Node>)
    ensures ReadNodes(s, [node] + ns) == [ReadNode(s, node)] + ReadNodes(s, ns)
  {
    hide ReadNode;
    if ns == [] {
      assert [node] + ns == [node] && [node][..0] == [];
    } else {
      var k := |ns| - 1;
      ReadFirst(s, node, ns[..k]);
      assert ([node] + ns)[..k + 1] == [node] + ns[..k];
    }
  }

  // ---------- documents ----------

  lemma {:induction false} TextJoined(a: seq<Dom>, b: seq<Dom>, l: Layout)
    ensures NodesText(a + b, l) == NodesText(a, l) + NodesText(b, NodesAfter(a, l))
    ensures NodesAfter(a + b, l) == NodesAfter(b, NodesAfter(a, l))
    decreases |b|
  {
    hide NodeText, NodeAfter;
    if b == [] {
      assert a + b == a;
      NoNodes(NodesAfter(a, l));
    } else {
      var k := |b| - 1;
      TextJoined(a, b[..k], l);
      assert (a + b)[..|a| + k] == a + b[..k];
    }
  }

  lemma NothingRead(s: string, l: Layout)
    ensures ReadNodes(s, []) == [] && BodyNodes([], l) == ""
  {}

  /** Printed declarations behind the blanks w are parsed back; no blanks are left behind them. */
  lemma {:induction false} DeclarationsBack(s: string, p: nat, acc: seq<Node>, w: string, doms: seq<Dom>, l: Layout, rest: string)
    returns (ns: seq<Node>, m: nat)
    requires (forall i :: 0 <= i < |doms| ==> PrintableDeclaration(doms[i])) && l.entities && Blanks(w)
    requires Reads(s, p, w + BodyNodes(doms, l), rest)
    ensures Reads(s, m, if doms == [] then w else "", rest)
    ensures ParseNodes(s, p, true, acc) == ParseNodes(s, m, true, acc + ns) && ReadNodes(s, ns) == doms
    decreases |doms|
  {
    hide ParseItem, ParseNodes, Reads, Contains, NodesText, BodyNodes, BeforeTag, ReadNodes;
    if doms == [] {
      ns, m := [], p;
      NothingRead(s, l);
      assert acc + [] == acc && w + "" == w;
      ReadsInside(s, p, w, rest);
    } else {
      var n, more, l1 := doms[0], doms[1..], NodeAfter(doms[0], l);
      var out, q := DeclarationBack(s, p, w, doms, l, rest);
      ParseItemStep(s, p, true, acc, out, q);
      LeadIsBlank(more, l1);
      var ns1;
      ns1, m := DeclarationsBack(s, q, acc + [out], LeadOf(more, l1), more, l1, rest);
      ns := [out] + ns1;
      assert acc + [out] + ns1 == acc + ns;
      ReadFirst(s, out, ns1);
      assert doms == [n] + more;
    }
  }

  /** The first of them. */
  lemma DeclarationBack(s: string, p: nat, w: string, doms: seq<Dom>, l: Layout, rest: string) returns (out: Node, q: nat)
    requires doms != [] && PrintableDeclaration(doms[0]) && l.entities && Blanks(w) && Reads(s, p, w + BodyNodes(doms, l), rest)
    ensures p < |s| && ParseItem(s, p, true) == Child(out, q) && out.Declaration? && ReadNode(s, out) == doms[0]
    ensures var more, l1 := doms[1..], NodeAfter(doms[0], l);
      Reads(s, q, LeadOf(more, l1) + BodyNodes(more, l1), rest) && l1.entities
  {
    hide ParseItem, Reads, Contains, NodesText, BodyNodes, LeadOf;
    var n, more, l1 := doms[0], doms[1..], NodeAfter(doms[0], l);
    NodesPieces(more, l1);
    FirstPieces(doms, l);
    var b, g, bs := Body(n, l), LeadOf(more, l1), BodyNodes(more, l1);
    Regroup(s, p, w, b, "", g, bs, rest);
    assert "" + g == g;
    BehindBlanks(s, p, true, w, b + ((g + bs) + rest));
    AdvanceReads(s, p, w, b, (g + bs) + rest);
    out := MarkupBack(s, p + |w|, true, 0, n.value, (g + bs) + rest);
    q := p + |w| + |b|;
    AdvanceReads(s, p + |w|, b, g + bs, rest);
  }

  lemma {:induction false} ReadJoined(s: string, a: seq<Node>, b: seq<Node>)
    ensures ReadNodes(s, a + b) == ReadNodes(s, a) + ReadNodes(s, b)
  {
    hide ReadNode;
    if b == [] {
      assert a + b == a;
    } else {
      var k := |b| - 1;
      ReadJoined(s, a, b[..k]);
      assert (a + b)[..|a| + k] == a + b[..k];
    }
  }

  /** A text at the very end of the input is an error, wherever the parser comes to it. */
  lemma TextAtEndFails(s: string, p: nat, d: bool, acc: seq<Node>, v: string)
    requires Plain(v) && HasInk(v) && Reads(s, p, Escape(v, true), "")
    ensures ParseNodes(s, p, d, acc).Failed?
  {
    hide MarkupAt, Escape, ParseHead;
    EscapeKeepsInk(v, true);
    EscapeProtects(v, true);
    TextStarts(s, p, Escape(v, true), "");
    NotMarkup(s, SkipWhiteSpace(s, p));
    Advance(s, p, Escape(v, true), "");
    NoTagAhead(s, p);
  }

  lemma {:induction false} NoTagAhead(s: string, p: nat)
    requires p <= |s| && forall i :: p <= i < |s| ==> s[i] != '<'
    ensures FindTag(s, p, "<") == None
    decreases |s| - p
  {
    if p < |s| {
      assert s[p..][0] == s[p];
      NoTagAhead(s, p + 1);
    }
  }

  /** So is one behind blanks. */
  lemma BlankedTextFails(s: string, p: nat, d: bool, acc: seq<Node>, w: string, v: string)
    requires Blanks(w) && Plain(v) && HasInk(v) && Reads(s, p, w, Escape(v, true))
    ensures ParseNodes(s, p, d, acc).Failed?
  {
    hide ParseNodes, Escape;
    BlanksEscape(w);
    EscapeSplit(w, v);
    var i :| 0 <= i < |v| && !IsWhiteSpace(v[i]);
    assert (w + v)[|w| + i] == v[i];
    assert s[p..] == Escape(w + v, true) + "";
    TextAtEndFails(s, p, d, acc, w + v);
  }

  /** Blanks at the end of the input end the parse. */
  lemma BlanksAtEnd(s: string, m: nat, d: bool, acc: seq<Node>, w: string)
    requires Reads(s, m, w, "") && Blanks(w)
    ensures ParseNodes(s, m, d, acc) == Ended(acc)
  {
    Advance(s, m, w, "");
    if m < |s| { SkipsToEnd(s, m); }
  }

  lemma {:induction false} SkipsToEnd(s: string, m: nat)
    requires m <= |s| && forall i :: m <= i < |s| ==> IsWhiteSpace(s[i])
    ensures SkipWhiteSpace(s, m) == |s|
    decreases |s| - m
  {
    if m < |s| { SkipsToEnd(s, m + 1); }
  }

  /** Printed siblings up to the end of the input: an error if they end with plain text, and read back otherwise. */
  lemma NodesToTheEnd(s: string, p: nat, d: bool, acc: seq<Node>, w: string, doms: seq<Dom>, l: Layout) returns (ns: seq<Node>)
    requires PrintableNodes(doms) && l.entities && l.depth >= 0 && Blanks(w) && Reads(s, p, w + BodyNodes(doms, l), "")
    ensures if EndsWithText(doms) then ParseNodes(s, p, d, acc).Failed?
            else ParseNodes(s, p, d, acc) == Ended(acc + ns) && ReadNodes(s, ns) == Back(w, doms, l)
  {
    hide ParseNodes, Reads, PrintableNodes, BodyNodes, ReadNodes, Back, Escape;
    var left, m;
    if EndsWithText(doms) {
      var k := |doms| - 1;
      assert doms[..k] + [doms[k]] == doms;
      FrontPrintable(doms[..k], doms[k]);
      TextIsPrintable(doms[k]);
      LastBody(doms[..k], doms[k], l);
      var last := Escape(doms[k].value, true);
      ReadsLast(s, p, w, BodyNodes(doms[..k], l), last);
      ns, left, m := ItemsBack(s, p, d, acc, w, doms[..k], l, last);
      BlankedTextFails(s, m, d && doms[..k] == [], acc + ns, left, doms[k].value);
    } else {
      ns, left, m := ItemsBack(s, p, d, acc, w, doms, l, "");
      BlanksAtEnd(s, m, d && doms == [], acc + ns, left);
    }
  }

  lemma {:induction false} FrontPrintable(front: seq<Dom>, last: Dom)
    requires PrintableNodes(front + [last])
    ensures PrintableNodes(front) && PrintableNode(last)
    ensures front != [] && IsPlainText(last) ==> !IsPlainText(front[|front| - 1])
  {
    hide PrintableNode;
    if front != [] {
      assert (front + [last])[1..] == front[1..] + [last];
      FrontPrintable(front[1..], last);
    } else {
      assert front + [last] == [last];
    }
  }

  lemma LastBody(front: seq<Dom>, last: Dom, l: Layout)
    requires IsPlainText(last) && l.entities
    ensures BodyNodes(front + [last], l) == BodyNodes(front, l) + Escape(last.value, true)
  {
    hide NodesText, BodyNodes, Escape, Lead, NodeAfter;
    var l1 := NodesAfter(front, l);
    DepthRestored(front, l);
    TextJoined(front, [last], l);
    NodesPieces(front, l);
    NodesPieces([last], l1);
    NodesPieces(front + [last], l);
    OnlyTextPieces(last, l1);
    var e := Escape(last.value, true);
    if front == [] {
      NothingRead("", l);
      NoNodes(l);
      assert front + [last] == [last] && "" + e == e;
    } else {
      var g := LeadOf(front, l);
      assert g + BodyNodes(front + [last], l) == g + (BodyNodes(front, l) + e);
      SameTail(g, BodyNodes(front + [last], l), BodyNodes(front, l) + e);
    }
  }

  lemma OnlyTextPieces(n: Dom, l: Layout)
    requires IsPlainText(n)
    ensures LeadOf([n], l) == "" && BodyNodes([n], l) == Escape(n.value, true)
  {
    hide NodesText, Escape, NodeAfter;
    NoNodes(NodeAfter(n, l));
    assert [n][1..] == [];
  }

  lemma SameTail(g: string, a: string, b: string)
    requires g + a == g + b
    ensures a == b
  {
    assert (g + a)[|g|..] == a && (g + b)[|g|..] == b;
  }

  lemma ReadsLast(s: string, p: nat, w: string, front: string, last: string)
    requires Reads(s, p, w + (front + last), "")
    ensures Reads(s, p, w + front, last)
  {
    assert w + (front + last) + "" == (w + front) + last;
  }

  /** Declarations come back as they are. */
  lemma {:induction false} BackJoined(declarations: seq<Dom>, ns: seq<Dom>, l: Layout)
    requires forall i :: 0 <= i < |declarations| ==> declarations[i].DomDeclaration?
    ensures Back("", declarations + ns, l) == declarations + Back("", ns, NodesAfter(declarations, l))
    decreases |declarations|
  {
    hide *;
    if declarations == [] {
      NoNodes(l);
      assert declarations + ns == ns;
      assert declarations + Back("", ns, l) == Back("", ns, l);
    } else {
      var n, more := declarations[0], declarations[1..];
      var l1 := NodeAfter(n, l);
      NodesFirst(declarations, l);
      assert (declarations + ns)[1..] == more + ns && (declarations + ns)[0] == n;
      BackFirst(declarations + ns, l);
      BackJoined(more, ns, l1);
      var back := Back("", ns, NodesAfter(declarations, l));
      assert [n] + (more + back) == declarations + back;
    }
  }

  lemma BackFirst(ns: seq<Dom>, l: Layout)
    requires ns != [] && ns[0].DomDeclaration?
    ensures Back("", ns, l) == [ns[0]] + Back("", ns[1..], NodeAfter(ns[0], l))
  {
    hide NodeAfter, LeadOf;
  }

  /** Nothing is printed in front of the first node, nor between a text that opens the document and the next node. */
  lemma NothingInFront(ns: seq<Dom>, l: Layout)
    requires l.first && l.depth == 0
    ensures LeadOf(ns, l) == ""
  {}

  /** The same for a whole document, declarations first. */
  lemma DocumentToTheEnd(s: string, p: nat, declarations: seq<Dom>, ns: seq<Dom>, l: Layout) returns (nodes: seq<Node>)
    requires PrintableParts(declarations, ns) && l.entities && l.first && l.depth == 0
    requires p <= |s| && s[p..] == NodesText(declarations + ns, l)
    ensures if EndsWithText(ns) then ParseNodes(s, p, true, []).Failed?
            else ParseNodes(s, p, true, []) == Ended(nodes) && ReadNodes(s, nodes) == Back("", declarations + ns, l)
  {
    hide ParseNodes, Reads, PrintableNodes, NodesText, BodyNodes, ReadNodes, Back, NodesAfter, LeadOf;
    var l1 := NodesAfter(declarations, l);
    TextJoined(declarations, ns, l);
    DepthRestored(declarations, l);
    NodesPieces(declarations, l);
    NothingInFront(declarations, l);
    assert "" + BodyNodes(declarations, l) == BodyNodes(declarations, l);
    Joined(s, p, NodesText(declarations, l), NodesText(ns, l1));
    var a, m := DeclarationsBack(s, p, [], "", declarations, l, NodesText(ns, l1));
    NodesPieces(ns, l1);
    LeadIsBlank(ns, l1);
    assert NodesText(ns, l1) + "" == NodesText(ns, l1) && "" + NodesText(ns, l1) == NodesText(ns, l1) && [] + a == a;
    AdvanceReads(s, m, "", NodesText(ns, l1), "");
    var b := NodesToTheEnd(s, m, true, a, LeadOf(ns, l1), ns, l1);
    nodes := a + b;
    ReadJoined(s, a, b);
    assert Back(LeadOf(ns, l1), ns, l1) == Back("", ns, l1) by { if ns != [] { LeadMatters(ns, l1); } else { NoLead(l1); } }
    assert forall i :: 0 <= i < |declarations| ==> PrintableDeclaration(declarations[i]) ==> declarations[i].DomDeclaration?;
    BackJoined(declarations, ns, l);
  }

  lemma NoLead(l: Layout)
    ensures LeadOf([], l) == ""
  {}

  lemma DocumentParses(s: string, q: nat, bom: bool)
    requires SkipWhiteSpace(s, 0) == q && (StartsWith(s, q, BOM) <==> bom) && (if bom then q + 3 else q) < |s|
    ensures var r := ParseNodes(s, if bom then q + 3 else q, true, []);
      && (r.Failed? ==> ParseDocument(s).ParseError?)
      && (r.Ended? ==> ParseDocument(s) == Document(r.nodes, bom))
  {
    hide ParseNodes;
  }

  lemma Joined(s: string, p: nat, a: string, b: string)
    requires p <= |s| && s[p..] == a + b
    ensures Reads(s, p, a, b)
  {}

  // ---------- how a printed document begins ----------

  /** What the escaped form starts with, the value starts with, unless it is an entity. */
  lemma {:induction false} PrefixOfEscaped(tag: string, v: string, rest: string)
    requires Avoids(tag, '&') && (rest != "" ==> Avoids(tag, rest[0]))
    ensures tag <= Escape(v, true) + rest ==> tag <= v
  {
    var all := Escape(v, true) + rest;
    if tag != "" && v == "" {
      assert all == rest;
    } else if tag != "" {
      var c, more := EscapeChar(v[0], true), Escape(v[1..], true) + rest;
      assert all == c + more && c[0] == all[0];
      if c == [v[0]] {
        PrefixOfEscaped(tag[1..], v[1..], rest);
        assert all[1..] == more && tag == [tag[0]] + tag[1..] && v == [v[0]] + v[1..];
        assert tag <= all ==> tag[1..] <= more;
      } else {
        assert all[0] == '&';
      }
    }
  }

  lemma EscapeStarts(v: string)
    requires v != "" && !IsWhiteSpace(v[0])
    ensures Escape(v, true) != "" && !IsWhiteSpace(Escape(v, true)[0])
  {}

  /** A document that opens with plain text: behind the text comes a tag. */
  lemma FirstTextPieces(ns: seq<Dom>, l: Layout)
    requires ns != [] && IsPlainText(ns[0]) && PrintableNodes(ns) && l.entities && l.first && l.depth == 0
    ensures var more := BodyNodes(ns[1..], NodeAfter(ns[0], l));
      NodesText(ns, l) == Escape(ns[0].value, true) + more && (more != "" ==> more[0] == '<')
    ensures Plain(ns[0].value) && HasInk(ns[0].value)
  {
    hide NodesText, Body, Escape, BodyNodes;
    var l1 := NodeAfter(ns[0], l);
    NodesPieces(ns, l);
    NothingInFront(ns, l);
    FirstPieces(ns, l);
    NodesPieces(ns[1..], l1);
    NothingInFront(ns[1..], l1);
    assert PrintableNode(ns[0]);
    TextIsPrintable(ns[0]);
    assert Body(ns[0], l) == Escape(ns[0].value, true) by { TextBody(ns[0], l); }
    if |ns| > 1 {
      FirstPieces(ns[1..], l1);
      assert PrintableNode(ns[1]) by { SecondIsPrintable(ns); }
      NodeStarts(ns[1], l1);
    } else {
      NothingRead("", l1);
    }
  }

  lemma TextBody(n: Dom, l: Layout)
    requires IsPlainText(n)
    ensures Body(n, l) == Escape(n.value, true)
  {}

  lemma SecondIsPrintable(ns: seq<Dom>)
    requires |ns| > 1 && PrintableNodes(ns)
    ensures PrintableNode(ns[1]) && (IsPlainText(ns[0]) ==> !IsPlainText(ns[1]))
  {
    assert PrintableNodes(ns[1..]) && ns[1..][0] == ns[1];
  }

  lemma PlainStart(ns: seq<Dom>, bom: bool, l: Layout)
    requires ns != [] && PrintableNodes(ns) && IsPlainText(ns[0]) && (!bom ==> OpensDocument(ns[0]))
    requires l.entities && l.first && l.depth == 0
    ensures var printed := NodesText(ns, l);
      printed != "" && (!bom ==> !IsWhiteSpace(printed[0]) && !(BOM <= printed))
  {
    hide NodesText, Escape, BodyNodes;
    var v, more := ns[0].value, BodyNodes(ns[1..], NodeAfter(ns[0], l));
    FirstTextPieces(ns, l);
    EscapeKeepsInk(v, true);
    if !bom {
      EscapeStarts(v);
      PrefixOfEscaped(BOM, v, more);
    }
  }

  lemma DocumentStarts(compact: bool, declarations: seq<Dom>, ns: seq<Dom>, bom: bool)
    requires PrintableParts(declarations, ns) && declarations + ns != [] && !StartIsSkipped(declarations, ns, bom)
    ensures var s, p := Printed(compact, declarations + ns, bom), if bom then 3 else 0;
      SkipWhiteSpace(s, 0) == 0 && (StartsWith(s, 0, BOM) <==> bom) && p < |s|
      && s[p..] == NodesText(declarations + ns, NewPrinter(compact))
  {
    hide PrintableNodes, Body, NodesText, Escape;
    var all, l := declarations + ns, NewPrinter(compact);
    var printed, s := NodesText(all, l), Printed(compact, all, bom);
    NodesPieces(all, l);
    NothingInFront(all, l);
    FirstPieces(all, l);
    assert s == if bom then BOM + printed else printed;
    assert s[0..] == s && BOM[0] as int == 0xEF && '<' as int == 60;
    if declarations != [] {
      assert PrintableDeclaration(all[0]);
      BodyStarts(all[0], l);
      assert printed[0] == '<';
    } else if IsPlainText(ns[0]) {
      assert all == ns;
      PlainStart(ns, bom, l);
    } else {
      assert all == ns;
      assert PrintableNode(ns[0]) by { FirstIsPrintable(ns); }
      NodeStarts(ns[0], l);
      assert printed[0] == '<';
    }
    if bom { assert s[0] == BOM[0]; } else { assert s == printed; }
    NoBlanks(s, 0);
  }

  lemma FirstIsPrintable(ns: seq<Dom>)
    requires ns != [] && PrintableNodes(ns)
    ensures PrintableNode(ns[0])
  {}

  // ---------- what comes back ----------

  /** Parsing what a fresh printer writes gives the nodes back: shape, names, attribute order, attribute values and text. */
  ghost predicate ComesBack(compact: bool, doms: seq<Dom>, bom: bool) {
    var s := Printed(compact, doms, bom);
    var r := ParseDocument(s);
    r.Document? && r.bom == bom && ReadNodes(s, r.nodes) == doms
  }

  /** A document of which nothing is skipped at its start is parsed without an error exactly when it does not end with
      plain text, and what comes back is the document with the blanks printed around its texts in them. */
  lemma FailsExactlyOnTextAtEnd(compact: bool, declarations: seq<Dom>, ns: seq<Dom>, bom: bool)
    requires PrintableParts(declarations, ns) && declarations + ns != [] && !StartIsSkipped(declarations, ns, bom)
    ensures var s := Printed(compact, declarations + ns, bom);
      var r := ParseDocument(s);
      && (r.Document? <==> !EndsWithText(ns))
      && (r.Document? ==> r.bom == bom && ReadNodes(s, r.nodes) == Back("", declarations + ns, NewPrinter(compact)))
  {
    hide ParseNodes, Reads, PrintableNodes, NodesText, Printed, ParseDocument, ReadNodes, Back;
    var s := Printed(compact, declarations + ns, bom);
    DocumentStarts(compact, declarations, ns, bom);
    var nodes := DocumentToTheEnd(s, if bom then 3 else 0, declarations, ns, NewPrinter(compact));
    DocumentParses(s, 0, bom);
  }

  /** The blanks a text starts with, and the rest. */
  lemma LeadingBlanks(v: string) returns (k: nat)
    requires HasInk(v)
    ensures k < |v| && !IsWhiteSpace(v[k]) && (IsWhiteSpace(v[0]) ==> k > 0) && forall i :: 0 <= i < k ==> IsWhiteSpace(v[i])
    ensures v == v[..k] + v[k..] && HasInk(v[k..])
  {
    k := SkipWhiteSpace(v, 0);
    var i :| 0 <= i < |v| && !IsWhiteSpace(v[i]);
    assert v[k..][0] == v[k];
  }

  /** The parser skips just those blanks. */
  lemma BlanksSkipped(v: string, k: nat, more: string)
    requires k < |v| && !IsWhiteSpace(v[k]) && v == v[..k] + v[k..] && forall i :: 0 <= i < k ==> IsWhiteSpace(v[i])
    ensures Escape(v, true) + more == v[..k] + (Escape(v[k..], true) + more)
    ensures k < |Escape(v, true) + more| && SkipWhiteSpace(Escape(v, true) + more, 0) == k
  {
    hide Escape, SkipWhiteSpace;
    EscapeSplit(v[..k], v[k..]);
    NothingToEscape(v[..k]);
    EscapeStarts(v[k..]);
    var s := v[..k] + (Escape(v[k..], true) + more);
    assert s == Escape(v, true) + more;
    assert s[k] == Escape(v[k..], true)[0];
    SkipsTo(s, 0, k);
  }

  /** What XMLDocument::Parse skips of a text that opens the document is lost. */
  lemma SkippedIsLost(compact: bool, ns: seq<Dom>)
    requires PrintableNodes(ns) && StartIsSkipped([], ns, false)
    ensures !ComesBack(compact, ns, false)
  {
    hide ParseNodes, Reads, NodesText, BodyNodes, ParseDocument, ReadNodes, PrintableNodes, Escape, Back, SkipWhiteSpace;
    var l := NewPrinter(compact);
    var v, more := ns[0].value, BodyNodes(ns[1..], NodeAfter(ns[0], l));
    var s := Printed(compact, ns, false);
    FirstTextPieces(ns, l);
    var k := LeadingBlanks(v);
    BlanksSkipped(v, k, more);
    assert s == Escape(v, true) + more;
    assert s[k..] == Escape(v[k..], true) + more;
    assert k == 0 ==> v[k..] == v;
    if BOM <= v[k..] {
      MarkSkipped(s, k, v[k..], more);
    } else {
      CutComesBack(s, k, ns, v[k..], l);
    }
  }

  /** A text that opens the document comes back from where the parser begins to read it. */
  lemma CutComesBack(s: string, k: nat, ns: seq<Dom>, v: string, l: Layout)
    requires ns != [] && PrintableNodes(ns) && IsPlainText(ns[0]) && Plain(v) && HasInk(v) && !(BOM <= v)
    requires l.entities && l.first && l.depth == 0
    requires k < |s| && s[k..] == Escape(v, true) + BodyNodes(ns[1..], NodeAfter(ns[0], l)) && SkipWhiteSpace(s, 0) == k
    ensures var r := ParseDocument(s);
      r.Document? ==> ReadNodes(s, r.nodes) != [] && ReadNodes(s, r.nodes)[0] == DomText(v, false)
  {
    hide ParseNodes, NodesText, BodyNodes, ParseDocument, ReadNodes, PrintableNodes, Escape, Back, NodeAfter, SkipWhiteSpace;
    var more := BodyNodes(ns[1..], NodeAfter(ns[0], l));
    assert more != "" ==> more[0] == '<' by { FirstTextPieces(ns, l); }
    PrefixOfEscaped(BOM, v, more);
    var cut := [DomText(v, false)] + ns[1..];
    CutPrints(ns, v, l);
    assert [] + cut == cut;
    var nodes := DocumentToTheEnd(s, k, [], cut, l);
    DocumentParses(s, k, false);
  }

  /** The nodes with the opening text cut short are printable nodes, and print and come back with that text. */
  lemma CutPrints(ns: seq<Dom>, v: string, l: Layout)
    requires ns != [] && PrintableNodes(ns) && IsPlainText(ns[0]) && Plain(v) && HasInk(v)
    requires l.entities && l.first && l.depth == 0
    ensures var cut := [DomText(v, false)] + ns[1..];
      && PrintableNodes(cut) && NodesText(cut, l) == Escape(v, true) + BodyNodes(ns[1..], NodeAfter(ns[0], l))
      && Back("", cut, l) != [] && Back("", cut, l)[0] == DomText(v, false)
  {
    hide NodesText, BodyNodes, Escape;
    var cut := [DomText(v, false)] + ns[1..];
    assert cut[1..] == ns[1..];
    FirstTextPieces(cut, l);
    NothingInFront(cut[1..], NodeAfter(cut[0], l));
    assert "" + v + "" == v;
  }

  /** A byte order mark the text starts with is taken for the document's own. */
  lemma MarkSkipped(s: string, k: nat, v: string, more: string)
    requires BOM <= v && k <= |s| && s[k..] == Escape(v, true) + more && SkipWhiteSpace(s, 0) == k
    ensures ParseDocument(s).Document? ==> ParseDocument(s).bom
  {
    hide ParseNodes;
    assert v == BOM + v[3..];
    EscapeSplit(BOM, v[3..]);
    NothingToEscape(BOM);
  }

  /** A document without nodes, with or without its byte order mark, is the error of an empty document. */
  lemma NothingComesBack(compact: bool, bom: bool)
    ensures ParseDocument(Printed(compact, [], bom)) == ParseError(EMPTY_DOCUMENT) && !ComesBack(compact, [], bom)
  {
    var s := Printed(compact, [], bom);
    if bom {
      assert s == BOM && s[0] as int == 0xEF;
      NoBlanks(s, 0);
      assert s[0..] == s;
    }
  }

  /** A printed document comes back when it is parsed exactly when it is not empty, does not end with plain text, nothing
      of a text that opens it is skipped and, out of compact mode, no blanks are put around its texts. */
  lemma DocumentRoundTrip(compact: bool, declarations: seq<Dom>, ns: seq<Dom>, bom: bool)
    requires PrintableParts(declarations, ns)
    ensures ComesBack(compact, declarations + ns, bom)
       <==> PrintableDocument(declarations, ns, bom) && (compact || SpacingSafe(declarations + ns, false, true))
  {
    hide PrintableNodes, OpensDocument, Printed, ParseDocument, ReadNodes, Back, SpacingSafe;
    if declarations + ns == [] {
      NothingComesBack(compact, bom);
    } else if StartIsSkipped(declarations, ns, bom) {
      assert declarations + ns == ns;
      SkippedIsLost(compact, ns);
    } else {
      FailsExactlyOnTextAtEnd(compact, declarations, ns, bom);
      SameExactly(compact, declarations + ns);
    }
  }

  /** The smallest case: <a>x<b/></a> comes back from its compact print, and with four blanks behind the x from the other. */
  lemma BlanksJoinTheText()
    ensures var b := DomElement("b", [], []);
      var doc := DomElement("a", [], [DomText("x", false), b]);
      && ComesBack(true, [doc], false) && !ComesBack(false, [doc], false)
      && Back("", [doc], NewPrinter(false)) == [DomElement("a", [], [DomText("x    ", false), b])]
  {
    hide ComesBack, StartIsSkipped;
    var b, x := DomElement("b", [], []), DomText("x", false);
    var doc := DomElement("a", [], [x, b]);
    SmallPrintable(x, b, doc);
    assert [] + [doc] == [doc];
    DocumentRoundTrip(true, [], [doc], false);
    DocumentRoundTrip(false, [], [doc], false);
    var l := Entered(NewPrinter(false));
    assert doc.children[1..] == [b] && [b][1..] == [] && [doc][1..] == [];
    assert Back("", [doc], NewPrinter(false)) == [BackNode("", doc, "", NewPrinter(false))];
    assert Back("", [b], NodeAfter(x, l)) == [b];
    assert LeadOf([b], NodeAfter(x, l)) == Indent(1) == "    ";
    assert "" + "x" + "    " == "x    ";
    assert Back("", [x, b], l) == [DomText("x    ", false), b];
  }

  lemma SmallPrintable(x: Dom, b: Dom, doc: Dom)
    requires x == DomText("x", false) && b == DomElement("b", [], []) && doc == DomElement("a", [], [x, b])
    ensures PrintableDocument([], [doc], false) && !SpacingSafe([doc], false, true)
  {
    assert HasInk("x") by { assert !IsWhiteSpace("x"[0]); }
    assert [doc][1..] == [] && [b][1..] == [] && doc.children[1..] == [b];
    assert ValidName("a") && ValidName("b") && PrintableAttributes([]) && PrintableNodes([]) && Plain("x");
    assert PrintableNode(b) && PrintableNode(x);
    assert PrintableNodes([b]);
    assert [x, b][1..] == [b] && PrintableNodes([x, b]);
    assert PrintableNode(doc) && PrintableNodes([doc]);
    assert [] + [doc] == [doc];
  }

  // ---------- the printed text fits a C string ----------

  lemma JoinAvoids(a: string, b: string)
    requires Avoids(a, NUL) && Avoids(b, NUL)
    ensures Avoids(a + b, NUL)
  {}

  lemma {:induction false} AttributesAvoidNul(attributes: seq<DomAttribute>)
    requires PrintableAttributes(attributes)
    ensures Avoids(PrintAttributes(attributes), NUL)
  {
    if attributes != [] {
      var a := attributes[0];
      NamesHaveNoNul(a.name);
      EscapeAvoids(a.value, false, NUL);
      AttributesAvoidNul(attributes[1..]);
      JoinAvoids(PrintAttribute(a), PrintAttributes(attributes[1..]));
    }
  }

  lemma {:induction false} BodyAvoidsNul(n: Dom, l: Layout)
    requires (PrintableNode(n) || PrintableDeclaration(n)) && l.entities
    ensures Avoids(Body(n, l), NUL)
    decreases n, 1
  {
    hide Contains, NodesText, NodesAfter, PrintAttributes, PrintableAttributes, PrintableNodes, Avoids, Escape, CloseGap;
    match n
    case DomElement(name, attributes, children) =>
      NamesHaveNoNul(name);
      AttributesAvoidNul(attributes);
      NodesAvoidNul(children, Entered(l));
      var c, gap := NodesText(children, Entered(l)), CloseGap(NodesAfter(children, Entered(l)));
      GapIsBlank(NodesAfter(children, Entered(l)));
      BlanksAvoidNul(gap);
      TagsAvoidNul();
      var tail := if children == [] then "/>" else ">" + (c + (gap + ("</" + (name + ">"))));
      if children != [] {
        JoinFive(c, gap, "</", name, ">");
        JoinAvoids(">", c + (gap + ("</" + (name + ">"))));
      }
      JoinFive("<", name, PrintAttributes(attributes), tail, "");
      assert tail + "" == tail;
    case DomText(value, cdata) =>
      if cdata { DelimitedAvoidsNul("<![CDATA[", value, "]]>"); } else { EscapeAvoids(value, true, NUL); }
    case DomComment(value) => DelimitedAvoidsNul("<!--", value, "-->");
    case DomDeclaration(value) => DelimitedAvoidsNul("<?", value, "?>");
    case DomUnknown(value) => DelimitedAvoidsNul("<!", value, ">");
  }

  lemma BlanksAvoidNul(w: string)
    requires Blanks(w)
    ensures Avoids(w, NUL)
  {}

  lemma TagsAvoidNul()
    ensures Avoids("<", NUL) && Avoids(">", NUL) && Avoids("/>", NUL) && Avoids("</", NUL) && Avoids("", NUL)
  {}

  lemma JoinFive(a: string, b: string, c: string, d: string, e: string)
    requires Avoids(a, NUL) && Avoids(b, NUL) && Avoids(c, NUL) && Avoids(d, NUL) && Avoids(e, NUL)
    ensures Avoids(a + (b + (c + (d + e))), NUL)
  {
    JoinAvoids(d, e);
    JoinAvoids(c, d + e);
    JoinAvoids(b, c + (d + e));
  }

  lemma DelimitedAvoidsNul(open: string, v: string, close: string)
    requires Avoids(v, NUL)
    requires open in {"<![CDATA[", "<!--", "<?", "<!"} && close in {"]]>", "-->", "?>", ">"}
    ensures Avoids(open + (v + close), NUL)
  {}

  lemma NodeAvoidsNul(n: Dom, l: Layout)
    requires (PrintableNode(n) || PrintableDeclaration(n)) && l.entities
    ensures Avoids(NodeText(n, l), NUL)
    decreases n, 2
  {
    hide PrintableNode, PrintableDeclaration, NodeText, Body, Lead, Tail, Avoids;
    NodePieces(n, l);
    BodyAvoidsNul(n, l);
    SpacingBlank(n, l);
    BlanksAvoidNul(Lead(n, l));
    BlanksAvoidNul(Tail(n, l));
    JoinAvoids(Body(n, l), Tail(n, l));
    JoinAvoids(Lead(n, l), Body(n, l) + Tail(n, l));
  }

  lemma {:induction false} NodesAvoidNul(ns: seq<Dom>, l: Layout)
    requires PrintableNodes(ns) && l.entities
    ensures Avoids(NodesText(ns, l), NUL)
    decreases ns, 0
  {
    hide NodeText, NodesText, NodeAfter, PrintableNode, Avoids;
    if ns == [] {
      NoNodes(l);
      TagsAvoidNul();
    } else {
      NodesFirst(ns, l);
      NodeKeepsMode(ns[0], l);
      NodeAvoidsNul(ns[0], l);
      NodesAvoidNul(ns[1..], NodeAfter(ns[0], l));
      JoinAvoids(NodeText(ns[0], l), NodesText(ns[1..], NodeAfter(ns[0], l)));
    }
  }

  /** The printed document holds no NUL, so XMLDocument::Parse sees all of it. */
  lemma {:induction false} DocumentIsCString(compact: bool, declarations: seq<Dom>, ns: seq<Dom>, bom: bool)
    requires PrintableParts(declarations, ns)
    ensures UpToNul(Printed(compact, declarations + ns, bom)) == Printed(compact, declarations + ns, bom)
  {
    hide PrintableNodes, NodesText, NodesAfter;
    var l := NewPrinter(compact);
    TextJoined(declarations, ns, l);
    DepthRestored(declarations, l);
    DeclarationsAvoidNul(declarations, l);
    NodesAvoidNul(ns, NodesAfter(declarations, l));
    JoinAvoids(NodesText(declarations, l), NodesText(ns, NodesAfter(declarations, l)));
    NoNulIsWhole(Printed(compact, declarations + ns, bom));
  }

  lemma {:induction false} DeclarationsAvoidNul(ds: seq<Dom>, l: Layout)
    requires (forall i :: 0 <= i < |ds| ==> PrintableDeclaration(ds[i])) && l.entities
    ensures Avoids(NodesText(ds, l), NUL)
    decreases |ds|
  {
    hide NodeText, NodesText, NodeAfter, PrintableDeclaration, Avoids;
    if ds == [] {
      NoNodes(l);
      TagsAvoidNul();
    } else {
      NodesFirst(ds, l);
      NodeKeepsMode(ds[0], l);
      NodeAvoidsNul(ds[0], l);
      DeclarationsAvoidNul(ds[1..], NodeAfter(ds[0], l));
      JoinAvoids(NodeText(ds[0], l), NodesText(ds[1..], NodeAfter(ds[0], l)));
    }
  }

  /** XMLDocument::Print into a fresh printer followed by XMLDocument::Parse of the result: what comes back, and exactly
      which documents are read back as they were. */
  method PrintThenParse(compact: bool, declarations: seq<Dom>, ns: seq<Dom>, bom: bool, doc: XMLDocument)
    requires PrintableParts(declarations, ns)
    modifies doc
    ensures doc.errorID == None && doc.writeBOM == bom && ReadNodes(doc.text, doc.nodes) == declarations + ns
       <==> PrintableDocument(declarations, ns, bom) && (compact || SpacingSafe(declarations + ns, false, true))
    ensures doc.errorID == None ==> doc.Valid()
    ensures declarations + ns != [] && !StartIsSkipped(declarations, ns, bom) ==>
      && (doc.errorID == None <==> !EndsWithText(ns))
      && (doc.errorID == None ==> ReadNodes(doc.text, doc.nodes) == Back("", declarations + ns, NewPrinter(compact)))
  {
    hide PrintableDocument, PrintableNodes, Printed, ParseDocument, ReadNodes, OpensDocument, SpacingSafe, Back;
    var text := PrintWith(compact, declarations + ns, bom);
    DocumentIsCString(compact, declarations, ns, bom);
    DocumentRoundTrip(compact, declarations, ns, bom);
    if declarations + ns != [] && !StartIsSkipped(declarations, ns, bom) {
      FailsExactlyOnTextAtEnd(compact, declarations, ns, bom);
    }
    doc.Parse(text);
  }
}
