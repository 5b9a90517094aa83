// XMLDocument::Parse over one mutable buffer, and reading the strings back lazily.

module XmlParsing {
  import opened Options
  import opened XmlChars
  import opened StrPairs
  import opened XmlSyntax
  import opened XmlSpans

  /** From p on the buffer still holds the NUL-terminated text s. */
  ghost predicate Unread(buf: array<char>, s: string, p: nat)
    reads buf
  {
    && |s| < buf.Length && buf[|s|] == NUL && NoNul(s)
    && forall i :: p <= i < |s| ==> buf[i] == s[i]
  }

  /** The range still holds its original characters, and a flushed range its terminator. */
  ghost predicate HoldsOne(buf: array<char>, s: string, sp: StrPair)
    reads buf
  {
    && sp.start <= sp.end <= |s| < buf.Length
    && (forall i :: sp.start <= i < sp.end ==> buf[i] == s[i])
    && (!sp.flush ==> buf[sp.end] == NUL && sp.flags == NAME_FLAGS)
  }

  ghost predicate Holds(buf: array<char>, s: string, ps: seq<StrPair>)
    reads buf
  {
    forall k :: 0 <= k < |ps| ==> HoldsOne(buf, s, ps[k])
  }

  twostate predicate SameOutside(buf: array<char>, lo: int, hi: int)
    reads buf
  {
    forall i :: 0 <= i < buf.Length && !(lo <= i < hi) ==> buf[i] == old(buf[i])
  }

  /** A range is held by the buffer's contents alone. */
  ghost predicate HeldBy(contents: seq<char>, s: string, sp: StrPair) {
    && sp.start <= sp.end <= |s| < |contents|
    && (forall i :: sp.start <= i < sp.end ==> contents[i] == s[i])
    && (!sp.flush ==> contents[sp.end] == NUL && sp.flags == NAME_FLAGS)
  }

  lemma HoldsIsHeld(buf: array<char>, s: string, ps: seq<StrPair>)
    ensures Holds(buf, s, ps) <==> AllHeld(buf[..], s, ps)
  {
    assert forall k :: 0 <= k < |ps| ==> (HoldsOne(buf, s, ps[k]) <==> HeldBy(buf[..], s, ps[k]));
  }

  ghost predicate AllHeld(contents: seq<char>, s: string, ps: seq<StrPair>) {
    forall k :: 0 <= k < |ps| ==> HeldBy(contents, s, ps[k])
  }

  /** Writing outside the places that strings take up leaves them readable. */
  lemma HeldFrame(before: seq<char>, after: seq<char>, s: string, ps: seq<StrPair>, lo: int, hi: int)
    requires AllHeld(before, s, ps) && Ordered(ps, lo, hi) && |before| == |after|
    requires forall i :: 0 <= i < |before| && lo <= i <= hi ==> after[i] == before[i]
    ensures AllHeld(after, s, ps)
  {
    forall k | 0 <= k < |ps| ensures HeldBy(after, s, ps[k]) {
      assert HeldBy(before, s, ps[k]);
    }
  }

  lemma HoldsConcat(buf: array<char>, s: string, a: seq<StrPair>, b: seq<StrPair>)
    requires Holds(buf, s, a) && Holds(buf, s, b)
    ensures Holds(buf, s, a + b)
  {
    forall k | 0 <= k < |a + b| ensures HoldsOne(buf, s, (a + b)[k]) {
      if k >= |a| { assert (a + b)[k] == b[k - |a|]; }
    }
  }

  // ---------- scanning ----------

  method SkipBlanks(buf: array<char>, ghost s: string, p: nat) returns (q: nat)
    requires p <= |s| && Unread(buf, s, p)
    ensures q == SkipWhiteSpace(s, p)
  {
    q := p;
    while IsWhiteSpace(buf[q])
      invariant p <= q <= |s|
      invariant SkipWhiteSpace(s, p) == SkipWhiteSpace(s, q)
      decreases |s| - q
    {
      q := q + 1;
    }
  }

  /** strncmp(buf + q, tag, |tag|) == 0. */
  predicate Matches(buf: array<char>, q: nat, tag: string)
    reads buf
  {
    forall i :: 0 <= i < |tag| ==> q + i < buf.Length && buf[q + i] == tag[i]
  }

  lemma NotPastTheEnd(buf: array<char>, s: string, q: nat, tag: string)
    requires q <= |s| < q + |tag| && |s| < buf.Length && buf[|s|] == NUL && NoNul(tag)
    ensures !Matches(buf, q, tag)
  {
    assert buf[q + (|s| - q)] != tag[|s| - q];
  }

  lemma MatchesIsStartsWith(buf: array<char>, s: string, p: nat, q: nat, tag: string)
    requires p <= q <= |s| && Unread(buf, s, p) && NoNul(tag)
    ensures Matches(buf, q, tag) <==> StartsWith(s, q, tag)
  {
    if |s| < q + |tag| { NotPastTheEnd(buf, s, q, tag); }
    if Matches(buf, q, tag) {
      assert forall i :: 0 <= i < |tag| ==> s[q..][i] == s[q + i] == buf[q + i] == tag[i];
      assert s[q..][..|tag|] == tag;
    }
    if StartsWith(s, q, tag) {
      assert forall i :: 0 <= i < |tag| ==> tag[i] == s[q..][i] == s[q + i];
    }
  }

  /** The scanning loop of StrPair::ParseText. */
  method FindEndTag(buf: array<char>, ghost s: string, p: nat, tag: string) returns (k: Option<nat>)
    requires p <= |s| && Unread(buf, s, p) && tag != "" && NoNul(tag)
    ensures k == FindTag(s, p, tag)
  {
    var q := p;
    while buf[q] != NUL
      invariant p <= q <= |s|
      invariant FindTag(s, p, tag) == FindTag(s, q, tag)
      decreases |s| - q
    {
      MatchesIsStartsWith(buf, s, p, q, tag);
      if Matches(buf, q, tag) {
        return Some(q);
      }
      q := q + 1;
    }
    k := None;
  }

  method ParseName(buf: array<char>, ghost s: string, p: nat) returns (e: nat)
    requires p < |s| && Unread(buf, s, p) && IsNameStartChar(buf[p])
    ensures e == NameEnd(s, p + 1)
  {
    e := p + 1;
    while buf[e] != NUL && IsNameChar(buf[e])
      invariant p < e <= |s|
      invariant NameEnd(s, p + 1) == NameEnd(s, e)
      decreases |s| - e
    {
      e := e + 1;
    }
  }

  /** Reading a name flushes it: nothing is written but its terminator. */
  method FlushName(buf: array<char>, ghost s: string, sp: StrPair) returns (out: StrPair)
    requires HoldsOne(buf, s, sp) && NoNul(s) && sp.flags == NAME_FLAGS && sp.flush
    modifies buf
    ensures out == sp.Flushed() && HoldsOne(buf, s, out)
    ensures SameOutside(buf, sp.end, sp.end + 1)
  {
    ghost var raw := buf[sp.start..sp.end];
    assert raw == s[sp.start..sp.end] == buf[..][sp.start..sp.end];
    PlainText(raw, 0);
    assert raw[..0] == "";
    out := GetStr(buf, sp);
    assert buf[sp.start..sp.end] == raw;
    forall i | sp.start <= i < sp.end ensures buf[i] == s[i] {
      assert buf[i] == raw[i - sp.start];
    }
  }

  /** XMLUtil::StringEqual on two flushed names. */
  method StringEqual(buf: array<char>, ghost s: string, a: StrPair, b: StrPair) returns (equal: bool)
    requires HoldsOne(buf, s, a) && HoldsOne(buf, s, b) && !a.flush && !b.flush && NoNul(s)
    ensures equal <==> Slice(s, a) == Slice(s, b)
  {
    if a.start == b.start {
      // the same pointer: the same string, whatever the recorded ends
      assert forall i :: a.start <= i < a.end || b.start <= i < b.end ==> buf[i] == s[i] != NUL;
      assert buf[a.end] == NUL && buf[b.end] == NUL;
      assert a.end == b.end;
      return true;
    }
    var k := 0;
    while buf[a.start + k] == buf[b.start + k] && buf[a.start + k] != NUL
      invariant k <= a.end - a.start && k <= b.end - b.start
      invariant s[a.start..a.start + k] == s[b.start..b.start + k]
      decreases a.end - a.start - k
    {
      assert a.start + k < a.end && b.start + k < b.end;
      assert s[a.start..a.start + k + 1] == s[a.start..a.start + k] + [s[a.start + k]];
      assert s[b.start..b.start + k + 1] == s[b.start..b.start + k] + [s[b.start + k]];
      k := k + 1;
    }
    if buf[a.start + k] == buf[b.start + k] {
      equal := true;
    } else {
      equal := false;
      assert Slice(s, a) != Slice(s, b) by {
        if a.start + k < a.end && b.start + k < b.end {
          assert Slice(s, a)[k] != Slice(s, b)[k];
        } else {
          assert |Slice(s, a)| != |Slice(s, b)|;
        }
      }
    }
  }

  // ---------- attributes ----------

  datatype AttributeRead = NoAttributeRead | AttributeRead(name: StrPair, value: StrPair, next: nat)

  /** What a character not yet read says of the text. */
  lemma Peek(buf: array<char>, s: string, p: nat, i: nat)
    requires p <= i <= |s| && Unread(buf, s, p)
    ensures Unread(buf, s, i) && i < buf.Length && (buf[i] == NUL <==> i == |s|) && (i < |s| ==> buf[i] == s[i])
  {}

  /** XMLAttribute::ParseDeep: both strings are still pending afterwards. */
  method ParseAttributeAt(buf: array<char>, ghost s: string, p: nat) returns (r: AttributeRead)
    requires p < |s| && Unread(buf, s, p) && IsNameStartChar(buf[p])
    ensures ParseAttribute(s, p) == match r
            case NoAttributeRead => NoAttribute
            case AttributeRead(name, value, next) => AttributeAt(Attribute(name.Flushed(), value), next)
    ensures r.AttributeRead? ==> r.name.flush && r.name.flags == NAME_FLAGS && r.value.flush
  {
    hide Unread, FindTag, SkipWhiteSpace, NameEnd;
    Peek(buf, s, p, p);
    var e := ParseName(buf, s, p);
    Peek(buf, s, p, e);
    if buf[e] == NUL { return NoAttributeRead; }
    var q := SkipBlanks(buf, s, e);
    Peek(buf, s, e, q);
    if buf[q] != '=' { return NoAttributeRead; }
    Peek(buf, s, q, q + 1);
    var v := SkipBlanks(buf, s, q + 1);
    Peek(buf, s, q + 1, v);
    if buf[v] != '"' && buf[v] != '\'' { return NoAttributeRead; }
    Peek(buf, s, v, v + 1);
    var k := FindEndTag(buf, s, v + 1, [buf[v]]);
    match k {
      case None => r := NoAttributeRead;
      case Some(end) => r := AttributeRead(StrPair(p, e, NAME_FLAGS, true), StrPair(v + 1, end, TEXT_FLAGS, true), end + 1);
    }
  }

  /** XMLElement::FindAttribute. */
  method FindAttribute(buf: array<char>, ghost s: string, attributes: seq<Attribute>, name: StrPair) returns (found: bool)
    requires NoNul(s) && AttributesWithin(s, attributes) && HoldsOne(buf, s, name) && !name.flush
    requires forall i :: 0 <= i < |attributes| ==> HoldsOne(buf, s, attributes[i].name) && !attributes[i].name.flush
    ensures found == HasName(s, attributes, Slice(s, name))
  {
    var i := 0;
    while i < |attributes|
      invariant i <= |attributes|
      invariant forall j :: 0 <= j < i ==> Slice(s, attributes[j].name) != Slice(s, name)
    {
      var equal := StringEqual(buf, s, attributes[i].name, name);
      if equal { return true; }
      i := i + 1;
    }
    found := false;
  }

  ghost predicate AttributesHold(buf: array<char>, s: string, attributes: seq<Attribute>)
    reads buf
  {
    forall i :: 0 <= i < |attributes| ==>
      HoldsOne(buf, s, attributes[i].name) && HoldsOne(buf, s, attributes[i].value) && !attributes[i].name.flush
  }

  lemma AttributesHoldSpans(buf: array<char>, s: string, attributes: seq<Attribute>)
    requires AttributesHold(buf, s, attributes)
    ensures Holds(buf, s, AttributeSpans(attributes))
  {
    if attributes != [] {
      var n := |attributes| - 1;
      AttributesHoldSpans(buf, s, attributes[..n]);
      HoldsConcat(buf, s, AttributeSpans(attributes[..n]), [attributes[n].name, attributes[n].value]);
    }
  }

  ghost predicate EndBefore(attributes: seq<Attribute>, p: nat) {
    forall i :: 0 <= i < |attributes| ==> attributes[i].name.end < p && attributes[i].value.end < p
  }

  /** The attribute at p: parsed, its name flushed and compared with the names before it. */
  method ReadAttribute(buf: array<char>, ghost s: string, p: nat, acc: seq<Attribute>) returns (r: AttributeAt)
    requires p < |s| && Unread(buf, s, p) && IsNameStartChar(buf[p])
    requires AttributesWithin(s, acc) && AttributesHold(buf, s, acc) && EndBefore(acc, p)
    modifies buf
    ensures r == match ParseAttribute(s, p)
                 case NoAttribute => NoAttribute
                 case AttributeAt(a, next) => if HasName(s, acc, Slice(s, a.name)) then NoAttribute else AttributeAt(a, next)
    ensures r.AttributeAt? ==>
      && AttributesHold(buf, s, acc + [r.attribute]) && EndBefore(acc + [r.attribute], r.next)
      && SameOutside(buf, p, r.next)
  {
    hide ParseAttribute;
    var at := ParseAttributeAt(buf, s, p);
    if at.NoAttributeRead? { return NoAttribute; }
    assert HoldsOne(buf, s, at.name) && HoldsOne(buf, s, at.value);
    var name := FlushName(buf, s, at.name);
    forall i | 0 <= i < |acc| ensures HoldsOne(buf, s, acc[i].name) && HoldsOne(buf, s, acc[i].value) {
      assert old(HoldsOne(buf, s, acc[i].name) && HoldsOne(buf, s, acc[i].value));
    }
    var duplicate := FindAttribute(buf, s, acc, name);
    if duplicate { return NoAttribute; }
    r := AttributeAt(Attribute(name, at.value), at.next);
    assert HoldsOne(buf, s, at.value);
  }

  /** XMLElement::ParseAttributes: each name is flushed as soon as its attribute is read. */
  method ParseAttributeList(buf: array<char>, ghost s: string, p0: nat) returns (r: AttributesAt)
    requires p0 <= |s| && Unread(buf, s, p0)
    modifies buf
    ensures r == ParseAttributes(s, p0, [])
    ensures r.AttributesAt? ==> AttributesHold(buf, s, r.attributes) && SameOutside(buf, p0, r.next)
  {
    hide ParseAttribute, HasName;
    var p, acc := p0, [];
    while true
      invariant p0 <= p <= |s| && AttributesWithin(s, acc) && Unread(buf, s, p)
      invariant ParseAttributes(s, p0, []) == ParseAttributes(s, p, acc)
      invariant AttributesHold(buf, s, acc) && EndBefore(acc, p) && SameOutside(buf, p0, p)
      decreases |s| - p
    {
      var q := SkipBlanks(buf, s, p);
      if buf[q] == NUL { return BadAttributes(PARSING_ELEMENT); }
      if IsNameStartChar(buf[q]) {
        var at := ReadAttribute(buf, s, q, acc);
        if at.NoAttribute? { return BadAttributes(PARSING_ATTRIBUTE); }
        acc := acc + [at.attribute];
        p := at.next;
      } else if buf[q] == '>' {
        return AttributesAt(acc, false, q + 1);
      } else if buf[q] == '/' && buf[q + 1] == '>' {
        return AttributesAt(acc, true, q + 2);
      } else {
        return BadAttributes(PARSING_ELEMENT);
      }
    }
  }

  // ---------- elements and nodes ----------

  /** XMLElement::ParseDeep up to its children. */
  method ReadHead(buf: array<char>, ghost s: string, p: nat) returns (h: Head)
    requires p <= |s| && Unread(buf, s, p)
    modifies buf
    ensures h == ParseHead(s, p)
    ensures h.Head? ==> HoldsOne(buf, s, h.name) && AttributesHold(buf, s, h.attributes) && SameOutside(buf, p, h.next)
    ensures h.Head? ==> Unread(buf, s, h.next)
  {
    hide ParseAttributes;
    var q := SkipBlanks(buf, s, p);
    var slash := buf[q] == '/';
    if slash { q := q + 1; }
    if buf[q] == NUL || !IsNameStartChar(buf[q]) { return BadHead(PARSING); }
    var e := ParseName(buf, s, q);
    var at := ParseAttributeList(buf, s, e);
    match at {
      case BadAttributes(error) => h := BadHead(error);
      case AttributesAt(attributes, sealed, next) =>
        h := Head(StrPair(q, e, NAME_FLAGS, true), attributes, if sealed then CLOSED else if slash then CLOSING else OPEN, next);
    }
  }

  /** The markup table of XMLDocument::Identify. */
  method FindMarkup(buf: array<char>, ghost s: string, p: nat) returns (i: nat)
    requires p <= |s| && Unread(buf, s, p)
    ensures i == MarkupAt(s, p)
  {
    i := 0;
    while i < 4
      invariant i <= 4
      invariant MarkupAt(s, p) == MarkupAt(s, p, i)
    {
      MatchesIsStartsWith(buf, s, p, p, MARKUP[i].open);
      if Matches(buf, p, MARKUP[i].open) { return; }
      i := i + 1;
    }
  }

  lemma ClosesHaveNoNul()
    ensures forall i :: 0 <= i < 4 ==> NoNul(MARKUP[i].close) && MARKUP[i].close != ""
  {}

  lemma MarkupHolds(buf: array<char>, s: string, q: nat, i: nat, sp: StrPair)
    requires Unread(buf, s, q) && i < 4 && q <= sp.start <= sp.end <= |s| && sp.flush
    ensures Holds(buf, s, NodeSpans(MarkupNode(i, sp)))
  {
    assert NodeSpans(MarkupNode(i, sp)) == [sp];
  }

  method ReadMarkup(buf: array<char>, ghost s: string, q: nat, i: nat, declarationsOk: bool) returns (r: Item)
    requires q <= |s| && Unread(buf, s, q) && i < 4 && StartsWith(s, q, MARKUP[i].open)
    ensures r == ParseMarkup(s, q, i, declarationsOk)
    ensures r.Child? ==> Holds(buf, s, NodeSpans(r.node))
  {
    hide Unread, Holds, NoNul, FindTag, MarkupNode;
    var start := q + |MARKUP[i].open|;
    Peek(buf, s, q, start);
    assert NoNul(MARKUP[i].close) && MARKUP[i].close != "" by { ClosesHaveNoNul(); }
    var k := FindEndTag(buf, s, start, MARKUP[i].close);
    match k {
      case None => r := Bad(MARKUP[i].error);
      case Some(end) =>
        if i == 0 && !declarationsOk {
          r := Bad(PARSING_DECLARATION);
        } else {
          r := Child(MarkupNode(i, StrPair(start, end, LINE_FLAGS, true)), end + |MARKUP[i].close|);
          MarkupHolds(buf, s, q, i, StrPair(start, end, LINE_FLAGS, true));
        }
    }
  }

  method ReadText(buf: array<char>, ghost s: string, p: nat) returns (r: Item)
    requires p < |s| && Unread(buf, s, p) && buf[p] != '<'
    ensures r == ParseText(s, p)
    ensures r.Child? ==> Holds(buf, s, NodeSpans(r.node))
  {
    var k := FindEndTag(buf, s, p, "<");
    match k {
      case None => r := Bad(PARSING_TEXT);
      case Some(end) =>
        if buf[end + 1] == NUL {
          r := Bad(PARSING);
        } else {
          r := Child(Text(StrPair(p, end, TEXT_FLAGS, true), false), end);
          assert NodeSpans(r.node) == [StrPair(p, end, TEXT_FLAGS, true)];
        }
    }
  }

  /** Compares the end tag with the element's name, flushing both, once the children are read. The
      children's strings ps lie between the two names and are kept. */
  method NamesMatch(buf: array<char>, ghost s: string, name: StrPair, endName: StrPair,
                    ghost ps: seq<StrPair>, ghost attributes: seq<Attribute>, ghost m: nat) returns (equal: bool)
    requires HoldsOne(buf, s, name) && HoldsOne(buf, s, endName) && NoNul(s) && Holds(buf, s, ps)
    requires name.flush && name.flags == NAME_FLAGS && endName.flush && endName.flags == NAME_FLAGS
    requires name.end < m <= endName.start && Ordered(ps, m, endName.start - 1)
    requires AttributesHold(buf, s, attributes) && EndBefore(attributes, m) && AttributesWithin(s, attributes)
    requires AttributesBehind(attributes, name.end)
    modifies buf
    ensures equal <==> Slice(s, endName) == Slice(s, name)
    ensures HoldsOne(buf, s, name.Flushed()) && Holds(buf, s, ps) && AttributesHold(buf, s, attributes)
    ensures forall i :: 0 <= i < buf.Length && i != name.end && i != endName.end ==> buf[i] == old(buf[i])
  {
    var b := FlushName(buf, s, endName);
    assert HoldsOne(buf, s, name);
    var a := FlushName(buf, s, name);
    assert HoldsOne(buf, s, b);
    forall k | 0 <= k < |ps| ensures HoldsOne(buf, s, ps[k]) {
      assert old(HoldsOne(buf, s, ps[k]));
    }
    forall i | 0 <= i < |attributes| ensures HoldsOne(buf, s, attributes[i].name) && HoldsOne(buf, s, attributes[i].value) {
      assert old(HoldsOne(buf, s, attributes[i].name) && HoldsOne(buf, s, attributes[i].value));
    }
    equal := StringEqual(buf, s, b, a);
  }

  ghost predicate AttributesBehind(attributes: seq<Attribute>, lo: nat) {
    forall i :: 0 <= i < |attributes| ==> lo < attributes[i].name.start && lo < attributes[i].value.start
  }

  lemma HoldsElement(buf: array<char>, s: string, name: StrPair, attributes: seq<Attribute>, children: seq<Node>)
    requires HoldsOne(buf, s, name) && AttributesHold(buf, s, attributes) && Holds(buf, s, NodesSpans(children))
    ensures Holds(buf, s, NodeSpans(Element(name, attributes, children)))
  {
    AttributesHoldSpans(buf, s, attributes);
    assert Holds(buf, s, [name]);
    HoldsConcat(buf, s, [name], AttributeSpans(attributes));
    HoldsConcat(buf, s, [name] + AttributeSpans(attributes), NodesSpans(children));
  }

  /** The children of an open element, its end tag, and the comparison of the two names. */
  method ReadChildren(buf: array<char>, ghost s: string, h: Head) returns (r: Item)
    requires h.Head? && 0 < h.next < |s| && Unread(buf, s, h.next) && AttributesWithin(s, h.attributes)
    requires h.name.flush && h.name.flags == NAME_FLAGS && HoldsOne(buf, s, h.name) && h.name.end < h.next
    requires AttributesHold(buf, s, h.attributes) && EndBefore(h.attributes, h.next)
    requires AttributesBehind(h.attributes, h.name.end)
    modifies buf
    ensures r == match ParseNodes(s, h.next, false, [])
                 case Failed(error) => Bad(error)
                 case Ended(_) => Bad(PARSING)
                 case Closed(children, endName, after) =>
                   if Slice(s, endName) == Slice(s, h.name) then Child(Element(h.name.Flushed(), h.attributes, children), after)
                   else Bad(MISMATCHED_ELEMENT)
    ensures r.Child? ==> Holds(buf, s, NodeSpans(r.node)) && SameOutside(buf, h.name.end, r.next)
    decreases |s| - h.next, 3
  {
    hide ParseNodes, NodeSpans, NodesSpans;
    var inner := ReadNodes(buf, s, h.next, false);
    match inner {
      case Failed(error) => r := Bad(error);
      case Ended(_) => r := Bad(PARSING);
      case Closed(children, endName, after) =>
        forall i | 0 <= i < |h.attributes|
          ensures HoldsOne(buf, s, h.attributes[i].name) && HoldsOne(buf, s, h.attributes[i].value)
        {
          assert old(HoldsOne(buf, s, h.attributes[i].name) && HoldsOne(buf, s, h.attributes[i].value));
        }
        NoSpans(h.next);
        NodesOrdered(s, h.next, false, [], h.next, h.next - 1);
        ghost var ps := NodesSpans(children);
        BeforeLast(ps, endName, h.next, after - 1);
        var equal := NamesMatch(buf, s, h.name, endName, ps, h.attributes, h.next);
        if !equal { return Bad(MISMATCHED_ELEMENT); }
        r := Child(Element(h.name.Flushed(), h.attributes, children), after);
        HoldsElement(buf, s, h.name.Flushed(), h.attributes, children);
    }
  }

  lemma BeforeLast(ps: seq<StrPair>, last: StrPair, lo: int, hi: int)
    requires Ordered(ps + [last], lo, hi)
    ensures Ordered(ps, lo, last.start - 1) && lo <= last.start <= last.end <= hi
  {
    var all := ps + [last];
    assert all[|ps|] == last;
    assert forall i :: 0 <= i < |ps| ==> all[i] == ps[i];
  }

  /** XMLDocument::Identify and the node's own ParseDeep. */
  method ReadItem(buf: array<char>, ghost s: string, p: nat, declarationsOk: bool) returns (r: Item)
    requires p < |s| && Unread(buf, s, p)
    modifies buf
    ensures r == ParseItem(s, p, declarationsOk)
    ensures r.Child? ==> Holds(buf, s, NodeSpans(r.node)) && SameOutside(buf, Lower(s, p), r.next)
    ensures r.EndTag? ==> HoldsOne(buf, s, r.name) && SameOutside(buf, Lower(s, p), r.next)
    ensures r.AtEnd? ==> SameOutside(buf, p, p)
    decreases |s| - p, 0
  {
    hide ParseNodes, ParseHead, ParseMarkup, ParseText, NodeSpans, MarkupAt, Holds, Unread;
    var q := SkipBlanks(buf, s, p);
    Peek(buf, s, p, p);
    Peek(buf, s, p, q);
    if buf[q] == NUL { return AtEnd; }
    var i := FindMarkup(buf, s, q);
    if i < 4 {
      r := ReadMarkup(buf, s, q, i, declarationsOk);
    } else if buf[q] == '<' {
      Peek(buf, s, q, q + 1);
      var h := ReadHead(buf, s, q + 1);
      if h.BadHead? { return Bad(h.error); }
      HeadSpans(s, q + 1);
      Peek(buf, s, h.next, h.next);
      if h.closing == CLOSING { return EndTag(h.name, h.next); }
      if h.closing == CLOSED {
        r := Child(Element(h.name, h.attributes, []), h.next);
        EmptyHolds(buf, s);
        HoldsElement(buf, s, h.name, h.attributes, []);
      } else if buf[h.next] == NUL {
        r := Bad(MISMATCHED_ELEMENT);
      } else {
        r := ReadChildren(buf, s, h);
      }
    } else {
      r := ReadText(buf, s, p);
    }
  }

  lemma EmptyHolds(buf: array<char>, s: string)
    ensures Holds(buf, s, NodesSpans([]))
  {}

  /** The attributes of a head lie between its name and its end. */
  lemma HeadSpans(s: string, p: nat)
    requires p <= |s| && ParseHead(s, p).Head?
    ensures var h := ParseHead(s, p);
      && h.name.flush && h.name.flags == NAME_FLAGS && EndBefore(h.attributes, h.next)
      && AttributesBehind(h.attributes, h.name.end)
  {
    hide ParseAttributes;
    HeadOrdered(s, p);
    var h := ParseHead(s, p);
    var own := [h.name] + AttributeSpans(h.attributes);
    AttributeSpansAt(h.attributes);
    forall i | 0 <= i < |h.attributes|
      ensures h.name.end < h.attributes[i].name.start && h.attributes[i].name.end < h.next
      ensures h.name.end < h.attributes[i].value.start && h.attributes[i].value.end < h.next
    {
      assert own[0] == h.name && own[1 + 2 * i] == h.attributes[i].name && own[2 + 2 * i] == h.attributes[i].value;
    }
  }

  lemma AttributeSpansAt(attributes: seq<Attribute>)
    ensures |AttributeSpans(attributes)| == 2 * |attributes|
    ensures forall i :: 0 <= i < |attributes| ==>
      AttributeSpans(attributes)[2 * i] == attributes[i].name && AttributeSpans(attributes)[2 * i + 1] == attributes[i].value
  {
    if attributes != [] {
      AttributeSpansAt(attributes[..|attributes| - 1]);
    }
  }

  /** One turn at p, keeping the strings read before. */
  method ReadNext(buf: array<char>, ghost s: string, p: nat, d: bool, ghost earlier: seq<StrPair>, ghost lo: int, ghost hi: int)
    returns (r: Item)
    requires p < |s| && Unread(buf, s, p)
    requires Holds(buf, s, earlier) && Ordered(earlier, lo, hi) && lo <= hi + 1 && hi < Lower(s, p)
    modifies buf
    ensures r == ParseItem(s, p, d)
    ensures r.Child? ==>
      && SameOutside(buf, p, r.next) && Holds(buf, s, earlier + NodeSpans(r.node))
      && Ordered(earlier + NodeSpans(r.node), lo, Upper(r.node, r.next)) && Upper(r.node, r.next) < Lower(s, r.next)
      && hi <= Upper(r.node, r.next)
    ensures r.EndTag? ==>
      && SameOutside(buf, p, r.next) && Holds(buf, s, earlier)
      && HoldsOne(buf, s, r.name) && r.name.flush && r.name.flags == NAME_FLAGS
    ensures r.AtEnd? ==> Holds(buf, s, earlier)
    decreases |s| - p, 1
  {
    hide ParseItem, NodeSpans, Ordered, Holds;
    ghost var before := buf[..];
    HoldsIsHeld(buf, s, earlier);
    r := ReadItem(buf, s, p, d);
    ItemOrdered(s, p, d);
    if !r.Bad? {
      HeldFrame(before, buf[..], s, earlier, lo, hi);
      HoldsIsHeld(buf, s, earlier);
    }
    if r.Child? {
      Widen(NodeSpans(r.node), Lower(s, p), hi + 1, Upper(r.node, r.next), Upper(r.node, r.next));
      OrderedConcat(earlier, NodeSpans(r.node), lo, hi, Upper(r.node, r.next));
      HoldsConcat(buf, s, earlier, NodeSpans(r.node));
    } else if r.EndTag? {
      EndTagPending(s, p, d);
    }
  }

  lemma EndTagPending(s: string, p: nat, declarationsOk: bool)
    requires p < |s| && ParseItem(s, p, declarationsOk).EndTag?
    ensures var name := ParseItem(s, p, declarationsOk).name; name.flush && name.flags == NAME_FLAGS
  {
    hide ParseAttributes, ParseNodes, MarkupAt, FindTag;
  }

  /** The loop of XMLNode::ParseDeep. */
  method ReadNodes(buf: array<char>, ghost s: string, p0: nat, d0: bool) returns (r: Outcome)
    requires p0 <= |s| && Unread(buf, s, p0)
    modifies buf
    ensures r == ParseNodes(s, p0, d0, [])
    ensures r.Ended? ==> Holds(buf, s, NodesSpans(r.nodes))
    ensures r.Closed? ==> Holds(buf, s, NodesSpans(r.nodes)) && HoldsOne(buf, s, r.name) && SameOutside(buf, p0, r.next)
    ensures r.Closed? ==> r.name.flush && r.name.flags == NAME_FLAGS
    decreases |s| - p0, 2
  {
    hide ParseItem, NodeSpans, NodesSpans, Ordered, Holds, Lower, Upper;
    var p, d, acc := p0, d0, [];
    ghost var hi: int := p0 - 1;
    NoSpans(p0);
    EmptyHolds(buf, s);
    StartsBelow(s, p0);
    while buf[p] != NUL
      invariant p0 <= p <= |s| && Unread(buf, s, p)
      invariant ParseNodes(s, p0, d0, []) == ParseNodes(s, p, d, acc)
      invariant Ordered(NodesSpans(acc), p0, hi) && p0 <= hi + 1 && hi < Lower(s, p)
      invariant Holds(buf, s, NodesSpans(acc)) && SameOutside(buf, p0, p)
      decreases |s| - p
    {
      var item := ReadNext(buf, s, p, d, NodesSpans(acc), p0, hi);
      match item {
        case Bad(error) => return Failed(error);
        case AtEnd => return Ended(acc);
        case EndTag(name, next) => return Closed(acc, name, next);
        case Child(node, next) =>
          SnocNode(acc, node);
          acc, hi := acc + [node], Upper(node, next);
          d := d && node.Declaration?;
          p := next;
      }
    }
    r := Ended(acc);
  }

  lemma StartsBelow(s: string, p: nat)
    ensures p - 1 < Lower(s, p)
  {}
}

module XmlDocuments {
  import opened Options
  import opened XmlChars
  import opened TextDecoding
  import opened StrPairs
  import opened XmlSyntax
  import opened XmlSpans
  import opened XmlParsing

  /** The string a range of the original text denotes, decoded eagerly. */
  function TextOf(s: string, sp: StrPair): string
    requires sp.start <= sp.end <= |s|
  {
    UpToNul(InPlace(Slice(s, sp), 0, "", sp.flags))
  }

  /** XMLDocument::Parse() on the filled buffer. */
  method ParseBuffer(buf: array<char>, ghost s: string) returns (r: Parsed)
    requires Unread(buf, s, 0)
    modifies buf
    ensures r == ParseDocument(s)
    ensures r.Document? ==> Holds(buf, s, NodesSpans(r.nodes)) && Ordered(NodesSpans(r.nodes), 0, |s|)
  {
    hide ParseNodes, NodesSpans, Holds, Ordered;
    var q := SkipBlanks(buf, s, 0);
    MatchesIsStartsWith(buf, s, 0, q, BOM);
    var bom := Matches(buf, q, BOM);
    if bom { q := q + 3; }
    if buf[q] == NUL { return ParseError(EMPTY_DOCUMENT); }
    var outcome := ReadNodes(buf, s, q, true);
    match outcome {
      case Failed(error) => r := ParseError(error);
      case _ =>
        r := Document(outcome.nodes, bom);
        DocumentOrdered(s);
    }
  }

  /** A parsed document: the buffer, the tree, and the current state of its strings in document order. */
  class XMLDocument {
    var charBuffer: array<char>
    var nodes: seq<Node>
    var strings: seq<StrPair>
    var errorID: Option<XmlError>
    var writeBOM: bool
    ghost var text: string

    ghost predicate Valid()
      reads this, charBuffer
    {
      Consistent(charBuffer[..], text, strings, NodesSpans(nodes))
    }

    /** What string i denotes: the eager decoding of its range of the original text. */
    ghost function Eager(i: nat): string
      requires Valid() && i < |strings|
      reads this, charBuffer
    {
      TextOf(text, NodesSpans(nodes)[i])
    }

    constructor ()
      ensures Valid() && nodes == [] && fresh(charBuffer)
    {
      charBuffer := new char[1];
      nodes, strings, text := [], [], "";
      errorID, writeBOM := None, false;
    }

    /** XMLDocument::Parse( p, len ); the text ends at the first NUL. */
    method Parse(p: string)
      modifies this
      ensures text == UpToNul(p)
      ensures match ParseDocument(text)
              case ParseError(error) => errorID == Some(error) && nodes == [] && strings == []
              case Document(ns, bom) => errorID == None && nodes == ns && writeBOM == bom && strings == NodesSpans(ns) && Valid()
      ensures fresh(charBuffer)
    {
      hide UpToNul, ParseDocument, NodesSpans, Consistent;
      text := UpToNul(p);
      UpToNulOf(p);
      nodes, strings := [], [];
      charBuffer := new char[|p| + 1](i requires 0 <= i <= |p| => if i < |p| then p[i] else NUL);
      var r := ParseBuffer(charBuffer, text);
      match r {
        case ParseError(error) => errorID := Some(error);
        case Document(ns, bom) =>
          errorID, writeBOM, nodes := None, bom, ns;
          strings := NodesSpans(nodes);
          HeldConsistent(charBuffer, text, strings);
      }
    }

    /** Any accessor: StrPair::GetStr on string i, and the C string it points to. */
    method GetText(i: nat) returns (t: string)
      requires Valid() && i < |strings|
      modifies this`strings, charBuffer
      ensures Valid() && |strings| == old(|strings|)
      ensures t == old(Eager(i)) && forall j :: 0 <= j < |strings| ==> Eager(j) == old(Eager(j))
    {
      ghost var before := charBuffer[..];
      var sp := GetStr(charBuffer, strings[i]);
      t := ReadCString(charBuffer, sp);
      ReadKeeps(before, charBuffer[..], text, strings, NodesSpans(nodes), i, sp);
      strings := strings[i := sp];
    }

    /** Reads strings in any order, any number of times: every read gives the eagerly decoded string. */
    method GetTexts(order: seq<nat>) returns (ts: seq<string>)
      requires Valid() && forall k :: 0 <= k < |order| ==> order[k] < |strings|
      modifies this`strings, charBuffer
      ensures Valid() && |ts| == |order| && |strings| == old(|strings|)
      ensures forall k :: 0 <= k < |order| ==> ts[k] == old(Eager(order[k]))
    {
      ts := [];
      while |ts| < |order|
        invariant |ts| <= |order| && Valid() && |strings| == old(|strings|)
        invariant forall j :: 0 <= j < |strings| ==> Eager(j) == old(Eager(j))
        invariant forall k :: 0 <= k < |ts| ==> ts[k] == old(Eager(order[k]))
      {
        var t := GetText(order[|ts|]);
        ts := ts + [t];
      }
    }
  }

  /** sp, flushed or not, reads in the buffer b as its original range of s decodes. */
  ghost predicate ReadsAs(b: seq<char>, s: string, sp: StrPair, original: StrPair) {
    && sp.Readable(b) && sp.start == original.start && sp.end == original.end <= |s|
    && Value(b, sp) == TextOf(s, original)
  }

  ghost predicate Consistent(b: seq<char>, s: string, strings: seq<StrPair>, originals: seq<StrPair>) {
    && |strings| == |originals| && Ordered(strings, 0, |s|)
    && forall i :: 0 <= i < |strings| ==> ReadsAs(b, s, strings[i], originals[i])
  }

  lemma HeldConsistent(buf: array<char>, s: string, ps: seq<StrPair>)
    requires Holds(buf, s, ps) && Ordered(ps, 0, |s|) && NoNul(s)
    ensures Consistent(buf[..], s, ps, ps)
  {
    forall i | 0 <= i < |ps| ensures ReadsAs(buf[..], s, ps[i], ps[i]) {
      HeldReads(buf, s, ps[i]);
    }
  }

  /** Flushing string i leaves what every string denotes unchanged. */
  lemma ReadKeeps(a: seq<char>, b: seq<char>, s: string, strings: seq<StrPair>, originals: seq<StrPair>, i: nat, sp: StrPair)
    requires Consistent(a, s, strings, originals) && i < |strings| && |a| == |b|
    requires sp == strings[i].Flushed() && sp.Readable(b) && Value(b, sp) == Value(a, strings[i])
    requires forall k :: 0 <= k < |a| && !(sp.start <= k <= sp.end) ==> a[k] == b[k]
    ensures Consistent(b, s, strings[i := sp], originals)
  {
    hide Value, TextOf;
    var strings' := strings[i := sp];
    forall j | 0 <= j < |strings| ensures ReadsAs(b, s, strings'[j], originals[j]) {
      assert ReadsAs(a, s, strings[j], originals[j]) && ReadsAs(a, s, strings[i], originals[i]);
      if j != i { UntouchedValue(a, b, strings[j], strings[i]); }
    }
  }

  lemma UpToNulOf(p: string)
    ensures UpToNul(p) <= p && NoNul(UpToNul(p))
    ensures |UpToNul(p)| < |p| ==> p[|UpToNul(p)|] == NUL
  {}

  /** What the parser recorded reads as the eager decoding of the original text. */
  lemma HeldReads(buf: array<char>, s: string, sp: StrPair)
    requires HoldsOne(buf, s, sp) && NoNul(s)
    ensures sp.Readable(buf[..]) && Value(buf[..], sp) == TextOf(s, sp)
  {
    hide UpToNul;
    var raw := Slice(s, sp);
    assert buf[..][sp.start..sp.end] == raw;
    if !sp.flush {
      PlainText(raw, 0);
      assert raw[..0] == "";
    }
  }

  lemma UntouchedValue(a: seq<char>, b: seq<char>, sp: StrPair, other: StrPair)
    requires |a| == |b| && sp.Readable(a) && other.Within(|a|)
    requires sp.end < other.start || other.end < sp.start
    requires forall i :: 0 <= i < |a| && !(other.start <= i <= other.end) ==> a[i] == b[i]
    ensures sp.Readable(b) && Value(a, sp) == Value(b, sp)
  {
    assert a[sp.start..sp.end] == b[sp.start..sp.end];
  }

  /** The C string at a flushed range. */
  method ReadCString(buf: array<char>, sp: StrPair) returns (t: string)
    requires sp.Within(buf.Length) && buf[sp.end] == NUL
    ensures t == UpToNul(buf[sp.start..sp.end])
  {
    t := "";
    var k := sp.start;
    while buf[k] != NUL
      invariant sp.start <= k <= sp.end
      invariant UpToNul(buf[sp.start..sp.end]) == t + UpToNul(buf[k..sp.end])
      decreases sp.end - k
    {
      assert buf[k..sp.end][1..] == buf[k + 1..sp.end];
      t := t + [buf[k]];
      k := k + 1;
    }
  }
}
