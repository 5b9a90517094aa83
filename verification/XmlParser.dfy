// What parsing a text means: XMLDocument::Identify and the ParseDeep family, as functions of the original text.
// The text is s; position |s| is its terminating NUL. Default mode: entities processed, white space preserved.

module XmlSyntax {
  import opened Options
  import opened XmlChars
  import opened TextDecoding
  import opened StrPairs

  datatype Attribute = Attribute(name: StrPair, value: StrPair)

  /** A DOM node, its strings in the state the parser leaves them: attribute names and the names of
      elements with an end tag were already flushed, everything else is pending. */
  datatype Node =
    | Element(name: StrPair, attributes: seq<Attribute>, children: seq<Node>)
    | Text(value: StrPair, cdata: bool)
    | Comment(value: StrPair)
    | Declaration(value: StrPair)
    | Unknown(value: StrPair)

  datatype XmlError =
    | PARSING_ELEMENT | PARSING_ATTRIBUTE | PARSING_TEXT | PARSING_CDATA | PARSING_COMMENT
    | PARSING_DECLARATION | PARSING_UNKNOWN | EMPTY_DOCUMENT | MISMATCHED_ELEMENT | PARSING

  const NAME_FLAGS := Flags(false, false)
  const LINE_FLAGS := Flags(false, true)
  const TEXT_FLAGS := Flags(true, true)

  function SkipWhiteSpace(s: string, p: nat): (q: nat)
    requires p <= |s|
    ensures p <= q <= |s|
    ensures forall i :: p <= i < q ==> IsWhiteSpace(s[i])
    ensures q < |s| ==> !IsWhiteSpace(s[q])
    decreases |s| - p
  {
    if p < |s| && IsWhiteSpace(s[p]) then SkipWhiteSpace(s, p + 1) else p
  }

  /** StrPair::ParseText: where the first occurrence of the end tag starts. */
  function FindTag(s: string, p: nat, tag: string): (k: Option<nat>)
    requires p <= |s| && tag != ""
    ensures k.Some? ==> p <= k.value && k.value + |tag| <= |s| && s[k.value..k.value + |tag|] == tag
    ensures k.Some? ==> forall i :: p <= i < k.value ==> !StartsWith(s, i, tag)
    decreases |s| - p
  {
    if p == |s| then None
    else if StartsWith(s, p, tag) then Some(p)
    else FindTag(s, p + 1, tag)
  }

  /** The rest of StrPair::ParseName after the start character. */
  function NameEnd(s: string, p: nat): (e: nat)
    requires p <= |s|
    ensures p <= e <= |s|
    ensures e < |s| ==> !IsNameChar(s[e])
    decreases |s| - p
  {
    if p < |s| && IsNameChar(s[p]) then NameEnd(s, p + 1) else p
  }

  predicate CharAt(s: string, p: nat, c: char) {
    p < |s| && s[p] == c
  }

  function Slice(s: string, sp: StrPair): string
    requires sp.start <= sp.end <= |s|
  {
    s[sp.start..sp.end]
  }

  // ---------- attributes ----------

  datatype AttributeAt = NoAttribute | AttributeAt(attribute: Attribute, next: nat)

  /** XMLAttribute::ParseDeep, with the name already read back once by the duplicate check. */
  function ParseAttribute(s: string, p: nat): (r: AttributeAt)
    requires p < |s| && IsNameStartChar(s[p])
    ensures r.AttributeAt? ==>
      var a := r.attribute;
      a.name.start == p < a.name.end < a.value.start <= a.value.end == r.next - 1 < |s|
  {
    var e := NameEnd(s, p + 1);
    var q := SkipWhiteSpace(s, e);
    if e == |s| || !CharAt(s, q, '=') then NoAttribute
    else
      var v := SkipWhiteSpace(s, q + 1);
      if !CharAt(s, v, '"') && !CharAt(s, v, '\'') then NoAttribute
      else match FindTag(s, v + 1, [s[v]])
        case None => NoAttribute
        case Some(k) =>
          AttributeAt(Attribute(StrPair(p, e, NAME_FLAGS, false), StrPair(v + 1, k, TEXT_FLAGS, true)), k + 1)
  }

  ghost predicate AttributeWithin(s: string, a: Attribute) {
    a.name.start <= a.name.end <= |s| && a.value.start <= a.value.end <= |s|
  }

  ghost predicate AttributesWithin(s: string, attributes: seq<Attribute>) {
    forall i :: 0 <= i < |attributes| ==> AttributeWithin(s, attributes[i])
  }

  predicate HasName(s: string, attributes: seq<Attribute>, name: string)
    requires AttributesWithin(s, attributes)
  {
    exists i :: 0 <= i < |attributes| && Slice(s, attributes[i].name) == name
  }

  datatype AttributesAt = BadAttributes(error: XmlError) | AttributesAt(attributes: seq<Attribute>, sealed: bool, next: nat)

  /** XMLElement::ParseAttributes from position p, with `acc` already read. */
  function ParseAttributes(s: string, p: nat, acc: seq<Attribute>): (r: AttributesAt)
    requires p <= |s| && AttributesWithin(s, acc)
    ensures r.AttributesAt? ==> p < r.next <= |s| && AttributesWithin(s, r.attributes)
    decreases |s| - p
  {
    var q := SkipWhiteSpace(s, p);
    if q == |s| then BadAttributes(PARSING_ELEMENT)
    else if IsNameStartChar(s[q]) then
      match ParseAttribute(s, q)
      case NoAttribute => BadAttributes(PARSING_ATTRIBUTE)
      case AttributeAt(a, next) =>
        if HasName(s, acc, Slice(s, a.name)) then BadAttributes(PARSING_ATTRIBUTE)
        else ParseAttributes(s, next, acc + [a])
    else if s[q] == '>' then AttributesAt(acc, false, q + 1)
    else if s[q] == '/' && CharAt(s, q + 1, '>') then AttributesAt(acc, true, q + 2)
    else BadAttributes(PARSING_ELEMENT)
  }

  // ---------- elements ----------

  datatype ClosingType = OPEN | CLOSED | CLOSING

  datatype Head = BadHead(error: XmlError)
                | Head(name: StrPair, attributes: seq<Attribute>, closing: ClosingType, next: nat)

  /** XMLElement::ParseDeep up to its children; p is behind the '<'. A sealed tag is CLOSED even after "</". */
  function ParseHead(s: string, p: nat): (h: Head)
    requires p <= |s|
    ensures h.Head? ==> p <= h.name.start < h.name.end < h.next <= |s| && AttributesWithin(s, h.attributes)
  {
    var q0 := SkipWhiteSpace(s, p);
    var slash := CharAt(s, q0, '/');
    var q := if slash then q0 + 1 else q0;
    if q >= |s| || !IsNameStartChar(s[q]) then BadHead(PARSING)
    else
      var e := NameEnd(s, q + 1);
      match ParseAttributes(s, e, [])
      case BadAttributes(error) => BadHead(error)
      case AttributesAt(attributes, sealed, next) =>
        Head(StrPair(q, e, NAME_FLAGS, true), attributes, if sealed then CLOSED else if slash then CLOSING else OPEN, next)
  }

  /** The markup that Identify recognises before it falls back on elements and text. */
  datatype Markup = Markup(open: string, close: string, error: XmlError)

  const MARKUP: seq<Markup> := [
    Markup("<?", "?>", PARSING_DECLARATION), Markup("<!--", "-->", PARSING_COMMENT),
    Markup("<![CDATA[", "]]>", PARSING_CDATA), Markup("<!", ">", PARSING_UNKNOWN)]

  function MarkupNode(i: nat, value: StrPair): Node
    requires i < 4
  {
    if i == 0 then Declaration(value) else if i == 1 then Comment(value)
    else if i == 2 then Text(value, true) else Unknown(value)
  }

  /** Index of the first markup opening at p, or 4. */
  function MarkupAt(s: string, p: nat, i: nat := 0): (k: nat)
    requires p <= |s| && i <= 4
    ensures i <= k <= 4
    ensures k < 4 ==> StartsWith(s, p, MARKUP[k].open)
    decreases 4 - i
  {
    if i == 4 || StartsWith(s, p, MARKUP[i].open) then i else MarkupAt(s, p, i + 1)
  }

  /** What one turn of XMLNode::ParseDeep finds. */
  datatype Item = Bad(error: XmlError) | AtEnd | Child(node: Node, next: nat) | EndTag(name: StrPair, next: nat)

  datatype Outcome = Failed(error: XmlError) | Ended(nodes: seq<Node>) | Closed(nodes: seq<Node>, name: StrPair, next: nat)

  function ParseMarkup(s: string, q: nat, i: nat, declarationsOk: bool): (r: Item)
    requires i < 4 && q <= |s| && StartsWith(s, q, MARKUP[i].open)
    ensures r.Child? ==> q < r.next <= |s|
    ensures !r.AtEnd? && !r.EndTag?
  {
    var start := q + |MARKUP[i].open|;
    match FindTag(s, start, MARKUP[i].close)
    case None => Bad(MARKUP[i].error)
    case Some(k) =>
      if i == 0 && !declarationsOk then Bad(PARSING_DECLARATION)
      else Child(MarkupNode(i, StrPair(start, k, LINE_FLAGS, true)), k + |MARKUP[i].close|)
  }

  /** XMLText::ParseDeep: a '<' that ends the document is an error. */
  function ParseText(s: string, p: nat): (r: Item)
    requires p < |s| && s[p] != '<'
    ensures r.Child? ==> p < r.next < |s| && s[r.next] == '<'
    ensures !r.AtEnd? && !r.EndTag?
  {
    match FindTag(s, p, "<")
    case None => Bad(PARSING_TEXT)
    case Some(k) => if k + 1 == |s| then Bad(PARSING) else Child(Text(StrPair(p, k, TEXT_FLAGS, true), false), k)
  }

  /** Identify plus the node's own ParseDeep, at p. Declarations may only open a document. */
  function ParseItem(s: string, p: nat, declarationsOk: bool): (r: Item)
    requires p < |s|
    ensures r.Child? ==> p < r.next <= |s|
    ensures r.EndTag? ==> p < r.name.start < r.name.end < r.next <= |s|
    decreases |s| - p, 0
  {
    var q := SkipWhiteSpace(s, p);
    if q == |s| then AtEnd
    else if MarkupAt(s, q) < 4 then ParseMarkup(s, q, MarkupAt(s, q), declarationsOk)
    else if s[q] == '<' then
      match ParseHead(s, q + 1)
      case BadHead(error) => Bad(error)
      case Head(name, attributes, closing, next) =>
        match closing
        case CLOSING => EndTag(name, next)
        case CLOSED => Child(Element(name, attributes, []), next)
        case OPEN =>
          if next == |s| then Bad(MISMATCHED_ELEMENT)
          else match ParseNodes(s, next, false, [])
            case Failed(error) => Bad(error)
            case Ended(_) => Bad(PARSING)
            case Closed(children, endName, after) =>
              if Slice(s, endName) == Slice(s, name) then Child(Element(name.Flushed(), attributes, children), after)
              else Bad(MISMATCHED_ELEMENT)
    else ParseText(s, p)
  }

  /** The loop of XMLNode::ParseDeep from p, with `acc` already inserted. */
  function ParseNodes(s: string, p: nat, declarationsOk: bool, acc: seq<Node>): (r: Outcome)
    requires p <= |s|
    ensures r.Closed? ==> p < r.name.start < r.name.end < r.next <= |s|
    decreases |s| - p, 1
  {
    if p == |s| then Ended(acc)
    else match ParseItem(s, p, declarationsOk)
      case Bad(error) => Failed(error)
      case AtEnd => Ended(acc)
      case EndTag(name, next) => Closed(acc, name, next)
      case Child(node, next) => ParseNodes(s, next, declarationsOk && node.Declaration?, acc + [node])
  }

  datatype Parsed = ParseError(error: XmlError) | Document(nodes: seq<Node>, bom: bool)

  const BOM := ['\U{EF}', '\U{BB}', '\U{BF}']

  /** XMLDocument::Parse: an end tag at document level ends the parse without an error. */
  function ParseDocument(s: string): Parsed {
    var q := SkipWhiteSpace(s, 0);
    var bom := StartsWith(s, q, BOM);
    var p := if bom then q + 3 else q;
    if p == |s| then ParseError(EMPTY_DOCUMENT)
    else match ParseNodes(s, p, true, [])
      case Failed(error) => ParseError(error)
      case Ended(nodes) => Document(nodes, bom)
      case Closed(nodes, _, _) => Document(nodes, bom)
  }
}

// Where the strings of a parsed document lie in the text.
module XmlSpans {
  import opened XmlChars
  import opened StrPairs
  import opened XmlSyntax

  /** The strings of a parse result, in document order. */
  function AttributeSpans(attributes: seq<Attribute>): seq<StrPair> {
    if attributes == [] then []
    else
      var a := attributes[|attributes| - 1];
      AttributeSpans(attributes[..|attributes| - 1]) + [a.name, a.value]
  }

  function NodeSpans(n: Node): seq<StrPair>
    decreases n, 1
  {
    if n.Element? then [n.name] + AttributeSpans(n.attributes) + NodesSpans(n.children) else [n.value]
  }

  function NodesSpans(ns: seq<Node>): seq<StrPair>
    decreases ns, 0
  {
    if ns == [] then [] else NodesSpans(ns[..|ns| - 1]) + NodeSpans(ns[|ns| - 1])
  }

  /** The ranges lie between lo and hi, terminators included, each one behind the terminator of the one before. */
  ghost predicate Ordered(ps: seq<StrPair>, lo: int, hi: int) {
    && (forall i :: 0 <= i < |ps| ==> lo <= ps[i].start <= ps[i].end <= hi)
    && (forall i, j :: 0 <= i < j < |ps| ==> ps[i].end < ps[j].start)
  }

  lemma OrderedConcat(a: seq<StrPair>, b: seq<StrPair>, lo: int, m: int, hi: int)
    requires Ordered(a, lo, m) && Ordered(b, m + 1, hi) && lo <= m + 1 && m <= hi
    ensures Ordered(a + b, lo, hi)
  {
    var c := a + b;
    forall i | 0 <= i < |c| ensures lo <= c[i].start <= c[i].end <= hi {
      if i >= |a| { assert c[i] == b[i - |a|]; }
    }
    forall i, j | 0 <= i < j < |c| ensures c[i].end < c[j].start {
      if j >= |a| {
        assert c[j] == b[j - |a|];
        if i >= |a| { assert c[i] == b[i - |a|]; }
      }
    }
  }

  lemma SnocAttribute(acc: seq<Attribute>, a: Attribute)
    ensures AttributeSpans(acc + [a]) == AttributeSpans(acc) + [a.name, a.value]
  {
    assert (acc + [a])[..|acc|] == acc;
  }

  lemma SnocNode(acc: seq<Node>, n: Node)
    ensures NodesSpans(acc + [n]) == NodesSpans(acc) + NodeSpans(n)
  {
    assert (acc + [n])[..|acc|] == acc;
  }

  lemma {:induction false} AttributesOrdered(s: string, p: nat, acc: seq<Attribute>, lo: nat)
    requires p <= |s| && AttributesWithin(s, acc)
    requires Ordered(AttributeSpans(acc), lo, p - 1)
    requires lo <= p || (lo == p + 1 && acc == [] && (p < |s| ==> !IsNameStartChar(s[p])))
    ensures var r := ParseAttributes(s, p, acc); r.AttributesAt? ==> Ordered(AttributeSpans(r.attributes), lo, r.next - 1)
    decreases |s| - p
  {
    hide ParseAttribute, AttributeSpans, HasName;
    var q := SkipWhiteSpace(s, p);
    if q < |s| && IsNameStartChar(s[q]) {
      var at := ParseAttribute(s, q);
      if at.AttributeAt? && !HasName(s, acc, Slice(s, at.attribute.name)) {
        var a := at.attribute;
        SnocAttribute(acc, a);
        OrderedConcat(AttributeSpans(acc), [a.name, a.value], lo, q - 1, at.next - 1);
        AttributesOrdered(s, at.next, acc + [a], lo);
      }
    }
  }

  lemma HeadOrdered(s: string, p: nat)
    requires p <= |s| && ParseHead(s, p).Head?
    ensures var h := ParseHead(s, p); Ordered([h.name] + AttributeSpans(h.attributes), p, h.next - 1)
  {
    hide ParseAttributes, SkipWhiteSpace;
    var h := ParseHead(s, p);
    AttributesOrdered(s, h.name.end, [], h.name.end + 1);
    OrderedConcat([h.name], AttributeSpans(h.attributes), p, h.name.end, h.next - 1);
  }

  /** First position a string can take when parsing goes on at p: not on a '<'. */
  function Lower(s: string, p: nat): nat {
    if CharAt(s, p, '<') then p + 1 else p
  }

  /** Last position a node's strings take: plain text ends on the '<' it stops at. */
  function Upper(n: Node, next: int): int {
    if n.Text? && !n.cdata then next else next - 1
  }

  lemma ElementSpans(own: seq<StrPair>, attributes: seq<Attribute>, children: seq<Node>, lo: int, m: int, hi: int, name: StrPair)
    requires own == [name] + AttributeSpans(attributes) && Ordered(own, lo, m)
    requires Ordered(NodesSpans(children), m + 1, hi) && lo <= m + 1 && m <= hi
    ensures Ordered(NodeSpans(Element(name, attributes, children)), lo, hi)
    ensures Ordered(NodeSpans(Element(name.Flushed(), attributes, children)), lo, hi)
  {
    var inner := NodesSpans(children);
    OrderedConcat(own, inner, lo, m, hi);
    var all := own + inner;
    var flushed := [name.Flushed()] + AttributeSpans(attributes) + inner;
    assert all[0] == name && flushed == all[0 := name.Flushed()];
    assert all == NodeSpans(Element(name, attributes, children));
    assert flushed == NodeSpans(Element(name.Flushed(), attributes, children));
  }

  lemma OrderedPrefix(a: seq<StrPair>, b: seq<StrPair>, lo: int, hi: int)
    requires Ordered(a + b, lo, hi)
    ensures Ordered(a, lo, hi)
  {
    assert forall i :: 0 <= i < |a| ==> (a + b)[i] == a[i];
  }

  ghost predicate ItemIsOrdered(s: string, p: nat, r: Item) {
    && (r.Child? ==> Ordered(NodeSpans(r.node), Lower(s, p), Upper(r.node, r.next)) && Upper(r.node, r.next) < Lower(s, r.next))
    && (r.EndTag? ==> Ordered([r.name], Lower(s, p), r.next - 1))
  }

  lemma MarkupOrdered(s: string, p: nat, q: nat, i: nat, declarationsOk: bool)
    requires p <= q <= |s| && i < 4 && StartsWith(s, q, MARKUP[i].open)
    ensures ItemIsOrdered(s, p, ParseMarkup(s, q, i, declarationsOk))
  {
    hide FindTag;
  }

  /** The element case, given that the children found are ordered. */
  lemma ElementOrdered(s: string, p: nat, q: nat, declarationsOk: bool)
    requires p < |s| && q == SkipWhiteSpace(s, p) < |s| && MarkupAt(s, q) == 4 && s[q] == '<'
    requires var h := ParseHead(s, q + 1);
      h.Head? && h.next < |s| ==>
      var r := ParseNodes(s, h.next, false, []);
      r.Closed? ==> Ordered(NodesSpans(r.nodes) + [r.name], h.next, r.next - 1)
    ensures ItemIsOrdered(s, p, ParseItem(s, p, declarationsOk))
  {
    hide ParseHead, ParseNodes, MarkupAt, SkipWhiteSpace, NodesSpans, AttributeSpans, Ordered, NodeSpans;
    var h := ParseHead(s, q + 1);
    if h.Head? {
      HeadOrdered(s, q + 1);
      var own := [h.name] + AttributeSpans(h.attributes);
      Widen(own, q + 1, Lower(s, p), h.next - 1, h.next - 1);
      if h.closing == OPEN && h.next < |s| {
        var r := ParseNodes(s, h.next, false, []);
        if r.Closed? {
          OrderedPrefix(NodesSpans(r.nodes), [r.name], h.next, r.next - 1);
          ElementSpans(own, h.attributes, r.nodes, Lower(s, p), h.next - 1, r.next - 1, h.name);
        }
      } else if h.closing == CLOSED {
        NoSpans(h.next);
        ElementSpans(own, h.attributes, [], Lower(s, p), h.next - 1, h.next - 1, h.name);
      } else if h.closing == CLOSING {
        OrderedPrefix([h.name], AttributeSpans(h.attributes), Lower(s, p), h.next - 1);
      }
    }
  }

  lemma NoSpans(lo: int)
    ensures Ordered(NodesSpans([]), lo, lo - 1)
  {}

  lemma Widen(ps: seq<StrPair>, lo: int, lo': int, hi: int, hi': int)
    requires Ordered(ps, lo, hi) && lo' <= lo && hi <= hi'
    ensures Ordered(ps, lo', hi')
  {}

  lemma {:induction false} ItemOrdered(s: string, p: nat, declarationsOk: bool)
    requires p < |s|
    ensures ItemIsOrdered(s, p, ParseItem(s, p, declarationsOk))
    decreases |s| - p, 0
  {
    hide ParseHead, ParseNodes, MarkupAt, NodesSpans, FindTag;
    var q := SkipWhiteSpace(s, p);
    if q < |s| {
      var i := MarkupAt(s, q);
      if i < 4 {
        MarkupOrdered(s, p, q, i, declarationsOk);
      } else if s[q] == '<' {
        var h := ParseHead(s, q + 1);
        if h.Head? && h.next < |s| {
          NoSpans(h.next);
          NodesOrdered(s, h.next, false, [], h.next, h.next - 1);
        }
        ElementOrdered(s, p, q, declarationsOk);
      }
    }
  }

  /** Whatever text is parsed, the ranges of all strings found, terminators included, are pairwise disjoint
      and in document order. */
  lemma {:induction false} NodesOrdered(s: string, p: nat, declarationsOk: bool, acc: seq<Node>, lo: nat, hi: int)
    requires p <= |s| && Ordered(NodesSpans(acc), lo, hi) && lo <= hi + 1 && hi < Lower(s, p)
    ensures var r := ParseNodes(s, p, declarationsOk, acc);
      && (r.Ended? ==> Ordered(NodesSpans(r.nodes), lo, |s|))
      && (r.Closed? ==> Ordered(NodesSpans(r.nodes) + [r.name], lo, r.next - 1))
    decreases |s| - p, 1
  {
    hide ParseItem, NodeSpans, NodesSpans, Ordered;
    Widen(NodesSpans(acc), lo, lo, hi, |s|);
    if p < |s| {
      ItemOrdered(s, p, declarationsOk);
      match ParseItem(s, p, declarationsOk)
      case EndTag(name, next) =>
        Widen([name], Lower(s, p), hi + 1, next - 1, next - 1);
        OrderedConcat(NodesSpans(acc), [name], lo, hi, next - 1);
      case Child(node, next) =>
        var acc' := acc + [node];
        SnocNode(acc, node);
        Widen(NodeSpans(node), Lower(s, p), hi + 1, Upper(node, next), Upper(node, next));
        OrderedConcat(NodesSpans(acc), NodeSpans(node), lo, hi, Upper(node, next));
        NodesOrdered(s, next, declarationsOk && node.Declaration?, acc', lo, Upper(node, next));
      case _ =>
    }
  }

  /** The strings of every successfully parsed document occupy pairwise disjoint ranges of the text. */
  lemma DocumentOrdered(s: string)
    requires ParseDocument(s).Document?
    ensures Ordered(NodesSpans(ParseDocument(s).nodes), 0, |s|)
  {
    hide ParseNodes, NodesSpans, Ordered;
    var q := SkipWhiteSpace(s, 0);
    var p := if StartsWith(s, q, BOM) then q + 3 else q;
    if p < |s| {
      NoSpans(0);
      NodesOrdered(s, p, true, [], 0, -1);
      var r := ParseNodes(s, p, true, []);
      if r.Closed? {
        OrderedPrefix(NodesSpans(r.nodes), [r.name], 0, r.next - 1);
        Widen(NodesSpans(r.nodes), 0, 0, r.next - 1, |s|);
      }
    }
  }
}
