// What a printed document consists of besides its nodes: the line breaks and blanks of the mode, and what the parser
// makes of them.

module XmlSpacing {
  import opened XmlChars
  import opened Escaping
  import opened XmlTree
  import opened XmlLayout

  /** What is printed in front of a node for the looks. */
  function Lead(n: Dom, l: Layout): string {
    if n.DomText? then "" else BeforeTag(l, n.DomElement?)
  }

  /** What is printed behind it. */
  function Tail(n: Dom, l: Layout): string {
    if n.DomElement? && l.depth == 0 && !l.compact then "\n" else ""
  }

  /** The line break and the indentation in front of an end tag; l is the state behind the children. */
  function CloseGap(l: Layout): string {
    if l.textDepth < 0 && !l.compact then "\n" + Indent(l.depth - 1) else ""
  }

  /** The node itself, with entities. */
  function Body(n: Dom, l: Layout): string {
    match n
    case DomElement(name, attributes, children) =>
      "<" + (name + (PrintAttributes(attributes) +
        if children == [] then "/>"
        else ">" + (NodesText(children, Entered(l)) + (CloseGap(NodesAfter(children, Entered(l))) + ("</" + (name + ">"))))))
    case DomText(value, cdata) => if cdata then "<![CDATA[" + (value + "]]>") else Escape(value, true)
    case DomComment(value) => "<!--" + (value + "-->")
    case DomDeclaration(value) => "<?" + (value + "?>")
    case DomUnknown(value) => "<!" + (value + ">")
  }

  function LeadOf(ns: seq<Dom>, l: Layout): string {
    if ns == [] then "" else Lead(ns[0], l)
  }

  /** Siblings without what is printed in front of the first. */
  function BodyNodes(ns: seq<Dom>, l: Layout): string {
    if ns == [] then ""
    else Body(ns[0], l) + (Tail(ns[0], l) + NodesText(ns[1..], NodeAfter(ns[0], l)))
  }

  lemma NodePieces(n: Dom, l: Layout)
    requires l.entities
    ensures NodeText(n, l) == Lead(n, l) + (Body(n, l) + Tail(n, l))
  {
    hide NodesText, NodesAfter, ShownAttributes, PrintAttributes, BeforeTag;
    match n
    case DomElement(name, attributes, children) =>
      CompactAttributes(l, attributes);
      DepthRestored(children, Entered(l));
      NoNodes(Entered(l));
      var gap := CloseGap(NodesAfter(children, Entered(l)));
      ElementPieces(BeforeTag(l, true), name, PrintAttributes(attributes), children == [], NodesText(children, Entered(l)), gap, Tail(n, l));
    case _ =>
      assert Tail(n, l) == "" && Body(n, l) + "" == Body(n, l) == "" + Body(n, l);
  }

  lemma ElementPieces(lead: string, name: string, a: string, empty: bool, c: string, gap: string, tail: string)
    requires empty ==> c == ""
    ensures lead + ("<" + name) + a + (if empty then "" else ">") + c + ((if empty then "/>" else gap + ("</" + (name + ">"))) + tail)
         == lead + (("<" + (name + (a + if empty then "/>" else ">" + (c + (gap + ("</" + (name + ">"))))))) + tail)
  {}

  /** Siblings, first one first. */
  lemma {:induction false} NodesFirst(ns: seq<Dom>, l: Layout)
    requires ns != []
    ensures NodesText(ns, l) == NodeText(ns[0], l) + NodesText(ns[1..], NodeAfter(ns[0], l))
    ensures NodesAfter(ns, l) == NodesAfter(ns[1..], NodeAfter(ns[0], l))
    decreases |ns|
  {
    hide NodeText, NodeAfter;
    var k := |ns| - 1;
    if k == 0 {
      OneNode(ns[0], l);
      assert ns == [ns[0]] && ns[1..] == [];
    } else {
      NodesFirst(ns[..k], l);
      assert ns[..k][1..] == ns[1..][..k - 1];
    }
  }

  lemma OneNode(n: Dom, l: Layout)
    ensures NodesText([n], l) == NodeText(n, l) && NodesAfter([n], l) == NodeAfter(n, l)
    ensures NodeText(n, l) + NodesText([], NodeAfter(n, l)) == NodeText(n, l) && NodesAfter([], NodeAfter(n, l)) == NodeAfter(n, l)
  {
    assert [n][..0] == [];
  }

  lemma NodesPieces(ns: seq<Dom>, l: Layout)
    requires l.entities
    ensures NodesText(ns, l) == LeadOf(ns, l) + BodyNodes(ns, l)
  {
    hide NodeText, NodesText, NodesAfter, NodeAfter, Body, Lead, Tail;
    if ns == [] {
      NoNodes(l);
    } else {
      NodesFirst(ns, l);
      NodePieces(ns[0], l);
      var lead, body, tail, rest := Lead(ns[0], l), Body(ns[0], l), Tail(ns[0], l), NodesText(ns[1..], NodeAfter(ns[0], l));
      assert lead + (body + tail) + rest == lead + (body + (tail + rest));
    }
  }

  // ---------- blanks ----------

  ghost predicate Blanks(w: string) {
    forall i :: 0 <= i < |w| ==> w[i] == ' ' || w[i] == LF
  }

  lemma {:induction false} IndentBlank(n: int)
    ensures Blanks(Indent(n))
    decreases if n < 0 then 0 else n
  {
    if n > 0 { IndentBlank(n - 1); }
  }

  lemma SpacingBlank(n: Dom, l: Layout)
    ensures Blanks(Lead(n, l)) && Blanks(Tail(n, l)) && Blanks(CloseGap(l))
  {
    IndentBlank(l.depth);
    IndentBlank(l.depth - 1);
  }

  lemma BlanksJoined(a: string, b: string)
    requires Blanks(a) && Blanks(b)
    ensures Blanks(a + b)
  {}

  // ---------- what comes back ----------

  /** Siblings as the parser reads them: blanks printed directly in front of a plain text or directly behind it become part
      of it, all others are skipped. */
  function Back(before: string, ns: seq<Dom>, l: Layout): seq<Dom>
    decreases ns, 0
  {
    if ns == [] then []
    else
      var l1 := NodeAfter(ns[0], l);
      [BackNode(before, ns[0], LeadOf(ns[1..], l1), l)] + Back(Tail(ns[0], l), ns[1..], l1)
  }

  function BackNode(before: string, n: Dom, behind: string, l: Layout): Dom
    decreases n, 1
  {
    if IsPlainText(n) then DomText(before + n.value + behind, false)
    else if n.DomElement? then DomElement(n.name, n.attributes, Back("", n.children, Entered(l)))
    else n
  }

  /** In compact mode that is what was printed. */
  lemma {:induction false} CompactBack(ns: seq<Dom>, l: Layout)
    requires l.compact
    ensures Back("", ns, l) == ns
    decreases ns, 0
  {
    hide NodeAfter, Lead, Tail;
    if ns != [] {
      var l1 := NodeAfter(ns[0], l);
      NodeKeepsMode(ns[0], l);
      NoSpacing(ns[0], l);
      if |ns| > 1 { NoSpacing(ns[1], l1); }
      CompactBack(ns[1..], l1);
      if ns[0].DomElement? { CompactBack(ns[0].children, Entered(l)); }
      if IsPlainText(ns[0]) { assert "" + ns[0].value + "" == ns[0].value; }
      assert ns == [ns[0]] + ns[1..];
    }
  }

  lemma NoSpacing(n: Dom, l: Layout)
    requires l.compact
    ensures Lead(n, l) == Tail(n, l) == CloseGap(l) == ""
  {}

  lemma NodeKeepsMode(n: Dom, l: Layout)
    ensures var r := NodeAfter(n, l); r.depth == l.depth && r.compact == l.compact && r.entities == l.entities
  {
    if n.DomElement? { DepthRestored(n.children, Entered(l)); }
  }

  // ---------- when it is what was printed ----------

  /** No blanks come to stand directly in front of a plain text or directly behind one. */
  ghost predicate Undisturbed(before: string, ns: seq<Dom>, l: Layout)
    decreases ns
  {
    ns != [] ==>
      var n, l1 := ns[0], NodeAfter(ns[0], l);
      && (IsPlainText(n) ==> before == "" && LeadOf(ns[1..], l1) == "")
      && (n.DomElement? ==> Undisturbed("", n.children, Entered(l)))
      && Undisturbed(Tail(n, l), ns[1..], l1)
  }

  lemma {:induction false} BackIsSame(before: string, ns: seq<Dom>, l: Layout)
    ensures Back(before, ns, l) == ns <==> Undisturbed(before, ns, l)
    decreases ns
  {
    hide NodeAfter, LeadOf, Tail, Back, BackNode;
    if ns == [] {
      BackOfNone(before, l);
    } else {
      var n, l1 := ns[0], NodeAfter(ns[0], l);
      var head, tail := BackNode(before, n, LeadOf(ns[1..], l1), l), Back(Tail(n, l), ns[1..], l1);
      BackPieces(before, ns, l);
      BackIsSame(Tail(n, l), ns[1..], l1);
      if n.DomElement? { BackIsSame("", n.children, Entered(l)); }
      HeadIsSame(before, n, LeadOf(ns[1..], l1), l);
      assert ns == [n] + ns[1..];
      assert [head] + tail == ns <==> head == n && tail == ns[1..] by {
        assert ([head] + tail)[0] == head && ([head] + tail)[1..] == tail;
      }
    }
  }

  lemma BackOfNone(before: string, l: Layout)
    ensures Back(before, [], l) == []
  {}

  lemma BackPieces(before: string, ns: seq<Dom>, l: Layout)
    requires ns != []
    ensures var l1 := NodeAfter(ns[0], l);
      Back(before, ns, l) == [BackNode(before, ns[0], LeadOf(ns[1..], l1), l)] + Back(Tail(ns[0], l), ns[1..], l1)
  {
    hide NodeAfter, LeadOf, Tail, BackNode;
  }

  lemma HeadIsSame(before: string, n: Dom, behind: string, l: Layout)
    ensures BackNode(before, n, behind, l) == n <==>
      (IsPlainText(n) ==> before == "" && behind == "") && (n.DomElement? ==> Back("", n.children, Entered(l)) == n.children)
  {
    hide Back;
    if IsPlainText(n) {
      if before == "" && behind == "" { assert before + n.value + behind == n.value; }
      assert |before + n.value + behind| == |before| + |n.value| + |behind|;
    }
  }

  /** Below the document no plain text is directly followed by an element. */
  ghost predicate NoTextBeforeElement(ns: seq<Dom>)
    decreases ns
  {
    ns != [] ==>
      && (|ns| > 1 && IsPlainText(ns[0]) ==> !ns[1].DomElement?)
      && (ns[0].DomElement? ==> NoTextBeforeElement(ns[0].children))
      && NoTextBeforeElement(ns[1..])
  }

  /** The same for the nodes of the document itself, where every element is followed by a line break and everything but
      text is preceded by one, unless only texts have been printed before: no plain text stands directly behind an
      element, nor directly in front of anything but CDATA unless all nodes before it are texts. */
  ghost predicate SpacingSafe(ns: seq<Dom>, behindElement: bool, onlyTexts: bool)
    decreases ns
  {
    ns != [] ==>
      && (IsPlainText(ns[0]) ==> !behindElement && (|ns| > 1 && !ns[1].DomText? ==> onlyTexts))
      && (ns[0].DomElement? ==> NoTextBeforeElement(ns[0].children))
      && SpacingSafe(ns[1..], ns[0].DomElement?, onlyTexts && ns[0].DomText?)
  }

  lemma {:induction false} InnerUndisturbed(ns: seq<Dom>, l: Layout)
    requires !l.compact && l.depth > 0
    ensures Undisturbed("", ns, l) <==> NoTextBeforeElement(ns)
    decreases ns
  {
    hide NodeAfter;
    if ns != [] {
      var n, l1 := ns[0], NodeAfter(ns[0], l);
      NodeKeepsMode(n, l);
      InnerUndisturbed(ns[1..], l1);
      if n.DomElement? { InnerUndisturbed(n.children, Entered(l)); }
      if IsPlainText(n) {
        BehindInnerText(ns, l);
      }
    }
  }

  lemma BehindInnerText(ns: seq<Dom>, l: Layout)
    requires ns != [] && IsPlainText(ns[0]) && !l.compact && l.depth > 0
    ensures LeadOf(ns[1..], NodeAfter(ns[0], l)) == "" <==> !(|ns| > 1 && ns[1].DomElement?)
  {
    IndentLength(l.depth);
  }

  /** The line breaks of the document level are switched on again behind every element. */
  lemma {:induction false} TextDepthAfter(ns: seq<Dom>, l: Layout)
    ensures NodesAfter(ns, l).textDepth in {l.textDepth, -1, l.depth - 1}
    ensures !l.first ==> !NodesAfter(ns, l).first
    decreases ns
  {
    if ns != [] {
      var k := |ns| - 1;
      TextDepthAfter(ns[..k], l);
      DepthRestored(ns[..k], l);
      var l1 := NodesAfter(ns[..k], l);
      if ns[k].DomElement? {
        TextDepthAfter(ns[k].children, Entered(l1));
        DepthRestored(ns[k].children, Entered(l1));
      }
    }
  }

  lemma TopAfter(n: Dom, l: Layout)
    requires l.depth == 0 && l.textDepth == -1
    ensures var l1 := NodeAfter(n, l); l1.textDepth == -1 && l1.depth == 0 && (l1.first <==> l.first && n.DomText?)
  {
    NodeKeepsMode(n, l);
    if n.DomElement? {
      TextDepthAfter(n.children, Entered(l));
      DepthRestored(n.children, Entered(l));
    }
  }

  lemma {:induction false} TopUndisturbed(ns: seq<Dom>, l: Layout, behindElement: bool)
    requires !l.compact && l.depth == 0 && l.textDepth == -1
    ensures Undisturbed(if behindElement then "\n" else "", ns, l) <==> SpacingSafe(ns, behindElement, l.first)
    decreases ns
  {
    hide NodeAfter;
    if ns != [] {
      var n, l1 := ns[0], NodeAfter(ns[0], l);
      TopAfter(n, l);
      NodeKeepsMode(n, l);
      TopUndisturbed(ns[1..], l1, n.DomElement?);
      if n.DomElement? { InnerUndisturbed(n.children, Entered(l)); }
      BehindTopText(ns, l1);
    }
  }

  lemma BehindTopText(ns: seq<Dom>, l1: Layout)
    requires ns != [] && !l1.compact && l1.depth == 0 && l1.textDepth == -1
    ensures LeadOf(ns[1..], l1) == "" <==> (|ns| > 1 && !ns[1].DomText? ==> l1.first)
  {
    assert Indent(0) == "";
  }

  /** A document is read back as it was in compact mode, and out of it exactly when its texts stand where no blanks are
      printed. */
  lemma SameExactly(compact: bool, ns: seq<Dom>)
    ensures Back("", ns, NewPrinter(compact)) == ns <==> compact || SpacingSafe(ns, false, true)
  {
    hide Back, Undisturbed, SpacingSafe;
    if compact {
      CompactBack(ns, NewPrinter(true));
    } else {
      BackIsSame("", ns, NewPrinter(false));
      TopUndisturbed(ns, NewPrinter(false), false);
    }
  }
}
