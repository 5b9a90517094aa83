// Documents as values, their compact printed form, and which of them are printed faithfully.

module XmlTree {
  import opened XmlChars
  import opened Escaping
  import opened XmlSyntax

  /** A document as its strings and its shape. */
  datatype Dom =
    | DomElement(name: string, attributes: seq<DomAttribute>, children: seq<Dom>)
    | DomText(value: string, cdata: bool)
    | DomComment(value: string)
    | DomDeclaration(value: string)
    | DomUnknown(value: string)

  datatype DomAttribute = DomAttribute(name: string, value: string)

  // ---------- the compact form ----------

  function PrintAttribute(a: DomAttribute): string {
    " " + (a.name + ("=\"" + (Escape(a.value, false) + "\"")))
  }

  function PrintAttributes(attributes: seq<DomAttribute>): string {
    if attributes == [] then "" else PrintAttribute(attributes[0]) + PrintAttributes(attributes[1..])
  }

  function PrintNode(n: Dom): string
    decreases n, 1
  {
    match n
    case DomElement(name, attributes, children) =>
      "<" + (name + (PrintAttributes(attributes) +
        if children == [] then "/>" else ">" + (PrintNodes(children) + ("</" + (name + ">")))))
    case DomText(value, cdata) => if cdata then "<![CDATA[" + (value + "]]>") else Escape(value, true)
    case DomComment(value) => "<!--" + (value + "-->")
    case DomDeclaration(value) => "<?" + (value + "?>")
    case DomUnknown(value) => "<!" + (value + ">")
  }

  function PrintNodes(ns: seq<Dom>): string
    decreases ns, 0
  {
    if ns == [] then "" else PrintNode(ns[0]) + PrintNodes(ns[1..])
  }

  function PrintDocument(ns: seq<Dom>, bom: bool): string {
    (if bom then BOM else "") + PrintNodes(ns)
  }

  // ---------- which documents are printed faithfully ----------

  ghost predicate ValidName(name: string) {
    name != "" && IsNameStartChar(name[0]) && forall i :: 0 <= i < |name| ==> IsNameChar(name[i])
  }

  /** Neither NUL, which ends a string, nor CR, which the parser folds into LF. */
  ghost predicate Plain(s: string) {
    Avoids(s, NUL) && Avoids(s, CR)
  }

  ghost predicate Contains(s: string, tag: string) {
    exists i :: 0 <= i <= |s| && StartsWith(s, i, tag)
  }

  ghost predicate HasInk(s: string) {
    exists i :: 0 <= i < |s| && !IsWhiteSpace(s[i])
  }

  predicate IsPlainText(n: Dom) {
    n.DomText? && !n.cdata
  }

  ghost predicate PrintableAttributes(attributes: seq<DomAttribute>) {
    && (forall i :: 0 <= i < |attributes| ==> ValidName(attributes[i].name) && Plain(attributes[i].value))
    && (forall i, j :: 0 <= i < j < |attributes| ==> attributes[i].name != attributes[j].name)
  }

  /** Below the document: no declarations; no text between its delimiters that would end it early. */
  ghost predicate PrintableNode(n: Dom)
    decreases n, 1
  {
    match n
    case DomElement(name, attributes, children) =>
      ValidName(name) && PrintableAttributes(attributes) && PrintableNodes(children)
    case DomText(value, cdata) => Plain(value) && (if cdata then !Contains(value, "]]>") else HasInk(value))
    case DomComment(value) => Plain(value) && !Contains(value, "-->")
    case DomDeclaration(_) => false
    case DomUnknown(value) => Plain(value) && !Contains(value, ">") && !("--" <= value) && !("[CDATA[" <= value)
  }

  /** Siblings: printable, and no two plain texts in a row. */
  ghost predicate PrintableNodes(ns: seq<Dom>)
    decreases ns, 0
  {
    ns == [] ||
    (PrintableNode(ns[0]) && PrintableNodes(ns[1..]) && (|ns| > 1 && IsPlainText(ns[0]) ==> !IsPlainText(ns[1])))
  }

  ghost predicate PrintableDeclaration(n: Dom) {
    n.DomDeclaration? && Plain(n.value) && !Contains(n.value, "?>")
  }

  /** A document's nodes: declarations, then other nodes, each printed so that it can be read back where it stands. */
  ghost predicate PrintableParts(declarations: seq<Dom>, ns: seq<Dom>) {
    (forall i :: 0 <= i < |declarations| ==> PrintableDeclaration(declarations[i])) && PrintableNodes(ns)
  }

  ghost predicate EndsWithText(ns: seq<Dom>) {
    ns != [] && IsPlainText(ns[|ns| - 1])
  }

  /** The node is no plain text that starts with what XMLDocument::Parse skips: white space, a byte order mark. */
  ghost predicate OpensDocument(n: Dom) {
    IsPlainText(n) ==> n.value != "" && !IsWhiteSpace(n.value[0]) && !(BOM <= n.value)
  }

  /** Nothing is printed in front of the first node, and the parser skips a part of it. */
  ghost predicate StartIsSkipped(declarations: seq<Dom>, ns: seq<Dom>, bom: bool) {
    declarations == [] && !bom && ns != [] && !OpensDocument(ns[0])
  }

  /** The documents that come back from their compact print: there is a node at all, plain text does not end the document,
      and plain text opens it only where nothing of it is skipped. */
  ghost predicate PrintableDocument(declarations: seq<Dom>, ns: seq<Dom>, bom: bool) {
    PrintableParts(declarations, ns) && declarations + ns != [] && !EndsWithText(ns) && !StartIsSkipped(declarations, ns, bom)
  }
}
