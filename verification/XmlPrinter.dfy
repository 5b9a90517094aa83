// XMLPrinter: escaping, the layout of both modes, and the printer.

module Escaping {
  import opened Options
  import opened XmlChars
  import opened TextDecoding

  /** The index in the entity table of a character the printer replaces. */
  function EntityIndex(c: char, restricted: bool): Option<nat> {
    if c == '"' && !restricted then Some(0)
    else if c == '&' then Some(1)
    else if c == '\'' && !restricted then Some(2)
    else if c == '<' then Some(3)
    else if c == '>' then Some(4)
    else None
  }

  function EscapeChar(c: char, restricted: bool): (s: string)
    ensures |s| > 0
  {
    match EntityIndex(c, restricted)
    case Some(i) => "&" + ENTITIES[i].pattern + ";"
    case None => [c]
  }

  /** What PrintString emits. */
  function Escape(s: string, restricted: bool): string {
    if s == "" then "" else EscapeChar(s[0], restricted) + Escape(s[1..], restricted)
  }

  const BOTH := Flags(true, true)

  lemma EntityStep(c: char, restricted: bool, rest: string)
    requires EntityIndex(c, restricted).Some?
    ensures NextStep(EscapeChar(c, restricted) + rest, BOTH) == Emit([c], |EscapeChar(c, restricted)|)
  {
    var i := EntityIndex(c, restricted).value;
    var r := EscapeChar(c, restricted) + rest;
    assert ENTITIES[i].value == c;
    assert r[1..] == ENTITIES[i].pattern + ";" + rest;
    assert ENTITIES[i].pattern + ";" <= r[1..];
    EntityIsUnique(r, i, 0);
    assert r[0] == '&' && r[1] == ENTITIES[i].pattern[0] != '#';
  }

  lemma EntityIsUnique(r: string, i: nat, from: nat)
    requires |r| > 0 && from <= i < |ENTITIES| && EntityMatches(r, ENTITIES[i])
    ensures EntityAt(r, from) == Some(ENTITIES[i])
    decreases i - from
  {
    if from < i {
      var a, b := ENTITIES[from].pattern + ";", ENTITIES[i].pattern + ";";
      assert b <= r[1..];
      assert r[1..][0] == b[0] && r[1..][1] == b[1];
      assert a[0] != b[0] || a[1] != b[1];
      assert !(a <= r[1..]);
      EntityIsUnique(r, i, from + 1);
    }
  }

  ghost predicate Avoids(s: string, c: char) {
    forall i :: 0 <= i < |s| ==> s[i] != c
  }

  lemma AvoidsConcat(a: string, b: string, c: char)
    requires Avoids(a, c) && Avoids(b, c)
    ensures Avoids(a + b, c)
  {}

  /** Replaced by an entity and not part of one; or CR or NUL, which no entity contains. */
  ghost predicate Kept(s: string, restricted: bool, c: char) {
    (EntityIndex(c, restricted).Some? && c != '&') || (c in {CR, NUL} && Avoids(s, c))
  }

  lemma EscapeCharAvoids(x: char, restricted: bool, c: char)
    requires Kept([x], restricted, c)
    ensures Avoids(EscapeChar(x, restricted), c)
  {
    if c in {CR, NUL} { assert [x][0] != c; }
    var i := EntityIndex(x, restricted);
    if i.Some? {
      assert Avoids("quot", c) && Avoids("amp", c) && Avoids("apos", c) && Avoids("lt", c) && Avoids("gt", c);
      assert Avoids(ENTITIES[i.value].pattern, c);
    }
  }

  /** The characters an escaped text cannot contain: those the mode protects, and no new NUL or CR. */
  lemma {:induction false} EscapeAvoids(s: string, restricted: bool, c: char)
    requires Kept(s, restricted, c)
    ensures Avoids(Escape(s, restricted), c)
  {
    if s != "" {
      EscapeAvoids(s[1..], restricted, c);
      EscapeCharAvoids(s[0], restricted, c);
      AvoidsConcat(EscapeChar(s[0], restricted), Escape(s[1..], restricted), c);
    }
  }

  /** Decoding what PrintString emits gives the string back. */
  lemma {:induction false} EscapeDecodes(s: string, restricted: bool)
    requires Avoids(s, CR)
    ensures Decode(Escape(s, restricted), BOTH) == s
    ensures AmpersandsKnown(Escape(s, restricted), BOTH)
  {
    hide NextStep;
    if s != "" {
      var head, rest := EscapeChar(s[0], restricted), Escape(s[1..], restricted);
      EscapeDecodes(s[1..], restricted);
      EscapeAvoids(s[1..], restricted, CR);
      if EntityIndex(s[0], restricted).Some? {
        EntityStep(s[0], restricted, rest);
      } else {
        OtherStep(s[0], restricted, rest);
      }
      assert (head + rest)[|head|..] == rest;
    }
  }

  lemma LineEndStep(c: char, d: char, rest: string)
    requires (c == CR && d == LF) || (c == LF && d == CR)
    ensures NextStep([c] + ([d] + rest), BOTH) == Emit([LF], 2)
    ensures ([c] + ([d] + rest))[2..] == rest
  {
    var r := [c] + ([d] + rest);
    assert r[0] == c && r[1] == d;
  }

  lemma LoneReturnStep(rest: string)
    requires rest == "" || rest[0] != LF
    ensures NextStep([CR] + rest, BOTH) == Emit([LF], 1)
  {
    var r := [CR] + rest;
    assert r[0] == CR;
    if rest != "" { assert r[1] == rest[0]; }
  }

  /** No carriage return survives printing and decoding. */
  lemma {:induction false} NoReturnSurvives(s: string, restricted: bool)
    ensures Avoids(Decode(Escape(s, restricted), BOTH), CR)
    ensures AmpersandsKnown(Escape(s, restricted), BOTH)
    decreases |s|
  {
    hide NextStep;
    if s != "" {
      var head, rest := EscapeChar(s[0], restricted), Escape(s[1..], restricted);
      NoReturnSurvives(s[1..], restricted);
      assert (head + rest)[|head|..] == rest;
      if EntityIndex(s[0], restricted).Some? {
        EntityStep(s[0], restricted, rest);
      } else if |s| > 1 && ((s[0] == CR && s[1] == LF) || (s[0] == LF && s[1] == CR)) {
        var rest2 := Escape(s[2..], restricted);
        assert s[1..][1..] == s[2..];
        assert rest == [s[1]] + rest2;
        LineEndStep(s[0], s[1], rest2);
        NoReturnSurvives(s[2..], restricted);
      } else if s[0] == CR {
        LoneReturnStep(rest);
      } else {
        OtherStep(s[0], restricted, rest);
      }
    }
  }

  lemma OtherStep(c: char, restricted: bool, rest: string)
    requires EntityIndex(c, restricted).None? && c != CR && (c == LF ==> rest == "" || rest[0] != CR)
    ensures NextStep([c] + rest, BOTH) == Emit([c], 1)
  {
    assert ([c] + rest)[0] == c;
    if rest != "" { assert ([c] + rest)[1] == rest[0]; }
  }

  /** The in-place decoder recovers a string from its escaped form, in either mode, exactly when the string
      has no carriage return. */
  lemma EscapeRoundTrip(s: string, restricted: bool)
    ensures InPlace(Escape(s, restricted), 0, "", BOTH) == s <==> Avoids(s, CR)
  {
    NoReturnSurvives(s, restricted);
    KnownDecodes(Escape(s, restricted), BOTH);
    if Avoids(s, CR) {
      EscapeDecodes(s, restricted);
    }
  }

  /** The delimiters each mode protects never occur in its output. */
  lemma EscapeProtects(s: string, restricted: bool)
    ensures Avoids(Escape(s, restricted), '<') && Avoids(Escape(s, restricted), '>')
    ensures !restricted ==> Avoids(Escape(s, restricted), '"') && Avoids(Escape(s, restricted), '\'')
  {
    EscapeAvoids(s, restricted, '<');
    EscapeAvoids(s, restricted, '>');
    if !restricted {
      EscapeAvoids(s, restricted, '"');
      EscapeAvoids(s, restricted, '\'');
    }
  }
}

// What a printer writes for a node, in both modes.
module XmlLayout {
  import opened Escaping
  import opened XmlSyntax
  import opened XmlTree

  /** The state of an XMLPrinter that decides on white space and entities. */
  datatype Layout = Layout(compact: bool, entities: bool, depth: int, textDepth: int, first: bool)

  /** A new printer. */
  function NewPrinter(compact: bool): Layout {
    Layout(compact, true, 0, -1, true)
  }

  /** What a new printer writes for a document. */
  function Printed(compact: bool, ns: seq<Dom>, bom: bool): string {
    (if bom then BOM else "") + NodesText(ns, NewPrinter(compact))
  }

  function Indent(n: int): string {
    if n <= 0 then "" else Indent(n - 1) + "    "
  }

  function Shown(l: Layout, s: string, restricted: bool): string {
    if l.entities then Escape(s, restricted) else s
  }

  /** In front of a tag; a comment, a declaration or an unknown is only indented where there is a line break. */
  function BeforeTag(l: Layout, always: bool): string {
    var newLine := l.textDepth < 0 && !l.first && !l.compact;
    (if newLine then "\n" else "") + if !l.compact && (always || newLine) then Indent(l.depth) else ""
  }

  function ShownAttribute(l: Layout, a: DomAttribute): string {
    " " + (a.name + ("=\"" + (Shown(l, a.value, false) + "\"")))
  }

  function ShownAttributes(l: Layout, attributes: seq<DomAttribute>): string {
    if attributes == [] then ""
    else ShownAttributes(l, attributes[..|attributes| - 1]) + ShownAttribute(l, attributes[|attributes| - 1])
  }

  function Entered(l: Layout): Layout {
    l.(depth := l.depth + 1, first := false)
  }

  lemma ClosingPieces(start: string, l: Layout, name: string, empty: bool)
    ensures start + TagClosed(l, name, empty) + (if l.depth == 1 && !l.compact then "\n" else "") == start + ClosingTag(l, name, empty)
  {
    hide TagClosed;
  }

  /** What closes an element: l is the state behind its children. */
  function ClosingTag(l: Layout, name: string, empty: bool): string {
    TagClosed(l, name, empty) + if l.depth == 1 && !l.compact then "\n" else ""
  }

  function TagClosed(l: Layout, name: string, empty: bool): string {
    if empty then "/>"
    else (if l.textDepth < 0 && !l.compact then "\n" + Indent(l.depth - 1) else "") + ("</" + (name + ">"))
  }

  function Left(l: Layout): Layout {
    l.(depth := l.depth - 1, textDepth := if l.textDepth == l.depth - 1 then -1 else l.textDepth)
  }

  function NodeText(n: Dom, l: Layout): string
    decreases n, 1
  {
    match n
    case DomElement(name, attributes, children) =>
      BeforeTag(l, true) + ("<" + name) + ShownAttributes(l, attributes) + (if children == [] then "" else ">")
        + NodesText(children, Entered(l)) + ClosingTag(NodesAfter(children, Entered(l)), name, children == [])
    case DomText(value, cdata) => if cdata then "<![CDATA[" + (value + "]]>") else Shown(l, value, true)
    case DomComment(value) => BeforeTag(l, false) + ("<!--" + (value + "-->"))
    case DomDeclaration(value) => BeforeTag(l, false) + ("<?" + (value + "?>"))
    case DomUnknown(value) => BeforeTag(l, false) + ("<!" + (value + ">"))
  }

  function NodesText(ns: seq<Dom>, l: Layout): string
    decreases ns, 0
  {
    if ns == [] then ""
    else NodesText(ns[..|ns| - 1], l) + NodeText(ns[|ns| - 1], NodesAfter(ns[..|ns| - 1], l))
  }

  function NodeAfter(n: Dom, l: Layout): Layout
    decreases n, 1
  {
    match n
    case DomElement(_, _, children) => Left(NodesAfter(children, Entered(l)))
    case DomText(_, _) => l.(textDepth := l.depth - 1)
    case _ => l.(first := false)
  }

  function NodesAfter(ns: seq<Dom>, l: Layout): Layout
    decreases ns, 0
  {
    if ns == [] then l else NodeAfter(ns[|ns| - 1], NodesAfter(ns[..|ns| - 1], l))
  }

  /** Whatever is printed, depth and modes are what they were. */
  lemma {:induction false} DepthRestored(ns: seq<Dom>, l: Layout)
    ensures var r := NodesAfter(ns, l); r.depth == l.depth && r.compact == l.compact && r.entities == l.entities
    decreases ns
  {
    if ns != [] {
      var k := |ns| - 1;
      DepthRestored(ns[..k], l);
      if ns[k].DomElement? { DepthRestored(ns[k].children, Entered(NodesAfter(ns[..k], l))); }
    }
  }

  lemma {:induction false} CompactAttributes(l: Layout, attributes: seq<DomAttribute>)
    requires l.entities
    ensures ShownAttributes(l, attributes) == PrintAttributes(attributes)
    decreases |attributes|
  {
    hide ShownAttribute, PrintAttribute;
    if attributes != [] {
      var k := |attributes| - 1;
      CompactAttributes(l, attributes[..k]);
      AttributesSnoc(attributes, k);
      assert attributes[..k + 1] == attributes;
      SameAttribute(l, attributes[k]);
    }
  }

  lemma SameAttribute(l: Layout, a: DomAttribute)
    requires l.entities
    ensures ShownAttribute(l, a) == PrintAttribute(a)
  {}

  /** In compact mode, with entities, what is written is the compact form, wherever the printer is. */
  lemma {:induction false} CompactNode(n: Dom, l: Layout)
    requires l.compact && l.entities
    ensures NodeText(n, l) == PrintNode(n)
    decreases n, 1
  {
    hide ShownAttributes, PrintAttributes, PrintNodes, NodesText, NodesAfter, BeforeTag, ClosingTag;
    NoBreak(l);
    match n
    case DomElement(name, attributes, children) =>
      CompactAttributes(l, attributes);
      CompactNodes(children, Entered(l));
      DepthRestored(children, Entered(l));
      CompactClosing(NodesAfter(children, Entered(l)), name, children == []);
      NothingInside(children);
      CompactElement("<" + name, PrintAttributes(attributes), children == [], PrintNodes(children), "</" + (name + ">"));
    case _ =>
  }

  lemma NoBreak(l: Layout)
    requires l.compact
    ensures BeforeTag(l, true) == BeforeTag(l, false) == ""
  {}

  lemma CompactClosing(l: Layout, name: string, empty: bool)
    requires l.compact
    ensures ClosingTag(l, name, empty) == if empty then "/>" else "</" + (name + ">")
  {}

  lemma NothingInside(children: seq<Dom>)
    ensures children == [] ==> PrintNodes(children) == ""
  {}

  lemma NoNodes(l: Layout)
    ensures NodesText([], l) == "" && NodesAfter([], l) == l
  {}

  lemma CompactElement(open: string, a: string, empty: bool, c: string, e: string)
    requires empty ==> c == ""
    ensures "" + open + a + (if empty then "" else ">") + c + (if empty then "/>" else e)
         == open + (a + if empty then "/>" else ">" + (c + e))
  {}

  lemma {:induction false} CompactNodes(ns: seq<Dom>, l: Layout)
    requires l.compact && l.entities
    ensures NodesText(ns, l) == PrintNodes(ns)
    decreases ns, 0
  {
    hide NodeText, NodeAfter, PrintNode;
    if ns != [] {
      var k := |ns| - 1;
      CompactNodes(ns[..k], l);
      DepthRestored(ns[..k], l);
      CompactNode(ns[k], NodesAfter(ns[..k], l));
      NodesSnoc(ns, k);
      assert ns[..k + 1] == ns;
    }
  }

  /** Out of compact mode an element behind a text is indented: blanks are put into the content of their parent. */
  lemma BlanksBehindText(v: string, e: Dom, l: Layout)
    requires !l.compact && l.depth > 0 && e.DomElement?
    ensures Shown(l, v, true) + Indent(l.depth) + ("<" + e.name) <= NodesText([DomText(v, false), e], l)
    ensures |Indent(l.depth)| == 4 * l.depth
  {
    hide NodesText, NodesAfter, Shown, ClosingTag, Indent;
    var x := DomText(v, false);
    var l2 := l.(textDepth := l.depth - 1);
    BothNodes(x, e, l);
    assert BeforeTag(l2, true) == "" + Indent(l.depth) == Indent(l.depth);
    StartsElement(e, l2);
    IndentLength(l.depth);
    var open := Indent(l.depth) + ("<" + e.name);
    assert open <= NodeText(e, l2);
    assert Shown(l, v, true) + open == Shown(l, v, true) + Indent(l.depth) + ("<" + e.name);
  }

  lemma BothNodes(x: Dom, e: Dom, l: Layout)
    ensures NodesText([x, e], l) == NodeText(x, l) + NodeText(e, NodeAfter(x, l))
  {
    hide NodeText, NodeAfter;
    assert [x, e][..1] == [x] && [x][..0] == [];
    assert NodesAfter([x], l) == NodeAfter(x, l);
    assert NodesText([x], l) == "" + NodeText(x, l) == NodeText(x, l);
  }

  lemma StartsElement(e: Dom, l: Layout)
    requires e.DomElement?
    ensures BeforeTag(l, true) + ("<" + e.name) <= NodeText(e, l)
  {}

  lemma {:induction false} IndentLength(n: int)
    requires n >= 0
    ensures |Indent(n)| == 4 * n
  {
    if n > 0 { IndentLength(n - 1); }
  }

  lemma {:induction false} AttributesSnoc(attributes: seq<DomAttribute>, i: nat)
    requires i < |attributes|
    ensures PrintAttributes(attributes[..i + 1]) == PrintAttributes(attributes[..i]) + PrintAttribute(attributes[i])
    decreases |attributes|
  {
    hide PrintAttribute;
    if i == 0 {
      assert attributes[..1][1..] == [] && attributes[..0] == [];
    } else {
      AttributesSnoc(attributes[1..], i - 1);
      assert attributes[..i + 1][1..] == attributes[1..][..i] && attributes[..i][1..] == attributes[1..][..i - 1];
    }
  }

  lemma {:induction false} NodesSnoc(ns: seq<Dom>, i: nat)
    requires i < |ns|
    ensures PrintNodes(ns[..i + 1]) == PrintNodes(ns[..i]) + PrintNode(ns[i])
    decreases |ns|
  {
    hide PrintNode;
    if i == 0 {
      assert ns[..1][1..] == [] && ns[..0] == [];
    } else {
      NodesSnoc(ns[1..], i - 1);
      assert ns[..i + 1][1..] == ns[1..][..i] && ns[..i][1..] == ns[1..][..i - 1];
    }
  }
}

module XmlPrinting {
  import opened Options
  import opened XmlChars
  import opened Escaping
  import opened XmlLayout
  import opened XmlSyntax
  import opened XmlTree

  const ENTITY_RANGE := 64

  /** XMLPrinter writing to its own buffer. */
  class XMLPrinter {
    var elementJustOpened: bool
    var firstElement: bool
    var depth: int
    var textDepth: int
    var processEntities: bool
    const compactMode: bool
    var stack: seq<string>
    var buffer: seq<char>
    const entityFlag: array<bool>
    const restrictedEntityFlag: array<bool>

    ghost predicate Valid()
      reads this, entityFlag, restrictedEntityFlag
    {
      && |buffer| > 0 && buffer[|buffer| - 1] == NUL
      && Marks(entityFlag, false) && Marks(restrictedEntityFlag, true)
    }

    /** The table marks the characters the mode replaces. */
    static ghost predicate Marks(table: array<bool>, restricted: bool)
      reads table
    {
      table.Length == ENTITY_RANGE && forall i :: 0 <= i < ENTITY_RANGE ==> table[i] == EntityIndex(i as char, restricted).Some?
    }

    /** What has been printed: the buffer without its terminator. */
    function Output(): string
      reads this`buffer
      requires |buffer| > 0
    {
      buffer[..|buffer| - 1]
    }

    constructor (compact: bool, depth: int)
      ensures Valid() && fresh(entityFlag) && fresh(restrictedEntityFlag)
      ensures Output() == "" && !elementJustOpened && stack == [] && Now() == Layout(compact, true, depth, -1, true)
    {
      elementJustOpened, firstElement := false, true;
      this.depth, textDepth := depth, -1;
      processEntities, compactMode := true, compact;
      stack, buffer := [], [NUL];
      entityFlag := new bool[ENTITY_RANGE](_ => false);
      restrictedEntityFlag := new bool[ENTITY_RANGE](_ => false);
      new;
      FillFlags(entityFlag, restrictedEntityFlag);
    }

    method Print(t: string)
      requires Valid()
      modifies this`buffer
      ensures Valid() && Output() == old(Output()) + t
    {
      buffer := buffer[..|buffer| - 1] + t + [NUL];
      assert Output() == old(Output()) + t;
    }

    method PrintSpace(depth: int)
      requires Valid()
      modifies this`buffer
      ensures Valid() && Output() == old(Output()) + Indent(depth)
    {
      assert Output() + "" == Output();
      for i := 0 to if depth < 0 then 0 else depth
        invariant Valid() && Output() == old(Output()) + Indent(i)
      {
        Assoc(old(Output()), Indent(i), "    ");
        Print("    ");
      }
    }

    /** The part of the state that decides on white space and entities. */
    function Now(): Layout
      reads this
    {
      Layout(compactMode, processEntities, depth, textDepth, firstElement)
    }

    /** XMLPrinter::PrintString: runs of plain characters are flushed when an entity interrupts them. */
    method PrintString(s: string, restricted: bool)
      requires Valid()
      modifies this`buffer
      ensures Valid() && Output() == old(Output()) + Shown(Now(), s, restricted)
    {
      hide Escape, EscapeChar;
      var p, q := 0, 0;
      if processEntities {
        ghost var start := Output();
        NothingEscaped(s, start, restricted);
        while q < |s|
          invariant p <= q <= |s| && Valid()
          invariant Output() + s[p..q] == start + Escape(s[..q], restricted)
        {
          EscapeSnoc(s, q, restricted);
          var flag := if restricted then restrictedEntityFlag else entityFlag;
          assert (s[q] as int) as char == s[q];
          if 0 < s[q] as int < ENTITY_RANGE && flag[s[q] as int] {
            ghost var soFar := Output() + s[p..q];
            if p < q { Print(s[p..q]); }
            assert Output() == soFar;
            PrintEntity(s[q], restricted);
            p := q + 1;
          } else {
            Unflagged(s[q], restricted);
            assert s[p..q + 1] == s[p..q] + [s[q]];
            Assoc(Output(), s[p..q], [s[q]]);
          }
          Assoc(start, Escape(s[..q], restricted), EscapeChar(s[q], restricted));
          q := q + 1;
          if p == q { assert s[p..q] == "" && Output() + "" == Output(); }
        }
        assert s[..q] == s && s[p..q] == s[p..];
        if p == q { assert Output() + "" == Output(); }
      } else {
        assert s[0..] == s;
      }
      if !processEntities || p < q {
        Print(s[p..]);
      }
    }

    /** The entity that stands for c, searched by value. */
    method PrintEntity(c: char, restricted: bool)
      requires Valid() && EntityIndex(c, restricted).Some?
      modifies this`buffer
      ensures Valid() && Output() == old(Output()) + EscapeChar(c, restricted)
    {
      ghost var k := EntityIndex(c, restricted).value;
      assert ENTITIES[k].value == c;
      var i := 0;
      while ENTITIES[i].value != c
        invariant i <= k && forall j :: 0 <= j < i ==> ENTITIES[j].value != c
      {
        i := i + 1;
      }
      EntityValuesDiffer(i, k);
      Print("&" + ENTITIES[i].pattern + ";");
    }

    // ---------- the push interface ----------

    /** The '>' still owed to an element just opened. */
    function Owed(): string
      reads this
    {
      if elementJustOpened then ">" else ""
    }

    method SealElementIfJustOpened()
      requires Valid()
      modifies this`buffer, this`elementJustOpened
      ensures Valid() && !elementJustOpened && Output() == old(Output() + Owed())
    {
      if !elementJustOpened { return; }
      elementJustOpened := false;
      Print(">");
    }

    /** The line break and the indentation in front of a tag. */
    method StartTag(always: bool)
      requires Valid()
      modifies this`buffer
      ensures Valid() && Output() == old(Output()) + BeforeTag(Now(), always)
    {
      ghost var start, l := Output(), Now();
      var newLine := textDepth < 0 && !firstElement && !compactMode;
      assert start + "" == start;
      if newLine { Print("\n"); }
      assert Output() == start + if newLine then "\n" else "";
      Assoc(start, if newLine then "\n" else "", Indent(depth));
      if !compactMode && (always || newLine) { PrintSpace(depth); }
      Assoc(start, if newLine then "\n" else "", "");
      assert Output() + "" == Output();
    }

    method OpenElement(name: string)
      requires Valid()
      modifies this
      ensures Valid() && elementJustOpened && stack == old(stack) + [name] && Now() == Entered(old(Now()))
      ensures Output() == old(Output() + Owed()) + BeforeTag(old(Now()), true) + ("<" + name)
    {
      hide BeforeTag;
      SealElementIfJustOpened();
      stack := stack + [name];
      StartTag(true);
      Print("<" + name);
      elementJustOpened, firstElement := true, false;
      depth := depth + 1;
    }

    method PushAttribute(a: DomAttribute)
      requires Valid() && elementJustOpened
      modifies this`buffer
      ensures Valid() && Output() == old(Output()) + ShownAttribute(Now(), a)
    {
      hide Shown;
      ghost var start := Output();
      Print(" " + a.name + "=\"");
      PrintString(a.value, false);
      Print("\"");
      JoinAttribute(start, a.name, Shown(Now(), a.value, false));
    }

    method CloseElement()
      requires Valid() && stack != []
      modifies this
      ensures Valid() && !elementJustOpened && stack == old(stack[..|stack| - 1]) && Now() == Left(old(Now()))
      ensures Output() == old(Output()) + ClosingTag(old(Now()), old(stack[|stack| - 1]), old(elementJustOpened))
    {
      hide TagClosed, ClosingTag, Marks, Output;
      ghost var start, l := Output(), Now();
      depth := depth - 1;
      var name := stack[|stack| - 1];
      stack := stack[..|stack| - 1];
      PrintTagClosed(name);
      if textDepth == depth { textDepth := -1; }
      BreakBehindRoot();
      ClosingPieces(start, l, name, elementJustOpened);
      elementJustOpened := false;
    }

    method BreakBehindRoot()
      requires Valid()
      modifies this`buffer
      ensures Valid() && Output() == old(Output()) + if depth == 0 && !compactMode then "\n" else ""
    {
      if depth == 0 && !compactMode { Print("\n"); } else { assert Output() + "" == Output(); }
    }

    /** The tag that closes an element, once the depth has been taken back. */
    method PrintTagClosed(name: string)
      requires Valid()
      modifies this`buffer
      ensures Valid() && Output() == old(Output()) + TagClosed(Now().(depth := depth + 1), name, elementJustOpened)
    {
      hide Indent;
      ghost var start := Output();
      if elementJustOpened {
        Print("/>");
      } else {
        if textDepth < 0 && !compactMode {
          Print("\n");
          PrintSpace(depth);
          Assoc(start, "\n", Indent(depth));
        } else {
          assert start + "" == start;
        }
        Assoc(start, if textDepth < 0 && !compactMode then "\n" + Indent(depth) else "", "</" + (name + ">"));
        Print("</" + (name + ">"));
      }
    }

    method PushText(text: string, cdata: bool)
      requires Valid()
      modifies this
      ensures Valid() && !elementJustOpened && stack == old(stack)
      ensures Now() == NodeAfter(DomText(text, cdata), old(Now()))
      ensures Output() == old(Output() + Owed()) + NodeText(DomText(text, cdata), old(Now()))
    {
      textDepth := depth - 1;
      SealElementIfJustOpened();
      if cdata {
        Print("<![CDATA[" + (text + "]]>"));
      } else {
        PrintString(text, true);
      }
    }

    /** PushComment, PushDeclaration and PushUnknown differ only in their delimiters. */
    method PushDelimited(open: string, value: string, close: string)
      requires Valid()
      modifies this
      ensures Valid() && !elementJustOpened && stack == old(stack) && Now() == old(Now()).(first := false)
      ensures Output() == old(Output() + Owed()) + (BeforeTag(old(Now()), false) + (open + (value + close)))
    {
      hide BeforeTag;
      ghost var start := Output() + Owed();
      SealElementIfJustOpened();
      StartTag(false);
      Assoc(start, BeforeTag(Now(), false), open + (value + close));
      firstElement := false;
      Print(open + (value + close));
    }

    /** XMLNode::Accept with this visitor: VisitEnter, the children, VisitExit. */
    method Accept(n: Dom)
      requires Valid()
      modifies this
      ensures Valid() && !elementJustOpened && stack == old(stack) && Now() == NodeAfter(n, old(Now()))
      ensures Output() == old(Output() + Owed()) + NodeText(n, old(Now()))
      decreases n
    {
      hide BeforeTag;
      match n {
        case DomText(value, cdata) => PushText(value, cdata);
        case DomComment(value) => PushDelimited("<!--", value, "-->");
        case DomDeclaration(value) => PushDelimited("<?", value, "?>");
        case DomUnknown(value) => PushDelimited("<!", value, ">");
        case DomElement(name, attributes, children) => AcceptElement(name, attributes, children);
      }
    }

    method AcceptElement(name: string, attributes: seq<DomAttribute>, children: seq<Dom>)
      requires Valid()
      modifies this
      ensures Valid() && !elementJustOpened && stack == old(stack)
      ensures Now() == NodeAfter(DomElement(name, attributes, children), old(Now()))
      ensures Output() == old(Output() + Owed()) + NodeText(DomElement(name, attributes, children), old(Now()))
      decreases children, 1
    {
      hide BeforeTag, NodesText, NodesAfter, ShownAttributes, ClosingTag, Left;
      ghost var start, l := Output() + Owed(), Now();
      VisitEnter(name, attributes);
      ghost var open := start + BeforeTag(l, true) + ("<" + name) + ShownAttributes(l, attributes);
      ghost var seal := if children == [] then "" else ">";
      NoNodes(Entered(l));
      assert children[..0] == [] && open + ">" + "" == open + ">";
      var j := 0;
      while j < |children|
        invariant j <= |children| && Valid() && stack == old(stack) + [name]
        invariant elementJustOpened <==> j == 0
        invariant Now() == NodesAfter(children[..j], Entered(l))
        invariant Output() + Owed() == open + ">" + NodesText(children[..j], Entered(l))
        invariant j == 0 ==> Output() == open
      {
        Accept(children[j]);
        TextSnoc(children, j, Entered(l));
        Assoc(open + ">", NodesText(children[..j], Entered(l)), NodeText(children[j], NodesAfter(children[..j], Entered(l))));
        j := j + 1;
      }
      assert children[..j] == children;
      ElementPieces(start, BeforeTag(l, true), "<" + name, ShownAttributes(l, attributes), seal,
        NodesText(children, Entered(l)), ClosingTag(Now(), name, children == []));
      BareElement(open, children);
      CloseElement();
    }

    /** XMLPrinter::VisitEnter for an element: the open tag without its '>'. */
    method VisitEnter(name: string, attributes: seq<DomAttribute>)
      requires Valid()
      modifies this
      ensures Valid() && elementJustOpened && stack == old(stack) + [name] && Now() == Entered(old(Now()))
      ensures Output() == old(Output() + Owed()) + BeforeTag(old(Now()), true) + ("<" + name) + ShownAttributes(old(Now()), attributes)
    {
      hide ShownAttribute, BeforeTag;
      ghost var l := Now();
      OpenElement(name);
      ghost var open := Output();
      assert attributes[..0] == [] && open + "" == open;
      var i := 0;
      while i < |attributes|
        invariant i <= |attributes| && Valid() && elementJustOpened && stack == old(stack) + [name] && Now() == Entered(l)
        invariant Output() == open + ShownAttributes(l, attributes[..i])
      {
        PushAttribute(attributes[i]);
        SameMode(l, Now(), attributes[i]);
        assert attributes[..i + 1][..i] == attributes[..i];
        Assoc(open, ShownAttributes(l, attributes[..i]), ShownAttribute(l, attributes[i]));
        i := i + 1;
      }
      assert attributes[..i] == attributes;
    }
  }

  lemma SameMode(l: Layout, m: Layout, a: DomAttribute)
    requires l.entities == m.entities
    ensures ShownAttribute(l, a) == ShownAttribute(m, a)
  {}

  lemma TextSnoc(ns: seq<Dom>, i: nat, l: Layout)
    requires i < |ns|
    ensures NodesText(ns[..i + 1], l) == NodesText(ns[..i], l) + NodeText(ns[i], NodesAfter(ns[..i], l))
    ensures NodesAfter(ns[..i + 1], l) == NodeAfter(ns[i], NodesAfter(ns[..i], l))
  {
    assert ns[..i + 1][..i] == ns[..i];
  }

  lemma ElementPieces(start: string, before: string, open: string, a: string, seal: string, c: string, close: string)
    ensures start + before + open + a + seal + c + close == start + (before + open + a + seal + c + close)
  {}

  lemma BareElement(open: string, children: seq<Dom>)
    ensures children == [] ==> open + "" + "" == open
  {}

  lemma JoinAttribute(start: string, name: string, v: string)
    ensures start + (" " + name + "=\"") + v + "\"" == start + (" " + (name + ("=\"" + (v + "\""))))
  {}

  /** The flag loops of the XMLPrinter constructor. */
  method FillFlags(entityFlag: array<bool>, restrictedEntityFlag: array<bool>)
    requires entityFlag.Length == ENTITY_RANGE == restrictedEntityFlag.Length && entityFlag != restrictedEntityFlag
    requires forall i :: 0 <= i < ENTITY_RANGE ==> !entityFlag[i] && !restrictedEntityFlag[i]
    modifies entityFlag, restrictedEntityFlag
    ensures forall i :: 0 <= i < ENTITY_RANGE ==> entityFlag[i] == EntityIndex(i as char, false).Some?
    ensures forall i :: 0 <= i < ENTITY_RANGE ==> restrictedEntityFlag[i] == EntityIndex(i as char, true).Some?
  {
    var i := 0;
    while i < |ENTITIES|
      invariant i <= |ENTITIES|
      invariant forall k :: 0 <= k < ENTITY_RANGE ==>
        entityFlag[k] == (EntityIndex(k as char, false).Some? && EntityIndex(k as char, false).value < i)
      invariant forall k :: 0 <= k < ENTITY_RANGE ==> !restrictedEntityFlag[k]
    {
      var v := ENTITIES[i].value;
      assert EntityIndex(v, false) == Some(i);
      entityFlag[v as int] := true;
      i := i + 1;
    }
    restrictedEntityFlag['&' as int] := true;
    restrictedEntityFlag['<' as int] := true;
    restrictedEntityFlag['>' as int] := true;
  }

  lemma NothingEscaped(s: string, start: string, restricted: bool)
    ensures start + s[0..0] == start + Escape(s[..0], restricted)
  {
    assert s[0..0] == "" && s[..0] == "";
  }

  lemma Unflagged(c: char, restricted: bool)
    requires c as int >= ENTITY_RANGE || c as int == 0 || EntityIndex(c, restricted).None?
    ensures EscapeChar(c, restricted) == [c]
  {}

  lemma Assoc(a: string, b: string, c: string)
    ensures a + b + c == a + (b + c)
  {}

  predicate ValueIsNot(j: nat, c: char)
    requires j < |ENTITIES|
  {
    ENTITIES[j].value != c
  }

  lemma EntityValuesDiffer(i: nat, k: nat)
    requires i <= |ENTITIES| && k < |ENTITIES|
    requires forall j :: 0 <= j < i ==> ValueIsNot(j, ENTITIES[k].value)
    requires i < |ENTITIES| ==> ENTITIES[i].value == ENTITIES[k].value
    ensures i == k
  {
    assert !ValueIsNot(k, ENTITIES[k].value);
    assert i <= k;
  }

  lemma {:induction false} EscapeSnoc(s: string, q: nat, restricted: bool)
    requires q < |s|
    ensures Escape(s[..q + 1], restricted) == Escape(s[..q], restricted) + EscapeChar(s[q], restricted)
    decreases q
  {
    assert s[..q + 1] == s[..q] + [s[q]];
    EscapeConcat(s[..q], [s[q]], restricted);
    assert Escape([s[q]], restricted) == EscapeChar(s[q], restricted) + "";
  }

  lemma {:induction false} EscapeConcat(a: string, b: string, restricted: bool)
    ensures Escape(a + b, restricted) == Escape(a, restricted) + Escape(b, restricted)
  {
    hide EscapeChar;
    if a == "" {
      assert a + b == b;
    } else {
      assert (a + b)[1..] == a[1..] + b;
      EscapeConcat(a[1..], b, restricted);
      Assoc(EscapeChar(a[0], restricted), Escape(a[1..], restricted), Escape(b, restricted));
    }
  }

  /** XMLDocument::Print into a fresh printer. */
  method PrintWith(compact: bool, ns: seq<Dom>, bom: bool) returns (text: string)
    ensures text == Printed(compact, ns, bom)
  {
    hide NodeText, NodesText, NodeAfter, NodesAfter;
    var printer := new XMLPrinter(compact, 0);
    if bom { printer.Print(BOM); }
    ghost var header, start := if bom then BOM else "", NewPrinter(compact);
    NoNodes(start);
    assert ns[..0] == [] && header + "" == header;
    var i := 0;
    while i < |ns|
      invariant i <= |ns| && printer.Valid() && !printer.elementJustOpened
      invariant printer.Now() == NodesAfter(ns[..i], start)
      invariant printer.Output() == header + NodesText(ns[..i], start)
    {
      TextSnoc(ns, i, start);
      printer.Accept(ns[i]);
      Assoc(header, NodesText(ns[..i], start), NodeText(ns[i], NodesAfter(ns[..i], start)));
      i := i + 1;
    }
    assert ns[..i] == ns;
    text := printer.Output();
  }

  /** The same into a compact one. */
  method PrintCompact(ns: seq<Dom>, bom: bool) returns (text: string)
    ensures text == PrintDocument(ns, bom)
  {
    text := PrintWith(true, ns, bom);
    CompactNodes(ns, NewPrinter(true));
  }
}
