// The parser seen from the tree: each node it makes lives in the pool of its kind and is linked in, or deleted again.

module XmlDomParsing {
  import opened Sequences
  import opened XmlChars
  import opened StrPairs
  import opened XmlSyntax
  import opened MemPools
  import opened DomLinks
  import opened XmlDoms

  /** An XMLDocument: its own node and the pools of the nodes it makes. */
  datatype Store = Store(root: XMLNode, elementPool: MemPoolT, textPool: MemPoolT, commentPool: MemPoolT)

  ghost predicate Owns(st: Store, d: DomState) {
    && st.root in d.kids && st.root.memPool == null && d.pools == {st.elementPool, st.textPool, st.commentPool}
    && st.elementPool != st.textPool && st.elementPool != st.commentPool && st.textPool != st.commentPool
  }

  /** Comments, declarations and unknowns share a pool. */
  function PoolFor(st: Store, v: Node): MemPoolT {
    if v.Element? then st.elementPool else if v.Text? then st.textPool else st.commentPool
  }

  /** The nodes ns and what is below them have the shape of the parsed nodes vs, each node in the pool of its kind. */
  ghost predicate Mirrors(kids: Kids, st: Store, ns: seq<XMLNode>, vs: seq<Node>)
    decreases vs, 0
  {
    |ns| == |vs| && forall i :: 0 <= i < |vs| ==> MirrorsOne(kids, st, ns[i], vs[i])
  }

  ghost predicate MirrorsOne(kids: Kids, st: Store, n: XMLNode, v: Node)
    decreases v, 1
  {
    && n in kids && n.memPool == PoolFor(st, v)
    && if v.Element? then Mirrors(kids, st, kids[n], v.children) else kids[n] == []
  }

  /** How many of the parsed nodes, at every level, belong in the pool m. */
  ghost function CountIn(st: Store, vs: seq<Node>, m: MemPoolT): nat
    decreases vs, 0
  {
    if vs == [] then 0 else CountIn(st, vs[..|vs| - 1], m) + CountOne(st, vs[|vs| - 1], m)
  }

  ghost function CountOne(st: Store, v: Node, m: MemPoolT): nat
    decreases v, 1
  {
    (if PoolFor(st, v) == m then 1 else 0) + if v.Element? then CountIn(st, v.children, m) else 0
  }

  // ---------- what the parser changes ----------

  /** Only p has got more children, all of them new; and new nodes have only new children. */
  ghost predicate Grew(kids: Kids, kids': Kids, p: XMLNode, added: seq<XMLNode>) {
    && p in kids && kids.Keys <= kids'.Keys && kids'[p] == kids[p] + added
    && (forall n :: n in kids && n != p ==> kids'[n] == kids[n])
    && (forall x :: x in added ==> x !in kids)
    && NewBelowNew(kids, kids')
  }

  ghost predicate NewBelowNew(kids: Kids, kids': Kids) {
    forall q, x :: q in kids' && q !in kids && x in kids'[q] ==> x !in kids
  }

  lemma GrewNothing(kids: Kids, p: XMLNode)
    requires p in kids
    ensures Grew(kids, kids, p, [])
  {}

  lemma GrewThen(kids: Kids, kids1: Kids, kids2: Kids, p: XMLNode, a: seq<XMLNode>, b: seq<XMLNode>)
    requires Grew(kids, kids1, p, a) && Grew(kids1, kids2, p, b)
    ensures Grew(kids, kids2, p, a + b)
  {}

  /** A new node, and then what was put below it. */
  lemma GrewBelowNew(kids: Kids, kids2: Kids, p: XMLNode, n: XMLNode, inner: seq<XMLNode>)
    requires p in kids && n !in kids && Grew(kids[n := []], kids2, n, inner)
    ensures Grew(kids, kids2, p, []) && n in kids2 && kids2[n] == inner
  {
    forall q, x | q in kids2 && q !in kids && x in kids2[q] ensures x !in kids {
      if q != n { assert x !in kids[n := []]; }
    }
  }

  /** Such a node is nobody's child yet, and p is outside what is below it. */
  lemma NobodysChild(kids: Kids, rank: map<XMLNode, nat>, kids2: Kids, rank2: map<XMLNode, nat>, p: XMLNode, n: XMLNode,
                     inner: seq<XMLNode>)
    requires Ranked(kids, rank) && Ranked(kids2, rank2) && p in kids && n !in kids && Grew(kids[n := []], kids2, n, inner)
    ensures forall q :: q in kids2 ==> n !in kids2[q]
    ensures NotUnder(kids2, p, n)
  {
    GrewBelowNew(kids, kids2, p, n, inner);
    var u := kids2.Keys - kids.Keys;
    assert ClosedUnder(kids2, u) && n in u && p !in u;
    forall q | q in kids2 ensures n !in kids2[q] {
      if q in kids && q != n { assert kids2[q] == kids[q]; }
    }
  }

  lemma TakenFromNobody(kids: Kids, parent: XMLNode?, n: XMLNode)
    requires forall q :: q in kids ==> n !in kids[q]
    ensures Taken(kids, parent, n) == kids
  {}

  /** Once it is put last among the children of p, p has grown by it. */
  lemma GrewByNode(kids: Kids, kids2: Kids, p: XMLNode, n: XMLNode)
    requires Grew(kids, kids2, p, []) && n in kids2 && n !in kids
    ensures Grew(kids, PutLast(kids2, p, n), p, [n]) && PutLast(kids2, p, n).Keys == kids2.Keys
    ensures forall q :: q in kids2 && q != p ==> PutLast(kids2, p, n)[q] == kids2[q]
  {
    var s := kids2[p];
    NoMore(kids[p]);
    assert s[..|s|] == s && s[|s|..] == [];
    NoMore(s + [n]);
    assert PutLast(kids2, p, n)[p] == kids[p] + [n];
  }

  /** Once it is deleted with everything below it, p has as many children as before. */
  lemma GrewByNothing(kids: Kids, kids2: Kids, rank2: map<XMLNode, nat>, p: XMLNode, n: XMLNode, gone: set<XMLNode>)
    requires Ranked(kids2, rank2) && Grew(kids, kids2, p, []) && n in kids2 && n !in kids && Subtrees(kids2, {n}, gone)
    ensures Grew(kids, Pruned(kids2, gone), p, []) && forall x :: x in kids ==> x !in gone
  {
    var u := kids2.Keys - kids.Keys;
    assert ClosedUnder(kids2, u) && {n} <= u;
    NoMore(kids[p]);
  }

  lemma NoMore(s: seq<XMLNode>)
    ensures s + [] == s
  {}

  lemma LeafAlone(kids: Kids, n: XMLNode, gone: set<XMLNode>)
    requires n !in kids && Subtrees(kids[n := []], {n}, gone)
    ensures Pruned(kids[n := []], gone) == kids
  {
    assert ClosedUnder(kids[n := []], {n});
    assert gone == {n};
  }

  /** Trees of new nodes stay as they are when only older nodes change. */
  lemma {:induction false} MirrorsKept(kids: Kids, kids1: Kids, kids2: Kids, st: Store, ns: seq<XMLNode>, vs: seq<Node>)
    requires Mirrors(kids1, st, ns, vs) && (forall x :: x in ns ==> x !in kids) && NewBelowNew(kids, kids1)
    requires forall q :: q in kids1 && q !in kids ==> q in kids2 && kids2[q] == kids1[q]
    ensures Mirrors(kids2, st, ns, vs)
    decreases vs
  {
    forall i | 0 <= i < |vs| ensures MirrorsOne(kids2, st, ns[i], vs[i]) {
      assert MirrorsOne(kids1, st, ns[i], vs[i]);
      if vs[i].Element? { MirrorsKept(kids, kids1, kids2, st, kids1[ns[i]], vs[i].children); }
    }
  }

  /** The pools' nodes: those there were and the parsed ones. */
  ghost predicate Counted(st: Store, nodes: set<XMLNode>, nodes': set<XMLNode>, vs: seq<Node>) {
    forall m: MemPoolT :: m in {st.elementPool, st.textPool, st.commentPool} ==> |InPool(nodes', m)| == |InPool(nodes, m)| + CountIn(st, vs, m)
  }

  lemma CountMore(st: Store, vs: seq<Node>, v: Node, m: MemPoolT)
    ensures CountIn(st, vs + [v], m) == CountIn(st, vs, m) + CountOne(st, v, m)
  {
    assert (vs + [v])[..|vs|] == vs;
  }

  // ---------- the parser ----------

  /** A document after a part of a parse that has met no error: the nodes are counted, and new ones have a parent. */
  ghost predicate Fine(st: Store, d: DomState, d': DomState, vs: seq<Node>)
    reads d'.kids.Keys, d'.pools
  {
    && Valid(d') && Counted(st, d.kids.Keys, d'.kids.Keys, vs)
    && forall n :: n in d'.kids && n.parent == null ==> n in d.kids
  }

  lemma CountedNothing(st: Store, nodes: set<XMLNode>)
    ensures Counted(st, nodes, nodes, [])
  {}

  lemma CountedThen(st: Store, a: set<XMLNode>, b: set<XMLNode>, c: set<XMLNode>, vs: seq<Node>, ws: seq<Node>)
    requires Counted(st, a, b, vs) && Counted(st, b, c, ws) && |ws| <= 1
    ensures Counted(st, a, c, vs + ws)
  {
    hide CountOne;
    forall m: MemPoolT | m in {st.elementPool, st.textPool, st.commentPool}
      ensures |InPool(c, m)| == |InPool(a, m)| + CountIn(st, vs + ws, m)
    {
      if ws == [] {
        assert vs + ws == vs;
      } else {
        CountMore(st, vs, ws[0], m);
        CountMore(st, [], ws[0], m);
        assert [] + [ws[0]] == ws && vs + ws == vs + [ws[0]];
      }
    }
  }

  /** What mirrors the nodes parsed so far still does after the next item. */
  lemma MirrorsThen(kids: Kids, now: Kids, kids': Kids, st: Store, p: XMLNode, added: seq<XMLNode>, vs: seq<Node>,
                    more: seq<XMLNode>, ws: seq<Node>)
    requires Grew(kids, now, p, added) && Grew(now, kids', p, more)
    requires Mirrors(now, st, added, vs) && Mirrors(kids', st, more, ws) && |ws| <= 1
    ensures Mirrors(kids', st, added + more, vs + ws)
  {
    hide Mirrors;
    MirrorsKept(kids, now, kids', st, added, vs);
    MirrorsJoined(kids', st, added, vs, more, ws);
  }

  lemma MirrorsJoined(kids: Kids, st: Store, a: seq<XMLNode>, vs: seq<Node>, b: seq<XMLNode>, ws: seq<Node>)
    requires Mirrors(kids, st, a, vs) && Mirrors(kids, st, b, ws)
    ensures Mirrors(kids, st, a + b, vs + ws)
  {
    hide MirrorsOne;
  }

  /** A node made for an item, with what was put below it; it has no place under p yet. */
  ghost predicate Made(d: DomState, d2: DomState, p: XMLNode, n: XMLNode, inner: seq<XMLNode>) {
    && Ranked(d.kids, d.rank) && p in d.kids && n !in d.kids && Grew(d.kids[n := []], d2.kids, n, inner)
    && d2.pools == d.pools && n.memPool != null && n.memPool in d.pools && n.document == p.document
  }

  /** And it mirrors the parsed node v. */
  ghost predicate MadeFor(st: Store, d: DomState, d2: DomState, n: XMLNode, v: Node)
    reads d2.kids.Keys
  {
    && MirrorsOne(d2.kids, st, n, v) && Counted(st, d.kids.Keys, d2.kids.Keys, [v])
    && forall x :: x in d2.kids && x.parent == null ==> x in d.kids || x == n
  }

  lemma MadeNew(d: DomState, d1: DomState, p: XMLNode, n: XMLNode)
    requires Ranked(d.kids, d.rank) && p in d.kids && n !in d.kids && d1.kids == d.kids[n := []] && d1.pools == d.pools
    requires n.memPool != null && n.memPool in d.pools && n.document == p.document
    ensures Made(d, d1, p, n, [])
  {
    hide Ranked;
  }

  lemma MadeMore(d: DomState, d1: DomState, d2: DomState, p: XMLNode, n: XMLNode, inner: seq<XMLNode>)
    requires Made(d, d1, p, n, []) && d1.kids == d.kids[n := []] && Grew(d1.kids, d2.kids, n, inner) && d2.pools == d1.pools
    ensures Made(d, d2, p, n, inner)
  {
    hide Grew, Ranked;
  }

  /** A new node for v, with a leaf's children or those of the element. */
  lemma MadeForParsed(st: Store, d: DomState, d1: DomState, d2: DomState, n: XMLNode, inner: seq<XMLNode>, v: Node, below: seq<Node>)
    requires n !in d.kids && d1.kids == d.kids[n := []] && Grew(d1.kids, d2.kids, n, inner)
    requires n.memPool == PoolFor(st, v) && below == (if v.Element? then v.children else [])
    requires Mirrors(d2.kids, st, inner, below) && Counted(st, d1.kids.Keys, d2.kids.Keys, below)
    requires forall x :: x in d2.kids && x.parent == null ==> x in d1.kids
    ensures MadeFor(st, d, d2, n, v)
  {
    assert d1.kids[n] + inner == inner;
    assert d1.kids.Keys == d.kids.Keys + {n};
    CountedParsed(st, d.kids.Keys, n, d2.kids.Keys, v, below);
    hide Counted, Mirrors;
    assert MirrorsOne(d2.kids, st, n, v) by { if !v.Element? { NoneMirrored(d2.kids, st, inner); } }
  }

  lemma NoneMirrored(kids: Kids, st: Store, ns: seq<XMLNode>)
    requires Mirrors(kids, st, ns, [])
    ensures ns == []
  {}

  lemma CountedParsed(st: Store, nodes: set<XMLNode>, n: XMLNode, nodes2: set<XMLNode>, v: Node, below: seq<Node>)
    requires n !in nodes && n.memPool == PoolFor(st, v) && below == (if v.Element? then v.children else [])
    requires Counted(st, nodes + {n}, nodes2, below)
    ensures Counted(st, nodes, nodes2, [v])
  {
    forall m: MemPoolT | m in {st.elementPool, st.textPool, st.commentPool}
      ensures |InPool(nodes2, m)| == |InPool(nodes, m)| + CountIn(st, [v], m)
    {
      InPoolWith(nodes, n, m);
      assert [] + [v] == [v];
      CountMore(st, [], v, m);
    }
  }

  /** The node comes last among the children of p. */
  method LinkIn(st: Store, p: XMLNode, n: XMLNode, v: Node, ghost d: DomState, ghost d2: DomState, ghost inner: seq<XMLNode>)
    returns (ghost d': DomState)
    requires Valid(d2) && Made(d, d2, p, n, inner) && MadeFor(st, d, d2, n, v)
    modifies d2.kids.Keys, d2.pools
    ensures Grew(d.kids, d'.kids, p, [n]) && d'.pools == d2.pools && d'.kids.Keys == d2.kids.Keys
    ensures Fine(st, d, d', [v]) && Mirrors(d'.kids, st, [n], [v])
    ensures forall x :: x in d.kids ==> x.parent == old(x.parent)
  {
    hide Forest, PoolsHold, MirrorsOne, Ranked, Grew, NotUnder, Taken, Counted;
    GrewBelowNew(d.kids, d2.kids, p, n, inner);
    RankedBy(d2);
    NobodysChild(d.kids, d.rank, d2.kids, d2.rank, p, n, inner);
    TakenFromNobody(d2.kids, n.parent, n);
    GrewKeys(d.kids, d2.kids, p, []);
    var placed: XMLNode?;
    placed, d' := p.InsertEndChild(n, d2);
    GrewByNode(d.kids, d2.kids, p, n);
    MirrorsLinked(d.kids, d2.kids, st, p, n, inner, v);
  }

  lemma RankedBy(d: DomState)
    requires Forest(d)
    ensures Ranked(d.kids, d.rank)
  {}

  lemma GrewKeys(kids: Kids, kids': Kids, p: XMLNode, added: seq<XMLNode>)
    requires Grew(kids, kids', p, added)
    ensures p in kids' && kids.Keys <= kids'.Keys
  {}

  lemma MirrorsLinked(kids: Kids, kids2: Kids, st: Store, p: XMLNode, n: XMLNode, inner: seq<XMLNode>, v: Node)
    requires p in kids && n !in kids && Grew(kids[n := []], kids2, n, inner) && MirrorsOne(kids2, st, n, v)
    ensures Grew(kids, kids2, p, []) && Mirrors(PutLast(kids2, p, n), st, [n], [v])
  {
    GrewBelowNew(kids, kids2, p, n, inner);
    GrewByNode(kids, kids2, p, n);
    var kids' := PutLast(kids2, p, n);
    if v.Element? { MirrorsKept(kids[n := []], kids2, kids', st, inner, v.children); }
  }

  /** The node of a failed item is deleted with what is below it, without having been counted as used. */
  method Discard(p: XMLNode, n: XMLNode, ghost d: DomState, ghost d2: DomState, ghost inner: seq<XMLNode>, ghost lost: set<XMLNode>)
    returns (ghost d': DomState)
    requires Deletable(d2, lost) && Made(d, d2, p, n, inner) && n in lost
    modifies d2.kids.Keys, d2.pools
    ensures n !in d'.kids
    ensures Grew(d.kids, d'.kids, p, []) && d'.pools == d2.pools && d'.kids.Keys <= d2.kids.Keys && Deletable(d', lost)
    ensures forall x :: x in d.kids ==> x.parent == old(x.parent)
  {
    hide PoolsHold, Linked, Grew, Taken, Subtrees, Pruned, NotUnder, Snapshot;
    GrewBelowNew(d.kids, d2.kids, p, n, inner);
    NobodysChild(d.kids, d.rank, d2.kids, d2.rank, p, n, inner);
    TakenFromNobody(d2.kids, n.parent, n);
    RankedKeys(d2.kids, d2.rank);
    ghost var gone;
    d', gone := XMLNode.DeleteNode(n, d2, lost);
    GrewByNothing(d.kids, d2.kids, d2.rank, p, n, gone);
    GrewKeys(d.kids, d'.kids, p, []);
  }

  lemma RankedKeys(kids: Kids, rank: map<XMLNode, nat>)
    requires Ranked(kids, rank)
    ensures kids.Keys == rank.Keys
  {}

  /** The node of an end tag is counted as used and deleted at once. */
  method DropEndTag(st: Store, p: XMLNode, n: XMLNode, ghost d: DomState, ghost d1: DomState) returns (ghost d': DomState)
    requires Valid(d1) && Made(d, d1, p, n, []) && d1.kids == d.kids[n := []]
    requires forall x :: x in d1.kids && x.parent == null ==> x in d.kids || x == n
    modifies d1.kids.Keys, d1.pools
    ensures d'.kids == d.kids && d'.pools == d1.pools && Fine(st, d, d', [])
    ensures forall x :: x in d.kids ==> x.parent == old(x.parent)
  {
    hide Forest, PoolsHold, Grew, Taken, Subtrees, Pruned, NotUnder, Ranked;
    RankedBy(d1);
    NobodysChild(d.kids, d.rank, d1.kids, d1.rank, p, n, []);
    TakenFromNobody(d1.kids, n.parent, n);
    ghost var gone;
    d', gone := DeleteNode(n, d1);
    LeafAlone(d.kids, n, gone);
    CountedNothing(st, d.kids.Keys);
  }

  /** new (pool.Alloc()): a node in a pool, whatever the memory of a new block holds. */
  method Make(p: XMLNode, pool: MemPoolT, ghost d: DomState) returns (n: XMLNode, ghost d1: DomState)
    requires Valid(d) && p in d.kids && pool in d.pools
    modifies pool
    ensures fresh(n) && n.memPool == pool && n.parent == null && n !in d.kids && Valid(d1) && Made(d, d1, p, n, [])
    ensures d1.kids == d.kids[n := []] && d1.pools == d.pools
  {
    hide Forest, PoolsHold, Ranked;
    RankedBy(d);
    var memory := seq(pool.itemsPerBlock, _ => 0);
    n, d1 := NewNode(p.document, pool, memory, d);
    MadeNew(d, d1, p, n);
  }

  /** After an error the nodes counted as untracked are the parentless ones and some that are gone. */
  ghost predicate StillCounted(d: DomState, d': DomState, lost: set<XMLNode>)
    reads d.kids.Keys
  {
    (forall x :: x in d.kids && x.parent == null ==> x in lost) && !(lost <= d'.kids.Keys)
  }

  /** XMLElement::ParseDeep of the element node n, down to its end tag, and what the loop above it checks of it. */
  method ParseElement(st: Store, n: XMLNode, s: string, p: nat, declarationsOk: bool, ghost d: DomState)
    returns (r: Item, ghost d': DomState, ghost inner: seq<XMLNode>, ghost lost: set<XMLNode>)
    requires p < |s| && Valid(d) && Owns(st, d) && n in d.kids
    requires var q := SkipWhiteSpace(s, p); q < |s| && MarkupAt(s, q) == 4 && s[q] == '<'
    modifies d.kids.Keys, d.pools
    ensures r == ParseItem(s, p, declarationsOk) && !r.AtEnd?
    ensures Grew(d.kids, d'.kids, n, inner) && d'.pools == d.pools && fresh(d'.kids.Keys - d.kids.Keys)
    ensures forall x :: x in d.kids ==> x.parent == old(x.parent)
    ensures r.Bad? ==> Deletable(d', lost) && forall x :: x in d.kids && x.parent == null ==> x in lost
    ensures r.EndTag? ==> Valid(d') && d'.kids == d.kids && inner == []
    ensures r.Child? ==> r.node.Element? && Fine(st, d, d', r.node.children) && Mirrors(d'.kids, st, inner, r.node.children)
    decreases |s| - p, 1
  {
    hide Valid, Deletable, Grew, Mirrors, ParseHead, ParseNodes, SkipWhiteSpace, MarkupAt, Counted;
    var q := SkipWhiteSpace(s, p);
    d', inner, lost := d, [], Loose(d.kids.Keys);
    GrewNothing(d.kids, n);
    ValidDeletable(d);
    NothingMirrored(st, d.kids);
    CountedNothing(st, d.kids.Keys);
    match ParseHead(s, q + 1) {
      case BadHead(error) => r := Bad(error);
      case Head(name, attributes, closing, next) =>
        match closing {
          case CLOSING => r := EndTag(name, next);
          case CLOSED => r := Child(Element(name, attributes, []), next);
          case OPEN =>
            if next == |s| {
              r := Bad(MISMATCHED_ELEMENT);
            } else {
              var o: Outcome;
              o, d', inner, lost := ParseDeep(st, n, s, next, false, d);
              GrewKeys(d.kids, d'.kids, n, inner);
              match o {
                case Failed(error) => r := Bad(error);
                case Ended(_) =>
                  r, lost := Bad(PARSING), Loose(d'.kids.Keys);
                  ValidDeletable(d');
                case Closed(children, endName, after) =>
                  if Slice(s, endName) == Slice(s, name) {
                    r := Child(Element(name.Flushed(), attributes, children), after);
                  } else {
                    r, lost := Bad(MISMATCHED_ELEMENT), Loose(d'.kids.Keys);
                    ValidDeletable(d');
                  }
              }
            }
        }
    }
  }

  lemma ValidDeletable(d: DomState)
    requires Valid(d)
    ensures Deletable(d, Loose(d.kids.Keys))
  {
    hide PoolsHold, Forest;
  }

  lemma NothingMirrored(st: Store, kids: Kids)
    ensures Mirrors(kids, st, [], [])
  {}

  /** One turn of the loop of XMLNode::ParseDeep below p: Identify makes the node, and it is linked in or deleted. */
  method ParseOne(st: Store, parent: XMLNode, s: string, p: nat, declarationsOk: bool, ghost d: DomState)
    returns (r: Item, ghost d': DomState, ghost added: seq<XMLNode>, ghost lost: set<XMLNode>)
    requires p < |s| && Valid(d) && Owns(st, d) && parent in d.kids
    modifies d.kids.Keys, d.pools
    ensures r == ParseItem(s, p, declarationsOk)
    ensures Grew(d.kids, d'.kids, parent, added) && d'.pools == d.pools && fresh(d'.kids.Keys - d.kids.Keys)
    ensures forall x :: x in d.kids ==> x.parent == old(x.parent)
    ensures r.Bad? ==> Deletable(d', lost) && StillCounted(d, d', lost)
    ensures !r.Bad? ==> Fine(st, d, d', InTree(r)) && Mirrors(d'.kids, st, added, InTree(r))
    decreases |s| - p, 2
  {
    hide Valid, Deletable, Grew, Mirrors, ParseItem, SkipWhiteSpace, MarkupAt, Counted, Made, Fine;
    var q := SkipWhiteSpace(s, p);
    d', added, lost := d, [], {};
    NothingMirrored(st, d.kids);
    if q == |s| {
      ItemAtEnd(s, p, declarationsOk);
      GrewNothing(d.kids, parent);
      FineNothing(st, d);
      return AtEnd, d, [], {};
    }
    var i := MarkupAt(s, q);
    var element := i == 4 && s[q] == '<';
    var pool := if element then st.elementPool else if i == 2 || i == 4 then st.textPool else st.commentPool;
    var node;
    ghost var d1, d2, inner := d, d, [];
    node, d1 := Make(parent, pool, d);
    NewIsLoose(d, d1, node);
    if element {
      r, d2, inner, lost := ParseElement(st, node, s, p, declarationsOk, d1);
      if r.Child? { FineMeans(st, d1, d2, r.node.children); }
    } else {
      r, d2, lost := ParseItem(s, p, declarationsOk), d1, Loose(d1.kids.Keys);
      LeafItem(s, p, declarationsOk);
      GrewNothing(d1.kids, node);
      ValidDeletable(d1);
      NothingMirrored(st, d1.kids);
      CountedNothing(st, d1.kids.Keys);
    }
    MadeMore(d, d1, d2, parent, node, inner);
    match r {
      case Bad(_) =>
        d' := Discard(parent, node, d, d2, inner, lost);
      case EndTag(_, _) =>
        d' := DropEndTag(st, parent, node, d, d2);
        GrewNothing(d.kids, parent);
      case Child(v, _) =>
        MadeForParsed(st, d, d1, d2, node, inner, v, if v.Element? then v.children else []);
        d' := LinkIn(st, parent, node, v, d, d2, inner);
        added := [node];
      case AtEnd =>
    }
  }

  /** The node an item leaves in the tree, if any. */
  function InTree(r: Item): seq<Node> {
    if r.Child? then [r.node] else []
  }

  lemma ItemAtEnd(s: string, p: nat, declarationsOk: bool)
    requires p < |s| && SkipWhiteSpace(s, p) == |s|
    ensures ParseItem(s, p, declarationsOk) == AtEnd
  {}

  /** An item that is no element. */
  lemma LeafItem(s: string, p: nat, declarationsOk: bool)
    requires p < |s|
    requires var q := SkipWhiteSpace(s, p); q < |s| && !(MarkupAt(s, q) == 4 && s[q] == '<')
    ensures var r, i := ParseItem(s, p, declarationsOk), MarkupAt(s, SkipWhiteSpace(s, p));
      && (r.Bad? || r.Child?)
      && (r.Child? ==> !r.node.Element? && (r.node.Text? <==> i == 2 || i == 4))
  {}

  lemma FineNothing(st: Store, d: DomState)
    requires Valid(d)
    ensures Fine(st, d, d, [])
  {}

  lemma FineMeans(st: Store, d: DomState, d': DomState, vs: seq<Node>)
    requires Fine(st, d, d', vs)
    ensures Valid(d') && Counted(st, d.kids.Keys, d'.kids.Keys, vs)
    ensures forall x :: x in d'.kids && x.parent == null ==> x in d.kids
  {
    hide Valid, Counted;
  }

  lemma NewIsLoose(d: DomState, d1: DomState, n: XMLNode)
    requires d1.kids == d.kids[n := []]
    ensures forall x :: x in d1.kids ==> x in d.kids || x == n
  {}

  /** XMLNode::ParseDeep: the loop over the items below a node. It has the outcome of the parser on values; as long as
      there is no error the children it adds mirror the nodes parsed and the pools count all of them. */
  method ParseDeep(st: Store, parent: XMLNode, s: string, p: nat, declarationsOk: bool, ghost d: DomState)
    returns (r: Outcome, ghost d': DomState, ghost added: seq<XMLNode>, ghost lost: set<XMLNode>)
    requires p <= |s| && Valid(d) && Owns(st, d) && parent in d.kids
    modifies d.kids.Keys, d.pools
    ensures r == ParseNodes(s, p, declarationsOk, [])
    ensures Grew(d.kids, d'.kids, parent, added) && d'.pools == d.pools && fresh(d'.kids.Keys - d.kids.Keys)
    ensures forall x :: x in d.kids ==> x.parent == old(x.parent)
    ensures if r.Failed? then Deletable(d', lost) && StillCounted(d, d', lost)
            else Fine(st, d, d', r.nodes) && Mirrors(d'.kids, st, added, r.nodes)
    decreases |s| - p, 3
  {
    hide Valid, Deletable, Grew, Mirrors, ParseItem, ParseNodes, Counted;
    var at, ok, acc, done := p, declarationsOk, [], false;
    d', added, lost, r := d, [], {}, Ended([]);
    GrewNothing(d.kids, parent);
    FineNothing(st, d);
    NothingMirrored(st, d.kids);
    while !done && at < |s|
      invariant p <= at <= |s|
      invariant Grew(d.kids, d'.kids, parent, added) && d'.pools == d.pools && fresh(d'.kids.Keys - d.kids.Keys)
      invariant d.kids.Keys <= d'.kids.Keys && forall x :: x in d.kids ==> x.parent == old(x.parent)
      invariant if done then ParseNodes(s, p, declarationsOk, []) == r else ParseNodes(s, p, declarationsOk, []) == ParseNodes(s, at, ok, acc)
      invariant done && r.Failed? ==> Deletable(d', lost) && StillCounted(d, d', lost)
      invariant done && !r.Failed? ==> r.nodes == acc
      invariant !(done && r.Failed?) ==> Fine(st, d, d', acc) && Mirrors(d'.kids, st, added, acc)
      decreases !done, |s| - at
    {
      ghost var now, more := d', [];
      GrewKeys(d.kids, now.kids, parent, added);
      var item: Item;
      item, d', more, lost := ParseOne(st, parent, s, at, ok, now);
      NextTurn(s, at, ok, acc);
      GrewThen(d.kids, now.kids, d'.kids, parent, added, more);
      GrewKeys(now.kids, d'.kids, parent, more);
      if !item.Bad? {
        MirrorsThen(d.kids, now.kids, d'.kids, st, parent, added, acc, more, InTree(item));
        CountedThen(st, d.kids.Keys, now.kids.Keys, d'.kids.Keys, acc, InTree(item));
      }
      added := added + more;
      assert acc + [] == acc;
      match item {
        case Bad(error) => done, r := true, Failed(error);
        case AtEnd => done, r := true, Ended(acc);
        case EndTag(name, next) => done, r := true, Closed(acc, name, next);
        case Child(node, next) => acc, at, ok := acc + [node], next, ok && node.Declaration?;
      }
    }
    if !done {
      NoTurn(s, ok, acc);
      r := Ended(acc);
    }
  }

  lemma NoTurn(s: string, declarationsOk: bool, acc: seq<Node>)
    ensures ParseNodes(s, |s|, declarationsOk, acc) == Ended(acc)
  {}

  lemma NextTurn(s: string, p: nat, declarationsOk: bool, acc: seq<Node>)
    requires p < |s|
    ensures ParseNodes(s, p, declarationsOk, acc) ==
      match ParseItem(s, p, declarationsOk)
      case Bad(error) => Failed(error)
      case AtEnd => Ended(acc)
      case EndTag(name, next) => Closed(acc, name, next)
      case Child(node, next) => ParseNodes(s, next, declarationsOk && node.Declaration?, acc + [node])
  {}

  // ---------- whole documents ----------

  /** Every node but the root is somebody's child. */
  ghost predicate OneTree(kids: Kids, root: XMLNode) {
    root in kids && forall n :: n in kids && n != root ==> exists q :: q in kids && n in kids[q]
  }

  lemma OneTreeOf(d: DomState, root: XMLNode)
    requires Forest(d) && root in d.kids && Loose(d.kids.Keys) == {root}
    ensures OneTree(d.kids, root)
  {
    forall n | n in d.kids && n != root ensures exists q :: q in d.kids && n in d.kids[q] {
      assert n !in Loose(d.kids.Keys);
      ParentKnown(d, n);
    }
  }

  /** What is not below the root is the root. */
  lemma {:induction false} BelowRoot(kids: Kids, rank: map<XMLNode, nat>, root: XMLNode, gone: set<XMLNode>, n: XMLNode)
    requires Ranked(kids, rank) && OneTree(kids, root) && Subtrees(kids, Elements(kids[root]), gone) && n in kids && n != root
    ensures n in gone
    decreases rank[n]
  {
    var q :| q in kids && n in kids[q];
    if q == root {
      assert n in Elements(kids[root]);
    } else {
      BelowRoot(kids, rank, root, gone, q);
    }
  }

  lemma RootKept(kids: Kids, rank: map<XMLNode, nat>, root: XMLNode, gone: set<XMLNode>)
    requires Ranked(kids, rank) && OneTree(kids, root) && Subtrees(kids, Elements(kids[root]), gone) && root !in gone
    ensures kids.Keys - gone == {root}
  {
    hide Subtrees, Ranked, OneTree;
    forall n | n in kids && n != root ensures n in gone { BelowRoot(kids, rank, root, gone, n); }
    assert root in kids by { RootThere(kids, root); }
  }

  lemma RootThere(kids: Kids, root: XMLNode)
    requires OneTree(kids, root)
    ensures root in kids
  {}

  /** XMLDocument::Parse(): behind white space and a byte order mark the items are read below the root. */
  method ParseText(st: Store, s: string, ghost d: DomState)
    returns (r: Parsed, ghost d': DomState, ghost added: seq<XMLNode>, ghost lost: set<XMLNode>)
    requires Valid(d) && Owns(st, d)
    modifies d.kids.Keys, d.pools
    ensures r == ParseDocument(s)
    ensures Grew(d.kids, d'.kids, st.root, added) && d'.pools == d.pools && fresh(d'.kids.Keys - d.kids.Keys)
    ensures if r.ParseError? then Deletable(d', lost) else Fine(st, d, d', r.nodes) && Mirrors(d'.kids, st, added, r.nodes)
  {
    hide Valid, Deletable, Grew, Mirrors, Fine, ParseNodes, SkipWhiteSpace;
    var q := SkipWhiteSpace(s, 0);
    var bom := StartsWith(s, q, BOM);
    var p := if bom then q + 3 else q;
    if p == |s| {
      GrewNothing(d.kids, st.root);
      ValidDeletable(d);
      return ParseError(EMPTY_DOCUMENT), d, [], Loose(d.kids.Keys);
    }
    var o: Outcome;
    o, d', added, lost := ParseDeep(st, st.root, s, p, true, d);
    match o {
      case Failed(error) => r := ParseError(error);
      case Ended(nodes) => r := Document(nodes, bom);
      case Closed(nodes, _, _) => r := Document(nodes, bom);
    }
  }

  /** The pools of a document that failed to parse are emptied; no node but the root is left. */
  method WipeOut(st: Store, ghost d: DomState, ghost lost: set<XMLNode>) returns (ghost d': DomState)
    requires Deletable(d, lost) && Owns(st, d)
    modifies d.kids.Keys, d.pools
    ensures Valid(d') && Owns(st, d') && d'.kids == map[st.root := []] && Loose(d'.kids.Keys) == {st.root}
  {
    hide Deletable, Valid, MemPoolT.Valid;
    DeleteTree(st, d, lost);
    ClearPools(st);
    d' := DomState(map[st.root := []], map[st.root := 0], d.pools);
    BareRoot(st);
  }

  method DeleteTree(st: Store, ghost d: DomState, ghost lost: set<XMLNode>)
    requires Deletable(d, lost) && Owns(st, d)
    modifies d.kids.Keys, d.pools
    ensures st.root.parent == null && st.root.firstChild == null && st.root.lastChild == null
    ensures st.elementPool.Valid() && st.textPool.Valid() && st.commentPool.Valid()
  {
    hide Linked, Ranked, Subtrees, Halfway, Threads, Partition;
    ghost var d1, gone;
    RankedKeys(d.kids, d.rank);
    d1, gone := st.root.DeleteChildren(d, lost);
    RootIsBare(d1, d, st.root, gone);
    assert PoolHolds(st.elementPool, d1.kids.Keys, lost) && PoolHolds(st.textPool, d1.kids.Keys, lost)
      && PoolHolds(st.commentPool, d1.kids.Keys, lost);
  }

  method ClearPools(st: Store)
    requires st.elementPool.Valid() && st.textPool.Valid() && st.commentPool.Valid()
    modifies st.elementPool, st.textPool, st.commentPool
    ensures forall m :: m in {st.elementPool, st.textPool, st.commentPool} ==> m.Valid() && m.live == {} && m.nUntracked == 0
  {
    hide MemPoolT.Valid;
    st.elementPool.Clear();
    st.textPool.Clear();
    st.commentPool.Clear();
  }

  lemma RootIsBare(d1: DomState, d: DomState, root: XMLNode, gone: set<XMLNode>)
    requires Forest(d1) && root in d.kids && d1.kids == Halfway(d.kids, root, |d.kids[root]|, gone) && root.memPool == null
    ensures root in d1.kids && root.parent == null && root.firstChild == null && root.lastChild == null
  {
    assert d1.kids[root] == [];
    assert Spells(Snapshot(d1.kids.Keys), root, d1.kids[root]);
  }

  lemma BareRoot(st: Store)
    requires st.root.parent == null && st.root.firstChild == null && st.root.lastChild == null && st.root.memPool == null
    requires forall m :: m in {st.elementPool, st.textPool, st.commentPool} ==> m.Valid() && m.live == {} && m.nUntracked == 0
    ensures Valid(DomState(map[st.root := []], map[st.root := 0], {st.elementPool, st.textPool, st.commentPool}))
  {
    hide MemPoolT.Valid;
    var nodes := {st.root};
    assert Loose(nodes) == nodes;
    forall m | m in {st.elementPool, st.textPool, st.commentPool} ensures PoolHolds(m, nodes, nodes) {
      assert Items(nodes, m) == {} && InPool(nodes, m) == {};
    }
  }

  /** What XMLDocument::Parse leaves of a document whose nodes outside the old tree are those of kept: the parsed tree,
      every node counted in its pool; or, after an error, nothing but the root. An empty text is refused before the
      pools are touched. */
  ghost predicate ParsedInto(st: Store, s: string, r: Parsed, kept: set<XMLNode>, d': DomState)
    requires Owns(st, d')
  {
    if r.Document? then Mirrors(d'.kids, st, d'.kids[st.root], r.nodes) && Counted(st, kept, d'.kids.Keys, r.nodes)
    else if s == "" then d'.kids.Keys == kept && d'.kids[st.root] == []
    else d'.kids == map[st.root := []]
  }

  /** XMLDocument::Parse( p, len ). */
  method Parse(st: Store, p: string, ghost d: DomState) returns (r: Parsed, ghost d': DomState, ghost gone: set<XMLNode>)
    requires Valid(d) && Owns(st, d)
    modifies d.kids.Keys, d.pools
    ensures r == ParseDocument(UpToNul(p))
    ensures Valid(d') && Owns(st, d')
    ensures Subtrees(d.kids, Elements(d.kids[st.root]), gone) && ParsedInto(st, UpToNul(p), r, d.kids.Keys - gone, d')
    ensures old(Loose(d.kids.Keys)) == {st.root} ==> Exact(st, r, d'.pools)
    ensures fresh(d'.kids.Keys - d.kids.Keys) && st.root !in gone
    ensures r.Document? || UpToNul(p) == "" ==> d.kids.Keys - gone <= d'.kids.Keys
  {
    hide Forest, PoolsHold, Subtrees, Ranked, Mirrors, Counted, Grew, OneTree, UpToNul, ParseDocument, Halfway, Elements;
    var s := UpToNul(p);
    ghost var tree := Loose(d.kids.Keys) == {st.root};
    ghost var d1;
    RankedBy(d);
    RankedKeys(d.kids, d.rank);
    if tree { OneTreeOf(d, st.root); }
    d1, gone := st.root.DeleteChildren(d, Loose(d.kids.Keys));
    HalfwayIs(d.kids, st.root, gone);
    if tree { RootKept(d.kids, d.rank, st.root, gone); }
    if s == "" {
      NothingToParse();
      r, d' := ParseError(EMPTY_DOCUMENT), d1;
    } else {
      ghost var d2, added, lost;
      r, d2, added, lost := ParseText(st, s, d1);
      GrewKeys(d1.kids, d2.kids, st.root, added);
      if r.ParseError? {
        d' := WipeOut(st, d2, lost);
      } else {
        d' := d2;
        AddedIsAll(d1.kids, d2.kids, st.root, added);
      }
    }
    if tree { ExactCounts(st, UpToNul(p), r, d.kids.Keys - gone, d'); }
  }

  /** The counters are those of the parsed nodes, and no node is counted as untracked. */
  ghost predicate Exact(st: Store, r: Parsed, pools: set<MemPoolT>)
    reads pools
  {
    forall m :: m in pools ==> m.currentAllocs == (if r.Document? then CountIn(st, r.nodes, m) else 0) && m.nUntracked == 0
  }

  lemma HalfwayIs(kids: Kids, root: XMLNode, gone: set<XMLNode>)
    requires root in kids && root !in gone
    ensures var now := Halfway(kids, root, |kids[root]|, gone);
      now.Keys == kids.Keys - gone && root in now && now[root] == []
  {}

  lemma AddedIsAll(kids: Kids, kids': Kids, root: XMLNode, added: seq<XMLNode>)
    requires Grew(kids, kids', root, added) && kids[root] == []
    ensures kids'[root] == added
  {}

  lemma NothingToParse()
    ensures ParseDocument("") == ParseError(EMPTY_DOCUMENT)
  {}

  lemma ExactCounts(st: Store, s: string, r: Parsed, kept: set<XMLNode>, d': DomState)
    requires Valid(d') && Owns(st, d') && ParsedInto(st, s, r, kept, d') && kept == {st.root}
    requires forall n :: n in d'.kids && n.parent == null ==> n == st.root
    ensures Exact(st, r, d'.pools)
  {
    hide Forest, Mirrors;
    forall m | m in d'.pools
      ensures m.currentAllocs == (if r.Document? then CountIn(st, r.nodes, m) else 0) && m.nUntracked == 0
    {
      PoolCounts(d', m);
      assert InPool({st.root}, m) == {};
      assert InPool(Loose(d'.kids.Keys), m) == {};
    }
  }
}
