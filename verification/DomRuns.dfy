// Every run of operations on a document's tree, from a new document on.

module XmlDomRuns {
  import opened Sequences
  import opened StrPairs
  import opened MemPools
  import opened DomLinks
  import opened XmlDoms
  import opened XmlDomParsing

  /** A user's step. Numbers name the nodes the user holds: the root at first, then those made and those come to by
      following a pointer of another one. */
  datatype Request =
    | Parse(text: string)
    | FirstChild(node: nat) | NextSibling(node: nat) | Parent(node: nat)
    | NewElement | NewText | NewComment
    | InsertEnd(parent: nat, child: nat)
    | InsertFirst(parent: nat, child: nat)
    | InsertAfter(parent: nat, after: nat, child: nat)
    | DeleteChildren(parent: nat)
    | DeleteChild(parent: nat, child: nat)
    | Delete(node: nat)

  /** The user holds no node that is gone. */
  ghost predicate Knows(held: seq<XMLNode>, d: DomState) {
    forall n :: n in held ==> n in d.kids
  }

  /** The XMLDocument constructor: a root and empty pools, for objects of the given sizes. */
  method NewDocument(document: nat, elementSize: nat, textSize: nat, commentSize: nat) returns (st: Store, ghost d: DomState)
    requires 0 < elementSize <= 4096 && 0 < textSize <= 4096 && 0 < commentSize <= 4096
    ensures fresh(st.root) && fresh(d.pools) && st.root.document == document
    ensures Valid(d) && Owns(st, d) && d.kids == map[st.root := []]
  {
    hide Valid, MemPoolT.Valid, Threads, Partition;
    var root := new XMLNode(document, null, 0);
    var elements := new MemPoolT(elementSize);
    var texts := new MemPoolT(textSize);
    var comments := new MemPoolT(commentSize);
    st := Store(root, elements, texts, comments);
    d := DomState(map[root := []], map[root := 0], {elements, texts, comments});
    BareRoot(st);
  }

  /** Every run of operations from a new document on keeps the document a forest whose pools count its nodes and its
      parentless nodes, and no node that is still held is gone. Requests that name no node are ignored, and so are those
      the source does not allow for: moving or deleting the root, moving a node below itself, and the two uses of
      InsertAfterChild that break the links. */
  method Run(document: nat, elementSize: nat, textSize: nat, commentSize: nat, requests: seq<Request>)
    returns (st: Store, held: seq<XMLNode>, ghost d: DomState)
    requires 0 < elementSize <= 4096 && 0 < textSize <= 4096 && 0 < commentSize <= 4096
    ensures Valid(d) && Owns(st, d) && Knows(held, d)
    ensures forall m :: m in d.pools ==>
      m.currentAllocs == |InPool(d.kids.Keys, m)| && m.nUntracked == |InPool(Loose(d.kids.Keys), m)|
  {
    hide Forest, PoolsHold;
    st, d := NewDocument(document, elementSize, textSize, commentSize);
    held := [st.root];
    held, d := Serve(st, requests, held, d);
    forall m | m in d.pools
      ensures m.currentAllocs == |InPool(d.kids.Keys, m)| && m.nUntracked == |InPool(Loose(d.kids.Keys), m)|
    {
      PoolCounts(d, m);
    }
  }

  /** The same for a document in any valid state, such as one that was parsed. */
  method Serve(st: Store, requests: seq<Request>, held: seq<XMLNode>, ghost d: DomState)
    returns (held': seq<XMLNode>, ghost d': DomState)
    requires Valid(d) && Owns(st, d) && Knows(held, d)
    modifies d.kids.Keys, d.pools
    ensures Valid(d') && Owns(st, d') && Knows(held', d') && d'.pools == d.pools
  {
    hide Valid, Knows;
    held', d' := held, d;
    var n := 0;
    while n < |requests|
      invariant n <= |requests| && Valid(d') && Owns(st, d') && Knows(held', d') && d'.pools == d.pools
      invariant fresh(d'.kids.Keys - d.kids.Keys)
    {
      held', d' := ServeOne(st, requests[n], held', d');
      n := n + 1;
    }
  }

  method ServeOne(st: Store, request: Request, held: seq<XMLNode>, ghost d: DomState)
    returns (held': seq<XMLNode>, ghost d': DomState)
    requires Valid(d) && Owns(st, d) && Knows(held, d)
    modifies d.kids.Keys, d.pools
    ensures Valid(d') && Owns(st, d') && Knows(held', d') && d'.pools == d.pools && fresh(d'.kids.Keys - d.kids.Keys)
  {
    hide Valid;
    held', d' := held, d;
    match request {
      case Parse(text) => held', d' := ServeParse(st, text, held, d);
      case FirstChild(n) => if n < |held| { held' := Follow(held, held[n].firstChild, held[n], d); }
      case NextSibling(n) => if n < |held| && held[n].parent != null { held' := Follow(held, held[n].next, held[n], d); }
      case Parent(n) => if n < |held| { held' := Follow(held, held[n].parent, held[n], d); }
      case NewElement => held', d' := ServeNew(st, st.elementPool, held, d);
      case NewText => held', d' := ServeNew(st, st.textPool, held, d);
      case NewComment => held', d' := ServeNew(st, st.commentPool, held, d);
      case InsertEnd(p, c) =>
        if p < |held| && c < |held| { d' := ServeInsert(held[p], held[c], false, d); }
      case InsertFirst(p, c) =>
        if p < |held| && c < |held| { d' := ServeInsert(held[p], held[c], true, d); }
      case InsertAfter(p, a, c) =>
        if p < |held| && a < |held| && c < |held| { d' := ServeInsertAfter(held[p], held[a], held[c], d); }
      case DeleteChildren(p) =>
        if p < |held| { held', d' := ServeDeleteChildren(st, held[p], held, d); }
      case DeleteChild(p, c) =>
        if p < |held| && c < |held| && held[c].parent == held[p] { held', d' := ServeDeleteChild(st, held[p], held[c], held, d); }
      case Delete(n) =>
        if n < |held| && held[n].memPool != null { held', d' := ServeDelete(st, held[n], held, d); }
    }
  }

  /** A pointer of a node in its place leads to a node of the document. */
  method Follow(held: seq<XMLNode>, to: XMLNode?, from: XMLNode, ghost d: DomState) returns (held': seq<XMLNode>)
    requires Valid(d) && Knows(held, d) && from in d.kids
    requires to == from.firstChild || to == from.parent || (from.parent != null && to == from.next)
    ensures Knows(held', d)
  {
    held' := held;
    if to != null {
      PointsInside(d, from, to);
      held' := held + [to];
    }
  }

  lemma PointsInside(d: DomState, from: XMLNode, to: XMLNode)
    requires Valid(d) && from in d.kids
    requires to == from.firstChild || to == from.parent || (from.parent != null && to == from.next)
    ensures to in d.kids
  {
    hide PoolsHold, Ranked;
    var l := Snapshot(d.kids.Keys);
    if from.parent != null {
      ParentKnown(d, from);
      if to == from.next { NextIsSibling(l, d.kids, from.parent, from); }
    }
    if to == from.firstChild { FirstIsChild(d, from); }
  }

  lemma FirstIsChild(d: DomState, p: XMLNode)
    requires Forest(d) && p in d.kids && p.firstChild != null
    ensures p.firstChild in d.kids
  {
    FirstOf(d, p);
    ChildOf(d, p, d.kids[p][0]);
  }

  /** XMLDocument::Parse: the nodes of the old tree are gone, and after an error those outside it as well. */
  method ServeParse(st: Store, text: string, held: seq<XMLNode>, ghost d: DomState)
    returns (held': seq<XMLNode>, ghost d': DomState)
    requires Valid(d) && Owns(st, d) && Knows(held, d)
    modifies d.kids.Keys, d.pools
    ensures Valid(d') && Owns(st, d') && Knows(held', d') && d'.pools == d.pools && fresh(d'.kids.Keys - d.kids.Keys)
  {
    hide Valid, NotUnder, Subtrees, Elements, ParsedInto;
    var outside := Survivors(held, st.root, d);
    ghost var keys := d.kids.Keys;
    RankIn(d, st.root);
    var r;
    ghost var gone;
    r, d', gone := XmlDomParsing.Parse(st, text, d);
    AndTheNode(d.kids, st.root, gone);
    GoneIsUnder(d.kids, st.root, gone + {st.root});
    held' := if r.ParseError? && UpToNul(text) != "" then [st.root] else outside + [st.root];
    assert forall n :: n in outside ==> n in keys - gone;
  }

  method ServeNew(st: Store, pool: MemPoolT, held: seq<XMLNode>, ghost d: DomState) returns (held': seq<XMLNode>, ghost d': DomState)
    requires Valid(d) && Owns(st, d) && Knows(held, d) && pool in d.pools
    modifies d.pools
    ensures Valid(d') && Owns(st, d') && Knows(held', d') && d'.pools == d.pools && fresh(d'.kids.Keys - d.kids.Keys)
  {
    hide Valid;
    var n;
    n, d' := Make(st.root, pool, d);
    held' := held + [n];
    assert forall x :: x in held' <==> x in held || x == n;
  }

  /** Whether c is p or above it, found by following the parents. */
  method IsAbove(c: XMLNode, p: XMLNode, ghost d: DomState) returns (above: bool)
    requires Valid(d) && c in d.kids && p in d.kids
    ensures above <==> !NotUnder(d.kids, p, c)
  {
    hide Forest, PoolsHold, ClosedUnder, Ranked;
    RankedBy(d);
    RankedKeys(d.kids, d.rank);
    var q: XMLNode? := p;
    ghost var seen: set<XMLNode> := {};
    while q != null && q != c
      invariant q != null ==> q in d.kids
      invariant seen <= d.kids.Keys && c !in seen && (p in seen || q == p)
      invariant forall x :: x in seen ==> x.parent == q || x.parent in seen
      invariant q != null ==> forall u: set<XMLNode> :: ClosedUnder(d.kids, u) && q in u ==> p in u
      decreases if q == null then 0 else d.rank[q] + 1
    {
      ghost var x: XMLNode := q;
      AboveParent(d, x);
      seen, q := seen + {x}, q.parent;
      if q != null {
        forall u: set<XMLNode> | ClosedUnder(d.kids, u) && q in u ensures p in u { DownInto(d.kids, u, q, x); }
      }
    }
    if q == null {
      OutsideSeen(d, seen);
      ghost var u := d.kids.Keys - seen;
      assert c in u && p !in u && ClosedUnder(d.kids, u);
    }
    above := q != null;
  }

  lemma AboveParent(d: DomState, x: XMLNode)
    requires Valid(d) && x in d.kids
    ensures x.parent != null ==>
      x.parent in d.kids && x in d.kids[x.parent] && x in d.rank && x.parent in d.rank && d.rank[x.parent] < d.rank[x]
  {
    hide PoolsHold, Linked;
    if x.parent != null { ParentKnown(d, x); }
  }

  lemma DownInto(kids: Kids, u: set<XMLNode>, q: XMLNode, x: XMLNode)
    requires ClosedUnder(kids, u) && q in u && q in kids && x in kids[q]
    ensures x in u
  {}

  /** The nodes that are not on the way up to a parentless node hold the children of their members. */
  lemma OutsideSeen(d: DomState, seen: set<XMLNode>)
    requires Valid(d) && seen <= d.kids.Keys && forall x :: x in seen ==> x.parent == null || x.parent in seen
    ensures ClosedUnder(d.kids, d.kids.Keys - seen)
  {
    hide PoolsHold, Linked;
    var u := d.kids.Keys - seen;
    forall q, x | q in u && q in d.kids && x in d.kids[q] ensures x in u {
      ChildOf(d, q, x);
    }
  }

  lemma ChildOf(d: DomState, q: XMLNode, x: XMLNode)
    requires Forest(d) && q in d.kids && x in d.kids[q]
    ensures x in d.kids && x.parent == q
  {
    var l := Snapshot(d.kids.Keys);
    assert ChildAt(l, q, d.kids[q], IndexOf(d.kids[q], x));
  }

  method ServeInsert(p: XMLNode, c: XMLNode, first: bool, ghost d: DomState) returns (ghost d': DomState)
    requires Valid(d) && p in d.kids && c in d.kids
    modifies d.kids.Keys, d.pools
    ensures Valid(d') && d'.pools == d.pools && d'.kids.Keys == d.kids.Keys
  {
    hide Valid, Taken, NotUnder;
    d' := d;
    var above := IsAbove(c, p, d);
    if c.memPool != null && !above {
      ghost var parent := c.parent;
      TakenKeys(d.kids, parent, c);
      PoolIn(d, c);
      var r: XMLNode?;
      if first { r, d' := p.InsertFirstChild(c, d); } else { r, d' := p.InsertEndChild(c, d); }
    }
  }

  lemma PoolIn(d: DomState, c: XMLNode)
    requires Valid(d) && c in d.kids && c.memPool != null
    ensures c.memPool in d.pools
  {
    hide Forest;
  }

  method ServeInsertAfter(p: XMLNode, a: XMLNode, c: XMLNode, ghost d: DomState) returns (ghost d': DomState)
    requires Valid(d) && p in d.kids && a in d.kids && c in d.kids
    modifies d.kids.Keys, d.pools
    ensures Valid(d') && d'.pools == d.pools && d'.kids.Keys == d.kids.Keys
  {
    hide Valid, Taken, NotUnder, Snapshot;
    d' := d;
    var above := IsAbove(c, p, d);
    var breaks := a.next != null && (a == c || (a.next == c && c.next == null));
    if c.memPool != null && !above && !breaks {
      TakenKeys(d.kids, c.parent, c);
      PoolIn(d, c);
      var r, fault;
      r, fault, d' := p.InsertAfterChild(a, c, d);
    }
  }

  /** The nodes of held that are not below the node c, and not c. */
  method Survivors(held: seq<XMLNode>, c: XMLNode, ghost d: DomState) returns (kept: seq<XMLNode>)
    requires Valid(d) && Knows(held, d) && c in d.kids
    ensures forall n :: n in kept <==> n in held && NotUnder(d.kids, n, c)
  {
    hide Valid, NotUnder;
    kept := [];
    var i := 0;
    while i < |held|
      invariant i <= |held|
      invariant forall n :: n in kept <==> n in held[..i] && NotUnder(d.kids, n, c)
    {
      var above := IsAbove(c, held[i], d);
      assert held[..i + 1] == held[..i] + [held[i]];
      if !above { kept := kept + [held[i]]; }
      i := i + 1;
    }
    assert held[..i] == held;
  }

  /** A node's subtree is what the node is above. */
  lemma GoneIsUnder(kids: Kids, c: XMLNode, gone: set<XMLNode>)
    requires Subtrees(kids, {c}, gone)
    ensures forall n :: n in kids ==> (n in gone <==> !NotUnder(kids, n, c))
  {
    assert {c} <= gone;
  }

  method ServeDelete(st: Store, c: XMLNode, held: seq<XMLNode>, ghost d: DomState) returns (held': seq<XMLNode>, ghost d': DomState)
    requires Valid(d) && Owns(st, d) && Knows(held, d) && c in d.kids && c.memPool != null
    modifies d.kids.Keys, d.pools
    ensures Valid(d') && Owns(st, d') && Knows(held', d') && d'.pools == d.pools && d'.kids.Keys <= d.kids.Keys
  {
    hide Valid, NotUnder, Taken, Subtrees, Pruned;
    held' := Survivors(held, c, d);
    RootStays(st, d, c);
    TakenKeys(d.kids, c.parent, c);
    ghost var gone;
    d', gone := DeleteNode(c, d);
    PrunedKeys(Taken(d.kids, old(c.parent), c), gone);
    GoneIsUnder(d.kids, c, gone);
  }

  /** The root is below no other node. */
  lemma RootStays(st: Store, d: DomState, c: XMLNode)
    requires Valid(d) && Owns(st, d) && c in d.kids && c != st.root
    ensures NotUnder(d.kids, st.root, c)
  {
    hide PoolsHold, Linked;
    var u := d.kids.Keys - {st.root};
    forall q, x | q in u && q in d.kids && x in d.kids[q] ensures x in u {
      ChildOf(d, q, x);
    }
    assert ClosedUnder(d.kids, u) && c in u;
  }

  method ServeDeleteChild(st: Store, p: XMLNode, c: XMLNode, held: seq<XMLNode>, ghost d: DomState)
    returns (held': seq<XMLNode>, ghost d': DomState)
    requires Valid(d) && Owns(st, d) && Knows(held, d) && c in d.kids && c.parent == p
    modifies d.kids.Keys, d.pools
    ensures Valid(d') && Owns(st, d') && Knows(held', d') && d'.pools == d.pools && d'.kids.Keys <= d.kids.Keys
  {
    hide Valid, NotUnder, Subtrees, Pruned, Detached, Deletable;
    held' := Survivors(held, c, d);
    BeforeChild(d, p, c);
    ValidDeletable(d);
    RootStays(st, d, c);
    ghost var gone;
    d', gone := p.DeleteChild(c, d, Loose(d.kids.Keys));
    DetachedKeys(d.kids, p, c);
    PrunedKeys(Detached(d.kids, p, c), gone);
    SubtreeOfDetached(d.kids, d.rank, p, c, gone);
    GoneIsUnder(d.kids, c, gone);
  }

  lemma BeforeChild(d: DomState, p: XMLNode, c: XMLNode)
    requires Valid(d) && c in d.kids && c.parent == p
    ensures p in d.kids && c in d.kids[p] && c in d.rank && c.memPool != null && Ranked(d.kids, d.rank)
  {
    hide PoolsHold, Linked;
    ParentKnown(d, c);
  }

  method ServeDeleteChildren(st: Store, p: XMLNode, held: seq<XMLNode>, ghost d: DomState)
    returns (held': seq<XMLNode>, ghost d': DomState)
    requires Valid(d) && Owns(st, d) && Knows(held, d) && p in d.kids
    modifies d.kids.Keys, d.pools
    ensures Valid(d') && Owns(st, d') && Knows(held', d') && d'.pools == d.pools && d'.kids.Keys <= d.kids.Keys
  {
    hide Valid, NotUnder, Subtrees, Halfway, Deletable, Elements;
    held' := Survivors(held, p, d);
    ValidDeletable(d);
    RankIn(d, p);
    if p != st.root { RootStays(st, d, p); }
    ghost var gone;
    d', gone := p.DeleteChildren(d, Loose(d.kids.Keys));
    HalfwayKeys(d.kids, p, |d.kids[p]|, gone);
    AndTheNode(d.kids, p, gone);
    GoneIsUnder(d.kids, p, gone + {p});
    held' := held' + [p];
  }

  lemma RankIn(d: DomState, p: XMLNode)
    requires Valid(d) && p in d.kids
    ensures p in d.rank
  {
    hide PoolsHold, Linked;
  }
}
