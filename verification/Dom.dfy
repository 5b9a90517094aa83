// XMLNode: the doubly linked tree, its surgery, and the pools its nodes live in.

module XmlDoms {
  import opened Sequences
  import opened MemPools
  import opened DomLinks

  /** The links of XMLNode. The object stands for the item of its pool that holds it. */
  class XMLNode {
    const document: nat        // which document it belongs to
    const memPool: MemPoolT?   // null for the document itself
    const item: nat
    var parent: XMLNode?
    var firstChild: XMLNode?
    var lastChild: XMLNode?
    var prev: XMLNode?
    var next: XMLNode?

    constructor (document: nat, memPool: MemPoolT?, item: nat)
      ensures this.document == document && this.memPool == memPool && this.item == item
      ensures parent == null && firstChild == null && lastChild == null && prev == null && next == null
    {
      this.document := document;
      this.memPool := memPool;
      this.item := item;
      parent, firstChild, lastChild, prev, next := null, null, null, null, null;
    }

    /** Unlink, the parent's side. */
    method DropEnd(child: XMLNode)
      requires firstChild != null && lastChild != null
      modifies this`firstChild, this`lastChild
      ensures firstChild == if old(firstChild) == child then child.next else old(firstChild)
      ensures lastChild == if old(lastChild) == child then child.prev else old(lastChild)
    {
      if child == firstChild {
        firstChild := firstChild.next;
      }
      if child == lastChild {
        lastChild := lastChild.prev;
      }
    }

    /** Unlink, the siblings' side. */
    static method Bridge(child: XMLNode)
      requires child.prev != child && child.next != child
      modifies (if child.prev != null then {child.prev} else {})`next
      modifies (if child.next != null then {child.next} else {})`prev
      ensures child.prev != null ==> child.prev.next == child.next
      ensures child.next != null ==> child.next.prev == child.prev
    {
      if child.prev != null {
        child.prev.next := child.next;
      }
      if child.next != null {
        child.next.prev := child.prev;
      }
    }

    /** Takes a child out. Its own prev and next are left as they were: see Unlinked. */
    method Unlink(child: XMLNode, ghost kids: Kids)
      requires this in kids && child in kids[this] && this !in kids[this] && child in kids
      requires Linked(Snapshot(kids.Keys), kids)
      modifies kids.Keys
      ensures Snapshot(kids.Keys) == Unlinked(old(Snapshot(kids.Keys)), this, child)
    {
      hide Linked, Snapshot, Unlinked;
      Neighbours(kids, this, child);
      Cut(child, kids.Keys);
    }

    /** Its pointer assignments. */
    method Cut(child: XMLNode, ghost nodes: set<XMLNode>)
      requires this in nodes && child in nodes && this != child && firstChild != null && lastChild != null
      requires child.prev != null ==> child.prev in nodes && child.prev != child && child.prev != this
      requires child.next != null ==> child.next in nodes && child.next != child && child.next != this
      requires child.prev != null && child.next != null ==> child.prev != child.next
      modifies nodes
      ensures Snapshot(nodes) == Unlinked(old(Snapshot(nodes)), this, child)
    {
      hide Snapshot, Unlinked;
      ghost var l := Snapshot(nodes);
      SnapshotAt(nodes);
      DropEnd(child);
      Bridge(child);
      child.parent := null;
      IsUnlinked(nodes, l, this, child, child.prev, child.next);
    }

    /** Takes the node from where it is, or counts it as used. */
    method InsertChildPreamble(insertThis: XMLNode, ghost d: DomState)
      requires Valid(d) && insertThis in d.kids && insertThis.memPool != null
      modifies d.kids.Keys, insertThis.memPool
      ensures insertThis.parent == null && forall n :: n in d.kids && n != insertThis ==> n.parent == old(n.parent)
      ensures var kids := Taken(d.kids, old(insertThis.parent), insertThis);
        Ready(Snapshot(d.kids.Keys), kids, insertThis, d.pools, Loose(d.kids.Keys) - {insertThis})
      ensures Snapshot(d.kids.Keys) ==
        if old(insertThis.parent) == null then old(Snapshot(d.kids.Keys))
        else Unlinked(old(Snapshot(d.kids.Keys)), old(insertThis.parent), insertThis)
    {
      hide PoolsHold, Linked, Ranked, Snapshot, Unlinked, Detached, Ready;
      ghost var l := Snapshot(d.kids.Keys);
      SnapshotAt(d.kids.Keys);
      if insertThis.parent != null {
        ParentKnown(d, insertThis);
        ghost var q: XMLNode := insertThis.parent;
        UnlinkKeeps(l, d.kids, q, insertThis);
        ReadyUnlinked(d, l, q, insertThis);
        insertThis.parent.Unlink(insertThis, d.kids);
        UnlinkedParents(d.kids.Keys, l, q, insertThis);
        assert Loose(d.kids.Keys) - {insertThis} == old(Loose(d.kids.Keys));
      } else {
        Track(insertThis, d.kids.Keys, d.pools, Loose(d.kids.Keys));
        ReadyTracked(d, l, insertThis);
      }
    }

    /** The pointer assignments of InsertEndChild. */
    method LinkLast(addThis: XMLNode, ghost kids: Kids)
      requires this in kids && addThis in kids && addThis != this && this !in kids[this] && addThis.parent == null
      requires Linked(Snapshot(kids.Keys), kids)
      modifies kids.Keys
      ensures Snapshot(kids.Keys) == Spliced(old(Snapshot(kids.Keys)), this, At(kids[this], |kids[this]| - 1), At(kids[this], |kids[this]|), addThis)
    {
      hide Linked, Snapshot, Spliced;
      ghost var l, last, first := Snapshot(kids.Keys), lastChild, firstChild;
      SnapshotAt(kids.Keys);
      Ends(kids, this, addThis);
      if lastChild != null {
        lastChild.next := addThis;
        addThis.prev := lastChild;
        lastChild := addThis;
        addThis.next := null;
      } else {
        firstChild, lastChild := addThis, addThis;
        addThis.prev := null;
        addThis.next := null;
      }
      addThis.parent := this;
      IsSpliced(kids.Keys, l, this, last, null, addThis);
    }

    /** The pointer assignments of InsertFirstChild. */
    method LinkFirst(addThis: XMLNode, ghost kids: Kids)
      requires this in kids && addThis in kids && addThis != this && this !in kids[this] && addThis.parent == null
      requires Linked(Snapshot(kids.Keys), kids)
      modifies kids.Keys
      ensures Snapshot(kids.Keys) == Spliced(old(Snapshot(kids.Keys)), this, At(kids[this], 0 - 1), At(kids[this], 0), addThis)
    {
      hide Linked, Snapshot, Spliced;
      ghost var l, last, first := Snapshot(kids.Keys), lastChild, firstChild;
      SnapshotAt(kids.Keys);
      Ends(kids, this, addThis);
      if firstChild != null {
        firstChild.prev := addThis;
        addThis.next := firstChild;
        firstChild := addThis;
        addThis.prev := null;
      } else {
        firstChild, lastChild := addThis, addThis;
        addThis.prev := null;
        addThis.next := null;
      }
      addThis.parent := this;
      IsSpliced(kids.Keys, l, this, null, first, addThis);
    }

    /** Makes addThis the last child, taking it from its present place first. */
    method InsertEndChild(addThis: XMLNode, ghost d: DomState) returns (r: XMLNode?, ghost d': DomState)
      requires Valid(d) && this in d.kids
      requires addThis.document == document ==> MayMove(d, this, addThis)
      modifies d.kids.Keys, addThis.memPool
      ensures addThis.document != document ==> r == null && d' == d && Valid(d) && Snapshot(d.kids.Keys) == old(Snapshot(d.kids.Keys))
      ensures addThis.document == document ==> r == addThis && Valid(d') && d'.pools == d.pools
      ensures addThis.document == document ==> d'.kids == PutLast(Taken(d.kids, old(addThis.parent), addThis), this, addThis)
      ensures addThis.document == document ==> addThis.parent == this && forall n :: n in d.kids && n != addThis ==> n.parent == old(n.parent)
    {
      hide Forest, PoolsHold, Taken, Linked, Snapshot, Attached, Lowered, ClosedUnder, Ranked, Ready;
      if addThis.document != document {
        return null, d;
      }
      ghost var u :| u <= d.kids.Keys && addThis in u && this !in u && ClosedUnder(d.kids, u);
      ghost var kids := Taken(d.kids, addThis.parent, addThis);
      BeforeMoving(d, this, addThis, u);
      InsertChildPreamble(addThis, d);
      AttachLast(addThis, kids, d.rank, u, d.pools);
      d' := DomState(PutLast(kids, this, addThis), Lowered(d.rank, u), d.pools);
      return addThis, d';
    }

    /** Its second half, when the node belongs to no parent any more. */
    method AttachLast(addThis: XMLNode, ghost kids: Kids, ghost rank: map<XMLNode, nat>, ghost u: set<XMLNode>,
                      ghost pools: set<MemPoolT>)
      requires Ready(Snapshot(kids.Keys), kids, addThis, pools, Loose(kids.Keys) - {addThis}) && addThis.parent == null
      requires Ranked(kids, rank) && addThis in u && this !in u && ClosedUnder(kids, u) && this in kids && this !in kids[this]
      modifies kids.Keys
      ensures Valid(DomState(PutLast(kids, this, addThis), Lowered(rank, u), pools))
      ensures addThis.parent == this && forall n :: n in kids && n != addThis ==> n.parent == old(n.parent)
    {
      hide Forest, PoolsHold, Linked, Snapshot, Spliced, Attached, Lowered, ClosedUnder, Ranked, Ready, Loose, Valid;
      ghost var l, untracked := Snapshot(kids.Keys), Loose(kids.Keys) - {addThis};
      ReadyMeans(l, kids, addThis, pools, untracked);
      SnapshotAt(kids.Keys);
      LinkLast(addThis, kids);
      SplicedParents(kids.Keys, l, this, At(kids[this], |kids[this]| - 1), At(kids[this], |kids[this]|), addThis);
      Placed(kids, rank, pools, l, this, |kids[this]|, addThis, u, untracked);
    }

    /** Makes addThis the first child. */
    method InsertFirstChild(addThis: XMLNode, ghost d: DomState) returns (r: XMLNode?, ghost d': DomState)
      requires Valid(d) && this in d.kids
      requires addThis.document == document ==> MayMove(d, this, addThis)
      modifies d.kids.Keys, addThis.memPool
      ensures addThis.document != document ==> r == null && d' == d && Valid(d) && Snapshot(d.kids.Keys) == old(Snapshot(d.kids.Keys))
      ensures addThis.document == document ==> r == addThis && Valid(d') && d'.pools == d.pools
      ensures addThis.document == document ==> d'.kids == PutFirst(Taken(d.kids, old(addThis.parent), addThis), this, addThis)
    {
      hide Forest, PoolsHold, Taken, Linked, Snapshot, Attached, Lowered, ClosedUnder, Ranked;
      if addThis.document != document {
        return null, d;
      }
      ghost var u :| u <= d.kids.Keys && addThis in u && this !in u && ClosedUnder(d.kids, u);
      ghost var kids := Taken(d.kids, addThis.parent, addThis);
      BeforeMoving(d, this, addThis, u);
      InsertChildPreamble(addThis, d);
      ghost var l, untracked := Snapshot(kids.Keys), Loose(kids.Keys) - {addThis};
      LinkFirst(addThis, kids);
      d' := DomState(PutFirst(kids, this, addThis), Lowered(d.rank, u), d.pools);
      Placed(kids, d.rank, d.pools, l, this, 0, addThis, u, untracked);
      return addThis, d';
    }

    /** The pointer assignments of InsertAfterChild. The third writes through afterThis.next; fault says that it is null. */
    method LinkBehind(afterThis: XMLNode, addThis: XMLNode, ghost nodes: set<XMLNode>) returns (fault: bool)
      requires afterThis in nodes && addThis in nodes
      requires afterThis.next != null ==> afterThis.next in nodes && afterThis.next != addThis && afterThis.next != afterThis
      requires afterThis.next == null ==> addThis.prev == afterThis && addThis.next == null
      modifies nodes
      ensures fault <==> old(afterThis.next) == null
      ensures fault ==> Snapshot(nodes) == old(Snapshot(nodes))
      ensures !fault ==> Snapshot(nodes) == PutBehind(old(Snapshot(nodes)), this, afterThis, addThis)
    {
      hide Snapshot, PutBehind;
      ghost var l := Snapshot(nodes);
      SnapshotAt(nodes);
      if afterThis.next == null {
        return true;
      }
      ghost var b: XMLNode := afterThis.next;
      addThis.prev := afterThis;
      addThis.next := afterThis.next;
      afterThis.next.prev := addThis;
      afterThis.next := addThis;
      addThis.parent := this;
      IsPutBehind(nodes, l, this, afterThis, b, addThis);
      fault := false;
    }

    /** Puts addThis behind a child of this node. When that child is addThis itself the links spell no tree afterwards;
        when addThis is the last child and follows it directly, the source writes through a null pointer: fault. */
    method InsertAfterChild(afterThis: XMLNode, addThis: XMLNode, ghost d: DomState)
      returns (r: XMLNode?, fault: bool, ghost d': DomState)
      requires Valid(d) && this in d.kids && afterThis in d.kids
      requires addThis.document == document && afterThis.parent == this ==> MayMove(d, this, addThis)
      modifies d.kids.Keys, addThis.memPool
      ensures addThis.document != document || old(afterThis.parent) != this ==>
        r == null && !fault && d' == d && Valid(d) && Snapshot(d.kids.Keys) == old(Snapshot(d.kids.Keys))
      ensures addThis.document == document && old(afterThis.parent) == this ==>
        && (fault <==> old(afterThis.next) == addThis && old(addThis.next) == null)
        && (!fault ==> r == addThis && d'.pools == d.pools)
        && (old(afterThis.next) == null ==> Valid(d') && d'.kids == PutLast(Taken(d.kids, old(addThis.parent), addThis), this, addThis))
        && (old(afterThis.next) != null ==> Behind(d, d', this, afterThis, addThis, old(addThis.parent), old(Snapshot(d.kids.Keys)), fault))
        && (old(afterThis.next) != null && addThis == afterThis ==> forall kids: Kids :: !Linked(Snapshot(d.kids.Keys), kids))
    {
      hide Forest, PoolsHold, Taken, Linked, Snapshot, Attached, Lowered, ClosedUnder, Ranked, Behind;
      fault := false;
      if addThis.document != document {
        return null, false, d;
      }
      if afterThis.parent != this {
        return null, false, d;
      }
      if afterThis.next == null {
        r, d' := InsertEndChild(addThis, d);
        return;
      }
      fault, d' := InsertBehind(afterThis, addThis, d);
      r := if fault then null else addThis;
    }

    /** InsertAfterChild for a child that another one follows. */
    method InsertBehind(afterThis: XMLNode, addThis: XMLNode, ghost d: DomState) returns (fault: bool, ghost d': DomState)
      requires Valid(d) && this in d.kids && afterThis in d.kids && afterThis.parent == this && afterThis.next != null
      requires MayMove(d, this, addThis)
      modifies d.kids.Keys, addThis.memPool
      ensures fault <==> old(afterThis.next) == addThis && old(addThis.next) == null
      ensures d'.pools == d.pools
      ensures Behind(d, d', this, afterThis, addThis, old(addThis.parent), old(Snapshot(d.kids.Keys)), fault)
      ensures addThis == afterThis ==> forall kids: Kids :: !Linked(Snapshot(d.kids.Keys), kids)
    {
      hide Forest, PoolsHold, Taken, Linked, Snapshot, Attached, Lowered, ClosedUnder, Ranked, Unlinked, PutBehind, Loose, Behind;
      ghost var u :| u <= d.kids.Keys && addThis in u && this !in u && ClosedUnder(d.kids, u);
      ghost var parent, before := addThis.parent, Snapshot(d.kids.Keys);
      ghost var kids := Taken(d.kids, parent, addThis);
      BeforeMoving(d, this, addThis, u);
      AfterTaking(d, this, afterThis, addThis);
      InsertChildPreamble(addThis, d);
      ghost var l, untracked := Snapshot(kids.Keys), Loose(kids.Keys) - {addThis};
      SnapshotAt(kids.Keys);
      fault := LinkBehind(afterThis, addThis, kids.Keys);
      d' := BehindHolds(d, u, l, this, afterThis, addThis, parent, before, untracked, fault);
    }

    /** Deletes the children in order, each with everything below it. */
    method DeleteChildren(ghost d: DomState, ghost untracked: set<XMLNode>) returns (ghost d': DomState, ghost gone: set<XMLNode>)
      requires this in d.kids && this in d.rank && Deletable(d, untracked)
      modifies d.kids.Keys, d.pools
      ensures this !in gone && untracked !! gone && Subtrees(d.kids, Elements(d.kids[this]), gone)
      ensures d'.kids == Halfway(d.kids, this, |d.kids[this]|, gone) && d'.rank == d.rank - gone && d'.pools == d.pools
      ensures untracked == old(Loose(d.kids.Keys)) ==> Valid(d')
      ensures Deletable(d', untracked) && d'.kids.Keys <= d.kids.Keys && forall n :: n in d'.kids ==> n.parent == old(n.parent)
      decreases NotAbove(d.rank, this), 0
    {
      hide Deletable, Subtrees, Halfway, Pruned, Detached, NotAbove, Elements, Ranked, PoolsHold, Valid, Reached;
      d', gone := d, {};
      ghost var k := 0;
      NothingGone(d, this, untracked);
      while firstChild != null
        invariant Reached(d, d', this, k, gone) && Deletable(d', untracked) && untracked !! gone
        invariant d'.pools == d.pools && d'.kids.Keys <= d.kids.Keys && forall n :: n in d'.kids ==> n.parent == old(n.parent)
        decreases |d.kids[this]| - k
      {
        ghost var g, now := {}, d';
        NextChild(d, now, this, k, gone, untracked);
        var child: XMLNode := firstChild;
        d', g := DeleteChild(child, now, untracked);
        OneMoreReached(d, now, d', this, k, gone, g, untracked);
        gone, k := gone + g, k + 1;
      }
      LastChild(d, d', this, k, gone, untracked);
      firstChild, lastChild := null, null;
      if untracked == old(Loose(d.kids.Keys)) {
        HalfwayKeys(d.kids, this, |d.kids[this]|, gone);
        NoneNewlyLoose(d', untracked);
      }
    }

    /** Takes a child out and deletes it. */
    method DeleteChild(node: XMLNode, ghost d: DomState, ghost untracked: set<XMLNode>) returns (ghost d': DomState, ghost gone: set<XMLNode>)
      requires this in d.kids && node in d.kids[this] && node in d.rank && Deletable(d, untracked)
      modifies d.kids.Keys, d.pools
      ensures untracked !! gone && Subtrees(Detached(d.kids, this, node), {node}, gone)
      ensures d'.kids == Pruned(Detached(d.kids, this, node), gone) && d'.rank == d.rank - gone && d'.pools == d.pools
      ensures untracked == old(Loose(d.kids.Keys)) ==> Valid(d')
      ensures Deletable(d', untracked) && d'.kids.Keys <= d.kids.Keys && forall n :: n in d'.kids ==> n.parent == old(n.parent)
      decreases NotAbove(d.rank, node), 3
    {
      hide Deletable, Subtrees, Pruned, Detached, NotAbove, Linked, Unlinked, Snapshot, Ranked, PoolsHold, Valid;
      ghost var l := Snapshot(d.kids.Keys);
      BeforeUnlink(d, this, node, untracked);
      Unlink(node, d.kids);
      AfterUnlink(d, l, this, node, untracked);
      DetachedKeys(d.kids, this, node);
      TakenNowhere(Detached(d.kids, this, node), node);
      d', gone := DeleteNode(node, DomState(Detached(d.kids, this, node), d.rank, d.pools), untracked);
      if untracked == old(Loose(d.kids.Keys)) {
        PrunedKeys(Detached(d.kids, this, node), gone);
        NoneNewlyLoose(d', untracked);
      }
    }

    /** The destructor: the children go, and the node leaves its parent. */
    method Destroy(ghost d: DomState, ghost untracked: set<XMLNode>) returns (ghost d': DomState, ghost gone: set<XMLNode>)
      requires this in d.kids && this in d.rank && Deletable(d, untracked)
      modifies d.kids.Keys, d.pools
      ensures this !in gone && untracked !! gone && Subtrees(d.kids, Elements(d.kids[this]), gone)
      ensures d'.kids == Taken(Halfway(d.kids, this, |d.kids[this]|, gone), old(parent), this)
      ensures d'.rank == d.rank - gone && d'.pools == d.pools && parent == null
      ensures Deletable(d', untracked) && d'.kids.Keys <= d.kids.Keys && forall n :: n in d'.kids && n != this ==> n.parent == old(n.parent)
      decreases NotAbove(d.rank, this), 1
    {
      hide Deletable, Subtrees, Halfway, Detached, NotAbove, Linked, Unlinked, Snapshot, Elements, Ranked, PoolsHold, Pruned;
      d', gone := DeleteChildren(d, untracked);
      assert this in d'.kids by { StillThere(d, this, gone); }
      if parent != null {
        ghost var q: XMLNode, l := parent, Snapshot(d'.kids.Keys);
        ParentOf(d', this, untracked);
        BeforeUnlink(d', q, this, untracked);
        parent.Unlink(this, d'.kids);
        AfterUnlink(d', l, q, this, untracked);
        DetachedKeys(d'.kids, q, this);
        d' := DomState(Detached(d'.kids, q, this), d'.rank, d'.pools);
      }
    }

    /** XMLNode::DeleteNode: the destructor, then the memory goes back to the pool. */
    static method DeleteNode(node: XMLNode, ghost d: DomState, ghost untracked: set<XMLNode>) returns (ghost d': DomState, ghost gone: set<XMLNode>)
      requires node in d.kids && node in d.rank && node.memPool != null && Deletable(d, untracked)
      modifies d.kids.Keys, d.pools
      ensures Subtrees(d.kids, {node}, gone) && forall n :: n in gone && n in untracked ==> n == node
      ensures node !in d'.kids
      ensures d'.kids == Pruned(Taken(d.kids, old(node.parent), node), gone) && d'.rank == d.rank - gone && d'.pools == d.pools
      ensures Deletable(d', untracked) && d'.kids.Keys <= d.kids.Keys && forall n :: n in d'.kids ==> n.parent == old(n.parent)
      decreases NotAbove(d.rank, node), 2
    {
      hide Subtrees, Halfway, Taken, Pruned, NotAbove, Linked, Snapshot, Elements, PoolsHold, Ranked;
      ghost var parent := node.parent;
      BeforeDestroy(d, node, untracked);
      d', gone := node.Destroy(d, untracked);
      assert Forest(d') && PoolsHold(d'.kids.Keys, d'.pools, untracked);
      DestroyedKids(d, parent, node, gone);
      FreeNode(node, d'.kids.Keys, d'.pools, untracked);
      WithoutLeaf(d', node);
      AndTheNode(d.kids, node, gone);
      gone := gone + {node};
      d' := DomState(d'.kids - {node}, d'.rank - {node}, d'.pools);
    }
  }

  function Ptr(n: XMLNode?): Pointer<XMLNode> {
    if n == null then Null else
      var m: XMLNode := n;
      To(m)
  }

  type LinkMap = map<XMLNode, Links<XMLNode>>
  type Kids = map<XMLNode, seq<XMLNode>>

  function LinksOf(n: XMLNode): Links<XMLNode>
    reads n
  {
    Links(Ptr(n.parent), Ptr(n.firstChild), Ptr(n.lastChild), Ptr(n.prev), Ptr(n.next))
  }

  ghost function Snapshot(nodes: set<XMLNode>): LinkMap
    reads nodes
  {
    map n | n in nodes :: LinksOf(n)
  }

  // ---------- the pools ----------

  ghost function InPool(nodes: set<XMLNode>, m: MemPoolT): set<XMLNode> {
    set n | n in nodes && n.memPool == m
  }

  ghost function Items(nodes: set<XMLNode>, m: MemPoolT): set<nat> {
    set n | n in nodes && n.memPool == m :: n.item
  }

  ghost predicate OneItemEach(nodes: set<XMLNode>) {
    forall a, b :: a in nodes && b in nodes && a != b && a.memPool == b.memPool && a.memPool != null ==> a.item != b.item
  }

  /** The nodes of a document as values: child sequences, ranks that show there is no cycle, and the pools. */
  datatype DomState = DomState(kids: Kids, rank: map<XMLNode, nat>, pools: set<MemPoolT>)

  ghost predicate PoolHolds(m: MemPoolT, nodes: set<XMLNode>, untracked: set<XMLNode>)
    reads m
  {
    m.Valid() && m.live == Items(nodes, m) && m.nUntracked == |InPool(untracked, m)|
  }

  /** Each pool's live items are those of the nodes, and its untracked ones those of the given set. */
  ghost predicate PoolsHold(nodes: set<XMLNode>, pools: set<MemPoolT>, untracked: set<XMLNode>)
    reads pools
  {
    && OneItemEach(nodes)
    && (forall n :: n in nodes && n.memPool != null ==> n.memPool in pools)
    && forall m :: m in pools ==> PoolHolds(m, nodes, untracked)
  }

  ghost predicate Forest(d: DomState)
    reads d.kids.Keys
  {
    && Linked(Snapshot(d.kids.Keys), d.kids) && Ranked(d.kids, d.rank)
    && forall n :: n in d.kids && n.parent != null ==> n.memPool != null
  }

  /** The nodes without a parent. */
  ghost function Loose(nodes: set<XMLNode>): set<XMLNode>
    reads nodes
  {
    set n | n in nodes && n.parent == null
  }

  /** A document between calls: a forest, and pools that count its nodes and its parentless nodes. */
  ghost predicate Valid(d: DomState)
    reads d.kids.Keys, d.pools
  {
    Forest(d) && PoolsHold(d.kids.Keys, d.pools, Loose(d.kids.Keys))
  }

  lemma {:induction false} ItemsCount(nodes: set<XMLNode>, m: MemPoolT)
    requires OneItemEach(nodes)
    ensures |Items(nodes, m)| == |InPool(nodes, m)|
    decreases nodes
  {
    if nodes == {} {
      assert Items(nodes, m) == {} && InPool(nodes, m) == {};
    } else {
      var n :| n in nodes;
      var rest := nodes - {n};
      ItemsCount(rest, m);
      ItemsWithout(nodes, n, m);
      InPoolWithout(nodes, n, m);
      if n.memPool == m { assert n.item in Items(nodes, m); }
    }
  }

  /** Each pool's CurrentAllocs is the number of its nodes, and its Untracked the number of its parentless nodes. */
  lemma PoolCounts(d: DomState, m: MemPoolT)
    requires Valid(d) && m in d.pools
    ensures m.currentAllocs == |InPool(d.kids.Keys, m)|
    ensures m.nUntracked == |InPool(Loose(d.kids.Keys), m)|
    ensures |m.free| == m.blockPtrs * m.itemsPerBlock - m.currentAllocs
  {
    ItemsCount(d.kids.Keys, m);
    m.Conservation();
    assert PoolHolds(m, d.kids.Keys, Loose(d.kids.Keys));
  }

  lemma InPoolWithout(nodes: set<XMLNode>, n: XMLNode, m: MemPoolT)
    requires n in nodes
    ensures |InPool(nodes - {n}, m)| == if n.memPool == m then |InPool(nodes, m)| - 1 else |InPool(nodes, m)|
  {
    if n.memPool == m {
      assert InPool(nodes, m) == InPool(nodes - {n}, m) + {n};
    } else {
      assert InPool(nodes, m) == InPool(nodes - {n}, m);
    }
  }

  lemma ItemsWithout(nodes: set<XMLNode>, n: XMLNode, m: MemPoolT)
    requires n in nodes && OneItemEach(nodes)
    ensures Items(nodes - {n}, m) == if n.memPool == m then Items(nodes, m) - {n.item} else Items(nodes, m)
  {
    if n.memPool == m {
      assert forall x :: x in nodes && x != n && x.memPool == m ==> x.item != n.item;
      assert Items(nodes, m) == Items(nodes - {n}, m) + {n.item};
    }
  }

  /** SetTracked on the pool of an untracked node. */
  method Track(n: XMLNode, ghost nodes: set<XMLNode>, ghost pools: set<MemPoolT>, ghost untracked: set<XMLNode>)
    requires PoolsHold(nodes, pools, untracked) && n in nodes && n in untracked && n.memPool != null
    modifies n.memPool
    ensures PoolsHold(nodes, pools, untracked - {n})
  {
    hide MemPoolT.Valid;
    assert PoolHolds(n.memPool, nodes, untracked);
    n.memPool.SetTracked();
    forall m | m in pools ensures PoolHolds(m, nodes, untracked - {n}) {
      assert old(PoolHolds(m, nodes, untracked));
      InPoolWithout(untracked, n, m);
    }
  }

  /** pool->Free(node). */
  method FreeNode(n: XMLNode, ghost nodes: set<XMLNode>, ghost pools: set<MemPoolT>, ghost untracked: set<XMLNode>)
    requires PoolsHold(nodes, pools, untracked) && n in nodes && n.memPool != null
    modifies n.memPool
    ensures PoolsHold(nodes - {n}, pools, untracked)
  {
    hide MemPoolT.Valid;
    assert PoolHolds(n.memPool, nodes, untracked);
    n.memPool.Free(n.item);
    forall m | m in pools ensures PoolHolds(m, nodes - {n}, untracked) {
      assert old(PoolHolds(m, nodes, untracked));
      ItemsWithout(nodes, n, m);
    }
  }

  lemma SnapshotAt(nodes: set<XMLNode>)
    ensures Snapshot(nodes).Keys == nodes
    ensures forall n :: n in nodes ==> Snapshot(nodes)[n] == LinksOf(n)
  {}

  lemma IsUnlinked(nodes: set<XMLNode>, l: LinkMap, q: XMLNode, c: XMLNode, a: XMLNode?, b: XMLNode?)
    requires l.Keys == nodes && q in l && c in l && l[c].prev == Ptr(a) && l[c].next == Ptr(b)
    requires q != c && a != q && a != c && b != q && b != c && (a != null ==> a in l && a != b) && (b != null ==> b in l)
    requires forall n :: n in nodes && n != q && n != c && n != a && n != b ==> LinksOf(n) == l[n]
    requires LinksOf(q) == l[q].(first := if l[q].first == To(c) then Ptr(b) else l[q].first,
                                 last := if l[q].last == To(c) then Ptr(a) else l[q].last)
    requires LinksOf(c) == l[c].(parent := Null)
    requires a != null ==> LinksOf(a) == l[a].(next := Ptr(b))
    requires b != null ==> LinksOf(b) == l[b].(prev := Ptr(a))
    ensures Snapshot(nodes) == Unlinked(l, q, c)
  {
    hide LinksOf;
  }

  /** What unlinking and splicing do to the parents. */
  lemma UnlinkedParents(nodes: set<XMLNode>, l: LinkMap, q: XMLNode, c: XMLNode)
    requires l.Keys == nodes && q in l && c in l && Snapshot(nodes) == Unlinked(l, q, c)
    ensures forall n :: n in nodes ==> Ptr(n.parent) == if n == c then Null else l[n].parent
  {
    forall n | n in nodes ensures Ptr(n.parent) == if n == c then Null else l[n].parent {
      assert Snapshot(nodes)[n] == Unlinked(l, q, c)[n];
    }
  }

  lemma SplicedParents(nodes: set<XMLNode>, l: LinkMap, p: XMLNode, a: Pointer<XMLNode>, b: Pointer<XMLNode>, c: XMLNode)
    requires l.Keys == nodes && Snapshot(nodes) == Spliced(l, p, a, b, c)
    ensures forall n :: n in nodes ==> Ptr(n.parent) == if n == c then To(p) else l[n].parent
  {
    forall n | n in nodes ensures Ptr(n.parent) == if n == c then To(p) else l[n].parent {
      assert Snapshot(nodes)[n] == Spliced(l, p, a, b, c)[n];
    }
  }

  /** The neighbours of a child. */
  lemma Neighbours(kids: Kids, q: XMLNode, c: XMLNode)
    requires Linked(Snapshot(kids.Keys), kids) && q in kids && c in kids[q] && q !in kids[q]
    ensures c in kids && c.parent == q && q.firstChild != null && q.lastChild != null
    ensures c.prev != null ==> c.prev in kids && c.prev != c && c.prev != q
    ensures c.next != null ==> c.next in kids && c.next != c && c.next != q
    ensures c.prev != null && c.next != null ==> c.prev != c.next
  {
    var l, s := Snapshot(kids.Keys), kids[q];
    var i := IndexOf(s, c);
    assert ChildAt(l, q, s, i);
    if i > 0 { assert ChildAt(l, q, s, i - 1) && c.prev == s[i - 1]; }
    if i + 1 < |s| { assert ChildAt(l, q, s, i + 1) && c.next == s[i + 1]; }
    assert l[q].first == To(s[0]) && l[q].last == To(s[|s| - 1]);
  }

  /** The child sequences once c has left its parent, if it had one. */
  ghost function Taken(kids: Kids, parent: XMLNode?, c: XMLNode): Kids {
    if parent != null && parent in kids && c in kids[parent] then
      var q: XMLNode := parent;
      Detached(kids, q, c)
    else kids
  }

  lemma ParentKnown(d: DomState, c: XMLNode)
    requires Forest(d) && c in d.kids && c.parent != null
    ensures c.parent in d.kids && c in d.kids[c.parent] && c.parent !in d.kids[c.parent]
  {
    assert Snapshot(d.kids.Keys)[c].parent.To?;
  }

  /** addThis is a node of the document, not the document itself, and p is outside its subtree. */
  ghost predicate MayMove(d: DomState, p: XMLNode, c: XMLNode) {
    c in d.kids && c.memPool != null && NotUnder(d.kids, p, c)
  }

  function PutLast(kids: Kids, p: XMLNode, c: XMLNode): Kids
    requires p in kids
  {
    Attached(kids, p, |kids[p]|, c)
  }

  function PutFirst(kids: Kids, p: XMLNode, c: XMLNode): Kids
    requires p in kids
  {
    Attached(kids, p, 0, c)
  }

  lemma TakenNowhere(kids: Kids, c: XMLNode)
    ensures Taken(kids, null, c) == kids
  {}

  lemma TakenKeys(kids: Kids, parent: XMLNode?, c: XMLNode)
    ensures Taken(kids, parent, c).Keys == kids.Keys
  {}

  /** A node's ends, and what they have to do with a node that is nobody's child. */
  lemma Ends(kids: Kids, p: XMLNode, c: XMLNode)
    requires p in kids && c in kids && Linked(Snapshot(kids.Keys), kids) && c.parent == null
    ensures Ptr(p.firstChild) == At(kids[p], 0) && Ptr(p.lastChild) == At(kids[p], |kids[p]| - 1)
    ensures p.lastChild != null ==> p.lastChild in kids && p.lastChild != c && p.lastChild.next == null && p.lastChild.parent == p
    ensures p.firstChild != null ==> p.firstChild in kids && p.firstChild != c && p.firstChild.prev == null && p.firstChild.parent == p
    ensures p !in kids[p] ==> p.lastChild != p && p.firstChild != p
    ensures p.firstChild == null <==> p.lastChild == null
  {
    var l, s := Snapshot(kids.Keys), kids[p];
    NotAChild(l, p, s, c);
    if s != [] {
      assert ChildAt(l, p, s, 0) && ChildAt(l, p, s, |s| - 1);
    }
  }

  /** Before the links are spliced: l is a forest in which c is nobody's child, and everyone else is counted. */
  ghost predicate Ready(l: LinkMap, kids: Kids, c: XMLNode, pools: set<MemPoolT>, untracked: set<XMLNode>)
    reads pools
  {
    && Linked(l, kids) && l.Keys == kids.Keys && c in l && l[c].parent == Null && c.memPool != null
    && (forall n :: n in l && l[n].parent.To? ==> n.memPool != null)
    && untracked == (set n | n in l && l[n].parent == Null && n != c)
    && PoolsHold(kids.Keys, pools, untracked)
  }

  lemma ReadyUnlinked(d: DomState, l: LinkMap, q: XMLNode, c: XMLNode)
    requires Valid(d) && l == Snapshot(d.kids.Keys) && q in d.kids && c in d.kids[q] && c in l && l[c].parent == To(q)
    requires Linked(Unlinked(l, q, c), Detached(d.kids, q, c))
    ensures Ready(Unlinked(l, q, c), Detached(d.kids, q, c), c, d.pools, Loose(d.kids.Keys))
  {
    hide PoolsHold, Linked, Ranked, Unlinked, Detached;
    var l' := Unlinked(l, q, c);
    ParentsUnlinked(l, q, c);
    DetachedKeys(d.kids, q, c);
    assert c.parent == q;
    assert Loose(d.kids.Keys) == (set n | n in l' && l'[n].parent == Null && n != c);
  }

  lemma ParentsUnlinked(l: LinkMap, q: XMLNode, c: XMLNode)
    requires q in l && c in l
    ensures Unlinked(l, q, c).Keys == l.Keys
    ensures forall n :: n in l ==> Unlinked(l, q, c)[n].parent == if n == c then Null else l[n].parent
  {}

  lemma DetachedKeys(kids: Kids, q: XMLNode, c: XMLNode)
    requires q in kids && c in kids[q]
    ensures Detached(kids, q, c).Keys == kids.Keys
  {}

  lemma ReadyTracked(d: DomState, l: LinkMap, c: XMLNode)
    requires Forest(d) && l == Snapshot(d.kids.Keys) && c in d.kids && c.parent == null && c.memPool != null
    requires PoolsHold(d.kids.Keys, d.pools, Loose(d.kids.Keys) - {c})
    ensures Ready(l, d.kids, c, d.pools, Loose(d.kids.Keys) - {c})
  {
    hide PoolsHold, Ranked;
  }

  /** Once they are spliced, the document is valid with c in its new place. */
  lemma ReadyMeans(l: LinkMap, kids: Kids, c: XMLNode, pools: set<MemPoolT>, untracked: set<XMLNode>)
    requires Ready(l, kids, c, pools, untracked)
    ensures Linked(l, kids) && l.Keys == kids.Keys && c in kids
  {}

  lemma Placed(kids: Kids, rank: map<XMLNode, nat>, pools: set<MemPoolT>,
               l: LinkMap, p: XMLNode, i: nat, c: XMLNode, u: set<XMLNode>, untracked: set<XMLNode>)
    requires Ranked(kids, rank) && c in u && p !in u && ClosedUnder(kids, u) && p in kids && c in kids && i <= |kids[p]|
    requires Ready(l, kids, c, pools, untracked)
    requires Snapshot(kids.Keys) == Spliced(l, p, At(kids[p], i - 1), At(kids[p], i), c)
    ensures Valid(DomState(Attached(kids, p, i, c), Lowered(rank, u), pools))
  {
    hide PoolsHold, Linked, Ranked, ClosedUnder, Attached, Lowered;
    SpliceKeeps(l, kids, p, i, c);
    AttachStaysRanked(kids, rank, p, i, c, u);
    AttachedKeys(kids, p, i, c);
    SplicedParents(kids.Keys, l, p, At(kids[p], i - 1), At(kids[p], i), c);
    assert Loose(kids.Keys) == untracked;
  }

  lemma BeforeMoving(d: DomState, p: XMLNode, c: XMLNode, u: set<XMLNode>)
    requires Valid(d) && p in d.kids && c in d.kids && c in u && p !in u && ClosedUnder(d.kids, u)
    ensures var kids := Taken(d.kids, c.parent, c);
      kids.Keys == d.kids.Keys && Ranked(kids, d.rank) && ClosedUnder(kids, u) && p !in kids[p]
  {
    hide Linked;
    if c.parent != null { ParentKnown(d, c); }
    TakenStaysRanked(d, c.parent, c, u);
    TakenKeys(d.kids, c.parent, c);
  }

  lemma TakenStaysRanked(d: DomState, parent: XMLNode?, c: XMLNode, u: set<XMLNode>)
    requires Ranked(d.kids, d.rank) && ClosedUnder(d.kids, u) && (parent != null ==> parent in d.kids && c in d.kids[parent])
    ensures Ranked(Taken(d.kids, parent, c), d.rank) && ClosedUnder(Taken(d.kids, parent, c), u)
  {
    hide Ranked, ClosedUnder, Detached;
    if parent != null {
      var q: XMLNode := parent;
      DetachStaysRanked(d.kids, d.rank, q, c);
      DetachStaysOutside(d.kids, q, c, u);
    }
  }

  lemma IsSpliced(nodes: set<XMLNode>, l: LinkMap, p: XMLNode, a: XMLNode?, b: XMLNode?, c: XMLNode)
    requires l.Keys == nodes && p in l && c in l
    requires p != c && a != c && b != c && a != p && b != p && (a != null ==> a in l && a != b) && (b != null ==> b in l)
    requires forall n :: n in nodes && n != p && n != c && n != a && n != b ==> LinksOf(n) == l[n]
    requires LinksOf(p) == l[p].(first := if a == null then To(c) else l[p].first, last := if b == null then To(c) else l[p].last)
    requires LinksOf(c) == l[c].(parent := To(p), prev := Ptr(a), next := Ptr(b))
    requires a != null ==> LinksOf(a) == l[a].(next := To(c))
    requires b != null ==> LinksOf(b) == l[b].(prev := To(c))
    ensures Snapshot(nodes) == Spliced(l, p, Ptr(a), Ptr(b), c)
  {
    hide LinksOf;
  }

  lemma IsPutBehind(nodes: set<XMLNode>, l: LinkMap, p: XMLNode, a: XMLNode, b: XMLNode, c: XMLNode)
    requires l.Keys == nodes && a in l && b in l && c in l && l[a].next == To(b) && b != c && b != a
    requires forall n :: n in nodes && n != c && n != a && n != b ==> LinksOf(n) == l[n]
    requires LinksOf(c) == l[c].(parent := To(p), prev := To(a), next := if c == a then To(c) else To(b))
    requires a != c ==> LinksOf(a) == l[a].(next := To(c))
    requires LinksOf(b) == l[b].(prev := To(c))
    ensures Snapshot(nodes) == PutBehind(l, p, a, c)
  {
    hide LinksOf;
  }

  ghost function PutAfter(kids: Kids, p: XMLNode, a: XMLNode, c: XMLNode): Kids
    requires p in kids && a in kids[p]
  {
    Attached(kids, p, IndexOf(kids[p], a) + 1, c)
  }

  /** The links once c has left its parent, if it had one. */
  ghost function TakenLinks(l: LinkMap, parent: XMLNode?, c: XMLNode): LinkMap
    requires parent != null ==> parent in l && c in l
  {
    if parent == null then l else
      var q: XMLNode := parent;
      Unlinked(l, q, c)
  }

  /** Where InsertAfterChild leaves a document in which another child followed a: c behind a; or, when a is c, links in
      which c follows itself; or, after the fault, the links without c, with c still pointing back at a. */
  ghost predicate Behind(d: DomState, d': DomState, p: XMLNode, a: XMLNode, c: XMLNode, parent: XMLNode?, before: LinkMap, fault: bool)
    reads d.kids.Keys, d'.kids.Keys, d'.pools
  {
    var kids, now := Taken(d.kids, parent, c), Snapshot(d.kids.Keys);
    if fault then p in before && c in before && now == Unlinked(before, p, c)
    else if a == c then
      p in before && c in before && before[c].next.To? && before[c].next != To(c) && now == PutBehind(Unlinked(before, p, c), p, c, c)
    else p in kids && a in kids[p] && Valid(d') && d'.kids == PutAfter(kids, p, a, c)
  }

  /** What the assignments of InsertAfterChild amount to. */
  lemma BehindHolds(d: DomState, u: set<XMLNode>, l: LinkMap, p: XMLNode, a: XMLNode, c: XMLNode, parent: XMLNode?,
                    before: LinkMap, untracked: set<XMLNode>, fault: bool) returns (d': DomState)
    requires var kids := Taken(d.kids, parent, c);
      && kids.Keys == d.kids.Keys && Ranked(kids, d.rank) && c in u && p !in u && ClosedUnder(kids, u) && p in kids && c in kids
      && (a != c ==> a in kids[p]) && Ready(l, kids, c, d.pools, untracked) && a in l
    requires parent != null ==> parent in before && c in before
    requires l == TakenLinks(before, parent, c) && (fault || a == c ==> parent == p) && (fault ==> a != c)
    requires a == c ==> before[c].next.To? && before[c].next != To(c)
    requires !fault ==> l[a].next.To? && l[a].next != To(c) && Snapshot(d.kids.Keys) == PutBehind(l, p, a, c)
    requires fault ==> Snapshot(d.kids.Keys) == l
    ensures d'.pools == d.pools && Behind(d, d', p, a, c, parent, before, fault)
    ensures a == c ==> forall kids: Kids :: !Linked(Snapshot(d.kids.Keys), kids)
  {
    hide PoolsHold, Taken, Linked, Attached, Lowered, ClosedUnder, Ranked, Unlinked, PutBehind, Snapshot;
    d' := d;
    var kids := Taken(d.kids, parent, c);
    if a == c {
      forall ks: Kids ensures !Linked(PutBehind(l, p, c, c), ks) { BehindItselfBreaks(l, ks, p, c); }
    } else if !fault {
      d' := DomState(PutAfter(kids, p, a, c), Lowered(d.rank, u), d.pools);
      BehindIsSpliced(l, kids, p, a, c);
      Placed(kids, d.rank, d.pools, l, p, IndexOf(kids[p], a) + 1, c, u, untracked);
      AttachedKeys(kids, p, IndexOf(kids[p], a) + 1, c);
    }
  }

  /** Once c is taken out, a child a of p that had a next sibling still has one, other than c, unless that was c and c
      the last. */
  lemma AfterTaking(d: DomState, p: XMLNode, a: XMLNode, c: XMLNode)
    requires Valid(d) && a in d.kids && c in d.kids && a.parent == p && a.next != null
    ensures c.parent != null ==> c.parent in d.kids
    ensures var before := Snapshot(d.kids.Keys);
      && (c.parent != null ==> c.parent in before && c in before)
      && (a == c ==> c in before && before[c].next.To? && before[c].next != To(c))
    ensures
      var l := TakenLinks(Snapshot(d.kids.Keys), c.parent, c);
      && a in l && c in l && (l[a].next == Null <==> a.next == c && c.next == null)
      && (l[a].next.To? ==> l[a].next.node in d.kids && l[a].next.node != c && l[a].next.node != a)
      && (l[a].next == Null ==> l[c].prev == To(a) && l[c].next == Null && c.parent == p)
    ensures p in d.kids && (a != c ==> p in Taken(d.kids, c.parent, c) && a in Taken(d.kids, c.parent, c)[p])
  {
    hide PoolsHold, Linked, Ranked, Unlinked, Detached, Snapshot;
    var l := Snapshot(d.kids.Keys);
    SnapshotAt(d.kids.Keys);
    ParentKnown(d, a);
    NextIsSibling(l, d.kids, p, a);
    SameNodes(l, d.kids);
    if c.parent != null {
      ParentKnown(d, c);
      var q: XMLNode := c.parent;
      ParentsUnlinked(l, q, c);
      DetachedKeys(d.kids, q, c);
      if a == c {
        OwnNext(l, d.kids, q, c);
      } else {
        StillFollowed(l, d.kids, q, c, p, a);
        StaysAChild(l, d.kids, q, c, p, a);
        if Unlinked(l, q, c)[a].next.To? { FollowedByAnother(l, d.kids, q, c, p, a); } else { StalePointers(l, q, c); }
      }
    } else {
      NotAKid(l, d.kids, p, c);
    }
  }

  /** A node that is taken out keeps pointing at its siblings, except at itself. */
  lemma StalePointers(l: LinkMap, q: XMLNode, c: XMLNode)
    requires q in l && c in l && l[c].prev != To(c) && l[c].next != To(c)
    ensures Unlinked(l, q, c)[c].prev == l[c].prev && Unlinked(l, q, c)[c].next == l[c].next
  {}

  /** A document in the middle of a deletion: untracked holds the nodes its pools count as untracked. Nodes that were
      deleted without having been counted as used are still among them. */
  ghost predicate Deletable(d: DomState, untracked: set<XMLNode>)
    reads d.kids.Keys, d.pools
  {
    && Forest(d) && PoolsHold(d.kids.Keys, d.pools, untracked)
    && forall n :: n in untracked && n in d.kids ==> n.parent == null
  }

  /** The first k children of p have been deleted, that is, the nodes of gone. */
  ghost predicate Reached(d: DomState, now: DomState, p: XMLNode, k: nat, gone: set<XMLNode>) {
    && p in d.kids && k <= |d.kids[p]| && p !in gone && Ranked(d.kids, d.rank)
    && Subtrees(d.kids, Elements(d.kids[p][..k]), gone)
    && now.kids == Halfway(d.kids, p, k, gone) && now.rank == d.rank - gone && Ranked(now.kids, now.rank)
  }

  lemma NothingGone(d: DomState, p: XMLNode, untracked: set<XMLNode>)
    requires Deletable(d, untracked) && p in d.kids
    ensures Reached(d, d, p, 0, {})
  {}

  /** The next child DeleteChildren comes to. */
  lemma NextChild(d: DomState, now: DomState, p: XMLNode, k: nat, gone: set<XMLNode>, untracked: set<XMLNode>)
    requires Reached(d, now, p, k, gone) && Deletable(now, untracked) && p.firstChild != null
    ensures k < |d.kids[p]| && p in now.kids && p.firstChild == d.kids[p][k] && d.kids[p][k] in now.kids[p]
    ensures p in d.rank && d.kids[p][k] in now.rank && NotAbove(now.rank, d.kids[p][k]) < NotAbove(d.rank, p)
  {
    hide PoolsHold, Linked, Snapshot, Subtrees;
    FirstOf(now, p);
    assert now.kids[p] == d.kids[p][k..];
    RanksFall(d.rank, gone, p, d.kids[p][k]);
  }

  lemma RanksFall(rank: map<XMLNode, nat>, gone: set<XMLNode>, p: XMLNode, c: XMLNode)
    requires p in rank && c in rank && p !in gone && c !in gone && rank[p] < rank[c]
    ensures NotAbove(rank - gone, c) < NotAbove(rank, p)
  {
    assert p in NotAbove(rank, p) && p !in NotAbove(rank - gone, c);
  }

  lemma HalfwayKeys(kids: Kids, p: XMLNode, k: nat, gone: set<XMLNode>)
    requires p in kids && k <= |kids[p]| && p !in gone
    ensures Halfway(kids, p, k, gone).Keys == kids.Keys - gone
  {}

  lemma PrunedKeys(kids: Kids, gone: set<XMLNode>)
    ensures Pruned(kids, gone).Keys == kids.Keys - gone
  {}

  /** And where it is once that child is deleted. */
  lemma OneMoreReached(d: DomState, now: DomState, d': DomState, p: XMLNode, k: nat, gone: set<XMLNode>, g: set<XMLNode>,
                       untracked: set<XMLNode>)
    requires Reached(d, now, p, k, gone) && Deletable(d', untracked) && k < |d.kids[p]| && p in now.kids && d.kids[p][k] in now.kids[p]
    requires var kids := Detached(now.kids, p, d.kids[p][k]);
      Subtrees(kids, {d.kids[p][k]}, g) && d'.kids == Pruned(kids, g) && d'.rank == now.rank - g
    ensures Reached(d, d', p, k + 1, gone + g)
  {
    hide Ranked, Subtrees, Pruned, Elements, Linked, PoolsHold;
    WithoutFirstHalfway(d.kids, p, k, gone);
    OneMoreChild(d.kids, p, k, gone, now.rank, g);
    assert (d.rank - gone) - g == d.rank - (gone + g);
  }

  lemma WithoutFirstHalfway(kids: Kids, p: XMLNode, k: nat, gone: set<XMLNode>)
    requires p in kids && k < |kids[p]| && p !in gone && kids[p][k] in Halfway(kids, p, k, gone)[p]
    ensures Detached(Halfway(kids, p, k, gone), p, kids[p][k]) == Halfway(kids, p, k + 1, gone)
  {
    WithoutFirst(kids[p][k..], kids[p][k]);
    assert kids[p][k..][1..] == kids[p][k + 1..];
  }

  lemma WithoutFirst(s: seq<XMLNode>, c: XMLNode)
    requires s != [] && s[0] == c
    ensures Without(s, c) == s[1..]
  {}

  lemma LastChild(d: DomState, now: DomState, p: XMLNode, k: nat, gone: set<XMLNode>, untracked: set<XMLNode>)
    requires Reached(d, now, p, k, gone) && Deletable(now, untracked) && p.firstChild == null
    ensures k == |d.kids[p]| && p.lastChild == null && p in now.kids && p !in gone
    ensures Subtrees(d.kids, Elements(d.kids[p]), gone) && now.kids == Halfway(d.kids, p, k, gone) && now.rank == d.rank - gone
  {
    hide Subtrees, PoolsHold, Ranked, Elements;
    assert Spells(Snapshot(now.kids.Keys), p, now.kids[p]);
    assert now.kids[p] == d.kids[p][k..] && d.kids[p][..|d.kids[p]|] == d.kids[p];
  }

  lemma FirstOf(d: DomState, p: XMLNode)
    requires Forest(d) && p in d.kids && p.firstChild != null
    ensures d.kids[p] != [] && p.firstChild == d.kids[p][0]
  {
    assert Spells(Snapshot(d.kids.Keys), p, d.kids[p]);
  }

  /** What is known of a child before it is unlinked. */
  lemma BeforeUnlink(d: DomState, q: XMLNode, c: XMLNode, untracked: set<XMLNode>)
    requires Deletable(d, untracked) && q in d.kids && c in d.kids[q]
    ensures c in d.kids && q !in d.kids[q] && c.parent == q && c.memPool != null && c !in untracked
    ensures Linked(Snapshot(d.kids.Keys), d.kids) && Ranked(d.kids, d.rank)
    ensures Linked(Unlinked(Snapshot(d.kids.Keys), q, c), Detached(d.kids, q, c)) && Ranked(Detached(d.kids, q, c), d.rank)
    ensures PoolsHold(d.kids.Keys, d.pools, untracked)
    ensures var l := Snapshot(d.kids.Keys);
      && l.Keys == d.kids.Keys && (forall n :: n in l ==> l[n].parent == Ptr(n.parent))
      && (forall n :: n in l && l[n].parent.To? ==> n.memPool != null)
      && (forall n :: n in untracked && n in l ==> l[n].parent == Null)
  {
    hide Linked, Unlinked, Detached, Snapshot;
    SnapshotAt(d.kids.Keys);
    Neighbours(d.kids, q, c);
    UnlinkKeeps(Snapshot(d.kids.Keys), d.kids, q, c);
    DetachStaysRanked(d.kids, d.rank, q, c);
  }

  lemma AfterUnlink(d: DomState, l: LinkMap, q: XMLNode, c: XMLNode, untracked: set<XMLNode>)
    requires q in d.kids && c in d.kids[q] && c in d.kids && l.Keys == d.kids.Keys
    requires Snapshot(d.kids.Keys) == Unlinked(l, q, c) && Linked(Unlinked(l, q, c), Detached(d.kids, q, c))
    requires Ranked(Detached(d.kids, q, c), d.rank) && PoolsHold(d.kids.Keys, d.pools, untracked)
    requires forall n :: n in l && l[n].parent.To? ==> n.memPool != null
    requires forall n :: n in untracked && n in l ==> l[n].parent == Null
    ensures Deletable(DomState(Detached(d.kids, q, c), d.rank, d.pools), untracked)
    ensures forall n :: n in d.kids ==> Ptr(n.parent) == if n == c then Null else l[n].parent
  {
    hide Linked, Unlinked, Detached, Snapshot, PoolsHold, Ranked;
    DetachedKeys(d.kids, q, c);
    UnlinkedParents(d.kids.Keys, l, q, c);
  }

  lemma StillThere(d: DomState, p: XMLNode, gone: set<XMLNode>)
    requires p in d.kids
    ensures p in Halfway(d.kids, p, |d.kids[p]|, gone)
  {}

  lemma ParentOf(d: DomState, c: XMLNode, untracked: set<XMLNode>)
    requires Deletable(d, untracked) && c in d.kids && c.parent != null
    ensures c.parent in d.kids && c in d.kids[c.parent]
  {
    ParentKnown(d, c);
  }

  lemma BeforeDestroy(d: DomState, n: XMLNode, untracked: set<XMLNode>)
    requires Deletable(d, untracked) && n in d.kids
    ensures n.memPool != null ==> n.memPool in d.pools
    ensures n in d.rank && Ranked(d.kids, d.rank) && (n.parent != null ==> n.parent in d.kids && n in d.kids[n.parent])
  {
    if n.parent != null { ParentKnown(d, n); }
  }

  /** What ~XMLNode leaves, once the node itself is dropped: everything but its subtree. */
  lemma DestroyedKids(d: DomState, parent: XMLNode?, n: XMLNode, gone: set<XMLNode>)
    requires Ranked(d.kids, d.rank) && n in d.kids && (parent != null ==> parent in d.kids && n in d.kids[parent])
    requires n !in gone && Subtrees(d.kids, Elements(d.kids[n]), gone)
    ensures var kids := Taken(Halfway(d.kids, n, |d.kids[n]|, gone), parent, n);
      && n in kids && kids[n] == [] && kids - {n} == Pruned(Taken(d.kids, parent, n), gone + {n})
  {
    var u := set x | x in d.kids && d.rank[x] > d.rank[n];
    assert Elements(d.kids[n]) <= u && ClosedUnder(d.kids, u);
    assert gone <= u;
    if parent != null {
      assert parent !in u && parent != n;
    }
  }

  lemma WithoutLeaf(d: DomState, n: XMLNode)
    requires Forest(d) && n in d.kids && d.kids[n] == [] && n.parent == null
    ensures Forest(DomState(d.kids - {n}, d.rank - {n}, d.pools))
  {
    hide Linked;
    var l := Snapshot(d.kids.Keys);
    RemoveLeaf(l, d.kids, n);
    assert Snapshot(d.kids.Keys - {n}) == l - {n};
    assert (d.kids - {n}).Keys == d.kids.Keys - {n};
    LeafUnranked(l, d, n);
  }

  lemma LeafUnranked(l: LinkMap, d: DomState, n: XMLNode)
    requires Ranked(d.kids, d.rank) && Linked(l, d.kids) && n in d.kids && l[n].parent == Null
    ensures Ranked(d.kids - {n}, d.rank - {n})
  {
    forall p | p in d.kids ensures n !in d.kids[p] {
      NotAKid(l, d.kids, p, n);
    }
  }

  /** Once nothing is in the middle of being deleted, the document is valid again. */
  lemma NoneNewlyLoose(d: DomState, untracked: set<XMLNode>)
    requires Deletable(d, untracked) && untracked <= d.kids.Keys && forall n :: n in d.kids && n.parent == null ==> n in untracked
    ensures Valid(d)
  {
    assert Loose(d.kids.Keys) == untracked;
  }

  // ---------- the document's own operations ----------

  /** NewElement, NewComment, NewText, NewDeclaration and NewUnknown: a node in the pool of its kind, without a
      parent. The item was not in use. */
  method NewNode(document: nat, pool: MemPoolT, memory: seq<int>, ghost d: DomState) returns (n: XMLNode, ghost d': DomState)
    requires Valid(d) && pool in d.pools && |memory| == pool.itemsPerBlock
    modifies pool
    ensures fresh(n) && n.document == document && n.memPool == pool && n.parent == null
    ensures n.item !in old(pool.live)
    ensures Valid(d') && d'.kids == d.kids[n := []] && d'.pools == d.pools
  {
    hide Linked, Ranked, PoolsHold, PoolHolds, Snapshot, MemPoolT.Valid, OneItemEach, Items, InPool, Threads, Partition, Run;
    ghost var nodes, loose, l := d.kids.Keys, Loose(d.kids.Keys), Snapshot(d.kids.Keys);
    PoolsOpened(nodes, d.pools, loose, pool);
    NewLeafOf(d);
    var item := pool.Alloc(memory);
    n := new XMLNode(document, pool, item);
    d' := DomState(d.kids[n := []], d.rank[n := 0], d.pools);
    PoolsWithNew(nodes, d.pools, loose, pool, n);
    assert Loose(d'.kids.Keys) == loose + {n} && d'.kids.Keys == nodes + {n};
    WithNew(d, l, n);
  }

  lemma PoolsOpened(nodes: set<XMLNode>, pools: set<MemPoolT>, untracked: set<XMLNode>, pool: MemPoolT)
    requires PoolsHold(nodes, pools, untracked) && pool in pools
    ensures OneItemEach(nodes)
    ensures forall n :: n in nodes && n.memPool != null ==> n.memPool in pools
    ensures forall m :: m in pools ==> PoolHolds(m, nodes, untracked)
    ensures pool.Valid() && pool.live == Items(nodes, pool) && pool.nUntracked == |InPool(untracked, pool)|
  {
    assert PoolHolds(pool, nodes, untracked);
  }

  lemma PoolsWithNew(nodes: set<XMLNode>, pools: set<MemPoolT>, untracked: set<XMLNode>, pool: MemPoolT, n: XMLNode)
    requires n !in nodes && untracked <= nodes && OneItemEach(nodes) && pool in pools && n.memPool == pool
    requires forall x :: x in nodes && x.memPool != null ==> x.memPool in pools
    requires forall m :: m in pools && m != pool ==> PoolHolds(m, nodes, untracked)
    requires pool.Valid() && n.item !in Items(nodes, pool) && pool.live == Items(nodes, pool) + {n.item}
    requires pool.nUntracked == |InPool(untracked, pool)| + 1
    ensures PoolsHold(nodes + {n}, pools, untracked + {n})
  {
    hide MemPoolT.Valid;
    forall m | m in pools ensures PoolHolds(m, nodes + {n}, untracked + {n}) {
      InPoolWith(untracked, n, m);
      ItemsWith(nodes, n, m);
    }
  }

  lemma InPoolWith(nodes: set<XMLNode>, n: XMLNode, m: MemPoolT)
    requires n !in nodes
    ensures |InPool(nodes + {n}, m)| == if n.memPool == m then |InPool(nodes, m)| + 1 else |InPool(nodes, m)|
  {
    if n.memPool == m {
      assert InPool(nodes + {n}, m) == InPool(nodes, m) + {n};
    } else {
      assert InPool(nodes + {n}, m) == InPool(nodes, m);
    }
  }

  lemma ItemsWith(nodes: set<XMLNode>, n: XMLNode, m: MemPoolT)
    ensures Items(nodes + {n}, m) == if n.memPool == m then Items(nodes, m) + {n.item} else Items(nodes, m)
  {}

  lemma NewLeafOf(d: DomState)
    requires Forest(d)
    ensures Linked(Snapshot(d.kids.Keys), d.kids) && Ranked(d.kids, d.rank)
    ensures forall n :: n in d.kids && n.parent != null ==> n.memPool != null
  {}

  lemma WithNew(d: DomState, l: LinkMap, n: XMLNode)
    requires n !in d.kids && Linked(l, d.kids) && Ranked(d.kids, d.rank) && Snapshot(d.kids.Keys) == l
    requires forall x :: x in d.kids && x.parent != null ==> x.memPool != null
    requires n.parent == null && n.firstChild == null && n.lastChild == null && n.prev == null && n.next == null
    ensures Forest(DomState(d.kids[n := []], d.rank[n := 0], d.pools))
  {
    hide Linked, Ranked;
    var nodes := d.kids.Keys + {n};
    SameNodes(l, d.kids);
    NewLeaf(l, d.kids, n);
    assert Snapshot(nodes) == l[n := Links(Null, Null, Null, Null, Null)];
    assert d.kids[n := []].Keys == nodes;
    NewRanked(d.kids, d.rank, n);
  }

  lemma NewRanked(kids: Kids, rank: map<XMLNode, nat>, n: XMLNode)
    requires Ranked(kids, rank) && n !in kids
    ensures Ranked(kids[n := []], rank[n := 0])
  {}

  /** XMLDocument::DeleteNode. The parser does the same with an end tag it has read: it is counted as used and deleted. */
  method DeleteNode(node: XMLNode, ghost d: DomState) returns (ghost d': DomState, ghost gone: set<XMLNode>)
    requires Valid(d) && node in d.kids && node.memPool != null
    modifies d.kids.Keys, d.pools
    ensures Valid(d') && Subtrees(d.kids, {node}, gone) && d'.kids == Pruned(Taken(d.kids, old(node.parent), node), gone)
    ensures d'.pools == d.pools && forall n :: n in d'.kids ==> n.parent == old(n.parent)
  {
    hide Linked, Ranked, PoolsHold, Subtrees, Detached, Pruned, Snapshot;
    BeforeDestroy(d, node, Loose(d.kids.Keys));
    if node.parent != null {
      ghost var q: XMLNode := node.parent;
      d', gone := node.parent.DeleteChild(node, d, Loose(d.kids.Keys));
      SubtreeOfDetached(d.kids, d.rank, q, node, gone);
    } else {
      Track(node, d.kids.Keys, d.pools, Loose(d.kids.Keys));
      d', gone := XMLNode.DeleteNode(node, d, Loose(d.kids.Keys) - {node});
      TakenNowhere(d.kids, node);
      PrunedKeys(d.kids, gone);
      NoneNewlyLoose(d', old(Loose(d.kids.Keys)) - {node});
    }
  }
}
