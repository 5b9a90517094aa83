// The five pointers of an XMLNode as values: what they spell, and what unlinking and splicing do to it.

module DomLinks {
  import opened Sequences

  /** XMLNode*. */
  datatype Pointer<N> = Null | To(node: N)

  datatype Links<N> = Links(parent: Pointer<N>, first: Pointer<N>, last: Pointer<N>, prev: Pointer<N>, next: Pointer<N>)

  function At<N>(s: seq<N>, i: int): Pointer<N> {
    if 0 <= i < |s| then To(s[i]) else Null
  }

  /** The child at place i of p, seen from its own pointers. */
  ghost predicate ChildAt<N>(l: map<N, Links<N>>, p: N, s: seq<N>, i: nat)
    requires i < |s|
  {
    s[i] in l && l[s[i]].parent == To(p) && l[s[i]].prev == At(s, i - 1) && l[s[i]].next == At(s, i + 1)
  }

  /** The links of p and of its children spell s. */
  ghost predicate Spells<N>(l: map<N, Links<N>>, p: N, s: seq<N>) {
    && p in l && l[p].first == At(s, 0) && l[p].last == At(s, |s| - 1)
    && Distinct(s)
    && forall i :: 0 <= i < |s| ==> ChildAt(l, p, s, i)
  }

  /** The links spell one child sequence per node, and a node with a parent is among its children. */
  ghost predicate Linked<N>(l: map<N, Links<N>>, kids: map<N, seq<N>>) {
    && l.Keys == kids.Keys
    && (forall p :: p in kids ==> Spells(l, p, kids[p]))
    && (forall c :: c in l && l[c].parent.To? ==> l[c].parent.node in kids && c in kids[l[c].parent.node])
  }

  /** The links determine the child sequences. */
  lemma {:induction false} SpelledSame<N>(l: map<N, Links<N>>, p: N, s: seq<N>, t: seq<N>, i: nat)
    requires Spells(l, p, s) && Spells(l, p, t) && i < |s|
    ensures i < |t| && s[i] == t[i]
  {
    if i == 0 {
      assert At(s, 0) == At(t, 0);
    } else {
      SpelledSame(l, p, s, t, i - 1);
      assert ChildAt(l, p, s, i - 1) && ChildAt(l, p, t, i - 1);
      assert At(s, i) == At(t, i);
    }
  }

  lemma LinksDetermineChildren<N>(l: map<N, Links<N>>, kids: map<N, seq<N>>, other: map<N, seq<N>>)
    requires Linked(l, kids) && Linked(l, other)
    ensures kids == other
  {
    forall p | p in kids ensures kids[p] == other[p] {
      var s, t := kids[p], other[p];
      forall i | 0 <= i < |s| ensures i < |t| && s[i] == t[i] { SpelledSame(l, p, s, t, i); }
      forall i | 0 <= i < |t| ensures i < |s| && t[i] == s[i] { SpelledSame(l, p, t, s, i); }
      assert |s| == |t| by {
        if |s| > 0 { SpelledSame(l, p, s, t, |s| - 1); }
        if |t| > 0 { SpelledSame(l, p, t, s, |t| - 1); }
      }
    }
  }

  // ---------- Unlink ----------

  /** What XMLNode::Unlink does to the links when q takes c out. */
  function Unlinked<N>(l: map<N, Links<N>>, q: N, c: N): map<N, Links<N>>
    requires q in l && c in l
  {
    map n | n in l :: Links(
      if n == c then Null else l[n].parent,
      if n == q && l[q].first == To(c) then l[c].next else l[n].first,
      if n == q && l[q].last == To(c) then l[c].prev else l[n].last,
      if l[c].next == To(n) then l[c].prev else l[n].prev,
      if l[c].prev == To(n) then l[c].next else l[n].next)
  }

  ghost function IndexOf<N>(s: seq<N>, c: N): (i: nat)
    requires c in s
    ensures i < |s| && s[i] == c
  {
    if s[0] == c then 0 else 1 + IndexOf(s[1..], c)
  }

  ghost function Without<N>(s: seq<N>, c: N): seq<N>
    requires c in s
  {
    s[..IndexOf(s, c)] + s[IndexOf(s, c) + 1..]
  }

  /** c taken from the children of q. */
  ghost function Detached<N>(kids: map<N, seq<N>>, q: N, c: N): map<N, seq<N>>
    requires q in kids && c in kids[q]
  {
    kids[q := Without(kids[q], c)]
  }

  /** A child's siblings are children of the same parent, and no other node's. */
  lemma OneParent<N>(l: map<N, Links<N>>, kids: map<N, seq<N>>, p: N, q: N, c: N)
    requires Linked(l, kids) && p in kids && q in kids && c in kids[p] && c in kids[q]
    ensures p == q
  {
    var i, j := IndexOf(kids[p], c), IndexOf(kids[q], c);
    assert ChildAt(l, p, kids[p], i) && ChildAt(l, q, kids[q], j);
  }

  lemma WithoutSpells<N>(l: map<N, Links<N>>, q: N, s: seq<N>, c: N)
    requires Spells(l, q, s) && c in s && q !in s
    ensures c in l && Spells(Unlinked(l, q, c), q, Without(s, c))
    ensures c !in Without(s, c) && forall x :: x in s && x != c ==> x in Without(s, c)
  {
    var k := IndexOf(s, c);
    assert ChildAt(l, q, s, k);
    var l', t := Unlinked(l, q, c), Without(s, c);
    assert forall i :: 0 <= i < |t| ==> t[i] == s[if i < k then i else i + 1];
    forall i | 0 <= i < |t| ensures ChildAt(l', q, t, i) {
      var j := if i < k then i else i + 1;
      assert ChildAt(l, q, s, j);
      if j + 1 < |s| { assert s[j] != s[j + 1]; }
    }
    forall x | x in s && x != c ensures x in t {
      var j := IndexOf(s, x);
      assert t[if j < k then j else j - 1] == x;
    }
  }

  /** The children of other nodes are spelled as before. */
  lemma OthersSpell<N>(l: map<N, Links<N>>, kids: map<N, seq<N>>, q: N, c: N, p: N)
    requires Linked(l, kids) && q in kids && c in kids[q] && p in kids && p != q
    ensures c in l && Spells(Unlinked(l, q, c), p, kids[p])
  {
    var k := IndexOf(kids[q], c);
    assert ChildAt(l, q, kids[q], k);
    var s, l' := kids[p], Unlinked(l, q, c);
    forall i | 0 <= i < |s| ensures ChildAt(l', p, s, i) {
      assert ChildAt(l, p, s, i);
      if k > 0 { assert ChildAt(l, q, kids[q], k - 1) && s[i] != kids[q][k - 1]; }
      if k + 1 < |kids[q]| { assert ChildAt(l, q, kids[q], k + 1) && s[i] != kids[q][k + 1]; }
    }
  }

  lemma UnlinkKeeps<N>(l: map<N, Links<N>>, kids: map<N, seq<N>>, q: N, c: N)
    requires Linked(l, kids) && q in kids && c in kids[q] && q !in kids[q]
    ensures c in l && Linked(Unlinked(l, q, c), Detached(kids, q, c))
  {
    WithoutSpells(l, q, kids[q], c);
    var l', kids' := Unlinked(l, q, c), Detached(kids, q, c);
    forall p | p in kids' ensures Spells(l', p, kids'[p]) {
      if p != q { OthersSpell(l, kids, q, c, p); }
    }
    forall x | x in l' && l'[x].parent.To? ensures l'[x].parent.node in kids' && x in kids'[l'[x].parent.node] {
      assert l[x].parent == l'[x].parent && x in kids[l[x].parent.node];
    }
  }

  // ---------- inserting ----------

  /** The links once c is put under p between the siblings a and b. */
  function Spliced<N>(l: map<N, Links<N>>, p: N, a: Pointer<N>, b: Pointer<N>, c: N): map<N, Links<N>> {
    map n | n in l :: Links(
      if n == c then To(p) else l[n].parent,
      if n == p && a == Null then To(c) else l[n].first,
      if n == p && b == Null then To(c) else l[n].last,
      if n == c then a else if b == To(n) then To(c) else l[n].prev,
      if n == c then b else if a == To(n) then To(c) else l[n].next)
  }

  /** c put among the children of p at place i. */
  function Attached<N>(kids: map<N, seq<N>>, p: N, i: nat, c: N): map<N, seq<N>>
    requires p in kids && i <= |kids[p]|
  {
    kids[p := kids[p][..i] + [c] + kids[p][i..]]
  }

  lemma NotAChild<N>(l: map<N, Links<N>>, p: N, s: seq<N>, c: N)
    requires Spells(l, p, s) && c in l && l[c].parent == Null
    ensures c !in s
  {
    forall i | 0 <= i < |s| ensures s[i] != c {
      assert ChildAt(l, p, s, i);
    }
  }

  lemma SplicedSpells<N>(l: map<N, Links<N>>, p: N, s: seq<N>, i: nat, c: N)
    requires Spells(l, p, s) && i <= |s| && c in l && c !in s && p != c
    ensures Spells(Spliced(l, p, At(s, i - 1), At(s, i), c), p, s[..i] + [c] + s[i..])
  {
    var l', t := Spliced(l, p, At(s, i - 1), At(s, i), c), s[..i] + [c] + s[i..];
    assert forall j :: 0 <= j < |t| ==> t[j] == if j < i then s[j] else if j == i then c else s[j - 1];
    forall j | 0 <= j < |t| ensures ChildAt(l', p, t, j) {
      if j < i {
        assert ChildAt(l, p, s, j);
        if i < |s| { assert s[j] != s[i]; }
        if j < i - 1 { assert s[j] != s[i - 1]; }
      } else if j > i {
        assert ChildAt(l, p, s, j - 1);
        if i > 0 { assert s[i - 1] != s[j - 1]; }
        if i < j - 1 { assert s[i] != s[j - 1]; }
      }
    }
  }

  lemma SpliceKeeps<N>(l: map<N, Links<N>>, kids: map<N, seq<N>>, p: N, i: nat, c: N)
    requires Linked(l, kids) && p in kids && i <= |kids[p]| && c in kids && l[c].parent == Null && p != c
    ensures Linked(Spliced(l, p, At(kids[p], i - 1), At(kids[p], i), c), Attached(kids, p, i, c))
  {
    var s := kids[p];
    forall q | q in kids ensures c !in kids[q] {
      NotAChild(l, q, kids[q], c);
    }
    SplicedSpells(l, p, s, i, c);
    var l', kids' := Spliced(l, p, At(s, i - 1), At(s, i), c), Attached(kids, p, i, c);
    forall q | q in kids' ensures Spells(l', q, kids'[q]) {
      if q != p { SplicedElsewhere(l, kids, p, i, c, q); }
    }
    forall x | x in l' && l'[x].parent.To? ensures l'[x].parent.node in kids' && x in kids'[l'[x].parent.node] {
      if x == c {
        assert kids'[p][i] == c;
      } else if l[x].parent == To(p) {
        var j := IndexOf(s, x);
        assert kids'[p][if j < i then j else j + 1] == x;
      }
    }
  }

  lemma SplicedElsewhere<N>(l: map<N, Links<N>>, kids: map<N, seq<N>>, p: N, i: nat, c: N, q: N)
    requires Linked(l, kids) && p in kids && i <= |kids[p]| && c in kids && q in kids && q != p && c !in kids[q]
    ensures Spells(Spliced(l, p, At(kids[p], i - 1), At(kids[p], i), c), q, kids[q])
  {
    var s, t := kids[p], kids[q];
    var l' := Spliced(l, p, At(s, i - 1), At(s, i), c);
    forall j | 0 <= j < |t| ensures ChildAt(l', q, t, j) {
      assert ChildAt(l, q, t, j);
      if i > 0 { assert ChildAt(l, p, s, i - 1) && t[j] != s[i - 1]; }
      if i < |s| { assert ChildAt(l, p, s, i) && t[j] != s[i]; }
    }
  }

  /** What the assignments of InsertAfterChild do once c has been taken out. */
  function PutBehind<N>(l: map<N, Links<N>>, p: N, a: N, c: N): map<N, Links<N>>
    requires a in l && l[a].next.To?
  {
    map n | n in l :: Links(
      if n == c then To(p) else l[n].parent,
      l[n].first,
      l[n].last,
      if l[a].next == To(n) then To(c) else if n == c then To(a) else l[n].prev,
      if n == a then To(c) else if n == c then l[a].next else l[n].next)
  }

  /** For a child a of p that is not c, this is splicing c in behind a. */
  lemma BehindIsSpliced<N>(l: map<N, Links<N>>, kids: map<N, seq<N>>, p: N, a: N, c: N)
    requires Linked(l, kids) && p in kids && a in kids[p] && a in l && l[a].next.To?
    requires c in l && l[c].parent == Null
    ensures
      var k := IndexOf(kids[p], a);
      PutBehind(l, p, a, c) == Spliced(l, p, At(kids[p], k), At(kids[p], k + 1), c)
  {
    var s := kids[p];
    var k := IndexOf(s, a);
    assert ChildAt(l, p, s, k);
    assert l[a].next == To(s[k + 1]);
    assert ChildAt(l, p, s, k + 1);
    NotAChild(l, p, s, c);
  }

  /** When a is c itself, the links spell no child sequences at all. */
  lemma BehindItselfBreaks<N>(l: map<N, Links<N>>, kids: map<N, seq<N>>, p: N, c: N)
    requires c in l && l[c].next.To? && l[c].next != To(c)
    ensures !Linked(PutBehind(l, p, c, c), kids)
  {
    var l' := PutBehind(l, p, c, c);
    forall s: seq<N>, i | 0 <= i < |s| && s[i] == c && Distinct(s) ensures !ChildAt(l', p, s, i) {
      assert l'[c].next == To(c);
    }
    assert l'[c].parent == To(p);
    if p in kids && c in kids[p] {
      var i := IndexOf(kids[p], c);
      assert Distinct(kids[p]) ==> !ChildAt(l', p, kids[p], i);
    }
  }

  /** The next sibling of a child is another child. */
  lemma NextIsSibling<N>(l: map<N, Links<N>>, kids: map<N, seq<N>>, p: N, a: N)
    requires Linked(l, kids) && p in kids && a in kids[p] && a in l && l[a].next.To?
    ensures l[a].next.node in kids[p] && l[a].next.node in l && l[a].next.node != a
  {
    var k := IndexOf(kids[p], a);
    assert ChildAt(l, p, kids[p], k) && ChildAt(l, p, kids[p], k + 1);
  }

  /** A child a that a sibling follows is still followed by one when c is taken out, unless c was that sibling and
      the last. */
  lemma StillFollowed<N>(l: map<N, Links<N>>, kids: map<N, seq<N>>, q: N, c: N, p: N, a: N)
    requires Linked(l, kids) && q in kids && c in kids[q] && p in kids && a in kids[p] && a in l && c in l
    requires l[a].next.To?
    ensures Unlinked(l, q, c)[a].next.To? <==> !(l[a].next == To(c) && l[c].next == Null)
    ensures l[a].next == To(c) ==> p == q && l[c].prev == To(a)
  {
    var i, k := IndexOf(kids[q], c), IndexOf(kids[p], a);
    assert ChildAt(l, q, kids[q], i) && ChildAt(l, p, kids[p], k) && ChildAt(l, p, kids[p], k + 1);
    if i > 0 { assert ChildAt(l, q, kids[q], i - 1); }
    if l[a].next == To(c) { OneParent(l, kids, p, q, c); }
  }

  lemma FollowedByAnother<N>(l: map<N, Links<N>>, kids: map<N, seq<N>>, q: N, c: N, p: N, a: N)
    requires Linked(l, kids) && q in kids && c in kids[q] && q !in kids[q] && p in kids && a in kids[p] && a in l && c in l
    requires Unlinked(l, q, c)[a].next.To? && a != c
    ensures var next := Unlinked(l, q, c)[a].next.node; next in kids && next != c && next != a
    ensures a in Detached(kids, q, c)[p]
  {
    var l', kids' := Unlinked(l, q, c), Detached(kids, q, c);
    UnlinkKeeps(l, kids, q, c);
    StaysAChild(l, kids, q, c, p, a);
    hide Linked, Unlinked, Detached;
    NextIsSibling(l', kids', p, a);
    NotAKid(l', kids', p, c);
    SameNodes(l', kids');
  }

  lemma StaysAChild<N>(l: map<N, Links<N>>, kids: map<N, seq<N>>, q: N, c: N, p: N, a: N)
    requires Linked(l, kids) && q in kids && c in kids[q] && q !in kids[q] && p in kids && a in kids[p] && a != c
    ensures Detached(kids, q, c).Keys == kids.Keys && a in Detached(kids, q, c)[p]
    ensures c in l && Unlinked(l, q, c).Keys == l.Keys && Unlinked(l, q, c)[c].parent == Null
  {
    WithoutSpells(l, q, kids[q], c);
  }

  lemma SameNodes<N>(l: map<N, Links<N>>, kids: map<N, seq<N>>)
    requires Linked(l, kids)
    ensures l.Keys == kids.Keys
  {}

  lemma NotAKid<N>(l: map<N, Links<N>>, kids: map<N, seq<N>>, p: N, c: N)
    requires Linked(l, kids) && p in kids && c in l && l[c].parent == Null
    ensures c !in kids[p]
  {
    NotAChild(l, p, kids[p], c);
  }

  /** What was c's own next sibling. */
  lemma OwnNext<N>(l: map<N, Links<N>>, kids: map<N, seq<N>>, q: N, c: N)
    requires Linked(l, kids) && q in kids && c in kids[q] && c in l && l[c].next.To?
    ensures var l' := Unlinked(l, q, c);
      l'[c].next == l[c].next && l[c].next.node in kids && l[c].next.node != c
  {
    NextIsSibling(l, kids, q, c);
    var i := IndexOf(kids[q], c);
    assert ChildAt(l, q, kids[q], i);
    if i > 0 { assert ChildAt(l, q, kids[q], i - 1); }
  }

  // ---------- no cycles ----------

  /** Every child ranks above its parent. */
  ghost predicate Ranked<N>(kids: map<N, seq<N>>, rank: map<N, nat>) {
    && kids.Keys == rank.Keys
    && forall p, c :: p in kids && c in kids[p] ==> c in kids && rank[p] < rank[c]
  }

  /** A set of nodes that holds the children of its members. */
  ghost predicate ClosedUnder<N>(kids: map<N, seq<N>>, u: set<N>) {
    forall p, c :: p in u && p in kids && c in kids[p] ==> c in u
  }

  /** p is outside the subtree of c: some set of nodes holds c and everything below it, but not p. */
  ghost predicate NotUnder<N>(kids: map<N, seq<N>>, p: N, c: N) {
    exists u :: u <= kids.Keys && c in u && p !in u && ClosedUnder(kids, u)
  }

  ghost function Top<N>(rank: map<N, nat>, nodes: set<N>): (k: nat)
    requires nodes <= rank.Keys
    ensures forall n :: n in nodes ==> rank[n] < k
  {
    if nodes == {} then 0
    else
      var n :| n in nodes;
      var k := Top(rank, nodes - {n});
      if rank[n] < k then k else rank[n] + 1
  }

  /** The ranks once the nodes of u have been moved below everything else. */
  ghost function Lowered<N>(rank: map<N, nat>, u: set<N>): map<N, nat> {
    map n | n in rank :: if n in u then rank[n] + Top(rank, rank.Keys) else rank[n]
  }

  lemma AttachedKeys<N>(kids: map<N, seq<N>>, p: N, i: nat, c: N)
    requires p in kids && i <= |kids[p]|
    ensures Attached(kids, p, i, c).Keys == kids.Keys
  {}

  lemma AttachedMembers<N>(kids: map<N, seq<N>>, p: N, i: nat, c: N, q: N, x: N)
    requires p in kids && i <= |kids[p]| && q in kids
    ensures x in Attached(kids, p, i, c)[q] <==> x in kids[q] || (q == p && x == c)
  {
    if q == p {
      var s := kids[p];
      assert s == s[..i] + s[i..];
    }
  }

  /** Putting c under p closes no cycle when p is outside the subtree of c. */
  lemma AttachStaysRanked<N>(kids: map<N, seq<N>>, rank: map<N, nat>, p: N, i: nat, c: N, u: set<N>)
    requires Ranked(kids, rank) && p in kids && i <= |kids[p]| && c in kids
    requires c in u && p !in u && ClosedUnder(kids, u)
    ensures Ranked(Attached(kids, p, i, c), Lowered(rank, u))
  {
    hide Attached;
    assert Attached(kids, p, i, c).Keys == kids.Keys by { AttachedKeys(kids, p, i, c); }
    var kids', rank', k := Attached(kids, p, i, c), Lowered(rank, u), Top(rank, rank.Keys);
    forall q, x | q in kids' && x in kids'[q] ensures x in kids' && rank'[q] < rank'[x] {
      AttachedMembers(kids, p, i, c, q, x);
    }
  }

  /** And it closes one otherwise. */
  lemma RankedMeansOutside<N>(kids: map<N, seq<N>>, rank: map<N, nat>, p: N, i: nat, c: N)
    requires p in kids && i <= |kids[p]| && c in kids && Ranked(Attached(kids, p, i, c), rank)
    ensures NotUnder(kids, p, c)
  {
    var kids' := Attached(kids, p, i, c);
    var u := set n | n in kids && rank[n] >= rank[c];
    assert kids'[p][i] == c;
    forall q, x | q in u && q in kids && x in kids[q] ensures x in u {
      AttachedMembers(kids, p, i, c, q, x);
      assert q in kids' && x in kids'[q];
      assert x in kids';
    }
    assert c in u && p !in u && ClosedUnder(kids, u);
  }

  lemma DetachStaysRanked<N>(kids: map<N, seq<N>>, rank: map<N, nat>, q: N, c: N)
    requires Ranked(kids, rank) && q in kids && c in kids[q]
    ensures Ranked(Detached(kids, q, c), rank)
  {
    forall x | x in Without(kids[q], c) ensures x in kids[q] {}
  }

  /** Taking c out does not put p under it. */
  lemma DetachStaysOutside<N>(kids: map<N, seq<N>>, q: N, c: N, u: set<N>)
    requires q in kids && c in kids[q] && ClosedUnder(kids, u)
    ensures ClosedUnder(Detached(kids, q, c), u)
  {
    forall x | x in Without(kids[q], c) ensures x in kids[q] {}
  }

  // ---------- removing subtrees ----------

  ghost function Pruned<N>(kids: map<N, seq<N>>, gone: set<N>): map<N, seq<N>> {
    map q | q in kids && q !in gone :: kids[q]
  }

  /** g holds the roots and everything below them, and nothing else. */
  ghost predicate Subtrees<N>(kids: map<N, seq<N>>, roots: set<N>, g: set<N>) {
    && roots <= g <= kids.Keys && ClosedUnder(kids, g)
    && forall u :: u <= kids.Keys && roots <= u && ClosedUnder(kids, u) ==> g <= u
  }

  /** The nodes that rank no lower than n; everything below n is among them. */
  ghost function NotAbove<N>(rank: map<N, nat>, n: N): set<N>
    requires n in rank
  {
    set x | x in rank && rank[x] >= rank[n]
  }

  lemma SubtreeRanksBelow<N>(kids: map<N, seq<N>>, rank: map<N, nat>, n: N, g: set<N>)
    requires Ranked(kids, rank) && n in kids && Subtrees(kids, {n}, g)
    ensures g <= NotAbove(rank, n)
  {
    var u := NotAbove(rank, n);
    assert ClosedUnder(kids, u);
  }

  /** Where DeleteChildren is once it has deleted the first k children of p, that is, the nodes of gone. */
  ghost function Halfway<N>(kids: map<N, seq<N>>, p: N, k: nat, gone: set<N>): map<N, seq<N>>
    requires p in kids && k <= |kids[p]|
  {
    Pruned(kids, gone)[p := kids[p][k..]]
  }

  /** Deleting one more child: its subtree g in what is left is what it was in the beginning. */
  lemma OneMoreChild<N>(kids: map<N, seq<N>>, p: N, k: nat, gone: set<N>, rank: map<N, nat>, g: set<N>)
    requires p in kids && k < |kids[p]| && p !in gone
    requires Ranked(Halfway(kids, p, k, gone), rank)
    requires Subtrees(kids, Elements(kids[p][..k]), gone)
    requires Subtrees(Halfway(kids, p, k + 1, gone), {kids[p][k]}, g)
    ensures p !in g && Subtrees(kids, Elements(kids[p][..k + 1]), gone + g)
    ensures Pruned(Halfway(kids, p, k + 1, gone), g) == Halfway(kids, p, k + 1, gone + g)
  {
    hide Ranked, Pruned, Elements;
    var c, next := kids[p][k], Halfway(kids, p, k + 1, gone);
    FewerKids(kids, p, k, gone, rank);
    NextKeys(kids, p, k + 1, gone);
    SubtreeRanksBelow(next, rank, c, g);
    ClosedTogether(kids, p, gone, next, g);
    hide Subtrees, ClosedUnder;
    AllAndMore(kids, p, k, gone, rank, g);
    PrunedTwice(kids, p, k + 1, gone, g);
  }

  lemma NextKeys<N>(kids: map<N, seq<N>>, p: N, k: nat, gone: set<N>)
    requires p in kids && k <= |kids[p]| && p !in gone
    ensures var next := Halfway(kids, p, k, gone);
      next.Keys == kids.Keys - gone && forall q :: q in next && q != p ==> next[q] == kids[q]
  {}

  lemma PrunedTwice<N>(kids: map<N, seq<N>>, p: N, k: nat, gone: set<N>, g: set<N>)
    requires p in kids && k <= |kids[p]| && p !in g
    ensures Pruned(Halfway(kids, p, k, gone), g) == Halfway(kids, p, k, gone + g)
  {}

  /** One child fewer keeps the ranks; and the child ranks above its parent. */
  lemma FewerKids<N>(kids: map<N, seq<N>>, p: N, k: nat, gone: set<N>, rank: map<N, nat>)
    requires p in kids && k < |kids[p]| && p !in gone && Ranked(Halfway(kids, p, k, gone), rank)
    ensures Ranked(Halfway(kids, p, k + 1, gone), rank)
    ensures kids[p][k] in rank && rank[p] < rank[kids[p][k]]
  {
    var now, next := Halfway(kids, p, k, gone), Halfway(kids, p, k + 1, gone);
    var s, t := kids[p][k..], kids[p][k + 1..];
    assert now[p] == s && next[p] == t && s == [kids[p][k]] + t && now.Keys == next.Keys;
    assert s[0] in now[p];
    forall q, x | q in next && x in next[q] ensures x in next && rank[q] < rank[x] {
      if q != p { assert next[q] == now[q]; }
      assert q in now && x in now[q];
    }
  }

  lemma AllAndMore<N>(kids: map<N, seq<N>>, p: N, k: nat, gone: set<N>, rank: map<N, nat>, g: set<N>)
    requires p in kids && k < |kids[p]| && p !in gone && p !in g
    requires Ranked(Halfway(kids, p, k + 1, gone), rank) && ClosedUnder(kids, gone + g) && gone + g <= kids.Keys
    requires Subtrees(kids, Elements(kids[p][..k]), gone)
    requires Subtrees(Halfway(kids, p, k + 1, gone), {kids[p][k]}, g)
    ensures Subtrees(kids, Elements(kids[p][..k + 1]), gone + g)
  {
    var all, c, next := Elements(kids[p][..k + 1]), kids[p][k], Halfway(kids, p, k + 1, gone);
    assert all == Elements(kids[p][..k]) + {c} by { assert kids[p][..k + 1] == kids[p][..k] + [c]; }
    forall u | u <= kids.Keys && all <= u && ClosedUnder(kids, u) ensures gone + g <= u {
      assert Elements(kids[p][..k]) <= u;
      RestrictClosed(kids, p, k + 1, gone, rank, u);
      var v := u * next.Keys;
      assert v <= next.Keys && {c} <= v;
    }
  }

  lemma ClosedTogether<N>(kids: map<N, seq<N>>, p: N, gone: set<N>, next: map<N, seq<N>>, g: set<N>)
    requires p in kids && p !in g && ClosedUnder(kids, gone) && ClosedUnder(next, g) && g <= next.Keys
    requires forall q :: q in next && q != p ==> q in kids && next[q] == kids[q]
    ensures ClosedUnder(kids, gone + g)
  {}

  lemma RestrictClosed<N>(kids: map<N, seq<N>>, p: N, k: nat, gone: set<N>, rank: map<N, nat>, u: set<N>)
    requires p in kids && k <= |kids[p]| && p !in gone && Ranked(Halfway(kids, p, k, gone), rank) && ClosedUnder(kids, u)
    ensures ClosedUnder(Halfway(kids, p, k, gone), u * Halfway(kids, p, k, gone).Keys)
  {
    var next := Halfway(kids, p, k, gone);
    forall q, x | q in u * next.Keys && q in next && x in next[q] ensures x in u * next.Keys {
      if q == p {
        var j := IndexOf(next[p], x);
        assert kids[p][k + j] == x;
      }
    }
  }

  /** Deleting a node once its children are gone. */
  lemma AndTheNode<N>(kids: map<N, seq<N>>, n: N, gone: set<N>)
    requires n in kids && n !in gone && Subtrees(kids, Elements(kids[n]), gone)
    ensures Subtrees(kids, {n}, gone + {n})
  {
    assert ClosedUnder(kids, gone + {n}) by {
      forall x | x in kids[n] ensures x in gone { assert x in Elements(kids[n]); }
    }
    forall u | u <= kids.Keys && {n} <= u && ClosedUnder(kids, u) ensures gone + {n} <= u {
      assert n in u;
      assert Elements(kids[n]) <= u;
    }
  }

  /** A childless node without a parent can be taken away. */
  lemma RemoveLeaf<N>(l: map<N, Links<N>>, kids: map<N, seq<N>>, n: N)
    requires Linked(l, kids) && n in kids && kids[n] == [] && l[n].parent == Null
    ensures Linked(l - {n}, kids - {n})
  {
    var l', kids' := l - {n}, kids - {n};
    forall p | p in kids' ensures Spells(l', p, kids'[p]) {
      NotAChild(l, p, kids[p], n);
      forall i | 0 <= i < |kids[p]| ensures ChildAt(l', p, kids[p], i) {
        assert ChildAt(l, p, kids[p], i);
      }
    }
  }

  /** A node nothing points to, pointing to nothing, joins as a childless root. */
  lemma NewLeaf<N>(l: map<N, Links<N>>, kids: map<N, seq<N>>, n: N)
    requires Linked(l, kids) && n !in kids
    ensures Linked(l[n := Links(Null, Null, Null, Null, Null)], kids[n := []])
  {
    var l', kids' := l[n := Links(Null, Null, Null, Null, Null)], kids[n := []];
    forall p | p in kids' ensures Spells(l', p, kids'[p]) {
      if p != n {
        forall i | 0 <= i < |kids[p]| ensures ChildAt(l', p, kids[p], i) {
          assert ChildAt(l, p, kids[p], i);
        }
      }
    }
  }

  /** What is below a node does not depend on where the node hangs. */
  lemma SubtreeOfDetached<N>(kids: map<N, seq<N>>, rank: map<N, nat>, q: N, c: N, g: set<N>)
    requires Ranked(kids, rank) && q in kids && c in kids[q] && Subtrees(Detached(kids, q, c), {c}, g)
    ensures Subtrees(kids, {c}, g)
  {
    DetachStaysRanked(kids, rank, q, c);
    SubtreeRanksBelow(Detached(kids, q, c), rank, c, g);
    assert q !in g;
    forall u | u <= kids.Keys && {c} <= u && ClosedUnder(kids, u) ensures g <= u {
      DetachStaysOutside(kids, q, c, u);
    }
  }
}
