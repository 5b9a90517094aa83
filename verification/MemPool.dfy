// MemPoolT: items of one size in blocks, with a free list threaded through the items that are not in use.

module MemPools {
  import opened Sequences

  /** An item is named by its place: item i of block b is b * itemsPerBlock + i. NULL stands for the null pointer. */
  const NULL := -1

  function Head(list: seq<nat>): int {
    if list == [] then NULL else list[0]
  }

  function After(list: seq<nat>, i: nat): int {
    if i + 1 < |list| then list[i + 1] else NULL
  }

  /** Following next from root visits list and ends. */
  ghost predicate Threads(root: int, next: seq<int>, list: seq<nat>) {
    && root == Head(list)
    && (forall i :: 0 <= i < |list| ==> list[i] < |next| && next[list[i]] == After(list, i))
    && Distinct(list)
  }

  /** The list is determined by the links: two enumerations of one free list are the same. */
  lemma {:induction false} ThreadsIsDetermined(root: int, next: seq<int>, a: seq<nat>, b: seq<nat>)
    requires Threads(root, next, a) && Threads(root, next, b)
    ensures a == b
    decreases |a|
  {
    HeadIsRoot(root, next, a);
    HeadIsRoot(root, next, b);
    if a != [] {
      hide Threads;
      ThreadsTail(root, next, a);
      ThreadsTail(root, next, b);
      ThreadsIsDetermined(next[root], next, a[1..], b[1..]);
      assert a == [a[0]] + a[1..] && b == [b[0]] + b[1..];
    }
  }

  lemma HeadIsRoot(root: int, next: seq<int>, list: seq<nat>)
    requires Threads(root, next, list)
    ensures if list == [] then root == NULL else root == list[0] < |next|
  {}

  lemma ThreadsTail(root: int, next: seq<int>, list: seq<nat>)
    requires Threads(root, next, list) && list != []
    ensures list[0] < |next| && Threads(next[list[0]], next, list[1..])
  {
    var tail := list[1..];
    forall i | 0 <= i < |tail| ensures next[tail[i]] == After(tail, i) {
      assert tail[i] == list[i + 1] && After(tail, i) == After(list, i + 1);
    }
    assert next[list[0]] == Head(tail);
  }

  /** Writing to an item outside the list leaves the list alone. */
  lemma ThreadsSpares(root: int, next: seq<int>, list: seq<nat>, item: nat, value: int)
    requires Threads(root, next, list) && item < |next| && item !in list
    ensures Threads(root, next[item := value], list)
  {}

  lemma ThreadsPush(root: int, next: seq<int>, list: seq<nat>, item: nat)
    requires Threads(root, next, list) && item < |next| && item !in list
    ensures Threads(item, next[item := root], [item] + list)
  {
    var longer, next' := [item] + list, next[item := root];
    LinkedAfterPush(root, next, list, item);
    DistinctAfterPush(list, item);
    assert forall i :: 0 <= i < |longer| ==> longer[i] < |next'| && next'[longer[i]] == After(longer, i);
  }

  lemma LinkedAfterPush(root: int, next: seq<int>, list: seq<nat>, item: nat)
    requires Threads(root, next, list) && item < |next| && item !in list
    ensures forall i :: 0 <= i <= |list| ==>
      ([item] + list)[i] < |next| && next[item := root][([item] + list)[i]] == After([item] + list, i)
  {
    var longer, next' := [item] + list, next[item := root];
    forall i | 0 <= i < |longer| ensures longer[i] < |next'| && next'[longer[i]] == After(longer, i) {
      if i > 0 {
        assert longer[i] == list[i - 1] != item;
        assert next'[list[i - 1]] == next[list[i - 1]] == After(list, i - 1);
      }
    }
  }

  lemma DistinctAfterPush(list: seq<nat>, item: nat)
    requires item !in list && forall i, j :: 0 <= i < j < |list| ==> list[i] != list[j]
    ensures forall i, j :: 0 <= i < j <= |list| ==> ([item] + list)[i] != ([item] + list)[j]
  {
    var longer := [item] + list;
    forall i, j | 0 <= i < j < |longer| ensures longer[i] != longer[j] {
      assert longer[j] == list[j - 1];
      if i > 0 { assert longer[i] == list[i - 1]; }
    }
  }

  /** The items of a new block, in order. */
  function Run(from: nat, n: nat): (s: seq<nat>)
    ensures |s| == n && forall i :: 0 <= i < n ==> s[i] == from + i
  {
    seq(n, i requires 0 <= i < n => from + i)
  }

  lemma ChainedBlock(next: seq<int>, block: nat, n: nat)
    requires n > 0 && |next| == block + n && next[block + n - 1] == NULL
    requires forall k :: block <= k < block + n - 1 ==> next[k] == k + 1
    ensures Threads(block, next, Run(block, n)) && forall i: nat :: i in Run(block, n) <==> block <= i < |next|
  {
    var list := Run(block, n);
    forall i: nat | block <= i < |next| ensures i in list {
      assert list[i - block] == i;
    }
  }

  /** Each of the n items is either free or live. */
  ghost predicate Partition(free: seq<nat>, live: set<nat>, n: nat) {
    && (forall i: nat :: i in free <==> i < n && i !in live)
    && (forall i :: i in live ==> i < n)
  }

  lemma NothingThreads(next: seq<int>)
    requires next == []
    ensures Threads(NULL, next, []) && Partition([], {}, 0)
  {}

  lemma TwoParts(free: seq<nat>, live: set<nat>, n: nat)
    requires Partition(free, live, n)
    ensures |live| + |Elements(free)| == n
  {
    assert live + Elements(free) == Upto(n) && live * Elements(free) == {};
  }

  lemma NothingFree(free: seq<nat>, live: set<nat>, n: nat, m: nat, added: seq<nat>)
    requires Partition(free, live, n) && free == [] && n <= m
    requires forall i: nat :: i in added <==> n <= i < m
    ensures Partition(added, live, m)
  {}

  lemma LiveInside(free: seq<nat>, live: set<nat>, n: nat)
    requires Partition(free, live, n)
    ensures forall i :: i in live ==> i < n
  {}

  lemma RootOfEmpty(root: int, next: seq<int>, free: seq<nat>)
    requires Threads(root, next, free)
    ensures root == NULL <==> free == []
  {}

  /** Handing out the head of the free list. */
  lemma TakeHead(root: int, next: seq<int>, free: seq<nat>, live: set<nat>)
    requires Threads(root, next, free) && Partition(free, live, |next|) && free != []
    ensures root == free[0] && 0 <= root < |next| && free[0] !in live
    ensures Threads(next[root], next, free[1..]) && Partition(free[1..], live + {free[0]}, |next|)
  {
    ThreadsTail(root, next, free);
    var rest := free[1..];
    assert forall i: nat :: i in free <==> i == free[0] || i in rest by { assert free == [free[0]] + rest; }
    assert free[0] !in rest;
  }

  /** Taking an item back in front of the free list. */
  lemma PutHead(root: int, next: seq<int>, free: seq<nat>, live: set<nat>, item: nat)
    requires Threads(root, next, free) && Partition(free, live, |next|) && item in live
    ensures item < |next|
    ensures Threads(item, next[item := root], [item] + free) && Partition([item] + free, live - {item}, |next|)
  {
    ThreadsPush(root, next, free, item);
  }

  class MemPoolT {
    const itemsPerBlock: nat
    var blockPtrs: nat         // how many blocks there are
    var next: seq<int>         // what each item holds where a free item keeps its next pointer
    var root: int
    var currentAllocs: int
    var nAllocs: int
    var maxAllocs: int
    var nUntracked: int
    ghost var live: set<nat>   // handed out and not given back
    ghost var free: seq<nat>   // the free list

    ghost predicate Valid()
      reads this
    {
      && itemsPerBlock > 0 && |next| == blockPtrs * itemsPerBlock
      && Threads(root, next, free)
      && Partition(free, live, |next|)
      && currentAllocs == |live| <= maxAllocs
    }

    /** Free and live items together are all there are. */
    lemma Conservation()
      requires Valid()
      ensures |live| + |free| == blockPtrs * itemsPerBlock && |free| == |next| - currentAllocs
    {
      TwoParts(free, live, |next|);
    }

    constructor (itemSize: nat)
      requires 0 < itemSize <= 4 * 1024
      ensures Valid() && live == {} && nUntracked == 0 && currentAllocs == 0
    {
      itemsPerBlock := 4 * 1024 / itemSize;
      blockPtrs := 0;
      next := [];
      root := NULL;
      currentAllocs := 0;
      nAllocs := 0;
      maxAllocs := 0;
      nUntracked := 0;
      live := {};
      free := [];
    }

    method Clear()
      requires Valid()
      modifies this
      ensures Valid() && live == {} && free == [] && currentAllocs == nUntracked == 0
    {
      hide Threads, Partition;
      while blockPtrs > 0
        invariant |next| == blockPtrs * itemsPerBlock
        modifies this`blockPtrs, this`next
      {
        LastBlock(blockPtrs, itemsPerBlock);
        blockPtrs := blockPtrs - 1;
        next := next[..blockPtrs * itemsPerBlock];
      }
      NothingThreads(next);
      root := NULL;
      currentAllocs := 0;
      nAllocs := 0;
      maxAllocs := 0;
      nUntracked := 0;
      live := {};
      free := [];
    }

    /** A block whose items are chained in order becomes the free list. The block's memory starts out arbitrary. */
    method AddBlock(memory: seq<int>)
      requires Valid() && free == [] && |memory| == itemsPerBlock
      modifies this
      ensures Valid() && live == old(live) && free == Run(|old(next)|, itemsPerBlock)
      ensures next[..|old(next)|] == old(next) && blockPtrs == old(blockPtrs) + 1
      ensures currentAllocs == old(currentAllocs) && nUntracked == old(nUntracked) && nAllocs == old(nAllocs)
      ensures maxAllocs == old(maxAllocs)
    {
      hide Threads, Partition, Run;
      LastBlock(blockPtrs + 1, itemsPerBlock);
      var block := |next|;
      next := next + memory;
      blockPtrs := blockPtrs + 1;
      for i := 0 to itemsPerBlock - 1
        invariant |next| == block + itemsPerBlock && next[..block] == old(next)
        invariant forall k :: block <= k < block + i ==> next[k] == k + 1
        modifies this`next
      {
        next := next[block + i := block + i + 1];
      }
      next := next[block + itemsPerBlock - 1 := NULL];
      root := block;
      free := Run(block, itemsPerBlock);
      ChainedBlock(next, block, itemsPerBlock);
      assert Partition(free, live, |next|) by { NothingFree(old(free), live, block, |next|, free); }
    }

    /** Hands out an item that is not live: the head of the free list, or the first item of a new block. */
    method Alloc(memory: seq<int>) returns (result: nat)
      requires Valid() && |memory| == itemsPerBlock
      modifies this
      ensures Valid() && result !in old(live) && live == old(live) + {result}
      ensures var list := if old(free) == [] then Run(|old(next)|, itemsPerBlock) else old(free);
        result == list[0] && free == list[1..]
      ensures forall i :: i in old(live) ==> next[i] == old(next[i])
      ensures currentAllocs == old(currentAllocs) + 1 && nUntracked == old(nUntracked) + 1
    {
      hide Threads, Partition, Run;
      RootOfEmpty(root, next, free);
      LiveInside(free, live, |next|);
      if root == NULL {
        AddBlock(memory);
      }
      TakeHead(root, next, free, live);
      result := root;
      root := next[root];
      currentAllocs := currentAllocs + 1;
      if currentAllocs > maxAllocs {
        maxAllocs := currentAllocs;
      }
      nAllocs := nAllocs + 1;
      nUntracked := nUntracked + 1;
      live := live + {result};
      free := free[1..];
    }

    /** Takes back an item; it will be the next one handed out. */
    method Free(item: nat)
      requires Valid() && item in live
      modifies this
      ensures Valid() && live == old(live) - {item} && free == [item] + old(free)
      ensures forall i :: i in live ==> next[i] == old(next[i])
      ensures currentAllocs == old(currentAllocs) - 1 && nUntracked == old(nUntracked)
    {
      hide Threads, Partition;
      currentAllocs := currentAllocs - 1;
      PutHead(root, next, free, live, item);
      next := next[item := root];
      root := item;
      live := live - {item};
      free := [item] + free;
    }

    /** The user of a live item writes to it, over the place of the next pointer. */
    method Write(item: nat, value: int)
      requires Valid() && item in live
      modifies this`next
      ensures Valid() && next == old(next)[item := value]
    {
      ThreadsSpares(root, next, free, item, value);
      next := next[item := value];
    }

    method SetTracked()
      requires Valid()
      modifies this`nUntracked
      ensures Valid() && nUntracked == old(nUntracked) - 1
    {
      nUntracked := nUntracked - 1;
    }
  }

  lemma LastBlock(blocks: nat, per: nat)
    requires blocks > 0
    ensures blocks * per == (blocks - 1) * per + per
  {}
}
