// Every run of a SmallObjAllocator: objects of all sizes obtained, written and given back, with or without their size.

module SmallObjRuns {
  import opened BlockMemory
  import opened SmallObjSpec
  import opened SmallObjAllocators

  /** A user's step: obtain n bytes, give back the i-th object held, with its size or without, or store a byte in it. */
  datatype Request = Obtain(n: nat) | Return(i: nat, sized: bool) | Store(i: nat, offset: nat, value: byte)

  /** An object held, and the number of bytes it was obtained for. */
  datatype Object = Object(place: nat, n: nat)

  ghost predicate Covers(s: Blocks, o: Object, x: nat) {
    o.place <= x < o.place + SizeOf(s, o.n)
  }

  /** The objects held are live and at different places, and every byte stored in them is still there. */
  ghost predicate Honoured(s: Blocks, mem: Mem, held: seq<Object>, stored: Mem) {
    && (forall k :: 0 <= k < |held| ==> IsLive(s, mem, held[k].place, held[k].n))
    && (forall j, k :: 0 <= j < k < |held| ==> held[j].place != held[k].place)
    && forall x :: x in stored ==> x in mem && mem[x] == stored[x] && exists k :: 0 <= k < |held| && Covers(s, held[k], x)
  }

  /** No byte belongs to two of the objects held. */
  lemma HeldApart(s: Blocks, mem: Mem, held: seq<Object>, stored: Mem, j: nat, k: nat, x: nat)
    requires Sound(s, mem) && Honoured(s, mem, held, stored) && j < |held| && k < |held| && j != k && Covers(s, held[j], x)
    ensures !Covers(s, held[k], x)
  {
    ObjectsApart(s, mem, held[j].place, held[j].n, held[k].place, held[k].n, x);
  }

  /** Over every run no object handed out overlaps one that is held, what was stored in a held object stays, and the
      allocator stays consistent. Requests that name no object or no byte of it are ignored, and so is one for no bytes
      when there is no pool. */
  method Serve(alloc: SmallObjAllocator, requests: seq<Request>) returns (held: seq<Object>, ghost stored: Mem)
    requires alloc.Consistent()
    modifies alloc, alloc.heap, alloc.pool
    ensures alloc.Consistent() && Honoured(alloc.State(), alloc.heap.mem, held, stored)
  {
    hide Sound, IsLive, Honoured;
    held, stored := [], map[];
    NothingHeld(alloc.State(), alloc.heap.mem);
    var n := 0;
    while n < |requests|
      invariant n <= |requests| && alloc.Consistent() && Honoured(alloc.State(), alloc.heap.mem, held, stored)
    {
      match requests[n] {
        case Obtain(size) =>
          if size > 0 || alloc.maxSmallObjectSize > 0 { held := ServeObtain(alloc, held, size, stored); }
        case Return(i, sized) =>
          if i < |held| { held, stored := ServeReturn(alloc, held, i, sized, stored); }
        case Store(i, offset, value) =>
          if i < |held| && offset < held[i].n { stored := ServeStore(alloc, held, i, offset, value, stored); }
      }
      n := n + 1;
    }
  }

  lemma NothingHeld(s: Blocks, mem: Mem)
    ensures Honoured(s, mem, [], map[])
  {}

  method ServeObtain(alloc: SmallObjAllocator, held: seq<Object>, n: nat, ghost stored: Mem) returns (held': seq<Object>)
    requires alloc.Consistent() && Honoured(alloc.State(), alloc.heap.mem, held, stored) && (n > 0 || alloc.maxSmallObjectSize > 0)
    modifies alloc, alloc.heap, alloc.pool
    ensures alloc.Consistent() && Honoured(alloc.State(), alloc.heap.mem, held', stored)
  {
    hide Sound, IsLive, Honoured;
    ghost var s, mem := alloc.State(), alloc.heap.mem;
    var place := alloc.Allocate(n);
    held' := held + [Object(place, n)];
    forall p: nat, m: nat | IsLive(s, mem, p, m) ensures IsLive(alloc.State(), alloc.heap.mem, p, m) && p != place {
      assert old(alloc.Holds(p, m)) && alloc.Holds(p, m);
    }
    assert alloc.Holds(place, n);
    HonouredAfterObtain(s, mem, held, stored, alloc.State(), alloc.heap.mem, place, n);
  }

  lemma HonouredAfterObtain(s: Blocks, mem: Mem, held: seq<Object>, stored: Mem, s': Blocks, mem': Mem, place: nat, n: nat)
    requires Honoured(s, mem, held, stored) && |s'.pools| == |s.pools|
    requires forall a :: a in mem ==> a in mem' && mem'[a] == mem[a]
    requires forall p: nat, m: nat :: IsLive(s, mem, p, m) ==> IsLive(s', mem', p, m) && p != place
    requires IsLive(s', mem', place, n)
    ensures Honoured(s', mem', held + [Object(place, n)], stored)
  {
    hide IsLive;
    var held' := held + [Object(place, n)];
    assert forall k :: 0 <= k < |held| ==> held'[k] == held[k];
    forall x | x in stored ensures exists k :: 0 <= k < |held'| && Covers(s', held'[k], x) {
      var k :| 0 <= k < |held| && Covers(s, held[k], x);
      assert Covers(s', held'[k], x);
    }
  }

  method ServeReturn(alloc: SmallObjAllocator, held: seq<Object>, i: nat, sized: bool, ghost stored: Mem)
    returns (held': seq<Object>, ghost stored': Mem)
    requires alloc.Consistent() && i < |held| && Honoured(alloc.State(), alloc.heap.mem, held, stored)
    modifies alloc, alloc.heap, alloc.pool
    ensures alloc.Consistent() && Honoured(alloc.State(), alloc.heap.mem, held', stored')
  {
    hide Sound, IsLive, Honoured, GivenBack;
    ghost var s, mem := alloc.State(), alloc.heap.mem;
    var o := held[i];
    HeldIsLive(s, mem, held, stored, i);
    if o.place != 0 {
      if sized { alloc.Deallocate(o.place, o.n); } else { alloc.DeallocateUnsized(o.place, o.n); }
    }
    held' := held[..i] + held[i + 1..];
    stored' := map x | x in stored && !Covers(s, o, x) :: stored[x];
    HonouredAfterReturn(s, mem, held, stored, i, alloc.State(), alloc.heap.mem, held', stored');
  }

  lemma HeldIsLive(s: Blocks, mem: Mem, held: seq<Object>, stored: Mem, i: nat)
    requires Sound(s, mem) && Honoured(s, mem, held, stored) && i < |held|
    ensures IsLive(s, mem, held[i].place, held[i].n) && held[i].place != 0
  {}

  lemma HonouredAfterReturn(s: Blocks, mem: Mem, held: seq<Object>, stored: Mem, i: nat, s': Blocks, mem': Mem,
                            held': seq<Object>, stored': Mem)
    requires Sound(s, mem) && i < |held| && Honoured(s, mem, held, stored) && |s'.pools| == |s.pools|
    requires GivenBack(s, mem, held[i].place, held[i].n, s', mem')
    requires held' == held[..i] + held[i + 1..]
    requires stored' == map x | x in stored && !Covers(s, held[i], x) :: stored[x]
    ensures Honoured(s', mem', held', stored')
  {
    hide Sound, IsLive, GivenBack;
    GivenBackKeeps(s, mem, held[i].place, held[i].n, s', mem');
    assert forall k :: 0 <= k < |held'| ==> held'[k] == held[if k < i then k else k + 1];
    forall x | x in stored' ensures x in mem' && mem'[x] == stored'[x] && exists k :: 0 <= k < |held'| && Covers(s', held'[k], x) {
      var k :| 0 <= k < |held| && Covers(s, held[k], x);
      GivenBackSpares(s, mem, held[i].place, held[i].n, s', mem', held[k].place, held[k].n, x);
      assert Covers(s', held'[if k < i then k else k - 1], x);
    }
  }

  method ServeStore(alloc: SmallObjAllocator, held: seq<Object>, i: nat, offset: nat, value: byte, ghost stored: Mem)
    returns (ghost stored': Mem)
    requires alloc.Consistent() && i < |held| && offset < held[i].n && Honoured(alloc.State(), alloc.heap.mem, held, stored)
    modifies alloc.heap
    ensures alloc.Consistent() && Honoured(alloc.State(), alloc.heap.mem, held, stored')
  {
    hide Sound, IsLive, Honoured;
    ghost var s, mem := alloc.State(), alloc.heap.mem;
    var x := held[i].place + offset;
    HeldIsLive(s, mem, held, stored, i);
    WriteKeeps(s, mem, held[i].place, held[i].n, x, value);
    alloc.heap.mem := alloc.heap.mem[x := value];
    stored' := stored[x := value];
    HonouredAfterStore(s, mem, held, stored, i, x, value);
  }

  lemma HonouredAfterStore(s: Blocks, mem: Mem, held: seq<Object>, stored: Mem, i: nat, x: nat, value: byte)
    requires Honoured(s, mem, held, stored) && i < |held| && Covers(s, held[i], x)
    requires forall a: nat, n: nat :: IsLive(s, mem[x := value], a, n) <==> IsLive(s, mem, a, n)
    ensures Honoured(s, mem[x := value], held, stored[x := value])
  {
    hide IsLive;
  }
}
