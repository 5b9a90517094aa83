// SmallObjAllocator: one FixedAllocator per object size, and the global heap for larger objects.

module SmallObjSpec {
  import opened BlockMemory
  import opened ChunkLists
  import opened FixedPools

  /** The pools, and the blocks from the global operator new with the sizes the runtime keeps for them. */
  datatype Blocks = Blocks(pools: seq<Pool>, large: map<nat, nat>)

  ghost predicate PoolsValid(ps: seq<Pool>, mem: Mem) {
    && (forall i :: 0 <= i < |ps| ==> ps[i].blockSize == i + 1 && Valid(ps[i], mem))
    && (forall i, j, x :: 0 <= i < j < |ps| && InFootprint(ps[i], x) ==> !InFootprint(ps[j], x))
  }

  /** A large block is owned and overlaps neither a pool nor another large block. */
  ghost predicate LargeValid(s: Blocks, mem: Mem) {
    && (forall b :: b in s.large ==> b > 0 && s.large[b] > |s.pools| && Owned(mem, b, s.large[b]))
    && (forall b, x, i :: b in s.large && b <= x < b + s.large[b] && 0 <= i < |s.pools| ==> !InFootprint(s.pools[i], x))
    && (forall b, c :: b in s.large && c in s.large && b != c ==> b + s.large[b] <= c || c + s.large[c] <= b)
  }

  ghost predicate Sound(s: Blocks, mem: Mem) {
    PoolsValid(s.pools, mem) && LargeValid(s, mem)
  }

  /** The pool that serves objects of n bytes; requests for nothing are served as one byte. */
  function PoolIndex(n: nat): nat {
    if n == 0 then 0 else n - 1
  }

  /** a was obtained for n bytes and not given back. */
  ghost predicate IsLive(s: Blocks, mem: Mem, a: nat, n: nat) {
    if n > |s.pools| then a in s.large && s.large[a] == n
    else PoolIndex(n) < |s.pools| && a in Live(s.pools[PoolIndex(n)], mem)
  }

  /** Giving back a, obtained for n bytes. */
  ghost predicate GivenBack(s: Blocks, mem: Mem, a: nat, n: nat, s': Blocks, mem': Mem) {
    if n > |s.pools| then
      a in s.large && s' == s.(large := s.large - {a}) && Released(mem, mem', a, s.large[a])
    else
      var k := PoolIndex(n);
      && k < |s.pools| == |s'.pools| && s'.large == s.large
      && s'.pools == s.pools[k := s'.pools[k]]
      && Deallocated(s.pools[k], mem, a, s'.pools[k], mem')
  }

  /** What giving a block back leaves is determined by the state before, so two ways of doing it that both
      satisfy GivenBack have the same effect. */
  lemma GivenBackIsDetermined(s: Blocks, mem: Mem, a: nat, n: nat, s1: Blocks, mem1: Mem, s2: Blocks, mem2: Mem)
    requires GivenBack(s, mem, a, n, s1, mem1) && GivenBack(s, mem, a, n, s2, mem2)
    ensures s1 == s2 && mem1 == mem2
  {
    hide Deallocated;
    if n > |s.pools| {
      assert mem1.Keys == mem2.Keys;
    } else {
      var k := PoolIndex(n);
      DeallocatedIsDetermined(s.pools[k], mem, a, s1.pools[k], mem1, s2.pools[k], mem2);
    }
  }

  lemma FootprintOwned(p: Pool, mem: Mem, x: nat)
    requires Valid(p, mem) && InFootprint(p, x)
    ensures x in mem
  {
    var k :| 0 <= k < |p.chunks| && p.chunks[k].HasBlock(x, p.ChunkLength());
    assert ValidChunk(mem, p.chunks[k], p.blockSize, p.numBlocks);
  }

  /** A step of pool k that stays inside it, or in memory nobody owned, disturbs nobody else. */
  ghost predicate StepOfPool(s: Blocks, mem: Mem, k: nat, p': Pool, mem': Mem)
    requires k < |s.pools|
  {
    && p'.blockSize == k + 1 && Valid(p', mem')
    && (forall x :: x in mem && !InFootprint(s.pools[k], x) ==> x in mem' && mem'[x] == mem[x])
    && (forall x :: InFootprint(p', x) ==> InFootprint(s.pools[k], x) || x !in mem)
  }

  lemma OthersKept(s: Blocks, mem: Mem, k: nat, p': Pool, mem': Mem)
    requires Sound(s, mem) && k < |s.pools| && StepOfPool(s, mem, k, p', mem')
    ensures Sound(s.(pools := s.pools[k := p']), mem')
    ensures forall i :: 0 <= i < |s.pools| && i != k ==> Live(s.pools[i], mem') == Live(s.pools[i], mem)
  {
    hide Valid, Live, InFootprint;
    var ps, qs := s.pools, s.pools[k := p'];
    forall i | 0 <= i < |ps| && i != k
      ensures Valid(ps[i], mem') && Live(ps[i], mem') == Live(ps[i], mem)
      ensures forall x :: InFootprint(ps[i], x) ==> !InFootprint(p', x)
    {
      forall x | InFootprint(ps[i], x) ensures !InFootprint(ps[k], x) && x in mem {
        FootprintOwned(ps[i], mem, x);
        if i < k { assert !InFootprint(ps[k], x); }
      }
      PoolFrame(ps[i], mem, mem');
    }
    LargeKept(s, mem, k, p', mem');
  }

  lemma LargeKept(s: Blocks, mem: Mem, k: nat, p': Pool, mem': Mem)
    requires LargeValid(s, mem) && k < |s.pools| && StepOfPool(s, mem, k, p', mem')
    ensures LargeValid(s.(pools := s.pools[k := p']), mem')
  {
    hide Valid, InFootprint;
    var s' := s.(pools := s.pools[k := p']);
    forall b | b in s'.large ensures Owned(mem', b, s'.large[b]) {
      forall x: nat | b <= x < b + s.large[b] ensures x in mem' {
        assert Owned(mem, b, s.large[b]) && x in mem;
        assert !InFootprint(s.pools[k], x);
      }
    }
    forall b, x, i | b in s'.large && b <= x < b + s'.large[b] && 0 <= i < |s'.pools| ensures !InFootprint(s'.pools[i], x) {
      assert Owned(mem, b, s.large[b]) && x in mem;
      assert !InFootprint(s.pools[i], x);
    }
  }

  /** A new large block. */
  lemma LargeAdded(s: Blocks, mem: Mem, base: nat, n: nat, mem': Mem)
    requires Sound(s, mem) && n > |s.pools| && Grown(mem, mem', base, n)
    ensures base !in s.large && Sound(s.(large := s.large[base := n]), mem')
    ensures forall i :: 0 <= i < |s.pools| ==> Live(s.pools[i], mem') == Live(s.pools[i], mem)
  {
    hide Valid, Live, InFootprint;
    forall i | 0 <= i < |s.pools| ensures Valid(s.pools[i], mem') && Live(s.pools[i], mem') == Live(s.pools[i], mem) {
      PoolFrame(s.pools[i], mem, mem');
    }
    LargeStillValid(s, mem, base, n, mem');
  }

  lemma LargeStillValid(s: Blocks, mem: Mem, base: nat, n: nat, mem': Mem)
    requires Sound(s, mem) && n > |s.pools| && Grown(mem, mem', base, n)
    ensures base !in s.large && LargeValid(s.(large := s.large[base := n]), mem')
  {
    hide Valid, InFootprint;
    assert base !in mem;
    forall b | b in s.large ensures Owned(mem', b, s.large[b]) && (b + s.large[b] <= base || base + n <= b) {
      assert Owned(mem, b, s.large[b]);
      LargeApart(mem, b, s.large[b], base, n);
    }
    forall x, i | base <= x < base + n && 0 <= i < |s.pools| ensures !InFootprint(s.pools[i], x) {
      if InFootprint(s.pools[i], x) { FootprintOwned(s.pools[i], mem, x); }
    }
  }

  lemma LargeApart(mem: Mem, a: nat, la: nat, b: nat, lb: nat)
    requires Owned(mem, a, la) && Untouched(mem, b, lb) && la > 0 && lb > 0
    ensures a + la <= b || b + lb <= a
  {
    var x := if a <= b then b else a;
    assert a <= x < a + la ==> x in mem;
    assert b <= x < b + lb ==> x !in mem;
  }

  lemma LargeRemoved(s: Blocks, mem: Mem, a: nat, mem': Mem)
    requires Sound(s, mem) && a in s.large && Released(mem, mem', a, s.large[a])
    ensures Sound(s.(large := s.large - {a}), mem')
    ensures forall i :: 0 <= i < |s.pools| ==> Live(s.pools[i], mem') == Live(s.pools[i], mem)
  {
    hide Valid, Live, InFootprint;
    var s' := s.(large := s.large - {a});
    forall i | 0 <= i < |s.pools| ensures Valid(s.pools[i], mem') && Live(s.pools[i], mem') == Live(s.pools[i], mem) {
      PoolFrame(s.pools[i], mem, mem');
    }
    forall b | b in s'.large ensures Owned(mem', b, s.large[b]) {
      assert Owned(mem, b, s.large[b]);
    }
  }

  /** Giving back any live block keeps everything sound and every other live block live. */
  lemma GivenBackKeeps(s: Blocks, mem: Mem, a: nat, n: nat, s': Blocks, mem': Mem)
    requires Sound(s, mem) && IsLive(s, mem, a, n) && GivenBack(s, mem, a, n, s', mem')
    ensures Sound(s', mem')
    ensures forall b: nat, m: nat :: IsLive(s', mem', b, m) <==> IsLive(s, mem, b, m) && !(b == a && SameClass(s, m, n))
  {
    hide Valid, Live, InFootprint, Deallocated;
    if n > |s.pools| {
      LargeRemoved(s, mem, a, mem');
    } else {
      var k := PoolIndex(n);
      DeallocateKeeps(s.pools[k], mem, a, s'.pools[k], mem');
      DeallocateFootprint(s.pools[k], mem, a, s'.pools[k], mem');
      DeallocatedBlockSize(s.pools[k], mem, a, s'.pools[k], mem');
      OthersKept(s, mem, k, s'.pools[k], mem');
      assert s' == s.(pools := s.pools[k := s'.pools[k]]);
    }
  }

  /** Sizes served by the same pool; above the limit each size is its own. */
  ghost predicate SameClass(s: Blocks, m: nat, n: nat) {
    if m > |s.pools| || n > |s.pools| then m == n else PoolIndex(m) == PoolIndex(n)
  }

  // ---------- the bytes of objects ----------

  /** The bytes a user may write in an object obtained for n bytes. */
  function SizeOf(s: Blocks, n: nat): (size: nat)
    ensures size >= n
  {
    if n > |s.pools| then n else PoolIndex(n) + 1
  }

  /** The bytes of a small object lie in its pool's chunks. */
  lemma SmallInside(s: Blocks, mem: Mem, a: nat, n: nat, x: nat)
    requires Sound(s, mem) && IsLive(s, mem, a, n) && n <= |s.pools| && a <= x < a + SizeOf(s, n)
    ensures InFootprint(s.pools[PoolIndex(n)], x) && x in mem
  {
    hide LargeValid;
    var p := s.pools[PoolIndex(n)];
    BytesInside(p, mem, a, x);
  }

  lemma BytesInside(p: Pool, mem: Mem, a: nat, x: nat)
    requires Valid(p, mem) && a in Live(p, mem) && a <= x < a + p.blockSize
    ensures InFootprint(p, x) && x in mem
  {
    hide Offset, LiveIn, ValidChunk;
    OwnLive(p, mem, a);
    var k :| 0 <= k < |p.chunks| && a in LiveOf(p, mem, k);
    StoreInside(p, mem, a, k, x);
  }

  /** No byte belongs to two objects. */
  lemma ObjectsApart(s: Blocks, mem: Mem, a: nat, n: nat, b: nat, m: nat, x: nat)
    requires Sound(s, mem) && IsLive(s, mem, a, n) && IsLive(s, mem, b, m) && a != b
    requires a <= x < a + SizeOf(s, n)
    ensures !(b <= x < b + SizeOf(s, m))
  {
    hide Valid, Live, InFootprint;
    if n <= |s.pools| {
      SmallInside(s, mem, a, n, x);
      if m <= |s.pools| {
        if PoolIndex(n) == PoolIndex(m) {
          LiveBlocksDisjoint(s.pools[PoolIndex(n)], mem, a, b);
        } else {
          PoolsApart(s, mem, PoolIndex(n), PoolIndex(m), x);
          if b <= x < b + SizeOf(s, m) { SmallInside(s, mem, b, m, x); }
        }
      }
    } else if m <= |s.pools| {
      if b <= x < b + SizeOf(s, m) { SmallInside(s, mem, b, m, x); }
    }
  }

  lemma PoolsApart(s: Blocks, mem: Mem, i: nat, j: nat, x: nat)
    requires PoolsValid(s.pools, mem) && i < |s.pools| && j < |s.pools| && i != j && InFootprint(s.pools[i], x)
    ensures !InFootprint(s.pools[j], x)
  {
    hide Valid, InFootprint;
    if i > j { assert forall y :: InFootprint(s.pools[j], y) ==> !InFootprint(s.pools[i], y); }
  }

  /** Giving back an object changes no byte of any other object, small or large. */
  lemma GivenBackSpares(s: Blocks, mem: Mem, a: nat, n: nat, s': Blocks, mem': Mem, b: nat, m: nat, x: nat)
    requires Sound(s, mem) && IsLive(s, mem, a, n) && GivenBack(s, mem, a, n, s', mem')
    requires IsLive(s, mem, b, m) && b != a && b <= x < b + SizeOf(s, m)
    ensures x in mem && x in mem' && mem'[x] == mem[x]
  {
    hide Valid, Live, InFootprint, Deallocated;
    if m <= |s.pools| { SmallInside(s, mem, b, m, x); } else { assert Owned(mem, b, s.large[b]); }
    if n > |s.pools| {
      ObjectsApart(s, mem, b, m, a, n, x);
    } else {
      var k := PoolIndex(n);
      if m <= |s.pools| && PoolIndex(m) == k {
        DeallocateSpares(s.pools[k], mem, a, s'.pools[k], mem', b);
      } else {
        OutsidePool(s, mem, b, m, x, k);
        DeallocateFootprint(s.pools[k], mem, a, s'.pools[k], mem');
      }
    }
  }

  /** The bytes of an object lie outside all pools but its own. */
  lemma OutsidePool(s: Blocks, mem: Mem, b: nat, m: nat, x: nat, k: nat)
    requires Sound(s, mem) && IsLive(s, mem, b, m) && b <= x < b + SizeOf(s, m)
    requires k < |s.pools| && (m <= |s.pools| ==> PoolIndex(m) != k)
    ensures !InFootprint(s.pools[k], x)
  {
    hide Valid, Live, InFootprint;
    if m <= |s.pools| {
      SmallInside(s, mem, b, m, x);
      PoolsApart(s, mem, PoolIndex(m), k, x);
    }
  }

  /** A user's write into an object leaves everything sound and live. */
  lemma WriteKeeps(s: Blocks, mem: Mem, b: nat, m: nat, x: nat, v: byte)
    requires Sound(s, mem) && IsLive(s, mem, b, m) && b <= x < b + SizeOf(s, m)
    ensures x in mem && Sound(s, mem[x := v])
    ensures forall a: nat, n: nat :: IsLive(s, mem[x := v], a, n) <==> IsLive(s, mem, a, n)
  {
    hide Valid, Live, InFootprint;
    if m <= |s.pools| { SmallInside(s, mem, b, m, x); } else { assert Owned(mem, b, s.large[b]); }
    var mem' := mem[x := v];
    forall i | 0 <= i < |s.pools| ensures Valid(s.pools[i], mem') && Live(s.pools[i], mem') == Live(s.pools[i], mem) {
      if m <= |s.pools| && PoolIndex(m) == i {
        StoreKeeps(s.pools[i], mem, b, x, v);
      } else {
        OutsidePool(s, mem, b, m, x, i);
        PoolFrame(s.pools[i], mem, mem');
      }
    }
    forall c | c in s.large ensures Owned(mem', c, s.large[c]) { assert Owned(mem, c, s.large[c]); }
  }

  lemma DeallocatedBlockSize(p: Pool, mem: Mem, a: nat, p': Pool, mem': Mem)
    requires Deallocated(p, mem, a, p', mem')
    ensures p'.blockSize == p.blockSize
  {
    SettleShape(PutPool(p, a, Owner(p, a)));
  }
}

module SmallObjAllocators {
  import opened BlockMemory
  import opened FixedPools
  import opened FixedAllocators
  import opened SmallObjSpec

  class SmallObjAllocator {
    const heap: Heap
    const pageSize: nat
    const maxSmallObjectSize: nat
    const pool: seq<FixedAllocator>
    var large: map<nat, nat>

    /** Everything handed out, as a value. */
    ghost function State(): (s: Blocks)
      reads this, pool
      ensures |s.pools| == |pool|
    {
      Blocks(seq(|pool|, i requires 0 <= i < |pool| reads pool => pool[i].State()), large)
    }

    ghost predicate Wired() {
      && |pool| == maxSmallObjectSize
      && (forall i :: 0 <= i < |pool| ==> pool[i].heap == heap)
      && (forall i, j :: 0 <= i < j < |pool| ==> pool[i] != pool[j])
    }

    ghost predicate Consistent()
      reads this, heap, pool
    {
      Wired() && Sound(State(), heap.mem)
    }

    ghost predicate Holds(p: nat, n: nat)
      reads this, heap, pool
    {
      IsLive(State(), heap.mem, p, n)
    }

    constructor (heap: Heap, pageSize: nat, maxObjSize: nat)
      modifies heap
      ensures Consistent() && maxSmallObjectSize == maxObjSize && this.heap == heap && heap.mem == old(heap.mem)
      ensures forall p: nat, n: nat :: !Holds(p, n)
    {
      hide Valid, Live, InFootprint;
      var pools := MakePools(heap, pageSize, maxObjSize);
      this.heap, this.pageSize, this.maxSmallObjectSize := heap, pageSize, maxObjSize;
      pool := pools;
      large := map[];
      new;
      EmptyIsSound(State(), heap.mem);
    }

    /** new FixedAllocator[n], each initialised for its own size. */
    static method MakePools(heap: Heap, pageSize: nat, n: nat) returns (pools: seq<FixedAllocator>)
      ensures |pools| == n
      ensures forall i :: 0 <= i < n ==>
        fresh(pools[i]) && pools[i].heap == heap && pools[i].blockSize == i + 1 && pools[i].Consistent() && pools[i].chunks == []
      ensures forall i, j :: 0 <= i < j < n ==> pools[i] != pools[j]
    {
      hide Valid, Live;
      pools := [];
      while |pools| < n
        invariant |pools| <= n
        invariant forall i :: 0 <= i < |pools| ==>
          fresh(pools[i]) && pools[i].heap == heap && pools[i].blockSize == i + 1 && pools[i].Consistent() && pools[i].chunks == []
        invariant forall i, j :: 0 <= i < j < |pools| ==> pools[i] != pools[j]
      {
        var p := new FixedAllocator(heap, |pools| + 1, pageSize);
        pools := pools + [p];
      }
    }

    /** SmallObjAllocator::Allocate; an allocator without pools cannot serve a request for nothing. */
    method Allocate(numBytes: nat) returns (place: nat)
      requires Consistent() && (numBytes > 0 || maxSmallObjectSize > 0)
      modifies this, heap, pool
      ensures Consistent()
      ensures forall a :: a in old(heap.mem) ==> a in heap.mem && heap.mem[a] == old(heap.mem)[a]
      ensures forall p: nat, n: nat :: Holds(p, n) <==> old(Holds(p, n)) || (p == place && SameClass(State(), n, numBytes))
      ensures forall n: nat :: !old(Holds(place, n))
    {
      ghost var s, mem := State(), heap.mem;
      if numBytes > maxSmallObjectSize {
        place := heap.New(numBytes);
        LargeAdded(s, mem, place, numBytes, heap.mem);
        large := large[place := numBytes];
        NewIsNotLive(s, mem, place);
        assert State() == s.(large := s.large[place := numBytes]);
      } else {
        var n := if numBytes == 0 then 1 else numBytes;
        place := AllocateSmall(n - 1);
      }
    }

    /** The pool's own Allocate. */
    method AllocateSmall(k: nat) returns (place: nat)
      requires Consistent() && k < |pool|
      modifies heap, pool[k]
      ensures Consistent() && large == old(large)
      ensures forall a :: a in old(heap.mem) ==> a in heap.mem && heap.mem[a] == old(heap.mem)[a]
      ensures forall p: nat, n: nat :: Holds(p, n) <==> old(Holds(p, n)) || (p == place && n <= |pool| && PoolIndex(n) == k)
      ensures forall n: nat :: !old(Holds(place, n))
    {
      hide Valid, Live, InFootprint;
      ghost var s, mem := State(), heap.mem;
      assert pool[k].State() == s.pools[k] && Valid(s.pools[k], mem);
      place := pool[k].Allocate();
      ghost var q := pool[k].State();
      OthersKept(s, mem, k, q, heap.mem);
      assert State() == s.(pools := s.pools[k := q]);
      FreshPlace(s, mem, k, q, heap.mem, place);
    }

    /** SmallObjAllocator::Deallocate( p, numBytes ); 0 is NULL. */
    method Deallocate(p: nat, numBytes: nat)
      requires Consistent() && (p != 0 ==> Holds(p, numBytes))
      modifies this, heap, pool
      ensures Consistent()
      ensures p == 0 ==> State() == old(State()) && heap.mem == old(heap.mem)
      ensures p != 0 ==> GivenBack(old(State()), old(heap.mem), p, numBytes, State(), heap.mem)
    {
      hide Valid, Live, InFootprint, Deallocated;
      if p == 0 { return; }
      ghost var s, mem := State(), heap.mem;
      if numBytes > maxSmallObjectSize {
        DefaultDeallocator(p);
      } else {
        var n := if numBytes == 0 then 1 else numBytes;
        var found := DeallocateIn(n - 1, p, -1);
        assert found;
      }
      GivenBackKeeps(s, mem, p, numBytes, State(), heap.mem);
    }

    /** SmallObjAllocator::Deallocate( p ): looks for the owner in every pool. It has the effect of the sized form
        with the size the block was obtained for. */
    method DeallocateUnsized(p: nat, ghost numBytes: nat)
      requires Consistent() && (p != 0 ==> Holds(p, numBytes))
      modifies this, heap, pool
      ensures Consistent()
      ensures p == 0 ==> State() == old(State()) && heap.mem == old(heap.mem)
      ensures p != 0 ==> GivenBack(old(State()), old(heap.mem), p, numBytes, State(), heap.mem)
    {
      hide Valid, Live, InFootprint, Deallocated, Sound;
      if p == 0 { return; }
      ghost var s, mem := State(), heap.mem;
      var i, chunk := FindOwner(p, numBytes);
      if i == maxSmallObjectSize {
        DefaultDeallocator(p);
      } else {
        var found := DeallocateIn(i, p, chunk);
        assert found;
      }
      GivenBackKeeps(s, mem, p, numBytes, State(), heap.mem);
    }

    /** The scan over the pools: the one that contains p, and its chunk. */
    method FindOwner(p: nat, ghost numBytes: nat) returns (i: nat, chunk: int)
      requires Consistent() && Holds(p, numBytes)
      ensures if numBytes > |pool| then i == |pool| && p in large else i == PoolIndex(numBytes) < |pool| && p in pool[i].LiveBlocks()
      ensures i < |pool| ==> 0 <= chunk < |pool[i].chunks| && chunk == Owner(pool[i].State(), p)
    {
      hide Valid, Live, InFootprint, Sound;
      ghost var s := State();
      i, chunk := 0, -1;
      while i < maxSmallObjectSize
        invariant i <= maxSmallObjectSize && chunk == -1
        invariant forall j :: 0 <= j < i ==> Owner(s.pools[j], p) == -1
      {
        assert pool[i].State() == s.pools[i];
        chunk := pool[i].HasBlock(p);
        if chunk != -1 { break; }
        i := i + 1;
      }
      ScanFinds(s, heap.mem, p, numBytes, i);
    }

    /** operator delete. */
    method DefaultDeallocator(p: nat)
      requires Wired() && p in large
      modifies this, heap
      ensures State() == old(State()).(large := old(large) - {p})
      ensures Released(old(heap.mem), heap.mem, p, old(large)[p])
    {
      ghost var s := State();
      heap.Delete(p, large[p]);
      large := large - {p};
      assert State() == s.(large := s.large - {p});
    }

    /** The pool's own Deallocate. */
    method DeallocateIn(k: nat, p: nat, hint: int) returns (found: bool)
      requires Consistent() && k < |pool| && p in pool[k].LiveBlocks()
      requires hint == -1 || (0 <= hint < |pool[k].chunks| && hint == Owner(pool[k].State(), p))
      modifies heap, pool[k]
      ensures found && large == old(large) && |State().pools| == |pool|
      ensures State().pools == old(State()).pools[k := State().pools[k]]
      ensures Deallocated(old(State()).pools[k], old(heap.mem), p, State().pools[k], heap.mem)
    {
      hide Valid, Live, InFootprint, Deallocated;
      ghost var s, mem := State(), heap.mem;
      assert pool[k].State() == s.pools[k] && Valid(s.pools[k], mem);
      LiveInFootprint(s.pools[k], mem, p);
      HasChunks(s.pools[k], p);
      found := pool[k].Deallocate(p, hint);
      assert State().pools == s.pools[k := pool[k].State()];
    }
  }

  lemma EmptyIsSound(s: Blocks, mem: Mem)
    requires s.large == map[]
    requires forall i :: 0 <= i < |s.pools| ==> s.pools[i].blockSize == i + 1 && Valid(s.pools[i], mem) && s.pools[i].chunks == []
    ensures Sound(s, mem) && forall a: nat, n: nat :: !IsLive(s, mem, a, n)
  {
    hide Valid;
    assert forall i, x :: 0 <= i < |s.pools| ==> !InFootprint(s.pools[i], x);
  }

  lemma HasChunks(p: Pool, a: nat)
    requires InFootprint(p, a)
    ensures p.chunks != []
  {}

  /** The pool scan of HasBlock finds an owner exactly inside the footprint. */
  lemma OwnerIffInside(p: Pool, a: nat)
    ensures Owner(p, a) != -1 <==> InFootprint(p, a)
  {
    var k := Owner(p, a);
    if k >= 0 { assert p.chunks[k].HasBlock(a, p.ChunkLength()); }
  }

  /** A place inside one pool is in no other pool and in no large block. */
  lemma InsideIsElsewhere(s: Blocks, mem: Mem, k: nat, x: nat)
    requires Sound(s, mem) && k < |s.pools| && InFootprint(s.pools[k], x)
    ensures forall j :: 0 <= j < |s.pools| && j != k ==> !InFootprint(s.pools[j], x)
    ensures x !in s.large
  {
    hide Valid, InFootprint;
    forall b | b in s.large ensures !InFootprint(s.pools[k], b) {
      assert b <= b < b + s.large[b];
    }
    forall j | 0 <= j < |s.pools| && j != k ensures !InFootprint(s.pools[j], x) {
      if k < j { assert forall y :: InFootprint(s.pools[k], y) ==> !InFootprint(s.pools[j], y); }
      if j < k { assert forall y :: InFootprint(s.pools[j], y) ==> !InFootprint(s.pools[k], y); }
    }
  }

  lemma OutsideIsNotLive(p: Pool, mem: Mem, x: nat)
    requires Valid(p, mem) && !InFootprint(p, x)
    ensures x !in Live(p, mem)
  {
    hide Valid, Live, InFootprint;
    forall y | y in Live(p, mem) ensures InFootprint(p, y) {
      LiveInFootprint(p, mem, y);
    }
  }

  lemma UnownedIsOutside(p: Pool, mem: Mem, x: nat)
    requires Valid(p, mem) && x !in mem
    ensures !InFootprint(p, x)
  {
    hide Valid, InFootprint;
    forall y | InFootprint(p, y) ensures y in mem {
      FootprintOwned(p, mem, y);
    }
  }

  /** The scan over the pools stops at the pool the block came from, or runs through for a large block. */
  lemma ScanFinds(s: Blocks, mem: Mem, a: nat, n: nat, i: nat)
    requires Sound(s, mem) && IsLive(s, mem, a, n) && i <= |s.pools|
    requires forall j :: 0 <= j < i ==> Owner(s.pools[j], a) == -1
    requires i < |s.pools| ==> Owner(s.pools[i], a) != -1
    ensures if n > |s.pools| then i == |s.pools| else i == PoolIndex(n) < |s.pools|
  {
    hide Valid, Live, Offset, InFootprint, Owner;
    forall j | 0 <= j < |s.pools| ensures Owner(s.pools[j], a) != -1 <==> InFootprint(s.pools[j], a) {
      OwnerIffInside(s.pools[j], a);
    }
    if n > |s.pools| {
      assert a <= a < a + s.large[a];
    } else {
      LiveInFootprint(s.pools[PoolIndex(n)], mem, a);
      InsideIsElsewhere(s, mem, PoolIndex(n), a);
    }
  }

  /** A block a pool newly hands out was live nowhere. */
  lemma FreshPlace(s: Blocks, mem: Mem, k: nat, q: Pool, mem': Mem, place: nat)
    requires Sound(s, mem) && k < |s.pools| && StepOfPool(s, mem, k, q, mem')
    requires place in Live(q, mem') && place !in Live(s.pools[k], mem)
    ensures forall n: nat :: !IsLive(s, mem, place, n)
  {
    hide Valid, Live, InFootprint;
    LiveInFootprint(q, mem', place);
    if place !in mem {
      NewIsNotLive(s, mem, place);
    } else {
      InsideIsElsewhere(s, mem, k, place);
      forall j | 0 <= j < |s.pools| && j != k ensures place !in Live(s.pools[j], mem) {
        OutsideIsNotLive(s.pools[j], mem, place);
      }
    }
  }

  /** Addresses nobody owned are not live. */
  lemma NewIsNotLive(s: Blocks, mem: Mem, a: nat)
    requires Sound(s, mem) && a !in mem
    ensures forall n: nat :: !IsLive(s, mem, a, n)
  {
    hide Valid, Live, InFootprint;
    forall b | b in s.large ensures b in mem {
      assert Owned(mem, b, s.large[b]);
    }
    forall j | 0 <= j < |s.pools| ensures a !in Live(s.pools[j], mem) {
      UnownedIsOutside(s.pools[j], mem, a);
      OutsideIsNotLive(s.pools[j], mem, a);
    }
  }
}
