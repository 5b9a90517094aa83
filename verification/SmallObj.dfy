// FixedAllocator and SmallObjAllocator over one shared memory.

module FixedAllocators {
  import opened BlockMemory
  import opened Sequences
  import opened ChunkLists
  import opened FixedPools

  /** operator new[] and delete[] on raw bytes. */
  class Heap {
    var mem: Mem

    constructor ()
      ensures mem == map[]
    {
      mem := map[];
    }

    /** new unsigned char[len]: addresses nobody owns, with unspecified contents. */
    method New(len: nat) returns (base: nat)
      modifies this
      ensures Grown(old(mem), mem, base, len)
    {
      var keys := mem.Keys;
      base := 1;
      while keys != {}
        invariant base > 0 && forall a :: a in mem && a !in keys ==> a < base
        decreases keys
      {
        var k :| k in keys;
        if k >= base { base := k + 1; }
        keys := keys - {k};
      }
      var k := base;
      while k < base + len
        invariant base <= k <= base + len
        invariant forall a :: a in mem <==> a in old(mem) || base <= a < k
        invariant forall a :: a in old(mem) ==> mem[a] == old(mem)[a]
      {
        mem := mem[k := 0];
        k := k + 1;
      }
    }

    /** delete[] */
    method Delete(lo: nat, len: nat)
      modifies this
      ensures Released(old(mem), mem, lo, len)
    {
      mem := map a | a in mem && !(lo <= a < lo + len) :: mem[a];
    }
  }

  const MIN_OBJECTS_PER_CHUNK: byte := 8
  const MAX_OBJECTS_PER_CHUNK: byte := 255

  class FixedAllocator {
    const heap: Heap
    var blockSize: nat
    var numBlocks: byte
    var chunks: seq<Chunk>
    var allocChunk: int
    var deallocChunk: int
    var emptyChunk: int

    /** The fields as one value. */
    function State(): Pool
      reads this
    {
      Pool(blockSize, numBlocks, chunks, allocChunk, deallocChunk, emptyChunk)
    }

    ghost predicate Consistent()
      reads this, heap
    {
      Valid(State(), heap.mem)
    }

    ghost function LiveBlocks(): set<nat>
      reads this, heap
    {
      Live(State(), heap.mem)
    }

    /** FixedAllocator::Initialize clamps the number of blocks of a page. */
    constructor (heap: Heap, blockSize: nat, pageSize: nat)
      requires blockSize > 0
      ensures this.heap == heap && this.blockSize == blockSize && Consistent() && LiveBlocks() == {} && chunks == []
      ensures numBlocks as nat == if pageSize / blockSize > 255 then 255 else if pageSize / blockSize < 8 then 8 else pageSize / blockSize
    {
      this.heap := heap;
      this.blockSize := blockSize;
      var n := pageSize / blockSize;
      if n > MAX_OBJECTS_PER_CHUNK { n := MAX_OBJECTS_PER_CHUNK; }
      else if n < MIN_OBJECTS_PER_CHUNK { n := MIN_OBJECTS_PER_CHUNK; }
      numBlocks := n as byte;
      chunks, allocChunk, deallocChunk, emptyChunk := [], -1, -1, -1;
    }

    /** Chunk::Init: links every block to the next. */
    method InitBlocks(base: nat, blocks: byte, size: nat)
      requires size > 0 && Owned(heap.mem, base, Offset(blocks, size))
      modifies heap
      ensures heap.mem == InitBytes(old(heap.mem), base, 0, blocks, size)
    {
      var i: nat, p := 0, base;
      while i != blocks
        invariant i <= blocks && p == base + Offset(i, size)
        invariant InitBytes(old(heap.mem), base, 0, blocks, size) == InitBytes(heap.mem, base, i, blocks, size)
        decreases blocks - i
      {
        heap.mem := heap.mem[p := (i + 1) as byte];
        p, i := p + size, i + 1;
      }
    }

    method MakeNewChunk()
      requires blockSize > 0
      modifies this, heap
      ensures exists base, grown ::
        && Grown(old(heap.mem), grown, base, old(State()).ChunkLength())
        && State() == WithNewChunk(old(State()), base)
        && heap.mem == InitBytes(grown, base, 0, numBlocks, blockSize)
    {
      hide InitBytes, Offset;
      var len := numBlocks as nat * blockSize;
      assert len == State().ChunkLength() by { LengthIs(State(), len); }
      var base := heap.New(len);
      ghost var grown := heap.mem;
      InitBlocks(base, numBlocks, blockSize);
      chunks := chunks + [Chunk(base, 0, numBlocks)];
      allocChunk, deallocChunk := |chunks| - 1, 0;
      assert Grown(old(heap.mem), grown, base, old(State()).ChunkLength());
    }

    /** FixedAllocator::Allocate up to the point where allocChunk_ has a block to give. */
    method SelectChunk()
      requires Consistent()
      modifies this, heap
      ensures Chosen(State(), heap.mem) && LiveBlocks() == old(LiveBlocks())
      ensures blockSize == old(blockSize) && numBlocks == old(numBlocks)
      ensures forall a :: a in old(heap.mem) ==> a in heap.mem && heap.mem[a] == old(heap.mem)[a]
      ensures forall a :: a in heap.mem && a !in old(heap.mem) ==> InFootprint(State(), a)
      ensures forall a :: InFootprint(State(), a) ==> old(InFootprint(State(), a)) || a !in old(heap.mem)
    {
      hide Offset, Live, ValidChunk, Apart, InitBytes;
      ghost var p, mem := State(), heap.mem;
      if allocChunk == -1 || chunks[allocChunk].available == 0 {
        if emptyChunk != -1 {
          allocChunk := emptyChunk;
          emptyChunk := -1;
        } else {
          var it := 0;
          while it < |chunks| && chunks[it].available == 0
            invariant it <= |chunks| && FirstAvailable(chunks, 0) == FirstAvailable(chunks, it)
          {
            it := it + 1;
          }
          if it == |chunks| {
            MakeNewChunk();
            ghost var base, grown :| Grown(mem, grown, base, p.ChunkLength())
              && State() == WithNewChunk(p, base) && heap.mem == InitBytes(grown, base, 0, numBlocks, blockSize);
            NewChunkKeeps(p, mem, grown, base);
            NewFootprint(p, base);
            return;
          }
          allocChunk := it;
        }
      } else if allocChunk == emptyChunk {
        emptyChunk := -1;
      }
      assert State() == ChooseChunk(p);
      ChooseKeeps(p, mem);
      SameChunks(p, State(), mem);
    }

    /** FixedAllocator::Allocate: a block that was not live becomes live, and no byte anybody owned is written. */
    method Allocate() returns (place: nat)
      requires Consistent()
      modifies this, heap
      ensures Consistent() && blockSize == old(blockSize) && numBlocks == old(numBlocks)
      ensures place !in old(LiveBlocks()) && LiveBlocks() == old(LiveBlocks()) + {place}
      ensures forall a :: a in old(heap.mem) ==> a in heap.mem && heap.mem[a] == old(heap.mem)[a]
      ensures forall a :: a in heap.mem && a !in old(heap.mem) ==> InFootprint(State(), a)
      ensures forall a :: InFootprint(State(), a) ==> old(InFootprint(State(), a)) || a !in old(heap.mem)
    {
      hide Offset, Live, ValidChunk, Apart, Chosen;
      SelectChunk();
      ghost var p := State();
      ChosenRange(p, heap.mem);
      var c := chunks[allocChunk];
      place := c.pData + c.first * blockSize;
      var first := At(heap.mem, place);
      TakenIs(p, c, place);
      chunks := chunks[allocChunk := Chunk(c.pData, first, (c.available - 1) as byte)];
      assert State() == Take(p, heap.mem);
      TakeKeeps(p, heap.mem);
      TakeFootprint(p, heap.mem);
    }

    /** FixedAllocator::VicinityFind: outward from deallocChunk_ in both directions; -1 when no chunk owns p. */
    method VicinityFind(p: nat) returns (found: int)
      requires Consistent()
      ensures -1 <= found < |chunks|
      ensures found >= 0 ==> chunks[found].HasBlock(p, State().ChunkLength())
      ensures found == -1 ==> !InFootprint(State(), p)
    {
      hide Offset, ValidChunk;
      if chunks == [] { return -1; }
      var chunkLength := State().ChunkLength();
      // -1 stands for lo == NULL, |chunks| for hi == NULL
      var lo, hi := deallocChunk, deallocChunk + 1;
      while true
        invariant -1 <= lo <= deallocChunk < hi <= |chunks| && (lo >= 0 || hi < |chunks|)
        invariant forall k :: lo < k < hi ==> !chunks[k].HasBlock(p, chunkLength)
        decreases |chunks| - hi + lo
      {
        if lo >= 0 {
          if chunks[lo].HasBlock(p, chunkLength) { return lo; }
          lo := lo - 1;
          if lo == -1 && hi == |chunks| { break; }
        }
        if hi < |chunks| {
          if chunks[hi].HasBlock(p, chunkLength) { return hi; }
          hi := hi + 1;
          if hi == |chunks| && lo == -1 { break; }
        }
      }
      return -1;
    }

    /** FixedAllocator::HasBlock: the first chunk, in order, that contains p. */
    method HasBlock(p: nat) returns (found: int)
      ensures found == Owner(State(), p)
    {
      var it := 0;
      while it < |chunks|
        invariant it <= |chunks| && Owner(State(), p) == Owner(State(), p, it)
      {
        if chunks[it].HasBlock(p, State().ChunkLength()) { return it; }
        it := it + 1;
      }
      found := -1;
    }

    /** FixedAllocator::DoDeallocate for a block of the chunk deallocChunk_. */
    method DoDeallocate(p: nat)
      requires Consistent() && CanPut(State(), p, deallocChunk) && Owner(State(), p) == deallocChunk
      requires JustPut(PutPool(State(), p, deallocChunk), heap.mem[p := chunks[deallocChunk].first])
      modifies this, heap
      ensures Deallocated(old(State()), old(heap.mem), p, State(), heap.mem)
    {
      hide Offset, ValidChunk, Owner, Apart;
      ghost var before := State();
      var c := chunks[deallocChunk];
      var index := (p - c.pData) / blockSize;
      assert index == BlockIndex(c, p, blockSize);
      heap.mem := heap.mem[p := c.first];
      chunks := chunks[deallocChunk := Chunk(c.pData, index as byte, c.available + 1)];
      ghost var put := State();
      assert put == PutPool(before, p, deallocChunk);
      if chunks[deallocChunk].available == numBlocks {
        if emptyChunk != -1 { ReleaseChunk(); }
        emptyChunk := deallocChunk;
      }
    }

    /** The release in DoDeallocate: one of the two empty chunks goes to the end, is released and popped. */
    method ReleaseChunk()
      requires JustPut(State(), heap.mem) && TwoEmpty(State())
      modifies this`chunks, this`deallocChunk, this`allocChunk, heap
      ensures State().(empty := deallocChunk) == Settle(old(State()))
      ensures 0 <= Victim(old(State())) < |old(chunks)|
      ensures Released(old(heap.mem), heap.mem, old(chunks)[Victim(old(State()))].pData, State().ChunkLength())
    {
      hide Offset, ValidChunk, Apart;
      ghost var put := State();
      SettleIndices(put, heap.mem);
      var lastChunk := |chunks| - 1;
      if lastChunk == deallocChunk {
        deallocChunk := emptyChunk;
      } else if lastChunk != emptyChunk {
        chunks := chunks[emptyChunk := chunks[lastChunk]][lastChunk := chunks[emptyChunk]];
      }
      heap.Delete(chunks[lastChunk].pData, State().ChunkLength());
      chunks := chunks[..lastChunk];
      assert chunks == put.chunks[Victim(put) := put.chunks[lastChunk]][..lastChunk];
      if allocChunk == lastChunk || chunks[allocChunk].available == 0 { allocChunk := deallocChunk; }
    }

    /** FixedAllocator::Deallocate( p, hint ); hint -1 is NULL. Pointers into the chunks must be live. */
    method Deallocate(p: nat, hint: int) returns (found: bool)
      requires Consistent() && chunks != []
      requires hint == -1 || (0 <= hint < |chunks| && chunks[hint].HasBlock(p, State().ChunkLength()))
      requires InFootprint(State(), p) ==> p in LiveBlocks()
      modifies this, heap
      ensures found <==> old(InFootprint(State(), p))
      ensures !found ==> State() == old(State()) && heap.mem == old(heap.mem)
      ensures found ==> Deallocated(old(State()), old(heap.mem), p, State(), heap.mem)
      ensures found ==> Consistent() && LiveBlocks() == old(LiveBlocks()) - {p}
    {
      hide Offset, ValidChunk, Live, Owner, Apart, LiveIn;
      ghost var before, mem := State(), heap.mem;
      var foundChunk := hint;
      if hint == -1 { foundChunk := VicinityFind(p); }
      if foundChunk == -1 { return false; }
      OwnerIs(before, p, foundChunk);
      assert InFootprint(before, p);
      ghost var k := LiveOwner(before, mem, p);
      PutKeeps(before, mem, p, k);
      deallocChunk := foundChunk;
      DeallocPointerMoves(before, State(), mem, p);
      DoDeallocate(p);
      MovedDeallocated(before, mem, p, State(), heap.mem);
      DeallocateKeeps(before, mem, p, State(), heap.mem);
      found := true;
    }
  }

  lemma LiveOwner(p: Pool, mem: Mem, a: nat) returns (k: nat)
    requires Valid(p, mem) && a in Live(p, mem)
    ensures k < |p.chunks| && a in LiveOf(p, mem, k) && Owner(p, a) == k
  {
    k :| 0 <= k < |p.chunks| && a in LiveOf(p, mem, k);
    OwnerOf(p, mem, a, k);
  }

  /** Pointing deallocChunk_ at the owner first changes nothing that matters. */
  lemma DeallocPointerMoves(p: Pool, q: Pool, mem: Mem, a: nat)
    requires Valid(p, mem) && a in Live(p, mem) && q == p.(dealloc := Owner(p, a))
    ensures Valid(q, mem) && Owner(q, a) == Owner(p, a) && CanPut(q, a, q.dealloc)
    ensures JustPut(PutPool(q, a, q.dealloc), mem[a := q.chunks[q.dealloc].first])
    ensures PutPool(q, a, q.dealloc) == PutPool(p, a, q.dealloc) && CanPut(p, a, q.dealloc)
  {
    hide Offset, ValidChunk, LiveIn, Owner;
    var k := LiveOwner(p, mem, a);
    BlockIsIn(p, mem, a, k);
    OwnerIs(q, a, k);
    PutKeeps(p, mem, a, k);
    CannotBeEmpty(p, mem, a, k);
  }

  lemma CannotBeEmpty(p: Pool, mem: Mem, a: nat, k: nat)
    requires Valid(p, mem) && k < |p.chunks| && a in LiveOf(p, mem, k)
    ensures p.chunks[k].available < p.numBlocks && p.empty != k
  {
    NotFull(mem, p.chunks[k], a, p.blockSize, p.numBlocks);
  }

  lemma MovedDeallocated(p: Pool, mem: Mem, a: nat, p': Pool, mem': Mem)
    requires Valid(p, mem) && a in Live(p, mem) && Deallocated(p.(dealloc := Owner(p, a)), mem, a, p', mem')
    ensures Deallocated(p, mem, a, p', mem')
  {
    hide Offset, ValidChunk, LiveIn, Apart, Owner, Live, PutPool, Settle, TwoEmpty, Victim;
    DeallocPointerMoves(p, p.(dealloc := Owner(p, a)), mem, a);
  }

  lemma LengthIs(p: Pool, len: nat)
    requires len == p.numBlocks as nat * p.blockSize
    ensures len == p.ChunkLength()
  {}

  lemma TakenIs(p: Pool, c: Chunk, place: nat)
    requires 0 <= p.alloc < |p.chunks| && c == p.chunks[p.alloc] && place == c.pData + c.first * p.blockSize
    ensures place == TakenAddress(p)
  {}

  lemma ChosenRange(p: Pool, mem: Mem)
    requires Chosen(p, mem)
    ensures 0 <= p.alloc < |p.chunks| && p.chunks[p.alloc].available > 0
  {}

  lemma NewFootprint(p: Pool, base: nat)
    ensures forall a: nat {:trigger InFootprint(WithNewChunk(p, base), a)} ::
      InFootprint(WithNewChunk(p, base), a) <==> InFootprint(p, a) || base <= a < base + p.ChunkLength()
  {
    hide Offset;
    var p' := WithNewChunk(p, base);
    var n := |p.chunks|;
    assert p'.chunks[n] == Chunk(base, 0, p.numBlocks);
    forall a: nat ensures InFootprint(p', a) <==> InFootprint(p, a) || base <= a < base + p.ChunkLength() {
      if base <= a < base + p.ChunkLength() { assert p'.chunks[n].HasBlock(a, p'.ChunkLength()); }
      if InFootprint(p, a) {
        var k :| 0 <= k < n && p.chunks[k].HasBlock(a, p.ChunkLength());
        assert p'.chunks[k].HasBlock(a, p'.ChunkLength());
      }
    }
  }

  lemma SameChunks(p: Pool, p': Pool, mem: Mem)
    requires p'.chunks == p.chunks && p'.blockSize == p.blockSize && p'.numBlocks == p.numBlocks
    ensures Live(p', mem) == Live(p, mem)
    ensures forall a :: InFootprint(p', a) <==> InFootprint(p, a)
  {
    hide Offset, LiveIn;
    assert forall k :: 0 <= k < |p.chunks| ==> LiveOf(p', mem, k) == LiveOf(p, mem, k);
    assert forall a :: a in Live(p', mem) <==> a in Live(p, mem);
  }

  lemma TakeFootprint(p: Pool, mem: Mem)
    requires 0 <= p.alloc < |p.chunks| && p.chunks[p.alloc].available > 0
    ensures forall a :: InFootprint(Take(p, mem), a) <==> InFootprint(p, a)
  {
    SameBases(p, Take(p, mem));
  }

  lemma SameBases(p: Pool, p': Pool)
    requires |p'.chunks| == |p.chunks| && p'.blockSize == p.blockSize && p'.numBlocks == p.numBlocks
    requires forall k :: 0 <= k < |p.chunks| ==> p'.chunks[k].pData == p.chunks[k].pData
    ensures forall a :: InFootprint(p', a) <==> InFootprint(p, a)
  {
    hide Offset;
    forall a ensures InFootprint(p', a) <==> InFootprint(p, a) {
      if InFootprint(p, a) {
        var k :| 0 <= k < |p.chunks| && p.chunks[k].HasBlock(a, p.ChunkLength());
        assert p'.chunks[k].HasBlock(a, p'.ChunkLength());
      }
      if InFootprint(p', a) {
        var k :| 0 <= k < |p.chunks| && p'.chunks[k].HasBlock(a, p'.ChunkLength());
        assert p.chunks[k].HasBlock(a, p.ChunkLength());
      }
    }
  }

  // ---------- whole runs ----------

  /** A user's step: allocate, free the i-th block held, or store a byte in it. */
  datatype Request = Obtain | Return(i: nat) | Store(i: nat, offset: nat, value: byte)

  /** The blocks held are exactly the live ones, and every byte stored in them is still there. */
  ghost predicate Honoured(p: Pool, mem: Mem, held: seq<nat>, stored: Mem) {
    && Distinct(held) && (forall a :: a in held <==> a in Live(p, mem))
    && forall x :: x in stored ==> x in mem && mem[x] == stored[x] && InHeld(held, p.blockSize, x)
  }

  ghost predicate InHeld(held: seq<nat>, size: nat, x: nat) {
    exists k :: 0 <= k < |held| && held[k] <= x < held[k] + size
  }

  /** Every run of allocations, deallocations and stores, in any order: no block is handed out twice, what was
      stored in a held block stays, and the allocator stays consistent. Requests naming no block are ignored. */
  method Serve(alloc: FixedAllocator, requests: seq<Request>) returns (held: seq<nat>, ghost stored: Mem)
    requires alloc.Consistent() && alloc.LiveBlocks() == {}
    modifies alloc, alloc.heap
    ensures alloc.Consistent() && Honoured(alloc.State(), alloc.heap.mem, held, stored)
  {
    hide Valid, Live, Honoured;
    held, stored := [], map[];
    NothingHeld(alloc.State(), alloc.heap.mem);
    var n := 0;
    while n < |requests|
      invariant n <= |requests| && alloc.Consistent() && Honoured(alloc.State(), alloc.heap.mem, held, stored)
    {
      match requests[n] {
        case Obtain => held := ServeObtain(alloc, held, stored);
        case Return(i) =>
          if i < |held| { held, stored := ServeReturn(alloc, held, i, stored); }
        case Store(i, offset, value) =>
          if i < |held| && offset < alloc.blockSize { stored := ServeStore(alloc, held, i, offset, value, stored); }
      }
      n := n + 1;
    }
  }

  lemma NothingHeld(p: Pool, mem: Mem)
    requires Live(p, mem) == {}
    ensures Honoured(p, mem, [], map[])
  {}

  method ServeObtain(alloc: FixedAllocator, held: seq<nat>, ghost stored: Mem) returns (held': seq<nat>)
    requires alloc.Consistent() && Honoured(alloc.State(), alloc.heap.mem, held, stored)
    modifies alloc, alloc.heap
    ensures alloc.Consistent() && Honoured(alloc.State(), alloc.heap.mem, held', stored)
  {
    hide Valid, Live;
    ghost var size := alloc.blockSize;
    var place := alloc.Allocate();
    held' := held + [place];
    forall x | x in stored ensures InHeld(held', size, x) {
      var k :| 0 <= k < |held| && held[k] <= x < held[k] + size;
      assert held'[k] == held[k];
    }
    assert forall a :: a in held' <==> a in held || a == place;
  }

  method ServeReturn(alloc: FixedAllocator, held: seq<nat>, i: nat, ghost stored: Mem)
    returns (held': seq<nat>, ghost stored': Mem)
    requires alloc.Consistent() && i < |held| && Honoured(alloc.State(), alloc.heap.mem, held, stored)
    modifies alloc, alloc.heap
    ensures alloc.Consistent() && Honoured(alloc.State(), alloc.heap.mem, held', stored')
  {
    hide Valid, Live, Deallocated;
    ghost var p, mem := alloc.State(), alloc.heap.mem;
    assert held[i] in alloc.LiveBlocks();
    LiveInFootprint(p, mem, held[i]);
    assert alloc.chunks != [];
    var found := alloc.Deallocate(held[i], -1);
    held' := held[..i] + held[i + 1..];
    stored' := map x | x in stored && !(held[i] <= x < held[i] + p.blockSize) :: stored[x];
    HonouredAfterReturn(p, mem, held, stored, i, alloc.State(), alloc.heap.mem, held', stored');
  }

  lemma HonouredAfterReturn(p: Pool, mem: Mem, held: seq<nat>, stored: Mem, i: nat, p': Pool, mem': Mem, held': seq<nat>, stored': Mem)
    requires Valid(p, mem) && i < |held| && Honoured(p, mem, held, stored) && Deallocated(p, mem, held[i], p', mem')
    requires held' == held[..i] + held[i + 1..]
    requires stored' == map x | x in stored && !(held[i] <= x < held[i] + p.blockSize) :: stored[x]
    ensures Honoured(p', mem', held', stored')
  {
    hide Valid, Live, Deallocated;
    DeallocateKeeps(p, mem, held[i], p', mem');
    DeallocatedSize(p, mem, held[i], p', mem');
    RemoveOne(held, i);
    forall x | x in stored' ensures x in mem' && mem'[x] == stored'[x] && InHeld(held', p'.blockSize, x) {
      var k :| 0 <= k < |held| && held[k] <= x < held[k] + p.blockSize;
      assert held[k] in Live(p, mem);
      DeallocateSpares(p, mem, held[i], p', mem', held[k]);
      var k' := if k < i then k else k - 1;
      assert held'[k'] == held[k];
    }
  }

  lemma DeallocatedSize(p: Pool, mem: Mem, a: nat, p': Pool, mem': Mem)
    requires Deallocated(p, mem, a, p', mem')
    ensures p'.blockSize == p.blockSize
  {
    SettleShape(PutPool(p, a, Owner(p, a)));
  }

  lemma RemoveOne(held: seq<nat>, i: nat)
    requires Distinct(held) && i < |held|
    ensures var held' := held[..i] + held[i + 1..]; Distinct(held') && forall a :: a in held' <==> a in held && a != held[i]
  {
    var held' := held[..i] + held[i + 1..];
    assert forall k :: 0 <= k < |held'| ==> held'[k] == if k < i then held[k] else held[k + 1];
    forall a ensures a in held' <==> a in held && a != held[i] {
      if a in held && a != held[i] {
        var k :| 0 <= k < |held| && held[k] == a;
        assert held'[if k < i then k else k - 1] == a;
      }
    }
  }

  method ServeStore(alloc: FixedAllocator, held: seq<nat>, i: nat, offset: nat, value: byte, ghost stored: Mem)
    returns (ghost stored': Mem)
    requires alloc.Consistent() && i < |held| && offset < alloc.blockSize && Honoured(alloc.State(), alloc.heap.mem, held, stored)
    modifies alloc.heap
    ensures alloc.Consistent() && Honoured(alloc.State(), alloc.heap.mem, held, stored')
  {
    hide Valid, Live;
    var x := held[i] + offset;
    assert held[i] in alloc.LiveBlocks();
    StoreKeeps(alloc.State(), alloc.heap.mem, held[i], x, value);
    alloc.heap.mem := alloc.heap.mem[x := value];
    stored' := stored[x := value];
  }
}
