// FixedAllocator as a state machine over its chunks, its three cursors and the memory.

module FixedPools {
  import opened BlockMemory
  import opened Sequences
  import opened ChunkLists

  /** The fields of a FixedAllocator; a cursor is a chunk index, or -1 for NULL. */
  datatype Pool = Pool(blockSize: nat, numBlocks: byte, chunks: seq<Chunk>, alloc: int, dealloc: int, empty: int) {
    function ChunkLength(): nat {
      Offset(numBlocks, blockSize)
    }
  }

  // ---------- the invariant ----------

  ghost predicate ChunksValid(p: Pool, mem: Mem) {
    forall k :: 0 <= k < |p.chunks| ==> ValidChunk(mem, p.chunks[k], p.blockSize, p.numBlocks)
  }

  /** Chunks occupy disjoint memory. */
  ghost predicate Apart(p: Pool) {
    forall j, k :: 0 <= j < k < |p.chunks| ==>
      p.chunks[j].pData + p.ChunkLength() <= p.chunks[k].pData || p.chunks[k].pData + p.ChunkLength() <= p.chunks[j].pData
  }

  ghost predicate CursorsInRange(p: Pool) {
    if p.chunks == [] then p.alloc == p.dealloc == -1
    else 0 <= p.alloc < |p.chunks| && 0 <= p.dealloc < |p.chunks|
  }

  /** The wholly free chunk is the one `empty` designates, so there is at most one. */
  ghost predicate EmptyDesignated(p: Pool) {
    && -1 <= p.empty < |p.chunks|
    && forall k :: 0 <= k < |p.chunks| ==> (p.chunks[k].available == p.numBlocks <==> p.empty == k)
  }

  ghost predicate Shape(p: Pool) {
    p.blockSize > 0 && 8 <= p.numBlocks
  }

  ghost predicate Valid(p: Pool, mem: Mem) {
    Shape(p) && ChunksValid(p, mem) && Apart(p) && CursorsInRange(p) && EmptyDesignated(p)
  }

  // ---------- live blocks ----------

  /** Addresses of the blocks of one chunk that are handed out. */
  ghost function LiveIn(mem: Mem, c: Chunk, size: nat, blocks: byte): set<nat> {
    set i | i in Upto(blocks) && i !in Free(mem, c, size) :: c.Block(i, size)
  }

  ghost function LiveOf(p: Pool, mem: Mem, k: nat): set<nat>
    requires k < |p.chunks|
  {
    LiveIn(mem, p.chunks[k], p.blockSize, p.numBlocks)
  }

  /** Addresses of all blocks handed out. */
  ghost function Live(p: Pool, mem: Mem): set<nat> {
    set k, a | 0 <= k < |p.chunks| && a in LiveOf(p, mem, k) :: a
  }

  /** Addresses the pool's chunks occupy. */
  ghost predicate InFootprint(p: Pool, a: nat) {
    exists k :: 0 <= k < |p.chunks| && p.chunks[k].HasBlock(a, p.ChunkLength())
  }

  lemma BlockInside(c: Chunk, i: nat, size: nat, blocks: byte)
    requires size > 0 && i < blocks
    ensures c.pData <= c.Block(i, size) && c.Block(i, size) + size <= c.pData + Offset(blocks, size)
    ensures c.HasBlock(c.Block(i, size), Offset(blocks, size))
  {
    OffsetStep(i, blocks, size);
  }

  lemma LiveInside(mem: Mem, c: Chunk, a: nat, size: nat, blocks: byte) returns (i: nat)
    requires size > 0 && a in LiveIn(mem, c, size, blocks)
    ensures i < blocks && i !in Free(mem, c, size) && a == c.Block(i, size)
    ensures c.pData <= a && a + size <= c.pData + Offset(blocks, size)
  {
    i :| i in Upto(blocks) && i !in Free(mem, c, size) && c.Block(i, size) == a;
    BlockInside(c, i, size, blocks);
  }

  /** At most one chunk contains an address. */
  lemma OwnerIsUnique(p: Pool, a: nat, j: nat, k: nat)
    requires Apart(p) && j < |p.chunks| && k < |p.chunks|
    requires p.chunks[j].HasBlock(a, p.ChunkLength()) && p.chunks[k].HasBlock(a, p.ChunkLength())
    ensures j == k
  {}

  lemma NotOwner(p: Pool, a: nat, j: nat, k: nat)
    requires Apart(p) && j < |p.chunks| && k < |p.chunks| && j != k && p.chunks[j].HasBlock(a, p.ChunkLength())
    ensures !p.chunks[k].HasBlock(a, p.ChunkLength())
  {}

  /** Live blocks do not overlap and lie in owned memory. */
  lemma LiveBlocksDisjoint(p: Pool, mem: Mem, a: nat, b: nat)
    requires Valid(p, mem) && a in Live(p, mem) && b in Live(p, mem) && a != b
    ensures a + p.blockSize <= b || b + p.blockSize <= a
    ensures Owned(mem, a, p.blockSize)
  {
    hide Offset, Free;
    var j :| 0 <= j < |p.chunks| && a in LiveOf(p, mem, j);
    var k :| 0 <= k < |p.chunks| && b in LiveOf(p, mem, k);
    var i := LiveInside(mem, p.chunks[j], a, p.blockSize, p.numBlocks);
    var i' := LiveInside(mem, p.chunks[k], b, p.blockSize, p.numBlocks);
    assert ValidChunk(mem, p.chunks[j], p.blockSize, p.numBlocks);
    if j == k {
      if i < i' { OffsetStep(i, i', p.blockSize); } else { OffsetStep(i', i, p.blockSize); }
    }
  }

  // ---------- Allocate ----------

  /** The scan for a chunk with an available block. */
  function FirstAvailable(chunks: seq<Chunk>, i: nat): (k: nat)
    requires i <= |chunks|
    ensures i <= k <= |chunks|
    ensures k < |chunks| ==> chunks[k].available != 0
    ensures forall j :: i <= j < k ==> chunks[j].available == 0
    decreases |chunks| - i
  {
    if i == |chunks| || chunks[i].available != 0 then i else FirstAvailable(chunks, i + 1)
  }

  predicate AllocFull(p: Pool)
    requires p.alloc < |p.chunks|
  {
    p.alloc < 0 || p.chunks[p.alloc].available == 0
  }

  /** Allocate has to make a new chunk. */
  predicate NeedsChunk(p: Pool)
    requires p.alloc < |p.chunks|
  {
    AllocFull(p) && p.empty == -1 && FirstAvailable(p.chunks, 0) == |p.chunks|
  }

  /** MakeNewChunk, `grown` being the memory after `new` returned the address base. */
  function WithNewChunk(p: Pool, base: nat): Pool {
    p.(chunks := p.chunks + [Chunk(base, 0, p.numBlocks)], alloc := |p.chunks|, dealloc := 0)
  }

  /** FixedAllocator::Allocate up to the choice of allocChunk_, when no new chunk is needed. */
  function ChooseChunk(p: Pool): Pool
    requires p.alloc < |p.chunks|
  {
    if AllocFull(p) then
      if p.empty != -1 then p.(alloc := p.empty, empty := -1)
      else p.(alloc := FirstAvailable(p.chunks, 0))
    else if p.alloc == p.empty then p.(empty := -1)
    else p
  }

  /** allocChunk_ has a block to give, and is not the designated empty chunk. */
  ghost predicate Chosen(p: Pool, mem: Mem) {
    && Shape(p) && ChunksValid(p, mem) && Apart(p)
    && 0 <= p.alloc < |p.chunks| && 0 <= p.dealloc < |p.chunks| && -1 <= p.empty < |p.chunks|
    && p.chunks[p.alloc].available > 0 && p.empty != p.alloc
    && forall k :: 0 <= k < |p.chunks| && k != p.alloc ==> (p.chunks[k].available == p.numBlocks <==> p.empty == k)
  }

  /** The block at the head of the chosen chunk's list. */
  function TakenAddress(p: Pool): nat
    requires 0 <= p.alloc < |p.chunks|
  {
    p.chunks[p.alloc].Block(p.chunks[p.alloc].first, p.blockSize)
  }

  function Take(p: Pool, mem: Mem): Pool
    requires 0 <= p.alloc < |p.chunks| && p.chunks[p.alloc].available > 0
  {
    p.(chunks := p.chunks[p.alloc := AllocateFrom(mem, p.chunks[p.alloc], p.blockSize)])
  }

  lemma ChooseKeeps(p: Pool, mem: Mem)
    requires Valid(p, mem) && !NeedsChunk(p)
    ensures Chosen(ChooseChunk(p), mem) && ChooseChunk(p).chunks == p.chunks
  {
    hide ValidChunk, Offset;
  }

  /** Memory after `new unsigned char[len]` returned base: new addresses, any contents. */
  ghost predicate Grown(mem: Mem, grown: Mem, base: nat, len: nat) {
    && base > 0 && Untouched(mem, base, len)
    && (forall a :: a in grown <==> a in mem || base <= a < base + len)
    && forall a :: a in mem ==> grown[a] == mem[a]
  }

  lemma NewMemory(mem: Mem, grown: Mem, base: nat, blocks: byte, size: nat)
    requires size > 0 && Grown(mem, grown, base, Offset(blocks, size))
    ensures var m1 := InitBytes(grown, base, 0, blocks, size);
      m1.Keys == grown.Keys && forall a :: a in mem ==> a in m1 && m1[a] == mem[a]
  {
    hide Offset;
    InitBytesAre(grown, base, 0, blocks, size);
    assert Offset(0, size) == 0 by { ZeroOffset(size); }
  }

  lemma ZeroOffset(size: nat)
    ensures Offset(0, size) == 0
  {}

  lemma NewChunkKeeps(p: Pool, mem: Mem, grown: Mem, base: nat)
    requires Valid(p, mem) && NeedsChunk(p) && Grown(mem, grown, base, p.ChunkLength())
    ensures var p1, m1 := WithNewChunk(p, base), InitBytes(grown, base, 0, p.numBlocks, p.blockSize);
      && Chosen(p1, m1) && Live(p1, m1) == Live(p, mem)
      && m1.Keys == grown.Keys && forall a :: a in mem ==> m1[a] == mem[a]
  {
    hide Offset, Free, LiveIn, ValidChunk, InitBytes;
    var p1, m1 := WithNewChunk(p, base), InitBytes(grown, base, 0, p.numBlocks, p.blockSize);
    var n, c := |p.chunks|, Chunk(base, 0, p.numBlocks);
    NewMemory(mem, grown, base, p.numBlocks, p.blockSize);
    InitChunk(grown, base, p.numBlocks, p.blockSize);
    AllFree(m1, c, p.blockSize, p.numBlocks);
    forall k | 0 <= k < n
      ensures ValidChunk(m1, p.chunks[k], p.blockSize, p.numBlocks) && LiveOf(p1, m1, k) == LiveOf(p, mem, k)
      ensures p.chunks[k].pData + p.ChunkLength() <= base || base + p.ChunkLength() <= p.chunks[k].pData
    {
      KeptChunk(mem, m1, p.chunks[k], p.blockSize, p.numBlocks);
      OffsetStep(0, p.numBlocks, p.blockSize);
      RangesApart(mem, p.chunks[k].pData, base, p.ChunkLength());
    }
    assert LiveOf(p1, m1, n) == {};
    assert forall a :: a in Live(p1, m1) <==> a in Live(p, mem);
  }

  /** A chunk keeps its validity and its live blocks in memory that agrees on everything owned. */
  lemma KeptChunk(mem: Mem, mem': Mem, c: Chunk, size: nat, blocks: byte)
    requires ValidChunk(mem, c, size, blocks)
    requires forall a :: c.pData <= a < c.pData + Offset(blocks, size) && a in mem ==> a in mem' && mem'[a] == mem[a]
    ensures ValidChunk(mem', c, size, blocks) && LiveIn(mem', c, size, blocks) == LiveIn(mem, c, size, blocks)
    ensures Owned(mem, c.pData, Offset(blocks, size))
  {
    ChunkFrame(mem, mem', c, size, blocks);
  }

  lemma RangesApart(mem: Mem, a: nat, b: nat, len: nat)
    requires Owned(mem, a, len) && Untouched(mem, b, len) && len > 0
    ensures a + len <= b || b + len <= a
  {
    var x := if a <= b then b else a;
    assert a <= x < a + len ==> x in mem;
    assert b <= x < b + len ==> x !in mem;
  }

  /** A chunk whose every block is available has no live block. */
  lemma AllFree(mem: Mem, c: Chunk, size: nat, blocks: byte)
    requires ValidChunk(mem, c, size, blocks) && c.available == blocks
    ensures LiveIn(mem, c, size, blocks) == {}
  {
    FullListIsAll(Free(mem, c, size), blocks);
  }

  /** Taking block i out of a chunk's free list makes exactly that block live. */
  lemma LiveAfterTake(mem: Mem, c: Chunk, size: nat, blocks: byte)
    requires ValidChunk(mem, c, size, blocks) && c.available > 0
    ensures var c', a := AllocateFrom(mem, c, size), c.Block(c.first, size);
      && LiveIn(mem, c', size, blocks) == LiveIn(mem, c, size, blocks) + {a}
      && a !in LiveIn(mem, c, size, blocks) && c.HasBlock(a, Offset(blocks, size))
  {
    hide Offset;
    var c', a := AllocateFrom(mem, c, size), c.Block(c.first, size);
    AllocateUnlinks(mem, c, size, blocks);
    BlockInside(c, c.first, size, blocks);
    var f := Free(mem, c, size);
    assert f[0] == c.first as nat;
    forall x ensures x in LiveIn(mem, c', size, blocks) <==> x in LiveIn(mem, c, size, blocks) + {a} {
      if x == a {
        assert c.first as nat in Upto(blocks) && c'.Block(c.first, size) == a;
      }
      if x in LiveIn(mem, c', size, blocks) {
        var i :| i in Upto(blocks) && i !in Free(mem, c', size) && c'.Block(i, size) == x;
        assert i == c.first as nat || i !in f;
        assert c.Block(i, size) == x;
      }
      if x in LiveIn(mem, c, size, blocks) {
        var i :| i in Upto(blocks) && i !in f && c.Block(i, size) == x;
        assert c'.Block(i, size) == x;
      }
    }
    if a in LiveIn(mem, c, size, blocks) {
      var i :| i in Upto(blocks) && i !in f && c.Block(i, size) == a;
      OffsetInjective(i, c.first, size);
    }
  }

  /** An address inside one chunk is live in no other. */
  lemma LiveElsewhere(p: Pool, mem: Mem, a: nat, j: nat, k: nat)
    requires ChunksValid(p, mem) && Apart(p) && j < |p.chunks| && k < |p.chunks| && j != k
    requires p.chunks[j].HasBlock(a, p.ChunkLength())
    ensures a !in LiveOf(p, mem, k)
  {
    hide Offset;
    if a in LiveOf(p, mem, k) {
      assert ValidChunk(mem, p.chunks[k], p.blockSize, p.numBlocks);
      var i := LiveInside(mem, p.chunks[k], a, p.blockSize, p.numBlocks);
      OwnerIsUnique(p, a, j, k);
    }
  }

  /** FixedAllocator::Allocate: the block returned was not live; exactly it becomes live; memory is not written. */
  lemma TakeKeeps(p: Pool, mem: Mem)
    requires Chosen(p, mem)
    ensures Valid(Take(p, mem), mem)
    ensures TakenAddress(p) !in Live(p, mem) && Live(Take(p, mem), mem) == Live(p, mem) + {TakenAddress(p)}
  {
    hide Offset, LiveIn, ValidChunk;
    var p', a, k := Take(p, mem), TakenAddress(p), p.alloc;
    LiveAfterTake(mem, p.chunks[k], p.blockSize, p.numBlocks);
    AllocateUnlinks(mem, p.chunks[k], p.blockSize, p.numBlocks);
    forall j | 0 <= j < |p.chunks|
      ensures LiveOf(p', mem, j) == if j == k then LiveOf(p, mem, j) + {a} else LiveOf(p, mem, j)
      ensures a !in LiveOf(p, mem, j)
    {
      if j != k { LiveElsewhere(p, mem, a, k, j); }
    }
    assert forall x :: x in Live(p', mem) <==> x in Live(p, mem) + {a} by {
      assert a in LiveOf(p', mem, k);
      forall x | x in Live(p, mem) ensures x in Live(p', mem) {
        var j :| 0 <= j < |p.chunks| && x in LiveOf(p, mem, j);
        assert x in LiveOf(p', mem, j);
      }
    }
    assert forall j :: 0 <= j < |p.chunks| ==> p'.chunks[j].pData == p.chunks[j].pData;
  }

  // ---------- Deallocate ----------

  /** The index Chunk::Deallocate computes from the address. */
  function BlockIndex(c: Chunk, a: nat, size: nat): nat
    requires size > 0 && c.pData <= a
  {
    (a - c.pData) / size
  }

  /** A live address is aligned and names a block that is not free. */
  lemma LiveIndex(mem: Mem, c: Chunk, a: nat, size: nat, blocks: byte)
    requires size > 0 && a in LiveIn(mem, c, size, blocks)
    ensures c.pData <= a && (a - c.pData) % size == 0
    ensures var i := BlockIndex(c, a, size); i < blocks && i !in Free(mem, c, size) && a == c.Block(i, size)
  {
    var i := LiveInside(mem, c, a, size, blocks);
    OffsetDivides(i, size);
  }

  lemma NotFull(mem: Mem, c: Chunk, a: nat, size: nat, blocks: byte)
    requires ValidChunk(mem, c, size, blocks) && a in LiveIn(mem, c, size, blocks)
    ensures c.available < blocks
  {
    if c.available == blocks { AllFree(mem, c, size, blocks); }
  }

  /** Linking a live block back makes exactly that block free. */
  lemma LiveAfterPut(mem: Mem, c: Chunk, a: nat, size: nat, blocks: byte)
    requires ValidChunk(mem, c, size, blocks) && a in LiveIn(mem, c, size, blocks)
    ensures c.pData <= a && BlockIndex(c, a, size) < blocks && c.available < blocks
    ensures var i := BlockIndex(c, a, size) as byte;
      var m, c' := DeallocateMem(mem, c, i, size), DeallocateTo(c, i);
      && m == mem[a := c.first] && a in mem
      && ValidChunk(m, c', size, blocks) && LiveIn(m, c', size, blocks) == LiveIn(mem, c, size, blocks) - {a}
  {
    hide Offset;
    LiveIndex(mem, c, a, size, blocks);
    NotFull(mem, c, a, size, blocks);
    var i := BlockIndex(c, a, size) as byte;
    var m, c' := DeallocateMem(mem, c, i, size), DeallocateTo(c, i);
    DeallocateLinks(mem, c, i, size, blocks);
    BlockInside(c, i, size, blocks);
    var f := Free(mem, c, size);
    forall x ensures x in LiveIn(m, c', size, blocks) <==> x in LiveIn(mem, c, size, blocks) - {a} {
      if x in LiveIn(m, c', size, blocks) {
        var k :| k in Upto(blocks) && k !in Free(m, c', size) && c'.Block(k, size) == x;
        assert ([i as nat] + f)[0] == i;
        assert forall j :: 0 <= j < |f| ==> f[j] == ([i as nat] + f)[j + 1];
        assert k !in f;
        assert c.Block(k, size) == x;
        OffsetInjective(k, i, size);
      }
      if x in LiveIn(mem, c, size, blocks) - {a} {
        var k :| k in Upto(blocks) && k !in f && c.Block(k, size) == x;
        assert k != i;
        assert c'.Block(k, size) == x;
      }
    }
  }

  /** Chunk::Deallocate through deallocChunk_, before any chunk is released. */
  function PutPool(p: Pool, a: nat, k: nat): Pool
    requires p.blockSize > 0 && k < |p.chunks| && p.chunks[k].pData <= a
    requires BlockIndex(p.chunks[k], a, p.blockSize) < 256 && p.chunks[k].available < 255
  {
    p.(chunks := p.chunks[k := DeallocateTo(p.chunks[k], BlockIndex(p.chunks[k], a, p.blockSize) as byte)], dealloc := k)
  }

  /** What holds between Chunk::Deallocate and the release decision: the chunk just used may be a second empty one. */
  ghost predicate JustPut(p: Pool, mem: Mem) {
    && Shape(p) && ChunksValid(p, mem) && Apart(p)
    && 0 <= p.alloc < |p.chunks| && 0 <= p.dealloc < |p.chunks| && -1 <= p.empty < |p.chunks|
    && p.empty != p.dealloc
    && forall k :: 0 <= k < |p.chunks| && k != p.dealloc ==> (p.chunks[k].available == p.numBlocks <==> p.empty == k)
  }

  lemma PutKeeps(p: Pool, mem: Mem, a: nat, k: nat)
    requires Valid(p, mem) && k < |p.chunks| && a in LiveOf(p, mem, k)
    ensures p.chunks[k].pData <= a && BlockIndex(p.chunks[k], a, p.blockSize) < p.numBlocks && p.chunks[k].available < p.numBlocks
    ensures var p', m := PutPool(p, a, k), mem[a := p.chunks[k].first];
      && JustPut(p', m) && Live(p', m) == Live(p, mem) - {a} && a in mem
  {
    hide Offset, LiveIn, ValidChunk, BlockIndex, Free;
    assert ValidChunk(mem, p.chunks[k], p.blockSize, p.numBlocks);
    LiveAfterPut(mem, p.chunks[k], a, p.blockSize, p.numBlocks);
    BlockIsIn(p, mem, a, k);
    var p', m := PutPool(p, a, k), mem[a := p.chunks[k].first];
    forall j | 0 <= j < |p.chunks|
      ensures ValidChunk(m, p'.chunks[j], p.blockSize, p.numBlocks)
      ensures LiveOf(p', m, j) == if j == k then LiveOf(p, mem, j) - {a} else LiveOf(p, mem, j)
      ensures j != k ==> a !in LiveOf(p, mem, j)
    {
      if j != k {
        LiveElsewhere(p, mem, a, k, j);
        assert !p.chunks[j].HasBlock(a, p.ChunkLength()) by {
          NotOwner(p, a, k, j);
        }
        KeptChunk(mem, m, p.chunks[j], p.blockSize, p.numBlocks);
      }
    }
    SameLive(p', m, Live(p, mem) - {a}, p, mem, a);
    assert forall j :: 0 <= j < |p.chunks| ==> p'.chunks[j].pData == p.chunks[j].pData;
  }

  lemma BlockIsIn(p: Pool, mem: Mem, a: nat, k: nat)
    requires Valid(p, mem) && k < |p.chunks| && a in LiveOf(p, mem, k)
    ensures p.chunks[k].HasBlock(a, p.ChunkLength())
  {
    assert ValidChunk(mem, p.chunks[k], p.blockSize, p.numBlocks);
    var i := LiveInside(mem, p.chunks[k], a, p.blockSize, p.numBlocks);
    BlockInside(p.chunks[k], i, p.blockSize, p.numBlocks);
  }

  lemma SameLive(p': Pool, m: Mem, live: set<nat>, p: Pool, mem: Mem, a: nat)
    requires |p'.chunks| == |p.chunks| && live == Live(p, mem) - {a}
    requires forall j :: 0 <= j < |p.chunks| ==> LiveOf(p', m, j) == LiveOf(p, mem, j) - {a}
    ensures Live(p', m) == live
  {
    hide LiveIn, LiveOf;
    forall x ensures x in Live(p', m) <==> x in live {
      if x in live {
        var j :| 0 <= j < |p.chunks| && x in LiveOf(p, mem, j);
        assert x in LiveOf(p', m, j);
      }
      if x in Live(p', m) {
        var j :| 0 <= j < |p'.chunks| && x in LiveOf(p', m, j);
        assert x in LiveOf(p, mem, j);
      }
    }
  }

  // ---------- releasing the second empty chunk ----------

  /** Both deallocChunk_ and emptyChunk_ are wholly free. */
  predicate TwoEmpty(p: Pool)
    requires 0 <= p.dealloc < |p.chunks|
  {
    p.chunks[p.dealloc].available == p.numBlocks && p.empty != -1
  }

  /** The chunk DoDeallocate releases: the last one if it was just emptied, otherwise the designated empty one,
      swapped into last place. */
  function Victim(p: Pool): int {
    if |p.chunks| - 1 == p.dealloc then p.dealloc else p.empty
  }

  /** DoDeallocate after Chunk::Deallocate: swap, release, pop and move the cursors. */
  function Settle(p: Pool): Pool
    requires 0 <= p.dealloc < |p.chunks| && -1 <= p.empty < |p.chunks| && 0 <= p.alloc < |p.chunks|
    requires p.empty != p.dealloc
  {
    if p.chunks[p.dealloc].available != p.numBlocks then p
    else if p.empty == -1 then p.(empty := p.dealloc)
    else
      var last := |p.chunks| - 1;
      var dealloc := if last == p.dealloc then p.empty else p.dealloc;
      var chunks := p.chunks[Victim(p) := p.chunks[last]][..last];
      var alloc := if p.alloc == last || chunks[p.alloc].available == 0 then dealloc else p.alloc;
      p.(chunks := chunks, dealloc := dealloc, alloc := alloc, empty := dealloc)
  }

  /** Chunk::Release gives the chunk's memory back. */
  ghost predicate Released(mem: Mem, mem': Mem, lo: nat, len: nat) {
    && (forall a :: a in mem' <==> a in mem && !(lo <= a < lo + len))
    && forall a :: a in mem' ==> mem'[a] == mem[a]
  }

  /** The old index of the chunk now at index k. */
  function OldIndex(p: Pool, k: nat): int {
    if k == Victim(p) then |p.chunks| - 1 else k
  }

  lemma SettleStays(p: Pool, mem: Mem)
    requires JustPut(p, mem) && !TwoEmpty(p)
    ensures Valid(Settle(p), mem) && Live(Settle(p), mem) == Live(p, mem)
  {
    hide Offset, ValidChunk, LiveIn;
    var p' := Settle(p);
    assert p'.chunks == p.chunks;
    assert forall k :: 0 <= k < |p.chunks| ==> LiveOf(p', mem, k) == LiveOf(p, mem, k);
    assert forall a :: a in Live(p', mem) <==> a in Live(p, mem);
  }

  /** The chunk now at index k is the old one at OldIndex(p, k), and the released one is nowhere. */
  lemma SettleIndices(p: Pool, mem: Mem)
    requires JustPut(p, mem) && TwoEmpty(p)
    ensures var p' := Settle(p);
      && |p'.chunks| == |p.chunks| - 1 && 0 <= Victim(p) < |p.chunks|
      && (forall k :: 0 <= k < |p'.chunks| ==>
            0 <= OldIndex(p, k) < |p.chunks| && OldIndex(p, k) != Victim(p) && p'.chunks[k] == p.chunks[OldIndex(p, k)])
      && CursorsInRange(p') && EmptyDesignated(p') && Apart(p') && Shape(p')
      && p.chunks[Victim(p)].available == p.numBlocks
  {
    hide Offset, ValidChunk;
  }

  lemma SettleReleases(p: Pool, mem: Mem, mem': Mem)
    requires JustPut(p, mem) && TwoEmpty(p)
    requires 0 <= Victim(p) < |p.chunks| && Released(mem, mem', p.chunks[Victim(p)].pData, p.ChunkLength())
    ensures Valid(Settle(p), mem') && Live(Settle(p), mem') == Live(p, mem)
  {
    hide Offset, ValidChunk, LiveIn, Free, Settle, Victim;
    var p', v, last := Settle(p), Victim(p), |p.chunks| - 1;
    SettleIndices(p, mem);
    assert p'.blockSize == p.blockSize && p'.numBlocks == p.numBlocks by { SettleShape(p); }
    forall k | 0 <= k < last
      ensures ValidChunk(mem', p'.chunks[k], p.blockSize, p.numBlocks)
      ensures LiveOf(p', mem', k) == LiveOf(p, mem, OldIndex(p, k))
    {
      var o := OldIndex(p, k);
      assert ValidChunk(mem, p.chunks[o], p.blockSize, p.numBlocks);
      KeptChunk(mem, mem', p.chunks[o], p.blockSize, p.numBlocks);
    }
    assert ValidChunk(mem, p.chunks[v], p.blockSize, p.numBlocks);
    AllFree(mem, p.chunks[v], p.blockSize, p.numBlocks);
    forall a ensures a in Live(p', mem') <==> a in Live(p, mem) {
      if a in Live(p, mem) {
        var o :| 0 <= o < |p.chunks| && a in LiveOf(p, mem, o);
        var k := if o == last then v else o;
        assert OldIndex(p, k) == o && a in LiveOf(p', mem', k);
      }
    }
  }

  lemma SettleShape(p: Pool)
    requires 0 <= p.dealloc < |p.chunks| && -1 <= p.empty < |p.chunks| && 0 <= p.alloc < |p.chunks|
    requires p.empty != p.dealloc
    ensures Settle(p).blockSize == p.blockSize && Settle(p).numBlocks == p.numBlocks
  {}

  // ---------- the whole of Deallocate ----------

  /** The first chunk that contains the address, or -1. */
  function Owner(p: Pool, a: nat, i: nat := 0): (k: int)
    requires i <= |p.chunks|
    ensures -1 <= k < |p.chunks|
    ensures k >= 0 ==> p.chunks[k].HasBlock(a, p.ChunkLength())
    ensures k == -1 ==> forall j :: i <= j < |p.chunks| ==> !p.chunks[j].HasBlock(a, p.ChunkLength())
    decreases |p.chunks| - i
  {
    if i == |p.chunks| then -1
    else if p.chunks[i].HasBlock(a, p.ChunkLength()) then i
    else Owner(p, a, i + 1)
  }

  /** Deallocate can put block a back into chunk k. */
  ghost predicate CanPut(p: Pool, a: nat, k: int) {
    && Shape(p) && 0 <= k < |p.chunks| && p.chunks[k].pData <= a
    && BlockIndex(p.chunks[k], a, p.blockSize) < 256 && p.chunks[k].available < 255
    && 0 <= p.alloc < |p.chunks| && -1 <= p.empty < |p.chunks| && p.empty != k
  }

  /** The state and the memory Deallocate of a live block a leaves; they are determined by those before. */
  ghost predicate Deallocated(p: Pool, mem: Mem, a: nat, p': Pool, mem': Mem) {
    var k := Owner(p, a);
    && CanPut(p, a, k)
    && (var put, m := PutPool(p, a, k), mem[a := p.chunks[k].first];
        && p' == Settle(put)
        && if TwoEmpty(put) then
             0 <= Victim(put) < |put.chunks| && Released(m, mem', put.chunks[Victim(put)].pData, p.ChunkLength())
           else mem' == m)
  }

  lemma DeallocatedIsDetermined(p: Pool, mem: Mem, a: nat, p1: Pool, mem1: Mem, p2: Pool, mem2: Mem)
    requires Deallocated(p, mem, a, p1, mem1) && Deallocated(p, mem, a, p2, mem2)
    ensures p1 == p2 && mem1 == mem2
  {
    hide PutPool, Settle, Owner, Offset;
    assert mem1.Keys == mem2.Keys;
  }

  /** Deallocate keeps the invariant and makes exactly the block handed back free. */
  lemma DeallocateKeeps(p: Pool, mem: Mem, a: nat, p': Pool, mem': Mem)
    requires Valid(p, mem) && a in Live(p, mem) && Deallocated(p, mem, a, p', mem')
    ensures Valid(p', mem') && Live(p', mem') == Live(p, mem) - {a}
  {
    hide Offset, ValidChunk, LiveIn, Settle, Victim, Apart, Owner;
    var k :| 0 <= k < |p.chunks| && a in LiveOf(p, mem, k);
    OwnerOf(p, mem, a, k);
    PutKeeps(p, mem, a, k);
    var put, m := PutPool(p, a, k), mem[a := p.chunks[k].first];
    if TwoEmpty(put) {
      SettleReleases(put, m, mem');
    } else {
      SettleStays(put, m);
    }
  }

  lemma OwnerOf(p: Pool, mem: Mem, a: nat, k: nat)
    requires Valid(p, mem) && k < |p.chunks| && a in LiveOf(p, mem, k)
    ensures Owner(p, a) == k
  {
    BlockIsIn(p, mem, a, k);
    OwnerIs(p, a, k);
  }

  lemma OwnerIs(p: Pool, a: nat, k: nat)
    requires Apart(p) && k < |p.chunks| && p.chunks[k].HasBlock(a, p.ChunkLength())
    ensures Owner(p, a) == k
  {
    hide Offset;
    OwnerIsUnique(p, a, Owner(p, a), k);
  }

  /** Deallocate writes no byte of a block that stays live. */
  lemma DeallocateSpares(p: Pool, mem: Mem, a: nat, p': Pool, mem': Mem, b: nat)
    requires Valid(p, mem) && a in Live(p, mem) && Deallocated(p, mem, a, p', mem')
    requires b in Live(p, mem) && b != a
    ensures forall x :: b <= x < b + p.blockSize ==> x in mem' && x in mem && mem'[x] == mem[x]
  {
    hide Offset, ValidChunk, LiveIn, Settle, Apart, Owner, Live, Victim;
    DeallocateKeeps(p, mem, a, p', mem');
    LiveBlocksDisjoint(p, mem, a, b);
    LiveBlocksDisjoint(p, mem, b, a);
    assert Owned(mem', b, p'.blockSize) by { OwnLive(p', mem', b); }
    assert p'.blockSize == p.blockSize by { SettleShape(PutPool(p, a, Owner(p, a))); }
    assert forall x :: x in mem' && x != a ==> x in mem && mem'[x] == mem[x];
  }

  lemma OwnLive(p: Pool, mem: Mem, b: nat)
    requires Valid(p, mem) && b in Live(p, mem)
    ensures Owned(mem, b, p.blockSize)
  {
    hide Offset, Free;
    var k :| 0 <= k < |p.chunks| && b in LiveOf(p, mem, k);
    assert ValidChunk(mem, p.chunks[k], p.blockSize, p.numBlocks);
    var i := LiveInside(mem, p.chunks[k], b, p.blockSize, p.numBlocks);
  }

  /** Deallocate only touches memory inside the pool's own chunks, and gives up only that. */
  lemma DeallocateFootprint(p: Pool, mem: Mem, a: nat, p': Pool, mem': Mem)
    requires Valid(p, mem) && a in Live(p, mem) && Deallocated(p, mem, a, p', mem')
    ensures forall x :: InFootprint(p', x) ==> InFootprint(p, x)
    ensures forall x :: x in mem && !InFootprint(p, x) ==> x in mem' && mem'[x] == mem[x]
    ensures forall x :: x in mem' ==> x in mem
  {
    hide Offset, ValidChunk, LiveIn, Apart, Owner;
    var k := Owner(p, a);
    var put := PutPool(p, a, k);
    assert a in mem by { OwnLive(p, mem, a); }
    assert InFootprint(p, a);
    PutBases(p, a, k);
    if TwoEmpty(put) {
      var v := Victim(put);
      forall x | x in mem && !InFootprint(p, x) ensures x in mem' {
        assert !p.chunks[v].HasBlock(x, p.ChunkLength());
      }
    }
    SettleShape(put);
    forall x | InFootprint(p', x) ensures InFootprint(p, x) {
      var j :| 0 <= j < |p'.chunks| && p'.chunks[j].HasBlock(x, p'.ChunkLength());
      var o := SettleOld(put, j);
      assert p.chunks[o].HasBlock(x, p.ChunkLength());
    }
  }

  lemma PutBases(p: Pool, a: nat, k: nat)
    requires CanPut(p, a, k)
    ensures var put := PutPool(p, a, k);
      |put.chunks| == |p.chunks| && put.blockSize == p.blockSize && put.numBlocks == p.numBlocks
      && forall j :: 0 <= j < |p.chunks| ==> put.chunks[j].pData == p.chunks[j].pData
  {}

  lemma SettleOld(put: Pool, j: nat) returns (o: nat)
    requires 0 <= put.dealloc < |put.chunks| && -1 <= put.empty < |put.chunks| && 0 <= put.alloc < |put.chunks|
    requires put.empty != put.dealloc && j < |Settle(put).chunks|
    ensures o < |put.chunks| && Settle(put).chunks[j] == put.chunks[o]
  {
    if TwoEmpty(put) && j == Victim(put) { o := |put.chunks| - 1; } else { o := j; }
  }

  // ---------- what else may happen to the memory ----------

  /** Memory that agrees on all the pool's chunks keeps the pool as it is. */
  lemma PoolFrame(p: Pool, mem: Mem, mem': Mem)
    requires Valid(p, mem)
    requires forall x :: x in mem && InFootprint(p, x) ==> x in mem' && mem'[x] == mem[x]
    ensures Valid(p, mem') && Live(p, mem') == Live(p, mem)
  {
    hide Offset, ValidChunk, LiveIn, Free;
    forall k | 0 <= k < |p.chunks|
      ensures ValidChunk(mem', p.chunks[k], p.blockSize, p.numBlocks) && LiveOf(p, mem', k) == LiveOf(p, mem, k)
    {
      var c := p.chunks[k];
      assert forall x: nat :: c.pData <= x < c.pData + p.ChunkLength() ==> c.HasBlock(x, p.ChunkLength()) && InFootprint(p, x);
      KeptChunk(mem, mem', c, p.blockSize, p.numBlocks);
    }
    assert forall a :: a in Live(p, mem') <==> a in Live(p, mem);
  }

  /** The owner of a live block may store anything in it. */
  lemma StoreInChunk(mem: Mem, c: Chunk, size: nat, blocks: byte, b: nat, x: nat, v: byte)
    requires ValidChunk(mem, c, size, blocks) && b in LiveIn(mem, c, size, blocks) && b <= x < b + size
    ensures ValidChunk(mem[x := v], c, size, blocks) && LiveIn(mem[x := v], c, size, blocks) == LiveIn(mem, c, size, blocks)
  {
    hide Offset;
    var i := LiveInside(mem, c, b, size, blocks);
    var f := Free(mem, c, size);
    forall k | 0 <= k < |f| ensures At(mem[x := v], c.Block(f[k], size)) == At(mem, c.Block(f[k], size)) {
      if f[k] < i { OffsetStep(f[k], i, size); } else { OffsetStep(i, f[k], size); }
    }
    FreeListFrame(mem, mem[x := v], c, c.first, c.available, size);
  }

  lemma StoreKeeps(p: Pool, mem: Mem, b: nat, x: nat, v: byte)
    requires Valid(p, mem) && b in Live(p, mem) && b <= x < b + p.blockSize
    ensures Valid(p, mem[x := v]) && Live(p, mem[x := v]) == Live(p, mem) && x in mem
  {
    hide Offset, ValidChunk, LiveIn, Free;
    OwnLive(p, mem, b);
    var j :| 0 <= j < |p.chunks| && b in LiveOf(p, mem, j);
    var m := mem[x := v];
    StoreInside(p, mem, b, j, x);
    forall k | 0 <= k < |p.chunks|
      ensures ValidChunk(m, p.chunks[k], p.blockSize, p.numBlocks) && LiveOf(p, m, k) == LiveOf(p, mem, k)
    {
      assert ValidChunk(mem, p.chunks[k], p.blockSize, p.numBlocks);
      if k == j {
        StoreInChunk(mem, p.chunks[k], p.blockSize, p.numBlocks, b, x, v);
      } else {
        NotOwner(p, x, j, k);
        KeptChunk(mem, m, p.chunks[k], p.blockSize, p.numBlocks);
      }
    }
    assert forall a :: a in Live(p, m) <==> a in Live(p, mem);
  }

  lemma StoreInside(p: Pool, mem: Mem, b: nat, j: nat, x: nat)
    requires Valid(p, mem) && j < |p.chunks| && b in LiveOf(p, mem, j) && b <= x < b + p.blockSize
    ensures p.chunks[j].HasBlock(x, p.ChunkLength())
  {
    var i := LiveInside(mem, p.chunks[j], b, p.blockSize, p.numBlocks);
  }

  lemma LiveInFootprint(p: Pool, mem: Mem, b: nat)
    requires Valid(p, mem) && b in Live(p, mem)
    ensures InFootprint(p, b)
  {
    var k :| 0 <= k < |p.chunks| && b in LiveOf(p, mem, k);
    InChunk(p, mem, b, k);
  }

  // ---------- counting ----------

  /** The pool with only its first n chunks; only its blocks matter. */
  ghost function LiveUpTo(p: Pool, mem: Mem, n: nat): set<nat>
    requires n <= |p.chunks|
  {
    if n == 0 then {} else LiveUpTo(p, mem, n - 1) + LiveOf(p, mem, n - 1)
  }

  function FreeCount(chunks: seq<Chunk>): nat {
    if chunks == [] then 0 else FreeCount(chunks[..|chunks| - 1]) + chunks[|chunks| - 1].available
  }

  lemma {:induction false} AddressesCount(c: Chunk, size: nat, indices: set<nat>)
    requires size > 0
    ensures |set i | i in indices :: c.Block(i, size)| == |indices|
    decreases indices
  {
    hide Offset;
    if indices != {} {
      var x :| x in indices;
      AddressesCount(c, size, indices - {x});
      var rest, all := set i | i in indices - {x} :: c.Block(i, size), set i | i in indices :: c.Block(i, size);
      assert all == rest + {c.Block(x, size)};
      if c.Block(x, size) in rest {
        var i :| i in indices - {x} && c.Block(i, size) == c.Block(x, size);
        OffsetInjective(i, x, size);
      }
    }
  }

  lemma LiveInCount(mem: Mem, c: Chunk, size: nat, blocks: byte)
    requires ValidChunk(mem, c, size, blocks)
    ensures |LiveIn(mem, c, size, blocks)| == blocks - c.available
  {
    hide Offset, Free;
    var f := Free(mem, c, size);
    var used := Upto(blocks) - Elements(f);
    assert Elements(f) <= Upto(blocks);
    assert |used| == |Upto(blocks)| - |Elements(f)|;
    AddressesCount(c, size, used);
    assert LiveIn(mem, c, size, blocks) == set i | i in used :: c.Block(i, size);
  }

  lemma TimesStep(n: nat, blocks: nat)
    requires n > 0
    ensures n * blocks == (n - 1) * blocks + blocks
  {}

  lemma {:induction false} LiveUpToMembers(p: Pool, mem: Mem, n: nat)
    requires n <= |p.chunks|
    ensures forall a :: a in LiveUpTo(p, mem, n) <==> exists k :: 0 <= k < n && a in LiveOf(p, mem, k)
  {
    hide LiveOf;
    if n > 0 { LiveUpToMembers(p, mem, n - 1); }
  }

  lemma NextIsDisjoint(p: Pool, mem: Mem, n: nat)
    requires Shape(p) && ChunksValid(p, mem) && Apart(p) && n < |p.chunks|
    ensures LiveUpTo(p, mem, n) !! LiveOf(p, mem, n)
  {
    hide Offset, ValidChunk, LiveIn;
    LiveUpToMembers(p, mem, n);
    forall x | x in LiveUpTo(p, mem, n) ensures x !in LiveOf(p, mem, n) {
      var k :| 0 <= k < n && x in LiveOf(p, mem, k);
      InChunk(p, mem, x, k);
      LiveElsewhere(p, mem, x, k, n);
    }
  }

  lemma {:induction false} LiveUpToCount(p: Pool, mem: Mem, n: nat)
    requires Shape(p) && ChunksValid(p, mem) && Apart(p) && n <= |p.chunks|
    ensures |LiveUpTo(p, mem, n)| + FreeCount(p.chunks[..n]) == n * p.numBlocks
  {
    hide ValidChunk, LiveIn, Apart;
    if n > 0 {
      TimesStep(n, p.numBlocks);
      LiveUpToCount(p, mem, n - 1);
      LiveInCount(mem, p.chunks[n - 1], p.blockSize, p.numBlocks);
      assert p.chunks[..n][..n - 1] == p.chunks[..n - 1];
      NextIsDisjoint(p, mem, n - 1);
      DisjointSizes(LiveUpTo(p, mem, n - 1), LiveOf(p, mem, n - 1));
    }
  }

  lemma DisjointSizes(a: set<nat>, b: set<nat>)
    requires a !! b
    ensures |a + b| == |a| + |b|
  {}

  lemma InChunk(p: Pool, mem: Mem, a: nat, k: nat)
    requires Shape(p) && k < |p.chunks| && a in LiveOf(p, mem, k)
    ensures p.chunks[k].HasBlock(a, p.ChunkLength())
  {
    var i := LiveInside(mem, p.chunks[k], a, p.blockSize, p.numBlocks);
    BlockInside(p.chunks[k], i, p.blockSize, p.numBlocks);
  }

  /** Blocks are conserved: every block of every chunk is either live or on a free list. */
  lemma Conservation(p: Pool, mem: Mem)
    requires Valid(p, mem)
    ensures |Live(p, mem)| + FreeCount(p.chunks) == |p.chunks| * p.numBlocks
  {
    LiveUpToCount(p, mem, |p.chunks|);
    LiveUpToMembers(p, mem, |p.chunks|);
    assert p.chunks[..|p.chunks|] == p.chunks;
    assert LiveUpTo(p, mem, |p.chunks|) == Live(p, mem);
  }

  /** Every chunk but the empty one holds a live block, so there are at most as many chunks as live blocks, plus one. */
  lemma FewChunks(p: Pool, mem: Mem)
    requires Valid(p, mem)
    ensures |p.chunks| <= |Live(p, mem)| + 1
  {
    hide Offset, ValidChunk, LiveIn;
    Conservation(p, mem);
    FreeBound(p, mem, |p.chunks|);
    assert p.chunks[..|p.chunks|] == p.chunks;
  }

  lemma {:induction false} FreeBound(p: Pool, mem: Mem, n: nat)
    requires Valid(p, mem) && n <= |p.chunks|
    ensures FreeCount(p.chunks[..n]) + n <= n * p.numBlocks + if 0 <= p.empty < n then 1 else 0
  {
    hide Offset, Free, Apart;
    if n > 0 {
      TimesStep(n, p.numBlocks);
      FreeBound(p, mem, n - 1);
      assert p.chunks[..n][..n - 1] == p.chunks[..n - 1];
      assert ValidChunk(mem, p.chunks[n - 1], p.blockSize, p.numBlocks);
    }
  }
}
