// Chunk: a free list threaded through the first byte of each free block.

module BlockMemory {
  type byte = b: nat | b < 256

  /** The bytes the process owns, by address. */
  type Mem = map<nat, byte>

  function At(mem: Mem, a: nat): byte {
    if a in mem then mem[a] else 0
  }

  ghost predicate Owned(mem: Mem, lo: nat, len: nat) {
    forall a :: lo <= a < lo + len ==> a in mem
  }

  ghost predicate Untouched(mem: Mem, lo: nat, len: nat) {
    forall a :: lo <= a < lo + len ==> a !in mem
  }

  /** Offset of block i in a chunk of blocks of the given size. */
  function Offset(i: nat, size: nat): nat {
    i * size
  }

  lemma OffsetStep(i: nat, j: nat, size: nat)
    requires i < j
    ensures Offset(i, size) + size <= Offset(j, size)
    decreases j
  {
    assert j * size == (j - 1) * size + size;
    if i < j - 1 { OffsetStep(i, j - 1, size); }
  }

  lemma OffsetInjective(i: nat, j: nat, size: nat)
    requires size > 0 && i != j
    ensures Offset(i, size) != Offset(j, size)
  {
    if i < j { OffsetStep(i, j, size); } else { OffsetStep(j, i, size); }
  }

  lemma MultipleOf(k: int, size: nat)
    ensures k == 0 || k * size >= size || k * size <= -(size as int)
  {
    if k >= 1 {
      assert k * size >= size;
    } else if k <= -1 {
      assert -k * size >= size;
    }
  }

  lemma Between(i: nat, q: nat, r: int, size: nat)
    requires 0 <= r < size && i * size == q * size + r
    ensures q == i && r == 0
  {
    MultipleOf(q - i, size);
    assert (q - i) * size == -r;
  }

  /** Dividing an offset by the block size gives the block index back, with no remainder. */
  lemma OffsetDivides(i: nat, size: nat)
    requires size > 0
    ensures Offset(i, size) / size == i && Offset(i, size) % size == 0
  {
    var q, r := (i * size) / size, (i * size) % size;
    assert i * size == q * size + r;
    Between(i, q, r, size);
  }
}

module ChunkLists {
  import opened Sequences
  import opened BlockMemory

  /** The fields of a Chunk; pData is its first address. */
  datatype Chunk = Chunk(pData: nat, first: byte, available: byte) {
    function Block(i: nat, size: nat): nat {
      pData + Offset(i, size)
    }

    predicate HasBlock(p: nat, chunkLength: nat) {
      pData <= p < pData + chunkLength
    }
  }

  /** The blocks threaded from `first`: n of them, each one's first byte naming the next. */
  function FreeList(mem: Mem, c: Chunk, first: nat, n: nat, size: nat): (f: seq<nat>)
    ensures |f| == n
    decreases n
  {
    if n == 0 then []
    else [first] + FreeList(mem, c, At(mem, c.Block(first, size)), n - 1, size)
  }

  function Free(mem: Mem, c: Chunk, size: nat): (f: seq<nat>)
    ensures |f| == c.available
  {
    FreeList(mem, c, c.first, c.available, size)
  }

  ghost predicate Below(f: seq<nat>, n: nat) {
    forall i :: 0 <= i < |f| ==> f[i] < n
  }

  /** A chunk of `blocks` blocks: its memory is owned and its list enumerates free blocks without repetition. */
  ghost predicate ValidChunk(mem: Mem, c: Chunk, size: nat, blocks: byte) {
    && size > 0 && c.pData > 0 && c.available <= blocks
    && Owned(mem, c.pData, Offset(blocks, size))
    && Distinct(Free(mem, c, size)) && Below(Free(mem, c, size), blocks)
  }

  /** The first bytes of the blocks in f are the same in both memories. */
  ghost predicate SameLinks(mem: Mem, mem': Mem, c: Chunk, f: seq<nat>, size: nat) {
    forall i :: 0 <= i < |f| ==> At(mem', c.Block(f[i], size)) == At(mem, c.Block(f[i], size))
  }

  /** The list depends only on the first bytes of the blocks in it. */
  lemma {:induction false} FreeListFrame(mem: Mem, mem': Mem, c: Chunk, first: nat, n: nat, size: nat)
    requires SameLinks(mem, mem', c, FreeList(mem, c, first, n, size), size)
    ensures FreeList(mem', c, first, n, size) == FreeList(mem, c, first, n, size)
    decreases n
  {
    if n > 0 {
      var f := FreeList(mem, c, first, n, size);
      var next := At(mem, c.Block(first, size));
      var tail := FreeList(mem, c, next, n - 1, size);
      assert f == [first] + tail;
      assert At(mem', c.Block(f[0], size)) == next;
      assert forall i :: 0 <= i < |tail| ==> tail[i] == f[i + 1];
      FreeListFrame(mem, mem', c, next, n - 1, size);
    }
  }

  /** Only pData matters of the chunk the list is read in. */
  lemma {:induction false} FreeListSameBase(mem: Mem, c: Chunk, d: Chunk, first: nat, n: nat, size: nat)
    requires c.pData == d.pData
    ensures FreeList(mem, c, first, n, size) == FreeList(mem, d, first, n, size)
    decreases n
  {
    if n > 0 { FreeListSameBase(mem, c, d, At(mem, c.Block(first, size)), n - 1, size); }
  }

  /** Memory that agrees on the whole chunk leaves it valid, with the same list. */
  lemma ChunkFrame(mem: Mem, mem': Mem, c: Chunk, size: nat, blocks: byte)
    requires ValidChunk(mem, c, size, blocks)
    requires forall a :: c.pData <= a < c.pData + Offset(blocks, size) ==> a in mem' && mem'[a] == mem[a]
    ensures ValidChunk(mem', c, size, blocks) && Free(mem', c, size) == Free(mem, c, size)
  {
    hide Offset;
    var f := Free(mem, c, size);
    forall i | 0 <= i < |f| ensures At(mem', c.Block(f[i], size)) == At(mem, c.Block(f[i], size)) {
      OffsetStep(f[i], blocks, size);
    }
    FreeListFrame(mem, mem', c, c.first, c.available, size);
  }

  // ---------- Init ----------

  /** The bytes Chunk::Init leaves: block i points to block i + 1. */
  function InitBytes(mem: Mem, base: nat, i: nat, blocks: byte, size: nat): Mem
    requires i <= blocks
    decreases blocks - i
  {
    if i == blocks then mem else InitBytes(mem[base + Offset(i, size) := (i + 1) as byte], base, i + 1, blocks, size)
  }

  lemma {:induction false} InitBytesAre(mem: Mem, base: nat, i: nat, blocks: byte, size: nat)
    requires size > 0 && i <= blocks && Owned(mem, base, Offset(blocks, size))
    ensures var m := InitBytes(mem, base, i, blocks, size);
      && m.Keys == mem.Keys
      && (forall j :: i <= j < blocks ==> At(m, base + Offset(j, size)) == j + 1)
      && (forall a :: a in mem && (a < base + Offset(i, size) || base + Offset(blocks, size) <= a) ==> m[a] == mem[a])
    decreases blocks - i
  {
    hide Offset;
    if i < blocks {
      var b := base + Offset(i, size);
      OffsetStep(i, blocks, size);
      OffsetStep(i, i + 1, size);
      if i + 1 < blocks { OffsetStep(i + 1, blocks, size); }
      var mem1 := mem[b := (i + 1) as byte];
      assert mem1.Keys == mem.Keys;
      InitBytesAre(mem1, base, i + 1, blocks, size);
      var m := InitBytes(mem, base, i, blocks, size);
      assert m[b] == i + 1;
    }
  }

  lemma {:induction false} InitList(mem: Mem, c: Chunk, i: nat, blocks: byte, size: nat)
    requires i <= blocks && forall j :: i <= j < blocks ==> At(mem, c.Block(j, size)) == j + 1
    ensures FreeList(mem, c, i, blocks - i, size) == seq(blocks - i, k => i + k)
    decreases blocks - i
  {
    if i < blocks {
      InitList(mem, c, i + 1, blocks, size);
    }
  }

  /** A chunk right after Init is valid and all its blocks are free. */
  lemma InitChunk(mem: Mem, base: nat, blocks: byte, size: nat)
    requires size > 0 && base > 0 && Owned(mem, base, Offset(blocks, size))
    ensures var c, m := Chunk(base, 0, blocks), InitBytes(mem, base, 0, blocks, size);
      ValidChunk(m, c, size, blocks) && Free(m, c, size) == seq(blocks, k => k)
  {
    hide Offset;
    var c, m := Chunk(base, 0, blocks), InitBytes(mem, base, 0, blocks, size);
    InitBytesAre(mem, base, 0, blocks, size);
    InitList(m, c, 0, blocks, size);
    assert Free(m, c, size) == seq(blocks, k => k);
  }

  // ---------- Allocate and Deallocate ----------

  /** Chunk::Allocate on a chunk that has a block: unlinks the head of the list. */
  function AllocateFrom(mem: Mem, c: Chunk, size: nat): Chunk
    requires c.available > 0
  {
    Chunk(c.pData, At(mem, c.Block(c.first, size)), (c.available - 1) as byte)
  }

  lemma AllocateUnlinks(mem: Mem, c: Chunk, size: nat, blocks: byte)
    requires ValidChunk(mem, c, size, blocks) && c.available > 0
    ensures var c' := AllocateFrom(mem, c, size);
      && ValidChunk(mem, c', size, blocks)
      && Free(mem, c, size) == [c.first as nat] + Free(mem, c', size)
      && c.first !in Free(mem, c', size) && c.first < blocks && c'.available < blocks
  {
    var c' := AllocateFrom(mem, c, size);
    var f := Free(mem, c, size);
    FreeListSameBase(mem, c, c', c'.first, c'.available, size);
    assert f[0] == c.first && f[1..] == Free(mem, c', size);
    assert forall i :: 0 <= i < |f| - 1 ==> f[1..][i] == f[i + 1];
  }

  /** Chunk::Deallocate of the block with index i: links it in front. */
  function DeallocateMem(mem: Mem, c: Chunk, i: byte, size: nat): Mem {
    mem[c.Block(i, size) := c.first]
  }

  function DeallocateTo(c: Chunk, i: byte): Chunk
    requires c.available < 255
  {
    Chunk(c.pData, i, c.available + 1)
  }

  lemma DeallocateLinks(mem: Mem, c: Chunk, i: byte, size: nat, blocks: byte)
    requires ValidChunk(mem, c, size, blocks) && i < blocks && i as nat !in Free(mem, c, size) && c.available < blocks
    ensures var m, c' := DeallocateMem(mem, c, i, size), DeallocateTo(c, i);
      ValidChunk(m, c', size, blocks) && Free(m, c', size) == [i as nat] + Free(mem, c, size)
  {
    hide Offset;
    var m, c' := DeallocateMem(mem, c, i, size), DeallocateTo(c, i);
    var f := Free(mem, c, size);
    forall k | 0 <= k < |f| ensures At(m, c.Block(f[k], size)) == At(mem, c.Block(f[k], size)) {
      OffsetInjective(f[k], i, size);
    }
    FreeListFrame(mem, m, c, c.first, c.available, size);
    FreeListSameBase(m, c, c', c.first, c.available, size);
    assert Free(m, c', size) == [i as nat] + f;
    var g := [i as nat] + f;
    forall a, b | 0 <= a < b < |g| ensures g[a] != g[b] {
      assert g[b] == f[b - 1];
    }
  }

  /** A list without repetition that is as long as the chunk holds every block. */
  lemma FullListIsAll(f: seq<nat>, n: nat)
    requires Distinct(f) && Below(f, n) && |f| == n
    ensures forall i :: 0 <= i < n ==> i in f
  {
    DistinctBelow(f, n);
  }
}
