/**
 `StaticChainedBlockAllocator`: the second copy of the free-list table. It
 differs from `ChainedBlockAllocator` in two places that this model covers:
 `allocateNewBlock` takes the request size as an extra argument and ignores
 it, and the copy constructor starts from an empty table instead of taking
 over the source's blocks. `deallocate` is the same push as
 `FreeLists.Deallocate`. It also lacks `operator==`, `rebind`, `construct`,
 `destroy` and `address`, and its destructor clears the lists itself; none of
 these is modelled.
 */
module StaticChained {
  import opened SizeClass
  import opened FreeLists

  /**
   `allocateNewBlock(index, size)`: the new block has `2^index` elements,
   whatever `size` is.
   */
  function AllocateNewBlock(p: Pool, h: Heap, index: nat, size: Size): (r: Allocation)
    requires index < BlockListSize
    ensures r.block == |h.caps| && |r.heap.caps| == |h.caps| + 1 && r.heap.caps[..|h.caps|] == h.caps
    ensures r.heap.caps[r.block] == BlockSizeFromIndex(index)
    ensures r.pool.storage == p.storage
    ensures r.pool.lists[index] == [r.block] + p.lists[index]
    ensures forall j :: 0 <= j < BlockListSize && j != index ==> r.pool.lists[j] == p.lists[j]
  {
    var b := |h.caps|;
    var h' := Heap(h.caps + [BlockSizeFromIndex(index)]);
    assert h'.caps[..|h.caps|] == h.caps;
    Allocation(Pool(p.storage, p.lists[index := [b] + p.lists[index]]), h', b)
  }

  /** The size argument has no effect on the block that is created. */
  lemma AllocateNewBlockIgnoresSize(p: Pool, h: Heap, index: nat, s1: Size, s2: Size)
    requires index < BlockListSize
    ensures AllocateNewBlock(p, h, index, s1) == AllocateNewBlock(p, h, index, s2)
    ensures s1 >= 1 && !IsPowerOfTwo(s1) && index == IndexFromBlockSize(s1) ==>
      AllocateNewBlock(p, h, index, s1).heap.caps[|h.caps|] < s1
  {
  }

  /** `allocate(n)`: pop list `indexFromBlockSize(n)`, growing it by one block when empty. */
  function Allocate(p: Pool, h: Heap, n: Size): (r: Allocation)
    ensures r.pool.storage == p.storage
    ensures forall j :: 0 <= j < BlockListSize && j != IndexFromBlockSize(n) ==> r.pool.lists[j] == p.lists[j]
    // miss: one new block of the class's capacity, handed out at once; no list changes
    ensures p.lists[IndexFromBlockSize(n)] == [] ==>
              && r.block == |h.caps|
              && |r.heap.caps| == |h.caps| + 1 && r.heap.caps[..|h.caps|] == h.caps
              && r.heap.caps[r.block] == BlockSizeFromIndex(IndexFromBlockSize(n))
              && r.pool.lists == p.lists
    // hit: the head of the class's list is handed out and removed; nothing is created
    ensures p.lists[IndexFromBlockSize(n)] != [] ==>
              && r.block == p.lists[IndexFromBlockSize(n)][0]
              && r.heap == h
              && r.pool.lists[IndexFromBlockSize(n)] == p.lists[IndexFromBlockSize(n)][1..]
  {
    var index := IndexFromBlockSize(n);
    var grown := if p.lists[index] == [] then AllocateNewBlock(p, h, index, n) else Allocation(p, h, 0);
    Allocation(PopFront(grown.pool, index), grown.heap, grown.pool.lists[index][0])
  }

  /**
   Both copies of the table allocate alike: everything proved of
   `FreeLists.Allocate` holds of this one.
   */
  lemma AllocateMatchesChained(p: Pool, h: Heap, n: Size)
    ensures Allocate(p, h, n) == FreeLists.Allocate(p, h, n)
  {
  }

  /** LIFO reuse: the block just given back is the next one handed out for its class. */
  lemma LifoReuse(p: Pool, h: Heap, n: Size, b: BlockId)
    ensures Allocate(Deallocate(p, n, b), h, n) == Allocation(p, h, b)
  {
  }

  /**
   The copy constructor: a fresh table (`storage` is the address `new` returns
   for it) whose 64 lists are all empty, whatever the source holds.
   */
  function Copy(src: Pool, storage: nat): (c: Pool)
    requires storage != src.storage
    ensures c.storage == storage && c.storage != src.storage
    ensures forall i :: 0 <= i < BlockListSize ==> c.lists[i] == []
  {
    Construct(storage)
  }

  /**
   A copy shares nothing with its source: no block is idle in both, and the
   first block the copy hands out is neither idle in the source nor held by
   any caller of the source, so the source's invariant survives the copy's use
   of the shared heap.
   */
  lemma CopyIsIndependent(src: Pool, h: Heap, out: set<BlockId>, storage: nat, n: Size)
    requires storage != src.storage
    requires Inv(src, h, out)
    ensures Independent(src, Copy(src, storage)) && Independent(Copy(src, storage), src)
    ensures Allocate(Copy(src, storage), h, n).block !in out
    ensures !Idle(src, Allocate(Copy(src, storage), h, n).block)
    ensures Inv(src, Allocate(Copy(src, storage), h, n).heap, out + {Allocate(Copy(src, storage), h, n).block})
  {
  }
}
