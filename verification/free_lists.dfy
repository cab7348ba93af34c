/**
 The segregated free-list table of `ChainedBlockAllocator`: an array of 64
 LIFO lists of idle blocks, list `i` holding blocks of `2^i` elements.

 Raw pointers become block ids. A `Heap` records every block ever created by
 `new _T[...]`; the id of a new block is the number of blocks created before
 it, so ids are fresh by construction. The heap is shared by all allocator
 instances, as the system allocator is.
 */
module FreeLists {
  import opened SizeClass

  type BlockId = nat

  /** `blockListArray`: exactly one list per size class. */
  type ListArray = s: seq<seq<BlockId>> | |s| == BlockListSize witness seq(BlockListSize, _ => [])

  /** Capacities (in elements) of all blocks created so far, indexed by block id. */
  datatype Heap = Heap(caps: seq<nat>)

  /**
   One allocator instance: `storage` stands for the address of its
   `blockListArray`, which is what `operator==` compares.
   */
  datatype Pool = Pool(storage: nat, lists: ListArray)

  /** State after `allocate`, and the block handed to the caller. */
  datatype Allocation = Allocation(pool: Pool, heap: Heap, block: BlockId)

  /** The default constructor: a fresh array of 64 empty lists. */
  function Construct(storage: nat): (p: Pool)
    ensures p.storage == storage
    ensures forall i :: 0 <= i < BlockListSize ==> p.lists[i] == []
  {
    Pool(storage, seq(BlockListSize, _ => []))
  }

  /**
   `allocateNewBlock(index)`: create one block of `2^index` elements and push it
   onto the front of list `index`.
   */
  function AllocateNewBlock(p: Pool, h: Heap, index: nat): (r: Allocation)
    requires index < BlockListSize
    ensures r.block == |h.caps|
    ensures |r.heap.caps| == |h.caps| + 1 && r.heap.caps[..|h.caps|] == h.caps
    ensures r.heap.caps[r.block] == BlockSizeFromIndex(index)
    ensures r.pool.storage == p.storage
    ensures r.pool.lists[index] == [r.block] + p.lists[index]
    ensures forall j :: 0 <= j < BlockListSize && j != index ==> r.pool.lists[j] == p.lists[j]
  {
    var b := |h.caps|;
    var h' := Heap(h.caps + [BlockSizeFromIndex(index)]);
    assert h'.caps[..|h.caps|] == h.caps;
    Allocation(Pool(p.storage, p.lists[index := [b] + p.lists[index]]), h', b)
  }

  /** Remove the head of list `index`, which must exist. */
  function PopFront(p: Pool, index: nat): (q: Pool)
    requires index < BlockListSize && p.lists[index] != []
    ensures q.storage == p.storage
    ensures q.lists[index] == p.lists[index][1..]
    ensures forall j :: 0 <= j < BlockListSize && j != index ==> q.lists[j] == p.lists[j]
  {
    Pool(p.storage, p.lists[index := p.lists[index][1..]])
  }

  /**
   `allocate(n)`: take the head of list `indexFromBlockSize(n)`, first creating
   one fresh block there when the list is empty.
   */
  function Allocate(p: Pool, h: Heap, n: Size): (r: Allocation)
    ensures r.pool.storage == p.storage
    ensures forall j :: 0 <= j < BlockListSize && j != IndexFromBlockSize(n) ==> r.pool.lists[j] == p.lists[j]
    // miss: exactly one new block, of the class's capacity, handed out at once; the class stays empty
    ensures p.lists[IndexFromBlockSize(n)] == [] ==>
              && r.block == |h.caps|
              && |r.heap.caps| == |h.caps| + 1 && r.heap.caps[..|h.caps|] == h.caps
              && r.heap.caps[r.block] == BlockSizeFromIndex(IndexFromBlockSize(n))
              && r.pool.lists[IndexFromBlockSize(n)] == []
    // hit: the most recently pushed block is handed out, and nothing is created
    ensures p.lists[IndexFromBlockSize(n)] != [] ==>
              && r.block == p.lists[IndexFromBlockSize(n)][0]
              && r.heap == h
              && r.pool.lists[IndexFromBlockSize(n)] == p.lists[IndexFromBlockSize(n)][1..]
  {
    var index := IndexFromBlockSize(n);
    var grown := if p.lists[index] == [] then AllocateNewBlock(p, h, index) else Allocation(p, h, 0);
    Allocation(PopFront(grown.pool, index), grown.heap, grown.pool.lists[index][0])
  }

  /** `deallocate(p, n)`: push block `b` onto the front of list `indexFromBlockSize(n)`. */
  function Deallocate(p: Pool, n: Size, b: BlockId): (q: Pool)
    ensures q.storage == p.storage
    ensures q.lists[IndexFromBlockSize(n)] == [b] + p.lists[IndexFromBlockSize(n)]
    ensures forall j :: 0 <= j < BlockListSize && j != IndexFromBlockSize(n) ==> q.lists[j] == p.lists[j]
  {
    var index := IndexFromBlockSize(n);
    Pool(p.storage, p.lists[index := [b] + p.lists[index]])
  }

  // ---------------------------------------------------------------------------
  // Invariants of the table

  /** Block `b` sits idle on some list of `p`. */
  predicate Idle(p: Pool, b: BlockId) {
    exists i :: 0 <= i < BlockListSize && b in p.lists[i]
  }

  /** Every block on list `i` exists and holds exactly `2^i` elements. */
  predicate ClassesAgree(p: Pool, h: Heap) {
    forall i, j :: 0 <= i < BlockListSize && 0 <= j < |p.lists[i]| ==>
      p.lists[i][j] < |h.caps| && h.caps[p.lists[i][j]] == Pow2(i)
  }

  predicate Distinct(s: seq<BlockId>) {
    forall j, k :: 0 <= j < k < |s| ==> s[j] != s[k]
  }

  /** No block appears twice on one list, nor on two lists. */
  predicate NoBlockTwice(p: Pool) {
    && (forall i :: 0 <= i < BlockListSize ==> Distinct(p.lists[i]))
    && (forall i, k, b :: 0 <= i < k < BlockListSize && b in p.lists[i] ==> b !in p.lists[k])
  }

  /**
   The table invariant relative to the set `out` of blocks currently held by
   callers: classes agree, no block is listed twice, and checked-out blocks
   exist and are not idle.
   */
  predicate Inv(p: Pool, h: Heap, out: set<BlockId>) {
    && ClassesAgree(p, h)
    && NoBlockTwice(p)
    && (forall b :: b in out ==> b < |h.caps| && !Idle(p, b))
  }

  lemma ConstructEstablishesInv(storage: nat, h: Heap, out: set<BlockId>)
    requires forall b :: b in out ==> b < |h.caps|
    ensures Inv(Construct(storage), h, out)
  {
  }

  /**
   `allocate` keeps the invariant, hands out a block that no caller holds yet
   and whose capacity is that of its class (the floored one), and never
   forgets a block already created.
   */
  lemma AllocatePreservesInv(p: Pool, h: Heap, out: set<BlockId>, n: Size)
    requires Inv(p, h, out)
    ensures Inv(Allocate(p, h, n).pool, Allocate(p, h, n).heap, out + {Allocate(p, h, n).block})
    ensures Allocate(p, h, n).block !in out
    ensures Allocate(p, h, n).block < |Allocate(p, h, n).heap.caps|
    ensures Allocate(p, h, n).heap.caps[Allocate(p, h, n).block] == BlockSizeFromIndex(IndexFromBlockSize(n))
    ensures |h.caps| <= |Allocate(p, h, n).heap.caps| && Allocate(p, h, n).heap.caps[..|h.caps|] == h.caps
  {
  }

  /**
   `deallocate` keeps the invariant when the caller returns a block it holds,
   with the `n` whose class matches the block's capacity; the block becomes idle.
   */
  lemma DeallocatePreservesInv(p: Pool, h: Heap, out: set<BlockId>, n: Size, b: BlockId)
    requires Inv(p, h, out)
    requires b in out && h.caps[b] == BlockSizeFromIndex(IndexFromBlockSize(n))
    ensures Inv(Deallocate(p, n, b), h, out - {b})
    ensures Idle(Deallocate(p, n, b), b)
  {
  }

  /**
   LIFO reuse: `allocate(n)` right after `deallocate(b, n)` hands back `b`
   and restores the table and heap exactly.
   */
  lemma DeallocateThenAllocate(p: Pool, h: Heap, n: Size, b: BlockId)
    ensures Allocate(Deallocate(p, n, b), h, n) == Allocation(p, h, b)
  {
  }

  /** Two `allocate` calls with no `deallocate` between them return distinct blocks. */
  lemma TwoAllocatesDistinct(p: Pool, h: Heap, out: set<BlockId>, n1: Size, n2: Size)
    requires Inv(p, h, out)
    ensures Allocate(p, h, n1).block != Allocate(Allocate(p, h, n1).pool, Allocate(p, h, n1).heap, n2).block
  {
    var a1 := Allocate(p, h, n1);
    AllocatePreservesInv(p, h, out, n1);
    AllocatePreservesInv(a1.pool, a1.heap, out + {a1.block}, n2);
  }

  // ---------------------------------------------------------------------------
  // Two instances

  /** No block is idle in both pools at once. */
  predicate Independent(p1: Pool, p2: Pool) {
    forall i, k, b :: 0 <= i < BlockListSize && 0 <= k < BlockListSize && b in p1.lists[i] ==> b !in p2.lists[k]
  }
}
