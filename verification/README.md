# Segregated free-list and bump allocators, modelled in Dafny

This project models the allocation policies of the `root88::memory` allocators:

- the **size-class mapper** (`indexFromBlockSize`, `blockSizeFromIndex`), which files a request of `n`
  elements under class `floor(log2 n)` (class 0 for `n = 0`) whose blocks hold `2^class` elements;
- the **segregated free-list table** of `ChainedBlockAllocator` (src/chained_block_allocator.h) and of
  its sibling `StaticChainedBlockAllocator` (src/allocator.h): 64 LIFO lists of idle blocks,
  `allocate(n)` popping list `index(n)` (creating one fresh block there first when it is empty),
  `deallocate(p, n)` pushing `p` back onto it;
- the **bump arena** `StaticBlockAllocator` (src/allocator.h and src/memory.h): a fixed `size`, an
  `offset` that only grows, `bad_alloc` when a request does not fit.

Blocks are natural-number ids. A `Heap` lists the capacity of every block ever created; a new block's
id is the number of blocks created before it, so it is fresh. The heap is shared by all allocator
instances, as the system allocator is. An instance's `storage` number stands for the address of its
list array, which is what `operator==` compares. Pointers into the arena are element offsets.
`size_t` is the subset type `Size` (below 2^64). The arena's `uint64_t` counter `debugAllocatedSize`
exists only in debug builds (`NDEBUG` not defined); the model describes a debug build, where the
counter wraps modulo 2^64.

Modules: `SizeClass` (size_class.dfy), `FreeLists` (free_lists.dfy: the table shared by both
free-list allocators, and its invariant), `ChainedBlock` (chained_block.dfy: the reversing copy
constructor and identity equality), `StaticChained` (static_chained.dfy: the allocator.h copy of the
table), `BumpArena` (bump_arena.dfy).

Behaviour of the code that the model keeps as it is:

- The mapping floors: 9 elements get a block of 8. The model proves the floor, and that the block
  holds exactly the requested count only for powers of two.
- `n = 0` is accepted and filed under class 0, as the shifting loop does.
- The copy constructor of `ChainedBlockAllocator` does not produce an empty pool: it lists the
  source's idle blocks, each list reversed. Only `StaticChainedBlockAllocator`'s copy starts empty.
- Block creation never fails: an out-of-memory `new` is not modelled.

## Model

| member | source | states |
|---|---|---|
| SizeClass.Shifts | src/chained_block_allocator.h:160 | the number of non-zero halvings of `size` is the position of its highest set bit: `2^r <= size < 2^(r+1)` for `size >= 1`, and 0 for `size <= 1` |
| SizeClass.IndexFromBlockSize | src/chained_block_allocator.h:153-164 | the class of `n` is below 64 for every 64-bit `n`, is `floor(log2 n)` for `n >= 1` and 0 for `n = 0` |
| SizeClass.IndexFromBlockSizeLoop | src/allocator.h:297-306 | the `while(size >>= 1) index++` loop ends with an index below 64 that satisfies `2^index <= n < 2^(index+1)` (0 for `n = 0`) |
| SizeClass.BlockSizeFromIndex | src/chained_block_allocator.h:166-171 | `1 << index` is a power of two that fits in `size_t` and maps back to class `index` (round trip class → capacity → class) |
| SizeClass.CapacityFloorsRequest | src/chained_block_allocator.h:153-171 | for `n >= 1` the capacity of `n`'s class is at most `n` and more than `n/2`, and equals `n` exactly when `n` is a power of two |
| SizeClass.NineElementsGetEight | src/chained_block_allocator.h:160-170 | a request for 9 elements is filed under class 3, whose blocks hold 8 elements |
| FreeLists.Construct | src/chained_block_allocator.h:49-54 | a new allocator owns a fresh list array whose 64 lists are all empty |
| FreeLists.AllocateNewBlock | src/chained_block_allocator.h:138-146 | one fresh block of `2^index` elements is created, pushed on the front of list `index`, no other list changes and no earlier block is altered |
| FreeLists.Allocate | src/chained_block_allocator.h:79-96 | on an empty class exactly one block of the class's capacity is created and handed out and the class stays empty; otherwise the list head is handed out and removed and nothing is created; other classes are untouched |
| FreeLists.Deallocate | src/chained_block_allocator.h:98-105 | `p` becomes the front of list `index(n)`; every other list is unchanged |
| FreeLists.ConstructEstablishesInv | src/chained_block_allocator.h:49-54 | a new allocator satisfies the table invariant for any set of existing checked-out blocks |
| FreeLists.AllocatePreservesInv | src/chained_block_allocator.h:84-95 | `allocate` keeps "list i holds only blocks of 2^i elements, no block listed twice, no checked-out block listed", hands out a block no caller holds, of its class's capacity, and never forgets a block |
| FreeLists.DeallocatePreservesInv | src/chained_block_allocator.h:98-105 | returning a held block with an `n` whose class matches its capacity keeps the invariant and makes the block idle |
| FreeLists.DeallocateThenAllocate | src/chained_block_allocator.h:84-105 | LIFO reuse: `allocate(n)` straight after `deallocate(p, n)` returns `p` and restores table and heap exactly |
| FreeLists.TwoAllocatesDistinct | src/chained_block_allocator.h:84-95 | two `allocate` calls with no `deallocate` between them return different blocks |
| ChainedBlock.PushAllFront | src/chained_block_allocator.h:61-63 | pushing each element of a list, in order, onto the front of another yields the list reversed, followed by the other |
| ChainedBlock.Copy | src/chained_block_allocator.h:56-65 | the copy has a new list array, and each of its lists is the source's list of that class in reverse order |
| ChainedBlock.Equal | src/chained_block_allocator.h:128-130 | identity of the list array (`storage`), not its contents: two pools are equal exactly when they differ at most in their lists |
| ChainedBlock.NotEqual | src/chained_block_allocator.h:132-134 | `!=` is the negation of `==`, so unequal pools are never the same pool |
| ChainedBlock.CopyComparesUnequal | src/chained_block_allocator.h:128-134 | a copy compares unequal to its source (`==` false, `!=` true); an allocator still compares equal to itself after `allocate` or `deallocate` |
| ChainedBlock.CopyMembers | src/chained_block_allocator.h:60-64 | a block is on list i of the copy exactly when it is on list i of the source |
| ChainedBlock.CopyKeepsClasses | src/chained_block_allocator.h:56-65 | the copy's lists still hold only blocks of their class and no block twice |
| ChainedBlock.CopyAliasesIdleBlocks | src/chained_block_allocator.h:60-64 | source and copy share no idle block exactly when the source has no idle block at all |
| ChainedBlock.CopyHandsOutSameBlock | src/chained_block_allocator.h:56-95 | with one idle block in a class, the source and its copy both hand that same block to their next caller of that class |
| StaticChained.AllocateNewBlock | src/allocator.h:287-295 | one fresh block of `2^index` elements is pushed on list `index`, whatever the size argument |
| StaticChained.AllocateNewBlockIgnoresSize | src/allocator.h:287-295 | the size argument has no effect; for a non-power-of-two size the new block is smaller than that size |
| StaticChained.Allocate | src/allocator.h:259-275 | on an empty class one new block of the class's capacity is handed out, earlier blocks are kept and the lists are unchanged; otherwise the list head is handed out and removed and nothing is created; other classes are untouched |
| StaticChained.AllocateMatchesChained | src/allocator.h:259-275 | both copies of the table allocate identically |
| StaticChained.LifoReuse | src/allocator.h:259-284 | `allocate(n)` right after `deallocate(p, n)` returns `p` and restores the table and heap |
| StaticChained.Copy | src/allocator.h:244-245 | the copy has a new list array and all 64 lists empty, regardless of the source |
| StaticChained.CopyIsIndependent | src/allocator.h:236-245 | source and copy share no idle block; the copy's first block is neither idle in nor held from the source, whose invariant survives the copy's use of the shared heap |
| BumpArena.Construct | src/allocator.h:32-38 | a new arena has the requested size, its offset at the start and a zero debug counter, and satisfies `offset <= size` |
| BumpArena.ConstructDefault | src/allocator.h:18-38 | a default-constructed arena holds `DEFAULT_BLOCK_SIZE` = 4096 * 1024 elements, starts unused, and accepts a first request exactly when it asks for at most that many |
| BumpArena.Copy | src/memory.h:42-43 | the copy is a new arena of the source's size with its offset at the start |
| BumpArena.Allocate | src/allocator.h:54-68 | `bad_alloc` with the arena unchanged exactly when `offset + n > size`; otherwise the old offset is returned, the offset advances by `n` and stays within `size`, the counter rises by `n` modulo 2^64 |
| BumpArena.DeallocateCounted | src/allocator.h:70-75 | the offset never moves back; the counter falls by exactly `n` when it held at least `n`, and otherwise wraps to `counter + 2^64 - n` |
| BumpArena.DeallocateUncounted | src/memory.h:68-72 | neither the offset nor the debug counter changes |
| BumpArena.AllocateThenDeallocate | src/allocator.h:58-75 | after `allocate(n)` then `deallocate(p, n)` the offset stays advanced (no reuse) and the counter is back where it started |
| BumpArena.SevenCannotHoldEight | test/test_memory.cpp:52-71 | an arena of 7 elements throws `bad_alloc` on a request for 8 and is left unchanged |
| BumpArena.RunGrantsDisjointRanges | src/memory.h:56-61 | over any sequence of calls `offset <= size` holds, the offset never decreases, and the granted ranges are ordered, pairwise disjoint and inside the used part of the array |
| BumpArena.UncountedCounterTracksOffset | src/memory.h:60-72 | with memory.h's `deallocate` the debug counter always equals the offset, so it never wraps and never decreases |

## Left out

- The chained bump arena (`ChainedBlockAllocator` in src/allocator.h, `PoolAllocator` in src/memory.h): its oversize path rounds with a floating-point `std::ceil`, its list starts with null entries, and its current-block iterator is not advanced after growth, so its bound checks compare unrelated pointers.
- `stl_allocator`: a thin wrapper over `malloc`/`free`.
- `construct`, `destroy`, `address`, `rebind`, and the placement-new re-initialisation of the array inside `deallocate`: object lifetime, not allocation policy. `deallocate` is modelled as the push of the block id.
- Destructors and the release of memory, including who frees an aliased block after a `ChainedBlockAllocator` copy; the model tracks list contents only.
- The deleted move constructors: nothing to model.
- `init()`: never called (its call is commented out in both constructors).
- Out-of-memory from `new _T[...]`: block creation always succeeds.
- Debug logging to `std::cout`; the `assert` conditions are stated as contracts instead.
- Tests, the benchmark and src/main.cpp, other than the arena-of-7 test, which `BumpArena.SevenCannotHoldEight` restates.
- SizeClass.BlockSizeFromIndex: requires `index < 64`; the `uint8_t` parameter admits larger values, but shifting a 64-bit `size_t` by 64 or more is undefined, and every caller passes a class index below 64.
- BumpArena.Allocate: `offset + n` is compared without overflow; the pointer addition of the source is undefined behaviour when it overflows, so the model does not wrap it.
- The caller's promise that `deallocate` receives the `n` it passed to `allocate` is not checked, as in the source; `FreeLists.DeallocatePreservesInv` states it as a requirement of the invariant.

## Findings

| source | as written | input that shows it | evidently intended | confidence | as-written member | corrected member |
|---|---|---|---|---|---|---|
| src/chained_block_allocator.h:60-64 | the copy constructor `emplace_front`s the source's raw block pointers into its own lists, so both allocators list the same idle blocks | `allocate(1)` then `deallocate(p, 1)` on an allocator, copy it, then `allocate(1)` on each: both return `p` | a copy with its own, initially empty lists, as `StaticChainedBlockAllocator`'s copy constructor (src/allocator.h:244-245) does | medium, not executed | ChainedBlock.CopyHandsOutSameBlock | StaticChained.CopyIsIndependent |
