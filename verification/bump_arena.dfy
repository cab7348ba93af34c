/**
 `StaticBlockAllocator`: one array of `size` elements carved front to back.
 A pointer into the array is its element offset. `allocate(n)` hands out
 `[offset, offset + n)` and advances `offset`; nothing is ever handed back.

 The class appears twice with the same constructor, copy constructor and
 `allocate`. They differ in `deallocate` and its debug counter
 `debugAllocatedSize`, a `uint64_t`: the copy in allocator.h subtracts `n`
 from it (wrapping modulo 2^64), the copy in memory.h leaves it alone.
 The counter and every update to it exist only in debug builds (`NDEBUG`
 not defined); this model describes a debug build. In a release build the
 counter is absent and the other fields behave as modelled.
 */
module BumpArena {
  import opened SizeClass

  /** `DEFAULT_BLOCK_SIZE`: the element count of a default-constructed arena. */
  const DefaultBlockSize: Size := 4096 * 1024

  /** `size` elements, the next free `offset`, and the debug counter. */
  datatype Arena = Arena(size: Size, offset: nat, debugAllocated: nat)

  /** `allocate` either returns a pointer or throws `bad_alloc`; both carry the resulting arena. */
  datatype Outcome = Allocated(arena: Arena, ptr: nat) | BadAlloc(arena: Arena)

  /** The offset never passes the end of the array; the counter is a `uint64_t`. */
  predicate Valid(a: Arena) {
    a.offset <= a.size && a.debugAllocated < SizeLimit
  }

  /**
   The constructor: `offset` starts at the beginning of a new array of `size`
   elements. The default constructor is `Construct(DefaultBlockSize)`.
   */
  function Construct(size: Size): (a: Arena)
    ensures Valid(a)
    ensures a.size == size && a.offset == 0 && a.debugAllocated == 0
  {
    Arena(size, 0, 0)
  }

  /**
   The default constructor, `StaticBlockAllocator()`: an arena of
   `DEFAULT_BLOCK_SIZE` elements, which takes any first request of at most
   that many elements and throws on every larger one.
   */
  function ConstructDefault(): (a: Arena)
    ensures Valid(a) && a.offset == 0 && a.debugAllocated == 0
    ensures a.size == DefaultBlockSize
    ensures forall n: Size :: Allocate(a, n).Allocated? <==> n <= DefaultBlockSize
  {
    Construct(DefaultBlockSize)
  }

  /** The copy constructor: a new arena of the source's size, none of it used. */
  function Copy(src: Arena): (a: Arena)
    ensures Valid(a)
    ensures a.size == src.size && a.offset == 0 && a.debugAllocated == 0
  {
    Construct(src.size)
  }

  /** `allocate(n)`. */
  function Allocate(a: Arena, n: Size): (r: Outcome)
    ensures r.BadAlloc? <==> a.offset + n > a.size
    ensures r.BadAlloc? ==> r.arena == a
    ensures r.Allocated? ==>
              && r.ptr == a.offset
              && r.arena.size == a.size
              && r.arena.offset == r.ptr + n <= a.size
              && r.arena.debugAllocated == (a.debugAllocated + n) % SizeLimit
    ensures Valid(a) ==> Valid(r.arena)
  {
    if a.offset + n > a.size then
      BadAlloc(a)
    else
      Allocated(Arena(a.size, a.offset + n, (a.debugAllocated + n) % SizeLimit), a.offset)
  }

  /** `deallocate(p, n)` of allocator.h: only the debug counter moves, down by `n`. */
  function DeallocateCounted(a: Arena, n: Size): (r: Arena)
    ensures r.size == a.size && r.offset == a.offset
    ensures r.debugAllocated < SizeLimit
    ensures a.debugAllocated < SizeLimit ==>
              (n <= a.debugAllocated <==> r.debugAllocated == a.debugAllocated - n)
    ensures a.debugAllocated < n ==> r.debugAllocated == a.debugAllocated + SizeLimit - n
  {
    Arena(a.size, a.offset, (a.debugAllocated - n) % SizeLimit)
  }

  /** `deallocate(p, n)` of memory.h: nothing at all changes. */
  function DeallocateUncounted(a: Arena, n: Size): (r: Arena)
    ensures r.size == a.size && r.offset == a.offset && r.debugAllocated == a.debugAllocated
  {
    a
  }

  /**
   No reuse, but the counter round-trips: giving back what was just taken
   leaves the offset advanced and the debug counter where it started.
   */
  lemma AllocateThenDeallocate(a: Arena, n: Size)
    requires Valid(a) && Allocate(a, n).Allocated?
    ensures DeallocateCounted(Allocate(a, n).arena, n).offset == a.offset + n
    ensures DeallocateCounted(Allocate(a, n).arena, n).debugAllocated == a.debugAllocated
    ensures DeallocateUncounted(Allocate(a, n).arena, n).offset == a.offset + n
  {
  }

  /** An arena of 7 elements cannot hold 8: `allocate(8)` throws and nothing changes. */
  lemma SevenCannotHoldEight()
    ensures Allocate(Construct(7), 8) == BadAlloc(Construct(7))
  {
  }

  // ---------------------------------------------------------------------------
  // Sequences of calls

  /** One call on the allocator. */
  datatype Op = Alloc(n: Size) | Dealloc(ptr: nat, n: Size)

  /** Which of the two `deallocate` bodies is in force. */
  datatype Release = Counted | Uncounted

  /** A granted range `[start, start + len)` of the array. */
  datatype Range = Range(start: nat, len: nat)

  /** Final arena and the ranges handed out, in order; a thrown `bad_alloc` is caught and the run goes on. */
  datatype Trace = Trace(arena: Arena, grants: seq<Range>)

  function Run(release: Release, a: Arena, ops: seq<Op>): (t: Trace)
    ensures t.arena.size == a.size
    ensures |t.grants| <= |ops|
    decreases |ops|
  {
    if ops == [] then Trace(a, [])
    else
      match ops[0]
      case Alloc(n) =>
        (match Allocate(a, n)
         case Allocated(a', p) =>
           var rest := Run(release, a', ops[1..]);
           Trace(rest.arena, [Range(p, n)] + rest.grants)
         case BadAlloc(a') => Run(release, a', ops[1..]))
      case Dealloc(_, n) =>
        var a' := if release == Counted then DeallocateCounted(a, n) else DeallocateUncounted(a, n);
        Run(release, a', ops[1..])
  }

  /** The ranges are ordered and pairwise disjoint. */
  predicate Ascending(g: seq<Range>) {
    forall j, k :: 0 <= j < k < |g| ==> g[j].start + g[j].len <= g[k].start
  }

  /**
   Over any sequence of calls, `offset <= size` is kept, the offset never moves
   back (no reuse), and every range handed out lies between the starting and
   final offsets, after every earlier range.
   */
  lemma {:induction false} RunGrantsDisjointRanges(release: Release, a: Arena, ops: seq<Op>)
    requires Valid(a)
    ensures Valid(Run(release, a, ops).arena)
    ensures a.offset <= Run(release, a, ops).arena.offset
    ensures forall j :: 0 <= j < |Run(release, a, ops).grants| ==>
      a.offset <= Run(release, a, ops).grants[j].start &&
      Run(release, a, ops).grants[j].start + Run(release, a, ops).grants[j].len <= Run(release, a, ops).arena.offset
    ensures Ascending(Run(release, a, ops).grants)
    decreases |ops|
  {
    if ops != [] {
      match ops[0]
      case Alloc(n) =>
        match Allocate(a, n) {
          case Allocated(a', p) =>
            RunGrantsDisjointRanges(release, a', ops[1..]);
            var rest := Run(release, a', ops[1..]);
            var g := [Range(p, n)] + rest.grants;
            assert forall k :: 1 <= k < |g| ==> g[k] == rest.grants[k - 1];
          case BadAlloc(a') =>
            RunGrantsDisjointRanges(release, a', ops[1..]);
        }
      case Dealloc(_, n) =>
        var a' := if release == Counted then DeallocateCounted(a, n) else DeallocateUncounted(a, n);
        RunGrantsDisjointRanges(release, a', ops[1..]);
    }
  }

  /**
   With memory.h's `deallocate` the debug counter is exactly the offset, so it
   never wraps and never decreases over any sequence of calls.
   */
  lemma {:induction false} UncountedCounterTracksOffset(a: Arena, ops: seq<Op>)
    requires Valid(a) && a.debugAllocated == a.offset
    ensures Run(Uncounted, a, ops).arena.debugAllocated == Run(Uncounted, a, ops).arena.offset
    ensures a.debugAllocated <= Run(Uncounted, a, ops).arena.debugAllocated
    decreases |ops|
  {
    RunGrantsDisjointRanges(Uncounted, a, ops);
    if ops != [] {
      match ops[0]
      case Alloc(n) =>
        UncountedCounterTracksOffset(Allocate(a, n).arena, ops[1..]);
      case Dealloc(_, n) =>
        UncountedCounterTracksOffset(a, ops[1..]);
    }
  }
}
