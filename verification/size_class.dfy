/**
 Size-class mapper shared by the free-list allocators.

 A request for `n` elements is filed under class `IndexFromBlockSize(n)`, the
 number of right shifts that bring `n` to zero minus one, i.e. the position of
 the highest set bit (0 for n = 0). Class `i` holds blocks of `2^i` elements.
 The mapping FLOORS: a request that is not a power of two lands in a class
 whose blocks are strictly smaller than the request.
 */
module SizeClass {

  /** Number of free lists (`BLOCK_LIST_SIZE`). */
  const BlockListSize: nat := 64

  /** One past the largest `size_t` value. */
  const SizeLimit: nat := 0x1_0000_0000_0000_0000

  /** The values of a 64-bit `size_t`. */
  type Size = n: nat | n < SizeLimit

  /** `2^i`, by recursion on `i`. */
  function Pow2(i: nat): (r: nat)
    ensures r >= 1
  {
    if i == 0 then 1 else 2 * Pow2(i - 1)
  }

  /** `n` is a power of two. */
  predicate IsPowerOfTwo(n: nat) {
    exists k: nat :: k < BlockListSize && Pow2(k) == n
  }

  /** `i` is the position of the highest set bit of `n`. */
  predicate IsFloorLog2(n: nat, i: nat) {
    Pow2(i) <= n < Pow2(i + 1)
  }

  lemma {:induction false} Pow2Monotone(a: nat, b: nat)
    requires a <= b
    ensures Pow2(a) <= Pow2(b)
    decreases b
  {
    if a < b {
      Pow2Monotone(a, b - 1);
    }
  }

  lemma {:induction false} Pow2Add(a: nat, b: nat)
    ensures Pow2(a + b) == Pow2(a) * Pow2(b)
    decreases a
  {
    if a > 0 {
      Pow2Add(a - 1, b);
    }
  }

  lemma Pow2Limit()
    ensures Pow2(BlockListSize) == SizeLimit
  {
    assert Pow2(8) == 0x100;
    Pow2Add(8, 8);
    Pow2Add(16, 16);
    Pow2Add(32, 32);
  }

  /** The highest set bit is unique: two candidates are equal. */
  lemma {:induction false} FloorLog2Unique(n: nat, i: nat, j: nat)
    requires IsFloorLog2(n, i) && IsFloorLog2(n, j)
    ensures i == j
  {
    if i < j {
      Pow2Monotone(i + 1, j);
    } else if j < i {
      Pow2Monotone(j + 1, i);
    }
  }

  /**
   Number of successful iterations of `for(; size >>= 1; ++index);`:
   each step halves `size` and counts one when the halved value is non-zero.
   */
  function Shifts(size: nat): (r: nat)
    ensures size >= 1 ==> IsFloorLog2(size, r)
    ensures size <= 1 ==> r == 0
  {
    if size / 2 == 0 then 0 else 1 + Shifts(size / 2)
  }

  /** `indexFromBlockSize`: the class that a request of `n` elements is filed under. */
  function IndexFromBlockSize(n: Size): (r: nat)
    ensures r < BlockListSize
    ensures n >= 1 ==> IsFloorLog2(n, r)
    ensures n == 0 ==> r == 0
  {
    var r := Shifts(n);
    if n >= 1 then
      assert r < BlockListSize by {
        Pow2Limit();
        if r >= BlockListSize {
          Pow2Monotone(BlockListSize, r);
        }
      }
      r
    else
      r
  }

  /** The shifting loop of `indexFromBlockSize`, statement by statement. */
  method IndexFromBlockSizeLoop(n: Size) returns (index: nat)
    ensures index < BlockListSize
    ensures n >= 1 ==> Pow2(index) <= n < Pow2(index + 1)
    ensures n == 0 ==> index == 0
  {
    index := 0;
    var size: nat := n / 2;
    while size != 0
      invariant index + Shifts(2 * size) == Shifts(n)
      decreases size
    {
      index := index + 1;
      size := size / 2;
    }
    assert index == IndexFromBlockSize(n);
  }

  /** `blockSizeFromIndex`: the number of elements of a block of class `index`. */
  function BlockSizeFromIndex(index: nat): (r: Size)
    requires index < BlockListSize
    ensures r >= 1 && IsPowerOfTwo(r)
    ensures IndexFromBlockSize(r) == index
  {
    Pow2Monotone(index + 1, BlockListSize);
    Pow2Limit();
    var r: Size := Pow2(index);
    assert IsFloorLog2(r, index);
    FloorLog2Unique(r, index, IndexFromBlockSize(r));
    r
  }

  /**
   Because the mapping floors, a block of the class chosen for `n` never holds
   more than `n` elements, and holds exactly `n` only when `n` is a power of two.
   */
  lemma CapacityFloorsRequest(n: Size)
    requires n >= 1
    ensures BlockSizeFromIndex(IndexFromBlockSize(n)) <= n < 2 * BlockSizeFromIndex(IndexFromBlockSize(n))
    ensures BlockSizeFromIndex(IndexFromBlockSize(n)) == n <==> IsPowerOfTwo(n)
  {
    var i := IndexFromBlockSize(n);
    if IsPowerOfTwo(n) {
      var k: nat :| k < BlockListSize && Pow2(k) == n;
      assert IsFloorLog2(n, k);
      FloorLog2Unique(n, i, k);
    }
  }

  /** A request for 9 elements gets a block of 8: the class is too small for it. */
  lemma NineElementsGetEight()
    ensures IndexFromBlockSize(9) == 3
    ensures BlockSizeFromIndex(IndexFromBlockSize(9)) == 8
  {
  }
}
