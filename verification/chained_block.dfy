/**
 What `ChainedBlockAllocator` adds to the free-list table: its copy
 constructor and its identity-based `operator==`.

 The copy walks each list of the source front to back and `emplace_front`s
 every block into the new list, so each list comes out reversed, and the copy
 holds the very blocks the source holds.
 */
module ChainedBlock {
  import opened SizeClass
  import opened FreeLists

  /**
   The inner loop of the copy constructor: push every element of `s`, in
   order, onto the front of `acc`.
   */
  function PushAllFront(acc: seq<BlockId>, s: seq<BlockId>): (r: seq<BlockId>)
    ensures |r| == |acc| + |s|
    ensures forall j :: 0 <= j < |s| ==> r[j] == s[|s| - 1 - j]
    ensures r[|s|..] == acc
    decreases |s|
  {
    if s == [] then acc
    else
      var r := PushAllFront([s[0]] + acc, s[1..]);
      assert r[|s| - 1..] == [s[0]] + acc;
      assert r[|s| - 1] == s[0];
      assert r[|s|..] == r[|s| - 1..][1..];
      r
  }

  /**
   The copy constructor. `storage` is the address of the fresh list array that
   `new BlockList[64]` returns, so it differs from the source's.
   */
  function Copy(src: Pool, storage: nat): (c: Pool)
    requires storage != src.storage
    ensures c.storage == storage
    ensures forall i :: 0 <= i < BlockListSize ==> |c.lists[i]| == |src.lists[i]|
    ensures forall i, j :: 0 <= i < BlockListSize && 0 <= j < |src.lists[i]| ==>
      c.lists[i][j] == src.lists[i][|src.lists[i]| - 1 - j]
  {
    Pool(storage, seq(BlockListSize, i requires 0 <= i < BlockListSize => PushAllFront([], src.lists[i])))
  }

  /**
   `operator==`: the same list array, not the same contents. Two pools are
   equal exactly when they differ at most in what their lists hold.
   */
  function Equal(a: Pool, b: Pool): (r: bool)
    ensures a == b ==> r
    ensures r <==> Pool(a.storage, b.lists) == b
  {
    a.storage == b.storage
  }

  /** `operator!=`: the negation of `operator==`. */
  function NotEqual(a: Pool, b: Pool): (r: bool)
    ensures r <==> !Equal(a, b)
    ensures r ==> a != b
  {
    !Equal(a, b)
  }

  /**
   A copy never compares equal to its source, even though it lists the same
   blocks; an allocator compares equal to itself, before and after it is used.
   */
  lemma CopyComparesUnequal(src: Pool, storage: nat, h: Heap, n: Size, b: BlockId)
    requires storage != src.storage
    ensures !Equal(Copy(src, storage), src) && NotEqual(Copy(src, storage), src)
    ensures Equal(Allocate(src, h, n).pool, src) && Equal(Deallocate(src, n, b), src)
  {
  }

  /** A block is on list `i` of the copy exactly when it is on list `i` of the source. */
  lemma CopyMembers(src: Pool, storage: nat)
    requires storage != src.storage
    ensures forall i, b :: 0 <= i < BlockListSize ==> (b in Copy(src, storage).lists[i] <==> b in src.lists[i])
  {
    var c := Copy(src, storage);
    forall i, b | 0 <= i < BlockListSize
      ensures b in c.lists[i] <==> b in src.lists[i]
    {
      var m := |src.lists[i]|;
      if b in c.lists[i] {
        var j :| 0 <= j < m && c.lists[i][j] == b;
        assert src.lists[i][m - 1 - j] == b;
      }
      if b in src.lists[i] {
        var j :| 0 <= j < m && src.lists[i][j] == b;
        assert c.lists[i][m - 1 - j] == b;
      }
    }
  }

  /** The copy inherits the table invariant's per-class and no-duplicate parts. */
  lemma CopyKeepsClasses(src: Pool, h: Heap, storage: nat)
    requires storage != src.storage
    requires ClassesAgree(src, h) && NoBlockTwice(src)
    ensures ClassesAgree(Copy(src, storage), h) && NoBlockTwice(Copy(src, storage))
  {
    var c := Copy(src, storage);
    CopyMembers(src, storage);
    forall i | 0 <= i < BlockListSize
      ensures Distinct(c.lists[i])
    {
      var m := |src.lists[i]|;
      forall j, k | 0 <= j < k < m
        ensures c.lists[i][j] != c.lists[i][k]
      {
        assert c.lists[i][j] == src.lists[i][m - 1 - j];
        assert c.lists[i][k] == src.lists[i][m - 1 - k];
      }
    }
    forall i, j | 0 <= i < BlockListSize && 0 <= j < |c.lists[i]|
      ensures c.lists[i][j] < |h.caps| && h.caps[c.lists[i][j]] == Pow2(i)
    {
      assert c.lists[i][j] == src.lists[i][|src.lists[i]| - 1 - j];
    }
  }

  /**
   The copy shares the source's idle blocks: the two tables are independent
   exactly when the source had no idle block at all.
   */
  lemma CopyAliasesIdleBlocks(src: Pool, storage: nat)
    requires storage != src.storage
    ensures Independent(src, Copy(src, storage)) <==> forall i :: 0 <= i < BlockListSize ==> src.lists[i] == []
  {
    var c := Copy(src, storage);
    CopyMembers(src, storage);
    if !(forall i :: 0 <= i < BlockListSize ==> src.lists[i] == []) {
      var i :| 0 <= i < BlockListSize && src.lists[i] != [];
      assert src.lists[i][0] in src.lists[i];
      assert src.lists[i][0] in c.lists[i];
    }
  }

  /**
   With one idle block in class `i`, the source and its copy both hand that
   same block out to their next callers of that class.
   */
  lemma CopyHandsOutSameBlock(src: Pool, h: Heap, storage: nat, i: nat)
    requires storage != src.storage
    requires i < BlockListSize && |src.lists[i]| == 1
    ensures Allocate(src, h, BlockSizeFromIndex(i)).block == src.lists[i][0]
    ensures Allocate(Copy(src, storage), h, BlockSizeFromIndex(i)).block == src.lists[i][0]
  {
  }
}
