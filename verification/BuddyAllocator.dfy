/**
 The buddy allocator as the kernel runs it: a bitmap and one free list per
 level, updated in place.  Pointers are offsets from the region's start and
 NULL is None.  The ghost tree is the reference state; Valid() ties every bit
 and every list entry to it.
 */
module BuddyAllocator {
  import opened PowersOfTwo
  import opened BuddyTree
  import opened BuddyRuns
  import opened BuddyBits
  import opened BuddySpine
  import opened Options

  class Buddy {
    const size: nat
    const pageSize: nat
    const numLevels: nat
    const blockInfo: array<bool>
    var freeBlocks: seq<seq<nat>>
    ghost var tree: Tree

    // ------------------------------------------------------------ specification

    ghost predicate Geometry() {
      && IsPow2(size) && IsPow2(pageSize) && ILog2(pageSize) <= ILog2(size)
      && numLevels == ILog2(size) - ILog2(pageSize) + 1
    }

    ghost predicate Valid()
      reads this, blockInfo
    {
      && Geometry()
      && Fits(tree, numLevels - 1) && Normal(tree)
      && BitsMatch(blockInfo[..], tree, numLevels - 1, -1, -1)
      && ListsMatch(freeBlocks, tree, numLevels - 1, ILog2(size))
    }

    /** The part of Valid that the walk up the split bits needs. */
    ghost predicate BitsValid()
      reads this, blockInfo
    {
      0 < numLevels && Fits(tree, numLevels - 1) && BitsMatch(blockInfo[..], tree, numLevels - 1, -1, -1)
    }

    /** Start of block k of a level. */
    ghost function Start(level: nat, k: nat): nat
      requires Geometry() && level < numLevels
    {
      Offset(ILog2(size), level, k)
    }

    /** The number of the page that holds an offset. */
    ghost function PageOf(ptr: nat): nat
      requires pageSize > 0
    {
      ptr / pageSize
    }

    // ------------------------------------------------------------ index helpers

    function BlockIndex(ptr: nat, level: nat): nat
      requires pageSize > 0 && level < numLevels
    {
      Pow2(level) + ShiftRight(ptr / pageSize, numLevels - 1 - level) - 1
    }

    static function FreeBit(index: nat): nat
      requires index > 0
    {
      (index - 1) / 2
    }

    function SplitBit(index: nat): nat {
      index + Pow2(numLevels) / 2
    }

    function ToBuddy(ptr: nat, level: nat): nat {
      BitXor(ptr, ShiftRight(size, level))
    }

    lemma {:induction false} IndexHelpers(level: nat, k: nat)
      requires Geometry() && level < numLevels && k < Pow2(level)
      ensures BlockIndex(Start(level, k), level) == Index(level, k)
      ensures SplitBit(Index(level, k)) == SplitIndex(numLevels - 1, level, k)
      ensures level > 0 ==> Index(level, k) > 0 && FreeBit(Index(level, k)) == PairIndex(level, k)
      ensures level > 0 ==> ToBuddy(Start(level, k), level) == Start(level, Sibling(k))
    {
      BlockIndexOfOffset(ILog2(size), numLevels - 1, level, k);
      if level > 0 { BuddyOffset(ILog2(size), level, k); }
    }

    method IndexAt(ptr: nat, level: nat, ghost k: nat) returns (index: nat)
      requires Geometry() && level < numLevels && k < Pow2(level) && ptr == Start(level, k)
      ensures index == Index(level, k)
    {
      IndexHelpers(level, k);
      index := BlockIndex(ptr, level);
    }

    method BuddyAt(ptr: nat, level: nat, ghost k: nat) returns (buddy: nat)
      requires Geometry() && level < numLevels && k < Pow2(level) && ptr == Start(level, k)
      ensures level > 0 ==> buddy == Start(level, Sibling(k))
    {
      IndexHelpers(level, k);
      buddy := ToBuddy(ptr, level);
    }

    /** A level's list is empty exactly when the tree has no free block there. */
    lemma {:induction false} EmptyIffNoFree(level: nat)
      requires Valid() && level < numLevels
      ensures freeBlocks[level] == [] <==> !HasFree(tree, level)
    {
      assert ListMatch(freeBlocks[level], tree, level, ILog2(size));
      if freeBlocks[level] != [] {
        assert freeBlocks[level][0] in freeBlocks[level];
      }
      if HasFree(tree, level) {
        var k: nat :| k < Pow2(level) && At(tree, level, k) == FreeBlock;
        assert Offset(ILog2(size), level, k) in freeBlocks[level];
      }
    }

    /** The block (level, k) is on its free list. */
    ghost predicate Listed(level: nat, k: nat)
      requires Valid() && level < numLevels
      reads this, blockInfo
    {
      Start(level, k) in freeBlocks[level]
    }

    lemma {:induction false} ListedIffFree(level: nat, k: nat)
      requires Valid() && level < numLevels && k < Pow2(level)
      ensures Listed(level, k) <==> At(tree, level, k) == FreeBlock
    {
      PosOfOffset(ILog2(size), level, k);
      assert ListMatch(freeBlocks[level], tree, level, ILog2(size));
    }

    /** The pair bit of two buddies is the exclusive-or of their being listed, and they are never both listed. */
    lemma {:induction false} PairBitIsXor(level: nat, k: nat)
      requires Valid() && level + 1 < numLevels && k < Pow2(level)
      ensures Index(level, k) < blockInfo.Length
      ensures blockInfo[Index(level, k)] <==> (Listed(level + 1, 2 * k) != Listed(level + 1, 2 * k + 1))
      ensures !(Listed(level + 1, 2 * k) && Listed(level + 1, 2 * k + 1))
    {
      assert PairOk(blockInfo[..], tree, level, k, -1);
      ListedIffFree(level + 1, 2 * k);
      ListedIffFree(level + 1, 2 * k + 1);
      BuddiesNotBothFree(tree, level, k);
    }

    /** A listed block or a live one. */
    ghost predicate Block(level: nat, k: nat)
      requires Valid() && level < numLevels && k < Pow2(level)
      reads this, blockInfo
    {
      Listed(level, k) || At(tree, level, k) == LiveBlock
    }

    /** Every page of the region lies in exactly one listed or live block. */
    lemma {:induction false} Partition(p: nat) returns (level: nat, k: nat)
      requires Valid() && p < Pow2(numLevels - 1)
      ensures level < numLevels && k < Pow2(level) && Block(level, k) && Contains(level, k, numLevels - 1, p)
      ensures forall l: nat, j: nat :: l < numLevels && j < Pow2(l) && Block(l, j) && Contains(l, j, numLevels - 1, p)
                ==> l == level && j == k
    {
      var depth := numLevels - 1;
      BlocksCover(tree, depth, p);
      level, k :| level <= depth && k < Pow2(level) && Leaf(tree, level, k) && Contains(level, k, depth, p);
      ListedIffFree(level, k);
      forall l: nat, j: nat | l < numLevels && j < Pow2(l) && Block(l, j) && Contains(l, j, depth, p)
        ensures l == level && j == k
      {
        ListedIffFree(l, j);
        BlocksDisjoint(tree, depth, l, j, level, k, p);
      }
    }

    // --------------------------------------------------------------- operations

    /** buddy_init */
    constructor (size: nat, pageSize: nat)
      requires IsPow2(size) && IsPow2(pageSize) && pageSize <= size
      ensures Valid() && fresh(blockInfo)
      ensures this.size == size && this.pageSize == pageSize
      ensures tree == Free && blockInfo.Length == 64 * Pow2(numLevels)
    {
      ILog2Monotone(pageSize, size);
      var n := ILog2(size) - ILog2(pageSize) + 1;
      this.size, this.pageSize, this.numLevels := size, pageSize, n;
      blockInfo := new bool[64 * Pow2(n)](_ => false);
      freeBlocks := [[0]] + seq(n - 1, _ => []);
      tree := Free;
      new;
      InitialBits(blockInfo[..], n - 1);
      InitialLists(n - 1, ILog2(size));
      assert freeBlocks == InitialFree(n - 1);
    }

    /** The final step of buddy_create: bits copied, lists spliced, into the allocator at the region's start. */
    constructor MovedFrom(tmp: Buddy)
      requires tmp.Valid()
      ensures Valid() && fresh(blockInfo) && size == tmp.size && pageSize == tmp.pageSize && numLevels == tmp.numLevels
      ensures tree == tmp.tree && freeBlocks == tmp.freeBlocks && blockInfo[..] == tmp.blockInfo[..]
    {
      size, pageSize, numLevels := tmp.size, tmp.pageSize, tmp.numLevels;
      var copy := new bool[tmp.blockInfo.Length];
      for i := 0 to tmp.blockInfo.Length
        invariant tmp.Valid() && copy != tmp.blockInfo
        invariant copy[..i] == tmp.blockInfo[..i]
      {
        copy[i] := tmp.blockInfo[i];
      }
      blockInfo := copy;
      freeBlocks := tmp.freeBlocks;
      tree := tmp.tree;
      new;
      assert blockInfo[..] == tmp.blockInfo[..];
    }

    /** Block (l, k) is off its free list and its pair bit is not yet toggled. */
    ghost predicate Taken(l: nat, k: nat)
      reads this, blockInfo
    {
      && Geometry() && l < numLevels && k < Pow2(l) && At(tree, l, k) == LiveBlock
      && BitsMatch(blockInfo[..], tree, numLevels - 1, PairIndex(l, k), -1)
      && ListsMatch(freeBlocks, tree, numLevels - 1, ILog2(size))
    }

    /** One round of the splitting loop: the left half stays taken, the right half becomes free. */
    method SplitOnce(blockPtr: nat, blockLevel: nat, blockIndex: nat, ghost k: nat)
      requires Taken(blockLevel, k) && blockLevel + 1 < numLevels
      requires blockPtr == Start(blockLevel, k) && blockIndex == Index(blockLevel, k)
      modifies this, blockInfo
      ensures Taken(blockLevel + 1, 2 * k)
      ensures tree == Put(old(tree), blockLevel, k, Split(Live, Free))
      ensures Start(blockLevel + 1, 2 * k) == blockPtr
    {
      ghost var sizeLog, depth, t := ILog2(size), numLevels - 1, tree;
      MarkSplit(blockLevel, blockIndex, k);
      LeftChildOffset(sizeLog, blockLevel, k);
      var buddyPtr := BuddyAt(blockPtr, blockLevel + 1, 2 * k);
      assert buddyPtr == Offset(sizeLog, blockLevel + 1, 2 * k + 1);
      SplitLists(freeBlocks, t, depth, sizeLog, blockLevel, k);
      freeBlocks := freeBlocks[blockLevel + 1 := [buddyPtr] + freeBlocks[blockLevel + 1]];
      PutLeftChild(t, blockLevel, k, Live, Free, Live);
      tree := Put(t, blockLevel, k, Split(Live, Free));
    }

    /** The bitmap part of a split: set the split bit and, below the root, toggle the pair bit. */
    method MarkSplit(blockLevel: nat, blockIndex: nat, ghost k: nat)
      requires Geometry() && blockLevel + 1 < numLevels && k < Pow2(blockLevel) && At(tree, blockLevel, k) == LiveBlock
      requires BitsMatch(blockInfo[..], tree, numLevels - 1, PairIndex(blockLevel, k), -1)
      requires blockIndex == Index(blockLevel, k)
      modifies blockInfo
      ensures BitsMatch(blockInfo[..], Put(tree, blockLevel, k, Split(Live, Free)), numLevels - 1,
                        Index(blockLevel, k), -1)
    {
      ghost var bits := blockInfo[..];
      IndexHelpers(blockLevel, k);
      SplitRoundBits(bits, tree, numLevels - 1, blockLevel, k);
      blockInfo[SplitBit(blockIndex)] := true;
      ghost var marked := blockInfo[..];
      assert marked == bits[SplitIndex(numLevels - 1, blockLevel, k) := true];
      if blockLevel > 0 {
        blockInfo[FreeBit(blockIndex)] := !blockInfo[FreeBit(blockIndex)];
        assert blockInfo[..] == marked[PairIndex(blockLevel, k) := !marked[PairIndex(blockLevel, k)]];
      }
    }

    /** Toggling the pair bit of a taken block completes an allocation. */
    method Settle(level: nat, blockIndex: nat, ghost k: nat)
      requires Taken(level, k) && Fits(tree, numLevels - 1) && Normal(tree) && blockIndex == Index(level, k)
      modifies blockInfo
      ensures Valid()
    {
      if level > 0 {
        IndexHelpers(level, k);
        TogglePair(blockInfo[..], tree, numLevels - 1, PairIndex(level, k), -1, level - 1, k / 2);
        blockInfo[FreeBit(blockIndex)] := !blockInfo[FreeBit(blockIndex)];
      }
    }

    /** The deepest non-empty list at or above `level`, or -1. */
    method FindFreeLevel(level: nat) returns (blockLevel: int)
      requires level < |freeBlocks|
      ensures -1 <= blockLevel <= level
      ensures blockLevel >= 0 ==> freeBlocks[blockLevel] != []
      ensures forall l :: blockLevel < l <= level ==> freeBlocks[l] == []
    {
      blockLevel := level;
      while blockLevel >= 0 && freeBlocks[blockLevel] == []
        invariant -1 <= blockLevel <= level
        invariant forall l :: blockLevel < l <= level ==> freeBlocks[l] == []
      {
        blockLevel := blockLevel - 1;
      }
    }

    /** buddy_level_alloc */
    method LevelAlloc(level: nat) returns (r: Option<nat>, ghost op: Op)
      requires Valid() && level < numLevels
      modifies this, blockInfo
      ensures Valid()
      ensures r.None? <==> forall l :: 0 <= l <= level ==> old(freeBlocks)[l] == []
      ensures r.None? ==> tree == old(tree) && freeBlocks == old(freeBlocks) && blockInfo[..] == old(blockInfo[..])
      ensures r.Some? ==> op.AllocOp? && op.level == level && Enabled(old(tree), op, numLevels - 1)
      ensures r.Some? ==> tree == Apply(old(tree), op, numLevels - 1)
      ensures r.Some? ==> Allocated(op, r.value)
    {
      op := FreeOp(0, 0);
      var blockLevel := FindFreeLevel(level);
      if blockLevel < 0 {
        return None, op;
      }
      ghost var t0, from := tree, blockLevel as nat;
      var blockPtr, k := TakeFirst(blockLevel, level);
      op := AllocOp(level, from, k);
      var blockIndex, kk := SplitDown(blockLevel, level, blockPtr, k, Carve(t0, from, k, level));
      PutSame(tree, level, kk);
      Settle(level, blockIndex, kk);
      AllocatedBlock(t0, op, blockPtr);
      r := Some(blockPtr);
    }

    /** The splitting loop: the left halves down to `level`, all with the pointer of the first block. */
    method SplitDown(from: nat, level: nat, blockPtr: nat, ghost k: nat, ghost goal: Tree)
      returns (blockIndex: nat, ghost kk: nat)
      requires from <= level && Taken(from, k) && level < numLevels && blockPtr == Start(from, k)
      requires Put(tree, from, k, LeftSpine(level - from)) == goal
      modifies this, blockInfo
      ensures Taken(level, kk) && blockIndex == Index(level, kk) && blockPtr == Start(level, kk)
      ensures Put(tree, level, kk, Live) == goal
    {
      var blockLevel := from;
      blockIndex := IndexAt(blockPtr, blockLevel, k);
      kk := k;
      while blockLevel < level
        invariant from <= blockLevel <= level
        invariant Taken(blockLevel, kk) && blockIndex == Index(blockLevel, kk) && blockPtr == Start(blockLevel, kk)
        invariant Put(tree, blockLevel, kk, LeftSpine(level - blockLevel)) == goal
      {
        PutLeftChild(tree, blockLevel, kk, Live, Free, LeftSpine(level - blockLevel - 1));
        SplitOnce(blockPtr, blockLevel, blockIndex, kk);
        kk := 2 * kk;
        blockIndex := 2 * blockIndex + 1;
        blockLevel := blockLevel + 1;
      }
    }

    /** ptr is the start of the block that the allocation made live. */
    ghost predicate Allocated(op: Op, ptr: nat)
      requires Geometry()
      reads this
    {
      && op.AllocOp? && op.from <= op.level < numLevels && op.k < Pow2(op.from)
      && var k := ShiftLeft(op.k, op.level - op.from);
         k < Pow2(op.level) && At(tree, op.level, k) == LiveBlock && ptr == Start(op.level, k)
    }

    lemma {:induction false} AllocatedBlock(t: Tree, op: Op, ptr: nat)
      requires Geometry() && op.AllocOp? && op.level < numLevels && Enabled(t, op, numLevels - 1)
      requires tree == Apply(t, op, numLevels - 1) && ptr == Start(op.from, op.k)
      ensures Allocated(op, ptr)
    {
      var d := op.level - op.from;
      ShiftLeftBound(op.k, op.from, d);
      CarveLive(t, op.from, op.k, d, op.level, ShiftLeft(op.k, d));
      ShiftLeftTwice(op.k, d, ILog2(size) - op.level);
    }

    /** list_del of the first free block of a level, with the operation it starts. */
    method TakeFirst(blockLevel: nat, ghost level: nat) returns (blockPtr: nat, ghost k: nat)
      requires Valid() && blockLevel <= level < numLevels && freeBlocks[blockLevel] != []
      requires forall l :: blockLevel < l <= level ==> freeBlocks[l] == []
      modifies this
      ensures Taken(blockLevel, k) && blockPtr == Start(blockLevel, k)
      ensures Enabled(old(tree), AllocOp(level, blockLevel, k), numLevels - 1)
      ensures Put(tree, blockLevel, k, LeftSpine(level - blockLevel)) == Carve(old(tree), blockLevel, k, level)
      ensures Fits(Carve(old(tree), blockLevel, k, level), numLevels - 1)
        && Normal(Carve(old(tree), blockLevel, k, level))
    {
      ghost var sizeLog, depth, t := ILog2(size), numLevels - 1, tree;
      blockPtr := freeBlocks[blockLevel][0];
      k := Pos(sizeLog, blockLevel, blockPtr);
      TakeLists(freeBlocks, t, depth, sizeLog, blockLevel, k);
      forall m: nat | blockLevel < m <= level
        ensures !HasFree(t, m)
      {
        EmptyIffNoFree(m);
      }
      CarveShape(t, blockLevel, k, level, depth);
      TakeBits(blockInfo[..], t, depth, blockLevel, k);
      PutPut(t, blockLevel, k, Live, LeftSpine(level - blockLevel));
      AtPut(t, blockLevel, k, Live);
      freeBlocks := freeBlocks[blockLevel := freeBlocks[blockLevel][1..]];
      tree := Put(t, blockLevel, k, Live);
    }

    /** Block (l, k) is being freed: its pair bit is toggled, its split bit may be stale. */
    ghost predicate Releasing(l: nat, k: nat)
      reads this, blockInfo
    {
      ReleasingWith(l, k, PairIndex(l, k))
    }

    ghost predicate ReleasingWith(l: nat, k: nat, flip: int)
      reads this, blockInfo
    {
      && Geometry() && l < numLevels && k < Pow2(l) && At(tree, l, k) == LiveBlock
      && Fits(tree, numLevels - 1) && Normal(tree)
      && BitsMatch(blockInfo[..], tree, numLevels - 1, flip, SplitIndex(numLevels - 1, l, k))
      && ListsMatch(freeBlocks, tree, numLevels - 1, ILog2(size))
    }

    /** The loop test of buddy_level_free: below the root, a clear pair bit means the buddy is free. */
    method BuddyIsFree(blockIndex: nat, level: nat, ghost k: nat) returns (free: bool)
      requires Releasing(level, k) && blockIndex == Index(level, k)
      ensures free <==> level > 0 && Sibling(k) < Pow2(level) && At(tree, level, Sibling(k)) == FreeBlock
    {
      if level == 0 {
        return false;
      }
      IndexHelpers(level, k);
      PairBitTellsBuddy(blockInfo[..], tree, numLevels - 1, level, k, SplitIndex(numLevels - 1, level, k));
      free := !blockInfo[FreeBit(blockIndex)];
    }

    /** The bitmap part of a merge: the split bit of the block is cleared. */
    method ClearJoined(blockIndex: nat, level: nat, ghost k: nat)
      requires Releasing(level, k) && level > 0 && Sibling(k) < Pow2(level) && At(tree, level, Sibling(k)) == FreeBlock
      requires blockIndex == Index(level, k)
      modifies blockInfo
      ensures k / 2 < Pow2(level - 1) && At(tree, level - 1, k / 2) == SplitBlock
      ensures BitsMatch(blockInfo[..], Put(tree, level - 1, k / 2, Live), numLevels - 1, -1,
                        SplitIndex(numLevels - 1, level - 1, k / 2))
    {
      IndexHelpers(level, k);
      JoinBits(blockInfo[..], tree, numLevels - 1, level, k);
      blockInfo[SplitBit(blockIndex)] := false;
    }

    /** One round of the coalescing loop: the buddy leaves its list and the parent is being freed. */
    method MergeOnce(ptr: nat, buddyPtr: nat, blockIndex: nat, level: nat, ghost k: nat)
      returns (p: nat)
      requires Releasing(level, k) && level > 0 && Sibling(k) < Pow2(level) && At(tree, level, Sibling(k)) == FreeBlock
      requires ptr == Start(level, k) && buddyPtr == Start(level, Sibling(k)) && blockIndex == Index(level, k)
      modifies this, blockInfo
      ensures ReleasingWith(level - 1, k / 2, -1) && p == Start(level - 1, k / 2)
      ensures Release(tree, level - 1, k / 2) == Release(old(tree), level, k)
    {
      ghost var sizeLog, depth, t := ILog2(size), numLevels - 1, tree;
      ClearJoined(blockIndex, level, k);
      JoinLists(freeBlocks, t, depth, sizeLog, level, k);
      freeBlocks := freeBlocks[level := Remove(freeBlocks[level], buddyPtr)];
      ReleaseJoins(t, level, k);
      PutShape(t, level - 1, k / 2, Live, depth);
      tree := Put(t, level - 1, k / 2, Live);
      ParentOffset(sizeLog, level, k);
      p := Lower(buddyPtr, ptr);
    }

    /** Toggling the pair bit of a block below the root. */
    method TogglePairBit(blockIndex: nat, level: nat, ghost k: nat)
      requires ReleasingWith(level, k, -1) && blockIndex == Index(level, k)
      modifies blockInfo
      ensures Releasing(level, k)
    {
      if level > 0 {
        IndexHelpers(level, k);
        TogglePair(blockInfo[..], tree, numLevels - 1, -1, SplitIndex(numLevels - 1, level, k), level - 1, k / 2);
        blockInfo[FreeBit(blockIndex)] := !blockInfo[FreeBit(blockIndex)];
      }
    }

    /** The body of the coalescing loop, up to the next test of its condition. */
    method MergeRound(ptr: nat, buddyPtr: nat, blockIndex: nat, level: nat, ghost k: nat)
      returns (p: nat, parentIndex: nat, parentBuddy: nat, merge: bool)
      requires Releasing(level, k) && level > 0 && Sibling(k) < Pow2(level) && At(tree, level, Sibling(k)) == FreeBlock
      requires ptr == Start(level, k) && buddyPtr == Start(level, Sibling(k)) && blockIndex == Index(level, k)
      modifies this, blockInfo
      ensures Releasing(level - 1, k / 2) && p == Start(level - 1, k / 2) && parentIndex == Index(level - 1, k / 2)
      ensures level > 1 ==> parentBuddy == Start(level - 1, Sibling(k / 2))
      ensures merge <==>
        level > 1 && Sibling(k / 2) < Pow2(level - 1) && At(tree, level - 1, Sibling(k / 2)) == FreeBlock
      ensures Release(tree, level - 1, k / 2) == Release(old(tree), level, k)
    {
      p := MergeOnce(ptr, buddyPtr, blockIndex, level, k);
      parentIndex := (blockIndex - 1) / 2;
      parentBuddy := BuddyAt(p, level - 1, k / 2);
      TogglePairBit(parentIndex, level - 1, k / 2);
      merge := BuddyIsFree(parentIndex, level - 1, k / 2);
    }

    /** Clearing the split bit and linking the block completes a release. */
    method FinishRelease(ptr: nat, blockIndex: nat, level: nat, ghost k: nat)
      requires Releasing(level, k) && ptr == Start(level, k) && blockIndex == Index(level, k)
      requires level > 0 && Sibling(k) < Pow2(level) ==> At(tree, level, Sibling(k)) != FreeBlock
      modifies this, blockInfo
      ensures Valid() && tree == Release(old(tree), level, k)
    {
      ghost var sizeLog, depth, t := ILog2(size), numLevels - 1, tree;
      IndexHelpers(level, k);
      if level > 0 { SiblingInRange(level, k); }
      ReleaseStops(t, level, k);
      ReleaseShape(t, level, k, depth);
      FinishBits(blockInfo[..], t, depth, level, k);
      blockInfo[SplitBit(blockIndex)] := false;
      FinishLists(freeBlocks, t, depth, sizeLog, level, k);
      freeBlocks := freeBlocks[level := [ptr] + freeBlocks[level]];
      tree := Put(t, level, k, Free);
    }

    /** The head of buddy_level_free: index, buddy, first toggle and first test of the loop condition. */
    method BeginRelease(ptr: nat, level: nat, ghost k: nat) returns (blockIndex: nat, buddyPtr: nat, merge: bool)
      requires Valid() && level < numLevels && k < Pow2(level)
      requires At(tree, level, k) == LiveBlock && ptr == Start(level, k)
      modifies blockInfo
      ensures Releasing(level, k) && blockIndex == Index(level, k)
      ensures level > 0 ==> buddyPtr == Start(level, Sibling(k))
      ensures merge <==> level > 0 && Sibling(k) < Pow2(level) && At(tree, level, Sibling(k)) == FreeBlock
    {
      blockIndex := IndexAt(ptr, level, k);
      buddyPtr := BuddyAt(ptr, level, k);
      LoosenDirty(blockInfo[..], tree, numLevels - 1, -1, SplitIndex(numLevels - 1, level, k));
      TogglePairBit(blockIndex, level, k);
      merge := BuddyIsFree(blockIndex, level, k);
    }

    /** buddy_level_free */
    method LevelFree(ptr: nat, level: nat, ghost k: nat)
      requires Valid() && level < numLevels && k < Pow2(level)
      requires At(tree, level, k) == LiveBlock && ptr == Start(level, k)
      modifies this, blockInfo
      ensures Valid()
      ensures tree == Release(old(tree), level, k)
    {
      ghost var t0, kk: nat := tree, k;
      var p, l := ptr, level;
      var blockIndex, buddyPtr, merge := BeginRelease(ptr, level, k);
      while merge
        invariant 0 <= l <= level && Releasing(l, kk) && p == Start(l, kk) && blockIndex == Index(l, kk)
        invariant l > 0 ==> buddyPtr == Start(l, Sibling(kk))
        invariant merge <==> l > 0 && Sibling(kk) < Pow2(l) && At(tree, l, Sibling(kk)) == FreeBlock
        invariant Release(tree, l, kk) == Release(t0, level, k)
        decreases l
      {
        p, blockIndex, buddyPtr, merge := MergeRound(p, buddyPtr, blockIndex, l, kk);
        l := l - 1;
        kk := kk / 2;
      }
      FinishRelease(p, blockIndex, l, kk);
    }

    // ------------------------------------------------------- size-based interface

    /** size_to_level: the deepest level whose blocks hold `request` bytes. */
    function SizeToLevel(request: nat): (level: nat)
      requires Geometry() && request <= size && request <= 0x4000_0000
      ensures level < numLevels && ShiftRight(size, level) >= request
      ensures level == numLevels - 1 || ShiftRight(size, level + 1) < request
    {
      if request < pageSize then
        ShiftPow2(ILog2(size), numLevels - 1);
        numLevels - 1
      else
        RoundUp(request);
        ILog2(size) - ILog2(Pow2(BitLength(request - 1)))
    }

    lemma {:induction false} RoundUp(request: nat)
      requires Geometry() && pageSize <= request <= size
      ensures var e := BitLength(request - 1); var s := ILog2(size);
              ILog2(Pow2(e)) == e && ILog2(pageSize) <= e <= s
              && ShiftRight(size, s - e) >= request
              && (e > 0 ==> s - e + 1 <= s && ShiftRight(size, s - e + 1) < request)
    {
      var e, s := BitLength(request - 1), ILog2(size);
      ILog2OfPow2(e);
      assert Pow2(e) >= request && (e > 0 ==> Pow2(e - 1) < request);
      if e > s { Pow2Monotone(s, e - 1); }
      if e < ILog2(pageSize) { Pow2Monotone(e + 1, ILog2(pageSize)); }
      ShiftPow2(s, s - e);
      if e > 0 { ShiftPow2(s, s - e + 1); }
    }

    /** buddy_largest_available */
    method LargestAvailable() returns (bytes: nat)
      requires Valid()
      ensures forall l: nat :: l < numLevels && HasFree(tree, l) ==> ShiftRight(size, l) <= bytes
      ensures bytes == 0 || exists l: nat :: l < numLevels && HasFree(tree, l) && bytes == ShiftRight(size, l)
    {
      for level := 0 to numLevels
        invariant forall l: nat :: l < level ==> !HasFree(tree, l)
      {
        EmptyIffNoFree(level);
        if freeBlocks[level] != [] {
          forall l: nat | level <= l < numLevels
            ensures ShiftRight(size, l) <= ShiftRight(size, level)
          {
            ShiftMonotone(level, l);
          }
          return ShiftRight(size, level);
        }
      }
      bytes := 0;
    }

    lemma {:induction false} ShiftMonotone(a: nat, b: nat)
      requires Geometry() && a < numLevels && b < numLevels
      ensures a <= b <==> ShiftRight(size, b) <= ShiftRight(size, a)
    {
      var s := ILog2(size);
      ShiftPow2(s, a);
      ShiftPow2(s, b);
      if a <= b {
        Pow2Monotone(s - b, s - a);
      } else {
        Pow2Monotone(s - a + 1, s - b);
      }
    }

    /** buddy_alloc: succeeds exactly when a free block of the rounded size or more exists. */
    method Alloc(request: nat) returns (r: Option<nat>, ghost op: Op)
      requires Valid() && (request > size || request <= 0x4000_0000)
      modifies this, blockInfo
      ensures Valid()
      ensures r.Some? <==>
                (request <= size
                 && exists l: nat :: l < numLevels && HasFree(old(tree), l)
                                     && ShiftRight(size, SizeToLevel(request)) <= ShiftRight(size, l))
      ensures r.None? ==> tree == old(tree) && freeBlocks == old(freeBlocks) && blockInfo[..] == old(blockInfo[..])
      ensures r.Some? ==> op.AllocOp? && op.level == SizeToLevel(request) && Enabled(old(tree), op, numLevels - 1)
      ensures r.Some? ==> tree == Apply(old(tree), op, numLevels - 1)
      ensures r.Some? ==> Allocated(op, r.value)
    {
      if request > size {
        return None, FreeOp(0, 0);
      }
      var level := SizeToLevel(request);
      forall l: nat | l < numLevels
        ensures freeBlocks[l] == [] <==> !HasFree(tree, l)
        ensures l <= level <==> ShiftRight(size, level) <= ShiftRight(size, l)
      {
        EmptyIffNoFree(l);
        ShiftMonotone(l, level);
      }
      r, op := LevelAlloc(level);
    }

    /** The deepest split block of the leftmost spine, or the root when nothing is split. */
    ghost predicate SpineStop(level: nat)
      reads this
    {
      && level < numLevels && (level == 0 || At(tree, level, 0) == SplitBlock)
      && forall m: nat :: level < m < numLevels ==> At(tree, m, 0) != SplitBlock
    }

    /** The level at which the walk has to stop. */
    ghost predicate StopsAt(page: nat, level: nat)
      requires Valid() && page <= Pow2(numLevels - 1)
      reads this, blockInfo
    {
      if page < Pow2(numLevels - 1) then OwnerLevel(tree, numLevels - 1, page) == level else SpineStop(level)
    }

    /**
     The upward walk of buddy_free.  For a block that is the whole region it
     computes the parent of index 0, (0 - 1) >> 1, and reads a bit far outside
     the bitmap: `stray` is that bit, None when the read faults.
     */
    method DetermineLevel(ptr: nat, stray: Option<bool>) returns (r: Option<nat>)
      requires Valid() && PageOf(ptr) <= Pow2(numLevels - 1)
      ensures r.Some? ==> StopsAt(PageOf(ptr), r.value)
      ensures r.None? <==> PageOf(ptr) < Pow2(numLevels - 1) && StopsAt(PageOf(ptr), 0) && stray.None?
    {
      ghost var stop := StopLevel(PageOf(ptr));
      var start := PageIndex(ptr);
      var level := Climb(start, stop);
      if level.Some? && level.value >= 0 {
        return Some(level.value);
      }
      r := if level.Some? || stray.Some? then Some(0) else None;
    }

    method PageIndex(ptr: nat) returns (index: nat)
      requires pageSize > 0 && numLevels > 0
      ensures index == Pow2(numLevels - 1) + PageOf(ptr) - 1
    {
      index := BlockIndex(ptr, numLevels - 1);
    }

    /** Level l of the walk from a start index: `stop` is the first level whose parent is marked split. */
    ghost predicate Rises(start: nat, stop: int, l: int)
      requires 0 <= l < numLevels
      reads this, blockInfo
    {
      var i := Risen(start, numLevels - 1 - l);
      && (i == 0 ==> l == 0 && stop < 0)
      && (i > 0 ==> SplitBit((i - 1) / 2) < blockInfo.Length && (blockInfo[SplitBit((i - 1) / 2)] <==> l == stop))
    }

    ghost predicate IsWalk(start: nat, stop: int)
      reads this, blockInfo
    {
      && 0 < numLevels && -1 <= stop < numLevels
      && forall l {:trigger Rises(start, stop, l)} :: 0 <= l < numLevels && stop <= l ==> Rises(start, stop, l)
    }

    /** The loop: the level of the first split parent, -1 above the root, None when index 0 has no parent. */
    method Climb(start: nat, ghost stop: int) returns (r: Option<int>)
      requires IsWalk(start, stop)
      ensures r == if stop >= 0 then Some(stop) else if Risen(start, numLevels - 1) == 0 then None else Some(-1)
    {
      var level: int, index := numLevels - 1, start;
      while level >= 0
        invariant -1 <= level < numLevels && stop <= level && index == Risen(start, numLevels - 1 - level)
        invariant level < 0 ==> Risen(start, numLevels - 1) > 0
        decreases level
      {
        assert Rises(start, stop, level);
        if index == 0 {
          return None;
        }
        index := (index - 1) / 2;
        if blockInfo[SplitBit(index)] {
          return Some(level);
        }
        level := level - 1;
      }
      r := Some(-1);
    }

    /** From every page, and from the end of the region, the walk stops where it has to. */
    lemma {:induction false} StopLevel(page: nat) returns (stop: int)
      requires Valid() && page <= Pow2(numLevels - 1)
      ensures IsWalk(Pow2(numLevels - 1) + page - 1, stop)
      ensures StopsAt(page, if stop < 0 then 0 else stop)
      ensures stop <= 0 ==>
        (page < Pow2(numLevels - 1) <==> stop < 0 && Risen(Pow2(numLevels - 1) + page - 1, numLevels - 1) == 0)
    {
      if page < Pow2(numLevels - 1) {
        stop := PageWalk(page);
      } else {
        stop := EndWalk();
      }
    }

    lemma {:induction false} PageWalk(page: nat) returns (stop: int)
      requires BitsValid() && page < Pow2(numLevels - 1)
      ensures IsWalk(Pow2(numLevels - 1) + page - 1, stop) && Risen(Pow2(numLevels - 1) + page - 1, numLevels - 1) == 0
      ensures stop != 0 && OwnerLevel(tree, numLevels - 1, page) == if stop < 0 then 0 else stop
    {
      var start, owner := Pow2(numLevels - 1) + page - 1, OwnerLevel(tree, numLevels - 1, page);
      stop := if owner == 0 then -1 else owner;
      forall l | 0 <= l < numLevels && stop <= l
        ensures Rises(start, stop, l)
      {
        PageRises(page, start, stop, l);
      }
      RisenIsAncestor(page, numLevels - 1, 0);
    }

    lemma {:induction false} PageRises(page: nat, start: nat, stop: int, l: nat)
      requires BitsValid() && page < Pow2(numLevels - 1) && start == Pow2(numLevels - 1) + page - 1
      requires l < numLevels && stop <= l
      requires var owner := OwnerLevel(tree, numLevels - 1, page); stop == if owner == 0 then -1 else owner
      ensures Rises(start, stop, l)
    {
      RisenIsAncestor(page, numLevels - 1, l);
      if l > 0 {
        Pow2Monotone(1, l);
        WalkStep(blockInfo[..], tree, numLevels - 1, page, l);
      }
    }

    lemma {:induction false} EndWalk() returns (stop: int)
      requires BitsValid()
      ensures var start := Pow2(numLevels - 1) + Pow2(numLevels - 1) - 1;
              IsWalk(start, stop) && Risen(start, numLevels - 1) > 0
      ensures SpineStop(if stop < 0 then 0 else stop)
    {
      var depth, start := numLevels - 1, Pow2(numLevels - 1) + Pow2(numLevels - 1) - 1;
      stop := DeepestSplit(depth);
      forall l | 0 <= l < numLevels && stop <= l
        ensures Rises(start, stop, l)
      {
        EndRises(start, stop, l);
      }
      RisenFromEnd(depth, 0);
    }

    lemma {:induction false} EndRises(start: nat, stop: int, l: nat)
      requires BitsValid() && l < numLevels && stop <= l && start == Pow2(numLevels - 1) + Pow2(numLevels - 1) - 1
      requires At(tree, l, 0) == SplitBlock <==> l == stop
      ensures Rises(start, stop, l)
    {
      RisenFromEnd(numLevels - 1, l);
      assert Pow2(l + 1) == 2 * Pow2(l);
      assert (Index(l + 1, 0) - 1) / 2 == Index(l, 0);
      SplitBitRead(l, 0);
    }

    /** What the split bit of a block says, at the index the source computes. */
    lemma {:induction false} SplitBitRead(l: nat, k: nat)
      requires BitsValid() && l < numLevels && k < Pow2(l)
      ensures SplitBit(Index(l, k)) < blockInfo.Length
        && (blockInfo[SplitBit(Index(l, k))] <==> At(tree, l, k) == SplitBlock)
    {
      assert SplitBit(Index(l, k)) == SplitIndex(numLevels - 1, l, k);
      assert SplitOk(blockInfo[..], tree, numLevels - 1, l, k, -1);
    }

    /** The deepest split block of the leftmost spine at or above level l, -1 when there is none. */
    lemma {:induction false} DeepestSplit(l: nat) returns (stop: int)
      ensures -1 <= stop <= l && (stop >= 0 ==> At(tree, stop, 0) == SplitBlock)
      ensures forall m: nat :: stop < m <= l ==> At(tree, m, 0) != SplitBlock
    {
      if At(tree, l, 0) == SplitBlock {
        stop := l;
      } else if l == 0 {
        stop := -1;
      } else {
        stop := DeepestSplit(l - 1);
      }
    }

    /**
     buddy_level_free of the address just behind the region, which the range
     test of buddy_free lets through.  The buddies it unlinks lie outside the
     region; the address ends up on a free list.  The climb stops at the first
     pair bit of the leftmost spine that was clear.
     */
    method LevelFreePastEnd(level: nat) returns (ghost l: nat)
      requires Valid() && level < numLevels
      modifies this, blockInfo
      ensures l <= level && freeBlocks == old(freeBlocks)[l := [size] + old(freeBlocks)[l]]
      ensures tree == old(tree) && !Valid()
      ensures SpineFreed(old(blockInfo[..]), blockInfo[..], Pow2(numLevels) / 2, l, level)
    {
      var ptr, lev := size, level;
      ghost var was := blockInfo[..];
      var blockIndex, buddyPtr := EndStart(level);
      while lev > 0 && !blockInfo[FreeBit(blockIndex)]
        invariant 0 <= lev <= level && ptr == size && freeBlocks == old(freeBlocks) && tree == old(tree)
        invariant PastEnd(lev, blockIndex, buddyPtr) && Climbing(was, lev, level)
      {
        ptr, blockIndex, buddyPtr := PastEndRound(ptr, lev, blockIndex, buddyPtr, was, level);
        lev := lev - 1;
      }
      ClearLastSplit(lev, blockIndex, buddyPtr, was, level);
      freeBlocks := freeBlocks[lev := [ptr] + freeBlocks[lev]];
      l := lev;
      assert size in freeBlocks[lev];
      EndIsNoBlock(lev);
    }

    method EndStart(level: nat) returns (index: nat, buddyPtr: nat)
      requires Valid() && level < numLevels
      modifies blockInfo
      ensures PastEnd(level, index, buddyPtr) && blockInfo[..] == Toggled(old(blockInfo[..]), level)
    {
      EndIndex(level);
      index, buddyPtr := BlockIndex(size, level), ToBuddy(size, level);
      ToggleBelowRoot(level, index, buddyPtr);
    }

    /** The bits are those of the climb from `level` that has reached lev. */
    ghost predicate Climbing(was: seq<bool>, lev: nat, level: nat)
      requires lev <= level
      reads blockInfo
    {
      var half := Pow2(numLevels) / 2;
      blockInfo[..] == Climbed(was, half, lev, level) && Climbs(was, half, lev, level)
    }

    method ClearLastSplit(lev: nat, index: nat, ghost buddyPtr: nat, ghost was: seq<bool>, ghost level: nat)
      requires PastEnd(lev, index, buddyPtr) && lev <= level < numLevels && Climbing(was, lev, level)
      requires lev > 0 ==> blockInfo[FreeBit(index)]
      modifies blockInfo
      ensures SpineFreed(was, blockInfo[..], Pow2(numLevels) / 2, lev, level)
    {
      ghost var half := Pow2(numLevels) / 2;
      EndHeight(level);
      ClearSplit(lev, index);
      ClimbEnds(was, blockInfo[..], half, lev, level);
    }

    lemma {:induction false} EndHeight(level: nat)
      requires level < numLevels
      ensures Pow2(level) <= Pow2(numLevels) / 2 == Pow2(numLevels - 1)
      ensures Pow2(level + 1) <= Pow2(numLevels)
    {
      Pow2Monotone(level, numLevels - 1);
    }

    method ClearSplit(lev: nat, index: nat)
      requires index == Index(lev + 1, 0) && SplitBit(index) < blockInfo.Length
      modifies blockInfo
      ensures blockInfo[..] == Cleared(old(blockInfo[..]), Pow2(numLevels) / 2, lev)
    {
      blockInfo[SplitBit(index)] := false;
    }

    /** What the merge loop keeps on that address: lists as they were, and no buddy inside the region. */
    ghost predicate PastEnd(lev: nat, index: nat, buddyPtr: nat)
      reads this
    {
      && Geometry() && lev < numLevels && ListsMatch(freeBlocks, tree, numLevels - 1, ILog2(size))
      && index == Index(lev + 1, 0) > 0 && FreeBit(index) < SplitBit(index) < blockInfo.Length
      && blockInfo.Length >= Pow2(numLevels) + Pow2(numLevels - 1)
      && (lev > 0 ==> size < buddyPtr)
    }

    method PastEndRound(p: nat, lev: nat, index: nat, buddyPtr: nat, ghost was: seq<bool>, ghost level: nat)
      returns (ptr: nat, parent: nat, parentBuddy: nat)
      requires PastEnd(lev, index, buddyPtr) && 0 < lev <= level && p == size
      requires Climbing(was, lev, level) && !blockInfo[FreeBit(index)]
      modifies this, blockInfo
      ensures ptr == size && PastEnd(lev - 1, parent, parentBuddy) && freeBlocks == old(freeBlocks) && tree == old(tree)
      ensures Climbing(was, lev - 1, level)
    {
      ClearSplit(lev, index);
      UnlinkOutside(lev, buddyPtr);
      parent := FreeBit(index);
      ptr := Lower(buddyPtr, p);
      parentBuddy := EndBuddyAt(lev - 1, parent);
      ToggleBelowRoot(lev - 1, parent, parentBuddy);
    }

    /** list_del of a node outside the region: the lists stay as they are. */
    method UnlinkOutside(level: nat, x: nat)
      requires Geometry() && level < numLevels && ListsMatch(freeBlocks, tree, numLevels - 1, ILog2(size)) && size <= x
      modifies this
      ensures freeBlocks == old(freeBlocks) && tree == old(tree)
    {
      NotListed(level, x);
      ghost var before := freeBlocks;
      freeBlocks := freeBlocks[level := Remove(freeBlocks[level], x)];
      assert freeBlocks == before[level := before[level]] == before;
    }

    method EndBuddyAt(level: nat, ghost index: nat) returns (buddyPtr: nat)
      requires Geometry() && level + 1 < numLevels && index == FreeBit(Index(level + 2, 0))
      requires blockInfo.Length >= Pow2(numLevels) + Pow2(numLevels - 1)
      ensures index == Index(level + 1, 0) > 0 && FreeBit(index) < SplitBit(index) < blockInfo.Length
      ensures level > 0 ==> size < buddyPtr
    {
      EndIndex(level);
      EndIndex(level + 1);
      buddyPtr := ToBuddy(size, level);
    }

    method ToggleBelowRoot(level: nat, index: nat, ghost buddyPtr: nat)
      requires PastEnd(level, index, buddyPtr)
      modifies blockInfo
      ensures PastEnd(level, index, buddyPtr) && blockInfo[..] == Toggled(old(blockInfo[..]), level)
    {
      if level > 0 {
        blockInfo[FreeBit(index)] := !blockInfo[FreeBit(index)];
      }
    }

    /** The index helpers on the address just behind the region. */
    lemma {:induction false} EndIndex(level: nat)
      requires Geometry() && level < numLevels
      ensures BlockIndex(size, level) == Index(level + 1, 0) > 0 && FreeBit(Index(level + 1, 0)) == Index(level, 0)
      ensures level > 0 ==> ToBuddy(size, level) > size
      ensures Index(level, 0) < SplitBit(Index(level + 1, 0)) < Pow2(numLevels) + Pow2(numLevels - 1)
    {
      var n := numLevels - 1;
      EndPage();
      ShiftPow2(n, n - level);
      Pow2Monotone(level + 1, numLevels);
      if level > 0 { EndBuddy(ILog2(size), level); }
    }

    /** Free lists hold offsets inside the region only. */
    lemma {:induction false} NotListed(level: nat, x: nat)
      requires Geometry() && level < numLevels && ListsMatch(freeBlocks, tree, numLevels - 1, ILog2(size)) && size <= x
      ensures x !in freeBlocks[level] && Remove(freeBlocks[level], x) == freeBlocks[level]
    {
      var s := ILog2(size);
      assert ListMatch(freeBlocks[level], tree, level, s);
      var k := Pos(s, level, x);
      if k < Pow2(level) { ShiftLeftBound(k, level, s - level); }
      RemoveAbsent(freeBlocks[level], x);
    }

    lemma {:induction false} EndIsNoBlock(level: nat)
      requires Geometry() && level < numLevels && |freeBlocks| == numLevels && size in freeBlocks[level]
      ensures !Valid()
    {
      if ListsMatch(freeBlocks, tree, numLevels - 1, ILog2(size)) { NotListed(level, size); }
    }

    /** An offset of the region; buddy_free also lets the end of the region through its test. */
    predicate Inside(ptr: Option<int>) {
      ptr.Some? && 0 <= ptr.value < size
    }

    /**
     buddy_free of NULL, of any pointer outside the region, or of a live block.
     False when the walk faults on the bit it reads for a whole-region block.
     Outside the region nothing changes, except for the pointer just behind
     it: that one is linked into a free list, which no valid allocator has.
     */
    method Deallocate(ptr: Option<int>, stray: Option<bool>, ghost level: nat, ghost k: nat)
      returns (ok: bool, ghost linked: nat)
      requires Valid()
      requires Inside(ptr) ==>
        level < numLevels && k < Pow2(level) && At(tree, level, k) == LiveBlock && ptr.value == Start(level, k)
      modifies this, blockInfo
      ensures ok <==> !Inside(ptr) || level > 0 || stray.Some?
      ensures !ok || (!Inside(ptr) && ptr != Some(size)) ==>
        Valid() && tree == old(tree) && freeBlocks == old(freeBlocks) && blockInfo[..] == old(blockInfo[..])
      ensures ptr == Some(size) ==>
        && !Valid() && tree == old(tree)
        && linked < numLevels && freeBlocks == old(freeBlocks)[linked := [size] + old(freeBlocks)[linked]]
        && forall m: nat :: SpineStop(m) ==>
            linked <= m && SpineFreed(old(blockInfo[..]), blockInfo[..], Pow2(numLevels) / 2, linked, m)
      ensures ok && Inside(ptr) ==> Valid() && tree == Release(old(tree), level, k)
    {
      linked := 0;
      if ptr.None? {
        return true, 0;
      }
      if ptr.value < 0 || ptr.value > size {
        return true, 0;
      }
      if ptr.value < size { var page := LiveStart(level, k); } else { EndPage(); }
      var found := DetermineLevel(ptr.value, stray);
      if found.None? {
        return false, 0;
      }
      if ptr.value == size {
        linked := LevelFreePastEnd(found.value);
      } else {
        LevelFree(ptr.value, found.value, k);
      }
      ok := true;
    }

    /** Allocating and freeing at once: the walk finds the level again and every block is as before. */
    method AllocThenFree(request: nat, stray: bool) returns (r: Option<nat>)
      requires Valid() && (request > size || request <= 0x4000_0000)
      modifies this, blockInfo
      ensures Valid() && tree == old(tree)
    {
      ghost var op;
      r, op := Alloc(request);
      if r.Some? {
        FreeUndoesAlloc(old(tree), op.from, op.k, op.level - op.from);
        StartInside(op.level, ShiftLeft(op.k, op.level - op.from));
        var ok, linked := Deallocate(Some(r.value), Some(stray), op.level, ShiftLeft(op.k, op.level - op.from));
      }
    }

    lemma {:induction false} StartInside(level: nat, k: nat)
      requires Geometry() && level < numLevels && k < Pow2(level)
      ensures Start(level, k) < size
    {
      ShiftLeftBound(k, level, ILog2(size) - level);
    }

    lemma {:induction false} EndPage()
      requires Geometry()
      ensures PageOf(size) == Pow2(numLevels - 1) && size == Pow2(numLevels - 1) * pageSize
    {
      Pow2Add(numLevels - 1, ILog2(pageSize));
      DivOfMultiple(Pow2(numLevels - 1), pageSize);
    }

    lemma {:induction false} LiveStart(level: nat, k: nat) returns (page: nat)
      requires Valid() && level < numLevels && k < Pow2(level) && Leaf(tree, level, k)
      ensures page == PageOf(Start(level, k)) && page < Pow2(numLevels - 1)
      ensures OwnerLevel(tree, numLevels - 1, page) == level
    {
      BlockIndexOfOffset(ILog2(size), numLevels - 1, level, k);
      FirstPageOwner(tree, numLevels - 1, level, k);
      page := ShiftLeft(k, numLevels - 1 - level);
    }

    /** buddy_available: free bytes, which with the live bytes make up the region. */
    method Available() returns (sum: nat)
      requires Valid()
      ensures sum == FreePages(tree, numLevels - 1) * pageSize
      ensures sum + LivePages(tree, numLevels - 1) * pageSize == size
    {
      ghost var depth := numLevels - 1;
      sum := 0;
      for level := 0 to numLevels
        invariant sum + PagesByLevel(tree, level, depth) * pageSize == PagesByLevel(tree, 0, depth) * pageSize
      {
        LevelBytes(level);
        Distribute(ShiftLeft(FreeCount(tree, level), depth - level), PagesByLevel(tree, level + 1, depth), pageSize);
        sum := sum + |freeBlocks[level]| * ShiftRight(size, level);
      }
      FreePagesByLevel(tree, depth);
      BytesConserved();
    }

    lemma {:induction false} BytesConserved()
      requires Valid()
      ensures FreePages(tree, numLevels - 1) * pageSize + LivePages(tree, numLevels - 1) * pageSize == size
    {
      var free, live := FreePages(tree, numLevels - 1), LivePages(tree, numLevels - 1);
      PagesConserved(tree, numLevels - 1);
      Distribute(free, live, pageSize);
      EndPage();
    }

    lemma {:induction false} LevelBytes(level: nat)
      requires Valid() && level < numLevels
      ensures |freeBlocks[level]| * ShiftRight(size, level)
        == ShiftLeft(FreeCount(tree, level), numLevels - 1 - level) * pageSize
    {
      var s, w := ILog2(size), Pow2(numLevels - 1 - level);
      assert ListMatch(freeBlocks[level], tree, level, s);
      ListCounts(freeBlocks[level], tree, level, s);
      ShiftPow2(s, level);
      Pow2Add(numLevels - 1 - level, ILog2(pageSize));
      MulAssociative(FreeCount(tree, level), w, pageSize);
      ShiftLeftProduct(FreeCount(tree, level), numLevels - 1 - level);
    }

    /** With nothing live, bits and lists are those of a fresh allocator. */
    lemma {:induction false} DrainedIsInitial()
      requires Valid() && NoLive(tree)
      ensures tree == Free && freeBlocks == InitialFree(numLevels - 1)
      ensures forall l: nat, k: nat :: l < numLevels - 1 && k < Pow2(l) ==>
        Index(l, k) < blockInfo.Length && !blockInfo[Index(l, k)]
      ensures var d := numLevels - 1;
              forall l: nat, k: nat :: l <= d && k < Pow2(l) ==>
                SplitIndex(d, l, k) < blockInfo.Length && !blockInfo[SplitIndex(d, l, k)]
    {
      var d := numLevels - 1;
      DrainedIsFree(tree);
      FreeRootLists(freeBlocks, numLevels - 1, ILog2(size));
      forall l: nat, k: nat | l < numLevels - 1 && k < Pow2(l)
        ensures Index(l, k) < blockInfo.Length && !blockInfo[Index(l, k)]
      {
        assert PairOk(blockInfo[..], tree, l, k, -1);
      }
      forall l: nat, k: nat | l <= d && k < Pow2(l)
        ensures SplitIndex(d, l, k) < blockInfo.Length && !blockInfo[SplitIndex(d, l, k)]
      {
        assert SplitOk(blockInfo[..], tree, d, l, k, -1);
      }
    }

    // ------------------------------------------------------ embedded metadata

    /** The reservation loop of buddy_create: single-page allocations return pages 0, 1, 2, ... while there are any. */
    method ReservePages(count: nat) returns (pages: seq<Option<nat>>)
      requires Valid() && tree == Free
      modifies this, blockInfo
      ensures Valid() && tree == Reserved(numLevels - 1, count)
      ensures |pages| == count
      ensures forall i :: 0 <= i < count ==> pages[i] == if i < Pow2(numLevels - 1) then Some(i * pageSize) else None
    {
      ghost var depth := numLevels - 1;
      pages := [];
      for i := 0 to count
        invariant Valid() && tree == Reserved(depth, i) && |pages| == i
        invariant forall j :: 0 <= j < i ==> pages[j] == if j < Pow2(depth) then Some(j * pageSize) else None
      {
        var r := ReserveOne(i);
        pages := pages + [r];
      }
    }

    /** The single-page allocation that follows n others on a fresh allocator. */
    method ReserveOne(ghost n: nat) returns (r: Option<nat>)
      requires Valid() && tree == Reserved(numLevels - 1, n)
      modifies this, blockInfo
      ensures Valid() && tree == Reserved(numLevels - 1, n + 1)
      ensures r == if n < Pow2(numLevels - 1) then Some(n * pageSize) else None
    {
      ghost var depth := numLevels - 1;
      if n < Pow2(depth) { PrefixOffersBlock(n); } else { FullOffersNothing(); }
      ghost var op;
      r, op := LevelAlloc(numLevels - 1);
      if r.Some? {
        PrefixStep(depth, n, op.from, op.k);
        ShiftLeftProduct(n, ILog2(pageSize));
      }
    }

    lemma {:induction false} FullOffersNothing()
      requires Valid() && tree == Prefix(numLevels - 1, Pow2(numLevels - 1))
      ensures forall l: nat :: l < numLevels ==> freeBlocks[l] == []
    {
      forall l: nat | l < numLevels
        ensures freeBlocks[l] == []
      {
        forall k: nat | k < Pow2(l) ensures At(tree, l, k) != FreeBlock { FullPrefixHasNoFree(numLevels - 1, l, k); }
        EmptyIffNoFree(l);
      }
    }

    lemma {:induction false} PrefixOffersBlock(n: nat)
      requires Valid() && n < Pow2(numLevels - 1) && tree == Prefix(numLevels - 1, n)
      ensures exists l: nat :: l < numLevels && freeBlocks[l] != []
    {
      var l: nat := 0;
      if n == 0 {
        assert At(tree, 0, 0) == FreeBlock;
      } else {
        var k: nat;
        l, k := PrefixHasFree(numLevels - 1, n);
      }
      assert HasFree(tree, l);
      EmptyIffNoFree(l);
    }
  }

  /** sizeof(buddy_allocator_t), one list head per level, 2^levels bitmap words. */
  function MetadataSize(numLevels: nat): nat {
    48 + 16 * numLevels + 8 * Pow2(numLevels)
  }

  /** The pages buddy_create reserves for the metadata. */
  function MetadataPages(numLevels: nat, pageSize: nat): nat
    requires pageSize > 0
  {
    (MetadataSize(numLevels) + (pageSize - 1)) / pageSize
  }

  /** That many pages hold the bytes, and one less does not. */
  ghost predicate Fewest(pages: nat, pageSize: nat, bytes: nat) {
    pages > 0 && (pages - 1) * pageSize < bytes <= pages * pageSize
  }

  lemma {:induction false} MetadataHeld(numLevels: nat, pageSize: nat, bytes: nat)
    requires pageSize > 0 && bytes == 48 + 16 * numLevels + 8 * Pow2(numLevels)
    ensures Fewest(MetadataPages(numLevels, pageSize), pageSize, bytes)
  {
    var q, r := DivMod(bytes + (pageSize - 1), pageSize);
    Distribute(q - 1, 1, pageSize);
  }

  /** The live blocks are exactly the first n pages. */
  ghost predicate LiveIsPrefix(t: Tree, depth: nat, n: nat) {
    forall l: nat, k: nat :: l <= depth && k < Pow2(l) ==> (At(t, l, k) == LiveBlock <==> l == depth && k < n)
  }

  /** The metadata pages lie inside the region exactly when the metadata is no larger than it. */
  lemma {:induction false} MetadataFits(size: nat, pageSize: nat, n: nat)
    requires IsPow2(size) && IsPow2(pageSize) && n > 0 && n == ILog2(size) - ILog2(pageSize) + 1
    ensures MetadataPages(n, pageSize) <= Pow2(n - 1) <==> MetadataSize(n) <= size
  {
    PagesFit(MetadataSize(n), n - 1, ILog2(pageSize));
  }

  /**
   buddy_create: NULL for a missing address or a size that is not a power of
   two; otherwise an allocator whose live pages are exactly the metadata pages
   at the start of the region, or all pages when the metadata is larger.
   */
  method Create(address: Option<nat>, size: nat, pageSize: nat) returns (r: Option<Buddy>)
    requires IsPow2(size) && IsPow2(pageSize) ==> pageSize <= size
    ensures r.None? <==> address.None? || !IsPow2(size) || !IsPow2(pageSize)
    ensures r.Some? ==> r.value.Valid() && r.value.size == size && r.value.pageSize == pageSize
    ensures r.Some? ==> r.value.tree == Reserved(r.value.numLevels - 1, MetadataPages(r.value.numLevels, pageSize))
    // The live blocks are the fewest pages from 0 on that hold header, list heads and bitmap.
    ensures r.Some? ==>
      && |r.value.freeBlocks| == r.value.numLevels
      && Fewest(MetadataPages(r.value.numLevels, pageSize), pageSize,
                48 + 16 * |r.value.freeBlocks| + r.value.blockInfo.Length / 8)
      && LiveIsPrefix(r.value.tree, r.value.numLevels - 1, MetadataPages(r.value.numLevels, pageSize))
  {
    if address.None? || !IsPow2(size) || !IsPow2(pageSize) {
      return None;
    }
    var allocator, n := CreateAt(size, pageSize);
    MetadataHeld(n, pageSize, 48 + 16 * n + 8 * Pow2(n));
    ReservedPages(n - 1, MetadataPages(n, pageSize));
    r := Some(allocator);
  }

  /** The allocator that is moved from the temporary one, once the metadata pages are reserved there. */
  method CreateAt(size: nat, pageSize: nat) returns (allocator: Buddy, ghost n: nat)
    requires IsPow2(size) && IsPow2(pageSize) && pageSize <= size
    ensures allocator.Valid() && allocator.size == size && allocator.pageSize == pageSize
    ensures n > 0 && n == allocator.numLevels == |allocator.freeBlocks|
    ensures allocator.tree == Reserved(n - 1, MetadataPages(n, pageSize))
    ensures allocator.blockInfo.Length == 64 * Pow2(n)
  {
    var tmp := new Buddy(size, pageSize);
    var _ := tmp.ReservePages(MetadataPages(tmp.numLevels, pageSize));
    allocator := new Buddy.MovedFrom(tmp);
    n := tmp.numLevels;
    assert |allocator.blockInfo[..]| == allocator.blockInfo.Length;
  }

  lemma {:induction false} ReservedPages(depth: nat, n: nat)
    ensures LiveIsPrefix(Reserved(depth, n), depth, n)
  {
    forall l: nat, k: nat | l <= depth && k < Pow2(l)
      ensures At(Reserved(depth, n), l, k) == LiveBlock <==> l == depth && k < n
    {
      PrefixPages(depth, if n < Pow2(depth) then n else Pow2(depth), l, k);
    }
  }

  lemma {:induction false} PagesFit(bytes: nat, depth: nat, pageLog: nat)
    ensures (bytes + (Pow2(pageLog) - 1)) / Pow2(pageLog) <= Pow2(depth) <==> bytes <= Pow2(depth + pageLog)
  {
    var p := Pow2(pageLog);
    Pow2Add(depth, pageLog);
    var q, r := (bytes + (p - 1)) / p, (bytes + (p - 1)) % p;
    assert bytes + (p - 1) == q * p + r;
    if q > Pow2(depth) {
      MulGap(Pow2(depth), q, p);
    } else if q < Pow2(depth) {
      MulGap(q, Pow2(depth), p);
    }
  }

  /** On a fresh allocator of two pages, freeing the address behind the region lists it as a free block. */
  method FreedPastEnd() returns (b: Buddy)
    ensures b.size == 0x2000 && b.freeBlocks == [[0x2000, 0], []] && !b.Valid()
  {
    assert Pow2(12) == 0x1000 && Pow2(13) == 0x2000;
    ILog2OfPow2(12);
    ILog2OfPow2(13);
    b := new Buddy(0x2000, 0x1000);
    b.DrainedIsInitial();
    ghost var before := b.freeBlocks;
    assert before == [[0], []];
    assert b.SpineStop(0);
    var ok, linked := b.Deallocate(Some(0x2000), None, 0, 0);
    assert b.SpineStop(0);
    assert [0x2000] + before[0] == [0x2000, 0];
  }
}
