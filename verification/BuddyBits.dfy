/**
 How the allocator's bitmap and free lists represent a block tree: heap
 indices, the pair bit (one per two buddies), the split bit (one per block)
 and one list of offsets per level.
 */
module BuddyBits {
  import opened PowersOfTwo
  import opened BuddyTree
  import opened BuddyRuns

  // -------------------------------------------------------- indices, offsets

  /** Heap index of block k of a level; the root is 0, the children of i are 2i+1 and 2i+2. */
  function Index(level: nat, k: nat): nat {
    Pow2(level) - 1 + k
  }

  /** The pair bit of two buddies sits at the heap index of their parent. */
  function PairIndex(level: nat, k: nat): int {
    if level == 0 then -1 else Index(level - 1, k / 2)
  }

  function SplitIndex(depth: nat, level: nat, k: nat): nat {
    Index(level, k) + Pow2(depth)
  }

  /** Byte offset of block k of a level in a region of 2^sizeLog bytes. */
  function Offset(sizeLog: nat, level: nat, k: nat): nat
    requires level <= sizeLog
  {
    ShiftLeft(k, sizeLog - level)
  }

  function Pos(sizeLog: nat, level: nat, x: nat): nat
    requires level <= sizeLog
  {
    ShiftRight(x, sizeLog - level)
  }

  lemma {:induction false} IndexInjective(l: nat, k: nat, m: nat, j: nat)
    requires k < Pow2(l) && j < Pow2(m) && Index(l, k) == Index(m, j)
    ensures l == m && k == j
  {
    if l < m { Pow2Monotone(l + 1, m); }
    if m < l { Pow2Monotone(m + 1, l); }
  }

  lemma {:induction false} IndexInRange(depth: nat, l: nat, k: nat)
    requires l <= depth && k < Pow2(l)
    ensures l < depth ==> Index(l, k) < Pow2(depth) - 1
    ensures Pow2(depth) <= SplitIndex(depth, l, k) < Pow2(depth + 1) + Pow2(depth)
  {
    Pow2Monotone(l, depth);
    if l < depth { Pow2Monotone(l + 1, depth); }
  }

  lemma {:induction false} PosOfOffset(sizeLog: nat, level: nat, k: nat)
    requires level <= sizeLog
    ensures Pos(sizeLog, level, Offset(sizeLog, level, k)) == k
  {
    ShiftRoundTrip(k, sizeLog - level);
  }

  /** The index computed from a pointer by shifting its page number is the heap index. */
  lemma {:induction false} BlockIndexOfOffset(sizeLog: nat, depth: nat, level: nat, k: nat)
    requires level <= depth <= sizeLog
    ensures Offset(sizeLog, level, k) / Pow2(sizeLog - depth) == ShiftLeft(k, depth - level)
    ensures ShiftRight(ShiftLeft(k, depth - level), depth - level) == k
  {
    ShiftLeftDivide(k, depth - level, sizeLog - depth);
    ShiftRoundTrip(k, depth - level);
  }

  lemma {:induction false} BuddyOffset(sizeLog: nat, level: nat, k: nat)
    requires 0 < level <= sizeLog && k < Pow2(level)
    ensures BitXor(Offset(sizeLog, level, k), ShiftRight(Pow2(sizeLog), level)) == Offset(sizeLog, level, Sibling(k))
  {
    ShiftPow2(sizeLog, level);
    XorBuddy(k, sizeLog - level);
  }

  /** The address behind the region has its buddy farther behind. */
  lemma {:induction false} EndBuddy(sizeLog: nat, level: nat)
    requires 0 < level <= sizeLog
    ensures BitXor(Pow2(sizeLog), ShiftRight(Pow2(sizeLog), level)) > Pow2(sizeLog)
  {
    var k, m := Pow2(level), sizeLog - level;
    ShiftPow2(sizeLog, level);
    ShiftedPow2(level, m);
    XorBuddy(k, m);
    ShiftLeftMonotone(k, k + 1, m);
  }

  lemma {:induction false} ShiftedPow2(e: nat, s: nat)
    ensures ShiftLeft(Pow2(e), s) == Pow2(e + s)
  {
    if s > 0 { ShiftedPow2(e, s - 1); }
  }

  /** A left child starts where its parent starts. */
  lemma {:induction false} LeftChildOffset(sizeLog: nat, level: nat, k: nat)
    requires level < sizeLog
    ensures Offset(sizeLog, level + 1, 2 * k) == Offset(sizeLog, level, k)
  {
    ShiftLeftDouble(k, sizeLog - level - 1);
  }

  function Lower(a: nat, b: nat): nat {
    if a < b then a else b
  }

  /** The lower of two buddies starts where their parent starts. */
  lemma {:induction false} ParentOffset(sizeLog: nat, level: nat, k: nat)
    requires 0 < level <= sizeLog
    ensures Offset(sizeLog, level - 1, k / 2)
         == Lower(Offset(sizeLog, level, Sibling(k)), Offset(sizeLog, level, k))
  {
    LeftChildOffset(sizeLog, level - 1, k / 2);
    if k % 2 == 0 {
      ShiftLeftMonotone(k, k + 1, sizeLog - level);
    } else {
      ShiftLeftMonotone(k - 1, k, sizeLog - level);
    }
  }

  // --------------------------------------------------------------------- bits

  ghost predicate PairXor(t: Tree, l: nat, k: nat)
    requires k < Pow2(l)
  {
    (At(t, l + 1, 2 * k) == FreeBlock) != (At(t, l + 1, 2 * k + 1) == FreeBlock)
  }

  /**
   Pair bits are the exclusive-or of "left is free" and "right is free"; split
   bits mark the split blocks.  Between two statements of the allocator one
   pair bit (flip) may be inverted and one split bit (dirty) may be stale.
   */
  ghost predicate BitsMatch(bits: seq<bool>, t: Tree, depth: nat, flip: int, dirty: int) {
    && |bits| >= Pow2(depth + 1) + Pow2(depth)
    && (forall l: nat, k: nat :: l < depth && k < Pow2(l) ==> PairOk(bits, t, l, k, flip))
    && (forall l: nat, k: nat :: l <= depth && k < Pow2(l) ==> SplitOk(bits, t, depth, l, k, dirty))
  }

  ghost predicate PairOk(bits: seq<bool>, t: Tree, l: nat, k: nat, flip: int)
    requires k < Pow2(l)
  {
    Index(l, k) < |bits| && bits[Index(l, k)] == (PairXor(t, l, k) != (Index(l, k) == flip))
  }

  ghost predicate SplitOk(bits: seq<bool>, t: Tree, depth: nat, l: nat, k: nat, dirty: int)
    requires k < Pow2(l)
  {
    var i := SplitIndex(depth, l, k);
    i < |bits| && (i == dirty || bits[i] == (At(t, l, k) == SplitBlock))
  }

  lemma {:induction false} LoosenDirty(bits: seq<bool>, t: Tree, depth: nat, flip: int, dirty: int)
    requires BitsMatch(bits, t, depth, flip, -1)
    ensures BitsMatch(bits, t, depth, flip, dirty)
  {
    forall m: nat, j: nat | m <= depth && j < Pow2(m)
      ensures SplitOk(bits, t, depth, m, j, dirty)
    {
      assert SplitOk(bits, t, depth, m, j, -1);
    }
  }

  /** A cleared bitmap describes the single free block. */
  lemma {:induction false} InitialBits(bits: seq<bool>, depth: nat)
    requires |bits| >= Pow2(depth + 1) + Pow2(depth)
    requires forall i :: 0 <= i < |bits| ==> !bits[i]
    ensures BitsMatch(bits, Free, depth, -1, -1)
  {
    forall m: nat, j: nat | m <= depth && j < Pow2(m)
      ensures SplitOk(bits, Free, depth, m, j, -1)
    {
      IndexInRange(depth, m, j);
    }
    forall m: nat, j: nat | m < depth && j < Pow2(m)
      ensures PairOk(bits, Free, m, j, -1)
    {
      IndexInRange(depth, m, j);
    }
  }

  /** Toggling a pair bit moves the inverted position. */
  lemma {:induction false} TogglePair(bits: seq<bool>, t: Tree, depth: nat, flip: int, dirty: int, l: nat, k: nat)
    requires BitsMatch(bits, t, depth, flip, dirty) && l < depth && k < Pow2(l)
    requires flip == -1 || flip == Index(l, k)
    ensures Index(l, k) < |bits|
    ensures BitsMatch(bits[Index(l, k) := !bits[Index(l, k)]], t, depth, if flip == -1 then Index(l, k) else -1, dirty)
  {
    IndexInRange(depth, l, k);
    var i := Index(l, k);
    var bits', flip' := bits[i := !bits[i]], if flip == -1 then i else -1;
    forall m: nat, j: nat | m < depth && j < Pow2(m)
      ensures PairOk(bits', t, m, j, flip')
    {
      assert PairOk(bits, t, m, j, flip);
    }
    forall m: nat, j: nat | m <= depth && j < Pow2(m)
      ensures SplitOk(bits', t, depth, m, j, dirty)
    {
      IndexInRange(depth, m, j);
      assert SplitOk(bits, t, depth, m, j, dirty);
    }
  }

  /** Taking a free block leaves its pair bit inverted. */
  lemma {:induction false} TakeBits(bits: seq<bool>, t: Tree, depth: nat, l: nat, k: nat)
    requires BitsMatch(bits, t, depth, -1, -1) && l <= depth && k < Pow2(l) && At(t, l, k) == FreeBlock
    ensures BitsMatch(bits, Put(t, l, k, Live), depth, PairIndex(l, k), -1)
  {
    var t' := Put(t, l, k, Live);
    forall m: nat, j: nat | m < depth && j < Pow2(m)
      ensures PairOk(bits, t', m, j, PairIndex(l, k))
    {
      assert PairOk(bits, t, m, j, -1);
      LeafPair(t, l, k, Live, m, j);
      PairIndexOnly(l, k, m, j);
    }
    forall m: nat, j: nat | m <= depth && j < Pow2(m)
      ensures SplitOk(bits, t', depth, m, j, -1)
    {
      assert SplitOk(bits, t, depth, m, j, -1);
      PutLeaf(t, l, k, Live, m, j);
    }
  }

  /** Swapping a leaf between free and live inverts its own pair and no other. */
  lemma {:induction false} LeafPair(t: Tree, l: nat, k: nat, sub: Tree, m: nat, j: nat)
    requires k < Pow2(l) && j < Pow2(m)
    requires IsLeaf(At(t, l, k)) && !sub.Split? && Kind(sub) != At(t, l, k)
    ensures PairXor(Put(t, l, k, sub), m, j) == (PairXor(t, m, j) != (l == m + 1 && j == k / 2))
  {
    PutLeaf(t, l, k, sub, m + 1, 2 * j);
    PutLeaf(t, l, k, sub, m + 1, 2 * j + 1);
  }

  lemma {:induction false} PairIndexOnly(l: nat, k: nat, m: nat, j: nat)
    requires k < Pow2(l) && j < Pow2(m)
    ensures Index(m, j) == PairIndex(l, k) <==> l == m + 1 && j == k / 2
  {
    if l > 0 && Index(m, j) == Index(l - 1, k / 2) { IndexInjective(m, j, l - 1, k / 2); }
  }

  /** Splitting a taken block: set its split bit; the new pair bit is the inverted one. */
  lemma {:induction false} SplitBits(bits: seq<bool>, t: Tree, depth: nat, l: nat, k: nat)
    requires l < depth && k < Pow2(l) && At(t, l, k) == LiveBlock
    requires BitsMatch(bits, t, depth, -1, -1)
    ensures SplitIndex(depth, l, k) < |bits|
    ensures BitsMatch(bits[SplitIndex(depth, l, k) := true], Put(t, l, k, Split(Live, Free)), depth, Index(l, k), -1)
  {
    var t' := Put(t, l, k, Split(Live, Free));
    IndexInRange(depth, l, k);
    var bits' := bits[SplitIndex(depth, l, k) := true];
    ChildrenPresent(t, l, k);
    forall m: nat, j: nat | m < depth && j < Pow2(m)
      ensures PairOk(bits', t', m, j, Index(l, k))
    {
      IndexInRange(depth, m, j);
      assert PairOk(bits, t, m, j, -1);
      SplitPair(t, l, k, m, j);
    }
    forall m: nat, j: nat | m <= depth && j < Pow2(m)
      ensures SplitOk(bits', t', depth, m, j, -1)
    {
      assert SplitOk(bits, t, depth, m, j, -1);
      PutSplit(t, l, k, Live, Free, m, j);
      if Index(m, j) == Index(l, k) { IndexInjective(m, j, l, k); }
    }
  }

  /** One round of the splitting loop: set the split bit, toggle the pair bit below the root. */
  lemma {:induction false} SplitRoundBits(bits: seq<bool>, t: Tree, depth: nat, l: nat, k: nat)
    requires l < depth && k < Pow2(l) && At(t, l, k) == LiveBlock
    requires BitsMatch(bits, t, depth, PairIndex(l, k), -1)
    ensures SplitIndex(depth, l, k) < |bits| && PairIndex(l, k) < SplitIndex(depth, l, k)
    ensures var set1 := bits[SplitIndex(depth, l, k) := true];
            var i := PairIndex(l, k);
            BitsMatch(if l > 0 then set1[i := !set1[i]] else set1,
                      Put(t, l, k, Split(Live, Free)), depth, Index(l, k), -1)
  {
    IndexInRange(depth, l, k);
    var s, i := SplitIndex(depth, l, k), PairIndex(l, k);
    if l > 0 {
      IndexInRange(depth, l - 1, k / 2);
      TogglePair(bits, t, depth, i, -1, l - 1, k / 2);
      var settled := bits[i := !bits[i]];
      SplitBits(settled, t, depth, l, k);
      assert settled[s := true] == bits[s := true][i := !bits[s := true][i]];
    } else {
      SplitBits(bits, t, depth, l, k);
    }
  }

  lemma {:induction false} SplitPair(t: Tree, l: nat, k: nat, m: nat, j: nat)
    requires k < Pow2(l) && j < Pow2(m) && At(t, l, k) == LiveBlock
    ensures PairXor(Put(t, l, k, Split(Live, Free)), m, j) == (PairXor(t, m, j) != (Index(m, j) == Index(l, k)))
  {
    ChildrenPresent(t, l, k);
    PutSplit(t, l, k, Live, Free, m + 1, 2 * j);
    PutSplit(t, l, k, Live, Free, m + 1, 2 * j + 1);
    if Index(m, j) == Index(l, k) { IndexInjective(m, j, l, k); }
  }

  /** With the freed block's pair bit toggled, the bit is clear exactly when the buddy is free. */
  lemma {:induction false} PairBitTellsBuddy(bits: seq<bool>, t: Tree, depth: nat, l: nat, k: nat, dirty: int)
    requires 0 < l <= depth && k < Pow2(l) && At(t, l, k) == LiveBlock
    requires BitsMatch(bits, t, depth, PairIndex(l, k), dirty)
    ensures Sibling(k) < Pow2(l) && 0 <= PairIndex(l, k) < |bits|
    ensures !bits[PairIndex(l, k)] <==> At(t, l, Sibling(k)) == FreeBlock
  {
    assert PairOk(bits, t, l - 1, k / 2, PairIndex(l, k));
  }

  /** Joining two buddies: the pair bit is already clear and the parent's split bit becomes stale. */
  lemma {:induction false} JoinBits(bits: seq<bool>, t: Tree, depth: nat, l: nat, k: nat)
    requires 0 < l <= depth && k < Pow2(l) && At(t, l, k) == LiveBlock
    requires Sibling(k) < Pow2(l) && At(t, l, Sibling(k)) == FreeBlock
    requires BitsMatch(bits, t, depth, PairIndex(l, k), SplitIndex(depth, l, k))
    ensures SplitIndex(depth, l, k) < |bits|
    ensures k / 2 < Pow2(l - 1) && At(t, l - 1, k / 2) == SplitBlock
    ensures BitsMatch(bits[SplitIndex(depth, l, k) := false], Put(t, l - 1, k / 2, Live), depth, -1,
                      SplitIndex(depth, l - 1, k / 2))
  {
    var p := k / 2;
    ChildrenPresent(t, l - 1, p);
    IndexInRange(depth, l, k);
    var t' := Put(t, l - 1, p, Live);
    var bits' := bits[SplitIndex(depth, l, k) := false];
    var dirty := SplitIndex(depth, l - 1, p);
    forall m: nat, j: nat | m < depth && j < Pow2(m)
      ensures PairOk(bits', t', m, j, -1)
    {
      assert PairOk(bits, t, m, j, PairIndex(l, k));
      JoinPairOk(bits, t, depth, l, k, m, j);
    }
    forall m: nat, j: nat | m <= depth && j < Pow2(m)
      ensures SplitOk(bits', t', depth, m, j, dirty)
    {
      assert SplitOk(bits, t, depth, m, j, SplitIndex(depth, l, k));
      JoinSplit(bits, t, depth, l, k, m, j);
    }
  }

  lemma {:induction false} JoinPairOk(bits: seq<bool>, t: Tree, depth: nat, l: nat, k: nat, m: nat, j: nat)
    requires 0 < l <= depth && k < Pow2(l) && At(t, l, k) == LiveBlock && m < depth && j < Pow2(m)
    requires Sibling(k) < Pow2(l) && At(t, l, Sibling(k)) == FreeBlock && k / 2 < Pow2(l - 1)
      && At(t, l - 1, k / 2) == SplitBlock
    requires SplitIndex(depth, l, k) < |bits| && PairOk(bits, t, m, j, PairIndex(l, k))
    ensures PairOk(bits[SplitIndex(depth, l, k) := false], Put(t, l - 1, k / 2, Live), m, j, -1)
  {
    IndexInRange(depth, m, j);
    JoinPair(t, l - 1, k / 2, m, j);
  }

  lemma {:induction false} JoinSplit(bits: seq<bool>, t: Tree, depth: nat, l: nat, k: nat, m: nat, j: nat)
    requires 0 < l <= depth && k < Pow2(l) && At(t, l, k) == LiveBlock && j < Pow2(m)
    requires Sibling(k) < Pow2(l) && At(t, l, Sibling(k)) == FreeBlock && At(t, l - 1, k / 2) == SplitBlock
    requires SplitIndex(depth, l, k) < |bits| && SplitOk(bits, t, depth, m, j, SplitIndex(depth, l, k))
    ensures SplitOk(bits[SplitIndex(depth, l, k) := false], Put(t, l - 1, k / 2, Live), depth, m, j,
                    SplitIndex(depth, l - 1, k / 2))
  {
    PutJoin(t, l - 1, k / 2, Live, m, j);
    if Index(m, j) == Index(l, k) { IndexInjective(m, j, l, k); }
  }

  lemma {:induction false} JoinPair(t: Tree, l: nat, k: nat, m: nat, j: nat)
    requires k < Pow2(l) && j < Pow2(m) && At(t, l, k) == SplitBlock
    requires IsLeaf(At(t, l + 1, 2 * k)) && IsLeaf(At(t, l + 1, 2 * k + 1))
    requires PairXor(t, l, k)
    ensures PairXor(Put(t, l, k, Live), m, j) == (PairXor(t, m, j) != (Index(m, j) == Index(l, k)))
  {
    PutJoin(t, l, k, Live, m + 1, 2 * j);
    PutJoin(t, l, k, Live, m + 1, 2 * j + 1);
    if Index(m, j) == Index(l, k) { IndexInjective(m, j, l, k); }
  }

  /** The last step of freeing: clear the split bit; the toggled pair bit is now right. */
  lemma {:induction false} FinishBits(bits: seq<bool>, t: Tree, depth: nat, l: nat, k: nat)
    requires l <= depth && k < Pow2(l) && At(t, l, k) == LiveBlock
    requires BitsMatch(bits, t, depth, PairIndex(l, k), SplitIndex(depth, l, k))
    ensures SplitIndex(depth, l, k) < |bits|
    ensures BitsMatch(bits[SplitIndex(depth, l, k) := false], Put(t, l, k, Free), depth, -1, -1)
  {
    IndexInRange(depth, l, k);
    var t' := Put(t, l, k, Free);
    var bits' := bits[SplitIndex(depth, l, k) := false];
    forall m: nat, j: nat | m < depth && j < Pow2(m)
      ensures PairOk(bits', t', m, j, -1)
    {
      IndexInRange(depth, m, j);
      assert PairOk(bits, t, m, j, PairIndex(l, k));
      LeafPair(t, l, k, Free, m, j);
      PairIndexOnly(l, k, m, j);
    }
    forall m: nat, j: nat | m <= depth && j < Pow2(m)
      ensures SplitOk(bits', t', depth, m, j, -1)
    {
      PutLeaf(t, l, k, Free, m, j);
      if Index(m, j) == Index(l, k) { IndexInjective(m, j, l, k); }
      assert SplitOk(bits, t, depth, m, j, SplitIndex(depth, l, k));
    }
  }

  // -------------------------------------------------------------------- lists

  ghost predicate NoDuplicates(s: seq<nat>) {
    forall i, j :: 0 <= i < j < |s| ==> s[i] != s[j]
  }

  /** list_del: unlinks a node; a node outside the list leaves it as it is. */
  function Remove(s: seq<nat>, x: nat): seq<nat> {
    if s == [] then [] else if s[0] == x then s[1..] else [s[0]] + Remove(s[1..], x)
  }

  lemma {:induction false} RemoveAbsent(s: seq<nat>, x: nat)
    requires x !in s
    ensures Remove(s, x) == s
  {
    if s != [] { RemoveAbsent(s[1..], x); }
  }

  lemma {:induction false} RemoveMember(s: seq<nat>, x: nat)
    requires x in s && NoDuplicates(s)
    ensures forall y :: y in Remove(s, x) <==> y in s && y != x
    ensures NoDuplicates(Remove(s, x))
  {
    assert s == [s[0]] + s[1..];
    if s[0] == x {
      assert forall y :: y in s[1..] ==> y in s && y != x;
    } else {
      RemoveMember(s[1..], x);
      assert s[0] !in Remove(s[1..], x);
    }
  }

  /** A level's list holds the offsets of exactly its free blocks, each once. */
  ghost predicate ListMatch(list: seq<nat>, t: Tree, level: nat, sizeLog: nat)
    requires level <= sizeLog
  {
    && NoDuplicates(list)
    && (forall x :: x in list ==> Pos(sizeLog, level, x) < Pow2(level)
                                  && x == Offset(sizeLog, level, Pos(sizeLog, level, x))
                                  && At(t, level, Pos(sizeLog, level, x)) == FreeBlock)
    && (forall k: nat {:trigger Offset(sizeLog, level, k)} :: k < Pow2(level) && At(t, level, k) == FreeBlock
          ==> Offset(sizeLog, level, k) in list)
  }

  ghost predicate ListsMatch(free: seq<seq<nat>>, t: Tree, depth: nat, sizeLog: nat)
    requires depth <= sizeLog
  {
    && |free| == depth + 1
    && forall l {:trigger ListMatch(free[l], t, l, sizeLog)} :: 0 <= l <= depth ==> ListMatch(free[l], t, l, sizeLog)
  }

  /** The initial lists: the whole region at level 0, nothing below. */
  function InitialFree(depth: nat): seq<seq<nat>> {
    [[0]] + seq(depth, _ => [])
  }

  lemma {:induction false} InitialLists(depth: nat, sizeLog: nat)
    requires depth <= sizeLog
    ensures ListsMatch(InitialFree(depth), Free, depth, sizeLog)
  {
    PosOfOffset(sizeLog, 0, 0);
    ShiftLeftZero(sizeLog);
    assert ListMatch(InitialFree(depth)[0], Free, 0, sizeLog);
    forall l | 0 < l <= depth
      ensures ListMatch(InitialFree(depth)[l], Free, l, sizeLog)
    {
    }
  }

  /** The trees agree on which blocks of a level are free. */
  ghost predicate SameFree(t: Tree, t': Tree, level: nat) {
    forall k: nat {:trigger At(t', level, k)} :: k < Pow2(level) ==>
      (At(t, level, k) == FreeBlock <==> At(t', level, k) == FreeBlock)
  }

  lemma {:induction false} ListSame(list: seq<nat>, t: Tree, t': Tree, level: nat, sizeLog: nat)
    requires level <= sizeLog && ListMatch(list, t, level, sizeLog) && SameFree(t, t', level)
    ensures ListMatch(list, t', level, sizeLog)
  {
  }

  lemma {:induction false} ListPush(list: seq<nat>, t: Tree, t': Tree, level: nat, k: nat, sizeLog: nat)
    requires level <= sizeLog && ListMatch(list, t, level, sizeLog) && k < Pow2(level)
    requires At(t, level, k) != FreeBlock
    requires forall j: nat :: j < Pow2(level) ==>
      (At(t', level, j) == FreeBlock <==> At(t, level, j) == FreeBlock || j == k)
    ensures ListMatch([Offset(sizeLog, level, k)] + list, t', level, sizeLog)
  {
    var x := Offset(sizeLog, level, k);
    PosOfOffset(sizeLog, level, k);
    assert x !in list;
  }

  lemma {:induction false} ListTake(list: seq<nat>, t: Tree, t': Tree, level: nat, k: nat, sizeLog: nat)
    requires level <= sizeLog && ListMatch(list, t, level, sizeLog) && k < Pow2(level)
    requires At(t, level, k) == FreeBlock
    requires forall j: nat :: j < Pow2(level) ==>
      (At(t', level, j) == FreeBlock <==> At(t, level, j) == FreeBlock && j != k)
    ensures Offset(sizeLog, level, k) in list
    ensures ListMatch(Remove(list, Offset(sizeLog, level, k)), t', level, sizeLog)
  {
    var x := Offset(sizeLog, level, k);
    PosOfOffset(sizeLog, level, k);
    RemoveMember(list, x);
    forall j: nat | j < Pow2(level) && At(t', level, j) == FreeBlock
      ensures Offset(sizeLog, level, j) in Remove(list, x)
    {
      PosOfOffset(sizeLog, level, j);
    }
  }

  /** list_del of the first block of a level. */
  lemma {:induction false} TakeLists(free: seq<seq<nat>>, t: Tree, depth: nat, sizeLog: nat, l: nat, k: nat)
    requires depth <= sizeLog && ListsMatch(free, t, depth, sizeLog) && l <= depth
    requires free[l] != [] && k == Pos(sizeLog, l, free[l][0])
    ensures k < Pow2(l) && At(t, l, k) == FreeBlock && free[l][0] == Offset(sizeLog, l, k)
    ensures ListsMatch(free[l := free[l][1..]], Put(t, l, k, Live), depth, sizeLog)
  {
    assert ListMatch(free[l], t, l, sizeLog);
    assert free[l][0] in free[l];
    var t' := Put(t, l, k, Live);
    var free' := free[l := free[l][1..]];
    forall m | 0 <= m <= depth
      ensures ListMatch(free'[m], t', m, sizeLog)
    {
      forall j: nat | j < Pow2(m)
        ensures At(t', m, j) == FreeBlock <==> At(t, m, j) == FreeBlock && !(m == l && j == k)
      {
        PutLeaf(t, l, k, Live, m, j);
      }
      if m == l {
        ListTake(free[l], t, t', l, k, sizeLog);
      } else {
        ListSame(free[m], t, t', m, sizeLog);
      }
    }
  }

  /** list_add of the right half of a split block. */
  lemma {:induction false} SplitLists(free: seq<seq<nat>>, t: Tree, depth: nat, sizeLog: nat, l: nat, k: nat)
    requires depth <= sizeLog && ListsMatch(free, t, depth, sizeLog) && l < depth
    requires k < Pow2(l) && At(t, l, k) == LiveBlock
    ensures ListsMatch(free[l + 1 := [Offset(sizeLog, l + 1, 2 * k + 1)] + free[l + 1]],
                       Put(t, l, k, Split(Live, Free)), depth, sizeLog)
  {
    var t' := Put(t, l, k, Split(Live, Free));
    ChildrenPresent(t, l, k);
    var free' := free[l + 1 := [Offset(sizeLog, l + 1, 2 * k + 1)] + free[l + 1]];
    forall m | 0 <= m <= depth
      ensures ListMatch(free'[m], t', m, sizeLog)
    {
      forall j: nat | j < Pow2(m)
        ensures At(t', m, j) == FreeBlock <==> At(t, m, j) == FreeBlock || (m == l + 1 && j == 2 * k + 1)
      {
        PutSplit(t, l, k, Live, Free, m, j);
      }
      if m == l + 1 {
        ListPush(free[m], t, t', m, 2 * k + 1, sizeLog);
      } else {
        ListSame(free[m], t, t', m, sizeLog);
      }
    }
  }

  /** list_del of a free buddy: it is on the list of its level. */
  lemma {:induction false} JoinLists(free: seq<seq<nat>>, t: Tree, depth: nat, sizeLog: nat, l: nat, k: nat)
    requires depth <= sizeLog && ListsMatch(free, t, depth, sizeLog) && 0 < l <= depth
    requires k < Pow2(l) && At(t, l, k) == LiveBlock
    requires Sibling(k) < Pow2(l) && At(t, l, Sibling(k)) == FreeBlock
    ensures k / 2 < Pow2(l - 1) && At(t, l - 1, k / 2) == SplitBlock
    ensures Offset(sizeLog, l, Sibling(k)) in free[l]
    ensures ListsMatch(free[l := Remove(free[l], Offset(sizeLog, l, Sibling(k)))],
                       Put(t, l - 1, k / 2, Live), depth, sizeLog)
  {
    var p, s := k / 2, Sibling(k);
    ChildrenPresent(t, l - 1, p);
    var t' := Put(t, l - 1, p, Live);
    assert ListMatch(free[l], t, l, sizeLog);
    var free' := free[l := Remove(free[l], Offset(sizeLog, l, s))];
    forall m | 0 <= m <= depth
      ensures ListMatch(free'[m], t', m, sizeLog)
    {
      forall j: nat | j < Pow2(m)
        ensures At(t', m, j) == FreeBlock <==> At(t, m, j) == FreeBlock && !(m == l && j == s)
      {
        PutJoin(t, l - 1, p, Live, m, j);
      }
      if m == l {
        ListTake(free[l], t, t', l, s, sizeLog);
      } else {
        ListSame(free[m], t, t', m, sizeLog);
      }
    }
  }

  /** list_add of the freed block. */
  lemma {:induction false} FinishLists(free: seq<seq<nat>>, t: Tree, depth: nat, sizeLog: nat, l: nat, k: nat)
    requires depth <= sizeLog && ListsMatch(free, t, depth, sizeLog) && l <= depth
    requires k < Pow2(l) && At(t, l, k) == LiveBlock
    ensures ListsMatch(free[l := [Offset(sizeLog, l, k)] + free[l]], Put(t, l, k, Free), depth, sizeLog)
  {
    var t' := Put(t, l, k, Free);
    var free' := free[l := [Offset(sizeLog, l, k)] + free[l]];
    forall m | 0 <= m <= depth
      ensures ListMatch(free'[m], t', m, sizeLog)
    {
      forall j: nat | j < Pow2(m)
        ensures At(t', m, j) == FreeBlock <==> At(t, m, j) == FreeBlock || (m == l && j == k)
      {
        PutLeaf(t, l, k, Free, m, j);
      }
      if m == l {
        ListPush(free[m], t, t', m, k, sizeLog);
      } else {
        ListSame(free[m], t, t', m, sizeLog);
      }
    }
  }

  lemma {:induction false} FirstListed(list: seq<nat>)
    requires list != []
    ensures list[0] in list
  {
  }

  lemma {:induction false} FirstTwoDiffer(list: seq<nat>)
    requires |list| > 1 && NoDuplicates(list)
    ensures list[0] != list[1]
  {
  }

  ghost function Positions(list: seq<nat>, level: nat, sizeLog: nat): set<nat>
    requires level <= sizeLog
  {
    set x | x in list :: Pos(sizeLog, level, x)
  }

  /** Distinct block offsets have distinct positions. */
  lemma {:induction false} ListLength(list: seq<nat>, level: nat, sizeLog: nat)
    requires level <= sizeLog && NoDuplicates(list)
    requires forall x :: x in list ==> x == Offset(sizeLog, level, Pos(sizeLog, level, x))
    ensures |list| == |Positions(list, level, sizeLog)|
    decreases |list|
  {
    if list == [] {
      assert Positions(list, level, sizeLog) == {};
    } else {
      var x, rest := list[0], list[1..];
      assert list == [x] + rest && x !in rest;
      ListLength(rest, level, sizeLog);
      var k, ps := Pos(sizeLog, level, x), Positions(rest, level, sizeLog);
      assert k !in ps;
      assert Positions(list, level, sizeLog) == ps + {k};
    }
  }

  /** The length of a level's list is the number of free blocks of that level. */
  lemma {:induction false} ListCounts(list: seq<nat>, t: Tree, level: nat, sizeLog: nat)
    requires level <= sizeLog && ListMatch(list, t, level, sizeLog)
    ensures |list| == FreeCount(t, level)
  {
    ListLength(list, level, sizeLog);
    FreeCountCounts(t, level);
    forall k | k in FreePositions(t, level)
      ensures k in Positions(list, level, sizeLog)
    {
      PosOfOffset(sizeLog, level, k);
      assert Offset(sizeLog, level, k) in list;
    }
    assert Positions(list, level, sizeLog) == FreePositions(t, level);
  }

  /** A free root is represented by the initial lists. */
  lemma {:induction false} FreeRootLists(free: seq<seq<nat>>, depth: nat, sizeLog: nat)
    requires depth <= sizeLog && ListsMatch(free, Free, depth, sizeLog)
    ensures free == InitialFree(depth)
  {
    assert ListMatch(free[0], Free, 0, sizeLog);
    ShiftLeftZero(sizeLog);
    assert Offset(sizeLog, 0, 0) in free[0];
    forall i | 0 <= i < |free[0]|
      ensures free[0][i] == 0
    {
      assert free[0][i] in free[0];
    }
    if |free[0]| > 1 { FirstTwoDiffer(free[0]); }
    assert free[0] == [0];
    forall l | 0 < l <= depth
      ensures free[l] == []
    {
      assert ListMatch(free[l], Free, l, sizeLog);
      if free[l] != [] { FirstListed(free[l]); }
    }
  }

  /**
   One step up from a page's ancestor at `level`: the parent's split bit says
   whether the page's block is below it.
   */
  lemma {:induction false} WalkStep(bits: seq<bool>, t: Tree, depth: nat, page: nat, level: nat)
    requires Fits(t, depth) && BitsMatch(bits, t, depth, -1, -1) && page < Pow2(depth) && 0 < level <= depth
    ensures (Index(level, Ancestor(page, level, depth)) - 1) / 2 == Index(level - 1, Ancestor(page, level - 1, depth))
    ensures var i := SplitIndex(depth, level - 1, Ancestor(page, level - 1, depth));
            i < |bits| && (bits[i] <==> OwnerLevel(t, depth, page) >= level)
  {
    AncestorParent(page, level, depth);
    assert SplitOk(bits, t, depth, level - 1, Ancestor(page, level - 1, depth), -1);
    PageOwner(t, depth, page, level - 1);
  }

  /** The index reached from `start` by going to the parent `steps` times. */
  function Risen(start: nat, steps: nat): nat {
    if steps == 0 then start
    else
      var i := Risen(start, steps - 1);
      if i == 0 then 0 else (i - 1) / 2
  }

  /** Rising from a page passes its ancestors. */
  lemma {:induction false} RisenIsAncestor(page: nat, depth: nat, level: nat)
    requires page < Pow2(depth) && level <= depth
    ensures Risen(Pow2(depth) + page - 1, depth - level) == Index(level, Ancestor(page, level, depth))
    decreases depth - level
  {
    if level < depth {
      RisenIsAncestor(page, depth, level + 1);
      AncestorParent(page, level + 1, depth);
      assert Pow2(level + 1) == 2 * Pow2(level);
    }
  }

  /** Rising from the end of the region climbs the leftmost spine, one level deeper. */
  lemma {:induction false} RisenFromEnd(depth: nat, level: nat)
    requires level <= depth
    ensures Risen(Pow2(depth) + Pow2(depth) - 1, depth - level) == Index(level + 1, 0)
    decreases depth - level
  {
    if level < depth {
      RisenFromEnd(depth, level + 1);
      assert Pow2(level + 2) == 2 * Pow2(level + 1);
    }
  }
}
