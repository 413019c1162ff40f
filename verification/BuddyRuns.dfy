/**
 What the reference tree guarantees over whole runs: the blocks partition the
 region, nothing is lost, and freeing everything restores the initial tree.
 */
module BuddyRuns {
  import opened PowersOfTwo
  import opened BuddyTree

  // ---------------------------------------------------------------- partition

  /** The ancestor at `level` of page p in a region of 2^depth pages. */
  function Ancestor(p: nat, level: nat, depth: nat): (k: nat)
    requires p < Pow2(depth) && level <= depth
    ensures k < Pow2(level)
  {
    ShiftRightBound(p, depth - level, level);
    ShiftRight(p, depth - level)
  }

  /** The level of the block that owns page p. */
  function OwnerLevel(t: Tree, depth: nat, p: nat): (r: nat)
    requires Fits(t, depth) && p < Pow2(depth)
    ensures r <= depth
    decreases depth
  {
    if !t.Split? then 0
    else if p < Pow2(depth - 1) then 1 + OwnerLevel(t.left, depth - 1, p)
    else 1 + OwnerLevel(t.right, depth - 1, p - Pow2(depth - 1))
  }

  /** Page p lies in block k of a level. */
  ghost predicate Contains(level: nat, k: nat, depth: nat, p: nat)
    requires level <= depth
  {
    ShiftLeft(k, depth - level) <= p < ShiftLeft(k + 1, depth - level)
  }

  lemma {:induction false} AncestorHalves(p: nat, level: nat, depth: nat)
    requires 0 < level <= depth && p < Pow2(depth)
    ensures var h := Pow2(depth - 1);
            if p < h then Ancestor(p, level, depth) == Ancestor(p, level - 1, depth - 1)
            else Ancestor(p, level, depth) == Pow2(level - 1) + Ancestor(p - h, level - 1, depth - 1)
  {
    if p >= Pow2(depth - 1) { ShiftRightMinus(p, depth - level, level - 1); }
  }

  /**
   Every page lies in exactly one block: of its ancestors, those above the
   owner are split, the owner is free or live, those below are absent.
   */
  lemma {:induction false} PageOwner(t: Tree, depth: nat, p: nat, level: nat)
    requires Fits(t, depth) && p < Pow2(depth) && level <= depth
    ensures var s := At(t, level, Ancestor(p, level, depth));
            var o := OwnerLevel(t, depth, p);
            if level < o then s == SplitBlock
            else if level == o then IsLeaf(s)
            else s == Absent
    decreases depth
  {
    if level > 0 && t.Split? {
      AncestorHalves(p, level, depth);
      var h := Pow2(depth - 1);
      if p < h {
        PageOwner(t.left, depth - 1, p, level - 1);
      } else {
        PageOwner(t.right, depth - 1, p - h, level - 1);
      }
    }
  }

  ghost predicate Leaf(t: Tree, level: nat, k: nat)
    requires k < Pow2(level)
  {
    IsLeaf(At(t, level, k))
  }

  /** Free and live blocks are pairwise disjoint: a page in two of them makes them equal. */
  lemma {:induction false} BlocksDisjoint(t: Tree, depth: nat, l1: nat, k1: nat, l2: nat, k2: nat, p: nat)
    requires Fits(t, depth) && l1 <= depth && l2 <= depth && k1 < Pow2(l1) && k2 < Pow2(l2)
    requires Leaf(t, l1, k1) && Leaf(t, l2, k2) && p < Pow2(depth)
    requires Contains(l1, k1, depth, p) && Contains(l2, k2, depth, p)
    ensures l1 == l2 && k1 == k2
  {
    ShiftRightBlock(p, depth - l1, k1);
    ShiftRightBlock(p, depth - l2, k2);
    PageOwner(t, depth, p, l1);
    PageOwner(t, depth, p, l2);
  }

  /** Free and live blocks cover the region: every page lies in one of them. */
  lemma {:induction false} BlocksCover(t: Tree, depth: nat, p: nat)
    requires Fits(t, depth) && p < Pow2(depth)
    ensures exists l: nat, k: nat :: l <= depth && k < Pow2(l) && Leaf(t, l, k) && Contains(l, k, depth, p)
  {
    var l := OwnerLevel(t, depth, p);
    PageOwner(t, depth, p, l);
    var k := Ancestor(p, l, depth);
    ShiftRightBlock(p, depth - l, k);
    assert Leaf(t, l, k) && Contains(l, k, depth, p);
  }

  lemma {:induction false} AncestorParent(p: nat, level: nat, depth: nat)
    requires 0 < level <= depth && p < Pow2(depth)
    ensures Ancestor(p, level - 1, depth) == Ancestor(p, level, depth) / 2
  {
    ShiftRightHalf(p, depth - level);
  }

  /** The first page of a free or live block is owned by that block. */
  lemma {:induction false} FirstPageOwner(t: Tree, depth: nat, level: nat, k: nat)
    requires Fits(t, depth) && level <= depth && k < Pow2(level) && Leaf(t, level, k)
    ensures ShiftLeft(k, depth - level) < Pow2(depth)
    ensures OwnerLevel(t, depth, ShiftLeft(k, depth - level)) == level
  {
    ShiftLeftBound(k, level, depth - level);
    ShiftRoundTrip(k, depth - level);
    PageOwner(t, depth, ShiftLeft(k, depth - level), level);
  }

  // ------------------------------------------------------------- live blocks

  /** Freeing removes exactly the freed block from the live blocks. */
  lemma {:induction false} ReleaseLive(t: Tree, level: nat, k: nat, l: nat, j: nat)
    requires k < Pow2(level) && At(t, level, k) == LiveBlock && j < Pow2(l)
    ensures At(Release(t, level, k), l, j) == LiveBlock
       <==> At(t, l, j) == LiveBlock && !(l == level && j == k)
    decreases level
  {
    if level > 0 && l > 0 {
      var h, g := Pow2(level - 1), Pow2(l - 1);
      if k < h {
        if j < g { ReleaseLive(t.left, level - 1, k, l - 1, j); }
      } else {
        if j >= g { ReleaseLive(t.right, level - 1, k - h, l - 1, j - g); }
      }
    }
  }

  /** The leftmost position d levels down, k << d, seen from the half of the tree that contains it. */
  lemma {:induction false} LeftmostHalves(level: nat, k: nat, d: nat)
    requires level > 0 && k < Pow2(level)
    ensures var h := Pow2(level - 1);
            ShiftLeft(k, d) < Pow2(level + d) && if k < h then ShiftLeft(k, d) < Pow2(level + d - 1)
                                                 else ShiftLeft(k, d) == ShiftLeft(k - h, d) + Pow2(level + d - 1)
    decreases d
  {
    if d > 0 { LeftmostHalves(level, k, d - 1); }
  }

  lemma {:induction false} SpineLive(d: nat, l: nat, j: nat)
    requires j < Pow2(l)
    ensures At(LeftSpine(d), l, j) == LiveBlock <==> l == d && j == 0
  {
    if d > 0 && l > 0 {
      if j < Pow2(l - 1) { SpineLive(d - 1, l - 1, j); }
      else { assert At(Free, l - 1, j - Pow2(l - 1)) != LiveBlock; }
    }
  }

  /** Allocation adds exactly the returned block to the live blocks. */
  lemma {:induction false} CarveLive(t: Tree, from: nat, k: nat, d: nat, l: nat, j: nat)
    requires k < Pow2(from) && At(t, from, k) == FreeBlock && j < Pow2(l)
    ensures At(Put(t, from, k, LeftSpine(d)), l, j) == LiveBlock
       <==> At(t, l, j) == LiveBlock || (l == from + d && j == ShiftLeft(k, d))
    decreases from
  {
    if from == 0 {
      ShiftLeftZero(d);
      SpineLive(d, l, j);
    } else {
      LeftmostHalves(from, k, d);
      if l > 0 {
        var h, g := Pow2(from - 1), Pow2(l - 1);
        if k < h {
          if j < g { CarveLive(t.left, from - 1, k, d, l - 1, j); }
        } else {
          if j >= g { CarveLive(t.right, from - 1, k - h, d, l - 1, j - g); }
        }
      }
    }
  }

  ghost predicate NoLive(t: Tree) {
    forall l: nat, k: nat :: k < Pow2(l) ==> At(t, l, k) != LiveBlock
  }

  /** A coalesced tree without live blocks is the single free block. */
  lemma {:induction false} DrainedIsFree(t: Tree)
    requires Normal(t) && NoLive(t)
    ensures t == Free
    decreases t
  {
    match t
    case Free =>
    case Live => var _ := At(t, 0, 0);
    case Split(l, r) =>
      forall lev: nat, k: nat | k < Pow2(lev)
        ensures At(l, lev, k) != LiveBlock && At(r, lev, k) != LiveBlock
      {
        assert Pow2(lev + 1) == 2 * Pow2(lev);
        assert At(t, lev + 1, k) == At(l, lev, k);
        assert At(t, lev + 1, k + Pow2(lev)) == At(r, lev, k);
      }
      DrainedIsFree(l);
      DrainedIsFree(r);
  }

  // --------------------------------------------------------------------- runs

  datatype Op =
    | AllocOp(level: nat, from: nat, k: nat)  // carve a `level` block out of the free block (from, k)
    | FreeOp(level: nat, k: nat)

  ghost predicate HasFree(t: Tree, level: nat) {
    exists k: nat :: k < Pow2(level) && At(t, level, k) == FreeBlock
  }

  /** Allocation takes a free block of the deepest level that still fits; only live blocks are freed. */
  ghost predicate Enabled(t: Tree, op: Op, depth: nat) {
    match op
    case AllocOp(level, from, k) =>
      from <= level <= depth && k < Pow2(from) && At(t, from, k) == FreeBlock
      && forall m: nat :: from < m <= level ==> !HasFree(t, m)
    case FreeOp(level, k) => level <= depth && k < Pow2(level) && At(t, level, k) == LiveBlock
  }

  ghost function Apply(t: Tree, op: Op, depth: nat): Tree
    requires Enabled(t, op, depth)
  {
    match op
    case AllocOp(level, from, k) => Carve(t, from, k, level)
    case FreeOp(level, k) => Release(t, level, k)
  }

  ghost predicate IsRun(t: Tree, ops: seq<Op>, depth: nat)
    decreases |ops|
  {
    ops == [] || (Enabled(t, ops[0], depth) && IsRun(Apply(t, ops[0], depth), ops[1..], depth))
  }

  ghost function After(t: Tree, ops: seq<Op>, depth: nat): Tree
    requires IsRun(t, ops, depth)
    decreases |ops|
  {
    if ops == [] then t else After(Apply(t, ops[0], depth), ops[1..], depth)
  }

  lemma {:induction false} ApplyShape(t: Tree, op: Op, depth: nat)
    requires Enabled(t, op, depth) && Fits(t, depth) && Normal(t)
    ensures Fits(Apply(t, op, depth), depth) && Normal(Apply(t, op, depth))
  {
    match op
    case AllocOp(level, from, k) => CarveShape(t, from, k, level, depth);
    case FreeOp(level, k) => ReleaseShape(t, level, k, depth);
  }

  /** Every run keeps the tree within the region and fully coalesced. */
  lemma {:induction false} RunShape(t: Tree, ops: seq<Op>, depth: nat)
    requires IsRun(t, ops, depth) && Fits(t, depth) && Normal(t)
    ensures Fits(After(t, ops, depth), depth) && Normal(After(t, ops, depth))
    decreases |ops|
  {
    if ops != [] {
      ApplyShape(t, ops[0], depth);
      RunShape(Apply(t, ops[0], depth), ops[1..], depth);
    }
  }

  /** The live blocks after a run, computed from the operations alone. */
  ghost function LiveAfter(live: set<(nat, nat)>, ops: seq<Op>): set<(nat, nat)>
    decreases |ops|
  {
    if ops == [] then live
    else
      var next := match ops[0]
        case AllocOp(level, from, k) =>
          if from <= level then live + {(level, ShiftLeft(k, level - from))} else live
        case FreeOp(level, k) => live - {(level, k)};
      LiveAfter(next, ops[1..])
  }

  ghost predicate LiveIs(t: Tree, live: set<(nat, nat)>) {
    && (forall b :: b in live ==> b.1 < Pow2(b.0))
    && (forall l: nat, k: nat :: k < Pow2(l) ==> (At(t, l, k) == LiveBlock <==> (l, k) in live))
  }

  /** The tree's live blocks are exactly those allocated and not yet freed. */
  lemma {:induction false} RunLive(t: Tree, live: set<(nat, nat)>, ops: seq<Op>, depth: nat)
    requires IsRun(t, ops, depth) && LiveIs(t, live)
    ensures LiveIs(After(t, ops, depth), LiveAfter(live, ops))
    decreases |ops|
  {
    if ops != [] {
      var t' := Apply(t, ops[0], depth);
      match ops[0]
      case AllocOp(level, from, k) =>
        var c := ShiftLeft(k, level - from);
        ShiftLeftBound(k, from, level - from);
        forall l: nat, j: nat | j < Pow2(l)
          ensures At(t', l, j) == LiveBlock <==> (l, j) in live + {(level, c)}
        {
          CarveLive(t, from, k, level - from, l, j);
        }
        RunLive(t', live + {(level, c)}, ops[1..], depth);
      case FreeOp(level, k) =>
        forall l: nat, j: nat | j < Pow2(l)
          ensures At(t', l, j) == LiveBlock <==> (l, j) in live - {(level, k)}
        {
          ReleaseLive(t, level, k, l, j);
        }
        RunLive(t', live - {(level, k)}, ops[1..], depth);
    }
  }

  // ------------------------------------------------------------ freeing it all

  /** Freeing the blocks of a list one after the other. */
  ghost function Frees(order: seq<(nat, nat)>): seq<Op> {
    if order == [] then [] else [FreeOp(order[0].0, order[0].1)] + Frees(order[1..])
  }

  /** The list names exactly the live blocks, each once. */
  ghost predicate Enumerates(order: seq<(nat, nat)>, t: Tree, depth: nat) {
    && (forall i, j :: 0 <= i < j < |order| ==> order[i] != order[j])
    && (forall b :: b in order ==> b.0 <= depth && b.1 < Pow2(b.0) && At(t, b.0, b.1) == LiveBlock)
    && (forall l: nat, k: nat :: k < Pow2(l) && At(t, l, k) == LiveBlock ==> (l, k) in order)
  }

  /** In whatever order the live blocks are freed, the frees are a run and lead to the initial tree. */
  lemma {:induction false} DrainInAnyOrder(t: Tree, order: seq<(nat, nat)>, depth: nat)
    requires Fits(t, depth) && Normal(t) && Enumerates(order, t, depth)
    ensures IsRun(t, Frees(order), depth) && After(t, Frees(order), depth) == Free
    decreases |order|
  {
    if order == [] {
      DrainedIsFree(t);
    } else {
      var (l, k) := order[0];
      assert order[0] in order;
      var t' := Release(t, l, k);
      ReleaseShape(t, l, k, depth);
      RestEnumerates(t, order, depth);
      DrainInAnyOrder(t', order[1..], depth);
      assert Frees(order)[1..] == Frees(order[1..]);
    }
  }

  lemma {:induction false} RestEnumerates(t: Tree, order: seq<(nat, nat)>, depth: nat)
    requires order != [] && Enumerates(order, t, depth) && order[0].1 < Pow2(order[0].0)
      && At(t, order[0].0, order[0].1) == LiveBlock
    ensures Enumerates(order[1..], Release(t, order[0].0, order[0].1), depth)
  {
    var (l, k) := order[0];
    var rest, t' := order[1..], Release(t, l, k);
    forall b | b in rest
      ensures b.0 <= depth && b.1 < Pow2(b.0) && At(t', b.0, b.1) == LiveBlock
    {
      assert b in order && b != order[0];
      ReleaseLive(t, l, k, b.0, b.1);
    }
    forall m: nat, j: nat | j < Pow2(m) && At(t', m, j) == LiveBlock
      ensures (m, j) in rest
    {
      ReleaseLive(t, l, k, m, j);
      assert (m, j) in order && (m, j) != order[0];
    }
  }

  lemma {:induction false} RunConcat(t: Tree, a: seq<Op>, b: seq<Op>, depth: nat)
    requires IsRun(t, a, depth) && IsRun(After(t, a, depth), b, depth)
    ensures IsRun(t, a + b, depth) && After(t, a + b, depth) == After(After(t, a, depth), b, depth)
    decreases |a|
  {
    if a == [] {
      assert a + b == b;
    } else {
      RunConcat(Apply(t, a[0], depth), a[1..], b, depth);
      assert (a + b)[1..] == a[1..] + b;
    }
  }

  /** Any run, and then all live blocks freed in any order: together a run that restores the initial tree. */
  lemma {:induction false} FreeingEverythingRestores(ops: seq<Op>, order: seq<(nat, nat)>, depth: nat)
    requires IsRun(Free, ops, depth) && Enumerates(order, After(Free, ops, depth), depth)
    ensures IsRun(Free, ops + Frees(order), depth) && After(Free, ops + Frees(order), depth) == Free
  {
    RunShape(Free, ops, depth);
    DrainInAnyOrder(After(Free, ops, depth), order, depth);
    RunConcat(Free, ops, Frees(order), depth);
  }

  // --------------------------------------------------------------------- undoing

  lemma {:induction false} ReleaseSpine(d: nat)
    ensures 0 < Pow2(d) && At(LeftSpine(d), d, 0) == LiveBlock && Release(LeftSpine(d), d, 0) == Free
  {
    if d > 0 { ReleaseSpine(d - 1); }
  }

  /** Freeing the block an allocation returned restores the tree. */
  lemma {:induction false} FreeUndoesAlloc(t: Tree, from: nat, k: nat, d: nat)
    requires k < Pow2(from) && At(t, from, k) == FreeBlock && Normal(t)
    ensures ShiftLeft(k, d) < Pow2(from + d)
      && At(Put(t, from, k, LeftSpine(d)), from + d, ShiftLeft(k, d)) == LiveBlock
    ensures Release(Put(t, from, k, LeftSpine(d)), from + d, ShiftLeft(k, d)) == t
    decreases from
  {
    if from == 0 {
      ShiftLeftZero(d);
      ReleaseSpine(d);
    } else {
      LeftmostHalves(from, k, d);
      var h := Pow2(from - 1);
      if k < h {
        FreeUndoesAlloc(t.left, from - 1, k, d);
      } else {
        FreeUndoesAlloc(t.right, from - 1, k - h, d);
      }
    }
  }

  // ------------------------------------------------------------- conservation

  /** Pages held by free (live) blocks in a subtree of 2^depth pages. */
  function FreePages(t: Tree, depth: nat): nat
    requires Fits(t, depth)
    decreases t
  {
    match t
    case Free => Pow2(depth)
    case Live => 0
    case Split(l, r) => FreePages(l, depth - 1) + FreePages(r, depth - 1)
  }

  function LivePages(t: Tree, depth: nat): nat
    requires Fits(t, depth)
    decreases t
  {
    match t
    case Free => 0
    case Live => Pow2(depth)
    case Split(l, r) => LivePages(l, depth - 1) + LivePages(r, depth - 1)
  }

  lemma {:induction false} PagesConserved(t: Tree, depth: nat)
    requires Fits(t, depth)
    ensures FreePages(t, depth) + LivePages(t, depth) == Pow2(depth)
    decreases t
  {
    if t.Split? {
      PagesConserved(t.left, depth - 1);
      PagesConserved(t.right, depth - 1);
    }
  }

  /** Number of free blocks at one level. */
  function FreeCount(t: Tree, level: nat): nat
    decreases level
  {
    if level == 0 then (if t.Free? then 1 else 0)
    else if t.Split? then FreeCount(t.left, level - 1) + FreeCount(t.right, level - 1)
    else 0
  }

  function FreePositions(t: Tree, level: nat): set<nat> {
    set k | 0 <= k < Pow2(level) && At(t, level, k) == FreeBlock
  }

  function ShiftedBy(r: set<nat>, h: nat): set<nat> {
    set x | x in r :: x + h
  }

  lemma {:induction false} ShiftedCardinality(r: set<nat>, h: nat)
    ensures |ShiftedBy(r, h)| == |r|
    decreases |r|
  {
    if r == {} {
      assert ShiftedBy(r, h) == {};
    } else {
      var x :| x in r;
      var rest := r - {x};
      ShiftedCardinality(rest, h);
      assert r == rest + {x};
      assert ShiftedBy(r, h) == ShiftedBy(rest, h) + {x + h};
    }
  }

  lemma {:induction false} FreeHalves(t: Tree, level: nat)
    requires t.Split? && level > 0
    ensures |FreePositions(t, level)| == |FreePositions(t.left, level - 1)| + |FreePositions(t.right, level - 1)|
  {
    var h := Pow2(level - 1);
    var s, a, b := FreePositions(t, level), FreePositions(t.left, level - 1), FreePositions(t.right, level - 1);
    forall x | x in b
      ensures (x + h) in s
    {
      assert At(t, level, x + h) == At(t.right, level - 1, x);
    }
    forall x | x in a
      ensures x in s
    {
      assert At(t, level, x) == At(t.left, level - 1, x);
    }
    forall x | x in s
      ensures x in a || x in ShiftedBy(b, h)
    {
      if x >= h { assert x - h in b; }
    }
    assert s == a + ShiftedBy(b, h);
    ShiftedCardinality(b, h);
  }

  /** FreeCount counts the free positions. */
  lemma {:induction false} FreeCountCounts(t: Tree, level: nat)
    ensures |FreePositions(t, level)| == FreeCount(t, level)
    decreases level
  {
    var s := FreePositions(t, level);
    if level == 0 {
      assert s == if t.Free? then {0} else {};
    } else if t.Split? {
      FreeHalves(t, level);
      FreeCountCounts(t.left, level - 1);
      FreeCountCounts(t.right, level - 1);
    } else {
      assert s == {};
    }
  }

  /** Pages counted level by level over levels [from, depth]. */
  function PagesByLevel(t: Tree, level: nat, depth: nat): nat
    requires level <= depth + 1
    decreases depth + 1 - level
  {
    if level == depth + 1 then 0
    else ShiftLeft(FreeCount(t, level), depth - level) + PagesByLevel(t, level + 1, depth)
  }

  lemma {:induction false} PagesByLevelSplit(t: Tree, level: nat, depth: nat)
    requires t.Split? && 0 < level <= depth + 1 && depth > 0
    ensures PagesByLevel(t, level, depth)
         == PagesByLevel(t.left, level - 1, depth - 1) + PagesByLevel(t.right, level - 1, depth - 1)
    decreases depth + 1 - level
  {
    if level <= depth {
      PagesByLevelSplit(t, level + 1, depth);
      ShiftLeftAdd(FreeCount(t.left, level - 1), FreeCount(t.right, level - 1), depth - level);
    }
  }

  lemma {:induction false} PagesByLevelLeaf(t: Tree, level: nat, depth: nat)
    requires !t.Split? && 0 < level <= depth + 1
    ensures PagesByLevel(t, level, depth) == 0
    decreases depth + 1 - level
  {
    if level <= depth {
      PagesByLevelLeaf(t, level + 1, depth);
      ShiftLeftZero(depth - level);
    }
  }

  /** Counting free blocks level by level gives the free pages. */
  lemma {:induction false} FreePagesByLevel(t: Tree, depth: nat)
    requires Fits(t, depth)
    ensures PagesByLevel(t, 0, depth) == FreePages(t, depth)
    decreases t
  {
    if t.Split? {
      ShiftLeftZero(depth);
      PagesByLevelSplit(t, 1, depth);
      FreePagesByLevel(t.left, depth - 1);
      FreePagesByLevel(t.right, depth - 1);
    } else {
      PagesByLevelLeaf(t, 1, depth);
      ShiftLeftOne(depth);
      ShiftLeftZero(depth);
    }
  }

  // ------------------------------------------------- single-page reservation

  /** The tree whose first n pages are live, one page each, and the rest maximal free blocks. */
  function Prefix(depth: nat, n: nat): Tree
    requires n <= Pow2(depth)
  {
    if n == 0 then Free
    else if depth == 0 then Live
    else
      var h := Pow2(depth - 1);
      if n <= h then Split(Prefix(depth - 1, n), Free)
      else Split(Prefix(depth - 1, h), Prefix(depth - 1, n - h))
  }

  /** Its live blocks are exactly the first n pages. */
  lemma {:induction false} PrefixPages(depth: nat, n: nat, l: nat, k: nat)
    requires n <= Pow2(depth) && l <= depth && k < Pow2(l)
    ensures At(Prefix(depth, n), l, k) == LiveBlock <==> l == depth && k < n
    decreases depth
  {
    if depth > 0 && n > 0 && l > 0 {
      var h, g := Pow2(depth - 1), Pow2(l - 1);
      if k < g {
        PrefixPages(depth - 1, if n <= h then n else h, l - 1, k);
      } else if n > h {
        PrefixPages(depth - 1, n - h, l - 1, k - g);
      }
    }
  }

  /** What n single-page allocations leave of a free region: all of it when they outnumber its pages. */
  function Reserved(depth: nat, n: nat): Tree {
    Prefix(depth, if n < Pow2(depth) then n else Pow2(depth))
  }

  lemma {:induction false} FullPrefixHasNoFree(depth: nat, l: nat, k: nat)
    requires k < Pow2(l)
    ensures At(Prefix(depth, Pow2(depth)), l, k) != FreeBlock
    decreases depth
  {
    if depth > 0 && l > 0 {
      var g := Pow2(l - 1);
      FullPrefixHasNoFree(depth - 1, l - 1, if k < g then k else k - g);
    }
  }

  /** The spine under a free subtree is the one-page prefix. */
  lemma {:induction false} SpineIsPrefix(depth: nat)
    ensures LeftSpine(depth) == Prefix(depth, 1)
  {
    if depth > 0 { SpineIsPrefix(depth - 1); }
  }

  /** Some free block lies strictly below the root of a proper prefix. */
  lemma {:induction false} PrefixHasFree(depth: nat, n: nat) returns (l: nat, k: nat)
    requires 0 < n < Pow2(depth)
    ensures 0 < l <= depth && k < Pow2(l) && At(Prefix(depth, n), l, k) == FreeBlock
    decreases depth
  {
    var h := Pow2(depth - 1);
    if n <= h {
      l, k := 1, 1;
      assert Pow2(1) == 2 * Pow2(0);
    } else {
      var a, b := PrefixHasFree(depth - 1, n - h);
      l, k := a + 1, b + Pow2(a);
    }
  }

  /** In a prefix that ends in the left half, the deepest free blocks lie in the left half. */
  lemma {:induction false} PrefixLeft(depth: nat, n: nat, from: nat, k: nat)
    requires 0 < n < Pow2(depth) && depth > 0 && n < Pow2(depth - 1)
    requires Enabled(Prefix(depth, n), AllocOp(depth, from, k), depth)
    ensures from > 1 && k < Pow2(from - 1)
    ensures Enabled(Prefix(depth - 1, n), AllocOp(depth - 1, from - 1, k), depth - 1)
  {
    var t := Prefix(depth, n);
    var l, j := PrefixHasFree(depth - 1, n);
    assert HasFree(t.left, l);
    HalfHasFree(t, t.left, l);
    assert from > 0;
    DeeperFree(t, t.left, depth, from);
    if k >= Pow2(from - 1) { RightOfShortPrefix(depth, n, from, k); }
  }

  lemma {:induction false} RightOfShortPrefix(depth: nat, n: nat, level: nat, k: nat)
    requires depth > 0 && 0 < n <= Pow2(depth - 1) && level > 1 && Pow2(level - 1) <= k < Pow2(level)
    ensures At(Prefix(depth, n), level, k) == Absent
  {
  }

  /** In a prefix that ends in the right half, every free block lies in the right half. */
  lemma {:induction false} PrefixRight(depth: nat, n: nat, from: nat, k: nat)
    requires depth > 0 && Pow2(depth - 1) < n < Pow2(depth)
    requires Enabled(Prefix(depth, n), AllocOp(depth, from, k), depth)
    ensures 0 < from && Pow2(from - 1) <= k
    ensures Enabled(Prefix(depth - 1, n - Pow2(depth - 1)), AllocOp(depth - 1, from - 1, k - Pow2(from - 1)), depth - 1)
  {
    var t := Prefix(depth, n);
    assert from > 0;
    assert Pow2(from - 1) <= k by {
      if k < Pow2(from - 1) { FullPrefixHasNoFree(depth - 1, from - 1, k); }
    }
    DeeperFree(t, t.right, depth, from);
  }

  /** The half-full prefix has one free block, the right half. */
  lemma {:induction false} PrefixHalf(depth: nat, from: nat, k: nat)
    requires depth > 0 && Enabled(Prefix(depth, Pow2(depth - 1)), AllocOp(depth, from, k), depth)
    ensures from == 1 && k == 1
  {
    var t := Prefix(depth, Pow2(depth - 1));
    assert from > 0;
    if k < Pow2(from - 1) { FullPrefixHasNoFree(depth - 1, from - 1, k); }
    assert At(t, from, k) == At(Free, from - 1, k - Pow2(from - 1));
    assert Pow2(1) == 2 * Pow2(0);
  }

  /**
   Allocating one page from the n-page prefix yields page n and the (n+1)-page
   prefix, whichever free block of the deepest level is taken.
   */
  lemma {:induction false} PrefixStep(depth: nat, n: nat, from: nat, k: nat)
    requires n < Pow2(depth) && Enabled(Prefix(depth, n), AllocOp(depth, from, k), depth)
    ensures ShiftLeft(k, depth - from) == n
    ensures Carve(Prefix(depth, n), from, k, depth) == Prefix(depth, n + 1)
    decreases depth
  {
    if n == 0 {
      ShiftLeftZero(depth);
      SpineIsPrefix(depth);
    } else {
      var h := Pow2(depth - 1);
      LeftmostHalves(from, k, depth - from);
      if n < h {
        PrefixLeft(depth, n, from, k);
        PrefixStep(depth - 1, n, from - 1, k);
      } else if n == h {
        PrefixHalf(depth, from, k);
        ShiftLeftZero(depth - 1);
        SpineIsPrefix(depth - 1);
      } else {
        PrefixRight(depth, n, from, k);
        PrefixStep(depth - 1, n - h, from - 1, k - Pow2(from - 1));
      }
    }
  }

  lemma {:induction false} HalfHasFree(t: Tree, s: Tree, m: nat)
    requires t.Split? && (s == t.left || s == t.right) && HasFree(s, m)
    ensures HasFree(t, m + 1)
  {
    var k: nat :| k < Pow2(m) && At(s, m, k) == FreeBlock;
    var j := if s == t.left then k else k + Pow2(m);
    assert At(t, m + 1, j) == FreeBlock;
  }

  /** "No free block deeper" passes from a split tree to either half. */
  lemma {:induction false} DeeperFree(t: Tree, s: Tree, depth: nat, from: nat)
    requires t.Split? && (s == t.left || s == t.right) && 0 < from <= depth
    requires forall m: nat :: from < m <= depth ==> !HasFree(t, m)
    ensures forall m: nat :: from - 1 < m <= depth - 1 ==> !HasFree(s, m)
  {
    forall m: nat | from - 1 < m <= depth - 1
      ensures !HasFree(s, m)
    {
      if HasFree(s, m) { HalfHasFree(t, s, m); }
    }
  }
}
