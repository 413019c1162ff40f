/**
 The reference view of a buddy allocator: a binary tree whose leaves are the
 free and the live blocks.  No bitmaps, no lists, no addresses: allocation
 replaces a free leaf by a left spine, freeing replaces a live leaf and joins
 two free siblings on the way up.
 */
module BuddyTree {
  import opened PowersOfTwo

  datatype Tree = Free | Live | Split(left: Tree, right: Tree)

  /** What the tree says about one position (level, k): k-th block of 2^level. */
  datatype Status = Absent | FreeBlock | LiveBlock | SplitBlock

  predicate IsLeaf(s: Status) {
    s == FreeBlock || s == LiveBlock
  }

  function Kind(t: Tree): Status {
    match t
    case Free => FreeBlock
    case Live => LiveBlock
    case Split(_, _) => SplitBlock
  }

  function At(t: Tree, level: nat, k: nat): Status
    requires k < Pow2(level)
  {
    if level == 0 then Kind(t)
    else if !t.Split? then Absent
    else if k < Pow2(level - 1) then At(t.left, level - 1, k)
    else At(t.right, level - 1, k - Pow2(level - 1))
  }

  /** Replaces the subtree at a position. */
  function Put(t: Tree, level: nat, k: nat, sub: Tree): Tree
    requires k < Pow2(level)
    requires At(t, level, k) != Absent
    decreases level
  {
    if level == 0 then sub
    else if k < Pow2(level - 1) then Split(Put(t.left, level - 1, k, sub), t.right)
    else Split(t.left, Put(t.right, level - 1, k - Pow2(level - 1), sub))
  }

  /** No block is deeper than `depth`. */
  ghost predicate Fits(t: Tree, depth: nat) {
    t.Split? ==> depth > 0 && Fits(t.left, depth - 1) && Fits(t.right, depth - 1)
  }

  /** Two free buddies never coexist. */
  ghost predicate Normal(t: Tree) {
    t.Split? ==> !(t.left.Free? && t.right.Free?) && Normal(t.left) && Normal(t.right)
  }

  /** A live block at depth d under repeatedly split left children. */
  function LeftSpine(d: nat): Tree {
    if d == 0 then Live else Split(LeftSpine(d - 1), Free)
  }

  /** Allocation of a `level` block out of the free block (from, k). */
  function Carve(t: Tree, from: nat, k: nat, level: nat): Tree
    requires from <= level && k < Pow2(from) && At(t, from, k) != Absent
  {
    Put(t, from, k, LeftSpine(level - from))
  }

  function Join(l: Tree, r: Tree): Tree {
    if l.Free? && r.Free? then Free else Split(l, r)
  }

  /** Freeing a block: recursive, joining free siblings bottom-up. */
  function Release(t: Tree, level: nat, k: nat): Tree
    requires k < Pow2(level)
    requires At(t, level, k) == LiveBlock
    decreases level
  {
    if level == 0 then Free
    else if k < Pow2(level - 1) then Join(Release(t.left, level - 1, k), t.right)
    else Join(t.left, Release(t.right, level - 1, k - Pow2(level - 1)))
  }

  // ---------------------------------------------------------------- positions

  function Sibling(k: nat): nat {
    if k % 2 == 0 then k + 1 else k - 1
  }

  lemma {:induction false} SiblingInRange(level: nat, k: nat)
    requires level > 0 && k < Pow2(level)
    ensures Sibling(k) < Pow2(level) && Sibling(Sibling(k)) == k && k / 2 < Pow2(level - 1)
  {
  }

  /** Children are present exactly under split nodes. */
  lemma {:induction false} ChildrenPresent(t: Tree, level: nat, k: nat)
    requires k < Pow2(level)
    ensures 2 * k + 1 < Pow2(level + 1)
    ensures (At(t, level, k) == SplitBlock) == (At(t, level + 1, 2 * k) != Absent)
    ensures (At(t, level, k) == SplitBlock) == (At(t, level + 1, 2 * k + 1) != Absent)
    decreases level
  {
    if level == 0 {
      assert Pow2(1) == 2 * Pow2(0);
      if t.Split? {
        assert At(t, 1, 0) == At(t.left, 0, 0);
        assert At(t, 1, 1) == At(t.right, 0, 0);
      }
    } else if t.Split? {
      var h := Pow2(level - 1);
      assert Pow2(level) == 2 * h;
      if k < h {
        ChildrenPresent(t.left, level - 1, k);
      } else {
        ChildrenPresent(t.right, level - 1, k - h);
        assert 2 * (k - h) == 2 * k - Pow2(level);
      }
    }
  }

  /** Replacing a leaf by a leaf changes that one position only. */
  lemma {:induction false} PutLeaf(t: Tree, level: nat, k: nat, sub: Tree, l: nat, j: nat)
    requires k < Pow2(level) && j < Pow2(l)
    requires IsLeaf(At(t, level, k)) && !sub.Split?
    ensures At(Put(t, level, k, sub), l, j) == if l == level && j == k then Kind(sub) else At(t, l, j)
    decreases level
  {
    if level > 0 && l > 0 {
      var h, g := Pow2(level - 1), Pow2(l - 1);
      if k < h {
        if j < g { PutLeaf(t.left, level - 1, k, sub, l - 1, j); }
      } else {
        if j >= g { PutLeaf(t.right, level - 1, k - h, sub, l - 1, j - g); }
      }
    }
  }

  /** Splitting a leaf into two leaves changes three positions. */
  lemma {:induction false} PutSplit(t: Tree, level: nat, k: nat, a: Tree, b: Tree, l: nat, j: nat)
    requires k < Pow2(level) && j < Pow2(l)
    requires IsLeaf(At(t, level, k)) && !a.Split? && !b.Split?
    ensures At(Put(t, level, k, Split(a, b)), l, j) ==
            if l == level && j == k then SplitBlock
            else if l == level + 1 && j == 2 * k then Kind(a)
            else if l == level + 1 && j == 2 * k + 1 then Kind(b)
            else At(t, l, j)
    decreases level
  {
    if level == 0 {
      assert Pow2(1) == 2 * Pow2(0);
    } else if l > 0 {
      var h, g := Pow2(level - 1), Pow2(l - 1);
      if k < h {
        if j < g { PutSplit(t.left, level - 1, k, a, b, l - 1, j); }
      } else {
        if j >= g { PutSplit(t.right, level - 1, k - h, a, b, l - 1, j - g); }
      }
    }
  }

  /** Joining two leaf children into one leaf changes three positions. */
  lemma {:induction false} PutJoin(t: Tree, level: nat, k: nat, sub: Tree, l: nat, j: nat)
    requires k < Pow2(level) && j < Pow2(l) && 2 * k + 1 < Pow2(level + 1)
    requires At(t, level, k) == SplitBlock && !sub.Split?
    requires IsLeaf(At(t, level + 1, 2 * k))
    requires IsLeaf(At(t, level + 1, 2 * k + 1))
    ensures At(Put(t, level, k, sub), l, j) ==
            if l == level && j == k then Kind(sub)
            else if l == level + 1 && j / 2 == k then Absent
            else At(t, l, j)
    decreases level
  {
    if level == 0 {
      assert Pow2(1) == 2 * Pow2(0);
      assert At(t, 1, 0) == Kind(t.left) && At(t, 1, 1) == Kind(t.right);
    } else if l > 0 {
      var h, g := Pow2(level - 1), Pow2(l - 1);
      assert Pow2(level) == 2 * h;
      if k < h {
        if j < g { PutJoin(t.left, level - 1, k, sub, l - 1, j); }
      } else {
        assert 2 * (k - h) == 2 * k - Pow2(level);
        if j >= g { PutJoin(t.right, level - 1, k - h, sub, l - 1, j - g); }
      }
    }
  }

  lemma {:induction false} AtPut(t: Tree, level: nat, k: nat, sub: Tree)
    requires k < Pow2(level) && At(t, level, k) != Absent
    ensures At(Put(t, level, k, sub), level, k) == Kind(sub)
    decreases level
  {
    if level > 0 {
      var h := Pow2(level - 1);
      if k < h { AtPut(t.left, level - 1, k, sub); } else { AtPut(t.right, level - 1, k - h, sub); }
    }
  }

  lemma {:induction false} PutSame(t: Tree, level: nat, k: nat)
    requires k < Pow2(level) && At(t, level, k) == LiveBlock
    ensures Put(t, level, k, Live) == t
    decreases level
  {
    if level > 0 {
      var h := Pow2(level - 1);
      if k < h { PutSame(t.left, level - 1, k); } else { PutSame(t.right, level - 1, k - h); }
    }
  }

  /** Writing twice at one position keeps the second write. */
  lemma {:induction false} PutPut(t: Tree, level: nat, k: nat, a: Tree, b: Tree)
    requires k < Pow2(level) && At(t, level, k) != Absent
    ensures At(Put(t, level, k, a), level, k) != Absent
    ensures Put(Put(t, level, k, a), level, k, b) == Put(t, level, k, b)
    decreases level
  {
    AtPut(t, level, k, a);
    if level > 0 {
      var h := Pow2(level - 1);
      if k < h { PutPut(t.left, level - 1, k, a, b); } else { PutPut(t.right, level - 1, k - h, a, b); }
    }
  }

  /** Writing the left child of a freshly split node. */
  lemma {:induction false} PutLeftChild(t: Tree, level: nat, k: nat, a: Tree, b: Tree, x: Tree)
    requires k < Pow2(level) && At(t, level, k) != Absent
    ensures 2 * k < Pow2(level + 1) && At(Put(t, level, k, Split(a, b)), level + 1, 2 * k) == Kind(a)
    ensures Put(Put(t, level, k, Split(a, b)), level + 1, 2 * k, x) == Put(t, level, k, Split(x, b))
    decreases level
  {
    if level == 0 {
      assert Pow2(1) == 2 * Pow2(0);
    } else {
      var h := Pow2(level - 1);
      assert Pow2(level) == 2 * h;
      if k < h {
        PutLeftChild(t.left, level - 1, k, a, b, x);
      } else {
        PutLeftChild(t.right, level - 1, k - h, a, b, x);
        assert 2 * (k - h) == 2 * k - Pow2(level);
      }
    }
  }

  // --------------------------------------------------------------- allocation

  lemma {:induction false} SpineShape(d: nat)
    ensures Fits(LeftSpine(d), d) && Normal(LeftSpine(d)) && !LeftSpine(d).Free?
  {
    if d > 0 { SpineShape(d - 1); }
  }

  lemma {:induction false} FitsDeeper(t: Tree, d: nat, e: nat)
    requires Fits(t, d) && d <= e
    ensures Fits(t, e)
    decreases t
  {
    if t.Split? {
      FitsDeeper(t.left, d - 1, e - 1);
      FitsDeeper(t.right, d - 1, e - 1);
    }
  }

  /** Writing a non-free, well-shaped subtree keeps the tree well shaped. */
  lemma {:induction false} PutShape(t: Tree, level: nat, k: nat, sub: Tree, depth: nat)
    requires k < Pow2(level) && At(t, level, k) != Absent
    requires level <= depth && Fits(t, depth) && Normal(t)
    requires Fits(sub, depth - level) && Normal(sub) && !sub.Free?
    ensures Fits(Put(t, level, k, sub), depth) && Normal(Put(t, level, k, sub))
    ensures !Put(t, level, k, sub).Free?
    decreases level
  {
    if level > 0 {
      var h := Pow2(level - 1);
      if k < h {
        PutShape(t.left, level - 1, k, sub, depth - 1);
      } else {
        PutShape(t.right, level - 1, k - h, sub, depth - 1);
      }
    }
  }

  /** Carving keeps the shape. */
  lemma {:induction false} CarveShape(t: Tree, from: nat, k: nat, level: nat, depth: nat)
    requires from <= level <= depth && k < Pow2(from) && At(t, from, k) == FreeBlock
    requires Fits(t, depth) && Normal(t)
    ensures Fits(Carve(t, from, k, level), depth) && Normal(Carve(t, from, k, level))
  {
    SpineShape(level - from);
    FitsDeeper(LeftSpine(level - from), level - from, depth - from);
    PutShape(t, from, k, LeftSpine(level - from), depth);
  }

  // ------------------------------------------------------------------ freeing

  /** Freeing keeps the shape; only the freed root can turn the tree Free. */
  lemma {:induction false} ReleaseShape(t: Tree, level: nat, k: nat, depth: nat)
    requires k < Pow2(level) && At(t, level, k) == LiveBlock
    requires Fits(t, depth) && Normal(t)
    ensures Fits(Release(t, level, k), depth) && Normal(Release(t, level, k))
    decreases level
  {
    if level > 0 {
      var h := Pow2(level - 1);
      if k < h {
        ReleaseShape(t.left, level - 1, k, depth - 1);
      } else {
        ReleaseShape(t.right, level - 1, k - h, depth - 1);
      }
    }
  }

  /** With a non-free sibling, or at the root, freeing is a single write. */
  lemma {:induction false} ReleaseStops(t: Tree, level: nat, k: nat)
    requires k < Pow2(level) && At(t, level, k) == LiveBlock && Normal(t)
    requires level > 0 ==> Sibling(k) < Pow2(level) && At(t, level, Sibling(k)) != FreeBlock
    ensures Release(t, level, k) == Put(t, level, k, Free)
    ensures level > 0 ==> !Release(t, level, k).Free?
    decreases level
  {
    if level == 1 {
      assert Pow2(1) == 2 * Pow2(0);
    } else if level > 1 {
      var h := Pow2(level - 1);
      assert h == 2 * Pow2(level - 2);
      if k < h {
        ReleaseStops(t.left, level - 1, k);
      } else {
        assert Sibling(k - h) == Sibling(k) - h;
        ReleaseStops(t.right, level - 1, k - h);
      }
    }
  }

  /** With a free sibling, freeing a block is freeing the joined parent. */
  lemma {:induction false} ReleaseJoins(t: Tree, level: nat, k: nat)
    requires 0 < level && k < Pow2(level) && At(t, level, k) == LiveBlock
    requires Sibling(k) < Pow2(level) && At(t, level, Sibling(k)) == FreeBlock
    ensures k / 2 < Pow2(level - 1) && At(t, level - 1, k / 2) == SplitBlock
    ensures At(Put(t, level - 1, k / 2, Live), level - 1, k / 2) == LiveBlock
    ensures Release(t, level, k) == Release(Put(t, level - 1, k / 2, Live), level - 1, k / 2)
    decreases level
  {
    if level == 1 {
      assert Pow2(1) == 2 * Pow2(0);
    } else {
      var h := Pow2(level - 1);
      assert h == 2 * Pow2(level - 2);
      if k < h {
        ReleaseJoins(t.left, level - 1, k);
      } else {
        assert Sibling(k - h) == Sibling(k) - h;
        assert (k - h) / 2 == k / 2 - Pow2(level - 2);
        ReleaseJoins(t.right, level - 1, k - h);
      }
    }
  }

  /** In a coalesced tree two buddies are never both free. */
  lemma {:induction false} BuddiesNotBothFree(t: Tree, level: nat, k: nat)
    requires Normal(t) && k < Pow2(level)
    ensures !(At(t, level + 1, 2 * k) == FreeBlock && At(t, level + 1, 2 * k + 1) == FreeBlock)
    decreases level
  {
    if level == 0 {
      assert Pow2(1) == 2 * Pow2(0);
    } else if t.Split? {
      var h := Pow2(level - 1);
      if k < h {
        BuddiesNotBothFree(t.left, level - 1, k);
      } else {
        BuddiesNotBothFree(t.right, level - 1, k - h);
      }
    }
  }
}
