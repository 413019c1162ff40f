/**
 The VM areas of a process, kept as a list with the newest first: lookup, the
 search for a free range of shared memory, removal, and the reversed copy made
 for a forked process.
 */
module VmAreas {
  import opened Options

  const PAGE: nat := 0x1000
  const REGION: nat := 0x0000_5000_0000_0000
  const REGION_SIZE: nat := 0x0000_00F0_0000_0000
  const REGION_END: nat := REGION + REGION_SIZE
  const EXT_COW: bv8 := 0x01

  datatype Area = Area(start: nat, end: nat, flags: bv8, ext: bv8, pageSize: nat, fd: int, offset: int)

  // -------------------------------------------------------------------- lookup

  predicate Contains(a: Area, x: nat) {
    a.start <= x < a.end
  }

  /** The position of the first area that contains x, or the length of the list. */
  function FindArea(areas: seq<Area>, x: nat): (k: nat)
    ensures k <= |areas| && (k < |areas| ==> Contains(areas[k], x))
    ensures forall i :: 0 <= i < k ==> !Contains(areas[i], x)
  {
    if areas == [] || Contains(areas[0], x) then 0 else FindArea(areas[1..], x) + 1
  }

  /** The first area that contains x. */
  function Lookup(areas: seq<Area>, x: nat): Option<Area> {
    var k := FindArea(areas, x);
    if k < |areas| then Some(areas[k]) else None
  }

  /** The collision test of vmarea_collides. */
  predicate Overlap(start: nat, end: nat, a: Area) {
    a.start < end && start < a.end
  }

  ghost predicate Free(areas: seq<Area>, start: nat, end: nat) {
    forall i :: 0 <= i < |areas| ==> !Overlap(start, end, areas[i])
  }

  ghost predicate Disjoint(areas: seq<Area>) {
    forall i, j :: 0 <= i < j < |areas| ==> !Overlap(areas[i].start, areas[i].end, areas[j])
  }

  /** Inserting a range that collides with nothing keeps the areas pairwise disjoint. */
  lemma {:induction false} InsertDisjoint(areas: seq<Area>, a: Area)
    requires Disjoint(areas) && Free(areas, a.start, a.end)
    ensures Disjoint([a] + areas)
  {
    var now := [a] + areas;
    forall i, j | 0 <= i < j < |now|
      ensures !Overlap(now[i].start, now[i].end, now[j])
    {
      assert now[j] == areas[j - 1];
      if i > 0 { assert now[i] == areas[i - 1]; }
    }
  }

  /** The address x lies in at most one area. */
  ghost predicate AtMostOne(areas: seq<Area>, x: nat) {
    forall i, j :: 0 <= i < j < |areas| ==> !(Contains(areas[i], x) && Contains(areas[j], x))
  }

  /** For areas that are not empty, disjoint means that no address lies in two of them. */
  lemma {:induction false} DisjointExactly(areas: seq<Area>)
    ensures Disjoint(areas) ==> forall x :: AtMostOne(areas, x)
    ensures (forall i :: 0 <= i < |areas| ==> areas[i].start < areas[i].end) && (forall x :: AtMostOne(areas, x)) ==>
      Disjoint(areas)
  {
    if (forall i :: 0 <= i < |areas| ==> areas[i].start < areas[i].end) && (forall x :: AtMostOne(areas, x)) {
      forall i, j | 0 <= i < j < |areas|
        ensures !Overlap(areas[i].start, areas[i].end, areas[j])
      {
        var x := if areas[i].start < areas[j].start then areas[j].start else areas[i].start;
        assert AtMostOne(areas, x);
      }
    }
  }

  // --------------------------------------------------------------------- search

  function AlignUp(x: nat): (r: nat)
    ensures x <= r < x + PAGE && r % PAGE == 0
  {
    (x + PAGE - 1) / PAGE * PAGE
  }

  /** How many areas end above start: what every step of the search decreases. */
  function EndingAbove(areas: seq<Area>, start: nat): nat {
    if areas == [] then 0 else EndingAbove(areas[1..], start) + if areas[0].end > start then 1 else 0
  }

  lemma {:induction false} FewerAbove(areas: seq<Area>, start: nat, next: nat)
    requires start <= next
    ensures EndingAbove(areas, next) <= EndingAbove(areas, start)
  {
    if areas != [] { FewerAbove(areas[1..], start, next); }
  }

  lemma {:induction false} OneFewerAbove(areas: seq<Area>, start: nat, next: nat, i: nat)
    requires i < |areas| && start < areas[i].end <= next
    ensures EndingAbove(areas, next) < EndingAbove(areas, start)
  {
    if i == 0 {
      FewerAbove(areas[1..], start, next);
    } else {
      OneFewerAbove(areas[1..], start, next, i - 1);
    }
  }

  /** Every page-aligned start in [lo, hi) collides. */
  ghost predicate Blocked(areas: seq<Area>, lo: nat, hi: nat, size: nat) {
    forall s :: lo <= s < hi && s % PAGE == 0 ==> !Free(areas, s, s + size)
  }

  /** Moving past a colliding area skips no free page-aligned start. */
  lemma {:induction false} SkipIsSafe(areas: seq<Area>, lo: nat, start: nat, size: nat, i: nat)
    requires i < |areas| && Overlap(start, start + size, areas[i]) && Blocked(areas, lo, start, size)
    ensures Blocked(areas, lo, AlignUp(areas[i].end), size)
  {
    var next := AlignUp(areas[i].end);
    forall s | lo <= s < next && s % PAGE == 0
      ensures !Free(areas, s, s + size)
    {
      if s >= start {
        AlignedBelow(s, areas[i].end);
        assert Overlap(s, s + size, areas[i]);
      }
    }
  }

  /** A page-aligned address below AlignUp(e) is below e. */
  lemma {:induction false} AlignedBelow(s: nat, e: nat)
    requires s % PAGE == 0 && s < AlignUp(e)
    ensures s < e
  {
    var k, n := s / PAGE, AlignUp(e) / PAGE;
    assert s == k * PAGE && AlignUp(e) == n * PAGE;
    assert k <= n - 1;
  }

  /** What the search for size bytes from a hint gives; 0 stands for NULL. */
  ghost predicate ShmResult(areas: seq<Area>, hint: nat, size: nat, r: nat) {
    && (r != 0 ==> Free(areas, r, r + size))
    && (r != 0 && r != hint ==>
          && r % PAGE == 0 && r <= REGION_END && !Free(areas, hint, hint + size)
          && ((hint < r && Blocked(areas, hint, r, size))
              || (REGION <= r && Blocked(areas, REGION, r, size) && Blocked(areas, hint, REGION_END + 1, size))))
    && (r == 0 <==>
          && !Free(areas, hint, hint + size)
          && Blocked(areas, hint, REGION_END + 1, size) && Blocked(areas, REGION, REGION_END + 1, size))
  }

  predicate InRegion(start: nat, size: nat) {
    REGION <= start && start + size <= REGION_END
  }

  /** A free page-aligned start in [lo, REGION_END - size]. */
  ghost predicate Room(areas: seq<Area>, lo: nat, size: nat) {
    size <= REGION_END && !Blocked(areas, lo, REGION_END - size + 1, size)
  }

  /**
   A range found lies inside the region exactly when the hint is free and its
   range does, or the hint collides, nothing page-aligned is free below the
   region, and there is room from the hint on, or, with nothing free from the
   hint to the region's end, from the region's start on.
   */
  lemma {:induction false} FoundInRegionExactly(areas: seq<Area>, hint: nat, size: nat, r: nat)
    requires ShmResult(areas, hint, size, r) && r != 0
    ensures InRegion(r, size) <==>
      if Free(areas, hint, hint + size) then InRegion(hint, size)
      else
        && Blocked(areas, hint, REGION, size)
        && (Room(areas, if hint < REGION then REGION else hint, size)
            || (Blocked(areas, hint, REGION_END + 1, size) && Room(areas, REGION, size)))
  {
    var from := if hint < REGION then REGION else hint;
    assert Free(areas, r, r + size);
    if Room(areas, from, size) && Blocked(areas, hint, r, size) { RoomReached(areas, from, size, hint, r); }
    if Room(areas, from, size) && Blocked(areas, REGION, r, size) { RoomReached(areas, from, size, REGION, r); }
    if Room(areas, REGION, size) && Blocked(areas, REGION, r, size) { RoomReached(areas, REGION, size, REGION, r); }
  }

  /** The first free start does not lie behind the room there is. */
  lemma {:induction false} RoomReached(areas: seq<Area>, lo: nat, size: nat, from: nat, r: nat)
    requires Room(areas, lo, size) && from <= lo && Blocked(areas, from, r, size)
    ensures r + size <= REGION_END
  {
    var s :| lo <= s < REGION_END - size + 1 && s % PAGE == 0 && Free(areas, s, s + size);
  }

  /** A free hint outside the region is the result. */
  lemma {:induction false} FreeHintOutside()
    ensures ShmResult([], PAGE, PAGE, PAGE) && !InRegion(PAGE, PAGE)
  {
    assert Free([], PAGE, PAGE + PAGE);
  }

  /** With the region full, its end is the result, and the range found lies behind it. */
  lemma {:induction false} EndOfFullRegion(full: seq<Area>)
    requires full == [Area(REGION, REGION_END, 0, 0, PAGE, -1, 0)]
    ensures ShmResult(full, REGION, PAGE, REGION_END) && !InRegion(REGION_END, PAGE)
  {
    forall s | REGION <= s < REGION_END && s % PAGE == 0
      ensures !Free(full, s, s + PAGE)
    {
      assert Overlap(s, s + PAGE, full[0]);
    }
    assert Overlap(REGION, REGION + PAGE, full[0]);
    assert Free(full, REGION_END, REGION_END + PAGE);
    assert Blocked(full, REGION, REGION_END, PAGE);
    assert REGION_END % PAGE == 0 && !Blocked(full, REGION, REGION_END + 1, PAGE);
  }

  // -------------------------------------------------------------------- removal

  function Starts(areas: seq<Area>): (r: seq<int>)
    ensures |r| == |areas|
  {
    seq(|areas|, i requires 0 <= i < |areas| => areas[i].start)
  }

  /** The list without its first area that starts at `start`. */
  function Without(areas: seq<Area>, start: nat): seq<Area> {
    Dropped(areas, FirstAt(Starts(areas), start))
  }

  /** Removal keeps the areas disjoint, and the addresses of the removed area are found no more. */
  lemma {:induction false} RemoveDisjoint(areas: seq<Area>, k: nat)
    requires Disjoint(areas) && k < |areas|
    ensures Disjoint(areas[..k] + areas[k + 1..])
    ensures forall x :: Contains(areas[k], x) ==> Lookup(areas[..k] + areas[k + 1..], x).None?
  {
    var now := areas[..k] + areas[k + 1..];
    DisjointExactly(areas);
    forall x | Contains(areas[k], x)
      ensures Lookup(now, x).None?
    {
      assert AtMostOne(areas, x);
    }
  }

  // ---------------------------------------------------------------- duplication

  function WithCow(a: Area, cow: bool): Area {
    if cow then a.(ext := a.ext | EXT_COW) else a
  }

  function AllCow(areas: seq<Area>, cow: bool): (r: seq<Area>)
    ensures |r| == |areas|
  {
    seq(|areas|, i requires 0 <= i < |areas| => WithCow(areas[i], cow))
  }

  function Reversed(areas: seq<Area>): (r: seq<Area>)
    ensures |r| == |areas|
  {
    seq(|areas|, i requires 0 <= i < |areas| => areas[|areas| - 1 - i])
  }

  lemma {:induction false} ReversedDisjoint(areas: seq<Area>)
    requires Disjoint(areas)
    ensures Disjoint(Reversed(areas))
  {
    var now, n := Reversed(areas), |areas|;
    forall i, j | 0 <= i < j < n
      ensures !Overlap(now[i].start, now[i].end, now[j])
    {
      assert !Overlap(areas[n - 1 - j].start, areas[n - 1 - j].end, areas[n - 1 - i]);
    }
  }

  /** The reversed copy finds for x the copy of the area that the original finds. */
  ghost predicate SameAnswer(areas: seq<Area>, copy: seq<Area>, x: nat) {
    var k := FindArea(areas, x);
    FindArea(copy, x) == if k < |areas| then |areas| - 1 - k else |areas|
  }

  /** The reversed copy answers like the original exactly for the addresses that lie in at most one area. */
  lemma {:induction false} SameAnswerExactly(areas: seq<Area>, x: nat)
    ensures SameAnswer(areas, Reversed(areas), x) <==> AtMostOne(areas, x)
  {
    var copy, n := Reversed(areas), |areas|;
    var first, k := FindArea(areas, x), FindArea(copy, x);
    forall i | n - 1 - k < i < n
      ensures !Contains(areas[i], x)
    {
      assert copy[n - 1 - i] == areas[i];
    }
    if first < n { assert copy[n - 1 - first] == areas[first]; }
    if k < n { assert copy[k] == areas[n - 1 - k]; }
  }

  /**
   As values: the answers are equal exactly when the first and the last area
   around x are; for different areas, when x lies in at most one.
   */
  lemma {:induction false} SameLookupExactly(areas: seq<Area>, x: nat)
    requires forall i, j :: 0 <= i < j < |areas| ==> areas[i] != areas[j]
    ensures Lookup(Reversed(areas), x) == Lookup(areas, x) <==> AtMostOne(areas, x)
  {
    var copy, n := Reversed(areas), |areas|;
    SameAnswerExactly(areas, x);
    var first, k := FindArea(areas, x), FindArea(copy, x);
    if k < n { assert copy[k] == areas[n - 1 - k] && Contains(areas[n - 1 - k], x); }
    if first < n { assert copy[n - 1 - first] == areas[first]; }
  }

  /** Two areas at the same address: the newer one wins in the original, the older one in the copy. */
  lemma {:induction false} OverlapChangesLookup() returns (areas: seq<Area>)
    ensures !AtMostOne(areas, 0) && Lookup(Reversed(areas), 0) != Lookup(areas, 0)
  {
    areas := [Area(0, PAGE, 0, 0, PAGE, 1, 0), Area(0, PAGE, 0, 0, PAGE, 2, 0)];
    assert Contains(areas[0], 0) && Contains(areas[1], 0);
    var copy := Reversed(areas);
    assert copy[0] == areas[1];
  }

  /** Marking areas copy-on-write moves none of them. */
  lemma {:induction false} CowDisjoint(areas: seq<Area>, cow: bool)
    requires Disjoint(areas)
    ensures Disjoint(AllCow(areas, cow))
  {
    var now := AllCow(areas, cow);
    forall i, j | 0 <= i < j < |now|
      ensures !Overlap(now[i].start, now[i].end, now[j])
    {
      assert !Overlap(areas[i].start, areas[i].end, areas[j]);
    }
  }

  // -------------------------------------------------------------------- process

  class Process {
    var areas: seq<Area>

    /** is_in_vmarea */
    method IsInVmArea(x: nat) returns (r: Option<Area>)
      ensures r == Lookup(areas, x)
    {
      for i := 0 to |areas|
        invariant forall k :: 0 <= k < i ==> !Contains(areas[k], x)
      {
        if Contains(areas[i], x) {
          return Some(areas[i]);
        }
      }
      r := None;
    }

    /** create_vmarea: the new area goes in front. */
    method CreateVmArea(a: Area)
      modifies this
      ensures areas == [a] + old(areas)
      ensures old(Disjoint(areas)) && old(Free(areas, a.start, a.end)) ==> Disjoint(areas)
    {
      if Disjoint(areas) && Free(areas, a.start, a.end) { InsertDisjoint(areas, a); }
      areas := [a] + areas;
    }

    /** vmarea_collides: the first colliding area. */
    method Collides(start: nat, end: nat) returns (r: Option<nat>)
      ensures r.None? <==> Free(areas, start, end)
      ensures r.Some? ==> r.value < |areas| && Overlap(start, end, areas[r.value])
      ensures r.Some? ==> forall i :: 0 <= i < r.value ==> !Overlap(start, end, areas[i])
    {
      for i := 0 to |areas|
        invariant forall k :: 0 <= k < i ==> !Overlap(start, end, areas[k])
      {
        if Overlap(start, end, areas[i]) {
          return Some(i);
        }
      }
      r := None;
    }

    /**
     find_shm_vmarea; 0 stands for NULL.  A result is free, and is the hint or the least page-aligned free start
     above it, or after one wrap the least one of the region.  NULL is returned exactly when none of these exists.
     */
    method FindShmVmArea(hintIn: nat, size: nat) returns (r: nat)
      ensures ShmResult(areas, if hintIn == 0 then REGION else hintIn, size, r)
    {
      var hint: nat := if hintIn == 0 then REGION else hintIn;
      var start: nat := hint;
      var wrap := false;
      var collision: Option<nat> := Collides(start, start + size);
      while collision.Some?
        invariant collision.None? <==> Free(areas, start, start + size)
        invariant collision.Some? ==> collision.value < |areas| && Overlap(start, start + size, areas[collision.value])
        invariant Searched(hint, start, wrap, size)
        decreases if wrap then 0 else 1, EndingAbove(areas, start)
      {
        var next := AlignUp(areas[collision.value].end);
        OneFewerAbove(areas, start, next, collision.value);
        SkipIsSafe(areas, if wrap then REGION else hint, start, size, collision.value);
        start := next;
        if start > REGION_END {
          if wrap {
            return 0;
          }
          start := REGION;
          wrap := true;
        }
        collision := Collides(start, start + size);
      }
      r := start;
    }

    /** What the search knows on the way: everything it passed is blocked. */
    ghost predicate Searched(hint: nat, start: nat, wrap: bool, size: nat)
      reads this
    {
      && 0 < hint && 0 < start
      && (start != hint || wrap ==> start % PAGE == 0 && start <= REGION_END && !Free(areas, hint, hint + size))
      && (!wrap ==> hint <= start && Blocked(areas, hint, start, size))
      && (wrap ==> REGION <= start && Blocked(areas, REGION, start, size) && Blocked(areas, hint, REGION_END + 1, size))
    }

    /** Searching and inserting keeps the areas disjoint. */
    method MapShared(hint: nat, size: nat, a: Area) returns (r: nat)
      requires Disjoint(areas)
      modifies this
      ensures Disjoint(areas)
      ensures areas == if r == 0 then old(areas) else [a.(start := r, end := r + size)] + old(areas)
    {
      r := FindShmVmArea(hint, size);
      if r != 0 {
        CreateVmArea(a.(start := r, end := r + size));
      }
    }

    /** remove_vmarea */
    method RemoveVmArea(start: nat)
      modifies this
      ensures areas == Without(old(areas), start)
      ensures old(Disjoint(areas)) ==> Disjoint(areas)
    {
      var i := 0;
      while i < |areas|
        invariant i <= |areas| && areas == old(areas)
        invariant forall k :: 0 <= k < i ==> areas[k].start != start
      {
        if areas[i].start == start {
          assert Starts(areas)[i] == start && FirstAt(Starts(areas), start) == i;
          if Disjoint(areas) { RemoveDisjoint(areas, i); }
          areas := areas[..i] + areas[i + 1..];
          return;
        }
        i := i + 1;
      }
      assert FirstAt(Starts(areas), start) == |areas|;
    }
  }

  /** duplicate_vmareas: every area of the parent is marked and pushed in front of the child's list. */
  method DuplicateVmAreas(parent: Process, child: Process, cow: bool)
    requires parent != child
    modifies parent, child
    ensures parent.areas == AllCow(old(parent.areas), cow)
    ensures child.areas == Reversed(parent.areas)
    ensures |parent.areas| == |child.areas| == |old(parent.areas)|
    // in the fields: copy-on-write is set on request, everything else is copied, in reverse order
    ensures forall i :: 0 <= i < |parent.areas| ==>
      var was, now := old(parent.areas)[i], parent.areas[i];
      && now == was.(ext := now.ext) && child.areas[|parent.areas| - 1 - i] == now
      && now.ext & 0xFE == was.ext & 0xFE && now.ext & 0x01 == if cow then 0x01 else was.ext & 0x01
    ensures forall x :: SameAnswer(parent.areas, child.areas, x) <==> old(AtMostOne(parent.areas, x))
    ensures old(Disjoint(parent.areas)) ==>
      && Disjoint(parent.areas) && Disjoint(child.areas)
      && forall x :: Lookup(child.areas, x) == Lookup(parent.areas, x)
  {
    ghost var before := parent.areas;
    CopyLoop(parent, child, cow);
    CopyAnswers(before, parent.areas, child.areas, cow);
    CowBits(before, cow);
  }

  method CopyLoop(parent: Process, child: Process, cow: bool)
    requires parent != child
    modifies parent, child
    ensures parent.areas == AllCow(old(parent.areas), cow) && child.areas == Reversed(parent.areas)
  {
    child.areas := [];
    ghost var before := parent.areas;
    for i := 0 to |parent.areas|
      invariant |parent.areas| == |before|
      invariant forall k :: 0 <= k < |before| ==>
        parent.areas[k] == if k < i then WithCow(before[k], cow) else before[k]
      invariant |child.areas| == i && forall k :: 0 <= k < i ==> child.areas[k] == WithCow(before[i - 1 - k], cow)
    {
      if cow {
        parent.areas := parent.areas[i := WithCow(parent.areas[i], true)];
      }
      child.CreateVmArea(parent.areas[i]);
    }
    assert parent.areas == AllCow(before, cow);
    assert child.areas == Reversed(parent.areas);
  }

  lemma {:induction false} CowBits(areas: seq<Area>, cow: bool)
    ensures forall i :: 0 <= i < |areas| ==>
      var was, now := areas[i], WithCow(areas[i], cow);
      && now == was.(ext := now.ext) && now.ext & 0xFE == was.ext & 0xFE
      && now.ext & 0x01 == if cow then 0x01 else was.ext & 0x01
  {
    forall i | 0 <= i < |areas| {
      CowBit(areas[i].ext);
    }
  }

  lemma {:induction false} CowBit(b: bv8)
    ensures (b | EXT_COW) & 0xFE == b & 0xFE && (b | EXT_COW) & 0x01 == 0x01
  {
  }

  lemma {:induction false} CopyAnswers(before: seq<Area>, areas: seq<Area>, copy: seq<Area>, cow: bool)
    requires areas == AllCow(before, cow) && copy == Reversed(areas)
    ensures forall x :: SameAnswer(areas, copy, x) <==> AtMostOne(before, x)
    ensures Disjoint(before) ==> Disjoint(areas) && Disjoint(copy) && forall x :: Lookup(copy, x) == Lookup(areas, x)
  {
    forall x
      ensures SameAnswer(areas, copy, x) <==> AtMostOne(before, x)
    {
      SameAnswerExactly(areas, x);
      CowAtMostOne(before, cow, x);
    }
    if Disjoint(before) {
      CowDisjoint(before, cow);
      ReversedDisjoint(areas);
      DisjointExactly(before);
      forall x
        ensures Lookup(copy, x) == Lookup(areas, x)
      {
        assert SameAnswer(areas, copy, x);
      }
    }
  }

  lemma {:induction false} CowAtMostOne(areas: seq<Area>, cow: bool, x: nat)
    ensures AtMostOne(AllCow(areas, cow), x) <==> AtMostOne(areas, x)
  {
    var now := AllCow(areas, cow);
    assert forall i :: 0 <= i < |areas| ==> (Contains(now[i], x) <==> Contains(areas[i], x));
  }
}
