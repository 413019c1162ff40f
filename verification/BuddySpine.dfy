/**
 The bits that buddy_level_free changes when it is given the address just
 behind the region: it takes that address for a block one step right of the
 leftmost spine and climbs the bits of the spine.  `half` is where the split
 bits begin.
 */
module BuddySpine {
  import opened PowersOfTwo

  /** The pair bit of level k on the spine; the root has none. */
  ghost predicate SpinePair(b: nat, k: nat) {
    k > 0 && b == Pow2(k) - 1
  }

  /** The split bit cleared with it. */
  ghost predicate SpineSplit(half: nat, b: nat, k: nat) {
    b == Pow2(k + 1) - 1 + half
  }

  ghost predicate OnSpine(half: nat, b: nat, cleared: nat, toggled: nat, level: nat) {
    exists k: nat :: k <= level && ((cleared <= k && SpineSplit(half, b, k)) || (toggled <= k && SpinePair(b, k)))
  }

  /** Pair bits from level `toggled` to `level` are flipped, split bits from `cleared` on clear, the others kept. */
  ghost predicate SpineBits(was: seq<bool>, now: seq<bool>, half: nat, cleared: nat, toggled: nat, level: nat) {
    && |was| == |now|
    && (forall k: nat, b: nat :: cleared <= k <= level && SpineSplit(half, b, k) ==> b < |now| && !now[b])
    && (forall k: nat, b: nat :: toggled <= k <= level && SpinePair(b, k) ==> b < |now| && now[b] == !was[b])
    && (forall b: nat :: b < |now| && !OnSpine(half, b, cleared, toggled, level) ==> now[b] == was[b])
  }

  /** Every pair bit above level lo and up to `level` was set. */
  ghost predicate SpineSet(was: seq<bool>, lo: nat, level: nat) {
    forall k: nat, b: nat :: lo < k <= level && SpinePair(b, k) ==> b < |was| && was[b]
  }

  /**
   The bitmap after freeing the end of the region from `level` on: l is the
   deepest level up to there whose pair bit was clear, 0 when none was.
   */
  ghost predicate SpineFreed(was: seq<bool>, now: seq<bool>, half: nat, l: nat, level: nat) {
    && SpineBits(was, now, half, l, l, level) && SpineSet(was, l, level)
    && forall b: nat :: SpinePair(b, l) ==> b < |was| && !was[b]
  }

  // ------------------------------------------------------------------ the climb

  ghost function Toggled(bits: seq<bool>, level: nat): (r: seq<bool>)
    ensures |r| == |bits|
  {
    var b := Pow2(level) - 1;
    if level > 0 && b < |bits| then bits[b := !bits[b]] else bits
  }

  ghost function Cleared(bits: seq<bool>, half: nat, level: nat): (r: seq<bool>)
    ensures |r| == |bits|
  {
    var b := Pow2(level + 1) - 1 + half;
    if b < |bits| then bits[b := false] else bits
  }

  /** The bits when the merge loop that began at `level` has reached lev. */
  ghost function Climbed(was: seq<bool>, half: nat, lev: nat, level: nat): (r: seq<bool>)
    requires lev <= level
    ensures |r| == |was|
    decreases level - lev
  {
    if lev == level then Toggled(was, level)
    else Toggled(Cleared(Climbed(was, half, lev + 1, level), half, lev + 1), lev)
  }

  /** The loop does reach lev: the toggled pair bit is clear on every level before. */
  ghost predicate Climbs(was: seq<bool>, half: nat, lev: nat, level: nat)
    requires lev <= level
    decreases level - lev
  {
    lev == level || (Climbs(was, half, lev + 1, level) && PairClear(Climbed(was, half, lev + 1, level), lev + 1))
  }

  ghost predicate PairClear(bits: seq<bool>, level: nat) {
    Pow2(level) - 1 < |bits| && !bits[Pow2(level) - 1]
  }

  // ----------------------------------------------------------------- its effect

  /** Pair bits of the spine differ from each other and from the split bits. */
  lemma {:induction false} SpineApart(half: nat, b: nat, j: nat, k: nat)
    requires SpinePair(b, k) && Pow2(k) <= half
    ensures SpinePair(b, j) ==> j == k
    ensures !SpineSplit(half, b, j)
  {
    if j < k { Pow2Monotone(j + 1, k); } else if k < j { Pow2Monotone(k + 1, j); }
  }

  lemma {:induction false} ToggleBits(was: seq<bool>, bits: seq<bool>, half: nat, lev: nat, level: nat)
    requires lev <= level && Pow2(level) <= half && half + Pow2(level + 1) <= |was|
    requires SpineBits(was, bits, half, lev + 1, lev + 1, level)
    ensures SpineBits(was, Toggled(bits, lev), half, lev + 1, lev, level)
  {
    var now, at := Toggled(bits, lev), Pow2(lev) - 1;
    Pow2Monotone(lev, level);
    if lev > 0 {
      assert SpinePair(at, lev);
      KeptElsewhere(was, bits, half, lev, level, at);
      forall k: nat, b: nat | lev + 1 <= k <= level && (SpineSplit(half, b, k) || SpinePair(b, k))
        ensures b != at
      {
        if b == at { SpineApart(half, at, k, lev); }
      }
      forall b: nat | b < |now| && !OnSpine(half, b, lev + 1, lev, level)
        ensures now[b] == was[b]
      {
        StillOff(half, b, lev + 1, lev, lev + 1, lev + 1, level);
        assert !SpinePair(b, lev);
      }
    } else {
      forall b: nat | b < |now| && !OnSpine(half, b, lev + 1, lev, level)
        ensures now[b] == was[b]
      {
        StillOff(half, b, lev + 1, lev, lev + 1, lev + 1, level);
      }
    }
  }

  /** A bit off the longer stretch of the spine is off the shorter. */
  lemma {:induction false} StillOff(half: nat, b: nat, cleared: nat, toggled: nat, cleared': nat, toggled': nat,
                                    level: nat)
    requires cleared <= cleared' && toggled <= toggled' && !OnSpine(half, b, cleared, toggled, level)
    ensures !OnSpine(half, b, cleared', toggled', level)
  {
  }

  /** Bit `at`, a pair bit not reached yet, is as it was. */
  lemma {:induction false} KeptElsewhere(was: seq<bool>, bits: seq<bool>, half: nat, lev: nat, level: nat, at: nat)
    requires lev <= level && Pow2(lev) <= half && at < |was| && SpinePair(at, lev)
    requires SpineBits(was, bits, half, lev + 1, lev + 1, level)
    ensures bits[at] == was[at]
  {
    if OnSpine(half, at, lev + 1, lev + 1, level) {
      var k: nat :| k <= level && lev + 1 <= k && (SpineSplit(half, at, k) || SpinePair(at, k));
      SpineApart(half, at, k, lev);
    }
  }

  lemma {:induction false} ClearBits(was: seq<bool>, bits: seq<bool>, half: nat, lev: nat, level: nat)
    requires lev <= level && Pow2(level) <= half && half + Pow2(level + 1) <= |was|
    requires SpineBits(was, bits, half, lev + 1, lev, level)
    ensures SpineBits(was, Cleared(bits, half, lev), half, lev, lev, level)
  {
    var now, at := Cleared(bits, half, lev), Pow2(lev + 1) - 1 + half;
    Pow2Monotone(lev + 1, level + 1);
    assert SpineSplit(half, at, lev);
    forall k: nat, b: nat | lev <= k <= level && SpinePair(b, k)
      ensures b != at
    {
      Pow2Monotone(k, level);
    }
    forall b: nat | b < |now| && !OnSpine(half, b, lev, lev, level)
      ensures now[b] == was[b]
    {
      StillOff(half, b, lev, lev, lev + 1, lev, level);
      assert !SpineSplit(half, b, lev);
    }
  }

  lemma {:induction false} ClimbedBits(was: seq<bool>, half: nat, lev: nat, level: nat)
    requires lev <= level && Pow2(level) <= half && half + Pow2(level + 1) <= |was|
    ensures SpineBits(was, Climbed(was, half, lev, level), half, lev + 1, lev, level)
    decreases level - lev
  {
    if lev == level {
      ToggleBits(was, was, half, level, level);
    } else {
      var below := Climbed(was, half, lev + 1, level);
      ClimbedBits(was, half, lev + 1, level);
      ClearBits(was, below, half, lev + 1, level);
      ToggleBits(was, Cleared(below, half, lev + 1), half, lev, level);
    }
  }

  lemma {:induction false} ClimbsSet(was: seq<bool>, half: nat, lev: nat, level: nat)
    requires lev <= level && Pow2(level) <= half && half + Pow2(level + 1) <= |was| && Climbs(was, half, lev, level)
    ensures SpineSet(was, lev, level)
    decreases level - lev
  {
    if lev < level {
      ClimbsSet(was, half, lev + 1, level);
      ClimbedBits(was, half, lev + 1, level);
      assert SpinePair(Pow2(lev + 1) - 1, lev + 1);
    }
  }

  /** The loop ends at lev: the bits are those of SpineFreed. */
  lemma {:induction false} ClimbEnds(was: seq<bool>, now: seq<bool>, half: nat, lev: nat, level: nat)
    requires lev <= level && Pow2(level) <= half && half + Pow2(level + 1) <= |was| && Climbs(was, half, lev, level)
    requires now == Cleared(Climbed(was, half, lev, level), half, lev)
    requires lev > 0 ==> !PairClear(Climbed(was, half, lev, level), lev)
    ensures SpineFreed(was, now, half, lev, level)
  {
    var bits := Climbed(was, half, lev, level);
    ClimbedBits(was, half, lev, level);
    ClimbsSet(was, half, lev, level);
    ClearBits(was, bits, half, lev, level);
    if lev > 0 { assert SpinePair(Pow2(lev) - 1, lev); }
  }
}
