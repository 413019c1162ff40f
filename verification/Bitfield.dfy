/**
 The bitmap page allocator: one bit a page, eight to a byte, a cyclic first-fit
 search, and the set of live ranges the bitmap stands for.
 */
module Bitfield {
  import opened PowersOfTwo
  import opened Options

  // ---------------------------------------------------------------------- bits

  /** 1 << k for a bit of a byte. */
  function Mask(k: nat): (r: bv8)
    requires k < 8
    ensures r == 1 << k
  {
    if k == 0 then 1 else if k == 1 then 2 else if k == 2 then 4 else if k == 3 then 8
    else if k == 4 then 16 else if k == 5 then 32 else if k == 6 then 64 else 128
  }

  lemma {:induction false} MaskSet(x: bv8, a: nat, b: nat)
    requires a < 8 && b < 8
    ensures (x | Mask(a)) & Mask(b) != 0 <==> a == b || x & Mask(b) != 0
  {
    MasksApart(a, b);
    OrBits(x, Mask(a), Mask(b));
  }

  lemma {:induction false} MaskClear(x: bv8, a: nat, b: nat)
    requires a < 8 && b < 8
    ensures (x & !Mask(a)) & Mask(b) != 0 <==> a != b && x & Mask(b) != 0
  {
    MasksApart(a, b);
    if a == b { ClearOwn(x, Mask(a)); } else { ClearOther(x, Mask(a), Mask(b)); }
  }

  lemma {:induction false} MasksApart(a: nat, b: nat)
    requires a < 8 && b < 8
    ensures Mask(a) & Mask(b) == if a == b then Mask(b) else 0
    ensures Mask(b) != 0
  {
  }

  lemma {:induction false} OrBits(x: bv8, m: bv8, n: bv8)
    requires m & n == 0 || (m == n && n != 0)
    ensures (x | m) & n != 0 <==> (m == n && n != 0) || x & n != 0
  {
  }

  lemma {:induction false} ClearOwn(x: bv8, m: bv8)
    ensures (x & !m) & m == 0
  {
  }

  lemma {:induction false} ClearOther(x: bv8, m: bv8, n: bv8)
    requires m & n == 0
    ensures (x & !m) & n == x & n
  {
  }

  /** The bit of page i. */
  predicate Taken(bits: seq<bv8>, i: nat)
    requires i < 8 * |bits|
  {
    bits[i / 8] & Mask(i % 8) != 0
  }

  lemma {:induction false} TakenAfterSet(bits: seq<bv8>, i: nat, j: nat)
    requires i < 8 * |bits| && j < 8 * |bits|
    ensures Taken(bits[i / 8 := bits[i / 8] | Mask(i % 8)], j) <==> i == j || Taken(bits, j)
  {
    if i / 8 == j / 8 { MaskSet(bits[i / 8], i % 8, j % 8); }
  }

  lemma {:induction false} TakenAfterClear(bits: seq<bv8>, i: nat, j: nat)
    requires i < 8 * |bits| && j < 8 * |bits|
    ensures Taken(bits[i / 8 := bits[i / 8] & !Mask(i % 8)], j) <==> i != j && Taken(bits, j)
  {
    if i / 8 == j / 8 { MaskClear(bits[i / 8], i % 8, j % 8); }
  }

  // --------------------------------------------------------------------- pages

  /** BYTES_TO_PAGES */
  function BytesToPages(bytes: nat, pageSize: nat): nat
    requires pageSize > 0
  {
    bytes / pageSize + if bytes % pageSize != 0 then 1 else 0
  }

  /** The least number of pages that hold the bytes. */
  lemma {:induction false} PagesAreLeast(bytes: nat, pageSize: nat, n: nat)
    requires pageSize > 0
    ensures bytes <= n * pageSize <==> BytesToPages(bytes, pageSize) <= n
  {
    var q, r := bytes / pageSize, bytes % pageSize;
    assert bytes == q * pageSize + r;
    if n < q {
      MulGap(n, q, pageSize);
    } else if q < n {
      MulGap(q, n, pageSize);
    }
  }

  /** What allocate reserves for a request. */
  function PagesFor(size: nat, pageSize: nat): nat
    requires pageSize > 0
  {
    BytesToPages(if size < pageSize then pageSize else size, pageSize)
  }

  /** deallocate computes the number of pages allocate reserved, exactly for non-empty requests. */
  lemma {:induction false} SamePages(size: nat, pageSize: nat)
    requires pageSize > 0
    ensures PagesFor(size, pageSize) >= 1
    ensures BytesToPages(size, pageSize) == PagesFor(size, pageSize) <==> size > 0
    ensures size == 0 ==> BytesToPages(size, pageSize) == 0
  {
    PagesAreLeast(size, pageSize, 0);
    PagesAreLeast(size, pageSize, 1);
    PagesAreLeast(pageSize, pageSize, 0);
    PagesAreLeast(pageSize, pageSize, 1);
  }

  /** No page of the run is taken, as far as the bitmap reaches. */
  ghost predicate Open(bits: seq<bv8>, i: nat, pages: nat) {
    forall k :: i <= k < i + pages && k < 8 * |bits| ==> !Taken(bits, k)
  }

  /** An open run that ends inside the bitmap. */
  ghost predicate Fits(bits: seq<bv8>, i: nat, pages: nat) {
    i + pages <= 8 * |bits| && Open(bits, i, pages)
  }

  /** No index before i in the order next, ..., size - 1, 0, 1, ..., next - 1 is open. */
  ghost predicate ClosedBefore(bits: seq<bv8>, next: nat, size: nat, pages: nat, i: nat) {
    if next <= i then
      forall k :: next <= k < i ==> !Open(bits, k, pages)
    else
      && (forall k :: next <= k < size ==> !Open(bits, k, pages))
      && (forall k :: 0 <= k < i ==> !Open(bits, k, pages))
  }

  /** The indices of that order. */
  function Limit(next: nat, size: nat): nat {
    if next < size then size else next
  }

  /** i is the first open index in that order: there the search ends. */
  ghost predicate FirstOpen(bits: seq<bv8>, next: nat, size: nat, pages: nat, i: nat) {
    i < Limit(next, size) && Open(bits, i, pages) && ClosedBefore(bits, next, size, pages, i)
  }

  /** The answer of a scan: a run, a taken page, or the end of the bitmap with pages still to test. */
  datatype Scan = Fit | Closed | ReadsBehind

  datatype Search = Found(index: nat) | NotFound | Behind(start: nat)

  /** What becomes of a request; Refused stands for the two panics. */
  datatype Allocation = Given(address: nat) | Refused | ReadBehind

  // --------------------------------------------------------------- live ranges

  /** The range handed out at s covers page i. */
  ghost predicate Holds(live: map<nat, nat>, s: nat, i: nat) {
    s in live && s <= i < s + live[s]
  }

  ghost predicate Covered(live: map<nat, nat>, i: nat) {
    exists s: nat :: Holds(live, s, i)
  }

  /** Pages whose bit init sets: bit 0 of the first `locked` bytes. */
  predicate Reserved(i: nat, locked: nat) {
    i % 8 == 0 && i / 8 < locked
  }

  /** Live ranges are not empty, lie inside the bitmap and share no page, with each other or with the reserved pages. */
  ghost predicate Separate(live: map<nat, nat>, pages: nat, locked: nat) {
    && (forall s :: s in live ==> live[s] > 0 && s + live[s] <= pages)
    && (forall s: nat, t: nat, i: nat :: Holds(live, s, i) && Holds(live, t, i) ==> s == t)
    && (forall s: nat, i: nat :: Holds(live, s, i) ==> !Reserved(i, locked))
  }

  /** The bitmap is exactly the reserved pages and the live ranges. */
  ghost predicate Tracks(bits: seq<bv8>, live: map<nat, nat>, locked: nat) {
    forall i :: 0 <= i < 8 * |bits| ==> (Taken(bits, i) <==> Reserved(i, locked) || Covered(live, i))
  }

  /** after is before with the pages [lo, hi) taken. */
  ghost predicate RangeSet(before: seq<bv8>, after: seq<bv8>, lo: nat, hi: nat) {
    |after| == |before| && forall j :: 0 <= j < 8 * |after| ==> (Taken(after, j) <==> lo <= j < hi || Taken(before, j))
  }

  ghost predicate RangeCleared(before: seq<bv8>, after: seq<bv8>, lo: nat, hi: nat) {
    |after| == |before| && forall j :: 0 <= j < 8 * |after| ==>
      (Taken(after, j) <==> !(lo <= j < hi) && Taken(before, j))
  }

  /** Taking a free range keeps the ranges apart and the bitmap exact. */
  lemma {:induction false} TakeRange(before: seq<bv8>, after: seq<bv8>, live: map<nat, nat>, locked: nat, index: nat,
                                     pages: nat)
    requires pages > 0 && Fits(before, index, pages) && RangeSet(before, after, index, index + pages)
    requires Separate(live, 8 * |before|, locked) && Tracks(before, live, locked)
    ensures index !in live
    ensures Separate(live[index := pages], 8 * |before|, locked) && Tracks(after, live[index := pages], locked)
  {
    NotCovered(before, live, locked, index, pages);
    var now := live[index := pages];
    forall s: nat, i: nat | Holds(now, s, i)
      ensures if s == index then index <= i < index + pages else Holds(live, s, i) && !(index <= i < index + pages)
    {
      if s != index { assert Holds(live, s, i); }
    }
    forall i | 0 <= i < 8 * |after|
      ensures Taken(after, i) <==> Reserved(i, locked) || Covered(now, i)
    {
      CoveredAfterTake(live, index, pages, i);
    }
  }

  /** A free range meets no live range and no reserved page. */
  lemma {:induction false} NotCovered(bits: seq<bv8>, live: map<nat, nat>, locked: nat, index: nat, pages: nat)
    requires pages > 0 && Fits(bits, index, pages)
    requires Separate(live, 8 * |bits|, locked) && Tracks(bits, live, locked)
    ensures index !in live
    ensures forall i :: index <= i < index + pages ==> !Covered(live, i) && !Reserved(i, locked)
    ensures forall s: nat, i: nat :: Holds(live, s, i) ==> !(index <= i < index + pages)
  {
    forall i | index <= i < index + pages
      ensures !Covered(live, i) && !Reserved(i, locked)
    {
      assert !Taken(bits, i);
    }
    if index in live {
      assert Holds(live, index, index);
      assert Covered(live, index);
    }
    forall s: nat, i: nat | Holds(live, s, i)
      ensures !(index <= i < index + pages)
    {
      assert Covered(live, i);
    }
  }

  lemma {:induction false} CoveredAfterTake(live: map<nat, nat>, index: nat, pages: nat, i: nat)
    requires index !in live
    ensures Covered(live[index := pages], i) <==> index <= i < index + pages || Covered(live, i)
  {
    var now := live[index := pages];
    if index <= i < index + pages { assert Holds(now, index, i); }
    if Covered(live, i) {
      var s: nat :| Holds(live, s, i);
      assert Holds(now, s, i);
    }
    if Covered(now, i) {
      var s: nat :| Holds(now, s, i);
      if s != index { assert Holds(live, s, i); }
    }
  }

  /** Giving a live range back keeps the rest apart and the bitmap exact. */
  lemma {:induction false} GiveRange(before: seq<bv8>, after: seq<bv8>, live: map<nat, nat>, locked: nat, index: nat)
    requires index in live && RangeCleared(before, after, index, index + live[index])
    requires Separate(live, 8 * |before|, locked) && Tracks(before, live, locked)
    ensures Separate(live - {index}, 8 * |before|, locked) && Tracks(after, live - {index}, locked)
  {
    var now := live - {index};
    forall s: nat, i: nat | Holds(now, s, i)
      ensures Holds(live, s, i) && s != index
    {
    }
    forall i | 0 <= i < 8 * |after|
      ensures Taken(after, i) <==> Reserved(i, locked) || Covered(now, i)
    {
      CoveredAfterGive(live, index, i);
      if index <= i < index + live[index] { assert Holds(live, index, i); }
    }
  }

  lemma {:induction false} CoveredAfterGive(live: map<nat, nat>, index: nat, i: nat)
    requires index in live && forall s: nat, t: nat, k: nat :: Holds(live, s, k) && Holds(live, t, k) ==> s == t
    ensures Covered(live - {index}, i) <==> Covered(live, i) && !(index <= i < index + live[index])
  {
    var now := live - {index};
    if Covered(now, i) {
      var s: nat :| Holds(now, s, i);
      assert Holds(live, s, i);
      if index <= i < index + live[index] { assert Holds(live, index, i); }
    }
    if Covered(live, i) && !(index <= i < index + live[index]) {
      var s: nat :| Holds(live, s, i);
      assert Holds(now, s, i);
    }
  }

  // ---------------------------------------------------------------- allocator

  /** The bitmap_size init computes: whole bytes only. */
  function BitmapSize(dataSize: nat, pageSize: nat): nat
    requires pageSize > 0
  {
    BytesToPages(dataSize, pageSize) / 8
  }

  function LockedPages(header: nat, dataSize: nat, pageSize: nat): nat
    requires pageSize > 0
  {
    BytesToPages(header + BitmapSize(dataSize, pageSize), pageSize)
  }

  /** x & ~m, bit by bit. */
  function ClearBits(x: nat, m: nat): (r: nat)
    ensures r <= x <= r + m
  {
    if x == 0 then 0 else 2 * ClearBits(x / 2, m / 2) + if m % 2 == 0 then x % 2 else 0
  }

  lemma {:induction false} ClearNothing(x: nat)
    ensures ClearBits(x, 0) == x
  {
    if x > 0 { ClearNothing(x / 2); }
  }

  lemma {:induction false} ClearLowBits(x: nat, e: nat)
    ensures ClearBits(x, Pow2(e) - 1) == ShiftLeft(ShiftRight(x, e), e)
    decreases e
  {
    if e == 0 {
      ClearNothing(x);
    } else {
      ClearLowBits(x / 2, e - 1);
      assert Pow2(e) - 1 == 2 * (Pow2(e - 1) - 1) + 1;
    }
  }

  /** For a power of two this rounds down to a multiple of it. */
  lemma {:induction false} ClearAligns(x: nat, p: nat)
    requires IsPow2(p)
    ensures ClearBits(x, p - 1) % p == 0
  {
    var e := ILog2(p);
    ClearLowBits(x, e);
    ShiftLeftProduct(ShiftRight(x, e), e);
    DivOfMultiple(ShiftRight(x, e), p);
  }

  /** a - b in 64-bit arithmetic. */
  function Sub64(a: nat, b: nat): (r: nat)
    ensures a < 0x1_0000_0000_0000_0000 && b < 0x1_0000_0000_0000_0000 ==>
        r < 0x1_0000_0000_0000_0000 && (r + b == a || r + b == a + 0x1_0000_0000_0000_0000)
    ensures b <= a ==> r + b == a
  {
    if b <= a then a - b else (a + 0x1_0000_0000_0000_0000 - b) % 0x1_0000_0000_0000_0000
  }

  /** When the locked pages fit the bitmap, the metadata fits the region. */
  lemma {:induction false} MetadataFits(header: nat, dataSize: nat, pageSize: nat)
    requires pageSize > 0 && LockedPages(header, dataSize, pageSize) <= BitmapSize(dataSize, pageSize)
    ensures header + BitmapSize(dataSize, pageSize) <= dataSize
    ensures header > 0 ==> LockedPages(header, dataSize, pageSize) > 0
  {
    var size, locked, n := BitmapSize(dataSize, pageSize), LockedPages(header, dataSize, pageSize),
                           BytesToPages(dataSize, pageSize);
    PagesAreLeast(header + size, pageSize, locked);
    PagesAreLeast(header + size, pageSize, 0);
    if size > 0 {
      PagesAreLeast(header + size, pageSize, n - 1);
      PagesAreLeast(dataSize, pageSize, n - 1);
    }
  }

  class Allocator {
    const dataAddress: nat
    const dataSize: nat
    const bitmap: array<bv8>
    const bitmapSize: nat
    const pageSize: nat
    const availableAddress: nat
    const availableSize: nat
    var nextIndex: nat

    ghost const header: nat
    ghost const locked: nat
    /** The ranges handed out and not given back: first page and number of pages. */
    ghost var live: map<nat, nat>

    ghost predicate Valid()
      reads this, bitmap
    {
      && bitmap.Length == bitmapSize && pageSize > 0 && 0 < locked
      && dataAddress + header + bitmapSize < availableAddress && availableSize == Sub64(dataSize, header + bitmapSize)
      && Separate(live, 8 * bitmapSize, locked) && Tracks(bitmap[..], live, locked)
    }

    /** init past its guard, on any region. */
    constructor (dataAddress: nat, dataSize: nat, pageSize: nat, header: nat)
      requires header > 0 && pageSize > 0
      ensures Valid() && fresh(bitmap) && live == map[]
      ensures this.dataAddress == dataAddress && this.dataSize == dataSize && this.pageSize == pageSize
      ensures this.header == header
      ensures bitmapSize == BitmapSize(dataSize, pageSize)
        && nextIndex == LockedPages(header, dataSize, pageSize) == locked
      ensures dataAddress + header + bitmapSize < availableAddress <= dataAddress + header + bitmapSize + pageSize
      ensures IsPow2(pageSize) ==> availableAddress % pageSize == 0
      ensures availableSize == Sub64(dataSize, header + bitmapSize)
      ensures locked <= bitmapSize ==> availableSize == dataSize - header - bitmapSize
    {
      var size := BitmapSize(dataSize, pageSize);
      var pages := LockedPages(header, dataSize, pageSize);
      PagesAreLeast(header + size, pageSize, 0);
      if pages <= size { MetadataFits(header, dataSize, pageSize); }
      var bits := new bv8[size];
      this.dataAddress, this.dataSize, this.header := dataAddress, dataSize, header;
      bitmap := bits;
      bitmapSize := size;
      this.pageSize := pageSize;
      availableAddress := ClearBits(dataAddress + header + size + pageSize, pageSize - 1);
      if IsPow2(pageSize) { ClearAligns(dataAddress + header + size + pageSize, pageSize); }
      availableSize := Sub64(dataSize, header + size);
      nextIndex := pages;
      locked := pages;
      live := map[];
      new;
      InitBitmap(bits, pages);
    }

    /** The two loops of init; bytes behind the bitmap belong to the pages and are not part of the state. */
    static method InitBitmap(bits: array<bv8>, pages: nat)
      modifies bits
      ensures Separate(map[], 8 * bits.Length, pages) && Tracks(bits[..], map[], pages)
    {
      for i := 0 to pages
        invariant forall k :: 0 <= k < i && k < bits.Length ==> bits[k] == 1
      {
        if i < bits.Length {
          bits[i] := 1;
        }
      }
      var i := pages;
      while i < bits.Length
        invariant pages <= i
        invariant forall k :: 0 <= k < i && k < bits.Length ==> bits[k] == if k < pages then 1 else 0
      {
        bits[i] := 0;
        i := i + 1;
      }
      FreshBits(bits[..], pages);
    }

    /** _fits: the scan stops at the first taken page, or reads on behind the bitmap. */
    method FitsAt(index: nat, pages: nat) returns (r: Scan)
      ensures r.Closed? <==> !Open(bitmap[..], index, pages)
      ensures r.ReadsBehind? <==> Open(bitmap[..], index, pages) && 0 < pages && index + pages > 8 * bitmap.Length
    {
      for i := index to index + pages
        invariant Open(bitmap[..], index, i - index) && i <= 8 * bitmap.Length + index
        invariant index < i ==> i <= 8 * bitmap.Length
      {
        if i >= 8 * bitmap.Length {
          return ReadsBehind;
        }
        if Taken(bitmap[..], i) {
          return Closed;
        }
      }
      r := Fit;
    }

    /**
     _get_free_index: the first open index at or after next_index, then from 0
     on; there the scan finds a run, or reads behind the bitmap.
     */
    method GetFreeIndex(pages: nat) returns (r: Search)
      requires bitmap.Length == bitmapSize && 0 < pages
      ensures r.Found? ==>
        FirstOpen(bitmap[..], nextIndex, bitmapSize, pages, r.index) && r.index + pages <= 8 * bitmapSize
      ensures r.Behind? ==>
        FirstOpen(bitmap[..], nextIndex, bitmapSize, pages, r.start) && r.start + pages > 8 * bitmapSize
      ensures r.NotFound? ==> forall i :: 0 <= i < Limit(nextIndex, bitmapSize) ==> !Open(bitmap[..], i, pages)
    {
      var i := nextIndex;
      while i < bitmapSize
        invariant nextIndex <= i && (i <= bitmapSize || i == nextIndex)
        invariant forall k :: nextIndex <= k < i ==> !Open(bitmap[..], k, pages)
      {
        var scan := FitsAt(i, pages);
        if !scan.Closed? {
          return if scan.Fit? then Found(i) else Behind(i);
        }
        i := i + 1;
      }
      i := 0;
      while i < nextIndex
        invariant 0 <= i <= nextIndex
        invariant forall k :: nextIndex <= k < bitmapSize ==> !Open(bitmap[..], k, pages)
        invariant forall k :: 0 <= k < i ==> !Open(bitmap[..], k, pages)
      {
        var scan := FitsAt(i, pages);
        if !scan.Closed? {
          return if scan.Fit? then Found(i) else Behind(i);
        }
        i := i + 1;
      }
      r := NotFound;
    }

    /** _lock_index */
    method LockIndex(index: nat, pages: nat)
      requires index + pages <= 8 * bitmap.Length
      modifies bitmap
      ensures RangeSet(old(bitmap[..]), bitmap[..], index, index + pages)
    {
      for i := index to index + pages
        invariant RangeSet(old(bitmap[..]), bitmap[..], index, i)
      {
        ghost var now := bitmap[..];
        bitmap[i / 8] := bitmap[i / 8] | Mask(i % 8);
        assert bitmap[..] == now[i / 8 := now[i / 8] | Mask(i % 8)];
        SetExtends(old(bitmap[..]), now, index, i);
      }
    }

    /** _un_lock_index */
    method UnlockIndex(index: nat, pages: nat)
      requires index + pages <= 8 * bitmap.Length
      modifies bitmap
      ensures RangeCleared(old(bitmap[..]), bitmap[..], index, index + pages)
    {
      for i := index to index + pages
        invariant RangeCleared(old(bitmap[..]), bitmap[..], index, i)
      {
        ghost var now := bitmap[..];
        bitmap[i / 8] := bitmap[i / 8] & !Mask(i % 8);
        assert bitmap[..] == now[i / 8 := now[i / 8] & !Mask(i % 8)];
        ClearExtends(old(bitmap[..]), now, index, i);
      }
    }

    /**
     allocate.  Refused exactly when the request exceeds available_size or no
     index searched is open; otherwise the first open index decides: its run
     is handed out when it ends inside the bitmap, and is read behind it when
     it does not.
     */
    method Allocate(size: nat) returns (r: Allocation, ghost index: nat, ghost pages: nat)
      requires Valid()
      modifies this, bitmap
      ensures Valid() && pages == PagesFor(size, pageSize)
      ensures r.Refused? <==>
        (|| size > availableSize
         || forall i :: 0 <= i < old(Limit(nextIndex, bitmapSize)) ==> !Open(old(bitmap[..]), i, pages))
      ensures !r.Refused? ==> FirstOpen(old(bitmap[..]), old(nextIndex), bitmapSize, pages, index)
      ensures !r.Refused? ==> (r.Given? <==> index + pages <= 8 * bitmapSize)
      ensures !r.Given? ==> live == old(live) && bitmap[..] == old(bitmap[..]) && nextIndex == old(nextIndex)
      ensures r.Given? ==> r.address == availableAddress + index * pageSize && 0 < index
      ensures r.Given? ==> index !in old(live) && live == old(live)[index := pages]
      ensures r.Given? ==> RangeSet(old(bitmap[..]), bitmap[..], index, index + pages)
      ensures r.Given? ==> nextIndex == if index == old(nextIndex) then index + pages else old(nextIndex)
      ensures r.Given? ==> (RangeInside(index, pages) <==> index + pages <= UsablePages())
      ensures r.Given? && old(Limit(nextIndex, bitmapSize)) + pages <= UsablePages() + 1 ==> RangeInside(index, pages)
    {
      index := 0;
      SamePages(size, pageSize);
      var bytes := if size < pageSize then pageSize else size;
      var wanted := BytesToPages(bytes, pageSize);
      pages := wanted;
      if size > availableSize {
        return Refused, 0, wanted;
      }
      var found := FindAndLock(wanted);
      if found.NotFound? {
        return Refused, 0, wanted;
      }
      if found.Behind? {
        return ReadBehind, found.start, wanted;
      }
      index := found.index;
      var address := AddressAt(found.index);
      r := Given(address);
      InsideExactly(index, pages);
    }

    method AddressAt(index: nat) returns (address: nat)
      ensures address == availableAddress + index * pageSize
    {
      address := availableAddress + index * pageSize;
    }

    /** The search of allocate and what follows a run that was found. */
    method FindAndLock(pages: nat) returns (r: Search)
      requires Valid() && 0 < pages
      modifies this, bitmap
      ensures Valid()
      ensures r.NotFound? <==>
        forall i :: 0 <= i < old(Limit(nextIndex, bitmapSize)) ==> !Open(old(bitmap[..]), i, pages)
      ensures r.Behind? ==>
        FirstOpen(old(bitmap[..]), old(nextIndex), bitmapSize, pages, r.start) && r.start + pages > 8 * bitmapSize
      ensures !r.Found? ==> live == old(live) && bitmap[..] == old(bitmap[..]) && nextIndex == old(nextIndex)
      ensures r.Found? ==>
        && FirstOpen(old(bitmap[..]), old(nextIndex), bitmapSize, pages, r.index)
        && 0 < r.index && r.index + pages <= 8 * bitmapSize
        && r.index !in old(live) && live == old(live)[r.index := pages]
        && RangeSet(old(bitmap[..]), bitmap[..], r.index, r.index + pages)
        && nextIndex == if r.index == old(nextIndex) then r.index + pages else old(nextIndex)
    {
      PageZeroTaken(bitmap[..], live, locked, pages);
      r := GetFreeIndex(pages);
      if r.Found? {
        HandOut(r.index, pages);
      }
    }

    /** The end of allocate: the pages are locked and next_index moves when it was the start of the run. */
    method HandOut(index: nat, pages: nat)
      requires Valid() && pages > 0 && Fits(bitmap[..], index, pages)
      modifies this, bitmap
      ensures Valid() && index !in old(live) && live == old(live)[index := pages]
      ensures RangeSet(old(bitmap[..]), bitmap[..], index, index + pages)
      ensures nextIndex == if index == old(nextIndex) then index + pages else old(nextIndex)
    {
      ghost var before := bitmap[..];
      LockIndex(index, pages);
      TakeRange(before, bitmap[..], live, locked, index, pages);
      live := live[index := pages];
      if index == nextIndex {
        nextIndex := index + pages;
      }
    }

    /** The range ends inside the managed region. */
    ghost predicate RangeInside(index: nat, pages: nat) {
      availableAddress + index * pageSize + pages * pageSize <= dataAddress + dataSize
    }

    /** The whole pages between the first page and the end of the region. */
    function UsablePages(): nat
      requires pageSize > 0
    {
      if dataAddress + dataSize <= availableAddress then 0 else (dataAddress + dataSize - availableAddress) / pageSize
    }

    /** A range lies inside the region exactly when it ends within the usable pages. */
    lemma {:induction false} InsideExactly(index: nat, pages: nat)
      requires pageSize > 0 && pages > 0
      ensures RangeInside(index, pages) <==> index + pages <= UsablePages()
    {
      Distribute(index, pages, pageSize);
      var n := index + pages;
      if availableAddress < dataAddress + dataSize {
        var q, r := DivMod(dataAddress + dataSize - availableAddress, pageSize);
        if n < q { MulGap(n, q, pageSize); } else if q < n { MulGap(q, n, pageSize); }
      } else {
        MulGap(0, n, pageSize);
      }
    }

    /** deallocate of a live range with the size it was requested with; false stands for the panic. */
    method Deallocate(address: nat, size: nat) returns (ok: bool)
      requires Valid()
      requires availableAddress <= address < availableAddress + availableSize ==>
        var index := (address - availableAddress) / pageSize;
        index in live && (size > 0 ==> live[index] == PagesFor(size, pageSize))
      modifies this, bitmap
      ensures Valid()
      ensures ok <==> availableAddress <= address < availableAddress + availableSize
      ensures !ok || size == 0 ==> live == old(live)
      ensures ok && size > 0 ==> live == old(live) - {(address - availableAddress) / pageSize}
      ensures !ok ==> nextIndex == old(nextIndex) && bitmap[..] == old(bitmap[..])
      ensures ok ==> var index := (address - availableAddress) / pageSize;
        nextIndex == if index < old(nextIndex) then index else old(nextIndex)
    {
      if address < availableAddress || address >= availableAddress + availableSize {
        return false;
      }
      var index: nat := (address - availableAddress) / pageSize;
      var pages := BytesToPages(size, pageSize);
      SamePages(size, pageSize);
      ghost var before := bitmap[..];
      UnlockIndex(index, pages);
      if size > 0 {
        GiveRange(before, bitmap[..], live, locked, index);
        live := live - {index};
      }
      if index < nextIndex {
        nextIndex := index;
      }
      ok := true;
    }

    /**
     deallocate accepts the address of an index exactly when it lies below
     available_size; inside the region it does.
     */
    lemma {:induction false} AcceptedExactly(index: nat, pages: nat)
      requires Valid() && pages > 0
      ensures var address := availableAddress + index * pageSize;
              availableAddress <= address < availableAddress + availableSize <==> index * pageSize < availableSize
      ensures RangeInside(index, pages) ==> index * pageSize < availableSize
    {
      MulGap(0, pages, pageSize);
    }

    /**
     A non-empty request, given and then given back: taken back exactly below
     available_size, and then nothing is left.
     */
    method AllocateThenDeallocate(size: nat) returns (r: Allocation, ok: bool, ghost index: nat, ghost pages: nat)
      requires Valid() && size > 0
      modifies this, bitmap
      ensures Valid() && pages == PagesFor(size, pageSize)
      ensures r.Refused? <==>
        (|| size > availableSize
         || forall i :: 0 <= i < old(Limit(nextIndex, bitmapSize)) ==> !Open(old(bitmap[..]), i, pages))
      ensures !r.Refused? ==> FirstOpen(old(bitmap[..]), old(nextIndex), bitmapSize, pages, index)
      ensures !r.Refused? ==> (r.Given? <==> index + pages <= 8 * bitmapSize)
      ensures r.Given? ==> (ok <==> index * pageSize < availableSize)
      ensures r.Given? && RangeInside(index, pages) ==> ok
      ensures !r.Given? || ok ==> live == old(live)
      ensures !r.Given? ==> !ok
    {
      ok := false;
      r, index, pages := Allocate(size);
      if r.Given? {
        SamePages(size, pageSize);
        AcceptedExactly(index, pages);
        AddressOfIndex(index);
        ok := Deallocate(r.address, size);
        assert old(live)[index := pages] - {index} == old(live);
      }
    }

    /** An address returned by allocate leads deallocate back to its range. */
    lemma {:induction false} AddressOfIndex(index: nat)
      requires pageSize > 0
      ensures (availableAddress + index * pageSize - availableAddress) / pageSize == index
    {
      DivOfMultiple(index, pageSize);
    }

    /** Ranges live at the same time never overlap, and page 0 is in none of them. */
    lemma {:induction false} LiveRangesApart(s: nat, t: nat)
      requires Valid() && s in live && t in live && s != t
      ensures 0 < s && 0 < t && (s + live[s] <= t || t + live[t] <= s)
    {
      assert Holds(live, s, s) && Holds(live, t, t);
      var later := if s < t then t else s;
      if s + live[s] > t && t + live[t] > s {
        assert Holds(live, s, later) && Holds(live, t, later);
      }
    }
  }

  /** init: NULL for a region without room for the header or for one page, or for page size 0. */
  method Init(dataAddress: nat, dataSize: nat, pageSize: nat, header: nat) returns (bf: Allocator?)
    requires header > 0
    ensures bf == null <==> dataSize < header || pageSize == 0 || dataSize < pageSize
    ensures bf != null ==> fresh(bf) && fresh(bf.bitmap) && bf.Valid() && bf.live == map[]
  {
    if dataSize < header || pageSize == 0 || dataSize < pageSize {
      return null;
    }
    bf := new Allocator(dataAddress, dataSize, pageSize, header);
  }

  lemma {:induction false} FreshBits(bits: seq<bv8>, locked: nat)
    requires forall k :: 0 <= k < |bits| ==> bits[k] == if k < locked then 1 else 0
    ensures Separate(map[], 8 * |bits|, locked) && Tracks(bits, map[], locked)
  {
    var none: map<nat, nat> := map[];
    forall i | 0 <= i < 8 * |bits|
      ensures Taken(bits, i) <==> Reserved(i, locked) || Covered(none, i)
    {
      MasksApart(0, i % 8);
    }
  }

  lemma {:induction false} SetExtends(before: seq<bv8>, now: seq<bv8>, lo: nat, i: nat)
    requires lo <= i < 8 * |now| && RangeSet(before, now, lo, i)
    ensures RangeSet(before, now[i / 8 := now[i / 8] | Mask(i % 8)], lo, i + 1)
  {
    var after := now[i / 8 := now[i / 8] | Mask(i % 8)];
    forall j | 0 <= j < 8 * |after|
      ensures Taken(after, j) <==> lo <= j < i + 1 || Taken(before, j)
    {
      TakenAfterSet(now, i, j);
    }
  }

  lemma {:induction false} ClearExtends(before: seq<bv8>, now: seq<bv8>, lo: nat, i: nat)
    requires lo <= i < 8 * |now| && RangeCleared(before, now, lo, i)
    ensures RangeCleared(before, now[i / 8 := now[i / 8] & !Mask(i % 8)], lo, i + 1)
  {
    var after := now[i / 8 := now[i / 8] & !Mask(i % 8)];
    forall j | 0 <= j < 8 * |after|
      ensures Taken(after, j) <==> !(lo <= j < i + 1) && Taken(before, j)
    {
      TakenAfterClear(now, i, j);
    }
  }

  /** Page 0 is reserved, so no run starts there and an index of 0 means that nothing was found. */
  lemma {:induction false} PageZeroTaken(bits: seq<bv8>, live: map<nat, nat>, locked: nat, pages: nat)
    requires 0 < locked && Tracks(bits, live, locked) && 0 < pages
    ensures 0 < |bits| ==> !Open(bits, 0, pages)
  {
    if 0 < |bits| { assert Taken(bits, 0); }
  }

  // -------------------------------------------------------------------- examples

  /** Nothing live at or behind page n, and the reserved pages before it: the run from n on is open. */
  lemma {:induction false} OpenBehind(bits: seq<bv8>, live: map<nat, nat>, n: nat, pages: nat)
    requires Tracks(bits, live, 1) && 0 < n && forall s :: s in live ==> s + live[s] <= n
    ensures Open(bits, n, pages)
  {
    forall i | n <= i < n + pages && i < 8 * |bits|
      ensures !Taken(bits, i)
    {
      assert !Reserved(i, 1);
      assert forall s: nat :: !Holds(live, s, i);
    }
  }

  /** 64 pages at 0x100000 with a 72-byte header: eight bitmap bytes, one locked page, pages from 0x101000 on. */
  method SmallRegion() returns (bf: Allocator)
    ensures fresh(bf) && fresh(bf.bitmap) && bf.Valid() && bf.live == map[] && bf.locked == 1 && bf.nextIndex == 1
    ensures bf.pageSize == 0x1000 && bf.bitmapSize == 8
    ensures bf.availableAddress == 0x101000 && bf.availableSize == 0x40000 - 80
    ensures bf.dataAddress + bf.dataSize == 0x140000
  {
    assert Pow2(12) == 0x1000;
    ILog2OfPow2(12);
    bf := new Allocator(0x100000, 0x40000, 0x1000, 72);
  }

  /** A request on that region whose run is open at next_index is decided there. */
  method RequestAtNext(bf: Allocator, bytes: nat, pages: nat) returns (r: Allocation)
    requires bf.Valid() && bf.pageSize == 0x1000 && bf.bitmapSize == 8 && bf.locked == 1 && 0 < bf.nextIndex < 8
    requires bytes <= bf.availableSize && pages == PagesFor(bytes, 0x1000)
    requires forall s :: s in bf.live ==> s + bf.live[s] <= bf.nextIndex
    modifies bf, bf.bitmap
    ensures bf.Valid()
    ensures if old(bf.nextIndex) + pages <= 64
            then r == Given(bf.availableAddress + old(bf.nextIndex) * 0x1000)
              && bf.nextIndex == old(bf.nextIndex) + pages
            else r.ReadBehind?
    ensures r.Given? ==> bf.live == old(bf.live)[old(bf.nextIndex) := pages]
  {
    ghost var bits, next := bf.bitmap[..], bf.nextIndex;
    OpenBehind(bits, bf.live, next, pages);
    ghost var index, n;
    r, index, n := bf.Allocate(bytes);
    assert index == next;
  }

  /** Six single pages and then 57: the last range ends one page behind the region. */
  method RunsPastRegion() returns (bf: Allocator, r: Allocation)
    ensures r.Given? && r.address + 57 * 0x1000 == 0x141000 == bf.dataAddress + bf.dataSize + 0x1000
  {
    bf := SmallRegion();
    for i := 0 to 6
      invariant fresh(bf) && fresh(bf.bitmap) && bf.Valid() && bf.nextIndex == 1 + i
      invariant forall s :: s in bf.live ==> s + bf.live[s] <= bf.nextIndex
    {
      var a := RequestAtNext(bf, 0x1000, 1);
    }
    r := RequestAtNext(bf, 57 * 0x1000, 57);
  }

  /** With pages 1 to 7 taken the next single page is refused, although page 8 and all behind it are free. */
  method MissesFreePages() returns (bf: Allocator, r: Allocation)
    ensures r.Refused? && bf.bitmap.Length == 8 && Fits(bf.bitmap[..], 8, 56)
  {
    bf := SmallRegion();
    var a := RequestAtNext(bf, 7 * 0x1000, 7);
    forall i | 0 <= i < 8
      ensures !Open(bf.bitmap[..], i, 1)
    {
      assert Taken(bf.bitmap[..], i) by { if i > 0 { assert Holds(bf.live, 1, i); } }
    }
    OpenBehind(bf.bitmap[..], bf.live, 8, 56);
    ghost var index, n;
    r, index, n := bf.Allocate(0x1000);
  }

  /** A request of exactly available_size on the fresh region reads bit 64 of 64. */
  method WholeRegionReadsBehind() returns (bf: Allocator, r: Allocation)
    ensures r.ReadBehind?
  {
    bf := SmallRegion();
    r := RequestAtNext(bf, bf.availableSize, 64);
  }

  /** 58 pages are served at the first index although a run of 58 from the last one searched would leave the bitmap. */
  method LargeRequestServed() returns (bf: Allocator, r: Allocation)
    ensures r == Given(0x102000) && 7 + 58 > 8 * bf.bitmapSize
  {
    bf := SmallRegion();
    r := RequestAtNext(bf, 58 * 0x1000, 58);
  }

  /**
   Eight pages of 16 bytes behind a 72-byte header: one bitmap byte, pages from
   80 on, of which 55 bytes are available.
   */
  method TinyRegion() returns (bf: Allocator)
    ensures fresh(bf) && fresh(bf.bitmap) && bf.Valid() && bf.live == map[] && bf.locked == 5 && bf.nextIndex == 5
    ensures bf.pageSize == 16 && bf.bitmapSize == 1 && bf.availableSize == 55
  {
    assert Pow2(4) == 16;
    ILog2OfPow2(4);
    bf := new Allocator(0, 128, 16, 72);
  }

  /** On the tiny region the first n pages behind the reserved one are taken and the rest is free. */
  lemma {:induction false} TinyState(bits: seq<bv8>, live: map<nat, nat>, n: nat, pages: nat)
    requires |bits| == 1 && Tracks(bits, live, 5) && 1 <= n && n + pages <= 8 && 0 < pages
    requires live == if n == 1 then map[] else map[1 := n - 1]
    ensures Open(bits, n, pages) && forall k :: 0 <= k < n ==> !Open(bits, k, pages)
  {
    forall i | 0 <= i < 8
      ensures Taken(bits, i) <==> i < n
    {
      assert Covered(live, i) <==> 1 <= i < n by { if 1 <= i < n { assert Holds(live, 1, i); } }
      assert Reserved(i, 5) <==> i == 0;
    }
    forall k | 0 <= k < n
      ensures !Open(bits, k, pages)
    {
      assert Taken(bits, k);
    }
  }

  /** Three pages and then one: the page given at index 4 is not taken back. */
  method NotTakenBack() returns (bf: Allocator, r: Allocation, ok: bool)
    ensures r.Given? && !ok
  {
    bf := TinyRegion();
    TinyState(bf.bitmap[..], bf.live, 1, 3);
    var a, i, n := bf.Allocate(48);
    assert n == 3 && i == 1;
    TinyState(bf.bitmap[..], bf.live, 4, 1);
    ghost var index;
    r, ok, index, n := bf.AllocateThenDeallocate(16);
    assert n == 1 && index == 4;
  }
}
