/** The physical frame allocator (kernel/src/mm/pmm.rs): one bit per 4 KiB frame, set when in use. */
module Pmm {
  import opened Common
  import opened Bits

  const PAGE_SIZE := 4096
  const MAX_PAGES := 1048576
  const MAX_PHYS := 0x8000_0000

  /** One entry of the boot loader's memory map. */
  datatype MemoryRegion = MemoryRegion(base: nat, length: nat, usable: bool)

  predicate IsFree(bitmap: seq<Word>, p: nat) {
    p < 64 * |bitmap| && !Bit(bitmap[p / 64], p % 64)
  }

  /** `free` holds exactly those of the first `n` frames whose bit is clear. */
  ghost predicate Agrees(bitmap: seq<Word>, free: set<nat>, n: nat) {
    n > 0 ==> Agrees(bitmap, free, n - 1) && (n - 1 in free <==> IsFree(bitmap, n - 1))
  }

  lemma {:induction false} AgreesOn(bitmap: seq<Word>, free: set<nat>, n: nat)
    requires Agrees(bitmap, free, n)
    ensures forall p: nat :: p < n ==> (p in free <==> IsFree(bitmap, p))
  {
    if n > 0 { AgreesOn(bitmap, free, n - 1); }
  }

  lemma {:induction false} AgreesFrom(bitmap: seq<Word>, free: set<nat>, n: nat)
    requires forall p: nat :: p < n ==> (p in free <==> IsFree(bitmap, p))
    ensures Agrees(bitmap, free, n)
  {
    if n > 0 { AgreesFrom(bitmap, free, n - 1); }
  }

  ghost predicate IsLowest(p: nat, free: set<nat>) {
    p in free && forall q :: q in free ==> p <= q
  }

  lemma ClearingFrees(bitmap: seq<Word>, free: set<nat>, n: nat, p: nat)
    requires n == 64 * |bitmap| && p < n && Agrees(bitmap, free, n)
    ensures Agrees(bitmap[p / 64 := And(bitmap[p / 64], Not(Mask(p % 64)))], free + {p}, n)
  {
    var after := bitmap[p / 64 := And(bitmap[p / 64], Not(Mask(p % 64)))];
    AgreesOn(bitmap, free, n);
    forall q: nat | q < n ensures q in free + {p} <==> IsFree(after, q) {
      assert q / 64 == p / 64 && q % 64 == p % 64 ==> q == p;
    }
    AgreesFrom(after, free + {p}, n);
  }

  lemma SettingUses(bitmap: seq<Word>, free: set<nat>, n: nat, p: nat)
    requires n == 64 * |bitmap| && p < n && Agrees(bitmap, free, n)
    ensures Agrees(bitmap[p / 64 := Or(bitmap[p / 64], Mask(p % 64))], free - {p}, n)
  {
    var after := bitmap[p / 64 := Or(bitmap[p / 64], Mask(p % 64))];
    AgreesOn(bitmap, free, n);
    forall q: nat | q < n ensures q in free - {p} <==> IsFree(after, q) {
      assert q / 64 == p / 64 && q % 64 == p % 64 ==> q == p;
    }
    AgreesFrom(after, free - {p}, n);
  }

  /** The first word that is not all ones holds the lowest free frame at its lowest clear bit. */
  lemma LowestClearBit(bitmap: seq<Word>, free: set<nat>, n: nat, i: nat)
    requires n == 64 * |bitmap| && Agrees(bitmap, free, n) && forall p :: p in free ==> p < n
    requires i < |bitmap| && bitmap[i] != ALL_ONES
    requires forall k :: 0 <= k < i ==> bitmap[k] == ALL_ONES
    ensures Not(bitmap[i]) != 0 && IsLowest(64 * i + TrailingZeros(Not(bitmap[i])), free)
  {
    AllOnes(bitmap[i]);
    AgreesOn(bitmap, free, n);
    var bit := TrailingZeros(Not(bitmap[i]));
    var p := 64 * i + bit;
    assert p / 64 == i && p % 64 == bit;
    forall q | q in free ensures p <= q {
      AllOnes(bitmap[q / 64]);
      assert q / 64 == i ==> Bit(Not(bitmap[i]), q % 64);
    }
  }

  lemma NoClearBit(bitmap: seq<Word>, free: set<nat>, n: nat)
    requires n == 64 * |bitmap| && Agrees(bitmap, free, n) && forall p :: p in free ==> p < n
    requires forall k :: 0 <= k < |bitmap| ==> bitmap[k] == ALL_ONES
    ensures free == {}
  {
    AgreesOn(bitmap, free, n);
    forall p: nat | p < n ensures !IsFree(bitmap, p) {
      AllOnes(bitmap[p / 64]);
    }
  }

  /** The frames `init` releases for one region, in order. */
  function UsableEnd(r: MemoryRegion): nat {
    Min(r.base + r.length, MAX_PHYS)
  }

  predicate Skipped(r: MemoryRegion) {
    !r.usable || (r.base + r.length > MAX_PHYS && r.base >= MAX_PHYS)
  }

  function PageCount(r: MemoryRegion): nat {
    if Skipped(r) then 0 else (UsableEnd(r) - r.base) / PAGE_SIZE
  }

  function RegionPages(r: MemoryRegion): seq<nat> {
    seq(PageCount(r), k requires 0 <= k => r.base / PAGE_SIZE + k)
  }

  function RegionsPages(regions: seq<MemoryRegion>): seq<nat> {
    if regions == [] then [] else RegionsPages(regions[..|regions| - 1]) + RegionPages(regions[|regions| - 1])
  }

  lemma {:induction false} RegionsPagesInRange(regions: seq<MemoryRegion>)
    ensures forall p :: p in RegionsPages(regions) ==> p < MAX_PAGES
  {
    if regions != [] {
      RegionsPagesInRange(regions[..|regions| - 1]);
      var r := regions[|regions| - 1];
      assert !Skipped(r) ==> r.base / PAGE_SIZE + PageCount(r) <= UsableEnd(r) / PAGE_SIZE;
    }
  }

  lemma OneMore(free: set<nat>, page: nat)
    ensures |free + {page}| == |free| + (if page in free then 0 else 1)
  {
    if page in free {
      assert free + {page} == free;
    }
  }

  lemma OneMorePage(done: seq<nat>, pages: seq<nat>, i: nat)
    requires i < |pages|
    ensures ToSet(done + pages[..i + 1]) == ToSet(done + pages[..i]) + {pages[i]}
  {
    assert done + pages[..i + 1] == done + pages[..i] + [pages[i]];
  }

  class BitmapAllocator {
    const bitmap: array<Word>
    var totalPages: nat
    var freePages: nat
    ghost var free: set<nat>

    /** The frames whose bit is clear. */
    ghost function Free(): set<nat>
      reads this
    {
      free
    }

    /** The counter never falls below the number of clear bits, so decrements cannot underflow. */
    ghost predicate Valid()
      reads this, bitmap
    {
      && 64 * bitmap.Length == MAX_PAGES
      && Agrees(bitmap[..], free, MAX_PAGES)
      && (forall p :: p in free ==> p < MAX_PAGES)
      && |free| <= freePages
    }

    /** How far the counter runs ahead of the bitmap; zero means `freePages` is exact. */
    ghost function Drift(): int
      reads this
    {
      freePages - |free|
    }

    constructor ()
      ensures Valid() && Drift() == 0 && Free() == {}
      ensures fresh(bitmap)
    {
      bitmap := new Word[MAX_PAGES / 64](_ => ALL_ONES);
      totalPages := 0;
      freePages := 0;
      free := {};
      new;
      forall p: nat | p < MAX_PAGES ensures !IsFree(bitmap[..], p) {
        AllOnes(bitmap[p / 64]);
      }
      AgreesFrom(bitmap[..], {}, MAX_PAGES);
    }

    method ClearBit(page: nat)
      requires Valid() && page < MAX_PAGES
      modifies bitmap
      ensures Agrees(bitmap[..], free + {page}, MAX_PAGES)
    {
      ClearingFrees(bitmap[..], free, MAX_PAGES, page);
      var idx, bit := page / 64, page % 64;
      bitmap[idx] := And(bitmap[idx], Not(Mask(bit)));
      assert bitmap[..] == old(bitmap[..])[idx := And(old(bitmap[idx]), Not(Mask(bit)))];
    }

    /** Clears the bit and counts one more free frame, whether or not the bit was set. */
    method MarkFree(page: nat)
      requires Valid() && page < MAX_PAGES
      modifies bitmap, `freePages, `free
      ensures Valid()
      ensures Free() == old(Free()) + {page}
      ensures freePages == old(freePages) + 1
      ensures Drift() == old(Drift()) + (if page in old(Free()) then 1 else 0)
    {
      ClearBit(page);
      OneMore(free, page);
      freePages := freePages + 1;
      free := free + {page};
    }

    /** Takes the lowest free frame; fails exactly when no frame is free. */
    method AllocPage() returns (r: Option<nat>)
      requires Valid()
      modifies bitmap, `freePages, `free
      ensures Valid() && Drift() == old(Drift())
      ensures r.None? <==> old(Free()) == {}
      ensures r.None? ==> Free() == {} && freePages == old(freePages)
      ensures r.Some? ==> r.value % PAGE_SIZE == 0 && r.value / PAGE_SIZE < MAX_PAGES
      ensures r.Some? ==> IsLowest(r.value / PAGE_SIZE, old(Free()))
      ensures r.Some? ==> Free() == old(Free()) - {r.value / PAGE_SIZE}
    {
      ghost var before := bitmap[..];
      for i := 0 to bitmap.Length
        invariant forall k :: 0 <= k < i ==> before[k] == ALL_ONES
        invariant bitmap[..] == before && freePages == old(freePages) && free == old(free)
      {
        if bitmap[i] != ALL_ONES {
          LowestClearBit(before, free, MAX_PAGES, i);
          var bit := TrailingZeros(Not(bitmap[i]));
          ghost var page := i * 64 + bit;
          assert page / 64 == i && page % 64 == bit;
          SettingUses(before, free, MAX_PAGES, page);
          bitmap[i] := Or(bitmap[i], Mask(bit));
          assert bitmap[..] == before[i := Or(before[i], Mask(bit))];
          freePages := freePages - 1;
          free := free - {page};
          r := Some((i * 64 + bit) * PAGE_SIZE);
          assert r.value / PAGE_SIZE == page;
          return;
        }
      }
      NoClearBit(before, free, MAX_PAGES);
      return None;
    }

    /** Like `MarkFree` on the frame of an address; nothing checks that the frame was in use. */
    method FreePage(physAddr: nat)
      requires Valid() && physAddr / PAGE_SIZE < MAX_PAGES
      modifies bitmap, `freePages, `free
      ensures Valid()
      ensures Free() == old(Free()) + {physAddr / PAGE_SIZE}
      ensures freePages == old(freePages) + 1
      ensures Drift() == old(Drift()) + (if physAddr / PAGE_SIZE in old(Free()) then 1 else 0)
    {
      var page := physAddr / PAGE_SIZE;
      ClearBit(page);
      OneMore(free, page);
      freePages := freePages + 1;
      free := free + {page};
    }

    /** Freeing a used frame twice leaves one frame counted that is not there. */
    method FreedTwice(physAddr: nat)
      requires Valid() && physAddr / PAGE_SIZE < MAX_PAGES && physAddr / PAGE_SIZE !in Free()
      modifies bitmap, `freePages, `free
      ensures Valid() && Free() == old(Free()) + {physAddr / PAGE_SIZE} && Drift() == old(Drift()) + 1
    {
      FreePage(physAddr);
      FreePage(physAddr);
    }

    /** Withdraws a frame; out-of-range addresses and frames already in use change nothing. */
    method MarkUsed(physAddr: nat)
      requires Valid()
      modifies bitmap, `freePages, `free
      ensures Valid() && Drift() == old(Drift())
      ensures Free() == old(Free()) - {physAddr / PAGE_SIZE}
    {
      var page := physAddr / PAGE_SIZE;
      ghost var before := bitmap[..];
      AgreesOn(before, free, MAX_PAGES);
      if page < MAX_PAGES {
        var idx, bit := page / 64, page % 64;
        TestBit(bitmap[idx], bit);
        if And(bitmap[idx], Mask(bit)) == 0 {
          assert IsFree(before, page);
          SettingUses(before, free, MAX_PAGES, page);
          bitmap[idx] := Or(bitmap[idx], Mask(bit));
          assert bitmap[..] == before[idx := Or(before[idx], Mask(bit))];
          if freePages > 0 { freePages := freePages - 1; }
          free := free - {page};
        } else {
          assert !IsFree(before, page);
        }
      }
    }

    /** The inner loop of `Init`: releases the frames of one region, after those in `done`. */
    method ReleaseRegion(region: MemoryRegion, ghost done: seq<nat>) returns (count: nat)
      requires Valid() && Free() == ToSet(done) && freePages == |done|
      modifies bitmap, `freePages, `free
      ensures Valid() && Free() == ToSet(done + RegionPages(region))
      ensures freePages == |done + RegionPages(region)| && count == |RegionPages(region)|
    {
      count := 0;
      ghost var pages := RegionPages(region);
      RegionsPagesInRange([region]);
      assert RegionsPages([region]) == RegionsPages([]) + pages;
      var end := region.base + region.length;
      if !region.usable || (end > MAX_PHYS && region.base >= MAX_PHYS) {
        assert done + pages == done;
        return;
      }
      var startPage := region.base / PAGE_SIZE;
      var pageCount := (Min(end, MAX_PHYS) - region.base) / PAGE_SIZE;
      assert done + pages[..0] == done;
      for p := startPage to startPage + pageCount
        invariant Valid() && Free() == ToSet(done + pages[..p - startPage])
        invariant freePages == |done| + count && count == p - startPage
      {
        assert pages[p - startPage] == p && p in pages;
        OneMorePage(done, pages, p - startPage);
        if p < MAX_PAGES {
          MarkFree(p);
          count := count + 1;
        }
      }
      assert pages[..pageCount] == pages;
    }

    /**
     * Releases every usable frame of the memory map. The counter comes out exact if and only if
     * no frame is covered twice by the map.
     */
    method Init(regions: seq<MemoryRegion>)
      requires Valid() && Free() == {} && freePages == 0
      modifies bitmap, `freePages, `free, `totalPages
      ensures Valid()
      ensures Free() == ToSet(RegionsPages(regions))
      ensures freePages == totalPages == |RegionsPages(regions)|
      ensures Drift() == 0 <==> Distinct(RegionsPages(regions))
    {
      var total := 0;
      for n := 0 to |regions|
        invariant Valid() && Free() == ToSet(RegionsPages(regions[..n]))
        invariant freePages == total == |RegionsPages(regions[..n])|
      {
        assert regions[..n + 1][..n] == regions[..n];
        var count := ReleaseRegion(regions[n], RegionsPages(regions[..n]));
        total := total + count;
      }
      assert regions[..|regions|] == regions;
      totalPages := total;
      DistinctIffCardinality(RegionsPages(regions));
    }
  }

  // Runs of the allocator, as the contracts above describe its steps.

  datatype Event = Alloc(page: nat) | Release(page: nat)

  ghost predicate Step(free: set<nat>, e: Event, free': set<nat>) {
    match e
    case Alloc(p) => IsLowest(p, free) && free' == free - {p}
    case Release(p) => p !in free && free' == free + {p}
  }

  ghost predicate IsRun(states: seq<set<nat>>, events: seq<Event>) {
    && |states| == |events| + 1
    && forall i :: 0 <= i < |events| ==> Step(states[i], events[i], states[i + 1])
  }

  /** A frame handed out stays out of the free set until it is released. */
  lemma {:induction false} StaysAllocated(states: seq<set<nat>>, events: seq<Event>, p: nat, i: nat, j: nat)
    requires IsRun(states, events)
    requires i <= j < |states| && p !in states[i]
    requires forall k :: i <= k < j ==> events[k] != Release(p)
    ensures p !in states[j]
    decreases j - i
  {
    if i < j {
      assert Step(states[i], events[i], states[i + 1]);
      StaysAllocated(states, events, p, i + 1, j);
    }
  }

  /** No frame is handed out twice without being released in between. */
  lemma {:induction false} NoDoubleHandout(states: seq<set<nat>>, events: seq<Event>, p: nat, i: nat, j: nat)
    requires IsRun(states, events)
    requires i < j < |events| && events[i] == Alloc(p) && events[j] == Alloc(p)
    ensures exists k :: i < k < j && events[k] == Release(p)
  {
    if forall k :: i < k < j ==> events[k] != Release(p) {
      assert Step(states[i], events[i], states[i + 1]);
      StaysAllocated(states, events, p, i + 1, j);
      assert Step(states[j], events[j], states[j + 1]);
    }
  }
}
