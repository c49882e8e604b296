/** The physical page allocator: a bitmap of 1024 words, one bit for each 4 KB page. */
module Pmm {
  import opened Words
  import opened Bits

  const BITMAP_SIZE := 32768
  const BITMAP_WORDS := 1024
  const ONE_MEGABYTE := 0x10_0000

  // ---------- the bitmap as a set of free pages ----------

  ghost predicate LockedIn(words: seq<Word>, page: nat)
    requires |words| == BITMAP_WORDS && page < BITMAP_SIZE
  {
    Bit(words[page / 32], page % 32)
  }

  ghost function FreeIn(words: seq<Word>): (free: set<nat>)
    requires |words| == BITMAP_WORDS
    ensures forall p | p in free :: p < BITMAP_SIZE
  {
    set p: nat | 0 <= p < BITMAP_SIZE && !LockedIn(words, p)
  }

  ghost predicate InRun(p: nat, start: nat, count: nat)
  {
    start <= p < start + count
  }

  ghost function Pages(start: nat, count: nat): set<nat>
  {
    set p: nat | start <= p < start + count && InRun(p, start, count)
  }

  /** The `count` pages from `start` are all free. */
  ghost predicate FreeRun(free: set<nat>, start: nat, count: nat)
  {
    forall p: nat | start <= p < start + count :: p in free
  }

  ghost predicate Fits(free: set<nat>, count: nat)
  {
    exists start: nat :: FreeRun(free, start, count)
  }

  /** `start` is the lowest page from which `count` pages are free. */
  ghost predicate IsFirstFit(free: set<nat>, count: nat, start: nat)
  {
    && FreeRun(free, start, count)
    && forall s: nat | s < start :: !FreeRun(free, s, count)
  }

  lemma FirstFitIsUnique(free: set<nat>, count: nat, s: nat, t: nat)
    requires IsFirstFit(free, count, s) && IsFirstFit(free, count, t)
    ensures s == t
  {}

  lemma WordUpdate(words: seq<Word>, page: nat, w: Word)
    requires |words| == BITMAP_WORDS && page < BITMAP_SIZE
    requires forall k | 0 <= k < 32 && k != page % 32 :: Bit(w, k) <==> Bit(words[page / 32], k)
    ensures FreeIn(words[page / 32 := w]) ==
            if Bit(w, page % 32) then FreeIn(words) - {page} else FreeIn(words) + {page}
  {
    var after := words[page / 32 := w];
    forall p: nat | p < BITMAP_SIZE && p != page
      ensures LockedIn(after, p) <==> LockedIn(words, p)
    {
      if p / 32 == page / 32 {
        assert p % 32 != page % 32;
      }
    }
  }

  // ---------- what freeing, boot and the memory map do to the set ----------

  /** The pages that `pmm_free_pages` unlocks; the addresses wrap at 2^32. */
  ghost function FreedPages(addr: Word, count: nat): set<nat>
  {
    set p: nat | p < BITMAP_SIZE && IsFreed(p, addr, count)
  }

  ghost predicate IsFreed(p: nat, addr: Word, count: nat)
  {
    exists i: nat :: i < count && p == FreedPage(addr, i)
  }

  function FreedPage(addr: Word, i: nat): nat
  {
    Wrap(addr + i * PAGE_SIZE) / PAGE_SIZE
  }

  /** Freeing what an allocation returned frees that run. */
  lemma FreedPagesOfARun(start: nat, count: nat)
    requires start + count <= BITMAP_SIZE
    ensures FreedPages(start * PAGE_SIZE, count) == Pages(start, count)
  {
    forall i: nat | i < count
      ensures FreedPage(start * PAGE_SIZE, i) == start + i
    {
      assert start * PAGE_SIZE + i * PAGE_SIZE == (start + i) * PAGE_SIZE;
    }
    forall p: nat | p in Pages(start, count)
      ensures p in FreedPages(start * PAGE_SIZE, count)
    {
      assert p == FreedPage(start * PAGE_SIZE, p - start);
    }
  }

  /** The line below which boot leaves everything locked. */
  function SafeStart(kernelEnd: Word): Word
  {
    if kernelEnd > ONE_MEGABYTE then Wrap(kernelEnd + PAGE_SIZE - 1) / PAGE_SIZE * PAGE_SIZE else ONE_MEGABYTE
  }

  ghost function BootFree(memSize: Word, kernelEnd: Word): set<nat>
  {
    PagesBetween(SafeStart(kernelEnd), memSize)
  }

  /** The pages that the bitmap manages whose first byte lies in [low, high). */
  ghost function PagesBetween(low: nat, high: nat): set<nat>
  {
    set p: nat | p < BITMAP_SIZE && low <= p * PAGE_SIZE < high
  }

  lemma NothingBetween(low: nat)
    ensures PagesBetween(low, low) == {}
  {}

  lemma OnePageMore(low: nat, addr: nat)
    requires low <= addr && addr % PAGE_SIZE == 0
    ensures PagesBetween(low, addr + PAGE_SIZE) ==
            PagesBetween(low, addr) + (if addr / PAGE_SIZE < BITMAP_SIZE then {addr / PAGE_SIZE} else {})
  {}

  lemma SameWholePages(low: nat, addr: nat, high: nat)
    requires addr % PAGE_SIZE == 0 && high <= addr && (addr == low || addr < high + PAGE_SIZE)
    ensures PagesBetween(low, addr) == PagesBetween(low, high)
  {}

  /** The bitmap after `pmm_init` in terms of the two sizes alone. */
  lemma BootBitmapIsExact(memSize: Word, kernelEnd: Word, p: nat)
    requires kernelEnd <= WORD_LIMIT - PAGE_SIZE
    ensures p in BootFree(memSize, kernelEnd) <==>
            PagesFor(Max(kernelEnd, ONE_MEGABYTE)) <= p < Min(PagesFor(memSize), BITMAP_SIZE)
  {
    assert Wrap(kernelEnd + PAGE_SIZE - 1) == kernelEnd + PAGE_SIZE - 1;
  }

  /** Rounding the kernel end up can wrap to 0; this is exactly when boot hands out page 0. */
  lemma PageZeroIsLockedUnlessRoundingWraps(memSize: Word, kernelEnd: Word)
    ensures 0 in BootFree(memSize, kernelEnd) <==> memSize > 0 && kernelEnd > WORD_LIMIT - PAGE_SIZE
  {
    if kernelEnd > WORD_LIMIT - PAGE_SIZE {
      assert Wrap(kernelEnd + PAGE_SIZE - 1) == kernelEnd + PAGE_SIZE - 1 - WORD_LIMIT;
    } else {
      assert Wrap(kernelEnd + PAGE_SIZE - 1) == kernelEnd + PAGE_SIZE - 1;
    }
  }

  /** The address in a loop over pages after n iterations. */
  function LoopAddress(start: Word, n: nat): Word
  {
    Wrap(start + n * PAGE_SIZE)
  }

  lemma WrapOfPages(n: nat, b: nat)
    requires b < PAGE_SIZE
    ensures Wrap(n * PAGE_SIZE + b) == n % 0x10_0000 * PAGE_SIZE + b
  {
    var q, r := n / 0x10_0000, n % 0x10_0000;
    assert n * PAGE_SIZE + b == q * WORD_LIMIT + (r * PAGE_SIZE + b);
  }

  lemma LoopAddresses(base: Word, n: nat)
    ensures LoopAddress(base, n) <= WORD_LIMIT - PAGE_SIZE + base % PAGE_SIZE
    ensures base + n * PAGE_SIZE < WORD_LIMIT ==> LoopAddress(base, n) == base + n * PAGE_SIZE
  {
    hide Wrap;
    var k, b := base / PAGE_SIZE + n, base % PAGE_SIZE;
    assert base + n * PAGE_SIZE == k * PAGE_SIZE + b;
    WrapOfPages(k, b);
    var q := k / 0x10_0000;
    assert k * PAGE_SIZE + b < WORD_LIMIT ==> q == 0;
  }

  /** `pmm_init`'s last loop ends exactly when the memory size is at most 2^32 - 4096. */
  lemma InitLoopEnds(start: Word, memSize: Word)
    requires start % PAGE_SIZE == 0
    ensures (exists n: nat :: LoopAddress(start, n) >= memSize) <==> memSize <= WORD_LIMIT - PAGE_SIZE
  {
    hide LoopAddress;
    LoopAddresses(start, (WORD_LIMIT - PAGE_SIZE - start) / PAGE_SIZE);
    forall n: nat
      ensures LoopAddress(start, n) <= WORD_LIMIT - PAGE_SIZE
    {
      LoopAddresses(start, n);
    }
  }

  /** One Multiboot memory-map entry, as far as the kernel looks at it. */
  datatype MmapEntry = MmapEntry(size: Word, baseLow: Word, lengthLow: Word, kind: Word)
  {
    function RangeEnd(): Word
    {
      Wrap(baseLow + lengthLow)
    }

    /** The pages that the pass locks for this entry. */
    ghost function Locked(): set<nat>
    {
      if kind == 1 || RangeEnd() <= baseLow then {}
      else Pages(baseLow / PAGE_SIZE, PagesFor(RangeEnd() - baseLow))
    }

    /** The page loop reaches the end of the range before its address wraps. */
    predicate LoopEnds()
    {
      kind == 1 || RangeEnd() <= baseLow || baseLow + PagesFor(RangeEnd() - baseLow) * PAGE_SIZE < WORD_LIMIT
    }
  }

  function EntryAt(load: Word -> Word, addr: Word): MmapEntry
  {
    MmapEntry(load(addr), load(Wrap(addr + 4)), load(Wrap(addr + 12)), load(Wrap(addr + 20)))
  }

  function NextEntry(addr: Word, e: MmapEntry): Word
  {
    Wrap(addr + e.size + 4)
  }

  /** The page loop for an entry that is not usable ends exactly if it ends before its address wraps. */
  lemma MmapLoopEnds(e: MmapEntry)
    requires e.kind != 1
    ensures (exists n: nat :: LoopAddress(e.baseLow, n) >= e.RangeEnd()) <==> e.LoopEnds()
  {
    hide PagesFor, LoopAddress;
    if e.RangeEnd() <= e.baseLow {
      LoopAddresses(e.baseLow, 0);
    } else {
      var pages := PagesFor(e.RangeEnd() - e.baseLow);
      PagesForRange(e.RangeEnd() - e.baseLow);
      LoopAddresses(e.baseLow, pages);
      if !e.LoopEnds() {
        BeyondTheLastPage(e.baseLow, pages);
        forall n: nat
          ensures LoopAddress(e.baseLow, n) < e.RangeEnd()
        {
          LoopAddresses(e.baseLow, n);
        }
      }
    }
  }

  lemma PagesForRange(n: nat)
    ensures n <= PagesFor(n) * PAGE_SIZE < n + PAGE_SIZE
  {}

  lemma BeyondTheLastPage(base: Word, pages: nat)
    requires base + pages * PAGE_SIZE >= WORD_LIMIT
    ensures base + pages * PAGE_SIZE >= WORD_LIMIT + base % PAGE_SIZE
  {}

  /** The walk from entry to entry reaches `end` within n entries, and every page loop on the way ends. */
  predicate EndsWithin(load: Word -> Word, addr: Word, end: Word, n: nat)
    decreases n
  {
    addr >= end ||
    var e := EntryAt(load, addr);
    n > 0 && e.LoopEnds() && EndsWithin(load, NextEntry(addr, e), end, n - 1)
  }

  /** The walk ends; where an entry's size wraps its address, it goes on in low memory. */
  ghost predicate WalkEnds(load: Word -> Word, addr: Word, end: Word)
  {
    exists n: nat :: EndsWithin(load, addr, end, n)
  }

  /** No entry's step wraps, and every page loop ends. */
  predicate StepsFit(load: Word -> Word, addr: Word, end: Word)
    decreases WORD_LIMIT - addr
  {
    addr >= end ||
    var e := EntryAt(load, addr);
    e.LoopEnds() && addr + e.size + 4 < WORD_LIMIT && StepsFit(load, NextEntry(addr, e), end)
  }

  /** Such a walk ends. */
  lemma {:induction false} FittingStepsEnd(load: Word -> Word, addr: Word, end: Word) returns (n: nat)
    requires StepsFit(load, addr, end)
    ensures EndsWithin(load, addr, end, n) && 4 * n <= Max(end, addr) - addr + 3
    decreases WORD_LIMIT - addr
  {
    hide EntryAt;
    n := 0;
    if addr < end {
      var e := EntryAt(load, addr);
      assert NextEntry(addr, e) == addr + e.size + 4;
      n := FittingStepsEnd(load, NextEntry(addr, e), end);
      hide MmapEntry.LoopEnds, NextEntry, StepsFit;
      n := n + 1;
    }
  }

  function EntriesWithin(load: Word -> Word, addr: Word, end: Word, n: nat): seq<MmapEntry>
    requires EndsWithin(load, addr, end, n)
    decreases n
  {
    if addr >= end then [] else
    var e := EntryAt(load, addr);
    [e] + EntriesWithin(load, NextEntry(addr, e), end, n - 1)
  }

  /** The entries that the walk visits, in order. */
  ghost function Entries(load: Word -> Word, addr: Word, end: Word): seq<MmapEntry>
    requires WalkEnds(load, addr, end)
  {
    var n: nat :| EndsWithin(load, addr, end, n);
    EntriesWithin(load, addr, end, n)
  }

  lemma {:induction false} EntriesOnce(load: Word -> Word, addr: Word, end: Word, m: nat, n: nat)
    requires EndsWithin(load, addr, end, m) && EndsWithin(load, addr, end, n)
    ensures EntriesWithin(load, addr, end, m) == EntriesWithin(load, addr, end, n)
    decreases m
  {
    if addr < end {
      EntriesOnce(load, NextEntry(addr, EntryAt(load, addr)), end, m - 1, n - 1);
    }
  }

  ghost function AfterMmap(free: set<nat>, entries: seq<MmapEntry>): set<nat>
  {
    if entries == [] then free else AfterMmap(free - entries[0].Locked(), entries[1..])
  }

  lemma WalkStep(load: Word -> Word, addr: Word, end: Word, n: nat)
    requires addr < end && EndsWithin(load, addr, end, n)
    ensures n > 0
    ensures var e := EntryAt(load, addr);
            && e.LoopEnds()
            && EndsWithin(load, NextEntry(addr, e), end, n - 1)
            && EntriesWithin(load, addr, end, n) == [e] + EntriesWithin(load, NextEntry(addr, e), end, n - 1)
  {}

  lemma MmapStep(free: set<nat>, e: MmapEntry, rest: seq<MmapEntry>)
    ensures AfterMmap(free, [e] + rest) == AfterMmap(free - e.Locked(), rest)
  {
    assert ([e] + rest)[1..] == rest;
  }

  lemma NoEntries(free: set<nat>)
    ensures AfterMmap(free, []) == free
  {}

  /** The pass locks exactly the pages of its entries' ranges. */
  lemma {:induction false} MmapPassIsExact(free: set<nat>, entries: seq<MmapEntry>, p: nat)
    ensures p in AfterMmap(free, entries) <==> p in free && forall e | e in entries :: p !in e.Locked()
  {
    if entries != [] {
      MmapPassIsExact(free - entries[0].Locked(), entries[1..], p);
      assert entries == [entries[0]] + entries[1..];
    }
  }

  /** The order of the entries does not matter. */
  lemma MmapPassIgnoresOrder(free: set<nat>, es: seq<MmapEntry>, fs: seq<MmapEntry>)
    requires multiset(es) == multiset(fs)
    ensures AfterMmap(free, es) == AfterMmap(free, fs)
  {
    forall p: nat
      ensures p in AfterMmap(free, es) <==> p in AfterMmap(free, fs)
    {
      MmapPassIsExact(free, es, p);
      MmapPassIsExact(free, fs, p);
      assert forall e :: e in es <==> e in multiset(es);
      assert forall e :: e in fs <==> e in multiset(fs);
    }
  }

  /** Exactly when the locked pages cover every byte of a reserved range that does not wrap. */
  lemma ReservedRangeIsCovered(e: MmapEntry)
    requires e.kind != 1 && e.lengthLow > 0 && e.baseLow + e.lengthLow < WORD_LIMIT
    ensures (forall a: nat | e.baseLow <= a < e.baseLow + e.lengthLow :: a / PAGE_SIZE in e.Locked())
            <==> e.baseLow % PAGE_SIZE + (e.lengthLow - 1) % PAGE_SIZE < PAGE_SIZE
  {
    var last := e.baseLow + e.lengthLow - 1;
    assert last / PAGE_SIZE in e.Locked() <==> last / PAGE_SIZE < e.baseLow / PAGE_SIZE + PagesFor(e.lengthLow);
    var r, s := e.baseLow % PAGE_SIZE, (e.lengthLow - 1) % PAGE_SIZE;
    assert PagesFor(e.lengthLow) == (e.lengthLow - 1) / PAGE_SIZE + 1;
    if r + s < PAGE_SIZE {
      assert last / PAGE_SIZE == e.baseLow / PAGE_SIZE + (e.lengthLow - 1) / PAGE_SIZE;
    } else {
      assert last / PAGE_SIZE == e.baseLow / PAGE_SIZE + (e.lengthLow - 1) / PAGE_SIZE + 1;
    }
  }

  // ---------- a memory map as the boot loader writes it ----------

  /** The six words of an entry; `size` counts the bytes after itself. */
  datatype Region = Region(size: Word, baseLow: Word, baseHigh: Word, lengthLow: Word, lengthHigh: Word, kind: Word)
  {
    /** Page p is one of those that the range takes up, counted from the page of its base. */
    predicate Reserves(p: nat)
    {
      kind != 1 && 0 <= p - baseLow / 4096 < (lengthLow + 4095) / 4096
    }

    /** The range and the page after it end below 4 GB. */
    predicate EndsEarly()
    {
      baseLow + lengthLow <= 0xFFFF_F000
    }
  }

  /** The entries lie one after the other from `addr`, up to `end`. */
  predicate HoldsMap(load: Word -> Word, addr: nat, end: Word, regions: seq<Region>)
    decreases |regions|
  {
    if regions == [] then addr == end
    else
      var r := regions[0];
      && r.size >= 20 && addr + 4 + r.size <= end
      && load(addr) == r.size && load(addr + 4) == r.baseLow && load(addr + 8) == r.baseHigh
      && load(addr + 12) == r.lengthLow && load(addr + 16) == r.lengthHigh && load(addr + 20) == r.kind
      && HoldsMap(load, addr + 4 + r.size, end, regions[1..])
  }

  /** The pass meets exactly the regions that were written. */
  lemma {:induction false} WrittenMapEntries(load: Word -> Word, addr: Word, end: Word, regions: seq<Region>)
    requires HoldsMap(load, addr, end, regions) && forall r | r in regions :: r.EndsEarly()
    ensures EndsWithin(load, addr, end, |regions|)
    ensures var es := EntriesWithin(load, addr, end, |regions|);
            && |es| == |regions|
            && forall i, p: nat | 0 <= i < |es| :: p in es[i].Locked() <==> regions[i].Reserves(p)
    decreases |regions|
  {
    if regions != [] {
      var r := regions[0];
      assert r in regions;
      var e := EntryAt(load, addr);
      RegionIsRead(load, addr, r);
      WrittenMapEntries(load, NextEntry(addr, e), end, regions[1..]);
    }
  }

  lemma RegionIsRead(load: Word -> Word, addr: nat, r: Region)
    requires addr + 20 < WORD_LIMIT && r.EndsEarly()
    requires load(addr) == r.size && load(addr + 4) == r.baseLow && load(addr + 12) == r.lengthLow
    requires load(addr + 20) == r.kind
    ensures var e := EntryAt(load, addr);
            && e.LoopEnds() && e.size == r.size
            && forall p: nat :: p in e.Locked() <==> r.Reserves(p)
  {
    hide PagesFor;
    var e := EntryAt(load, addr);
    PagesForRange(r.lengthLow);
    assert PagesFor(r.lengthLow) == (r.lengthLow + 4095) / 4096 by {
      PagesForMeans(r.lengthLow);
    }
    assert e.RangeEnd() == r.baseLow + r.lengthLow;
    assert forall p: nat :: p in Pages(r.baseLow / PAGE_SIZE, PagesFor(r.lengthLow)) <==>
                            InRun(p, r.baseLow / PAGE_SIZE, PagesFor(r.lengthLow));
  }

  lemma PagesForMeans(n: nat)
    ensures PagesFor(n) == (n + 4095) / 4096
  {}

  /** After the pass over a written map, a page is free iff it was and no reserved region takes it up. */
  lemma WrittenMapLocks(free: set<nat>, load: Word -> Word, addr: Word, end: Word, regions: seq<Region>, p: nat)
    requires HoldsMap(load, addr, end, regions) && forall r | r in regions :: r.EndsEarly()
    ensures WalkEnds(load, addr, end)
    ensures p in AfterMmap(free, Entries(load, addr, end)) <==> p in free && forall r | r in regions :: !r.Reserves(p)
  {
    WrittenMapEntries(load, addr, end, regions);
    var n: nat := |regions|;
    assert EndsWithin(load, addr, end, n);
    EntriesAre(load, addr, end, n);
    var es := EntriesWithin(load, addr, end, n);
    MmapPassIsExact(free, es, p);
    if r :| r in regions && r.Reserves(p) {
      var i :| 0 <= i < |regions| && regions[i] == r;
      assert p in es[i].Locked() && es[i] in es;
    }
    if e :| e in es && p in e.Locked() {
      var i :| 0 <= i < |es| && es[i] == e;
      assert regions[i].Reserves(p) && regions[i] in regions;
    }
  }

  lemma EntriesAre(load: Word -> Word, addr: Word, end: Word, n: nat)
    requires EndsWithin(load, addr, end, n)
    ensures Entries(load, addr, end) == EntriesWithin(load, addr, end, n)
  {
    forall k: nat | EndsWithin(load, addr, end, k)
      ensures EntriesWithin(load, addr, end, k) == EntriesWithin(load, addr, end, n)
    {
      EntriesOnce(load, addr, end, k, n);
    }
  }

  class PageAllocator {
    const bitmap: array<Word>
    var totalPages: nat

    ghost predicate Valid()
      reads this
    {
      bitmap.Length == BITMAP_WORDS
    }

    ghost function Free(): (free: set<nat>)
      requires Valid()
      reads this, bitmap
      ensures forall p | p in free :: p < BITMAP_SIZE
    {
      FreeIn(bitmap[..])
    }

    /** Static storage: every word starts as zero. */
    constructor ()
      ensures Valid() && fresh(bitmap) && totalPages == 0
      ensures forall i | 0 <= i < BITMAP_WORDS :: bitmap[i] == 0
    {
      bitmap := new Word[BITMAP_WORDS](_ => 0);
      totalPages := 0;
    }

    method LockPage(addr: Word)
      requires Valid()
      modifies bitmap
      ensures Free() == old(Free()) - {addr / PAGE_SIZE}
    {
      var page := addr / PAGE_SIZE;
      if page < BITMAP_SIZE {
        WordUpdates(bitmap[page / 32], page % 32);
        var w: Word := SetBit(bitmap[page / 32], page % 32);
        WordUpdate(bitmap[..], page, w);
        ghost var before := bitmap[..];
        bitmap[page / 32] := w;
        assert bitmap[..] == before[page / 32 := w];
      }
    }

    method UnlockPage(addr: Word)
      requires Valid()
      modifies bitmap
      ensures Free() == old(Free()) + (if addr / PAGE_SIZE < BITMAP_SIZE then {addr / PAGE_SIZE} else {})
    {
      var page := addr / PAGE_SIZE;
      if page < BITMAP_SIZE {
        WordUpdates(bitmap[page / 32], page % 32);
        var w: Word := ClearBit(bitmap[page / 32], page % 32);
        WordUpdate(bitmap[..], page, w);
        ghost var before := bitmap[..];
        bitmap[page / 32] := w;
        assert bitmap[..] == before[page / 32 := w];
      }
    }

    method AllocPages(count: Word) returns (addr: Word)
      requires Valid()
      modifies bitmap
      ensures count == 0 || !Fits(old(Free()), count) ==> addr == 0 && bitmap[..] == old(bitmap[..])
      ensures count > 0 && Fits(old(Free()), count) ==>
                && addr % PAGE_SIZE == 0
                && IsFirstFit(old(Free()), count, addr / PAGE_SIZE)
                && Free() == old(Free()) - Pages(addr / PAGE_SIZE, count)
      ensures 0 !in old(Free()) && count > 0 ==> (addr == 0 <==> !Fits(old(Free()), count))
    {
      if count == 0 {
        return 0;
      }
      ghost var free := Free();
      for i := 0 to BITMAP_WORDS
        invariant bitmap[..] == old(bitmap[..])
        invariant forall s: nat | s < i * 32 :: !FreeRun(free, s, count)
      {
        if bitmap[i] == ALL_ONES {
          FullWordHoldsNoStart(bitmap[..], i, count);
          continue;
        }
        for j := 0 to 32
          invariant bitmap[..] == old(bitmap[..])
          invariant forall s: nat | s < i * 32 + j :: !FreeRun(free, s, count)
        {
          var startPage := i * 32 + j;
          var found := CountFree(startPage, count);
          if found == count {
            LockRun(startPage, count);
            return startPage * PAGE_SIZE;
          }
          assert startPage + found !in free;
        }
      }
      forall s: nat
        ensures !FreeRun(free, s, count)
      {
        if s >= BITMAP_SIZE {
          assert s !in free;
        }
      }
      return 0;
    }

    method FreePages(addr: Word, count: Word)
      requires Valid()
      modifies bitmap
      ensures Free() == old(Free()) + FreedPages(addr, count)
    {
      for i := 0 to count
        invariant Free() == old(Free()) + FreedPages(addr, i)
      {
        UnlockPage(Wrap(addr + i * PAGE_SIZE));
        assert FreedPages(addr, i + 1) ==
               FreedPages(addr, i) + (if FreedPage(addr, i) < BITMAP_SIZE then {FreedPage(addr, i)} else {});
      }
    }

    /** The bound on the memory size is what the last loop needs to end: see InitLoopEnds. */
    method Init(memSize: Word, kernelEnd: Word)
      requires Valid() && memSize <= WORD_LIMIT - PAGE_SIZE
      modifies `totalPages, bitmap
      ensures Valid()
      ensures totalPages == Min(memSize / PAGE_SIZE, BITMAP_SIZE)
      ensures Free() == BootFree(memSize, kernelEnd)
    {
      totalPages := memSize / PAGE_SIZE;
      if totalPages > BITMAP_SIZE {
        totalPages := BITMAP_SIZE;
      }
      LockAll();
      var safeStart := ONE_MEGABYTE;
      if kernelEnd > safeStart {
        safeStart := Wrap(kernelEnd + PAGE_SIZE - 1) / PAGE_SIZE * PAGE_SIZE;
      }
      OpenRam(safeStart, memSize);
    }

    /** Phase 1: every word becomes all ones. */
    method LockAll()
      requires Valid()
      modifies bitmap
      ensures Free() == {}
    {
      for i := 0 to BITMAP_WORDS
        invariant forall k | 0 <= k < i :: bitmap[k] == ALL_ONES
      {
        bitmap[i] := ALL_ONES;
      }
      AllLocked(bitmap[..]);
    }

    /** Phase 2: unlock page by page from `safeStart` up to the end of memory. */
    method OpenRam(safeStart: Word, memSize: Word)
      requires Valid() && Free() == {}
      requires safeStart % PAGE_SIZE == 0 && memSize <= WORD_LIMIT - PAGE_SIZE
      modifies bitmap
      ensures Free() == PagesBetween(safeStart, memSize)
    {
      hide PagesBetween, FreeIn;
      NothingBetween(safeStart);
      var addr: Word := safeStart;
      while addr < memSize
        invariant safeStart <= addr && addr % PAGE_SIZE == 0
        invariant addr == safeStart || addr < memSize + PAGE_SIZE
        invariant Free() == PagesBetween(safeStart, addr)
        decreases memSize - addr
      {
        if addr / PAGE_SIZE < BITMAP_SIZE {
          UnlockPage(addr);
        }
        OnePageMore(safeStart, addr);
        addr := Wrap(addr + PAGE_SIZE);
      }
      SameWholePages(safeStart, addr, memSize);
    }

    method ParseMmap(load: Word -> Word, mmapAddr: Word, mmapLength: Word)
      requires Valid() && WalkEnds(load, mmapAddr, Wrap(mmapAddr + mmapLength))
      modifies bitmap
      ensures Free() == AfterMmap(old(Free()), Entries(load, mmapAddr, Wrap(mmapAddr + mmapLength)))
    {
      var entry: Word := mmapAddr;
      var end := Wrap(mmapAddr + mmapLength);
      ghost var left: nat :| EndsWithin(load, mmapAddr, end, left);
      ghost var rest := EntriesWithin(load, mmapAddr, end, left);
      EntriesAre(load, mmapAddr, end, left);
      while entry < end
        invariant EndsWithin(load, entry, end, left) && rest == EntriesWithin(load, entry, end, left)
        invariant AfterMmap(Free(), rest) == AfterMmap(old(Free()), Entries(load, mmapAddr, end))
        decreases left
      {
        WalkStep(load, entry, end, left);
        var e := EntryAt(load, entry);
        var next := NextEntry(entry, e);
        ghost var free := Free();
        MmapStep(free, e, EntriesWithin(load, next, end, left - 1));
        if e.kind != 1 {
          LockRange(e);
        }
        assert Free() == free - e.Locked();
        entry, left := next, left - 1;
        rest := EntriesWithin(load, next, end, left);
      }
    }

    /** The same pass over a map that was written entry by entry. */
    method ParseWrittenMap(load: Word -> Word, mmapAddr: Word, mmapLength: Word, ghost regions: seq<Region>)
      requires Valid() && mmapAddr + mmapLength < WORD_LIMIT
      requires HoldsMap(load, mmapAddr, mmapAddr + mmapLength, regions)
      requires forall r | r in regions :: r.EndsEarly()
      modifies bitmap
      ensures forall p: nat :: p in Free() <==> p in old(Free()) && forall r | r in regions :: !r.Reserves(p)
    {
      hide AfterMmap, Entries, WalkEnds, HoldsMap;
      assert Wrap(mmapAddr + mmapLength) == mmapAddr + mmapLength;
      ghost var free := Free();
      WrittenMapLocks(free, load, mmapAddr, mmapAddr + mmapLength, regions, 0);
      ParseMmap(load, mmapAddr, mmapLength);
      forall p: nat
        ensures p in Free() <==> p in free && forall r | r in regions :: !r.Reserves(p)
      {
        WrittenMapLocks(free, load, mmapAddr, mmapAddr + mmapLength, regions, p);
      }
    }

    /** The page loop for one entry of the memory map. */
    method LockRange(e: MmapEntry)
      requires Valid() && e.kind != 1 && e.LoopEnds()
      modifies bitmap
      ensures Free() == old(Free()) - e.Locked()
    {
      var addr := e.baseLow;
      ghost var k := 0;
      while addr < e.RangeEnd()
        invariant addr == e.baseLow + k * PAGE_SIZE
        invariant e.RangeEnd() <= e.baseLow ==> k == 0
        invariant e.RangeEnd() > e.baseLow ==> k <= PagesFor(e.RangeEnd() - e.baseLow)
        invariant Free() == old(Free()) - Pages(e.baseLow / PAGE_SIZE, k)
        decreases e.RangeEnd() - addr
      {
        LockPage(addr);
        assert Pages(e.baseLow / PAGE_SIZE, k + 1) == Pages(e.baseLow / PAGE_SIZE, k) + {addr / PAGE_SIZE};
        addr := Wrap(addr + PAGE_SIZE);
        k := k + 1;
      }
    }

    /** The loop that takes a run once it is found. */
    method LockRun(startPage: nat, count: Word)
      requires Valid() && startPage + count <= BITMAP_SIZE
      modifies bitmap
      ensures Free() == old(Free()) - Pages(startPage, count)
    {
      var addr := startPage * PAGE_SIZE;
      for k := 0 to count
        invariant Free() == old(Free()) - Pages(startPage, k)
      {
        LockPage(Wrap(addr + k * PAGE_SIZE));
        assert Pages(startPage, k + 1) == Pages(startPage, k) + {startPage + k};
      }
    }

    /** The inner search loop: how many of the `count` pages from `startPage` are free in a row. */
    method CountFree(startPage: nat, count: Word) returns (found: nat)
      requires Valid() && startPage < BITMAP_SIZE
      ensures found <= count && startPage + found <= BITMAP_SIZE
      ensures FreeRun(Free(), startPage, found)
      ensures found < count ==> startPage + found !in Free()
    {
      found := 0;
      for k := 0 to count
        invariant found == k && startPage + k <= BITMAP_SIZE
        invariant FreeRun(Free(), startPage, k)
      {
        var curPage := startPage + k;
        if curPage >= BITMAP_SIZE {
          break;
        }
        if !Bit(bitmap[curPage / 32], curPage % 32) {
          assert !LockedIn(bitmap[..], curPage);
          found := found + 1;
        } else {
          assert LockedIn(bitmap[..], curPage);
          break;
        }
      }
    }
  }

  lemma AllLocked(words: seq<Word>)
    requires |words| == BITMAP_WORDS && forall i | 0 <= i < BITMAP_WORDS :: words[i] == ALL_ONES
    ensures FreeIn(words) == {}
  {
    forall p: nat | p < BITMAP_SIZE
      ensures LockedIn(words, p)
    {
      FullWord(p % 32);
    }
  }

  /** Skipping a word that is all ones skips no start of a free run. */
  lemma FullWordHoldsNoStart(words: seq<Word>, i: nat, count: nat)
    requires |words| == BITMAP_WORDS && i < BITMAP_WORDS && count > 0
    requires words[i] == ALL_ONES
    ensures forall s: nat | i * 32 <= s < i * 32 + 32 :: !FreeRun(FreeIn(words), s, count)
  {
    forall s: nat | i * 32 <= s < i * 32 + 32
      ensures !FreeRun(FreeIn(words), s, count)
    {
      FullWord(s % 32);
      assert s / 32 == i;
      assert s !in FreeIn(words);
    }
  }
}
