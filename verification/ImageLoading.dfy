/** Boot memory set-up and the loading of the shell: archive lookup, allocator, mapper and copy together. */
module ImageLoading {
  import opened Words
  import opened Wrappers
  import opened Bits
  import opened CStrings
  import opened Ustar
  import opened RamFs
  import opened Paging
  import Pmm

  const USER_BASE := 0x20_0000
  const USER_PAGE := 0x200          // USER_BASE / 4096
  const FALLBACK_MEMORY := 0x80_0000  // 8 MB
  const SHELL_FLAGS := PAGE_PRESENT + PAGE_WRITE + PAGE_USER

  // ---------- kernel_memmove ----------

  predicate InRanges(a: int, dest: Word, src: Word, n: nat)
  {
    dest <= a < dest + n || src <= a < src + n
  }

  /** No two addresses of the ranges stand for the same physical byte. */
  ghost predicate Separate(at: Word -> Word, dest: Word, src: Word, n: nat)
  {
    forall a: Word, b: Word | InRanges(a, dest, src, n) && InRanges(b, dest, src, n) && a != b :: at(a) != at(b)
  }

  /** Some address in [lo, hi) is the physical byte x. */
  ghost predicate Hit(at: Word -> Word, lo: nat, hi: nat, x: nat)
  {
    exists v: Word :: lo <= v < hi && at(v) == x
  }

  /** The byte at address v - dest + src. */
  function SourceOf(at: Word -> Word, dest: Word, src: Word, v: Word): Word
  {
    at(Wrap(v - dest + src))
  }

  /** The addresses in [lo, hi) hold the source bytes as they were before. */
  ghost predicate Arrived(at: Word -> Word, dest: Word, src: Word, lo: nat, hi: nat,
                          before: seq<char>, after: seq<char>)
    requires |before| == |after| == WORD_LIMIT
  {
    forall v: Word | InRange(v, lo, hi) :: after[at(v)] == before[SourceOf(at, dest, src, v)]
  }

  /** Nothing outside [lo, hi) changed. */
  ghost predicate Untouched(at: Word -> Word, lo: nat, hi: nat, before: seq<char>, after: seq<char>)
    requires |before| == |after| == WORD_LIMIT
  {
    forall x: Word | !Hit(at, lo, hi, x) :: after[x] == before[x]
  }

  /** Of a copy from src to dest exactly the destinations in [lo, hi) are done. */
  ghost predicate Moved(at: Word -> Word, dest: Word, src: Word, lo: nat, hi: nat, before: seq<char>, after: seq<char>)
    requires |before| == |after| == WORD_LIMIT
  {
    Arrived(at, dest, src, lo, hi, before, after) && Untouched(at, lo, hi, before, after)
  }

  /** One more byte at either end of the part that is done, from a source byte not yet overwritten. */
  lemma MoveByte(at: Word -> Word, dest: Word, src: Word, n: nat, lo: nat, hi: nat, v: Word, s: Word,
                 before: seq<char>, mid: seq<char>)
    requires Separate(at, dest, src, n)
    requires dest + n <= WORD_LIMIT && src + n <= WORD_LIMIT && dest <= lo <= hi <= dest + n
    requires |before| == |mid| == WORD_LIMIT && Moved(at, dest, src, lo, hi, before, mid)
    requires dest <= v < dest + n && s == v - dest + src && !(lo <= s < hi)
    ensures v == hi ==> Moved(at, dest, src, lo, hi + 1, before, mid[at(v) := mid[at(s)]])
    ensures v == lo - 1 ==> Moved(at, dest, src, v, hi, before, mid[at(v) := mid[at(s)]])
  {
    assert !Hit(at, lo, hi, at(s)) by {
      if w: Word :| lo <= w < hi && at(w) == at(s) {
        assert InRanges(w, dest, src, n) && InRanges(s, dest, src, n);
      }
    }
    assert mid[at(s)] == before[SourceOf(at, dest, src, v)];
    if v == hi {
      ArrivedOne(at, dest, src, n, lo, hi, lo, hi + 1, v, before, mid);
      UntouchedOne(at, lo, hi, lo, hi + 1, v, before, mid, mid[at(s)]);
    }
    if v == lo - 1 {
      ArrivedOne(at, dest, src, n, lo, hi, v, hi, v, before, mid);
      UntouchedOne(at, lo, hi, v, hi, v, before, mid, mid[at(s)]);
    }
  }

  /** [l, h) is [lo, hi) and v. */
  predicate Extends(lo: nat, hi: nat, l: nat, h: nat, v: nat)
  {
    lo <= hi && ((v == hi && l == lo && h == hi + 1) || (v + 1 == lo && l == v && h == hi))
  }

  lemma ArrivedOne(at: Word -> Word, dest: Word, src: Word, n: nat, lo: nat, hi: nat, l: nat, h: nat, v: Word,
                   before: seq<char>, mid: seq<char>)
    requires Separate(at, dest, src, n) && dest + n <= WORD_LIMIT
    requires dest <= l <= h <= dest + n && Extends(lo, hi, l, h, v)
    requires |before| == |mid| == WORD_LIMIT && Arrived(at, dest, src, lo, hi, before, mid)
    ensures Arrived(at, dest, src, l, h, before, mid[at(v) := before[SourceOf(at, dest, src, v)]])
  {
    hide SourceOf;
    var after := mid[at(v) := before[SourceOf(at, dest, src, v)]];
    forall w: Word | InRange(w, l, h)
      ensures after[at(w)] == before[SourceOf(at, dest, src, w)]
    {
      if w != v {
        assert InRange(w, lo, hi) && InRanges(w, dest, src, n) && InRanges(v, dest, src, n);
      }
    }
  }

  lemma UntouchedOne(at: Word -> Word, lo: nat, hi: nat, l: nat, h: nat, v: Word,
                     before: seq<char>, mid: seq<char>, c: char)
    requires Extends(lo, hi, l, h, v)
    requires |before| == |mid| == WORD_LIMIT && Untouched(at, lo, hi, before, mid)
    ensures Untouched(at, l, h, before, mid[at(v) := c])
  {
    forall x: Word | !Hit(at, l, h, x)
      ensures mid[at(v) := c][x] == before[x]
    {
      assert at(v) != x;
      assert !Hit(at, lo, hi, x);
    }
  }

  predicate InRange(w: nat, lo: nat, hi: nat)
  {
    lo <= w < hi
  }

  /**
   * The copy through whatever translation is in force. Overlapping ranges are safe: it runs up or down so
   * that it reads each byte before writing over it.
   */
  method KernelMemmove(phys: array<char>, at: Word -> Word, dest: Word, src: Word, n: Word)
    requires phys.Length == WORD_LIMIT && Separate(at, dest, src, n)
    requires dest + n <= WORD_LIMIT && src + n <= WORD_LIMIT
    modifies phys
    ensures Moved(at, dest, src, dest, dest + n, old(phys[..]), phys[..])
  {
    ghost var before := phys[..];
    if dest == src || n == 0 {
      NothingMoved(at, dest, src, n, before);
      return;
    }
    var d, s: nat := dest, src;
    var left: nat := n;
    if dest < src {
      while left > 0
        invariant left <= n && d == dest + n - left && s == src + n - left
        invariant Moved(at, dest, src, dest, d, before, phys[..])
      {
        MoveByte(at, dest, src, n, dest, d, d, s, before, phys[..]);
        ghost var mid := phys[..];
        phys[at(d)] := phys[at(s)];
        assert phys[..] == mid[at(d) := mid[at(s)]];
        left, d, s := left - 1, d + 1, s + 1;
      }
    } else {
      d, s := d + n, s + n;
      while left > 0
        invariant left <= n && d == dest + left && s == src + left
        invariant Moved(at, dest, src, d, dest + n, before, phys[..])
      {
        left, d, s := left - 1, d - 1, s - 1;
        MoveByte(at, dest, src, n, d + 1, dest + n, d, s, before, phys[..]);
        ghost var mid := phys[..];
        phys[at(d)] := phys[at(s)];
        assert phys[..] == mid[at(d) := mid[at(s)]];
      }
    }
  }

  lemma NothingMoved(at: Word -> Word, dest: Word, src: Word, n: nat, memory: seq<char>)
    requires |memory| == WORD_LIMIT && (dest == src || n == 0)
    ensures Moved(at, dest, src, dest, dest + n, memory, memory)
  {}

  // ---------- the frames and the window ----------

  /** The `map_page` calls that put these frames, in order, at USER_BASE. */
  function WindowCalls(frames: seq<nat>): (calls: seq<MapCall>)
    requires WindowFits(|frames|) && forall f | f in frames :: f < Pmm.BITMAP_SIZE
    ensures |calls| == |frames| && forall c | c in calls :: c.flags == SHELL_FLAGS
  {
    seq(|frames|, i requires 0 <= i < |frames| =>
      assert frames[i] in frames;
      MapCall(USER_BASE + i * PAGE_SIZE, frames[i] * PAGE_SIZE, SHELL_FLAGS))
  }

  predicate WindowFits(pages: nat)
  {
    USER_BASE + pages * PAGE_SIZE <= WORD_LIMIT
  }

  lemma WindowCallsAppend(frames: seq<nat>, f: nat)
    requires WindowFits(|frames| + 1) && f < Pmm.BITMAP_SIZE && forall g | g in frames :: g < Pmm.BITMAP_SIZE
    ensures WindowCalls(frames + [f]) ==
            WindowCalls(frames) + [MapCall(USER_BASE + |frames| * PAGE_SIZE, f * PAGE_SIZE, SHELL_FLAGS)]
  {}

  lemma {:induction false} LastCallInWindow(frames: seq<nat>, page: nat)
    requires WindowFits(|frames|) && forall f | f in frames :: f < Pmm.BITMAP_SIZE
    ensures LastCall(WindowCalls(frames), page) ==
            if USER_PAGE <= page < USER_PAGE + |frames| then Some(WindowCalls(frames)[page - USER_PAGE]) else None
  {
    if frames != [] {
      var before, f := frames[..|frames| - 1], frames[|frames| - 1];
      assert frames == before + [f] && f in frames;
      assert forall g | g in before :: g in frames;
      WindowCallsAppend(before, f);
      LastCallInWindow(before, page);
      var calls := WindowCalls(frames);
      assert calls[..|calls| - 1] == WindowCalls(before);
    }
  }

  /** The image's frames: distinct pages that were free, and the lowest of them. */
  ghost predicate Taken(frames: seq<nat>, before: set<nat>, after: set<nat>)
  {
    && (forall i | 0 <= i < |frames| :: frames[i] in before)
    && (forall i, j | 0 <= i < j < |frames| :: frames[i] < frames[j])
    && (forall i, p | 0 <= i < |frames| && p in after :: frames[i] < p)
    && (forall p :: p in after <==> p in before && p !in frames)
  }

  lemma TakeOne(frames: seq<nat>, before: set<nat>, mid: set<nat>, f: nat)
    requires Taken(frames, before, mid) && f in mid && forall p | p in mid :: f <= p
    ensures Taken(frames + [f], before, mid - {f})
  {}

  lemma {:induction false} TakenCount(frames: seq<nat>, before: set<nat>, after: set<nat>)
    requires Taken(frames, before, after)
    ensures |before| == |frames| + |after|
  {
    if frames == [] {
      assert before == after;
    } else {
      var n := |frames| - 1;
      var f := frames[n];
      assert forall i | 0 <= i < n :: frames[..n][i] < f;
      TakenCount(frames[..n], before, after + {f});
    }
  }

  lemma FirstFitOfOne(free: set<nat>, start: nat)
    requires Pmm.IsFirstFit(free, 1, start)
    ensures start in free && forall p | p in free :: start <= p
    ensures Pmm.Pages(start, 1) == {start}
  {
    assert Pmm.FreeRun(free, start, 1);
    forall p | p in free
      ensures start <= p
    {
      assert Pmm.FreeRun(free, p, 1);
    }
    assert forall p :: p in Pmm.Pages(start, 1) <==> p == start by {
      assert Pmm.InRun(start, start, 1);
    }
  }

  /** Where the linker puts the page directory and the tables: below `limit`. */
  predicate TablesBelow(mmu: Mmu, limit: nat)
  {
    mmu.base + LOW_TABLES * PAGE_SIZE <= limit && mmu.directoryBase + PAGE_SIZE <= limit
  }

  /** Whatever frames the window has, the addresses below it stand for themselves. */
  lemma LowMemoryStays(base: Word, frames: seq<nat>)
    requires base % PAGE_SIZE == 0 && base + LOW_TABLES * PAGE_SIZE <= WORD_LIMIT
    requires WindowFits(|frames|) && forall f | f in frames :: f < Pmm.BITMAP_SIZE
    ensures AfterCalls(base, WindowCalls(frames)).Unmoved(0, USER_BASE)
  {
    hide LastCall, AfterCalls, WindowCalls;
    var calls := WindowCalls(frames);
    forall v: Word | v < USER_BASE
      ensures PageUnmoved(calls, PageOf(v))
    {
      LastCallInWindow(frames, PageOf(v));
    }
    UnmovedExactly(base, calls, 0, USER_BASE);
  }

  /** A kernel that reached into the window would lose sight of itself, tables included, and only then. */
  lemma KernelStaysExactly(base: Word, frames: seq<nat>, kernelEnd: Word)
    requires base % PAGE_SIZE == 0 && base + LOW_TABLES * PAGE_SIZE <= WORD_LIMIT
    requires WindowFits(|frames|) && frames != [] && Clear(frames, kernelEnd)
    requires kernelEnd <= MAPPED_END
    ensures AfterCalls(base, WindowCalls(frames)).Unmoved(0, kernelEnd) <==> kernelEnd <= USER_BASE
  {
    hide LastCall, AfterCalls, Tables.UnmovedAt;
    var calls := WindowCalls(frames);
    if kernelEnd <= USER_BASE {
      LowMemoryStays(base, frames);
    } else {
      UnmovedExactly(base, calls, 0, kernelEnd);
      LastCallInWindow(frames, PageOf(USER_BASE));
      assert frames[0] in frames;
      FlagsOfEntry(frames[0] * PAGE_SIZE, SHELL_FLAGS);
      assert !PageUnmoved(calls, PageOf(USER_BASE));
    }
  }

  datatype Outcome = Launched | NoImage | OutOfMemory

  /**
   * The map loop. It runs out of memory exactly when there are fewer free pages than it needs;
   * otherwise the window's tables are those of the calls for its frames. With paging on, everything below
   * the window stays where it is throughout, so that each `map_page` reaches the tables.
   */
  method MapWindow(mmu: Mmu, pages: Pmm.PageAllocator, numPages: nat) returns (ok: bool, ghost frames: seq<nat>)
    requires mmu.Valid() && pages.Valid() && 0 !in pages.Free() && WindowFits(numPages)
    requires pages.bitmap != mmu.lowKernelTables && pages.bitmap != mmu.kernelPageDirectory
    requires mmu.pagingOn ==> mmu.State() == InitialTables(mmu.base) && TablesBelow(mmu, USER_BASE)
    modifies mmu.lowKernelTables, pages.bitmap
    ensures mmu.Valid() && Taken(frames, old(pages.Free()), pages.Free())
    ensures forall f | f in frames :: f < Pmm.BITMAP_SIZE
    ensures |frames| <= numPages
    ensures mmu.State() == MapAll(old(mmu.State()), WindowCalls(frames))
    ensures ok <==> numPages <= |old(pages.Free())|
    ensures ok ==> |frames| == numPages
    ensures mmu.pagingOn ==> mmu.State().Unmoved(0, USER_BASE)
  {
    hide Taken, WindowCalls, MapAll, Tables.Translate, Tables.UnmovedAt, Tables.Unmoved;
    hide Tables.Lands, Tables.StoreOf, Tables.Stored, Tables.StaysAt, Tables.Map, Entry;
    frames := [];
    NothingTaken(mmu.State(), pages.Free());
    if mmu.pagingOn {
      LowMemoryStays(mmu.base, frames);
    }
    for i := 0 to numPages
      invariant |frames| == i && mmu.Valid() && 0 !in pages.Free()
      invariant Taken(frames, old(pages.Free()), pages.Free())
      invariant forall f | f in frames :: f < Pmm.BITMAP_SIZE
      invariant mmu.State() == MapAll(old(mmu.State()), WindowCalls(frames))
      invariant mmu.pagingOn ==> mmu.State().Unmoved(0, USER_BASE)
    {
      var virtualPage := USER_BASE + i * PAGE_SIZE;
      ghost var free := pages.Free();
      TakenCount(frames, old(pages.Free()), free);
      var frame := pages.AllocPages(1);
      if frame == 0 {
        NoneFits(free);
        return false, frames;
      }
      FirstFitOfOne(free, frame / PAGE_SIZE);
      TakeOne(frames, old(pages.Free()), free, frame / PAGE_SIZE);
      UnmovedStoreLands(mmu.State(), mmu.pagingOn, mmu.directoryBase, USER_BASE, virtualPage);
      LandedStoreMaps(mmu.State(), mmu.pagingOn, mmu.directoryBase, MapCall(virtualPage, frame, SHELL_FLAGS));
      mmu.LandedStoreIsApart(mmu.State(), mmu.pagingOn, virtualPage);
      var _ := mmu.MapPage(virtualPage, frame, SHELL_FLAGS);
      MapOne(old(mmu.State()), frames, frame / PAGE_SIZE);
      frames := frames + [frame / PAGE_SIZE];
      if mmu.pagingOn {
        LowMemoryStays(mmu.base, frames);
      }
    }
    TakenCount(frames, old(pages.Free()), pages.Free());
    return true, frames;
  }

  lemma NothingTaken(t: Tables, free: set<nat>)
    requires t.Valid() && t.Linked()
    ensures Taken([], free, free) && MapAll(t, WindowCalls([])) == t
  {}

  lemma MapOne(t: Tables, frames: seq<nat>, f: nat)
    requires t.Valid() && t.Linked()
    requires WindowFits(|frames| + 1) && f < Pmm.BITMAP_SIZE && forall g | g in frames :: g < Pmm.BITMAP_SIZE
    ensures MapAll(t, WindowCalls(frames + [f])) ==
            MapAll(t, WindowCalls(frames)).Map(MapCall(USER_BASE + |frames| * PAGE_SIZE, f * PAGE_SIZE, SHELL_FLAGS))
  {
    WindowCallsAppend(frames, f);
    var calls := WindowCalls(frames + [f]);
    assert calls[..|frames|] == WindowCalls(frames);
  }

  lemma NoneFits(free: set<nat>)
    requires !Pmm.Fits(free, 1)
    ensures free == {}
  {
    forall p | p in free
      ensures false
    {
      assert Pmm.FreeRun(free, p, 1);
    }
  }

  // ---------- the loaded window ----------

  /** Frames that the reservation line keeps clear of kernel and archive. */
  ghost predicate Clear(frames: seq<nat>, reservedEnd: Word)
  {
    && (forall f | f in frames :: f < Pmm.BITMAP_SIZE && reservedEnd <= f * PAGE_SIZE)
    && (forall i, j | 0 <= i < j < |frames| :: frames[i] < frames[j])
  }

  /** After the window's calls: its pages are the frames, open to user mode; the rest below 12 MB is the identity. */
  lemma WindowTranslation(base: Word, frames: seq<nat>, v: Word)
    requires base % PAGE_SIZE == 0 && base + LOW_TABLES * PAGE_SIZE <= WORD_LIMIT
    requires forall f | f in frames :: f < Pmm.BITMAP_SIZE
    requires USER_BASE + |frames| * PAGE_SIZE <= MAPPED_END
    requires v < MAPPED_END
    ensures var t := AfterCalls(base, WindowCalls(frames)).Translate(v);
            var k := v / PAGE_SIZE - USER_PAGE;
            t == if 0 <= k < |frames| then Mapped(FrameByte(frames, v), true, true)
                 else Mapped(v, false, true)
  {
    hide AfterCalls, Tables.Translate, LastCall, Entry, Bit, FrameOf;
    var calls := WindowCalls(frames);
    TablesRefineAddressMap(base, calls, v);
    LastCallInWindow(frames, v / PAGE_SIZE);
    FlagBits();
    if 0 <= v / PAGE_SIZE - USER_PAGE < |frames| {
      var f := frames[v / PAGE_SIZE - USER_PAGE];
      assert f in frames;
      FrameAddress(f);
    }
  }

  lemma FrameAddress(f: nat)
    requires f < Pmm.BITMAP_SIZE
    ensures FrameOf(Entry(f * PAGE_SIZE, SHELL_FLAGS)) == f * PAGE_SIZE
  {
    hide Entry;
    FlagsOfEntry(f * PAGE_SIZE, SHELL_FLAGS);
    hide Bit;
  }

  lemma FlagBits()
    ensures Bit(SHELL_FLAGS, 0) && Bit(SHELL_FLAGS, 1) && Bit(SHELL_FLAGS, 2)
  {}

  /** Where the window's byte at v lies. */
  function FrameByte(frames: seq<nat>, v: Word): Word
    requires 0 <= v / PAGE_SIZE - USER_PAGE < |frames|
    requires forall f | f in frames :: f < Pmm.BITMAP_SIZE
  {
    assert frames[v / PAGE_SIZE - USER_PAGE] in frames;
    frames[v / PAGE_SIZE - USER_PAGE] * PAGE_SIZE + v % PAGE_SIZE
  }

  /** Two window addresses never share a byte, and no frame holds a byte of the archive. */
  lemma FrameBytesAreApart(frames: seq<nat>, ramfsEnd: Word, v: Word, w: Word)
    requires Clear(frames, ramfsEnd)
    requires 0 <= v / PAGE_SIZE - USER_PAGE < |frames|
    ensures ramfsEnd <= FrameByte(frames, v)
    ensures 0 <= w / PAGE_SIZE - USER_PAGE < |frames| && v != w ==> FrameByte(frames, v) != FrameByte(frames, w)
  {
    var i := v / PAGE_SIZE - USER_PAGE;
    assert frames[i] in frames;
    if 0 <= w / PAGE_SIZE - USER_PAGE < |frames| && v != w {
      var j := w / PAGE_SIZE - USER_PAGE;
      if i == j {
        assert v % PAGE_SIZE != w % PAGE_SIZE;
      } else {
        assert frames[i] != frames[j];
      }
    }
  }

  /** The image lies in the archive below 12 MB and outside the window that its pages will fill. */
  predicate ImageClear(data: Word, size: Word, ramfsEnd: Word)
  {
    var windowEnd := USER_BASE + PagesFor(size) * PAGE_SIZE;
    && data + size <= ramfsEnd && data + size <= MAPPED_END
    && windowEnd <= MAPPED_END
    && (data + size <= USER_BASE || windowEnd <= data)
  }

  lemma PagedCopyIsSeparate(at: Word -> Word, base: Word, frames: seq<nat>, data: Word, size: Word, ramfsEnd: Word)
    requires base % PAGE_SIZE == 0 && base + LOW_TABLES * PAGE_SIZE <= WORD_LIMIT
    requires ImageClear(data, size, ramfsEnd) && Clear(frames, ramfsEnd) && |frames| == PagesFor(size)
    requires forall v :: at(v) == Physical(AfterCalls(base, WindowCalls(frames)), true, v)
    ensures Separate(at, USER_BASE, data, size)
  {
    hide Tables.Translate;
    forall a: Word, b: Word | InRanges(a, USER_BASE, data, size) && InRanges(b, USER_BASE, data, size) && a != b
      ensures at(a) != at(b)
    {
      WindowTranslation(base, frames, a);
      WindowTranslation(base, frames, b);
      if USER_BASE <= a < USER_BASE + size {
        FrameBytesAreApart(frames, ramfsEnd, a, b);
      }
      if USER_BASE <= b < USER_BASE + size {
        FrameBytesAreApart(frames, ramfsEnd, b, a);
      }
    }
  }

  /** Every address that the copy touches is mapped and can be written. */
  ghost predicate CopyDoesNotFault(t: Tables, data: Word, size: Word)
    requires t.Valid() && t.Linked()
  {
    forall v: Word | InRanges(v, USER_BASE, data, size) :: CanStore(t, v)
  }

  lemma PagedCopyDoesNotFault(base: Word, frames: seq<nat>, data: Word, size: Word, ramfsEnd: Word)
    requires base % PAGE_SIZE == 0 && base + LOW_TABLES * PAGE_SIZE <= WORD_LIMIT
    requires ImageClear(data, size, ramfsEnd) && Clear(frames, ramfsEnd) && |frames| == PagesFor(size)
    ensures CopyDoesNotFault(AfterCalls(base, WindowCalls(frames)), data, size)
  {
    hide Tables.Translate, AfterCalls, WindowCalls;
    forall v: Word | InRanges(v, USER_BASE, data, size)
      ensures CanStore(AfterCalls(base, WindowCalls(frames)), v)
    {
      WindowTranslation(base, frames, v);
    }
  }

  /** User mode finds byte c at v. */
  ghost predicate UserReads(tables: Tables, memory: seq<char>, v: Word, c: char)
    requires tables.Valid() && tables.Linked() && |memory| == WORD_LIMIT
  {
    var t := tables.Translate(v);
    t.Mapped? && t.user && memory[t.physical] == c
  }

  /** The image's byte for address v of the window. */
  function ImageByte(memory: seq<char>, data: Word, v: Word): char
    requires |memory| == WORD_LIMIT
  {
    memory[Wrap(v - USER_BASE + data)]
  }

  /** User mode finds the image, as it was in the archive, from USER_BASE on; only bytes of the frames changed. */
  ghost predicate LoadedPaged(tables: Tables, frames: seq<nat>, data: Word, size: Word,
                              before: seq<char>, after: seq<char>)
    requires tables.Valid() && tables.Linked() && |before| == |after| == WORD_LIMIT
  {
    && (forall v: Word | InRange(v, USER_BASE, USER_BASE + size) ::
          UserReads(tables, after, v, ImageByte(before, data, v)))
    && (forall x: Word | x / PAGE_SIZE !in frames :: after[x] == before[x])
  }

  /** What a finished copy means in the window. */
  lemma WindowHoldsImage(at: Word -> Word, base: Word, frames: seq<nat>, data: Word, size: Word, ramfsEnd: Word,
                         before: seq<char>, after: seq<char>)
    requires base % PAGE_SIZE == 0 && base + LOW_TABLES * PAGE_SIZE <= WORD_LIMIT
    requires ImageClear(data, size, ramfsEnd) && Clear(frames, ramfsEnd) && |frames| == PagesFor(size)
    requires |before| == |after| == WORD_LIMIT
    requires forall v :: at(v) == Physical(AfterCalls(base, WindowCalls(frames)), true, v)
    requires Moved(at, USER_BASE, data, USER_BASE, USER_BASE + size, before, after)
    ensures LoadedPaged(AfterCalls(base, WindowCalls(frames)), frames, data, size, before, after)
  {
    hide Tables.Translate, AfterCalls, WindowCalls;
    var t := AfterCalls(base, WindowCalls(frames));
    forall v: Word | InRange(v, USER_BASE, USER_BASE + size)
      ensures UserReads(t, after, v, ImageByte(before, data, v))
    {
      WindowTranslation(base, frames, v);
      WindowTranslation(base, frames, v - USER_BASE + data);
      assert after[at(v)] == before[SourceOf(at, USER_BASE, data, v)];
    }
    forall x: Word | x / PAGE_SIZE !in frames
      ensures after[x] == before[x]
    {
      forall v: Word | USER_BASE <= v < USER_BASE + size
        ensures at(v) != x
      {
        WindowTranslation(base, frames, v);
        assert frames[v / PAGE_SIZE - USER_PAGE] in frames && at(v) / PAGE_SIZE in frames;
      }
      assert !Hit(at, USER_BASE, USER_BASE + size, x);
    }
  }

  /** Without paging the image is copied over whatever lies at USER_BASE, its own archive included. */
  ghost function LoadedFlat(memory: seq<char>, data: Word, size: Word): seq<char>
    requires |memory| == WORD_LIMIT && USER_BASE + size <= WORD_LIMIT && data + size <= WORD_LIMIT
  {
    memory[..USER_BASE] + memory[data..data + size] + memory[USER_BASE + size..]
  }

  lemma FlatCopy(at: Word -> Word, data: Word, size: Word, before: seq<char>, after: seq<char>)
    requires |before| == |after| == WORD_LIMIT
    requires USER_BASE + size <= WORD_LIMIT && data + size <= WORD_LIMIT
    requires forall v :: at(v) == v
    requires Moved(at, USER_BASE, data, USER_BASE, USER_BASE + size, before, after)
    ensures after == LoadedFlat(before, data, size) && SameBelow(USER_BASE, before, after)
  {
    forall x: Word
      ensures after[x] == LoadedFlat(before, data, size)[x]
    {
      if USER_BASE <= x < USER_BASE + size {
        assert InRange(x, USER_BASE, USER_BASE + size);
        assert after[at(x)] == before[SourceOf(at, USER_BASE, data, x)];
        assert LoadedFlat(before, data, size)[x] == before[data..data + size][x - USER_BASE];
      } else {
        assert !Hit(at, USER_BASE, USER_BASE + size, x);
        assert LoadedFlat(before, data, size)[x] == before[x];
      }
    }
  }

  /** Nothing below `limit` changed. */
  ghost predicate SameBelow(limit: nat, before: seq<char>, after: seq<char>)
    requires |before| == |after| == WORD_LIMIT
  {
    forall x: Word | x < limit :: after[x] == before[x]
  }

  /** Frames past the reservation line leave everything below it as it was. */
  lemma LoadKeepsReserved(tables: Tables, frames: seq<nat>, data: Word, size: Word, reservedEnd: Word,
                          before: seq<char>, after: seq<char>)
    requires tables.Valid() && tables.Linked() && |before| == |after| == WORD_LIMIT
    requires Clear(frames, reservedEnd) && LoadedPaged(tables, frames, data, size, before, after)
    ensures SameBelow(reservedEnd, before, after)
  {
    hide UserReads;
    forall x: Word | x < reservedEnd
      ensures after[x] == before[x]
    {
      assert x / PAGE_SIZE !in frames;
    }
  }

  /** The identity map of `init_paging` does not disturb a lookup that stays below 12 MB. */
  lemma LookupThroughTables(base: Word, phys: Memory, seen: Memory, start: nat, end: nat, name: string)
    requires base % PAGE_SIZE == 0 && base + LOW_TABLES * PAGE_SIZE <= WORD_LIMIT
    requires start <= end < WORD_LIMIT - BLOCK && |name| < NAME_FIELD
    requires forall v: Word | v < MAPPED_END :: seen[v] == phys[Physical(AfterCalls(base, []), true, v)]
    requires var r := KernelWalk(phys, start, end, name);
             if r.Found? then r.data <= MAPPED_END else end <= MAPPED_END
    ensures KernelWalk(seen, start, end, name) == KernelWalk(phys, start, end, name)
  {
    hide KernelWalk, Tables.Translate;
    forall v: Word | v < MAPPED_END
      ensures phys[v] == seen[v]
    {
      TablesRefineAddressMap(base, [], v);
    }
    WalkReadsBelow(phys, seen, start, end, name, MAPPED_END);
  }

  // ---------- kernel.c: init_memory and launch_userland ----------

  /** The Multiboot memory map: how to load a word of it, its address and its length. */
  datatype MemoryMap = MemoryMap(load: Word -> Word, addr: Word, length: Word)
  {
    function End(): Word
    {
      Wrap(addr + length)
    }
  }

  /** What the boot loader says about memory, where it says anything. */
  datatype MultibootInfo = MultibootInfo(memUpper: Option<Word>, mmap: Option<MemoryMap>)
  {
    function MemSize(): Word
    {
      if memUpper.Some? then Wrap(memUpper.value as int * 1024) else FALLBACK_MEMORY
    }

    /** The loops of `pmm_init` and `pmm_parse_mmap` end. */
    ghost predicate LoopsEnd()
    {
      && MemSize() <= WORD_LIMIT - PAGE_SIZE
      && (mmap.Some? ==> Pmm.WalkEnds(mmap.value.load, mmap.value.addr, mmap.value.End()))
    }

    ghost function Entries(): seq<Pmm.MmapEntry>
      requires LoopsEnd()
    {
      if mmap.Some? then Pmm.Entries(mmap.value.load, mmap.value.addr, mmap.value.End()) else []
    }

    /** The free pages after boot with this reservation line. */
    ghost function FreePages(reservedEnd: Word): set<nat>
      requires LoopsEnd()
    {
      Pmm.AfterMmap(Pmm.BootFree(MemSize(), reservedEnd), Entries())
    }
  }

  // ---------- the same by page numbers ----------

  /** How many pages of memory the boot loader announces; the byte count wraps, and without one it is 8 MB. */
  function MemoryPages(memUpper: Option<Word>): nat
  {
    match memUpper
    case Some(kilobytes) => (kilobytes % 0x40_0000 + 3) / 4
    case None => 2048
  }

  /** Page p is past the kernel, the archive and the first megabyte, inside memory and the bitmap, and unreserved. */
  predicate IsBootFree(p: nat, memUpper: Option<Word>, kernelEnd: Word, ramfsEnd: Word, regions: seq<Pmm.Region>)
  {
    && p >= 256 && p * 4096 >= kernelEnd && p * 4096 >= ramfsEnd
    && p < MemoryPages(memUpper) && p < 32768
    && forall r | r in regions :: !r.Reserves(p)
  }

  lemma KilobytePages(kilobytes: Word)
    ensures PagesFor(Wrap(kilobytes as int * 1024)) == (kilobytes % 0x40_0000 + 3) / 4
  {
    var q, r := kilobytes / 0x40_0000, kilobytes % 0x40_0000;
    assert kilobytes * 1024 == q * WORD_LIMIT + r * 1024;
    assert Wrap(kilobytes as int * 1024) == r * 1024;
  }

  /** The regions that a boot loader's map holds; none without a map. */
  ghost predicate MapHolds(mbi: MultibootInfo, regions: seq<Pmm.Region>)
  {
    && (forall r | r in regions :: r.EndsEarly())
    && match mbi.mmap
       case None => regions == []
       case Some(mm) => mm.addr + mm.length < WORD_LIMIT && Pmm.HoldsMap(mm.load, mm.addr, mm.addr + mm.length, regions)
  }

  /** Which pages are free after boot, from what the boot loader says. */
  lemma FreePagesAfterBoot(mbi: MultibootInfo, kernelEnd: Word, ramfsEnd: Word, regions: seq<Pmm.Region>, p: nat)
    requires mbi.LoopsEnd() && MapHolds(mbi, regions)
    requires Max(kernelEnd, ramfsEnd) <= WORD_LIMIT - PAGE_SIZE
    ensures p in mbi.FreePages(Max(kernelEnd, ramfsEnd)) <==> IsBootFree(p, mbi.memUpper, kernelEnd, ramfsEnd, regions)
  {
    hide Pmm.HoldsMap, Pmm.BootFree, Pmm.AfterMmap, Pmm.Entries, Pmm.WalkEnds;
    var boot := Pmm.BootFree(mbi.MemSize(), Max(kernelEnd, ramfsEnd));
    MemorySize(mbi);
    Pmm.BootBitmapIsExact(mbi.MemSize(), Max(kernelEnd, ramfsEnd), p);
    assert p in boot <==> IsBootFree(p, mbi.memUpper, kernelEnd, ramfsEnd, []);
    match mbi.mmap {
      case None => Pmm.NoEntries(boot);
      case Some(mm) => Pmm.WrittenMapLocks(boot, mm.load, mm.addr, mm.End(), regions, p);
    }
  }

  lemma MemorySize(mbi: MultibootInfo)
    ensures PagesFor(mbi.MemSize()) == MemoryPages(mbi.memUpper)
  {
    if mbi.memUpper.Some? {
      KilobytePages(mbi.memUpper.value);
    }
  }

  /** Without a memory map, the number of free pages after boot. */
  function BootPageCount(memUpper: Option<Word>, kernelEnd: Word, ramfsEnd: Word): nat
  {
    var first := Max(256, Max((kernelEnd + 4095) / 4096, (ramfsEnd + 4095) / 4096));
    var last := Min(MemoryPages(memUpper), 32768);
    if first < last then last - first else 0
  }

  lemma FreePageCountAfterBoot(mbi: MultibootInfo, kernelEnd: Word, ramfsEnd: Word)
    requires mbi.LoopsEnd() && mbi.mmap.None?
    requires Max(kernelEnd, ramfsEnd) <= WORD_LIMIT - PAGE_SIZE
    ensures |mbi.FreePages(Max(kernelEnd, ramfsEnd))| == BootPageCount(mbi.memUpper, kernelEnd, ramfsEnd)
  {
    var free := mbi.FreePages(Max(kernelEnd, ramfsEnd));
    var first := Max(256, Max((kernelEnd + 4095) / 4096, (ramfsEnd + 4095) / 4096));
    var n := BootPageCount(mbi.memUpper, kernelEnd, ramfsEnd);
    forall p: nat
      ensures p in free <==> Pmm.InRun(p, first, n)
    {
      FreePagesAfterBoot(mbi, kernelEnd, ramfsEnd, [], p);
    }
    assert free == Pmm.Pages(first, n);
    RunSize(first, n);
  }

  lemma {:induction false} RunSize(start: nat, n: nat)
    ensures |Pmm.Pages(start, n)| == n
  {
    if n == 0 {
      assert Pmm.Pages(start, n) == {};
    } else {
      assert Pmm.InRun(start + n - 1, start, n);
      assert Pmm.Pages(start, n) == Pmm.Pages(start, n - 1) + {start + n - 1};
      RunSize(start, n - 1);
    }
  }

  class Kernel {
    const phys: array<char>
    const mmu: Mmu
    const pages: Pmm.PageAllocator
    const ramfs: KernelRamFs
    const kernelEnd: Word  // where the linker's image of the kernel ends

    /** The directory and the tables are static data of the kernel. */
    ghost predicate Valid()
      reads this, mmu, mmu.kernelPageDirectory, mmu.lowKernelTables, pages, ramfs
    {
      && phys.Length == WORD_LIMIT
      && mmu.Valid() && pages.Valid() && TablesBelow(mmu, kernelEnd)
      && pages.bitmap != mmu.lowKernelTables && pages.bitmap != mmu.kernelPageDirectory
      && ramfs.ramfsEnd < WORD_LIMIT - BLOCK
    }

    constructor (phys: array<char>, mmu: Mmu, pages: Pmm.PageAllocator, ramfs: KernelRamFs, kernelEnd: Word)
      ensures this.phys == phys && this.mmu == mmu && this.pages == pages && this.ramfs == ramfs
      ensures this.kernelEnd == kernelEnd
    {
      this.phys, this.mmu, this.pages, this.ramfs, this.kernelEnd := phys, mmu, pages, ramfs, kernelEnd;
    }

    /** The reservation line: the end of the kernel or of the archive. */
    function ReservedEnd(): Word
      reads this, ramfs
    {
      Max(kernelEnd, ramfs.ramfsEnd)
    }

    /** What the archive lookup of "shell.bin" gives. */
    ghost function ShellImage(): Lookup
      requires Valid()
      reads this, phys, mmu, mmu.kernelPageDirectory, mmu.lowKernelTables, pages, ramfs
    {
      if 0 < ramfs.ramfsStart < ramfs.ramfsEnd
      then KernelWalk(phys[..], ramfs.ramfsStart, ramfs.ramfsEnd, "shell.bin") else NotFound
    }

    /**
     * The kernel lies below the window. With paging on, the image must lie clear of the window, and a search
     * that fails must end by 12 MB, because it would fault there. With paging off, as kernel_main leaves it,
     * the copy is flat.
     */
    ghost predicate InReach(on: bool)
      requires Valid()
      reads this, phys, mmu, mmu.kernelPageDirectory, mmu.lowKernelTables, pages, ramfs
    {
      kernelEnd <= USER_BASE &&
      match ShellImage()
      case NotFound => on ==> ramfs.ramfsEnd <= MAPPED_END
      case Found(data, size) =>
        && WindowFits(PagesFor(size)) && data + size <= WORD_LIMIT
        && (on ==> ImageClear(data, size, ramfs.ramfsEnd))
    }

    /** Free pages lie past the reservation line; with paging on, the tables are those of `init_paging`. */
    ghost predicate Booted()
      requires Valid()
      reads this, mmu, mmu.kernelPageDirectory, mmu.lowKernelTables, pages, pages.bitmap, ramfs
    {
      && (forall p | p in pages.Free() :: ReservedEnd() <= p * PAGE_SIZE)
      && (mmu.pagingOn ==> mmu.State() == InitialTables(mmu.base))
    }

    method InitMemory(mbi: MultibootInfo, ghost regions: seq<Pmm.Region>)
      requires Valid() && mbi.LoopsEnd()
      modifies pages`totalPages, pages.bitmap
      ensures Valid()
      ensures pages.Free() == mbi.FreePages(ReservedEnd())
      ensures MapHolds(mbi, regions) && ReservedEnd() <= WORD_LIMIT - PAGE_SIZE ==>
                forall p: nat ::
                  p in pages.Free() <==> IsBootFree(p, mbi.memUpper, kernelEnd, ramfs.ramfsEnd, regions)
    {
      hide Pmm.AfterMmap, Pmm.Entries, Pmm.WalkEnds, Pmm.BootFree;
      var reservedEnd := kernelEnd;
      if ramfs.ramfsEnd > reservedEnd {
        reservedEnd := ramfs.ramfsEnd;
      }
      if mbi.memUpper.Some? {
        pages.Init(Wrap(mbi.memUpper.value as int * 1024), reservedEnd);
      } else {
        pages.Init(8 * 1024 * 1024, reservedEnd);
      }
      if mbi.mmap.Some? {
        pages.ParseMmap(mbi.mmap.value.load, mbi.mmap.value.addr, mbi.mmap.value.length);
      } else {
        Pmm.NoEntries(pages.Free());
      }
      if MapHolds(mbi, regions) && ReservedEnd() <= WORD_LIMIT - PAGE_SIZE {
        forall p: nat
          ensures p in pages.Free() <==> IsBootFree(p, mbi.memUpper, kernelEnd, ramfs.ramfsEnd, regions)
        {
          FreePagesAfterBoot(mbi, kernelEnd, ramfs.ramfsEnd, regions, p);
        }
      }
    }

    /** The map loop and the copy. Kernel and page tables are left alone and stay where they are. */
    method LoadImage(data: Word, size: Word) returns (outcome: Outcome, ghost frames: seq<nat>)
      requires Valid() && Booted() && InReach(mmu.pagingOn) && ShellImage() == Found(data, size)
      modifies phys, mmu.lowKernelTables, pages.bitmap
      ensures Valid()
      ensures outcome == if PagesFor(size) > |old(pages.Free())| then OutOfMemory else Launched
      ensures outcome.OutOfMemory? ==> phys[..] == old(phys[..])
      ensures outcome.Launched? ==> |frames| == PagesFor(size) && Taken(frames, old(pages.Free()), pages.Free())
      ensures outcome.Launched? ==>
                if mmu.pagingOn then LoadedPaged(mmu.State(), frames, data, size, old(phys[..]), phys[..])
                else phys[..] == LoadedFlat(old(phys[..]), data, size)
      ensures SameBelow(if mmu.pagingOn then ReservedEnd() else kernelEnd, old(phys[..]), phys[..])
      ensures mmu.pagingOn ==> mmu.State().Unmoved(0, kernelEnd)
    {
      hide Tables.UnmovedAt, KernelWalk, Tables.Translate, Taken, Moved, Separate, LoadedPaged, LoadedFlat, Clear;
      var numPages := Wrap(size as int + PAGE_SIZE - 1) / PAGE_SIZE;
      assert numPages == PagesFor(size);
      ghost var free := pages.Free();
      var ok;
      ok, frames := MapWindow(mmu, pages, numPages);
      if !ok {
        return OutOfMemory, frames;
      }
      FramesAreClear(frames, free, pages.Free(), ReservedEnd());
      CopyImage(data, size, frames);
      return Launched, frames;
    }

    /** `kernel_memmove` through the tables in force. */
    method CopyImage(data: Word, size: Word, ghost frames: seq<nat>)
      requires Valid() && kernelEnd <= USER_BASE
      requires WindowFits(PagesFor(size)) && data + size <= WORD_LIMIT
      requires mmu.pagingOn ==>
                 && ImageClear(data, size, ramfs.ramfsEnd)
                 && |frames| == PagesFor(size) && Clear(frames, ReservedEnd())
                 && mmu.State() == AfterCalls(mmu.base, WindowCalls(frames))
      modifies phys
      ensures if mmu.pagingOn then LoadedPaged(mmu.State(), frames, data, size, old(phys[..]), phys[..])
              else phys[..] == LoadedFlat(old(phys[..]), data, size)
      ensures SameBelow(if mmu.pagingOn then ReservedEnd() else kernelEnd, old(phys[..]), phys[..])
      ensures mmu.pagingOn ==> CopyDoesNotFault(mmu.State(), data, size)
    {
      hide CopyDoesNotFault, Tables.UnmovedAt, Tables.Translate, Moved, Separate, LoadedPaged, LoadedFlat;
      hide ImageClear, WindowCalls;
      ghost var before := phys[..];
      var tables, on := mmu.State(), mmu.pagingOn;
      var at := (v: Word) => if tables.Valid() && tables.Linked() then Physical(tables, on, v) else v;
      if on {
        PagedCopyIsSeparate(at, mmu.base, frames, data, size, ramfs.ramfsEnd);
        PagedCopyDoesNotFault(mmu.base, frames, data, size, ramfs.ramfsEnd);
      }
      KernelMemmove(phys, at, USER_BASE, data, size);
      if on {
        WindowHoldsImage(at, mmu.base, frames, data, size, ramfs.ramfsEnd, before, phys[..]);
        LoadKeepsReserved(tables, frames, data, size, ReservedEnd(), before, phys[..]);
      } else {
        FlatCopy(at, data, size, before, phys[..]);
      }
    }

    /** Boot from a fresh memory map to the loaded shell, with `init_paging` called before the launch or not. */
    method Boot(callInitPaging: bool, mbi: MultibootInfo) returns (outcome: Outcome, ghost frames: seq<nat>)
      requires Valid() && !mmu.pagingOn && mbi.LoopsEnd()
      requires ramfs.ramfsEnd <= WORD_LIMIT - PAGE_SIZE && InReach(callInitPaging)
      modifies phys, mmu`pagingOn, mmu.kernelPageDirectory, mmu.lowKernelTables, pages`totalPages, pages.bitmap
      ensures Valid() && mmu.pagingOn == callInitPaging
      ensures outcome == Expected(old(ShellImage()), mbi.FreePages(ReservedEnd()))
      ensures mbi.mmap.None? ==>
                (outcome.Launched? <==>
                   && old(ShellImage()).Found?
                   && (old(ShellImage()).size + 4095) / 4096 <=
                      BootPageCount(mbi.memUpper, kernelEnd, ramfs.ramfsEnd))
      ensures IsLaunched(outcome, frames, mbi.FreePages(ReservedEnd()), old(ShellImage()), old(phys[..]))
    {
      ghost var image := ShellImage();
      InitMemory(mbi, []);
      forall p | p in pages.Free()
        ensures ReservedEnd() <= p * PAGE_SIZE
      {
        BootLeavesReservedClear(mbi.MemSize(), ReservedEnd(), mbi.Entries(), p);
      }
      if callInitPaging {
        mmu.InitPaging();
      }
      assert ShellImage() == image;
      if mbi.mmap.None? {
        FreePageCountAfterBoot(mbi, kernelEnd, ramfs.ramfsEnd);
      }
      outcome, frames := LaunchUserland();
    }

    /** How a launch ends for this result of the lookup and these free pages. */
    ghost function Expected(image: Lookup, free: set<nat>): Outcome
    {
      if image.NotFound? then NoImage else if PagesFor(image.size) > |free| then OutOfMemory else Launched
    }

    /**
     * The state after a launch: if it was launched, the shell is in place in the lowest of the free pages.
     * Kernel and page tables are as they were, and with paging on they are still mapped where they are.
     */
    ghost predicate IsLaunched(outcome: Outcome, frames: seq<nat>, free: set<nat>, image: Lookup, before: seq<char>)
      requires Valid() && |before| == WORD_LIMIT
      reads this, phys, mmu, mmu.kernelPageDirectory, mmu.lowKernelTables, pages, pages.bitmap, ramfs
    {
      && (!outcome.Launched? ==> phys[..] == before)
      && (outcome.Launched? ==>
            && image.Found?
            && |frames| == PagesFor(image.size)
            && Taken(frames, free, pages.Free())
            && if mmu.pagingOn then LoadedPaged(mmu.State(), frames, image.data, image.size, before, phys[..])
               else IsFlatLoad(image.data, image.size, before, phys[..]))
      && SameBelow(if mmu.pagingOn then ReservedEnd() else kernelEnd, before, phys[..])
      && (mmu.pagingOn ==> mmu.State().Unmoved(0, kernelEnd))
    }

    /** With paging on, the lookup sees memory as it is: see LookupThroughTables. */
    method LaunchUserland() returns (outcome: Outcome, ghost frames: seq<nat>)
      requires Valid() && Booted() && InReach(mmu.pagingOn)
      modifies phys, mmu.lowKernelTables, pages.bitmap
      ensures Valid()
      ensures outcome == Expected(old(ShellImage()), old(pages.Free()))
      ensures IsLaunched(outcome, frames, old(pages.Free()), old(ShellImage()), old(phys[..]))
    {
      hide KernelWalk, Tables.UnmovedAt, LoadedPaged, Taken, LoadedFlat;
      frames := [];
      var name := "shell.bin" + [NUL];
      TextOfLiteral("shell.bin", []);
      assert name + [] == name;
      var image := ramfs.Read(phys, name);
      assert image == ShellImage();
      if image.NotFound? {
        if mmu.pagingOn {
          LowMemoryStays(mmu.base, []);
          assert AfterCalls(mmu.base, WindowCalls([])) == mmu.State();
        }
        return NoImage, frames;
      }
      outcome, frames := LoadImage(image.data, image.size);
    }

    /** From the archive writer to user mode: the data of the first "shell.bin" is what the shell starts from. */
    method BootWrittenArchive(callInitPaging: bool, mbi: MultibootInfo, ghost files: seq<TarFile>)
        returns (outcome: Outcome, ghost frames: seq<nat>)
      requires Valid() && !mmu.pagingOn && mbi.LoopsEnd()
      requires ramfs.ramfsEnd <= WORD_LIMIT - PAGE_SIZE && InReach(callInitPaging)
      requires 0 < ramfs.ramfsStart && HoldsArchive(phys[..], ramfs.ramfsStart, ramfs.ramfsEnd, files)
      modifies phys, mmu`pagingOn, mmu.kernelPageDirectory, mmu.lowKernelTables, pages`totalPages, pages.bitmap
      ensures Valid() && mmu.pagingOn == callInitPaging
      ensures var k := FirstMatch(files, "shell.bin");
              && (outcome.NoImage? <==> k == |files|)
              && (outcome.Launched? <==>
                    k < |files| && PagesFor(|files[k].data|) <= |mbi.FreePages(ReservedEnd())|)
              && (mbi.mmap.None? ==>
                    (outcome.Launched? <==>
                       k < |files| && (|files[k].data| + 4095) / 4096 <=
                                      BootPageCount(mbi.memUpper, kernelEnd, ramfs.ramfsEnd)))
              && (outcome.Launched? ==>
                    if callInitPaging then WindowReads(mmu.State(), phys[..], files[k].data)
                    else Placed(phys[..], 0x20_0000, files[k].data))
    {
      hide KernelWalk, Tables.UnmovedAt, LoadedPaged, Taken, WindowReads;
      ghost var before, image := phys[..], ShellImage();
      ArchiveRoundTrip(before, ramfs.ramfsStart, ramfs.ramfsEnd, files, "shell.bin");
      outcome, frames := Boot(callInitPaging, mbi);
      if outcome.Launched? {
        if callInitPaging {
          UserReadsWrittenShell(mmu.State(), frames, ramfs.ramfsStart, ramfs.ramfsEnd, files, before, phys[..]);
        } else {
          assert phys[..][USER_BASE..USER_BASE + image.size] == before[image.data..image.data + image.size];
        }
      }
    }
  }

  /** The free pages after boot lie past the kernel, the archive and page 0. */
  lemma BootLeavesReservedClear(memSize: Word, reservedEnd: Word, entries: seq<Pmm.MmapEntry>, p: nat)
    requires reservedEnd <= WORD_LIMIT - PAGE_SIZE
    requires p in Pmm.AfterMmap(Pmm.BootFree(memSize, reservedEnd), entries)
    ensures 0 < p && reservedEnd <= p * PAGE_SIZE
  {
    Pmm.MmapPassIsExact(Pmm.BootFree(memSize, reservedEnd), entries, p);
    Pmm.BootBitmapIsExact(memSize, reservedEnd, p);
  }

  /** Archive to user mode: what the writer stored under the first "shell.bin" is what user mode reads. */
  lemma UserReadsWrittenShell(tables: Tables, frames: seq<nat>, start: nat, end: nat, files: seq<TarFile>,
                              before: Memory, after: seq<char>)
    requires tables.Valid() && tables.Linked() && |after| == WORD_LIMIT
    requires HoldsArchive(before, start, end, files)
    requires var r := KernelWalk(before, start, end, "shell.bin");
             && r.Found? && USER_BASE + r.size <= WORD_LIMIT
             && LoadedPaged(tables, frames, r.data, r.size, before, after)
    ensures var k := FirstMatch(files, "shell.bin");
            && k < |files|
            && WindowReads(tables, after, files[k].data)
  {
    ArchiveRoundTrip(before, start, end, files, "shell.bin");
    var r := KernelWalk(before, start, end, "shell.bin");
    LoadedBytes(tables, frames, r.data, r.size, files[FirstMatch(files, "shell.bin")].data, before, after);
  }

  /** User mode finds these bytes from 2 MB on. */
  ghost predicate WindowReads(tables: Tables, memory: seq<char>, bytes: seq<char>)
    requires tables.Valid() && tables.Linked() && |memory| == WORD_LIMIT
  {
    && 0x20_0000 + |bytes| <= WORD_LIMIT
    && forall i: nat | InRange(i, 0, |bytes|) :: UserReads(tables, memory, 0x20_0000 + i, bytes[i])
  }

  lemma LoadedBytes(tables: Tables, frames: seq<nat>, data: Word, size: Word, bytes: seq<char>,
                    before: seq<char>, after: seq<char>)
    requires tables.Valid() && tables.Linked() && |before| == |after| == WORD_LIMIT
    requires USER_BASE + size <= WORD_LIMIT && data + size <= WORD_LIMIT && before[data..data + size] == bytes
    requires LoadedPaged(tables, frames, data, size, before, after)
    ensures WindowReads(tables, after, bytes)
  {
    hide UserReads;
    forall i: nat | InRange(i, 0, |bytes|)
      ensures UserReads(tables, after, USER_BASE + i, bytes[i])
    {
      assert InRange(USER_BASE + i, USER_BASE, USER_BASE + size);
      assert before[data..data + size][i] == ImageByte(before, data, USER_BASE + i);
    }
  }

  ghost predicate IsFlatLoad(data: Word, size: Word, before: seq<char>, after: seq<char>)
  {
    && |before| == WORD_LIMIT && USER_BASE + size <= WORD_LIMIT && data + size <= WORD_LIMIT
    && after == LoadedFlat(before, data, size)
  }

  lemma FramesAreClear(frames: seq<nat>, free: set<nat>, after: set<nat>, reservedEnd: Word)
    requires Taken(frames, free, after)
    requires forall p | p in free :: p < Pmm.BITMAP_SIZE && reservedEnd <= p * PAGE_SIZE
    ensures Clear(frames, reservedEnd)
  {}
}
