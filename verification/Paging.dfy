/** Two-level 32-bit page tables (Intel SDM volume 3A, section 4.3) and the code that fills them. */
module Paging {
  import opened Words
  import opened Wrappers
  import opened Bits

  const ENTRIES_PER_TABLE := 1024
  const LOW_TABLES := 3
  const LOW_ENTRIES := 3072
  const MAPPED_END := 0xC0_0000  // 12 MB: what the three low tables reach

  const PAGE_PRESENT := 1
  const PAGE_WRITE := 2
  const PAGE_USER := 4

  /** Entry flags are the bits 0 (present), 1 (writable) and 2 (user) of an entry. */
  predicate Present(entry: Word) { Bit(entry, 0) }
  predicate Writable(entry: Word) { Bit(entry, 1) }
  predicate User(entry: Word) { Bit(entry, 2) }

  /** An entry without its low 12 bits: a frame or table address. */
  function FrameOf(entry: Word): Word
  {
    entry / PAGE_SIZE * PAGE_SIZE
  }

  /** `(physical & ~0xFFF) | flags` */
  function Entry(physical: Word, flags: Word): Word
  {
    WordHas32Bits();
    OrFits(FrameOf(physical), flags, 32);
    Or(FrameOf(physical), flags)
  }

  lemma FrameIsMasked(entry: Word)
    ensures FrameOf(entry) == Masked(entry, 12)
  {
    hide Masked;
    assert Pow2(12) == PAGE_SIZE;
    MaskedIsMultiple(entry / PAGE_SIZE, entry % PAGE_SIZE, 12);
  }

  /** The low 12 bits of an entry are those of the flags; flags from 4096 on run into the frame address. */
  lemma FlagsOfEntry(physical: Word, flags: Word)
    ensures FrameOf(Entry(physical, flags)) == Entry(physical, FrameOf(flags))
    ensures forall j | 0 <= j < 12 :: Bit(Entry(physical, flags), j) <==> Bit(flags, j)
    ensures flags < PAGE_SIZE ==> Entry(physical, flags) == FrameOf(physical) + flags
    ensures flags < PAGE_SIZE ==> FrameOf(Entry(physical, flags)) == FrameOf(physical)
  {
    hide Or, Masked, Bit;
    FrameOfEntry(physical, flags);
    forall j | 0 <= j < 12
      ensures Bit(Entry(physical, flags), j) <==> Bit(flags, j)
    {
      OrJoinsBits(FrameOf(physical), flags, j);
      FrameIsMasked(physical);
      MaskedHasNoLowBit(physical, 12, j);
    }
    if flags < PAGE_SIZE {
      assert Pow2(12) == PAGE_SIZE;
      OrIsSum(physical / PAGE_SIZE, flags, 12);
    }
  }

  lemma FrameOfEntry(physical: Word, flags: Word)
    ensures FrameOf(Entry(physical, flags)) == Entry(physical, FrameOf(flags))
  {
    hide Or, Masked;
    FrameIsMasked(Entry(physical, flags));
    FrameIsMasked(FrameOf(physical));
    FrameIsMasked(flags);
    OrOfMasked(FrameOf(physical), flags, 12);
  }

  // ---------- the tables as a value, and the walk through them ----------

  /** The page directory, the three low tables one after the other, and their physical address. */
  datatype Tables = Tables(directory: seq<Word>, low: seq<Word>, base: Word)
  {
    predicate Valid()
    {
      && |directory| == ENTRIES_PER_TABLE
      && |low| == LOW_ENTRIES
      && base % PAGE_SIZE == 0
      && base + LOW_TABLES * PAGE_SIZE <= WORD_LIMIT
    }

    /** Every present directory entry points at the low table of its own index. */
    predicate Linked()
      requires Valid()
    {
      forall d | 0 <= d < ENTRIES_PER_TABLE && Present(directory[d]) ::
        d < LOW_TABLES && FrameOf(directory[d]) == base + d * PAGE_SIZE
    }

    /** The position in `low` of the table entry at this table address and index. */
    function SlotAt(table: Word, index: nat): int
    {
      (table - base) / 4 + index
    }

    /** The processor's walk: directory entry, then table entry; a missing one faults. */
    function Translate(virtual: Word): Translation
      requires Valid() && Linked()
    {
      var pde := directory[virtual / 0x40_0000];
      if !Present(pde) then Fault
      else
        var pte := low[SlotAt(FrameOf(pde), virtual / PAGE_SIZE % ENTRIES_PER_TABLE)];
        if !Present(pte) then Fault
        else Mapped(FrameOf(pte) + virtual % PAGE_SIZE, User(pde) && User(pte), Writable(pde) && Writable(pte))
    }

    /** The addresses in [lo, hi) stand for themselves and can be written. */
    ghost predicate Unmoved(lo: nat, hi: nat)
      requires Valid() && Linked()
    {
      forall v: Word | lo <= v < hi :: UnmovedAt(v)
    }

    ghost predicate UnmovedAt(v: Word)
      requires Valid() && Linked()
    {
      StaysAt(v) && Translate(v).writable
    }

    ghost predicate StaysAt(v: Word)
      requires Valid() && Linked()
    {
      Translate(v).Mapped? && Translate(v).physical == v
    }

    /** The address, in its low table, of the entry for a page. */
    function SlotAddress(virtual: Word): (a: Word)
      requires Valid() && Linked() && Present(directory[virtual / 0x40_0000])
      ensures a == base + 4 * (virtual / PAGE_SIZE)
    {
      FrameOf(directory[virtual / 0x40_0000]) + 4 * (virtual / PAGE_SIZE % ENTRIES_PER_TABLE)
    }

    /** Where the store of a `map_page` call goes: it is a store to a virtual address. */
    function StoreOf(on: bool, virtual: Word): Store
      requires Valid() && Linked()
    {
      if !Present(directory[virtual / 0x40_0000]) then NoTable
      else
        var a := SlotAddress(virtual);
        if !on then At(a) else
          if CanStore(this, a) then At(Translate(a).physical) else Faulted
    }

    /** The tables after such a store of this word; a store elsewhere leaves them alone. */
    function Stored(store: Store, entry: Word): Tables
      requires Valid()
    {
      if store.At? && base <= store.address < base + LOW_TABLES * PAGE_SIZE
      then this.(low := low[(store.address - base) / 4 := entry])
      else this
    }

    /** With paging on: the directory entry and the table entry that a call needs stand for themselves. */
    ghost predicate Lands(on: bool, directoryBase: Word, virtual: Word)
      requires Valid() && Linked() && directoryBase + PAGE_SIZE <= WORD_LIMIT
    {
      on ==> && StaysAt(directoryBase + 4 * (virtual / 0x40_0000))
             && (Present(directory[virtual / 0x40_0000]) ==> UnmovedAt(SlotAddress(virtual)))
    }

    /** The tables after a `map_page` whose store lands. */
    function Map(call: MapCall): Tables
      requires Valid() && Linked()
    {
      if !Present(directory[call.virtual / 0x40_0000]) then this
      else this.(low := low[call.virtual / PAGE_SIZE := Entry(call.physical, call.flags)])
    }
  }

  /** The address that the processor puts on the bus for an address that does not fault. */
  function Physical(t: Tables, on: bool, v: Word): Word
    requires t.Valid() && t.Linked()
  {
    if on && t.Translate(v).Mapped? then t.Translate(v).physical else v
  }

  /** A store that is not made because there is no table, one that faults, and one that reaches memory. */
  datatype Store = NoTable | Faulted | At(address: Word)

  predicate CanStore(t: Tables, v: Word)
    requires t.Valid() && t.Linked()
  {
    t.Translate(v).Mapped? && t.Translate(v).writable
  }

  /** A store that lands changes exactly the entry of its page. */
  lemma LandedStoreMaps(t: Tables, on: bool, directoryBase: Word, call: MapCall)
    requires t.Valid() && t.Linked() && directoryBase + PAGE_SIZE <= WORD_LIMIT
    requires t.Lands(on, directoryBase, call.virtual)
    ensures t.Stored(t.StoreOf(on, call.virtual), Entry(call.physical, call.flags)) == t.Map(call)
  {
    hide Tables.Translate, Entry;
  }

  lemma UnmovedStoreLands(t: Tables, on: bool, directoryBase: Word, limit: nat, virtual: Word)
    requires t.Valid() && t.Linked() && directoryBase + PAGE_SIZE <= WORD_LIMIT
    requires on ==> t.Unmoved(0, limit)
    requires on ==> t.base + LOW_TABLES * PAGE_SIZE <= limit && directoryBase + PAGE_SIZE <= limit
    ensures t.Lands(on, directoryBase, virtual)
  {
    hide Tables.Translate;
    if on {
      assert t.UnmovedAt(directoryBase + 4 * (virtual / 0x40_0000));
    }
  }

  datatype Translation = Fault | Mapped(physical: Word, user: bool, writable: bool)

  datatype MapCall = MapCall(virtual: Word, physical: Word, flags: Word)
  {
    /** The frame that the call asks for; flags from 4096 on change it. */
    function Frame(): Word
    {
      FrameOf(Entry(physical, flags))
    }
  }

  /** The tables just after `init_paging`. */
  function InitialTables(base: Word): (t: Tables)
    requires base % PAGE_SIZE == 0 && base + LOW_TABLES * PAGE_SIZE <= WORD_LIMIT
    ensures t.Valid()
  {
    Tables(seq(ENTRIES_PER_TABLE, d requires 0 <= d < ENTRIES_PER_TABLE =>
               if d < LOW_TABLES then (base + d * PAGE_SIZE) + (PAGE_PRESENT + PAGE_WRITE + PAGE_USER) else PAGE_WRITE),
           seq(LOW_ENTRIES, i requires 0 <= i < LOW_ENTRIES => i * PAGE_SIZE + (PAGE_PRESENT + PAGE_WRITE)),
           base)
  }

  lemma InitialTablesAreLinked(base: Word)
    requires base % PAGE_SIZE == 0 && base + LOW_TABLES * PAGE_SIZE <= WORD_LIMIT
    ensures InitialTables(base).Linked()
    ensures forall d | 0 <= d < ENTRIES_PER_TABLE ::
              var e := InitialTables(base).directory[d];
              (Present(e) <==> d < LOW_TABLES) && (d < LOW_TABLES ==> User(e) && Writable(e))
  {
    hide Entry;
    var t := InitialTables(base);
    assert Bit(7, 0) && Bit(7, 1) && Bit(7, 2) && !Bit(PAGE_WRITE, 0);
    hide Bit;
    forall d | 0 <= d < ENTRIES_PER_TABLE
      ensures Present(t.directory[d]) <==> d < LOW_TABLES
      ensures d < LOW_TABLES ==> FrameOf(t.directory[d]) == base + d * PAGE_SIZE
      ensures d < LOW_TABLES ==> User(t.directory[d]) && Writable(t.directory[d])
    {
      if d < LOW_TABLES {
        FlagsOfEntry(base + d * PAGE_SIZE, 7);
        assert t.directory[d] == Entry(base + d * PAGE_SIZE, 7);
      }
    }
  }

  /** The tables after a sequence of `map_page` calls. */
  function MapAll(start: Tables, calls: seq<MapCall>): (t: Tables)
    requires start.Valid() && start.Linked()
    ensures t.Valid() && t.Linked() && t.base == start.base && t.directory == start.directory
  {
    if calls == [] then start else MapAll(start, calls[..|calls| - 1]).Map(calls[|calls| - 1])
  }

  /** The tables after `init_paging` and a sequence of `map_page` calls. */
  function AfterCalls(base: Word, calls: seq<MapCall>): (t: Tables)
    requires base % PAGE_SIZE == 0 && base + LOW_TABLES * PAGE_SIZE <= WORD_LIMIT
    ensures t.Valid() && t.Linked() && t.base == base
    ensures t.directory == InitialTables(base).directory
  {
    InitialTablesAreLinked(base);
    MapAll(InitialTables(base), calls)
  }

  // ---------- the address map that the tables stand for ----------

  /** The last call made for a virtual page. */
  function LastCall(calls: seq<MapCall>, page: nat): Option<MapCall>
  {
    if calls == [] then None
    else if calls[|calls| - 1].virtual / PAGE_SIZE == page then Some(calls[|calls| - 1])
    else LastCall(calls[..|calls| - 1], page)
  }

  lemma {:induction false} LastCallIsACall(calls: seq<MapCall>, page: nat)
    ensures var last := LastCall(calls, page);
            last.Some? ==> last.value in calls && last.value.virtual / PAGE_SIZE == page
  {
    if calls != [] {
      LastCallIsACall(calls[..|calls| - 1], page);
    }
  }

  /** Nothing from 12 MB on; below, the last call for the page, and the identity without one. */
  function AddressMap(calls: seq<MapCall>, virtual: Word): Translation
  {
    if virtual >= MAPPED_END then Fault
    else match LastCall(calls, virtual / PAGE_SIZE)
      case None => Mapped(virtual, false, true)
      case Some(c) =>
        if Bit(c.flags, 0) then Mapped(c.Frame() + virtual % PAGE_SIZE, Bit(c.flags, 2), Bit(c.flags, 1))
        else Fault
  }

  /** The entry that the low tables hold for each page. */
  lemma {:induction false} EntriesFollowLastCall(base: Word, calls: seq<MapCall>, page: nat)
    requires base % PAGE_SIZE == 0 && base + LOW_TABLES * PAGE_SIZE <= WORD_LIMIT
    requires page < LOW_ENTRIES
    ensures var last := LastCall(calls, page);
            && (last.Some? ==> last.value in calls)
            && AfterCalls(base, calls).low[page] ==
               if last.Some? then Entry(last.value.physical, last.value.flags)
               else page * PAGE_SIZE + PAGE_PRESENT + PAGE_WRITE
  {
    if calls != [] {
      var c := calls[|calls| - 1];
      EntriesFollowLastCall(base, calls[..|calls| - 1], page);
      InitialTablesAreLinked(base);
      assert c.virtual / 0x40_0000 == c.virtual / PAGE_SIZE / ENTRIES_PER_TABLE;
    }
  }

  /** With the directory of `init_paging` the walk ends at the low entry of the page's number. */
  lemma WalkReadsLowEntry(t: Tables, virtual: Word)
    requires t.Valid() && t.Linked()
    requires t.directory == InitialTables(t.base).directory
    ensures t.Translate(virtual) ==
            if virtual >= MAPPED_END || !Present(t.low[virtual / PAGE_SIZE]) then Fault
            else
              var pte := t.low[virtual / PAGE_SIZE];
              Mapped(FrameOf(pte) + virtual % PAGE_SIZE, User(pte), Writable(pte))
  {
    InitialTablesAreLinked(t.base);
    if virtual < MAPPED_END {
      var page := virtual / PAGE_SIZE;
      assert t.SlotAt(FrameOf(t.directory[virtual / 0x40_0000]), page % ENTRIES_PER_TABLE) == page;
    }
  }

  /** After `init_paging` and any calls, the processor's walk computes the address map. */
  lemma TablesRefineAddressMap(base: Word, calls: seq<MapCall>, virtual: Word)
    requires base % PAGE_SIZE == 0 && base + LOW_TABLES * PAGE_SIZE <= WORD_LIMIT
    ensures AfterCalls(base, calls).Translate(virtual) == AddressMap(calls, virtual)
  {
    hide Entry, AfterCalls, Tables.Translate;
    WalkReadsLowEntry(AfterCalls(base, calls), virtual);
    if virtual < MAPPED_END {
      var page := virtual / PAGE_SIZE;
      EntriesFollowLastCall(base, calls, page);
      match LastCall(calls, page) {
        case None =>
          FlagsOfEntry(page * PAGE_SIZE, 3);
          assert Bit(3, 0) && Bit(3, 1) && !Bit(3, 2);
        case Some(c) =>
          FlagsOfEntry(c.physical, c.flags);
      }
    }
  }

  /** A page is open to user mode exactly when its last call set both PRESENT and USER. */
  lemma UserAccessExactly(base: Word, calls: seq<MapCall>, virtual: Word)
    requires base % PAGE_SIZE == 0 && base + LOW_TABLES * PAGE_SIZE <= WORD_LIMIT
    ensures var t := AfterCalls(base, calls).Translate(virtual);
            var last := LastCall(calls, virtual / PAGE_SIZE);
            t.Mapped? && t.user <==>
            virtual < MAPPED_END && last.Some? && Bit(last.value.flags, 0) && Bit(last.value.flags, 2)
  {
    TablesRefineAddressMap(base, calls, virtual);
  }

  /** This page keeps its place: no call was made for it, or the last one put it there. */
  predicate PageStays(calls: seq<MapCall>, page: nat)
  {
    var last := LastCall(calls, page);
    last.Some? ==> Bit(last.value.flags, 0) && last.value.Frame() == page * PAGE_SIZE
  }

  /** It keeps its place and can be written. */
  predicate PageUnmoved(calls: seq<MapCall>, page: nat)
  {
    var last := LastCall(calls, page);
    PageStays(calls, page) && (last.Some? ==> Bit(last.value.flags, 1))
  }

  lemma AddressStays(base: Word, calls: seq<MapCall>, v: Word)
    requires base % PAGE_SIZE == 0 && base + LOW_TABLES * PAGE_SIZE <= WORD_LIMIT
    ensures AfterCalls(base, calls).StaysAt(v) <==> v < MAPPED_END && PageStays(calls, PageOf(v))
    ensures AfterCalls(base, calls).UnmovedAt(v) <==> v < MAPPED_END && PageUnmoved(calls, PageOf(v))
  {
    hide Tables.Translate, LastCall, AfterCalls, Entry, Bit;
    TablesRefineAddressMap(base, calls, v);
  }

  /** Exactly when the addresses of a range still stand for themselves after some calls. */
  lemma UnmovedExactly(base: Word, calls: seq<MapCall>, lo: nat, hi: nat)
    requires base % PAGE_SIZE == 0 && base + LOW_TABLES * PAGE_SIZE <= WORD_LIMIT
    requires hi <= WORD_LIMIT
    ensures AfterCalls(base, calls).Unmoved(lo, hi) <==>
            lo >= hi || (hi <= MAPPED_END && forall v: Word | lo <= v < hi :: PageUnmoved(calls, PageOf(v)))
  {
    hide Tables.UnmovedAt, PageUnmoved, AfterCalls;
    var t := AfterCalls(base, calls);
    forall v: Word
      ensures t.UnmovedAt(v) <==> v < MAPPED_END && PageUnmoved(calls, PageOf(v))
    {
      AddressStays(base, calls, v);
    }
    if lo < hi && t.Unmoved(lo, hi) {
      assert t.UnmovedAt(hi - 1);
    }
  }

  function PageOf(v: Word): nat
  {
    v / PAGE_SIZE
  }

  /** After these calls, the page of the directory keeps its place, and so does that of the page's low table. */
  predicate Reaches(calls: seq<MapCall>, base: Word, directoryBase: Word, virtual: Word)
    requires base + LOW_TABLES * PAGE_SIZE <= WORD_LIMIT
  {
    && directoryBase < MAPPED_END && PageStays(calls, PageOf(directoryBase))
    && (virtual < MAPPED_END ==>
          var table := base + virtual / 0x40_0000 * PAGE_SIZE;
          table < MAPPED_END && PageUnmoved(calls, PageOf(table)))
  }

  /** Exactly when a further call lands, and where its store goes in any case. */
  lemma LandsExactly(base: Word, calls: seq<MapCall>, directoryBase: Word, virtual: Word)
    requires base % PAGE_SIZE == 0 && base + LOW_TABLES * PAGE_SIZE <= WORD_LIMIT
    requires directoryBase % PAGE_SIZE == 0 && directoryBase + PAGE_SIZE <= WORD_LIMIT
    ensures var t := AfterCalls(base, calls);
            && (t.Lands(true, directoryBase, virtual) <==> Reaches(calls, base, directoryBase, virtual))
            && t.StoreOf(true, virtual) ==
               if virtual >= MAPPED_END then NoTable
               else
                 var to := AddressMap(calls, base + 4 * (virtual / PAGE_SIZE));
                 if to.Mapped? && to.writable then At(to.physical) else Faulted
  {
    hide Tables.Translate, Tables.StaysAt, Tables.UnmovedAt, AfterCalls, PageStays, PageUnmoved, AddressMap;
    var entry := directoryBase + 4 * (virtual / 0x40_0000);
    AddressStays(base, calls, entry);
    assert PageOf(entry) == PageOf(directoryBase);
    InitialTablesAreLinked(base);
    if virtual < MAPPED_END {
      var slot := base + 4 * (virtual / PAGE_SIZE);
      AddressStays(base, calls, slot);
      TablesRefineAddressMap(base, calls, slot);
      assert PageOf(slot) == PageOf(base + virtual / 0x40_0000 * PAGE_SIZE);
    }
  }

  /** A call that moves the page of table 0 makes every later call for the first 4 MB miss it. */
  lemma RemappedTableIsMissed(virtual: Word)
    requires virtual < 0x40_0000
    ensures var t := AfterCalls(0x10_1000, [MapCall(0x10_1000, 0x50_0000, 7)]);
            && !t.Lands(true, 0x10_0000, virtual)
            && t.StoreOf(true, virtual) == At(0x50_0000 + 4 * (virtual / PAGE_SIZE))
  {
    hide Tables.Translate, AfterCalls, Entry;
    var call := MapCall(0x10_1000, 0x50_0000, 7);
    LandsExactly(0x10_1000, [call], 0x10_0000, virtual);
    FlagsOfEntry(0x50_0000, 7);
    assert Bit(7, 0) && Bit(7, 1);
    assert LastCall([call], 0x101) == Some(call);
    assert PageOf(0x10_1000 + 4 * (virtual / PAGE_SIZE)) == 0x101;
  }

  // ---------- paging.c ----------

  class Mmu {
    const kernelPageDirectory: array<Word>
    const lowKernelTables: array<Word>  // [3][1024], row after row
    const base: Word                    // the address of lowKernelTables
    const directoryBase: Word           // the address of kernelPageDirectory
    var pagingOn: bool                  // CR0.PG with CR3 at the directory

    ghost predicate Valid()
      reads this, kernelPageDirectory, lowKernelTables
    {
      Linkable() && State().Linked()
    }

    /** Directory and tables are page-aligned and apart, whatever they hold. */
    ghost predicate Linkable()
      reads this, kernelPageDirectory, lowKernelTables
    {
      && kernelPageDirectory != lowKernelTables
      && kernelPageDirectory.Length == ENTRIES_PER_TABLE && lowKernelTables.Length == LOW_ENTRIES
      && directoryBase % PAGE_SIZE == 0 && directoryBase + PAGE_SIZE <= WORD_LIMIT
      && State().Valid()
      && (directoryBase + PAGE_SIZE <= base || base + LOW_TABLES * PAGE_SIZE <= directoryBase)
    }

    function State(): Tables
      reads this, kernelPageDirectory, lowKernelTables
    {
      Tables(kernelPageDirectory[..], lowKernelTables[..], base)
    }

    /** Static storage: nothing is present, and paging is off. */
    constructor (base: Word, directoryBase: Word)
      requires base % PAGE_SIZE == 0 && base + LOW_TABLES * PAGE_SIZE <= WORD_LIMIT
      requires directoryBase % PAGE_SIZE == 0 && directoryBase + PAGE_SIZE <= WORD_LIMIT
      requires directoryBase + PAGE_SIZE <= base || base + LOW_TABLES * PAGE_SIZE <= directoryBase
      ensures Valid() && !pagingOn && this.base == base && this.directoryBase == directoryBase
      ensures fresh(kernelPageDirectory) && fresh(lowKernelTables)
      ensures forall d | 0 <= d < ENTRIES_PER_TABLE :: State().directory[d] == 0
    {
      this.base, this.directoryBase := base, directoryBase;
      kernelPageDirectory := new Word[ENTRIES_PER_TABLE](_ => 0);
      lowKernelTables := new Word[LOW_ENTRIES](_ => 0);
      pagingOn := false;
    }

    /**
     * The directory must be where the code looks for it and the store must not hit it; whether the store
     * lands, goes elsewhere or faults is part of the result.
     */
    method MapPage(virtualAddr: Word, physicalAddr: Word, flags: Word) returns (store: Store)
      requires Valid()
      requires pagingOn ==> State().StaysAt(directoryBase + 4 * (virtualAddr / 0x40_0000))
      requires var s := State().StoreOf(pagingOn, virtualAddr);
               s.At? ==> !(directoryBase <= s.address < directoryBase + PAGE_SIZE)
      modifies lowKernelTables
      ensures Valid()
      ensures store == old(State()).StoreOf(pagingOn, virtualAddr)
      ensures State() == old(State()).Stored(store, Entry(physicalAddr, flags))
    {
      hide Tables.Translate, Entry;
      var dirIndex := virtualAddr / 0x40_0000;
      var tableIndex := virtualAddr / PAGE_SIZE % ENTRIES_PER_TABLE;
      var entry := Physical(State(), pagingOn, directoryBase + 4 * dirIndex);
      var pde := kernelPageDirectory[(entry - directoryBase) / 4];
      if !Present(pde) {
        return NoTable;
      }
      assert Present(State().directory[dirIndex]);
      var slot := FrameOf(pde) + 4 * tableIndex;
      assert slot == State().SlotAddress(virtualAddr);
      if pagingOn && !CanStore(State(), slot) {
        return Faulted;
      }
      var target := Physical(State(), pagingOn, slot);
      if base <= target < base + LOW_TABLES * PAGE_SIZE {
        lowKernelTables[(target - base) / 4] := Entry(physicalAddr, flags);
      }
      return At(target);
    }

    /** Any calls of which each lands after those before it. */
    method MapEach(calls: seq<MapCall>)
      requires Valid() && pagingOn && State() == InitialTables(base)
      requires forall i | 0 <= i < |calls| :: Reaches(calls[..i], base, directoryBase, calls[i].virtual)
      modifies lowKernelTables
      ensures Valid()
      ensures State() == AfterCalls(base, calls)
    {
      hide Tables.Translate, Reaches, Tables.Map, Tables.Linked, Tables.Lands, Tables.StoreOf, Tables.Stored;
      for i := 0 to |calls|
        invariant Valid()
        invariant State() == AfterCalls(base, calls[..i])
      {
        assert calls[..i + 1][..i] == calls[..i];
        LandsExactly(base, calls[..i], directoryBase, calls[i].virtual);
        LandedStoreMaps(State(), true, directoryBase, calls[i]);
        LandedStoreIsApart(State(), true, calls[i].virtual);
        var _ := MapPage(calls[i].virtual, calls[i].physical, calls[i].flags);
      }
      assert calls[..|calls|] == calls;
    }

    /** A store that lands does not hit the directory. */
    lemma LandedStoreIsApart(t: Tables, on: bool, virtual: Word)
      requires t.Valid() && t.Linked() && t.base == base && directoryBase + PAGE_SIZE <= WORD_LIMIT
      requires directoryBase + PAGE_SIZE <= base || base + LOW_TABLES * PAGE_SIZE <= directoryBase
      requires t.Lands(on, directoryBase, virtual)
      ensures on ==> t.StaysAt(directoryBase + 4 * (virtual / 0x40_0000))
      ensures var s := t.StoreOf(on, virtual);
              s.At? ==> base <= s.address < base + LOW_TABLES * PAGE_SIZE &&
                        !(directoryBase <= s.address < directoryBase + PAGE_SIZE)
    {
      hide Tables.Translate;
    }

    /** The call is for another page than those of directory and tables, or puts the page where it is. */
    predicate Spares(c: MapCall)
      reads this
    {
      var page := c.virtual / PAGE_SIZE;
      base <= page * PAGE_SIZE < base + LOW_TABLES * PAGE_SIZE || page * PAGE_SIZE == directoryBase ==>
        Bit(c.flags, 0) && Bit(c.flags, 1) && c.Frame() == page * PAGE_SIZE
    }

    /** After calls that spare these pages, every call lands. */
    lemma SparingCallsReach(calls: seq<MapCall>, virtual: Word)
      requires base % PAGE_SIZE == 0 && directoryBase % PAGE_SIZE == 0
      requires base + LOW_TABLES * PAGE_SIZE <= MAPPED_END && directoryBase + PAGE_SIZE <= MAPPED_END
      requires forall c | c in calls :: Spares(c)
      ensures Reaches(calls, base, directoryBase, virtual)
    {
      LastCallIsACall(calls, PageOf(directoryBase));
      if virtual < MAPPED_END {
        LastCallIsACall(calls, PageOf(base + virtual / 0x40_0000 * PAGE_SIZE));
      }
    }

    method InitPaging()
      requires Linkable()
      modifies kernelPageDirectory, lowKernelTables, `pagingOn
      ensures Valid() && pagingOn
      ensures State() == InitialTables(base)
    {
      for i := 0 to ENTRIES_PER_TABLE
        invariant forall k | 0 <= k < i :: kernelPageDirectory[k] == PAGE_WRITE
      {
        kernelPageDirectory[i] := PAGE_WRITE;
      }
      for t := 0 to LOW_TABLES
        invariant forall k | 0 <= k < ENTRIES_PER_TABLE :: kernelPageDirectory[k] == PAGE_WRITE
      {
        for i := 0 to ENTRIES_PER_TABLE
          invariant forall k | 0 <= k < ENTRIES_PER_TABLE :: kernelPageDirectory[k] == PAGE_WRITE
        {
          lowKernelTables[t * ENTRIES_PER_TABLE + i] := 0;
        }
      }
      for t := 0 to LOW_TABLES
        invariant forall k | 0 <= k < t :: kernelPageDirectory[k] == base + k * PAGE_SIZE + 7
        invariant forall k | t <= k < ENTRIES_PER_TABLE :: kernelPageDirectory[k] == PAGE_WRITE
        invariant forall k | 0 <= k < t * ENTRIES_PER_TABLE :: lowKernelTables[k] == k * PAGE_SIZE + 3
      {
        kernelPageDirectory[t] := base + t * PAGE_SIZE + (PAGE_PRESENT + PAGE_WRITE + PAGE_USER);
        for i := 0 to ENTRIES_PER_TABLE
          invariant forall k | 0 <= k <= t :: kernelPageDirectory[k] == base + k * PAGE_SIZE + 7
          invariant forall k | t < k < ENTRIES_PER_TABLE :: kernelPageDirectory[k] == PAGE_WRITE
          invariant forall k | 0 <= k < t * ENTRIES_PER_TABLE + i :: lowKernelTables[k] == k * PAGE_SIZE + 3
        {
          var physicalAddress := (t * ENTRIES_PER_TABLE + i) * PAGE_SIZE;
          lowKernelTables[t * ENTRIES_PER_TABLE + i] := physicalAddress + (PAGE_PRESENT + PAGE_WRITE);
        }
      }
      pagingOn := true;
      assert kernelPageDirectory[..] == InitialTables(base).directory;
      assert lowKernelTables[..] == InitialTables(base).low;
      InitialTablesAreLinked(base);
    }
  }
}
