/** Conservation of pages over every run of allocations and frees after boot. */
module AllocatorRuns {
  import opened Words
  import opened Pmm

  datatype Op = Alloc(count: Word) | Release(start: nat, count: Word)

  /** The free pages, and for each successful allocation the pages it still holds. */
  datatype Heap = Heap(free: set<nat>, blocks: seq<set<nat>>)
  {
    ghost predicate IsLive(p: nat)
    {
      exists i :: 0 <= i < |blocks| && p in blocks[i]
    }
  }

  ghost function LeastFit(free: set<nat>, count: nat): (start: nat)
    requires Fits(free, count)
    ensures IsFirstFit(free, count, start)
  {
    var s: nat :| FreeRun(free, s, count);
    LeastFitBelow(free, count, s)
  }

  ghost function LeastFitBelow(free: set<nat>, count: nat, s: nat): (start: nat)
    requires FreeRun(free, s, count)
    ensures IsFirstFit(free, count, start)
    decreases s
  {
    if t: nat :| t < s && FreeRun(free, t, count) then LeastFitBelow(free, count, t) else s
  }

  ghost predicate Legal(h: Heap, op: Op)
  {
    match op
    case Alloc(_) => true
    case Release(start, count) => forall p | p in Pages(start, count) :: h.IsLive(p)
  }

  ghost function Step(h: Heap, op: Op): Heap
  {
    match op
    case Alloc(count) =>
      if count > 0 && Fits(h.free, count) then
        var block := Pages(LeastFit(h.free, count), count);
        Heap(h.free - block, h.blocks + [block])
      else
        h
    case Release(start, count) =>
      Heap(h.free + Pages(start, count),
           seq(|h.blocks|, i requires 0 <= i < |h.blocks| => h.blocks[i] - Pages(start, count)))
  }

  ghost function Run(h: Heap, ops: seq<Op>): Heap
    decreases |ops|
  {
    if ops == [] then h else Run(Step(h, ops[0]), ops[1..])
  }

  ghost predicate LegalRun(h: Heap, ops: seq<Op>)
    decreases |ops|
  {
    ops == [] || (Legal(h, ops[0]) && LegalRun(Step(h, ops[0]), ops[1..]))
  }

  /** Free pages and live blocks partition the pages that were free after boot. */
  ghost predicate Conserved(h: Heap, boot: set<nat>)
  {
    && (forall p | p in h.free :: p in boot)
    && (forall i, p | 0 <= i < |h.blocks| && p in h.blocks[i] :: p in boot && p !in h.free)
    && (forall i, j, p | 0 <= i < j < |h.blocks| && p in h.blocks[i] :: p !in h.blocks[j])
    && (forall p | p in boot :: p in h.free || h.IsLive(p))
  }

  lemma StepConserves(h: Heap, op: Op, boot: set<nat>)
    requires Conserved(h, boot) && Legal(h, op)
    ensures Conserved(Step(h, op), boot)
  {
    var g := Step(h, op);
    match op {
      case Alloc(count) =>
        if count > 0 && Fits(h.free, count) {
          var block := g.blocks[|h.blocks|];
          forall p | p in boot
            ensures p in g.free || g.IsLive(p)
          {
            if p in block {
              assert p in g.blocks[|h.blocks|];
            } else if p !in h.free {
              var i :| 0 <= i < |h.blocks| && p in h.blocks[i];
              assert p in g.blocks[i];
            }
          }
          assert forall p | p in block :: InRun(p, LeastFit(h.free, count), count) && p in h.free;
        }
      case Release(start, count) =>
        forall p | p in boot
          ensures p in g.free || g.IsLive(p)
        {
          if p !in h.free && p !in Pages(start, count) {
            var i :| 0 <= i < |h.blocks| && p in h.blocks[i];
            assert p in g.blocks[i];
          }
        }
    }
  }

  /** Every legal run keeps the partition. */
  lemma {:induction false} RunConserves(h: Heap, ops: seq<Op>, boot: set<nat>)
    requires Conserved(h, boot) && LegalRun(h, ops)
    ensures Conserved(Run(h, ops), boot)
    decreases |ops|
  {
    if ops != [] {
      StepConserves(h, ops[0], boot);
      RunConserves(Step(h, ops[0]), ops[1..], boot);
    }
  }

  lemma HeldPagesAreBootPages(h: Heap, boot: set<nat>, p: nat)
    requires Conserved(h, boot) && (p in h.free || h.IsLive(p))
    ensures p in boot
  {
    if p !in h.free {
      var i :| 0 <= i < |h.blocks| && p in h.blocks[i];
    }
  }

  /**
   * From boot on, whatever is allocated and freed: live blocks are disjoint, hold no page below the
   * reserved line and no page of a reserved range, and free and live pages are exactly the boot set.
   */
  lemma NoRunTouchesReservedPages(memSize: Word, kernelEnd: Word, entries: seq<MmapEntry>, ops: seq<Op>)
    requires kernelEnd <= WORD_LIMIT - PAGE_SIZE
    requires LegalRun(Heap(AfterMmap(BootFree(memSize, kernelEnd), entries), []), ops)
    ensures var boot := AfterMmap(BootFree(memSize, kernelEnd), entries);
            var h := Run(Heap(boot, []), ops);
            && Conserved(h, boot)
            && forall p: nat | p in h.free || h.IsLive(p) ::
                 && PagesFor(Max(kernelEnd, ONE_MEGABYTE)) <= p < Min(PagesFor(memSize), BITMAP_SIZE)
                 && 0 < p
                 && forall e | e in entries :: p !in e.Locked()
  {
    var boot := AfterMmap(BootFree(memSize, kernelEnd), entries);
    RunConserves(Heap(boot, []), ops, boot);
    var h := Run(Heap(boot, []), ops);
    hide AfterMmap, BootFree, Run, LegalRun;
    forall p: nat | p in h.free || h.IsLive(p)
      ensures p in boot
    {
      HeldPagesAreBootPages(h, boot, p);
    }
    forall p: nat | p in boot
      ensures PagesFor(Max(kernelEnd, ONE_MEGABYTE)) <= p < Min(PagesFor(memSize), BITMAP_SIZE)
      ensures forall e | e in entries :: p !in e.Locked()
    {
      MmapPassIsExact(BootFree(memSize, kernelEnd), entries, p);
      BootBitmapIsExact(memSize, kernelEnd, p);
    }
  }

  /** An allocation followed by the release of what it returned restores the free set. */
  lemma ReleaseUndoesAlloc(h: Heap, count: Word)
    requires count > 0 && Fits(h.free, count)
    ensures var start := LeastFit(h.free, count);
            Run(h, [Alloc(count), Release(start, count)]).free == h.free
  {
    var start := LeastFit(h.free, count);
    var g := Step(h, Alloc(count));
    assert [Alloc(count), Release(start, count)][1..] == [Release(start, count)];
    assert Run(g, [Release(start, count)]) == Step(g, Release(start, count));
    assert forall p | p in Pages(start, count) :: InRun(p, start, count) && p in h.free;
    assert h.free - Pages(start, count) + Pages(start, count) == h.free;
  }

  /** The bitmap code, driven through a run, always holds the free set of the abstract heap. */
  method Execute(pages: PageAllocator, ops: seq<Op>, ghost blocks: seq<set<nat>>)
    requires pages.Valid()
    requires LegalRun(Heap(pages.Free(), blocks), ops)
    requires forall op | op in ops :: op.Release? ==> op.start + op.count <= BITMAP_SIZE
    modifies pages.bitmap
    ensures pages.Free() == old(Run(Heap(pages.Free(), blocks), ops).free)
  {
    ghost var h := Heap(pages.Free(), blocks);
    var k := 0;
    while k < |ops|
      invariant 0 <= k <= |ops|
      invariant h.free == pages.Free() && LegalRun(h, ops[k..])
      invariant Run(h, ops[k..]) == old(Run(Heap(pages.Free(), blocks), ops))
    {
      assert ops[k..][1..] == ops[k + 1..] && ops[k] in ops;
      match ops[k] {
        case Alloc(count) =>
          var addr := pages.AllocPages(count);
          if count > 0 && Fits(h.free, count) {
            FirstFitIsUnique(h.free, count, addr / PAGE_SIZE, LeastFit(h.free, count));
          }
        case Release(start, count) =>
          FreedPagesOfARun(start, count);
          pages.FreePages(start * PAGE_SIZE, count);
      }
      h := Step(h, ops[k]);
      k := k + 1;
    }
  }
}
