/** `struct mmu_gather` updated in place, as the inline functions of
    include/asm-generic/tlb.h do.

    The invariant `Valid()` is that of module `MmuSafety`: whatever the hardware still caches is
    installed or about to be flushed, and no freed page is cached. Every method keeps it, and
    each public one is a step of the state machine whose runs `MmuSafety` reasons about. */
module MmuGatherObject {
  import opened Bits
  import opened Spec = MmuGather
  import Safety = MmuSafety

  class MmuGather {
    const c: Config
    var start: u64
    var end: u64
    var fullmm: bool
    var needFlushAll: bool
    var freedTables: bool
    var clearedPtes: bool
    var clearedPmds: bool
    var clearedPuds: bool
    var clearedP4ds: bool
    var vmaExec: bool
    var vmaHuge: bool
    var vmaPfn: bool
    var pageSize: u32
    var batch: seq<Page>
    ghost var tlb: set<Entry>      // what the hardware still caches
    ghost var freed: set<Page>
    ghost var ptes: set<Entry>     // what the page tables still hold
    ghost var inVma: bool
    ghost var vma: Vma             // the VMA opened last
    ghost var levels: set<Level>   // cleared since the last flush

    function Fields(): Gather
      reads this
    {
      Gather(start, end, fullmm, needFlushAll, freedTables, clearedPtes, clearedPmds,
             clearedPuds, clearedP4ds, vmaExec, vmaHuge, vmaPfn, pageSize)
    }

    ghost function View(): Mmu
      reads this
    {
      Mmu(Fields(), tlb, batch, freed)
    }

    ghost function World(): Safety.World
      reads this
    {
      Safety.World(c, View(), ptes, inVma, vma, levels)
    }

    ghost predicate Valid()
      reads this
    {
      Safety.Sound(World())
    }

    constructor (c: Config, fullmm: bool, ghost ptes: set<Entry>)
      requires Safety.GoodStart(c, ptes)
      ensures World() == Safety.Init(c, fullmm, ptes) && Valid()
    {
      this.c := c;
      this.fullmm := fullmm;
      needFlushAll, freedTables := false, false;
      clearedPtes, clearedPmds, clearedPuds, clearedP4ds := false, false, false, false;
      vmaExec, vmaHuge, vmaPfn, pageSize := false, false, false, 0;
      start := if fullmm then 0xffff_ffff_ffff_ffff else c.taskSize;
      end := if fullmm then 0xffff_ffff_ffff_ffff else 0;
      batch := [];
      tlb, freed, this.ptes, inVma, vma, levels := ptes, {}, ptes, false, Vma(false, false, false), {};
    }

    /** `__tlb_adjust_range`: the smallest range that covers the old one and the interval, whose
        size is truncated to 32 bits. */
    method AdjustRange(address: u64, rangeSize: u64)
      requires Valid()
      modifies this`start, this`end
      ensures Valid() && Fields() == Spec.AdjustRange(old(Fields()), address, rangeSize)
      ensures start <= old(start) && start <= address && start in {old(start), address}
      ensures end >= old(end) && end >= U64(address + U32(rangeSize)) && end in {old(end), U64(address + U32(rangeSize))}
    {
      Safety.AdjustKeeps(World(), address, rangeSize);
      Widen(address, rangeSize);
    }

    method Widen(address: u64, rangeSize: u64)
      modifies this`start, this`end
      ensures Fields() == Spec.AdjustRange(old(Fields()), address, rangeSize)
    {
      var size: u32 := U32(rangeSize);
      if address < start { start := address; }
      var last := U64(address + size);
      if last > end { end := last; }
    }

    /** `__tlb_reset_range`, called when nothing stale is left: no flag is set, and the next
        interval recorded becomes the range. With fullmm the range stays one that is flushed. */
    method ResetRange()
      requires Valid() && tlb <= ptes
      modifies this`start, this`end, this`freedTables, this`levels,
               this`clearedPtes, this`clearedPmds, this`clearedPuds, this`clearedP4ds
      ensures Valid() && Fields() == Spec.ResetRange(c, old(Fields())) && levels == {}
      ensures Forgotten(c, old(Fields()), Fields())
    {
      Safety.ResetKeeps(World());
      ResetForgets(c, Fields());
      Forget();
      levels := {};
    }

    method Forget()
      requires ValidConfig(c)
      modifies this`start, this`end, this`freedTables,
               this`clearedPtes, this`clearedPmds, this`clearedPuds, this`clearedP4ds
      ensures Fields() == Spec.ResetRange(c, old(Fields()))
    {
      EmptyRange();
      ClearFlags();
    }

    method EmptyRange()
      requires ValidConfig(c)
      modifies this`start, this`end
      ensures if fullmm then start == end == 0xffff_ffff_ffff_ffff else start == c.taskSize && end == 0
    {
      if fullmm {
        start, end := 0xffff_ffff_ffff_ffff, 0xffff_ffff_ffff_ffff;
      } else {
        start, end := c.taskSize, 0;
      }
    }

    method ClearFlags()
      modifies this`freedTables, this`clearedPtes, this`clearedPmds, this`clearedPuds, this`clearedP4ds
      ensures Fields() == old(Fields()).(freedTables := false, clearedPtes := false,
                                         clearedPmds := false, clearedPuds := false, clearedP4ds := false)
    {
      freedTables := false;
      clearedPtes := false;
      clearedPmds := false;
      clearedPuds := false;
      clearedP4ds := false;
    }

    /** `tlb_flush`: whatever is cached afterwards is installed. */
    method Flush()
      requires Valid()
      modifies this`tlb
      ensures Valid() && tlb == FlushTlb(c, Fields(), old(tlb)) && tlb <= ptes && tlb <= old(tlb)
    {
      Safety.FlushKeeps(World());
      Invalidate();
    }

    method Invalidate()
      modifies this`tlb
      ensures tlb == FlushTlb(c, Fields(), old(tlb))
    {
      if c.noRange {
        if end != 0 { FlushMm(); }
      } else if fullmm || needFlushAll {
        FlushMm();
      } else if end != 0 {
        FlushRange();
      }
    }

    /** `flush_tlb_mm`: the hardware forgets everything. */
    method FlushMm()
      modifies this`tlb
      ensures tlb == {}
    {
      tlb := {};
    }

    /** `flush_tlb_range` over [start, end) with the VMA flags of the gather. */
    method FlushRange()
      modifies this`tlb
      ensures tlb == set e | e in old(tlb) && !RangeFlushes(c, Fields(), e)
    {
      tlb := set e | e in tlb && !RangeFlushes(c, Fields(), e);
    }

    /** `tlb_flush_mmu_tlbonly`: nothing stale is left, also when it returns early. */
    method FlushTlbOnly()
      requires Valid()
      modifies this
      ensures Valid() && World() == Safety.Next(old(World()), Safety.FlushOnly)
      ensures tlb <= ptes && !AnyRecorded(Fields())
      ensures !AnyRecorded(old(Fields())) ==> View() == old(View())
    {
      Safety.FlushOnlyOutcome(World());
      if !(freedTables || clearedPtes || clearedPmds || clearedPuds || clearedP4ds) {
        Safety.NothingRecorded(World());
        return;
      }
      FlushAndReset();
    }

    method FlushAndReset()
      requires Valid() && AnyRecorded(Fields())
      modifies this
      ensures World() == Safety.Next(old(World()), Safety.FlushOnly)
    {
      Flush();
      ResetRange();
    }

    /** `tlb_flush_mmu`: frees whatever is batched, and no freed page is still cached. */
    method FlushMmu()
      requires Valid()
      modifies this
      ensures Valid() && World() == Safety.Next(old(World()), Safety.FlushAndFree)
      ensures Safety.AllFreed(old(World()), World())
    {
      Safety.FlushFrees(World());
      FlushTlbOnly();
      FreeBatch();
    }

    method FreeBatch()
      modifies this`freed, this`batch
      ensures freed == old(freed) + (set p | p in old(batch)) && batch == []
    {
      freed := freed + set p | p in batch;
      batch := [];
    }

    /** `tlb_remove_page_size` of a page nothing maps any more; `full` is what
        `__tlb_remove_page_size` answers. The page is queued or already safely freed. */
    method RemovePageSize(page: Page, full: bool)
      requires Valid() && Safety.Unhooked(World(), page) && page !in freed
      modifies this
      ensures Valid() && World() == Safety.Next(old(World()), Safety.Queue(page, full))
      ensures Safety.QueuedOrFreed(old(World()), World(), page, full)
    {
      Safety.QueueOutcome(World(), page, full);
      Append(page);
      if full { FlushMmu(); }
    }

    /** `__tlb_remove_page_size` */
    method Append(page: Page)
      requires Valid() && Safety.Unhooked(World(), page) && page !in freed
      modifies this`batch
      ensures Valid() && World() == Safety.Next(old(World()), Safety.Queue(page, false))
    {
      Safety.QueueOutcome(World(), page, false);
      batch := batch + [page];
    }

    /** `tlb_change_page_size`: no page queued under another size stays in the batch, unless
        everything is going to be flushed anyway. */
    method ChangePageSize(size: u32)
      requires Valid()
      modifies this
      ensures Valid() && World() == Safety.Next(old(World()), Safety.ChangeSize(size))
      ensures Safety.BatchOfSize(old(World()), World(), size)
    {
      Safety.ChangeSizeSeparates(World(), size);
      if c.trackPageSize {
        if pageSize != 0 && pageSize != size {
          if !fullmm && !needFlushAll { FlushMmu(); }
        }
        SetPageSize(size);
      }
    }

    method SetPageSize(size: u32)
      modifies this`pageSize
      ensures Fields() == old(Fields()).(pageSize := size)
    {
      pageSize := size;
    }

    /** `tlb_start_vma`: from now on what is mapped in this VMA may be unmapped and recorded, and
        no stale translation of an earlier VMA depends on the flags that change. */
    method StartVma(v: Vma)
      requires Valid() && !inVma
      modifies this
      ensures Valid() && World() == Safety.Next(old(World()), Safety.Start(v))
      ensures Safety.VmaOpen(World(), v)
    {
      Safety.StartOpens(World(), v);
      if !fullmm { UpdateVmaFlags(v); }
      Enter(v);
    }

    ghost method Enter(v: Vma)
      modifies this`inVma, this`vma
      ensures inVma && vma == v
    {
      inVma, vma := true, v;
    }

    /** `tlb_update_vma_flags` */
    method UpdateVmaFlags(v: Vma)
      modifies this`vmaHuge, this`vmaExec, this`vmaPfn
      ensures Fields() == old(Fields()).(vmaHuge := v.huge, vmaExec := v.exec, vmaPfn := v.pfn)
    {
      vmaHuge := v.huge;
      vmaExec := v.exec;
      vmaPfn := v.pfn;
    }

    /** `tlb_end_vma`: if the open VMA is a PFN mapping, and wherever VMAs are kept apart, nothing
        stale is left; otherwise nothing is flushed. */
    method EndVma()
      requires Valid() && inVma
      modifies this
      ensures Valid() && World() == Safety.Next(old(World()), Safety.End)
      ensures Safety.VmaClosed(old(World()), World(), vma)
    {
      Safety.EndCloses(World());
      if !fullmm {
        if vmaPfn || !c.mergeVmas { FlushTlbOnly(); }
      }
      inVma := false;
    }

    /** `tlb_flush_{pte,pmd,pud,p4d}_range` after the entry e at that level was cleared: unless
        its size is lost to truncation, the next flush is sure to invalidate it. */
    method FlushLevelRange(l: Level, address: u64, size: u64, ghost e: Entry)
      requires Valid() && e.addr == address && e.size == size && Safety.MayUnmap(World(), e, FlushOf(l))
      modifies this`start, this`end, this`clearedPtes, this`clearedPmds, this`clearedPuds, this`clearedP4ds,
               this`ptes, this`levels
      ensures World() == Safety.Next(old(World()), Safety.Unmap(e, FlushOf(l)))
      ensures fullmm || Safety.Recordable(c, e) ==> Valid() && Safety.Pending(c, Fields(), e)
      ensures l in levels && Safety.LevelsRecorded(World())
    {
      LevelUnmapped(World(), e, l);
      RecordLevel(l, address, size);
      Unhook(e, FlushOf(l));
    }

    /** The page tables no longer hold e. */
    ghost method Unhook(e: Entry, r: Record)
      modifies this`ptes, this`levels
      ensures ptes == old(ptes) - {e} && levels == old(levels) + Levels(r)
    {
      ptes, levels := ptes - {e}, levels + Levels(r);
    }

    method RecordLevel(l: Level, address: u64, size: u64)
      modifies this`start, this`end, this`clearedPtes, this`clearedPmds, this`clearedPuds, this`clearedP4ds
      ensures Fields() == RecordUnmap(old(Fields()), FlushOf(l), address, size)
    {
      Widen(address, size);
      MarkIsCleared(Fields(), l);
      SetCleared(l);
    }

    /** The flag set by `tlb_flush_{pte,pmd,pud,p4d}_range`. */
    method SetCleared(l: Level)
      modifies this`clearedPtes, this`clearedPmds, this`clearedPuds, this`clearedP4ds
      ensures Fields() == Cleared(old(Fields()), l)
    {
      match l {
        case Pte => clearedPtes := true;
        case Pmd => clearedPmds := true;
        case Pud => clearedPuds := true;
        case P4d => clearedP4ds := true;
      }
    }

    /** `{pte,pmd,pud,p4d}_free_tlb` up to the call that queues the table page: the level above is
        the one whose entry, e, was cleared. Tables are small, so the next flush is sure to
        invalidate the cached pointer to it. */
    method FreeTableRange(table: Level, address: u64, size: u64, ghost e: Entry)
      requires Valid() && e.addr == address && e.size == size && e.table && e in ptes
      modifies this`start, this`end, this`freedTables, this`ptes, this`levels,
               this`clearedPtes, this`clearedPmds, this`clearedPuds, this`clearedP4ds
      ensures Valid() && World() == Safety.Next(old(World()), Safety.Unmap(e, FreeOf(table)))
      ensures Safety.Pending(c, Fields(), e) && freedTables
    {
      TableUnmapped(World(), e, table);
      RecordTable(table, address, size);
      Unhook(e, FreeOf(table));
    }

    method RecordTable(table: Level, address: u64, size: u64)
      modifies this`start, this`end, this`freedTables,
               this`clearedPtes, this`clearedPmds, this`clearedPuds, this`clearedP4ds
      ensures Fields() == RecordUnmap(old(Fields()), FreeOf(table), address, size)
    {
      if table == P4d {
        Widen(address, size);
      } else {
        RecordLevel(if table == Pte then Pmd else if table == Pmd then Pud else P4d, address, size);
      }
      SetFreedTables();
    }

    method SetFreedTables()
      modifies this`freedTables
      ensures Fields() == old(Fields()).(freedTables := true)
    {
      freedTables := true;
    }

    /** `tlb_get_unmap_size`: the size of the smallest level cleared since the last flush. */
    method GetUnmapSize() returns (size: nat)
      requires Valid()
      ensures Safety.SmallestSize(levels, size)
    {
      Safety.UnmapSizeOfLevels(World());
      var shift := UnmapShift(Fields());
      size := Pow2(shift);
    }
  }

  /** One more level recorded as cleared. */
  function Cleared(g: Gather, l: Level): Gather {
    g.(clearedPtes := g.clearedPtes || l == Pte, clearedPmds := g.clearedPmds || l == Pmd,
       clearedPuds := g.clearedPuds || l == Pud, clearedP4ds := g.clearedP4ds || l == P4d)
  }

  lemma MarkIsCleared(g: Gather, l: Level)
    ensures Mark(g, FlushOf(l)) == Cleared(g, l)
  {
    match l { case Pte => case Pmd => case Pud => case P4d => }
  }

  /** Nothing is recorded, and recording an interval makes that interval the range; with fullmm
      the range stays at the top, where it is always flushed. All else is as in g. */
  ghost predicate Forgotten(c: Config, g: Gather, g': Gather) {
    && !AnyRecorded(g')
    && (if g.fullmm then RangeIs(g', 0xffff_ffff_ffff_ffff, 0xffff_ffff_ffff_ffff)
        else forall address: u64, size: u64 :: address <= c.taskSize ==>
          RangeIs(Spec.AdjustRange(g', address, size), address, U64(address + U32(size))))
    && g'.fullmm == g.fullmm && g'.needFlushAll == g.needFlushAll && g'.pageSize == g.pageSize
    && g'.vmaExec == g.vmaExec && g'.vmaHuge == g.vmaHuge && g'.vmaPfn == g.vmaPfn
  }

  predicate RangeIs(g: Gather, start: nat, end: nat) { g.start == start && g.end == end }

  lemma ResetForgets(c: Config, g: Gather)
    requires ValidConfig(c)
    ensures Forgotten(c, g, Spec.ResetRange(c, g))
  {}

  /** The world after e was cleared and recorded with r. */
  ghost function Unmapped(w: Safety.World, e: Entry, r: Record): Safety.World
    requires Safety.ValidEntry(w.c, e) && ValidConfig(w.c)
  {
    w.(ptes := w.ptes - {e}, levels := w.levels + Levels(r), m := w.m.(g := RecordUnmap(w.m.g, r, e.addr, e.size)))
  }

  lemma LevelUnmapped(w: Safety.World, e: Entry, l: Level)
    requires Safety.Sound(w) && Safety.MayUnmap(w, e, FlushOf(l))
    ensures var w' := Unmapped(w, e, FlushOf(l));
      && w' == Safety.Next(w, Safety.Unmap(e, FlushOf(l))) && l in w'.levels && Safety.LevelsRecorded(w')
      && Levels(FlushOf(l)) == {l}
      && (w.m.g.fullmm || Safety.Recordable(w.c, e) ==> Safety.Sound(w') && Safety.Pending(w.c, w'.m.g, e))
  {
    Safety.UnmapOutcome(w, e, FlushOf(l));
  }

  lemma TableUnmapped(w: Safety.World, e: Entry, table: Level)
    requires Safety.Sound(w) && e.table && e in w.ptes
    ensures var w' := Unmapped(w, e, FreeOf(table));
      && w' == Safety.Next(w, Safety.Unmap(e, FreeOf(table)))
      && Safety.Sound(w') && Safety.Pending(w.c, w'.m.g, e) && w'.m.g.freedTables
  {
    Safety.UnmapOutcome(w, e, FreeOf(table));
  }
}
