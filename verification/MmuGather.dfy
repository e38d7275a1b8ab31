/** Batched TLB invalidation and page freeing (include/asm-generic/tlb.h).

    `Gather` is the part of `struct mmu_gather` the header itself updates. `Mmu` puts it
    next to what it acts on: the translations cached by the hardware, the pages queued for
    freeing and the pages freed. The functions below are the header's operations on that
    state; the class `MmuGather` in MmuGatherObject.dfy performs them in place.
 */
module MmuGather {
  import opened Bits

  type Page = nat

  /** The build-time choices of MMU_GATHER_NO_RANGE, MMU_GATHER_MERGE_VMAS and
      MMU_GATHER_PAGE_SIZE, and the architecture's TASK_SIZE. */
  datatype Config = Config(noRange: bool, mergeVmas: bool, trackPageSize: bool, taskSize: nat)

  /** MMU_GATHER_NO_RANGE implies MMU_GATHER_MERGE_VMAS. */
  predicate ValidConfig(c: Config) {
    (c.noRange ==> c.mergeVmas) && 0 < c.taskSize < 0xffff_ffff_ffff_ffff
  }

  datatype Gather = Gather(
    start: u64, end: u64,
    fullmm: bool, needFlushAll: bool, freedTables: bool,
    clearedPtes: bool, clearedPmds: bool, clearedPuds: bool, clearedP4ds: bool,
    vmaExec: bool, vmaHuge: bool, vmaPfn: bool,
    pageSize: u32)

  /** A cached translation, or a cached pointer into a page table: virtual addresses
      [addr, addr + size) resolve to `page`. `huge` says the mapping is in a hugetlb VMA. */
  datatype Entry = Entry(page: Page, addr: nat, size: nat, table: bool, huge: bool)

  datatype Mmu = Mmu(g: Gather, tlb: set<Entry>, batch: seq<Page>, freed: set<Page>)

  datatype Vma = Vma(huge: bool, exec: bool, pfn: bool)

  // ----- range bookkeeping

  /** `__tlb_adjust_range`: the size parameter is an `unsigned int`. */
  function AdjustRange(g: Gather, address: u64, size: u64): Gather {
    var end := U64(address + U32(size));
    g.(start := if address < g.start then address else g.start,
       end := if end > g.end then end else g.end)
  }

  /** `__tlb_reset_range` */
  function ResetRange(c: Config, g: Gather): Gather
    requires ValidConfig(c)
  {
    g.(start := if g.fullmm then 0xffff_ffff_ffff_ffff else c.taskSize,
       end := if g.fullmm then 0xffff_ffff_ffff_ffff else 0,
       freedTables := false, clearedPtes := false, clearedPmds := false,
       clearedPuds := false, clearedP4ds := false)
  }

  /** Which operation records an unmapping. */
  datatype Record =
    | FlushPte | FlushPmd | FlushPud | FlushP4d    // tlb_flush_{pte,pmd,pud,p4d}_range
    | FreePte | FreePmd | FreePud | FreeP4d        // {pte,pmd,pud,p4d}_free_tlb

  /** The flag updates of tlb_flush_*_range and *_free_tlb. */
  function Mark(g: Gather, r: Record): Gather {
    match r
    case FlushPte => g.(clearedPtes := true)
    case FlushPmd => g.(clearedPmds := true)
    case FlushPud => g.(clearedPuds := true)
    case FlushP4d => g.(clearedP4ds := true)
    case FreePte => g.(clearedPmds := true, freedTables := true)
    case FreePmd => g.(clearedPuds := true, freedTables := true)
    case FreePud => g.(clearedP4ds := true, freedTables := true)
    case FreeP4d => g.(freedTables := true)
  }

  function RecordUnmap(g: Gather, r: Record, address: u64, size: u64): Gather {
    Mark(AdjustRange(g, address, size), r)
  }

  predicate AnyRecorded(g: Gather) {
    g.freedTables || g.clearedPtes || g.clearedPmds || g.clearedPuds || g.clearedP4ds
  }

  // ----- flushing

  predicate Inside(e: Entry, start: nat, end: nat) { start <= e.addr && e.addr + e.size <= end }

  /** What `flush_tlb_range` must invalidate: everything inside the range, except that an
      architecture which keeps VMAs apart may look at VM_HUGETLB and flush only that kind. */
  predicate RangeFlushes(c: Config, g: Gather, e: Entry) {
    Inside(e, g.start, g.end) && (c.mergeVmas || e.table || e.huge == FlushFlags(g).huge)
  }

  /** VM_EXEC and VM_HUGETLB of the VMA that tlb_flush makes up for flush_tlb_range. */
  datatype VmFlags = VmFlags(exec: bool, huge: bool)

  function FlushFlags(g: Gather): VmFlags { VmFlags(g.vmaExec, g.vmaHuge) }

  /** `tlb_flush`, both variants: the translations left afterwards. */
  function FlushTlb(c: Config, g: Gather, tlb: set<Entry>): set<Entry> {
    if c.noRange then (if g.end != 0 then {} else tlb)
    else if g.fullmm || g.needFlushAll then {}
    else if g.end != 0 then set e | e in tlb && !RangeFlushes(c, g, e)
    else tlb
  }

  /** `tlb_flush_mmu_tlbonly` */
  function FlushTlbOnly(c: Config, m: Mmu): Mmu
    requires ValidConfig(c)
  {
    if !AnyRecorded(m.g) then m
    else m.(tlb := FlushTlb(c, m.g, m.tlb), g := ResetRange(c, m.g))
  }

  /** `tlb_flush_mmu`: invalidate, then free whatever is batched. */
  function FlushMmu(c: Config, m: Mmu): Mmu
    requires ValidConfig(c)
  {
    var f := FlushTlbOnly(c, m);
    f.(batch := [], freed := f.freed + set p | p in f.batch)
  }

  /** `tlb_remove_page_size`: queue a page; `full` is the answer of `__tlb_remove_page_size`. */
  function RemovePage(c: Config, m: Mmu, p: Page, full: bool): Mmu
    requires ValidConfig(c)
  {
    var q := m.(batch := m.batch + [p]);
    if full then FlushMmu(c, q) else q
  }

  /** `tlb_change_page_size` */
  function ChangePageSize(c: Config, m: Mmu, size: u32): Mmu
    requires ValidConfig(c)
  {
    if !c.trackPageSize then m
    else
      var f := if m.g.pageSize != 0 && m.g.pageSize != size && !m.g.fullmm && !m.g.needFlushAll
               then FlushMmu(c, m) else m;
      f.(g := f.g.(pageSize := size))
  }

  /** `tlb_start_vma` */
  function StartVma(m: Mmu, v: Vma): Mmu {
    if m.g.fullmm then m
    else m.(g := m.g.(vmaHuge := v.huge, vmaExec := v.exec, vmaPfn := v.pfn))
  }

  /** `tlb_end_vma` */
  function EndVma(c: Config, m: Mmu): Mmu
    requires ValidConfig(c)
  {
    if m.g.fullmm then m
    else if m.g.vmaPfn || !c.mergeVmas then FlushTlbOnly(c, m)
    else m
  }

  // ----- the levels

  datatype Level = Pte | Pmd | Pud | P4d

  /** PAGE_SHIFT, PMD_SHIFT, PUD_SHIFT and P4D_SHIFT on x86-64. */
  function Shift(l: Level): nat {
    match l case Pte => 12 case Pmd => 21 case Pud => 30 case P4d => 39
  }

  /** `tlb_get_unmap_shift` */
  function UnmapShift(g: Gather): nat {
    if g.clearedPtes then Shift(Pte)
    else if g.clearedPmds then Shift(Pmd)
    else if g.clearedPuds then Shift(Pud)
    else if g.clearedP4ds then Shift(P4d)
    else Shift(Pte)
  }

  /** `tlb_get_unmap_size` */
  function UnmapSize(g: Gather): nat { Pow2(UnmapShift(g)) }

  /** The level whose entries an operation clears, if it names one. */
  function Levels(r: Record): set<Level> {
    match r
    case FlushPte => {Pte}
    case FlushPmd => {Pmd}
    case FlushPud => {Pud}
    case FlushP4d => {P4d}
    case FreePte => {Pmd}
    case FreePmd => {Pud}
    case FreePud => {P4d}
    case FreeP4d => {}
  }

  /** The record made by `tlb_flush_*_range` at a level. */
  function FlushOf(l: Level): Record {
    match l case Pte => FlushPte case Pmd => FlushPmd case Pud => FlushPud case P4d => FlushP4d
  }

  /** The record made by `*_free_tlb` for a table of a level. */
  function FreeOf(l: Level): Record {
    match l case Pte => FreePte case Pmd => FreePmd case Pud => FreePud case P4d => FreeP4d
  }

  /** The record chosen by `tlb_remove_huge_tlb_entry` for a huge page of the given size. */
  function HugeRecord(size: u64): Record {
    if size >= 0x80_0000_0000 then FlushP4d
    else if size >= 0x4000_0000 then FlushPud
    else if size >= 0x20_0000 then FlushPmd
    else FlushPte
  }
}
