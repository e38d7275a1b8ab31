/** The ordering rule of include/asm-generic/tlb.h, over every run of a gather:
    unhook the page, invalidate its translations, and only then free it. */
module MmuSafety {
  import opened Bits
  import opened MmuGather
  import Runs

  /** A gather at work: the page-table entries still installed, whether the caller is between
      tlb_start_vma and tlb_end_vma, the VMA it toOpen last, and the levels cleared since the
      last flush. */
  datatype World = World(c: Config, m: Mmu, ptes: set<Entry>, inVma: bool, vma: Vma, levels: set<Level>)

  datatype Action =
    | Fill(e: Entry)                       // the hardware caches an installed entry
    | Evict(e: Entry)                      // the hardware drops a cached entry
    | Map(e: Entry)                        // a fault installs an entry
    | Unmap(e: Entry, r: Record)           // clear an entry and record it
    | Queue(p: Page, full: bool)           // tlb_remove_page of an unhooked page
    | FlushOnly
    | FlushAndFree
    | RequestFullFlush                     // architecture code sets need_flush_all
    | ChangeSize(size: u32)
    | Start(v: Vma)
    | End

  predicate ValidEntry(c: Config, e: Entry) {
    0 < e.size && e.addr + e.size <= c.taskSize && (e.table ==> e.size == 0x1000)
  }

  predicate FreesTable(r: Record) { r.FreePte? || r.FreePmd? || r.FreePud? || r.FreeP4d? }

  /** The caller's discipline: page tables are freed with *_free_tlb, other entries are
      recorded with tlb_flush_*_range inside the VMA they belong to. */
  predicate MayUnmap(w: World, e: Entry, r: Record) {
    && e in w.ptes && e.table == FreesTable(r)
    && (e.table || w.m.g.fullmm || (w.inVma && e.huge == w.vma.huge))
  }

  /** A page may be queued once nothing maps it any more. */
  predicate Unhooked(w: World, p: Page) { forall e :: e in w.ptes ==> e.page != p }

  function Init(c: Config, fullmm: bool, ptes: set<Entry>): World
    requires ValidConfig(c)
  {
    var g := Gather(0, 0, fullmm, false, false, false, false, false, false, false, false, false, 0);
    World(c, Mmu(ResetRange(c, g), ptes, [], {}), ptes, false, Vma(false, false, false), {})
  }

  function Next(w: World, a: Action): World {
    if !ValidConfig(w.c) then w
    else
      match a
      case Fill(e) => if e in w.ptes then w.(m := w.m.(tlb := w.m.tlb + {e})) else w
      case Evict(e) => w.(m := w.m.(tlb := w.m.tlb - {e}))
      case Map(e) =>
        if ValidEntry(w.c, e) && e.page !in w.m.batch && e.page !in w.m.freed
        then w.(ptes := w.ptes + {e}) else w
      case Unmap(e, r) =>
        if MayUnmap(w, e, r) && ValidEntry(w.c, e)
        then w.(ptes := w.ptes - {e}, levels := w.levels + Levels(r),
                m := w.m.(g := RecordUnmap(w.m.g, r, e.addr, e.size)))
        else w
      case Queue(p, full) =>
        if Unhooked(w, p) && p !in w.m.freed
        then w.(m := RemovePage(w.c, w.m, p, full), levels := if full then {} else w.levels) else w
      case FlushOnly => w.(m := FlushTlbOnly(w.c, w.m), levels := {})
      case FlushAndFree => w.(m := FlushMmu(w.c, w.m), levels := {})
      case RequestFullFlush => w.(m := w.m.(g := w.m.g.(needFlushAll := true)))
      case ChangeSize(size) =>
        var m := ChangePageSize(w.c, w.m, size);
        var flushed := w.c.trackPageSize && w.m.g.pageSize != 0 && w.m.g.pageSize != size
                       && !w.m.g.fullmm && !w.m.g.needFlushAll;
        w.(m := m, levels := if flushed then {} else w.levels)
      case Start(v) => if w.inVma then w else w.(m := StartVma(w.m, v), inVma := true, vma := v)
      case End =>
        if !w.inVma then w
        else if w.m.g.fullmm || (!w.m.g.vmaPfn && w.c.mergeVmas) then w.(m := EndVma(w.c, w.m), inVma := false)
        else w.(m := EndVma(w.c, w.m), inVma := false, levels := {})
  }

  function Exec(w: World, acts: seq<Action>): World { Runs.Exec(Next, w, acts) }

  /** No page is freed while a translation to it is cached. */
  ghost predicate Safe(w: World) { forall e :: e in w.m.tlb ==> e.page !in w.m.freed }

  // ----- the invariant

  /** The next flush is sure to happen and sure to reach this entry. */
  ghost predicate Pending(c: Config, g: Gather, e: Entry) {
    && AnyRecorded(g) && g.end != 0
    && (c.noRange || g.fullmm || g.needFlushAll || RangeFlushes(c, g, e))
  }

  ghost predicate Accounted(w: World) {
    forall e :: e in w.m.tlb ==> e in w.ptes || Pending(w.c, w.m.g, e)
  }

  /** Inside a VMA the gather has the flags of that VMA. */
  ghost predicate FlagsOfVma(w: World) {
    w.inVma && !w.m.g.fullmm ==> FlushFlags(w.m.g) == VmFlags(w.vma.exec, w.vma.huge) && w.m.g.vmaPfn == w.vma.pfn
  }

  ghost predicate Inv(w: World) {
    && ValidConfig(w.c) && (w.m.g.fullmm ==> w.m.g.end == 0xffff_ffff_ffff_ffff)
    && (forall e :: e in w.ptes ==> ValidEntry(w.c, e) && e.page !in w.m.freed && e.page !in w.m.batch)
    && Safe(w)
    && Accounted(w)
    && FlagsOfVma(w)
    // between VMAs an architecture that keeps VMAs apart has nothing but page tables pending
    && (!w.inVma && !w.m.g.fullmm && !w.c.mergeVmas ==> forall e :: e in w.m.tlb && !e.table ==> e in w.ptes)
  }

  // ----- flushing

  /** After tlb_flush_mmu_tlbonly, early return included, every cached translation is still
      installed. */
  lemma FlushLeavesInstalled(w: World)
    requires Inv(w)
    ensures forall e :: e in FlushTlbOnly(w.c, w.m).tlb ==> e in w.ptes && e in w.m.tlb
  {
    forall e | e in FlushTlbOnly(w.c, w.m).tlb
      ensures e in w.ptes && e in w.m.tlb
    {
      assert e in w.m.tlb;
    }
  }

  lemma FlushOnlyKeeps(w: World)
    requires Inv(w)
    ensures Inv(Next(w, FlushOnly))
  {
    FlushLeavesInstalled(w);
  }

  lemma FlushMmuKeeps(w: World, levels: set<Level>)
    requires Inv(w)
    ensures Inv(w.(m := FlushMmu(w.c, w.m), levels := levels))
  {
    FlushLeavesInstalled(w);
    var f := FlushMmu(w.c, w.m);
    forall e | e in w.ptes
      ensures e.page !in f.freed
    {
      assert e.page !in w.m.batch;
    }
  }

  // ----- recording

  /** __tlb_adjust_range takes the size as `unsigned int`. Recording an entry is enough if its
      size fits, or if any flush invalidates everything and the truncated range has an end. */
  predicate Recordable(c: Config, e: Entry) {
    e.size < 0x1_0000_0000 || (c.noRange && e.addr + U32(e.size) != 0)
  }

  /** The next flush reaches what was recorded. With fullmm that holds at every size. */
  lemma RecordCovers(c: Config, g: Gather, e: Entry, r: Record)
    requires ValidConfig(c) && ValidEntry(c, e)
    requires Recordable(c, e) || (g.fullmm && g.end == 0xffff_ffff_ffff_ffff)
    requires e.table || c.mergeVmas || e.huge == g.vmaHuge || g.fullmm
    ensures Pending(c, RecordUnmap(g, r, e.addr, e.size), e)
  {
    assert U32(e.size) <= e.size;
    assert U64(e.addr + U32(e.size)) == e.addr + U32(e.size);
  }

  /** Recording more only widens what is pending. */
  lemma RecordWidens(c: Config, g: Gather, address: u64, size: u64, r: Record, e: Entry)
    requires Pending(c, g, e)
    ensures Pending(c, RecordUnmap(g, r, address, size), e)
  {}

  lemma UnmapKeeps(w: World, e: Entry, r: Record)
    requires Inv(w) && (ValidEntry(w.c, e) ==> w.m.g.fullmm || Recordable(w.c, e))
    ensures Inv(Next(w, Unmap(e, r)))
  {
    if MayUnmap(w, e, r) && ValidEntry(w.c, e) {
      var w' := Next(w, Unmap(e, r));
      RecordCovers(w.c, w.m.g, e, r);
      forall f | f in w'.m.tlb
        ensures f in w'.ptes || Pending(w'.c, w'.m.g, f)
      {
        if f != e && f !in w.ptes { RecordWidens(w.c, w.m.g, e.addr, e.size, r, f); }
      }
    }
  }

  lemma QueueKeeps(w: World, p: Page, full: bool)
    requires Inv(w)
    ensures Inv(Next(w, Queue(p, full)))
  {
    if Unhooked(w, p) && p !in w.m.freed {
      var q := w.(m := w.m.(batch := w.m.batch + [p]));
      assert Inv(q);
      if full { FlushMmuKeeps(q, {}); }
    }
  }

  lemma StartKeeps(w: World, v: Vma)
    requires Inv(w)
    ensures Inv(Next(w, Start(v)))
  {}

  lemma EndKeeps(w: World)
    requires Inv(w)
    ensures Inv(Next(w, End))
  {
    FlushLeavesInstalled(w);
  }

  lemma ChangeSizeKeeps(w: World, size: u32)
    requires Inv(w)
    ensures Inv(Next(w, ChangeSize(size)))
  {
    FlushMmuKeeps(w, {});
  }

  lemma StepKeeps(w: World, a: Action)
    requires Inv(w) && (a.Unmap? && ValidEntry(w.c, a.e) ==> w.m.g.fullmm || Recordable(w.c, a.e))
    ensures Inv(Next(w, a))
  {
    match a
    case Unmap(e, r) => UnmapKeeps(w, e, r);
    case Queue(p, full) => QueueKeeps(w, p, full);
    case FlushOnly => FlushOnlyKeeps(w);
    case FlushAndFree => FlushMmuKeeps(w, {});
    case ChangeSize(size) => ChangeSizeKeeps(w, size);
    case Start(v) => StartKeeps(w, v);
    case End => EndKeeps(w);
    case _ =>
  }

  // ----- every run

  ghost predicate GoodStart(c: Config, ptes: set<Entry>) {
    ValidConfig(c) && forall e :: e in ptes ==> ValidEntry(c, e)
  }

  /** No recorded size is lost to the `unsigned int` parameter of __tlb_adjust_range. */
  ghost predicate SizesFit(c: Config, fullmm: bool, acts: seq<Action>) {
    fullmm || forall k :: 0 <= k < |acts| && acts[k].Unmap? && ValidEntry(c, acts[k].e) ==> Recordable(c, acts[k].e)
  }

  lemma {:induction false} RunInvariant(c: Config, fullmm: bool, ptes: set<Entry>, acts: seq<Action>)
    requires GoodStart(c, ptes) && SizesFit(c, fullmm, acts)
    ensures Inv(Exec(Init(c, fullmm, ptes), acts))
  {
    if acts != [] {
      var k := |acts| - 1;
      RunInvariant(c, fullmm, ptes, acts[..k]);
      ConfigFixed(Init(c, fullmm, ptes), acts[..k]);
      StepKeeps(Exec(Init(c, fullmm, ptes), acts[..k]), acts[k]);
    }
  }

  /** The ordering rule: in no run is a page freed while a translation to it is cached,
      whatever intermediate flushes, range resets and early returns happened. */
  lemma NeverFreedWhileCached(c: Config, fullmm: bool, ptes: set<Entry>, acts: seq<Action>)
    requires GoodStart(c, ptes) && SizesFit(c, fullmm, acts)
    ensures Safe(Exec(Init(c, fullmm, ptes), acts))
  {
    RunInvariant(c, fullmm, ptes, acts);
  }

  /** The early return of tlb_flush_mmu_tlbonly skips nothing: with no flag set, every
      cached translation is still installed. With some flag set, every stale one is in
      the range about to be flushed, or everything is flushed. */
  lemma StaleIsPending(c: Config, fullmm: bool, ptes: set<Entry>, acts: seq<Action>, e: Entry)
    requires GoodStart(c, ptes) && SizesFit(c, fullmm, acts)
    requires var w := Exec(Init(c, fullmm, ptes), acts); e in w.m.tlb && e !in w.ptes
    ensures var g := Exec(Init(c, fullmm, ptes), acts).m.g;
      AnyRecorded(g) && (Inside(e, g.start, g.end) || c.noRange || g.fullmm || g.needFlushAll)
  {
    RunInvariant(c, fullmm, ptes, acts);
    ConfigFixed(Init(c, fullmm, ptes), acts);
  }

  /** What tlb_update_vma_flags relies on: when a new VMA begins, no stale translation of
      the previous one is left whose flush would use the wrong flags. */
  lemma NothingStaleBetweenVmas(c: Config, ptes: set<Entry>, acts: seq<Action>, e: Entry)
    requires GoodStart(c, ptes) && SizesFit(c, false, acts) && !c.mergeVmas
    requires var w := Exec(Init(c, false, ptes), acts); !w.inVma && e in w.m.tlb && !e.table
    ensures e in Exec(Init(c, false, ptes), acts).ptes
  {
    RunInvariant(c, false, ptes, acts);
    ConfigFixed(Init(c, false, ptes), acts);
  }

  lemma {:induction false} ConfigFixed(w: World, acts: seq<Action>)
    ensures Exec(w, acts).c == w.c && Exec(w, acts).m.g.fullmm == w.m.g.fullmm
  {
    if acts != [] {
      var k := |acts| - 1;
      ConfigFixed(w, acts[..k]);
      ConfigStep(Exec(w, acts[..k]), acts[k]);
    }
  }

  lemma FlushResets(c: Config, m: Mmu)
    requires ValidConfig(c)
    ensures var g := FlushTlbOnly(c, m).g;
      !AnyRecorded(g) && g.fullmm == m.g.fullmm && FlushMmu(c, m).g == g
  {}

  lemma ConfigStep(w: World, a: Action)
    ensures Next(w, a).c == w.c && Next(w, a).m.g.fullmm == w.m.g.fullmm
  {
    if ValidConfig(w.c) {
      match a
      case Unmap(e, r) => if ValidEntry(w.c, e) { MarkLevels(AdjustRange(w.m.g, e.addr, e.size), r); }
      case Queue(p, full) => FlushResets(w.c, w.m.(batch := w.m.batch + [p]));
      case _ => FlushResets(w.c, w.m);
    }
  }

  // ----- the unmap size

  ghost predicate LevelsRecorded(w: World) {
    && (Pte in w.levels <==> w.m.g.clearedPtes)
    && (Pmd in w.levels <==> w.m.g.clearedPmds)
    && (Pud in w.levels <==> w.m.g.clearedPuds)
    && (P4d in w.levels <==> w.m.g.clearedP4ds)
  }

  lemma {:induction false} RunLevels(c: Config, fullmm: bool, ptes: set<Entry>, acts: seq<Action>)
    requires ValidConfig(c)
    ensures LevelsRecorded(Exec(Init(c, fullmm, ptes), acts))
  {
    if acts != [] {
      var k := |acts| - 1;
      RunLevels(c, fullmm, ptes, acts[..k]);
      LevelsStep(Exec(Init(c, fullmm, ptes), acts[..k]), acts[k]);
    }
  }

  /** A flush clears the flags together with the list of levels. */
  lemma LevelsFlush(w: World, a: Action)
    requires ValidConfig(w.c) && LevelsRecorded(w)
    requires a.FlushOnly? || a.FlushAndFree? || a.End? || a.ChangeSize?
    ensures LevelsRecorded(Next(w, a))
  {
    FlushResets(w.c, w.m);
    match a {
      case FlushOnly => case FlushAndFree => case End => case ChangeSize(size) =>
    }
  }

  lemma LevelsQueue(w: World, p: Page, full: bool)
    requires ValidConfig(w.c) && LevelsRecorded(w)
    ensures LevelsRecorded(Next(w, Queue(p, full)))
  {
    FlushResets(w.c, w.m.(batch := w.m.batch + [p]));
  }

  lemma LevelsUnmap(w: World, e: Entry, r: Record)
    requires ValidConfig(w.c) && LevelsRecorded(w)
    ensures LevelsRecorded(Next(w, Unmap(e, r)))
  {
    if ValidEntry(w.c, e) { MarkLevels(AdjustRange(w.m.g, e.addr, e.size), r); }
  }

  lemma LevelsStep(w: World, a: Action)
    requires LevelsRecorded(w)
    ensures LevelsRecorded(Next(w, a))
  {
    if ValidConfig(w.c) {
      match a
      case Unmap(e, r) => LevelsUnmap(w, e, r);
      case Queue(p, full) => LevelsQueue(w, p, full);
      case FlushOnly => LevelsFlush(w, a);
      case FlushAndFree => LevelsFlush(w, a);
      case ChangeSize(size) => LevelsFlush(w, a);
      case End => LevelsFlush(w, a);
      case _ =>
    }
  }

  lemma MarkLevels(g: Gather, r: Record)
    ensures var g' := Mark(g, r);
      && (g'.clearedPtes <==> g.clearedPtes || Pte in Levels(r))
      && (g'.clearedPmds <==> g.clearedPmds || Pmd in Levels(r))
      && (g'.clearedPuds <==> g.clearedPuds || Pud in Levels(r))
      && (g'.clearedP4ds <==> g.clearedP4ds || P4d in Levels(r))
      && g'.fullmm == g.fullmm
  {
    match r {
      case FlushPte => case FlushPmd => case FlushPud => case FlushP4d =>
      case FreePte => case FreePmd => case FreePud => case FreeP4d =>
    }
  }

  /** The smallest of the recorded levels, and a page if there is none. */
  ghost predicate SmallestSize(levels: set<Level>, size: nat) {
    && (forall l :: l in levels ==> size <= Pow2(Shift(l)))
    && (if levels == {} then size == 0x1000 else exists l :: l in levels && size == Pow2(Shift(l)))
  }

  lemma LevelSizes()
    ensures Pow2(Shift(Pte)) == 0x1000 && Pow2(Shift(Pmd)) == 0x20_0000
    ensures Pow2(Shift(Pud)) == 0x4000_0000 && Pow2(Shift(P4d)) == 0x80_0000_0000
  {
    assert Pow2(9) == 512 && Pow2(12) == 0x1000;
    Pow2Add(12, 9);
    Pow2Add(21, 9);
    Pow2Add(30, 9);
  }

  lemma LeastLevel(w: World) returns (least: Level)
    requires LevelsRecorded(w) && w.levels != {}
    ensures least in w.levels && UnmapShift(w.m.g) == Shift(least)
    ensures forall l :: l in w.levels ==> Shift(least) <= Shift(l)
  {
    var l :| l in w.levels;
    assert l == Pte || l == Pmd || l == Pud || l == P4d;
    var g := w.m.g;
    least := if g.clearedPtes then Pte else if g.clearedPmds then Pmd else if g.clearedPuds then Pud else P4d;
  }

  lemma UnmapSizeOfLevels(w: World)
    requires LevelsRecorded(w)
    ensures SmallestSize(w.levels, UnmapSize(w.m.g))
  {
    if w.levels == {} {
      LevelSizes();
    } else {
      var least := LeastLevel(w);
      forall l | l in w.levels
        ensures UnmapSize(w.m.g) <= Pow2(Shift(l))
      {
        Pow2Mono(Shift(least), Shift(l));
      }
    }
  }

  /** The unmap size is never too large for what was unmapped: it is the size of the
      smallest level cleared since the last flush, and a page when no level was. */
  lemma UnmapSizeSmallest(c: Config, fullmm: bool, ptes: set<Entry>, acts: seq<Action>)
    requires ValidConfig(c)
    ensures var w := Exec(Init(c, fullmm, ptes), acts); SmallestSize(w.levels, UnmapSize(w.m.g))
  {
    RunLevels(c, fullmm, ptes, acts);
    UnmapSizeOfLevels(Exec(Init(c, fullmm, ptes), acts));
  }

  /** tlb_remove_huge_tlb_entry records the largest level that is not larger than the page. */
  lemma HugeRecordLevel(size: u64, l: Level)
    requires size >= 0x1000 && Pow2(Shift(l)) <= size
    ensures exists k :: Levels(HugeRecord(size)) == {k} && Pow2(Shift(l)) <= Pow2(Shift(k)) <= size
  {
    LevelSizes();
    var k := if size >= 0x80_0000_0000 then P4d else if size >= 0x4000_0000 then Pud
             else if size >= 0x20_0000 then Pmd else Pte;
    assert Levels(HugeRecord(size)) == {k};
  }

  /** Freeing a page table clears the entry that pointed to it, one level up: an entry there spans
      512 entries of the table. */
  lemma TableLevelAbove(k: Level)
    ensures Levels(FlushOf(k)) == {k}
    ensures forall up :: up in Levels(FreeOf(k)) ==> Pow2(Shift(up)) == 512 * Pow2(Shift(k))
    ensures Levels(FreeOf(k)) == {} <==> k == P4d
  {
    assert k == Pte || k == Pmd || k == Pud || k == P4d;
    LevelSizes();
  }

  // ----- the pieces of a step

  /** What holds of a gather between any two calls. */
  ghost predicate Sound(w: World) { Inv(w) && LevelsRecorded(w) }

  lemma SoundStep(w: World, a: Action)
    requires Sound(w) && (a.Unmap? ==> w.m.g.fullmm || Recordable(w.c, a.e))
    ensures Sound(Next(w, a))
  {
    StepKeeps(w, a);
    LevelsStep(w, a);
  }

  /** Widening the range loses nothing that is pending. */
  lemma AdjustKeeps(w: World, address: u64, size: u64)
    requires Sound(w)
    ensures Sound(w.(m := w.m.(g := AdjustRange(w.m.g, address, size))))
  {}

  /** tlb_flush leaves no stale translation. */
  lemma FlushKeeps(w: World)
    requires Sound(w)
    ensures var tlb := FlushTlb(w.c, w.m.g, w.m.tlb);
      tlb <= w.ptes && tlb <= w.m.tlb && Sound(w.(m := w.m.(tlb := tlb)))
  {}

  /** So after it the range may be reset. */
  lemma ResetKeeps(w: World)
    requires Sound(w) && w.m.tlb <= w.ptes
    ensures Sound(w.(m := w.m.(g := ResetRange(w.c, w.m.g)), levels := {}))
  {}

  /** Inside a VMA everything of its kind may be unmapped and recorded, a flush hands out the
      flags of this VMA, and no stale translation of an earlier VMA depends on them. */
  ghost predicate VmaOpen(w: World, v: Vma) {
    && (forall e, r :: e in w.ptes && e.table == FreesTable(r) && (e.table || e.huge == v.huge) ==> MayUnmap(w, e, r))
    && (!w.m.g.fullmm ==> FlushFlags(w.m.g) == VmFlags(v.exec, v.huge) && w.m.g.vmaPfn == v.pfn)
    && (!w.m.g.fullmm && !w.c.mergeVmas ==> forall e :: e in w.m.tlb && !e.table ==> e in w.ptes)
  }

  lemma StartOpens(w: World, v: Vma)
    requires Sound(w) && !w.inVma
    ensures Sound(Next(w, Start(v))) && VmaOpen(Next(w, Start(v)), v)
  {
    SoundStep(w, Start(v));
  }

  /** The end of a VMA: after a PFN mapping, and where VMAs are kept apart, nothing stale is left;
      in every other case nothing is flushed and what is pending stays pending. */
  ghost predicate VmaClosed(w: World, w': World, v: Vma) {
    && (!w.m.g.fullmm && (v.pfn || !w.c.mergeVmas) ==> w'.m.tlb <= w'.ptes && !AnyRecorded(w'.m.g))
    && (w.m.g.fullmm || (!v.pfn && w.c.mergeVmas) ==> w'.m == w.m)
  }

  lemma EndCloses(w: World)
    requires Sound(w) && w.inVma
    ensures Sound(Next(w, End)) && VmaClosed(w, Next(w, End), w.vma)
  {
    SoundStep(w, End);
    FlushLeavesInstalled(w);
    FlushResets(w.c, w.m);
  }

  ghost predicate NoBoundary(acts: seq<Action>) {
    forall k :: 0 <= k < |acts| ==> !acts[k].Start? && !acts[k].End?
  }

  /** Nothing but its end leaves a VMA. */
  lemma {:induction false} StaysInVma(w: World, acts: seq<Action>)
    requires w.inVma && NoBoundary(acts)
    ensures Exec(w, acts).inVma && Exec(w, acts).vma == w.vma
  {
    if acts != [] {
      var k := |acts| - 1;
      StaysInVma(w, acts[..k]);
      var w' := Exec(w, acts[..k]);
      assert !acts[k].Start? && !acts[k].End?;
    }
  }

  /** From opening a VMA in any run to closing it: in between, flushes are made with its flags, and
      its end flushes exactly if it is a PFN mapping or VMAs are kept apart. */
  lemma VmaRun(c: Config, ptes: set<Entry>, before: seq<Action>, v: Vma, acts: seq<Action>)
    requires GoodStart(c, ptes) && NoBoundary(acts) && SizesFit(c, false, before + [Start(v)] + acts)
    requires !Exec(Init(c, false, ptes), before).inVma
    ensures var w := Exec(Init(c, false, ptes), before + [Start(v)] + acts);
      && FlushFlags(w.m.g) == VmFlags(v.exec, v.huge)
      && (v.pfn || !c.mergeVmas ==> Next(w, End).m.tlb <= Next(w, End).ptes)
      && (!v.pfn && c.mergeVmas ==> Next(w, End).m == w.m)
  {
    var w0, toOpen := Init(c, false, ptes), before + [Start(v)];
    assert toOpen[..|before|] == before;
    var w := Exec(w0, toOpen + acts);
    Runs.ExecAppend(Next, w0, toOpen, acts);
    ConfigFixed(w0, before);
    ConfigFixed(w0, toOpen + acts);
    StaysInVma(Exec(w0, toOpen), acts);
    RunInvariant(c, false, ptes, toOpen + acts);
    RunLevels(c, false, ptes, toOpen + acts);
    EndCloses(w);
  }

  /** Freeing leaves nothing stale, nothing queued and no freed page cached. */
  ghost predicate AllFreed(w: World, w': World) {
    && w'.m.tlb <= w'.ptes && w'.m.batch == [] && Safe(w')
    && forall p :: p in w.m.batch ==> p in w'.m.freed
  }

  lemma FlushFrees(w: World)
    requires Sound(w)
    ensures Sound(Next(w, FlushAndFree)) && AllFreed(w, Next(w, FlushAndFree))
  {
    SoundStep(w, FlushAndFree);
    FlushLeavesInstalled(w);
  }

  /** The page is queued, or freed together with everything queued before it. */
  ghost predicate QueuedOrFreed(w: World, w': World, p: Page, full: bool) {
    Safe(w') && if full then p in w'.m.freed && w'.m.batch == [] else w'.m.batch == w.m.batch + [p]
  }

  lemma QueueOutcome(w: World, p: Page, full: bool)
    requires Sound(w) && Unhooked(w, p) && p !in w.m.freed
    ensures Sound(Next(w, Queue(p, full))) && QueuedOrFreed(w, Next(w, Queue(p, full)), p, full)
    ensures full ==> Next(w, Queue(p, full)) == Next(Next(w, Queue(p, false)), FlushAndFree)
  {
    SoundStep(w, Queue(p, full));
  }

  lemma FlushOnlyOutcome(w: World)
    requires Sound(w)
    ensures var w' := Next(w, FlushOnly);
      Sound(w') && w'.m.tlb <= w'.ptes && !AnyRecorded(w'.m.g)
  {
    SoundStep(w, FlushOnly);
    FlushLeavesInstalled(w);
  }

  /** No page queued under another size stays queued, unless everything will be flushed; and
      without a change of size nothing is flushed. */
  ghost predicate BatchOfSize(w: World, w': World, size: u32) {
    var g := w.m.g;
    if w.c.trackPageSize && g.pageSize != 0 && g.pageSize != size && !g.fullmm && !g.needFlushAll
    then w'.m.g.pageSize == size && AllFreed(w, w')
    else w'.m == w.m.(g := if w.c.trackPageSize then g.(pageSize := size) else g)
  }

  lemma ChangeSizeSeparates(w: World, size: u32)
    requires Sound(w)
    ensures Sound(Next(w, ChangeSize(size))) && BatchOfSize(w, Next(w, ChangeSize(size)), size)
  {
    SoundStep(w, ChangeSize(size));
    FlushFrees(w);
  }

  /** What was unmapped is pending, unless its size was lost. */
  lemma UnmapOutcome(w: World, e: Entry, r: Record)
    requires Sound(w) && MayUnmap(w, e, r)
    ensures var w' := Next(w, Unmap(e, r));
      && w' == w.(ptes := w.ptes - {e}, levels := w.levels + Levels(r),
                  m := w.m.(g := Mark(AdjustRange(w.m.g, e.addr, e.size), r)))
      && LevelsRecorded(w')
      && (w.m.g.fullmm || Recordable(w.c, e) ==> Sound(w') && Pending(w.c, w'.m.g, e))
  {
    LevelsStep(w, Unmap(e, r));
    if w.m.g.fullmm || Recordable(w.c, e) {
      SoundStep(w, Unmap(e, r));
      RecordCovers(w.c, w.m.g, e, r);
    }
  }

  /** With no flag set there is nothing to flush. */
  lemma NothingRecorded(w: World)
    requires Sound(w) && !AnyRecorded(w.m.g)
    ensures w.m.tlb <= w.ptes && w.levels == {}
  {
    forall l
      ensures l !in w.levels
    {
      assert l == Pte || l == Pmd || l == Pud || l == P4d;
    }
  }

  // ----- the size limit

  /** Unmap one entry, queue its page and flush. */
  function ReleaseOne(e: Entry, r: Record): seq<Action> {
    [Start(Vma(e.huge, false, false)), Unmap(e, r), End, Queue(e.page, false), FlushAndFree]
  }

  lemma ExecFive(w: World, a: seq<Action>)
    requires |a| == 5
    ensures Exec(w, a) == Next(Next(Next(Next(Next(w, a[0]), a[1]), a[2]), a[3]), a[4])
  {
    var w1 := Next(w, a[0]);
    var w2 := Next(w1, a[1]);
    var w3 := Next(w2, a[2]);
    var w4 := Next(w3, a[3]);
    assert a == [a[0]] + a[1..] && a[1..] == [a[1]] + a[2..] && a[2..] == [a[2]] + a[3..];
    assert a[3..] == [a[3]] + a[4..] && a[4..] == [a[4]] + [];
    Runs.ExecCons(Next, w, a[0], a[1..]);
    Runs.ExecCons(Next, w1, a[1], a[2..]);
    Runs.ExecCons(Next, w2, a[2], a[3..]);
    Runs.ExecCons(Next, w3, a[3], a[4..]);
    Runs.ExecCons(Next, w4, a[4], []);
  }

  /** A flush would miss the entry: the range ends before it does, or, where every flush
      invalidates everything, the range has no end and the flush is skipped. */
  ghost predicate TooShort(c: Config, g: Gather, e: Entry) {
    && !g.fullmm && !g.needFlushAll && g.end < e.addr + e.size
    && (c.noRange ==> g.end == 0)
  }

  lemma FlushMisses(c: Config, m: Mmu, e: Entry)
    requires ValidConfig(c) && e in m.tlb && TooShort(c, m.g, e)
    ensures e in FlushTlbOnly(c, m).tlb && TooShort(c, FlushTlbOnly(c, m).g, e)
  {}

  /** Unmapping one entry and freeing its page is safe if and only if the whole address space
      goes or the entry is recordable. Otherwise the recorded range is too short and the
      translation survives the flush that frees the page. */
  lemma SizeLimit(c: Config, fullmm: bool, e: Entry, r: Record)
    requires ValidConfig(c) && ValidEntry(c, e) && !e.table && !FreesTable(r)
    ensures Safe(Exec(Init(c, fullmm, {e}), ReleaseOne(e, r))) <==> fullmm || Recordable(c, e)
  {
    if fullmm || Recordable(c, e) {
      NeverFreedWhileCached(c, fullmm, {e}, ReleaseOne(e, r));
    } else {
      var a := ReleaseOne(e, r);
      ExecFive(Init(c, false, {e}), a);
      var w3 := AfterTruncated(c, e, r);
      var w4 := Next(w3, a[3]);
      FlushMisses(c, w4.m, e);
      assert e.page in w4.m.batch;
    }
  }

  /** So every run keeps the ordering rule if and only if the whole address space goes, or there
      are no 4 GiB of it. */
  lemma EveryRunSafeIff(c: Config, fullmm: bool)
    requires ValidConfig(c)
    ensures (forall ptes, acts :: GoodStart(c, ptes) ==> Safe(Exec(Init(c, fullmm, ptes), acts)))
       <==> fullmm || c.taskSize < 0x1_0000_0000
  {
    if fullmm || c.taskSize < 0x1_0000_0000 {
      forall ptes, acts | GoodStart(c, ptes)
        ensures Safe(Exec(Init(c, fullmm, ptes), acts))
      {
        NeverFreedWhileCached(c, fullmm, ptes, acts);
      }
    } else {
      var e := Entry(0, 0, 0x1_0000_0000, false, false);
      SizeLimit(c, fullmm, e, FlushP4d);
      assert GoodStart(c, {e}) && !Safe(Exec(Init(c, fullmm, {e}), ReleaseOne(e, FlushP4d)));
    }
  }

  lemma AfterTruncated(c: Config, e: Entry, r: Record) returns (w3: World)
    requires ValidConfig(c) && ValidEntry(c, e) && !e.table && !FreesTable(r) && !Recordable(c, e)
    ensures var a := ReleaseOne(e, r);
      w3 == Next(Next(Next(Init(c, false, {e}), a[0]), a[1]), a[2])
    ensures w3.c == c && e in w3.m.tlb && w3.ptes == {} && w3.m.freed == {} && TooShort(c, w3.m.g, e)
  {
    var a := ReleaseOne(e, r);
    var w1 := Next(Init(c, false, {e}), a[0]);
    var w2 := Next(w1, a[1]);
    TruncatedEnd(e.addr, e.size);
    assert w2.ptes == {} && e in w2.m.tlb;
    FlushMisses(c, w2.m, e);
    w3 := Next(w2, a[2]);
  }

  lemma TruncatedEnd(addr: nat, size: nat)
    requires 0x1_0000_0000 <= size && addr + size < 0x1_0000_0000_0000_0000
    ensures U64(addr + U32(size)) < addr + size
  {
    assert U32(size) < size;
    assert U64(addr + U32(size)) == addr + U32(size);
  }

  /** For a power of two of 4 GiB or more nothing is left of the size: the recorded range is
      empty, so a flush that also takes entries reaching out of its range misses the entry too. */
  lemma HugeSizeVanishes(c: Config, g: Gather, address: u64, k: nat)
    requires ValidConfig(c) && !g.fullmm && 32 <= k && Pow2(k) < 0x1_0000_0000_0000_0000 && address <= c.taskSize
    ensures var h := AdjustRange(ResetRange(c, g), address, Pow2(k)); h.start == h.end == address
  {
    Pow2At32();
    Pow2Add(k - 32, 32);
    MultipleVanishes(Pow2(k), Pow2(k - 32));
  }

  lemma MultipleVanishes(x: int, q: int)
    requires x == q * 0x1_0000_0000
    ensures U32(x) == 0
  {}
}
