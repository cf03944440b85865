/**
  The fate of every physical frame: which calls lose frames, exactly which ones they lose, and what
  all used frames are used for after any run.
 */
module LostFrames {
  import opened CTypes
  import opened FrameAllocation
  import opened PageTables
  import opened VirtualMemory
  import opened AddressSpaces
  import opened PageLoops
  import opened MemoryCalls

  // ---------------------------------------------------------------------------
  // What a mapping loop leaves, however it ends
  // ---------------------------------------------------------------------------

  /**
    From vm to m exactly the given pages were mapped, each to a frame that was free; besides, the
    frames in `spill` were taken, which are neither mapped nor tables.
   */
  ghost predicate Settled(vm: Vm, m: Vm, root: nat, pages: set<nat>, spill: set<nat>) {
    && Sound(vm) && Sound(m)
    && (forall s :: s in vm.tables ==> s in m.tables && m.tables[s] == vm.tables[s])
    && (forall s :: s in m.tables && s !in vm.tables ==> m.tables[s] !in vm.used)
    && SameLeavesExcept(vm, m, root, pages)
    && (forall v: nat :: v in pages ==> exists f :: f in Free(vm) && MappedTo(m, root, v, f))
    && (forall f :: f in m.used <==>
          f in vm.used || HoldsTable(m.tables, f) || MappedWithin(m, root, pages, f) || f in spill)
    && (forall f :: f in spill ==> f in Free(vm) && !HoldsTable(m.tables, f) && !MappedWithin(m, root, pages, f))
  }

  lemma RangeIsSettled(vm: Vm, m: Vm, root: nat, pages: set<nat>)
    requires RangeMapped(vm, m, root, pages)
    ensures Settled(vm, m, root, pages, {})
  {
    hide Sound, SameLeavesExcept, MappedTo, HoldsTable, MappedWithin, Free;
  }

  lemma SameLeavesWithin(m: Vm, m': Vm, root: nat, pages: set<nat>, f: nat)
    requires Sound(m) && Sound(m') && SameLeaves(m, m')
    ensures MappedWithin(m', root, pages, f) <==> MappedWithin(m, root, pages, f)
  {
    hide Sound;
    assert forall v: nat :: Leaf(m', root, v) == Leaf(m, root, v);
    if MappedWithin(m, root, pages, f) {
      var v: nat :| v in pages && MappedTo(m, root, v, f);
      assert MappedTo(m', root, v, f);
    }
    if MappedWithin(m', root, pages, f) {
      var v: nat :| v in pages && MappedTo(m', root, v, f);
      assert MappedTo(m, root, v, f);
    }
  }

  /** An iteration that runs out of frames for its tables spills the frame it got for its page. */
  lemma FilledSpills(vm: Vm, m: Vm, m': Vm, root: nat, pages: set<nat>, f: nat)
    requires Owned(m) && RangeMapped(vm, m, root, pages) && f in Free(m)
    requires Sound(m') && Grown(WithFrame(m, f), m') && SameLeaves(m, m')
    ensures Settled(vm, m', root, pages, {f})
  {
    hide Owned, Sound, MappedTo, HoldsTable, MappedWithin, RangeMapped, Grown, SameLeaves, SameLeavesExcept, Free;
    RangeParts(vm, m, root, pages);
    SpillIsFresh(m, m', root, pages, f);
    SettledTables(vm, m, m', root, pages, f);
    forall g ensures g in m'.used
        <==> g in vm.used || HoldsTable(m'.tables, g) || MappedWithin(m', root, pages, g) || g == f {
      SettledUsed(vm, m, m', root, pages, f, g);
    }
    SettledPages(vm, m, m', root, pages);
  }

  lemma SettledPages(vm: Vm, m: Vm, m': Vm, root: nat, pages: set<nat>)
    requires RangeMapped(vm, m, root, pages) && Sound(m') && SameLeaves(m, m')
    ensures forall v: nat :: v in pages ==> exists f :: f in Free(vm) && MappedTo(m', root, v, f)
  {
    hide Sound, MappedTo, HoldsTable, MappedWithin, SameLeaves, SameLeavesExcept, Free;
    forall v: nat | v in pages ensures exists f :: f in Free(vm) && MappedTo(m', root, v, f) {
      var f :| f in Free(vm) && MappedTo(m, root, v, f);
      SameMapping(m, m', root, v, f);
    }
  }

  lemma SameMapping(m: Vm, m': Vm, root: nat, v: nat, g: nat)
    requires Sound(m) && Sound(m') && SameLeaves(m, m')
    ensures MappedTo(m', root, v, g) <==> MappedTo(m, root, v, g)
  {
    hide Sound;
    assert Leaf(m', root, v) == Leaf(m, root, v);
  }

  lemma SpillIsFresh(m: Vm, m': Vm, root: nat, pages: set<nat>, f: nat)
    requires Owned(m) && f in Free(m) && Sound(m') && Grown(WithFrame(m, f), m') && SameLeaves(m, m')
    ensures !HoldsTable(m'.tables, f) && !MappedWithin(m', root, pages, f)
  {
    FreeFrameHoldsNothing(m, f);
    hide Owned, Sound, HoldsTable;
    GrownMissesUsed(WithFrame(m, f), m', f);
    SameLeavesWithin(m, m', root, pages, f);
  }

  lemma SettledTables(vm: Vm, m: Vm, m': Vm, root: nat, pages: set<nat>, f: nat)
    requires RangeMapped(vm, m, root, pages) && f in Free(m)
    requires Sound(m') && Grown(WithFrame(m, f), m') && SameLeaves(m, m')
    ensures f in Free(vm) && SameLeavesExcept(vm, m', root, pages)
    ensures forall s :: s in vm.tables ==> s in m'.tables && m'.tables[s] == vm.tables[s]
    ensures forall s :: s in m'.tables && s !in vm.tables ==> m'.tables[s] !in vm.used
  {
    hide Sound, MappedTo, HoldsTable, MappedWithin;
    forall r: nat, w: nat | r != root || w !in pages ensures Leaf(m', r, w) == Leaf(vm, r, w) {
      assert Leaf(m', r, w) == Leaf(m, r, w);
    }
  }

  lemma SettledUsed(vm: Vm, m: Vm, m': Vm, root: nat, pages: set<nat>, f: nat, g: nat)
    requires RangeMapped(vm, m, root, pages)
    requires Sound(m') && Grown(WithFrame(m, f), m') && SameLeaves(m, m')
    ensures g in m'.used <==> g in vm.used || HoldsTable(m'.tables, g) || MappedWithin(m', root, pages, g) || g == f
  {
    hide Sound, MappedTo, SameLeavesExcept, MappedWithin;
    SameLeavesWithin(m, m', root, pages, g);
    if HoldsTable(m.tables, g) {
      var s :| s in m.tables && m.tables[s] == g;
      assert s in m'.tables && m'.tables[s] == g;
    }
  }

  /** The pages mapped when k iterations were completed: the last one may have run out of frames for its tables. */
  ghost function PagesDone(vm: Vm, root: nat, start: Word, k: nat): nat {
    if k > 0 && Need(vm, root, start, k) > |Free(vm)| then k - 1 else k
  }

  /** The frame such an iteration took for its page. */
  ghost function Spill(vm: Vm, root: nat, start: Word, k: nat, flags: nat): set<nat>
    requires Mappable(vm, root, flags)
  {
    if k > 0 && Need(vm, root, start, k) > |Free(vm)| then
      {FrameOf(AllocPage(MapPages(vm, root, start, k - 1, flags).0))}
    else {}
  }

  lemma {:induction false} CompletedLoop(vm: Vm, root: nat, start: Word, n: nat, flags: nat)
    requires Mappable(vm, root, flags)
    ensures var (m, k) := MapPages(vm, root, start, n, flags); MapPages(vm, root, start, k, flags) == (m, k)
  {
    hide Sound, HasRoot, FreshMapped, AllocPage;
    if n > 0 {
      CompletedLoop(vm, root, start, n - 1, flags);
    }
  }

  /** Whatever the free frames: the loop leaves its finished pages mapped, and at most one frame spilled. */
  lemma MapPagesSettle(vm: Vm, root: nat, start: Word, n: nat, flags: nat)
    requires Mappable(vm, root, flags) && Owned(vm)
    ensures var (m, k) := MapPages(vm, root, start, n, flags);
            && Owned(m)
            && Settled(vm, m, root, Pages(start, PagesDone(vm, root, start, k)), Spill(vm, root, start, k, flags))
  {
    hide Sound, Owned, HasRoot, Free, RangeMapped, Settled, Need, MapPages, LoopState, AllocPage;
    var (m, k) := MapPages(vm, root, start, n, flags);
    MapPagesOwned(vm, root, start, n, flags);
    CompletedLoop(vm, root, start, n, flags);
    if Need(vm, root, start, k) <= |Free(vm)| {
      MapPagesMapsRange(vm, root, start, k, flags);
      RangeIsSettled(vm, m, root, Pages(start, k));
    } else {
      NoPagesNeedNothing(vm, root, start);
      LastIterationSpills(vm, root, start, k, flags);
    }
  }

  lemma LastIterationSpills(vm: Vm, root: nat, start: Word, k: nat, flags: nat)
    requires Mappable(vm, root, flags) && Owned(vm) && k > 0
    requires MapPages(vm, root, start, k, flags).1 == k && Need(vm, root, start, k) > |Free(vm)|
    ensures Settled(vm, MapPages(vm, root, start, k, flags).0, root, Pages(start, k - 1),
        Spill(vm, root, start, k, flags))
  {
    hide Sound, Owned, HasRoot, Free, RangeMapped, Settled, Need, FreshMapped, AllocPage, PathSlots, PageAt;
    hide MappedOrFull, SameLeaves, Grown, Missing, FrameOf;
    var (m, j) := MapPages(vm, root, start, k - 1, flags);
    MapPagesStops(vm, root, start, k, flags);
    MapPagesOutcome(vm, root, start, k - 1, flags);
    MapPagesMapsRange(vm, root, start, k - 1, flags);
    NeedOneMore(vm, m, root, start, k);
    var v, f := PageAt(start, k - 1), FrameOf(AllocPage(m));
    FreshMappedWorks(m, root, v, flags);
    FilledIteration(m, FreshMapped(m, root, v, flags), root, v, f);
    FilledSpills(vm, m, FreshMapped(m, root, v, flags), root, Pages(start, k - 1), f);
  }

  lemma FilledIteration(m: Vm, m': Vm, root: nat, v: nat, f: nat)
    requires v < PAGES && Sound(m) && f in Free(m) && |Missing(m, root, v)| >= |Free(m)|
    requires Sound(WithFrame(m, f)) && SameLeaves(m, WithFrame(m, f)) && Free(WithFrame(m, f)) == Free(m) - {f}
    requires MappedOrFull(WithFrame(m, f), m', root, v, f)
    ensures Sound(m') && Grown(WithFrame(m, f), m') && SameLeaves(m, m')
  {
    hide Sound, PathSlots, Grown, Free, MappedTo, SameLeavesExcept, PtSlot;
    MissingSame(m, f, root, v);
    SameLeavesTwice(m, WithFrame(m, f), m');
  }

  // ---------------------------------------------------------------------------
  // Lost frames
  // ---------------------------------------------------------------------------

  ghost predicate Mapped(vm: Vm, f: nat)
    requires Sound(vm)
  {
    exists r: nat, v: nat :: MappedTo(vm, r, v, f)
  }

  /** Marked used, but neither reserved, nor a table, nor mapped anywhere. */
  ghost predicate Lost(vm: Vm, f: nat) {
    Sound(vm) && f in vm.used && f >= KERNEL_FRAMES && !HoldsTable(vm.tables, f) && !Mapped(vm, f)
  }

  /** A page mapped in m is one of the pages of the range, or was mapped before. */
  lemma MappedInRangeOrBefore(vm: Vm, m: Vm, root: nat, pages: set<nat>, f: nat)
    requires Sound(vm) && Sound(m) && SameLeavesExcept(vm, m, root, pages)
    ensures Mapped(m, f) ==> MappedWithin(m, root, pages, f) || Mapped(vm, f)
    ensures Mapped(vm, f) ==> MappedWithin(vm, root, pages, f) || Mapped(m, f)
    ensures MappedWithin(vm, root, pages, f) ==> Mapped(vm, f)
    ensures MappedWithin(m, root, pages, f) ==> Mapped(m, f)
  {
    hide Sound;
    if Mapped(m, f) {
      var r: nat, v: nat :| MappedTo(m, r, v, f);
      if r != root || v !in pages {
        assert Leaf(m, r, v) == Leaf(vm, r, v);
        assert MappedTo(vm, r, v, f);
      }
    }
    if Mapped(vm, f) {
      var r: nat, v: nat :| MappedTo(vm, r, v, f);
      if r != root || v !in pages {
        assert Leaf(m, r, v) == Leaf(vm, r, v);
        assert MappedTo(m, r, v, f);
      }
    }
  }

  lemma SameMappingOutside(vm: Vm, m: Vm, root: nat, pages: set<nat>, r: nat, v: nat, f: nat)
    requires Sound(vm) && Sound(m) && SameLeavesExcept(vm, m, root, pages) && (r != root || v !in pages)
    ensures MappedTo(m, r, v, f) <==> MappedTo(vm, r, v, f)
  {
    hide Sound;
    assert Leaf(m, r, v) == Leaf(vm, r, v);
  }

  /** A frame mapped at a page of the range is mapped nowhere else. */
  lemma OverwrittenIsUnmapped(vm: Vm, m: Vm, root: nat, pages: set<nat>, f: nat)
    requires Owned(vm) && Sound(m) && SameLeavesExcept(vm, m, root, pages)
    requires MappedWithin(vm, root, pages, f) && !MappedWithin(m, root, pages, f)
    ensures !Mapped(m, f)
  {
    hide Sound, HoldsTable, MappedTo, SameLeavesExcept;
    var w: nat :| w in pages && MappedTo(vm, root, w, f);
    forall r: nat, v: nat ensures !MappedTo(m, r, v, f) {
      if r != root || v !in pages {
        SameMappingOutside(vm, m, root, pages, r, v, f);
      }
    }
  }

  /** What an owner can say of one frame. */
  lemma OwnedFrame(vm: Vm, f: nat)
    requires Owned(vm)
    ensures Sound(vm)
    ensures Mapped(vm, f) ==> f in vm.used && f >= KERNEL_FRAMES && !HoldsTable(vm.tables, f)
    ensures HoldsTable(vm.tables, f) ==> f in vm.used
    ensures f in Free(vm) ==> f !in vm.used && f >= KERNEL_FRAMES
  {
    assert f < KERNEL_FRAMES ==> f in KernelFrames();
    hide Sound, HoldsTable;
    if Mapped(vm, f) {
      var r: nat, v: nat :| MappedTo(vm, r, v, f);
    }
    if HoldsTable(vm.tables, f) {
      TableIsUsed(vm, f);
    }
  }

  lemma TableIsUsed(vm: Vm, f: nat)
    requires Sound(vm) && HoldsTable(vm.tables, f)
    ensures f in vm.used
  {
  }

  lemma SettledFrame(vm: Vm, m: Vm, root: nat, pages: set<nat>, spill: set<nat>, f: nat)
    requires Settled(vm, m, root, pages, spill)
    ensures Sound(vm) && Sound(m) && SameLeavesExcept(vm, m, root, pages)
    ensures f in m.used <==> f in vm.used || HoldsTable(m.tables, f) || MappedWithin(m, root, pages, f) || f in spill
    ensures f in spill ==> f in Free(vm) && !HoldsTable(m.tables, f) && !MappedWithin(m, root, pages, f)
    ensures MappedWithin(m, root, pages, f) ==> f in Free(vm)
    ensures f in vm.used ==> (HoldsTable(m.tables, f) <==> HoldsTable(vm.tables, f))
  {
    hide Sound, MappedTo, SameLeavesExcept, Free;
    if MappedWithin(m, root, pages, f) {
      var v: nat :| v in pages && MappedTo(m, root, v, f);
      var g :| g in Free(vm) && MappedTo(m, root, v, g);
      OneFrame(m, root, v, f, g);
    }
    if HoldsTable(vm.tables, f) {
      var s :| s in vm.tables && vm.tables[s] == f;
      assert s in m.tables && m.tables[s] == f;
    }
  }

  /** A mapping loop loses the frames of the pages it maps anew, and the one it spills; and no others. */
  lemma SettledLoses(vm: Vm, m: Vm, root: nat, pages: set<nat>, spill: set<nat>, f: nat)
    requires Owned(vm) && Owned(m) && Settled(vm, m, root, pages, spill)
    ensures Lost(m, f) <==> Lost(vm, f) || MappedWithin(vm, root, pages, f) || f in spill
  {
    hide Owned, Sound, HoldsTable, MappedWithin, Mapped, Settled, Free, SameLeavesExcept;
    SettledFrame(vm, m, root, pages, spill, f);
    OwnedFrame(vm, f);
    OwnedFrame(m, f);
    MappedInRangeOrBefore(vm, m, root, pages, f);
    if MappedWithin(vm, root, pages, f) {
      OverwrittenIsUnmapped(vm, m, root, pages, f);
    }
  }

  lemma GoneFrame(vm: Vm, u: Vm, root: nat, pages: set<nat>, freed: bool, f: nat)
    requires RangeGone(vm, u, root, pages, freed)
    ensures Owned(vm) && Owned(u) && Sound(vm) && Sound(u) && u.tables == vm.tables
        && SameLeavesExcept(vm, u, root, pages)
    ensures f in u.used <==> f in vm.used && !(freed && MappedWithin(vm, root, pages, f))
    ensures !MappedWithin(u, root, pages, f)
  {
    hide Sound, HoldsTable, SameLeavesExcept;
    assert forall v: nat :: v in pages ==> Leaf(u, root, v) == None;
  }

  /** An unmapping loop loses the frames it unmaps without releasing them. */
  lemma GoneLoses(vm: Vm, u: Vm, root: nat, pages: set<nat>, freed: bool, f: nat)
    requires RangeGone(vm, u, root, pages, freed)
    ensures Lost(u, f) <==> Lost(vm, f) || (!freed && MappedWithin(vm, root, pages, f))
  {
    hide Owned, Sound, HoldsTable, MappedWithin, Mapped, RangeGone, SameLeavesExcept;
    GoneFrame(vm, u, root, pages, freed, f);
    OwnedFrame(vm, f);
    OwnedFrame(u, f);
    MappedInRangeOrBefore(vm, u, root, pages, f);
    if MappedWithin(vm, root, pages, f) {
      OverwrittenIsUnmapped(vm, u, root, pages, f);
    }
  }

  // ---------------------------------------------------------------------------
  // What each call loses
  // ---------------------------------------------------------------------------

  /** The frame create_process takes for the registers of a new process. */
  ghost function RegisterFrame(vm: Vm): set<nat>
    requires Owned(vm)
  {
    if AllocPage(vm) == 0 then {}
    else
      SpawnKeepsOwned(vm);
      var rooted := Rooted(vm, FrameOf(AllocPage(vm)));
      if AllocPage(rooted) == 0 then {} else {FrameOf(AllocPage(rooted))}
  }

  /** The frames a mapping loop loses: those of pages it maps over, and the one it spills. */
  ghost predicate LoopLoses(vm: Vm, root: nat, start: Word, n: nat, flags: nat, f: nat)
    requires Mappable(vm, root, flags)
  {
    var k := MapPages(vm, root, start, n, flags).1;
    MappedWithin(vm, root, Pages(start, PagesDone(vm, root, start, k)), f) || f in Spill(vm, root, start, k, flags)
  }

  /**
    The frames a call takes out of use for good: those of pages mapped over or unmapped from an
    unaligned address, and the one whose page found no frames for its tables.
   */
  ghost predicate Leaks(vm: Vm, c: Call, f: nat)
    requires Owned(vm) && Allowed(vm, c)
  {
    match c
    case Spawn => false
    case Mmap(root, start, n, flags) => LoopLoses(vm, root, start, n, flags, f)
    case Munmap(root, start, n) => start % PAGE_SIZE != 0 && MappedWithin(vm, root, Pages(start, n), f)
    case Brk(root, start, n) =>
      var (m, k) := MapPages(vm, root, start, n, 3);
      LoopLoses(vm, root, start, n, 3, f)
      || (k < n && start % PAGE_SIZE != 0 && MappedWithin(m, root, Pages(start, k), f))
    case Store(_, _, _) => false
  }

  lemma MmapLoses(vm: Vm, root: nat, start: Word, n: nat, flags: nat, f: nat)
    requires Mappable(vm, root, flags) && Owned(vm) && !StrandsPages(vm, root, start, n)
    ensures Lost(Mmapped(vm, root, start, n, flags), f) <==> Lost(vm, f) || LoopLoses(vm, root, start, n, flags, f)
  {
    hide Owned, Sound, HasRoot, Settled, Lost, MappedWithin, Need, Free, Spill, PagesDone, MapPages, FramesFreed;
    var (m, k) := MapPages(vm, root, start, n, flags);
    MapPagesSettle(vm, root, start, n, flags);
    SettledLoses(vm, m, root, Pages(start, PagesDone(vm, root, start, k)), Spill(vm, root, start, k, flags), f);
    if k < n {
      UnstrandedFreesNothing(vm, root, start, n, flags);
    }
  }

  /** Where it strands no pages, the out-of-memory path of sys_mmap releases nothing. */
  lemma UnstrandedFreesNothing(vm: Vm, root: nat, start: Word, n: nat, flags: nat)
    requires Mappable(vm, root, flags) && Owned(vm) && !StrandsPages(vm, root, start, n)
    requires MapPages(vm, root, start, n, flags).1 < n
    ensures Mmapped(vm, root, start, n, flags) == MapPages(vm, root, start, n, flags).0
  {
    hide Sound, Owned, HasRoot, Need, Free, PageAt, FramesFreed;
    var (m, k) := MapPages(vm, root, start, n, flags);
    MapPagesOwned(vm, root, start, n, flags);
    MapPagesStops(vm, root, start, n, flags);
    if start % PAGE_SIZE != 0 {
      OwnedParts(m);
      UnalignedFreesNothing(m, root, start, k);
    } else {
      FirstPageFails(vm, root, start, n, flags);
      NothingToFree(m, root, start, k);
    }
  }

  lemma BrkLoses(vm: Vm, root: nat, start: Word, n: nat, f: nat)
    requires Mappable(vm, root, 3) && Owned(vm)
    ensures Lost(HeapGrown(vm, root, start, n).0, f) <==> Lost(vm, f) || Leaks(vm, Brk(root, start, n), f)
  {
    hide Owned, Sound, HasRoot, Settled, Lost, MappedWithin, Need, Free, Spill, PagesDone, MapPages, RangeGone;
    hide UnmapPages;
    var (m, k) := MapPages(vm, root, start, n, 3);
    MapPagesSettle(vm, root, start, n, 3);
    SettledLoses(vm, m, root, Pages(start, PagesDone(vm, root, start, k)), Spill(vm, root, start, k, 3), f);
    if k < n {
      UnmapPagesClearsRange(m, root, start, k);
      GoneLoses(m, UnmapPages(m, root, start, k), root, Pages(start, k), start % PAGE_SIZE == 0, f);
    }
  }

  lemma SameMapped(vm: Vm, u: Vm, f: nat)
    requires Sound(vm) && Sound(u) && SameLeaves(vm, u)
    ensures Mapped(u, f) <==> Mapped(vm, f)
  {
    hide Sound;
    if Mapped(vm, f) {
      var r: nat, v: nat :| MappedTo(vm, r, v, f);
      SameMapping(vm, u, r, v, f);
    }
    if Mapped(u, f) {
      var r: nat, v: nat :| MappedTo(u, r, v, f);
      SameMapping(vm, u, r, v, f);
    }
  }

  lemma SpawnLoses(vm: Vm, f: nat)
    requires Owned(vm)
    ensures Lost(Spawned(vm), f) <==> Lost(vm, f) || f in RegisterFrame(vm)
  {
    hide Owned, Sound, Lost, Zeroed, Rooted, AllocPage, FrameOf;
    OwnedIsSound(vm);
    if AllocPage(vm) != 0 {
      FreshFrame(vm);
      var f0 := FrameOf(AllocPage(vm));
      SpawnKeepsOwned(vm);
      ClearedFreeFrame(vm, f0);
      var rooted := Rooted(vm, f0);
      OwnedIsSound(rooted);
      if AllocPage(rooted) == 0 {
        ClearedLoses(vm, f0, f);
      } else {
        RootedLoses(vm, f0, f);
        FreshFrame(rooted);
        TakenIsLost(rooted, FrameOf(AllocPage(rooted)), f);
      }
    }
  }

  lemma ClearedLoses(vm: Vm, f0: nat, f: nat)
    requires Owned(vm) && |vm.ram| == RAM_WORDS && f0 < FRAMES
    requires Owned(vm.(ram := Zeroed(vm.ram, f0))) && SameLeaves(vm, vm.(ram := Zeroed(vm.ram, f0)))
    ensures Lost(vm.(ram := Zeroed(vm.ram, f0)), f) <==> Lost(vm, f)
  {
    hide Sound, HoldsTable, Zeroed, Mapped;
    SameMapped(vm, vm.(ram := Zeroed(vm.ram, f0)), f);
  }

  lemma RootedLoses(vm: Vm, f0: nat, f: nat)
    requires Owned(vm) && f0 in Free(vm) && KERNEL_FRAMES <= f0 < FRAMES && Owned(Rooted(vm, f0))
    ensures Lost(Rooted(vm, f0), f) <==> Lost(vm, f)
  {
    RootKeepsTranslations(vm, f0);
    RootTable(vm, f0, f);
    hide Sound, HoldsTable, Mapped;
    SameMapped(vm, Rooted(vm, f0), f);
    assert Rooted(vm, f0).used == vm.used + {f0};
  }

  lemma RootTable(vm: Vm, f0: nat, f: nat)
    requires Sound(vm) && f0 in Free(vm) && f0 < FRAMES
    ensures HoldsTable(Rooted(vm, f0).tables, f) <==> HoldsTable(vm.tables, f) || f == f0
  {
    var t := Rooted(vm, f0).tables;
    assert RootSlot(f0) !in vm.tables;
    assert RootSlot(f0) in t && t[RootSlot(f0)] == f0;
    if HoldsTable(vm.tables, f) {
      var s :| s in vm.tables && vm.tables[s] == f;
      assert s in t && t[s] == f;
    }
  }

  lemma TakenIsLost(vm: Vm, f1: nat, f: nat)
    requires Owned(vm) && f1 in Free(vm) && f1 >= KERNEL_FRAMES
    requires Sound(WithFrame(vm, f1)) && SameLeaves(vm, WithFrame(vm, f1))
    ensures Lost(WithFrame(vm, f1), f) <==> Lost(vm, f) || f == f1
  {
    FreeFrameHoldsNothing(vm, f1);
    hide Sound, HoldsTable, Mapped;
    SameMapped(vm, WithFrame(vm, f1), f);
    NotMappedAnywhere(vm, f1);
  }

  lemma NotMappedAnywhere(vm: Vm, f: nat)
    requires Sound(vm) && forall r: nat, v: nat :: !MappedTo(vm, r, v, f)
    ensures !Mapped(vm, f)
  {
    hide Sound, MappedTo;
  }

  lemma StoreLoses(vm: Vm, g: nat, i: nat, e: Word, f: nat)
    requires Owned(vm) && g < FRAMES && i < ENTRIES && !HoldsTable(vm.tables, g)
    ensures Lost(Stored(vm, g, i, e), f) <==> Lost(vm, f)
  {
    StoreKeepsOwned(vm, g, i, e);
    hide Sound, HoldsTable, Mapped, WordSet;
    SameMapped(vm, Stored(vm, g, i, e), f);
  }

  /** Exactly the frames lost before, the ones the call leaks, and the register frame of a new process. */
  lemma StepLoses(vm: Vm, c: Call, f: nat)
    requires Owned(vm) && Allowed(vm, c) && !Strands(vm, c)
    ensures Lost(Step(vm, c), f) <==> Lost(vm, f) || Leaks(vm, c, f) || (c.Spawn? && f in RegisterFrame(vm))
  {
    OwnedIsSound(vm);
    hide Owned, Sound, Lost, HasRoot, StrandsPages, LoopLoses, RegisterFrame, Spawned, Mmapped, UnmapPages;
    hide MappedWithin, RangeGone, Stored, HoldsTable;
    match c
    case Spawn => SpawnLoses(vm, f);
    case Mmap(root, start, n, flags) => MmapLoses(vm, root, start, n, flags, f);
    case Munmap(root, start, n) =>
      UnmapPagesClearsRange(vm, root, start, n);
      GoneLoses(vm, UnmapPages(vm, root, start, n), root, Pages(start, n), start % PAGE_SIZE == 0, f);
    case Brk(root, start, n) => BrkLoses(vm, root, start, n, f);
    case Store(g, i, e) => StoreLoses(vm, g, i, e, f);
  }

  // ---------------------------------------------------------------------------
  // The exact condition of a leak
  // ---------------------------------------------------------------------------

  ghost predicate SomeMapped(vm: Vm, root: nat, pages: set<nat>)
    requires Sound(vm)
  {
    exists v: nat :: v in pages && Leaf(vm, root, v).Some?
  }

  lemma SomeMappedIff(vm: Vm, root: nat, pages: set<nat>)
    requires Sound(vm)
    ensures SomeMapped(vm, root, pages) <==> exists f: nat :: MappedWithin(vm, root, pages, f)
  {
    hide Sound;
    if SomeMapped(vm, root, pages) {
      var v: nat :| v in pages && Leaf(vm, root, v).Some?;
      assert MappedTo(vm, root, v, FrameOf(Leaf(vm, root, v).value));
      assert MappedWithin(vm, root, pages, FrameOf(Leaf(vm, root, v).value));
    }
    if f: nat :| MappedWithin(vm, root, pages, f) {
      var v: nat :| v in pages && MappedTo(vm, root, v, f);
    }
  }

  /** Page i of a mapping loop is mapped already, and the free frames suffice to map it anew. */
  ghost predicate MapsOver(vm: Vm, root: nat, start: Word, i: nat)
    requires Sound(vm)
  {
    Need(vm, root, start, i + 1) <= |Free(vm)| && Leaf(vm, root, PageAt(start, i)).Some?
  }

  /** The free frames suffice for the pages before page i and one frame more, but not for page i with its tables. */
  ghost predicate RunsShort(vm: Vm, root: nat, start: Word, i: nat) {
    Need(vm, root, start, i) < |Free(vm)| < Need(vm, root, start, i + 1)
  }

  ghost predicate LoopIsLeaky(vm: Vm, root: nat, start: Word, n: nat)
    requires Sound(vm)
  {
    exists i: nat :: i < n && (MapsOver(vm, root, start, i) || RunsShort(vm, root, start, i))
  }

  /**
    When a call leaks, by the free frames, the missing tables and the mapped pages before it: a mapping
    loop maps over a mapped page, or runs short of frames for tables; sys_munmap, or a sys_brk that
    has to go back, unmaps a mapped page at an address that is not page-aligned.
   */
  ghost predicate IsLeaky(vm: Vm, c: Call)
    requires Owned(vm) && Allowed(vm, c)
  {
    match c
    case Spawn => false
    case Mmap(root, start, n, flags) => LoopIsLeaky(vm, root, start, n)
    case Munmap(root, start, n) => start % PAGE_SIZE != 0 && SomeMapped(vm, root, Pages(start, n))
    case Brk(root, start, n) =>
      || LoopIsLeaky(vm, root, start, n)
      || (start % PAGE_SIZE != 0 && n > 0 && 0 < |Free(vm)| <= Need(vm, root, start, n - 1))
    case Store(_, _, _) => false
  }

  /** Which iterations of a mapping loop are completed, and which of them map their page. */
  lemma CompletedIff(vm: Vm, root: nat, start: Word, n: nat, flags: nat, i: nat)
    requires Mappable(vm, root, flags) && Owned(vm)
    ensures var k := MapPages(vm, root, start, n, flags).1;
            && (i < k <==> i < n && Need(vm, root, start, i) < |Free(vm)|)
            && (i < PagesDone(vm, root, start, k) <==> i < n && Need(vm, root, start, i + 1) <= |Free(vm)|)
  {
    hide Owned, Sound, HasRoot, Need, Free, MapPages;
    var k := MapPages(vm, root, start, n, flags).1;
    CompletedLoop(vm, root, start, n, flags);
    MapPagesStops(vm, root, start, k, flags);
    if k < n {
      OneMoreFails(vm, root, start, n, flags);
      MapPagesStops(vm, root, start, k + 1, flags);
    }
    if i < k {
      NeedIsMonotone(vm, root, start, i, k - 1);
      NeedIsMonotone(vm, root, start, i + 1, k);
    } else {
      NeedIsMonotone(vm, root, start, k, i);
      NeedIsMonotone(vm, root, start, k, i + 1);
    }
    NeedIsMonotone(vm, root, start, i, i + 1);
    if 0 < k && i + 1 < k {
      NeedIsMonotone(vm, root, start, i + 1, k - 1);
    }
  }

  lemma {:induction false} OneMoreFails(vm: Vm, root: nat, start: Word, n: nat, flags: nat)
    requires Mappable(vm, root, flags) && MapPages(vm, root, start, n, flags).1 < n
    ensures var k := MapPages(vm, root, start, n, flags).1; MapPages(vm, root, start, k + 1, flags).1 == k
  {
    hide Sound, HasRoot, FreshMapped, AllocPage;
    if n > 0 && MapPages(vm, root, start, n - 1, flags).1 < n - 1 {
      OneMoreFails(vm, root, start, n - 1, flags);
    }
  }

  lemma {:induction false} PagesAre(start: Word, n: nat, v: nat)
    ensures v in Pages(start, n) <==> exists i: nat :: i < n && PageAt(start, i) == v
  {
    hide PageAt;
    if n > 0 {
      PagesAre(start, n - 1, v);
    }
  }

  lemma SomeMappedAt(vm: Vm, root: nat, start: Word, n: nat)
    requires Sound(vm)
    ensures SomeMapped(vm, root, Pages(start, n)) <==> exists i: nat :: i < n && Leaf(vm, root, PageAt(start, i)).Some?
  {
    hide Sound, PageAt, Pages;
    if SomeMapped(vm, root, Pages(start, n)) {
      var v: nat :| v in Pages(start, n) && Leaf(vm, root, v).Some?;
      PagesAre(start, n, v);
      var i: nat :| i < n && PageAt(start, i) == v;
    }
    if i: nat :| i < n && Leaf(vm, root, PageAt(start, i)).Some? {
      PagesAre(start, n, PageAt(start, i));
    }
  }

  /** What the loop did tells the same. */
  lemma LoopIsLeakyIff(vm: Vm, root: nat, start: Word, n: nat, flags: nat)
    requires Mappable(vm, root, flags) && Owned(vm)
    ensures var k := MapPages(vm, root, start, n, flags).1;
            LoopIsLeaky(vm, root, start, n)
            <==> || SomeMapped(vm, root, Pages(start, PagesDone(vm, root, start, k)))
                 || Spill(vm, root, start, k, flags) != {}
  {
    hide Owned, Sound, HasRoot, Need, Free, MapPages, PageAt, Pages, SomeMapped, PagesDone;
    var k := MapPages(vm, root, start, n, flags).1;
    SomeMappedAt(vm, root, start, PagesDone(vm, root, start, k));
    SpillIff(vm, root, start, k, flags);
    if SomeMapped(vm, root, Pages(start, PagesDone(vm, root, start, k))) {
      var i: nat :| i < PagesDone(vm, root, start, k) && Leaf(vm, root, PageAt(start, i)).Some?;
      CompletedIff(vm, root, start, n, flags, i);
      assert MapsOver(vm, root, start, i);
    }
    if Spill(vm, root, start, k, flags) != {} {
      CompletedIff(vm, root, start, n, flags, k - 1);
      assert RunsShort(vm, root, start, k - 1);
    }
    if i: nat :| i < n && MapsOver(vm, root, start, i) {
      CompletedIff(vm, root, start, n, flags, i);
      assert i < PagesDone(vm, root, start, k) && Leaf(vm, root, PageAt(start, i)).Some?;
    }
    if i: nat :| i < n && RunsShort(vm, root, start, i) {
      CompletedIff(vm, root, start, n, flags, i);
      RunsShortSpills(vm, root, start, i, k);
    }
  }

  lemma RunsShortSpills(vm: Vm, root: nat, start: Word, i: nat, k: nat)
    requires i < k && RunsShort(vm, root, start, i)
    ensures Need(vm, root, start, k) > |Free(vm)|
  {
    hide Need, Free;
    NeedIsMonotone(vm, root, start, i + 1, k);
  }

  lemma LoopLeaksIff(vm: Vm, root: nat, start: Word, n: nat, flags: nat)
    requires Mappable(vm, root, flags) && Owned(vm)
    ensures LoopIsLeaky(vm, root, start, n) <==> exists f: nat :: LoopLoses(vm, root, start, n, flags, f)
  {
    hide Owned, Sound, HasRoot, Need, Free, MapPages, SomeMapped, MappedWithin, AllocPage, LoopIsLeaky;
    LoopIsLeakyIff(vm, root, start, n, flags);
    var k := MapPages(vm, root, start, n, flags).1;
    var pages, spill := Pages(start, PagesDone(vm, root, start, k)), Spill(vm, root, start, k, flags);
    SomeMappedIff(vm, root, pages);
    if SomeMapped(vm, root, pages) {
      var f: nat :| MappedWithin(vm, root, pages, f);
      assert LoopLoses(vm, root, start, n, flags, f);
    }
    if spill != {} {
      var f: nat := FrameOf(AllocPage(MapPages(vm, root, start, k - 1, flags).0));
      assert LoopLoses(vm, root, start, n, flags, f);
    }
  }

  lemma FailedUnalignedBrkLeaks(vm: Vm, root: nat, start: Word, n: nat)
    requires Mappable(vm, root, 3) && Owned(vm) && 0 < MapPages(vm, root, start, n, 3).1 < n && start % PAGE_SIZE != 0
    ensures exists f: nat :: Leaks(vm, Brk(root, start, n), f)
  {
    hide Owned, Sound, HasRoot, Need, Free, Settled, MapPages, MappedWithin, SomeMapped, LoopIsLeaky, LoopLoses;
    var (m, k) := MapPages(vm, root, start, n, 3);
    LoopLeaksIff(vm, root, start, n, 3);
    MapPagesSettle(vm, root, start, n, 3);
    if f: nat :| LoopLoses(vm, root, start, n, 3, f) {
      assert Leaks(vm, Brk(root, start, n), f);
    } else {
      LoopIsLeakyIff(vm, root, start, n, 3);
      SpillIff(vm, root, start, k, 3);
      OwnedIsSound(m);
      FirstPageSettled(vm, m, root, start, k);
      SomeMappedIff(m, root, Pages(start, k));
      var f: nat :| MappedWithin(m, root, Pages(start, k), f);
      assert Leaks(vm, Brk(root, start, n), f);
    }
  }

  lemma FirstPageSettled(vm: Vm, m: Vm, root: nat, start: Word, k: nat)
    requires k > 0 && exists spill :: Settled(vm, m, root, Pages(start, k), spill)
    ensures Sound(m) && SomeMapped(m, root, Pages(start, k))
  {
    hide Sound, HoldsTable, MappedWithin, SameLeavesExcept, PageAt;
    assert PageAt(start, k - 1) in Pages(start, k);
  }

  lemma BrkLeaksIff(vm: Vm, root: nat, start: Word, n: nat)
    requires Mappable(vm, root, 3) && Owned(vm)
    ensures IsLeaky(vm, Brk(root, start, n)) <==> exists f: nat :: Leaks(vm, Brk(root, start, n), f)
  {
    hide Owned, Sound, HasRoot, LoopIsLeaky, LoopLoses, MappedWithin, MapPages, Need, Free;
    var c := Brk(root, start, n);
    LoopLeaksIff(vm, root, start, n, 3);
    if LoopIsLeaky(vm, root, start, n) {
      var f: nat :| LoopLoses(vm, root, start, n, 3, f);
      assert Leaks(vm, c, f);
    } else if IsLeaky(vm, c) {
      CompletedIff(vm, root, start, n, 3, 0);
      CompletedIff(vm, root, start, n, 3, n - 1);
      NoPagesNeedNothing(vm, root, start);
      FailedUnalignedBrkLeaks(vm, root, start, n);
    } else {
      UnleakyBrkLoses(vm, root, start, n);
    }
  }

  lemma LeaksIff(vm: Vm, c: Call)
    requires Owned(vm) && Allowed(vm, c)
    ensures IsLeaky(vm, c) <==> exists f: nat :: Leaks(vm, c, f)
  {
    OwnedIsSound(vm);
    hide Owned, Sound, HasRoot, LoopIsLeaky, LoopLoses, SomeMapped, MappedWithin, MapPages, HoldsTable;
    match c
    case Spawn =>
    case Mmap(root, start, n, flags) =>
      LoopLeaksIff(vm, root, start, n, flags);
      if LoopIsLeaky(vm, root, start, n) {
        var f: nat :| LoopLoses(vm, root, start, n, flags, f);
        assert Leaks(vm, c, f);
      }
    case Munmap(root, start, n) =>
      SomeMappedIff(vm, root, Pages(start, n));
      if IsLeaky(vm, c) {
        var f: nat :| MappedWithin(vm, root, Pages(start, n), f);
        assert Leaks(vm, c, f);
      }
    case Brk(root, start, n) => BrkLeaksIff(vm, root, start, n);
    case Store(_, _, _) =>
  }

  lemma UnleakyBrkLoses(vm: Vm, root: nat, start: Word, n: nat)
    requires Mappable(vm, root, 3) && Owned(vm)
    requires !(start % PAGE_SIZE != 0 && n > 0 && 0 < |Free(vm)| <= Need(vm, root, start, n - 1))
    ensures forall f: nat :: Leaks(vm, Brk(root, start, n), f) ==> LoopLoses(vm, root, start, n, 3, f)
  {
    hide Owned, Sound, HasRoot, Need, Free, MapPages, LoopLoses;
    CompletedIff(vm, root, start, n, 3, 0);
    if n > 0 {
      CompletedIff(vm, root, start, n, 3, n - 1);
    }
    NoPagesNeedNothing(vm, root, start);
    EmptyRange(MapPages(vm, root, start, n, 3).0, root, start);
  }

  lemma EmptyRange(m: Vm, root: nat, start: Word)
    requires Sound(m)
    ensures forall f: nat :: !MappedWithin(m, root, Pages(start, 0), f)
  {
  }

  /** With three frames left, mapping one page takes its frame and finds none for the third table. */
  lemma LeakIsReal(ram: seq<Word>)
    requires |ram| == RAM_WORDS
    ensures var vm, c := NearlyFull(ram, 3), Mmap(KERNEL_FRAMES, 0x20_0000, 1, 1);
            && Owned(vm) && Allowed(vm, c) && !Strands(vm, c) && IsLeaky(vm, c)
  {
    hide Sound, Owned, PageAt, Need, Free, Rooted, NearlyFull, MapPages, SomeMapped, MappedWithin;
    NearlyFullCosts(ram, 3);
    assert RunsShort(NearlyFull(ram, 3), KERNEL_FRAMES, 0x20_0000, 0);
  }

  /** Mapping one page twice, with five frames at first, leaks the frame of the first time. */
  lemma MapOverIsReal(ram: seq<Word>)
    requires |ram| == RAM_WORDS
    ensures var vm, c := OnePageMapped(ram), Mmap(KERNEL_FRAMES, 0x20_0000, 1, 1);
            && Owned(vm) && Allowed(vm, c) && !Strands(vm, c) && IsLeaky(vm, c)
  {
    hide Sound, Owned, PageAt, Need, Free, Rooted, OnePageMapped, MapPages, SomeMapped, MappedWithin;
    OnePageMappedCosts(ram);
    assert MapsOver(OnePageMapped(ram), KERNEL_FRAMES, 0x20_0000, 0);
  }

  /** The machine with five frames left, after one page was mapped: one frame is left. */
  ghost function OnePageMapped(ram: seq<Word>): Vm
    requires |ram| == RAM_WORDS
  {
    NearlyFullCosts(ram, 5);
    MapPages(NearlyFull(ram, 5), KERNEL_FRAMES, 0x20_0000, 1, 1).0
  }

  lemma OnePageMappedCosts(ram: seq<Word>)
    requires |ram| == RAM_WORDS
    ensures var vm := OnePageMapped(ram);
            && Mappable(vm, KERNEL_FRAMES, 3) && Owned(vm) && |Free(vm)| == 1
            && Need(vm, KERNEL_FRAMES, 0x20_0000, 0) == 0 && Need(vm, KERNEL_FRAMES, 0x20_0000, 1) == 1
            && Leaf(vm, KERNEL_FRAMES, PageAt(0x20_0000, 0)).Some?
  {
    hide Sound, Owned, PageAt, Free, Rooted, NearlyFull, MapPages, RangeMapped, PathSlots, HasRoot;
    var vm, m := NearlyFull(ram, 5), OnePageMapped(ram);
    NearlyFullCosts(ram, 5);
    MapPagesOutcome(vm, KERNEL_FRAMES, 0x20_0000, 1, 1);
    MapPagesOwned(vm, KERNEL_FRAMES, 0x20_0000, 1, 1);
    MapPagesMapsRange(vm, KERNEL_FRAMES, 0x20_0000, 1, 1);
    RangeIsMapped(vm, m, KERNEL_FRAMES, Pages(0x20_0000, 1));
    assert PageAt(0x20_0000, 0) in Pages(0x20_0000, 1);
    NoPagesNeedNothing(m, KERNEL_FRAMES, 0x20_0000);
    assert TablesFor(KERNEL_FRAMES, 0x20_0000, 1) - m.tables.Keys == {};
  }

  // ---------------------------------------------------------------------------
  // Whole runs
  // ---------------------------------------------------------------------------

  /** Some call of the run leaks the frame. */
  ghost predicate LeakedInRun(vm: Vm, calls: seq<Call>, f: nat)
    requires Owned(vm) && NoneStrands(vm, calls)
    decreases |calls|
  {
    calls != [] &&
    (|| Leaks(vm, calls[0], f)
     || (StepKeepsOwnershipIff(vm, calls[0]);
         LeakedInRun(Step(vm, calls[0]), calls[1..], f)))
  }

  ghost predicate NoneLeaks(vm: Vm, calls: seq<Call>)
    requires Owned(vm) && NoneStrands(vm, calls)
    decreases |calls|
  {
    calls == [] ||
    (&& !IsLeaky(vm, calls[0])
     && (StepKeepsOwnershipIff(vm, calls[0]);
         NoneLeaks(Step(vm, calls[0]), calls[1..])))
  }

  /** The register frames of the processes the run creates. */
  ghost function RegisterFrames(vm: Vm, calls: seq<Call>): set<nat>
    requires Owned(vm) && NoneStrands(vm, calls)
    decreases |calls|
  {
    if calls == [] then {}
    else
      StepKeepsOwnershipIff(vm, calls[0]);
      (if calls[0].Spawn? then RegisterFrame(vm) else {}) + RegisterFrames(Step(vm, calls[0]), calls[1..])
  }

  lemma {:induction false} LostAfterRun(vm: Vm, calls: seq<Call>, f: nat)
    requires Owned(vm) && NoneStrands(vm, calls)
    ensures Lost(Run(vm, calls), f) <==> Lost(vm, f) || LeakedInRun(vm, calls, f) || f in RegisterFrames(vm, calls)
    decreases |calls|
  {
    hide Owned, Sound, Lost, Leaks, RegisterFrame, Allowed, Strands, Step;
    if calls != [] {
      StepKeepsOwnershipIff(vm, calls[0]);
      StepLoses(vm, calls[0], f);
      LostAfterRun(Step(vm, calls[0]), calls[1..], f);
    }
  }

  /** No frame is leaked in a run if and only if none of its calls is leaky when it is made. */
  lemma {:induction false} NoneLeaksIff(vm: Vm, calls: seq<Call>)
    requires Owned(vm) && NoneStrands(vm, calls)
    ensures NoneLeaks(vm, calls) <==> forall f: nat :: !LeakedInRun(vm, calls, f)
    decreases |calls|
  {
    hide Owned, Sound, Leaks, IsLeaky, Allowed, Strands, Step;
    if calls != [] {
      StepKeepsOwnershipIff(vm, calls[0]);
      LeaksIff(vm, calls[0]);
      var next, rest := Step(vm, calls[0]), calls[1..];
      NoneLeaksIff(next, rest);
      if IsLeaky(vm, calls[0]) {
        var f: nat :| Leaks(vm, calls[0], f);
        assert LeakedInRun(vm, calls, f);
      } else if !NoneLeaks(next, rest) {
        var f: nat :| LeakedInRun(next, rest, f);
        assert LeakedInRun(vm, calls, f);
      } else {
        forall f: nat ensures !LeakedInRun(vm, calls, f) {
          assert !Leaks(vm, calls[0], f) && !LeakedInRun(next, rest, f);
        }
      }
    }
  }

  /**
    Over every run from mm_init in which no sys_mmap strands pages, every used frame is reserved, a page
    table, mapped, the register frame of a process, or leaked; and register and leaked frames are
    neither tables nor mapped, nor ever given back.
   */
  lemma UsedFramesAccounted(boot: Vm, calls: seq<Call>, f: nat)
    requires Booted(boot) && (BootedIsOwned(boot); NoneStrands(boot, calls))
    ensures var end := Run(boot, calls);
            var other := f in RegisterFrames(boot, calls) || LeakedInRun(boot, calls, f);
            && Sound(end)
            && (f in end.used <==> f < KERNEL_FRAMES || HoldsTable(end.tables, f) || Mapped(end, f) || other)
            && (other ==> f >= KERNEL_FRAMES && !HoldsTable(end.tables, f) && !Mapped(end, f))
  {
    BootedIsOwned(boot);
    NothingLostAtBoot(boot, f);
    LostAfterRun(boot, calls, f);
    KernelFramesUsed(Run(boot, calls), f);
    hide Owned, Sound, Mapped, HoldsTable, Run, RegisterFrames, LeakedInRun;
    OwnedFrame(Run(boot, calls), f);
  }

  lemma NothingLostAtBoot(boot: Vm, f: nat)
    requires Booted(boot)
    ensures !Lost(boot, f)
  {
    assert f in KernelFrames() ==> f < KERNEL_FRAMES;
  }

  lemma KernelFramesUsed(vm: Vm, f: nat)
    requires Owned(vm)
    ensures f < KERNEL_FRAMES ==> f in vm.used
  {
    assert f < KERNEL_FRAMES ==> Below(f, KERNEL_FRAMES) && f in KernelFrames();
  }

  // ---------------------------------------------------------------------------
  // sys_mmap on its way back
  // ---------------------------------------------------------------------------

  lemma FreedOneMore(m: Vm, u: Vm, root: nat, start: Word, i: nat, f: nat)
    requires Owned(m) && Sound(u) && u.ram == m.ram && u.tables == m.tables && start % PAGE_SIZE == 0
    ensures f in FrameFreed(u, root, AddressAt(start, i)).used <==>
            f in u.used && (OwnedIsSound(m); !MappedTo(m, root, PageAt(start, i), f))
  {
    hide Sound, AddressAt, Vpn, WithOffset, FrameOf, Freeable, Owned;
    OwnedIsSound(m);
    var a := AddressAt(start, i);
    AddressesAligned(start, i);
    assert Leaf(u, root, Vpn(a)) == Leaf(m, root, Vpn(a));
    if Leaf(m, root, Vpn(a)).Some? {
      MappedAddress(m, root, a);
    }
  }

  lemma WithinOneMore(m: Vm, root: nat, pages: set<nat>, v: nat, f: nat)
    requires Sound(m)
    ensures MappedWithin(m, root, pages + {v}, f) <==> MappedWithin(m, root, pages, f) || MappedTo(m, root, v, f)
  {
    hide Sound, MappedTo;
    if MappedWithin(m, root, pages, f) {
      var w: nat :| w in pages && MappedTo(m, root, w, f);
      assert w in pages + {v};
    }
    if MappedTo(m, root, v, f) {
      assert v in pages + {v};
    }
  }

  /** From an aligned address the out-of-memory path releases exactly the frames of the pages it goes through. */
  lemma {:induction false} FramesFreedExactly(m: Vm, root: nat, start: Word, n: nat, f: nat)
    requires Owned(m) && start % PAGE_SIZE == 0
    ensures (OwnedParts(m); f in FramesFreed(m, root, start, n).used <==>
                            f in m.used && !MappedWithin(m, root, Pages(start, n), f))
  {
    hide Sound, Owned, TablesUnmapped, FrameFreed, PageAt, AddressAt, MappedTo;
    OwnedParts(m);
    if n > 0 {
      FramesFreedExactly(m, root, start, n - 1, f);
      FreedOneMore(m, FramesFreed(m, root, start, n - 1), root, start, n - 1, f);
      WithinOneMore(m, root, Pages(start, n - 1), PageAt(start, n - 1), f);
    }
  }

  lemma NoPageForSpill(vm: Vm, root: nat, start: Word, n: nat, flags: nat, f: nat)
    requires Mappable(vm, root, flags) && Owned(vm)
    ensures var (m, k) := MapPages(vm, root, start, n, flags);
            MappedWithin(m, root, Pages(start, k), f) <==>
            MappedWithin(m, root, Pages(start, PagesDone(vm, root, start, k)), f)
  {
    hide Sound, Owned, HasRoot, Need, Free, MapPages, PageAt, MappedWithin;
    var (m, k) := MapPages(vm, root, start, n, flags);
    CompletedLoop(vm, root, start, n, flags);
    if PagesDone(vm, root, start, k) != k {
      LastPageMissing(vm, root, start, k, flags);
      WithinOneMore(m, root, Pages(start, k - 1), PageAt(start, k - 1), f);
    }
  }

  lemma PageFramesAreNew(vm: Vm, m: Vm, root: nat, pages: set<nat>, spill: set<nat>, f: nat)
    requires Owned(m) && Settled(vm, m, root, pages, spill) && MappedWithin(m, root, pages, f)
    ensures f !in vm.used && !HoldsTable(m.tables, f) && f !in spill
  {
    hide Sound, HoldsTable, SameLeavesExcept;
    var v: nat :| v in pages && MappedTo(m, root, v, f);
    var g :| g in Free(vm) && MappedTo(m, root, v, g);
  }

  /**
    A sys_mmap that fails at an aligned address gives back the frames of all the pages it mapped, and leaves the
    pages mapped: the used frames have grown by the page tables made and the frame spilled for the last page,
    if one was, and no translation changes on the way back.
   */
  lemma FailedMmapGivesBack(vm: Vm, root: nat, start: Word, n: nat, flags: nat, f: nat)
    requires Mappable(vm, root, flags) && Owned(vm) && start % PAGE_SIZE == 0
    requires n > 0 && |Free(vm)| <= Need(vm, root, start, n - 1)
    ensures var (m, k) := MapPages(vm, root, start, n, flags);
            var u := Mmapped(vm, root, start, n, flags);
            && k < n && Sound(u) && SameLeaves(m, u)
            && (f in u.used <==> f in vm.used || HoldsTable(u.tables, f) || f in Spill(vm, root, start, k, flags))
  {
    hide Sound, Owned, HasRoot, Need, Free, MapPages, Settled, HoldsTable, MappedWithin, FramesFreed, Spill, PagesDone;
    var (m, k) := MapPages(vm, root, start, n, flags);
    MapPagesStops(vm, root, start, n, flags);
    MapPagesSettle(vm, root, start, n, flags);
    OwnedParts(m);
    FramesFreedExactly(m, root, start, k, f);
    NoPageForSpill(vm, root, start, n, flags, f);
    var pages, spill := Pages(start, PagesDone(vm, root, start, k)), Spill(vm, root, start, k, flags);
    SettledFrame(vm, m, root, pages, spill, f);
    if MappedWithin(m, root, pages, f) {
      PageFramesAreNew(vm, m, root, pages, spill, f);
    }
    forall r: nat, v: nat ensures Leaf(FramesFreed(m, root, start, k), r, v) == Leaf(m, r, v) {}
  }

  // ---------------------------------------------------------------------------
  // sys_brk on its way back
  // ---------------------------------------------------------------------------

  /** The frames used have grown by the page tables made and nothing else. */
  ghost predicate GrownByTables(vm: Vm, u: Vm) {
    forall f: nat :: f in u.used <==> f in vm.used || HoldsTable(u.tables, f)
  }

  lemma BrkGrowsIff(vm: Vm, root: nat, oldBrk: Word, n: nat)
    requires Mappable(vm, root, 3) && Owned(vm)
    ensures HeapGrown(vm, root, oldBrk, n).1 <==> n == 0 || Need(vm, root, oldBrk, n - 1) < |Free(vm)|
  {
    hide Owned, Sound, HasRoot, Need, Free, MapPages, UnmapPages;
    MapPagesStops(vm, root, oldBrk, n, 3);
  }

  /**
    A sys_brk that cannot grow the heap, because the frames do not reach the last page, restores every
    translation if and only if none of the pages it got to was mapped before: its way back unmaps
    them all. The frames used have grown by exactly the page tables made if and only if the frames
    ran out just after some pages with their tables and the break was page-aligned, or at once.
   */
  lemma FailedBrkRestoresIff(vm: Vm, root: nat, oldBrk: Word, n: nat)
    requires Mappable(vm, root, 3) && Owned(vm)
    requires n > 0 && |Free(vm)| <= Need(vm, root, oldBrk, n - 1)
    ensures var (u, grown) := HeapGrown(vm, root, oldBrk, n);
            && !grown && Owned(u) && Sound(u)
            && (SameLeaves(vm, u) <==>
                  !exists i: nat ::
                    i < n && Need(vm, root, oldBrk, i) < |Free(vm)| && Leaf(vm, root, PageAt(oldBrk, i)).Some?)
            && (GrownByTables(vm, u) <==>
                  exists i: nat ::
                    i < n && Need(vm, root, oldBrk, i) == |Free(vm)| && (i == 0 || oldBrk % PAGE_SIZE == 0))
  {
    BrkGrowsIff(vm, root, oldBrk, n);
    FailedBrkTranslations(vm, root, oldBrk, n);
    FailedBrkFrames(vm, root, oldBrk, n);
    OwnedIsSound(HeapGrown(vm, root, oldBrk, n).0);
  }

  lemma FailedBrkTranslations(vm: Vm, root: nat, oldBrk: Word, n: nat)
    requires Mappable(vm, root, 3) && Owned(vm) && !HeapGrown(vm, root, oldBrk, n).1
    ensures Sound(HeapGrown(vm, root, oldBrk, n).0)
    ensures SameLeaves(vm, HeapGrown(vm, root, oldBrk, n).0) <==>
              !exists i: nat :: i < n && Need(vm, root, oldBrk, i) < |Free(vm)|
                  && Leaf(vm, root, PageAt(oldBrk, i)).Some?
  {
    hide Owned, Sound, HasRoot, Settled, Need, Free, MapPages, RangeGone, UnmapPages, SameLeaves, Spill, PagesDone;
    hide SomeMapped, PageAt;
    var (m, k) := MapPages(vm, root, oldBrk, n, 3);
    MapPagesSettle(vm, root, oldBrk, n, 3);
    var u := UnmapPages(m, root, oldBrk, k);
    UnmapPagesClearsRange(m, root, oldBrk, k);
    PagesWithin(vm, root, oldBrk, k, n);
    OwnedIsSound(u);
    RangeRestoredIff(vm, m, u, root, Pages(oldBrk, PagesDone(vm, root, oldBrk, k)), Pages(oldBrk, k),
      Spill(vm, root, oldBrk, k, 3), oldBrk % PAGE_SIZE == 0);
    SomeMappedAt(vm, root, oldBrk, k);
    if i: nat :| i < k && Leaf(vm, root, PageAt(oldBrk, i)).Some? {
      CompletedIff(vm, root, oldBrk, n, 3, i);
    }
    if i: nat :| i < n && Need(vm, root, oldBrk, i) < |Free(vm)| && Leaf(vm, root, PageAt(oldBrk, i)).Some? {
      CompletedIff(vm, root, oldBrk, n, 3, i);
    }
  }

  lemma FailedBrkFrames(vm: Vm, root: nat, oldBrk: Word, n: nat)
    requires Mappable(vm, root, 3) && Owned(vm) && !HeapGrown(vm, root, oldBrk, n).1
    ensures GrownByTables(vm, HeapGrown(vm, root, oldBrk, n).0) <==>
              exists i: nat :: i < n && Need(vm, root, oldBrk, i) == |Free(vm)| && (i == 0 || oldBrk % PAGE_SIZE == 0)
  {
    hide Owned, Sound, HasRoot, Settled, Need, Free, MapPages, RangeGone, UnmapPages, MappedWithin, HoldsTable;
    hide Spill, PagesDone, GrownByTables;
    var (m, k) := MapPages(vm, root, oldBrk, n, 3);
    MapPagesSettle(vm, root, oldBrk, n, 3);
    var u := UnmapPages(m, root, oldBrk, k);
    var aligned := oldBrk % PAGE_SIZE == 0;
    var pages, done := Pages(oldBrk, k), Pages(oldBrk, PagesDone(vm, root, oldBrk, k));
    UnmapPagesClearsRange(m, root, oldBrk, k);
    PagesWithin(vm, root, oldBrk, k, n);
    OwnedIsSound(vm);
    OwnedIsSound(m);
    UndonePages(vm, root, oldBrk, n, 3);
    UsedGrownIff(vm, m, u, root, done, pages, Spill(vm, root, oldBrk, k, 3), aligned);
    WhereItStopped(vm, root, oldBrk, n, k);
    SpillIff(vm, root, oldBrk, k, 3);
    NoPagesNeedNothing(vm, root, oldBrk);
    assert GrownByTables(vm, u) <==> Need(vm, root, oldBrk, k) == |Free(vm)| && (k == 0 || aligned);
  }

  /** A page that a completed iteration failed to map is not mapped. */
  lemma UndonePages(vm: Vm, root: nat, start: Word, n: nat, flags: nat)
    requires Mappable(vm, root, flags) && Owned(vm)
    ensures var (m, k) := MapPages(vm, root, start, n, flags);
            && Sound(m)
            && forall v: nat :: v in Pages(start, k) && v !in Pages(start, PagesDone(vm, root, start, k))
                ==> Leaf(m, root, v) == None
  {
    hide Owned, Sound, HasRoot, Need, Free, MapPages, PageAt;
    var (m, k) := MapPages(vm, root, start, n, flags);
    CompletedLoop(vm, root, start, n, flags);
    if k > 0 && Need(vm, root, start, k) > |Free(vm)| {
      LastPageMissing(vm, root, start, k, flags);
      assert Pages(start, k) == Pages(start, k - 1) + {PageAt(start, k - 1)};
    }
  }

  lemma {:induction false} PagesWithin(vm: Vm, root: nat, start: Word, k: nat, n: nat)
    requires k <= n
    ensures Pages(start, k) <= Pages(start, n)
    ensures Pages(start, PagesDone(vm, root, start, k)) <= Pages(start, k)
    ensures k > 0 <==> Pages(start, k) != {}
    decreases n
  {
    hide PageAt, Need, Free;
    if k > 0 {
      assert PageAt(start, k - 1) in Pages(start, k);
    }
    if k < n {
      PagesWithin(vm, root, start, k, n - 1);
    }
  }

  lemma RangeRestoredIff(vm: Vm, m: Vm, u: Vm, root: nat, done: set<nat>, pages: set<nat>, spill: set<nat>, freed: bool)
    requires Settled(vm, m, root, done, spill) && RangeGone(m, u, root, pages, freed) && done <= pages
    requires Sound(vm) && Sound(u)
    ensures SameLeaves(vm, u) <==> !SomeMapped(vm, root, pages)
  {
    hide Owned, Sound, HoldsTable, MappedWithin, MappedTo, Free;
    if SomeMapped(vm, root, pages) {
      var v: nat :| v in pages && Leaf(vm, root, v).Some?;
      assert Leaf(u, root, v) == None;
    } else {
      forall r: nat, v: nat ensures Leaf(u, r, v) == Leaf(vm, r, v) {
        if r != root || v !in pages {
          assert Leaf(u, r, v) == Leaf(m, r, v) == Leaf(vm, r, v);
        }
      }
    }
  }

  /** A frame after the mapping loop and its undoing. */
  lemma UsedAfterUndoing(vm: Vm, m: Vm, u: Vm, root: nat, done: set<nat>, pages: set<nat>, spill: set<nat>,
                         freed: bool, f: nat)
    requires Settled(vm, m, root, done, spill) && RangeGone(m, u, root, pages, freed) && done <= pages
    requires Owned(vm) && Sound(vm) && Owned(m) && Sound(m)
    requires forall v: nat :: v in pages && v !in done ==> Leaf(m, root, v) == None
    ensures f in u.used <==>
              f in vm.used || HoldsTable(u.tables, f) || f in spill || (!freed && MappedWithin(m, root, pages, f))
    ensures f in spill || MappedWithin(m, root, pages, f) ==> f !in vm.used && !HoldsTable(u.tables, f)
  {
    hide Owned, Sound, HoldsTable, MappedWithin, Mapped, Settled, Free, SameLeavesExcept, RangeGone, Leaf;
    SettledFrame(vm, m, root, done, spill, f);
    GoneFrame(m, u, root, pages, freed, f);
    OwnedFrame(vm, f);
    OwnedFrame(m, f);
    OnlyDoneMapped(m, root, done, pages, f);
    MappedInRangeOrBefore(vm, m, root, done, f);
  }

  lemma OnlyDoneMapped(m: Vm, root: nat, done: set<nat>, pages: set<nat>, f: nat)
    requires Sound(m) && done <= pages
    requires forall v: nat :: v in pages && v !in done ==> Leaf(m, root, v) == None
    ensures MappedWithin(m, root, pages, f) <==> MappedWithin(m, root, done, f)
  {
    hide Sound;
    if MappedWithin(m, root, done, f) {
      var v: nat :| v in done && MappedTo(m, root, v, f);
      assert v in pages;
    }
  }

  lemma UsedGrownIff(vm: Vm, m: Vm, u: Vm, root: nat, done: set<nat>, pages: set<nat>, spill: set<nat>, freed: bool)
    requires Settled(vm, m, root, done, spill) && RangeGone(m, u, root, pages, freed) && done <= pages
    requires Owned(vm) && Sound(vm) && Owned(m) && Sound(m)
    requires forall v: nat :: v in pages && v !in done ==> Leaf(m, root, v) == None
    ensures GrownByTables(vm, u) <==> spill == {} && (freed || done == {})
  {
    hide Owned, Sound, HoldsTable, MappedWithin, Mapped, Settled, Free, SameLeavesExcept, RangeGone, Leaf;
    hide GrownByTables;
    OwnedIsSound(m);
    assert forall f: nat :: UsedMeans(vm, m, u, root, pages, spill, freed, f) by {
      forall f: nat ensures UsedMeans(vm, m, u, root, pages, spill, freed, f) {
        UsedAfterUndoing(vm, m, u, root, done, pages, spill, freed, f);
      }
    }
    if spill == {} && (freed || done == {}) {
      NothingLeft(vm, m, u, root, done, pages, spill, freed);
    } else {
      SomethingLeft(vm, m, u, root, done, pages, spill, freed);
    }
  }

  ghost predicate UsedMeans(vm: Vm, m: Vm, u: Vm, root: nat, pages: set<nat>, spill: set<nat>, freed: bool, f: nat)
    requires Sound(m)
  {
    && (f in u.used <==>
          f in vm.used || HoldsTable(u.tables, f) || f in spill || (!freed && MappedWithin(m, root, pages, f)))
    && (f in spill || MappedWithin(m, root, pages, f) ==> f !in vm.used && !HoldsTable(u.tables, f))
  }

  lemma NothingLeft(vm: Vm, m: Vm, u: Vm, root: nat, done: set<nat>, pages: set<nat>, spill: set<nat>, freed: bool)
    requires Sound(vm) && Sound(m) && forall f: nat :: UsedMeans(vm, m, u, root, pages, spill, freed, f)
    requires Settled(vm, m, root, done, spill) && done <= pages
    requires forall v: nat :: v in pages && v !in done ==> Leaf(m, root, v) == None
    requires spill == {} && (freed || done == {})
    ensures GrownByTables(vm, u)
  {
    hide Sound, HoldsTable, MappedTo, Free, Leaf;
    forall f: nat ensures f in u.used <==> f in vm.used || HoldsTable(u.tables, f) {
      assert UsedMeans(vm, m, u, root, pages, spill, freed, f);
      OnlyDoneMapped(m, root, done, pages, f);
    }
  }

  lemma SomethingLeft(vm: Vm, m: Vm, u: Vm, root: nat, done: set<nat>, pages: set<nat>, spill: set<nat>, freed: bool)
    requires Sound(vm) && Sound(m) && forall f: nat :: UsedMeans(vm, m, u, root, pages, spill, freed, f)
    requires Settled(vm, m, root, done, spill) && done <= pages && (forall v :: v in done ==> v >= 0)
    requires spill != {} || (!freed && done != {})
    ensures !GrownByTables(vm, u)
  {
    hide Sound, HoldsTable, MappedTo, Free, SameLeavesExcept;
    var f: nat;
    if spill != {} {
      f :| f in spill;
    } else {
      var v: nat :| v in done;
      f :| f in Free(vm) && MappedTo(m, root, v, f);
      assert v in pages;
      assert MappedWithin(m, root, pages, f);
    }
    assert UsedMeans(vm, m, u, root, pages, spill, freed, f);
  }

  /** The loop stopped after k pages: their cost is the first to reach the free frames. */
  lemma WhereItStopped(vm: Vm, root: nat, start: Word, n: nat, k: nat)
    requires Mappable(vm, root, 3) && Owned(vm) && MapPages(vm, root, start, n, 3).1 == k < n
    ensures Need(vm, root, start, k) >= |Free(vm)|
    ensures forall i: nat :: i < n && Need(vm, root, start, i) == |Free(vm)| ==> i == k
  {
    hide Owned, Sound, HasRoot, Need, Free, MapPages;
    CompletedLoop(vm, root, start, n, 3);
    OneMoreFails(vm, root, start, n, 3);
    MapPagesStops(vm, root, start, k + 1, 3);
    MapPagesStops(vm, root, start, k, 3);
    forall i: nat | i < n && Need(vm, root, start, i) == |Free(vm)| ensures i == k {
      if i < k {
        NeedIsMonotone(vm, root, start, i, k - 1);
      } else {
        NeedIsMonotone(vm, root, start, k, i);
      }
    }
  }

  lemma SpillIff(vm: Vm, root: nat, start: Word, k: nat, flags: nat)
    requires Mappable(vm, root, flags)
    ensures Spill(vm, root, start, k, flags) == {} <==> k == 0 || Need(vm, root, start, k) <= |Free(vm)|
    ensures Spill(vm, root, start, k, flags) == {} ==> PagesDone(vm, root, start, k) == k
  {
  }

  /** Growing the heap by two pages over a mapped one, with one frame left, fails and unmaps it. */
  lemma FailedBrkUnmapsIsReal(ram: seq<Word>)
    requires |ram| == RAM_WORDS
    ensures var vm := OnePageMapped(ram);
            && Mappable(vm, KERNEL_FRAMES, 3) && Owned(vm)
            && var (u, grown) := HeapGrown(vm, KERNEL_FRAMES, 0x20_0000, 2);
            && !grown && Owned(u) && Sound(vm) && Sound(u) && !SameLeaves(vm, u)
  {
    hide Sound, Owned, PageAt, Need, Free, OnePageMapped, MapPages, UnmapPages, SameLeaves, GrownByTables;
    OnePageMappedCosts(ram);
    FailedBrkRestoresIff(OnePageMapped(ram), KERNEL_FRAMES, 0x20_0000, 2);
    OwnedIsSound(OnePageMapped(ram));
    assert Need(OnePageMapped(ram), KERNEL_FRAMES, 0x20_0000, 0) < |Free(OnePageMapped(ram))|;
  }

  /** Growing it by two pages with three frames left fails and keeps the frame of the first page. */
  lemma FailedBrkKeepsFrameIsReal(ram: seq<Word>)
    requires |ram| == RAM_WORDS
    ensures var vm := NearlyFull(ram, 3);
            && Mappable(vm, KERNEL_FRAMES, 3) && Owned(vm)
            && var (u, grown) := HeapGrown(vm, KERNEL_FRAMES, 0x20_0000, 2);
            && !grown && !GrownByTables(vm, u)
  {
    hide Sound, Owned, PageAt, Need, Free, NearlyFull, MapPages, UnmapPages, SameLeaves, GrownByTables;
    var vm := NearlyFull(ram, 3);
    NearlyFullCosts(ram, 3);
    FailedBrkRestoresIff(vm, KERNEL_FRAMES, 0x20_0000, 2);
  }
}
