/**
  sys_mmap, sys_munmap and sys_brk as whole calls: munmap undoes mmap, the exact condition under
  which sys_mmap's out-of-memory path breaks frame ownership, and ownership over whole runs.
 */
module MemoryCalls {
  import opened CTypes
  import opened FrameAllocation
  import opened PageTables
  import opened VirtualMemory
  import opened AddressSpaces
  import opened PageLoops

  // ---------------------------------------------------------------------------
  // munmap undoes mmap
  // ---------------------------------------------------------------------------

  lemma RangeWasEmpty(vm: Vm, m: Vm, u: Vm, root: nat, pages: set<nat>, freed: bool, r: nat, v: nat)
    requires RangeMapped(vm, m, root, pages) && RangeGone(m, u, root, pages, freed)
    requires v in pages && r == root ==> Leaf(vm, root, v) == None
    ensures Leaf(u, r, v) == Leaf(vm, r, v)
  {
    hide Sound, Owned;
    OwnedIsSound(u);
    if r != root || v !in pages {
      assert Leaf(u, r, v) == Leaf(m, r, v) == Leaf(vm, r, v);
    }
  }

  lemma FrameWasFree(vm: Vm, m: Vm, root: nat, pages: set<nat>, f: nat)
    requires Owned(vm) && Owned(m) && RangeMapped(vm, m, root, pages) && MappedWithin(m, root, pages, f)
    ensures f !in vm.used && !HoldsTable(m.tables, f)
  {
    hide Sound, HoldsTable;
    var v: nat :| v in pages && MappedTo(m, root, v, f);
    var g :| g in Free(vm) && MappedTo(m, root, v, g);
    OneFrame(m, root, v, g, f);
  }

  /**
    Mapping a page-aligned range that was unmapped, with the frames for it at hand, and then
    unmapping it restores every translation, and the frames used have grown by exactly the
    page tables that were made.
   */
  lemma MunmapUndoesMmap(vm: Vm, root: nat, start: Word, n: nat, flags: nat)
    requires Mappable(vm, root, flags) && Owned(vm) && Need(vm, root, start, n) <= |Free(vm)|
    requires start % PAGE_SIZE == 0
    requires forall v: nat :: v in Pages(start, n) ==> Leaf(vm, root, v) == None
    ensures var m := MapPages(vm, root, start, n, flags).0;
            && Owned(m)
            && var u := UnmapPages(m, root, start, n);
            && Owned(u) && SameLeaves(vm, u)
            && u.tables.Keys == vm.tables.Keys + TablesFor(root, start, n)
            && forall f :: f in u.used <==> f in vm.used || HoldsTable(u.tables, f)
  {
    hide Sound, Owned, Free, HasRoot, RangeMapped, RangeGone, PathSlots, PageAt, Need, LoopState, HoldsTable;
    hide MappedWithin;
    MapPagesOutcome(vm, root, start, n, flags);
    MapPagesMapsRange(vm, root, start, n, flags);
    var (m, k) := MapPages(vm, root, start, n, flags);
    LoopStateTables(vm, m, k, root, start, n);
    UnmapPagesClearsRange(m, root, start, n);
    var u := UnmapPages(m, root, start, n);
    var pages := Pages(start, n);
    RangesAreSound(vm, m, u, root, pages, true);
    forall r: nat, v: nat ensures Leaf(u, r, v) == Leaf(vm, r, v) {
      RangeWasEmpty(vm, m, u, root, pages, true, r, v);
    }
    forall f ensures f in u.used <==> f in vm.used || HoldsTable(u.tables, f) {
      RoundTripUsed(vm, m, u, root, pages, f);
    }
  }

  lemma LoopStateTables(vm: Vm, m: Vm, k: nat, root: nat, start: Word, n: nat)
    requires LoopState(vm, m, k, root, start, n) && Need(vm, root, start, n) <= |Free(vm)|
    ensures Owned(m) && m.tables.Keys == vm.tables.Keys + TablesFor(root, start, n)
  {
  }

  lemma RangesAreSound(vm: Vm, m: Vm, u: Vm, root: nat, pages: set<nat>, freed: bool)
    requires RangeMapped(vm, m, root, pages) && RangeGone(m, u, root, pages, freed)
    ensures Sound(vm) && Sound(m) && Sound(u) && u.tables == m.tables
  {
  }

  lemma RoundTripUsed(vm: Vm, m: Vm, u: Vm, root: nat, pages: set<nat>, f: nat)
    requires Owned(vm) && RangeMapped(vm, m, root, pages) && RangeGone(m, u, root, pages, true)
    ensures f in u.used <==> f in vm.used || HoldsTable(u.tables, f)
  {
    hide Sound, Owned, HoldsTable, MappedTo;
    if MappedWithin(m, root, pages, f) {
      FrameWasFree(vm, m, root, pages, f);
    }
  }

  // ---------------------------------------------------------------------------
  // The out-of-memory path of sys_mmap
  // ---------------------------------------------------------------------------

  /** It releases the frames of the pages done so far and leaves the pages mapped. */
  ghost function FramesFreed(vm: Vm, root: nat, start: Word, n: nat): (vm': Vm)
    requires Sound(vm) && TablesUnmapped(vm)
    ensures Sound(vm') && TablesUnmapped(vm') && vm'.ram == vm.ram && vm'.tables == vm.tables && vm'.used <= vm.used
  {
    if n == 0 then vm
    else
      var m := FramesFreed(vm, root, start, n - 1);
      FrameFreedWorks(m, root, AddressAt(start, n - 1));
      FrameFreed(m, root, AddressAt(start, n - 1))
  }

  ghost function FrameFreed(vm: Vm, root: nat, a: Word): Vm
    requires Sound(vm)
  {
    var pa := PhysicalAddress(Leaf(vm, root, Vpn(a)), a);
    if pa == 0 then vm else Released(vm, pa)
  }

  lemma FrameFreedWorks(vm: Vm, root: nat, a: Word)
    requires Sound(vm) && TablesUnmapped(vm)
    ensures var u := FrameFreed(vm, root, a);
            Sound(u) && TablesUnmapped(u) && u.ram == vm.ram && u.tables == vm.tables && u.used <= vm.used
  {
    hide Sound, HoldsTable, Vpn;
    var leaf := Leaf(vm, root, Vpn(a));
    if leaf.Some? {
      OffsetKeepsFrame(leaf.value, a);
      assert MappedTo(vm, root, Vpn(a), FrameOf(leaf.value));
    }
    var pa := PhysicalAddress(leaf, a);
    if pa != 0 {
      ReleaseKeepsSound(vm, pa);
      SameMappings(vm, Released(vm, pa));
    }
  }

  lemma OffsetKeepsFrame(e: Word, a: Word)
    ensures FrameOf(WithOffset(e, a)) == WithOffset(e, a) / PAGE_SIZE == FrameOf(e)
    ensures WithOffset(e, a) % PAGE_SIZE == a % PAGE_SIZE
  {
    assert AddressOf(e) == FrameOf(e) * PAGE_SIZE;
  }

  lemma SameMappings(vm: Vm, u: Vm)
    requires Sound(vm) && Sound(u) && SameLeaves(vm, u) && TablesUnmapped(vm) && u.tables == vm.tables
    ensures TablesUnmapped(u)
  {
    hide Sound, HoldsTable;
    forall root: nat, v: nat, f: nat | MappedTo(u, root, v, f) ensures !HoldsTable(u.tables, f) {
      assert Leaf(u, root, v) == Leaf(vm, root, v);
      assert MappedTo(vm, root, v, f);
    }
  }

  /** From an unaligned address free_page rejects every address, so nothing is released. */
  lemma {:induction false} UnalignedFreesNothing(vm: Vm, root: nat, start: Word, n: nat)
    requires Sound(vm) && TablesUnmapped(vm) && start % PAGE_SIZE != 0
    ensures FramesFreed(vm, root, start, n) == vm
  {
    hide Sound, TablesUnmapped, Vpn, AddressAt, Leaf, WithOffset, FrameOf;
    if n > 0 {
      UnalignedFreesNothing(vm, root, start, n - 1);
      AddressesAligned(start, n - 1);
      var a := AddressAt(start, n - 1);
      if Leaf(vm, root, Vpn(a)).Some? {
        OffsetKeepsFrame(Leaf(vm, root, Vpn(a)).value, a);
      }
    }
  }

  /** The frame of the first page is released, and stays so. */
  lemma {:induction false} FirstFrameFreed(vm: Vm, root: nat, start: Word, n: nat, f: nat)
    requires Owned(vm) && start % PAGE_SIZE == 0 && n > 0 && MappedTo(vm, root, PageAt(start, 0), f)
    ensures f !in FramesFreed(vm, root, start, n).used
  {
    hide Sound, HoldsTable, AddressAt, Vpn, WithOffset, FrameOf;
    OwnedIsSound(vm);
    if n == 1 {
      var a := AddressAt(start, 0);
      assert FramesFreed(vm, root, start, 1) == FrameFreed(FramesFreed(vm, root, start, 0), root, a);
      AddressesAligned(start, 0);
      MappedAddress(vm, root, a);
    } else {
      FirstFrameFreed(vm, root, start, n - 1, f);
      FrameFreedWorks(FramesFreed(vm, root, start, n - 1), root, AddressAt(start, n - 1));
    }
  }

  lemma {:induction false} NeedIsMonotone(vm: Vm, root: nat, start: Word, i: nat, n: nat)
    requires i <= n
    ensures Need(vm, root, start, i) + (n - i) <= Need(vm, root, start, n)
  {
    hide Need;
    if i < n {
      NeedIsMonotone(vm, root, start, i, n - 1);
      NeedGrows(vm, root, start, n);
    }
  }

  /** With frames for one page, the first page of the range is mapped when the loop ends. */
  lemma {:induction false} FirstPageMapped(vm: Vm, root: nat, start: Word, n: nat, flags: nat)
    requires Mappable(vm, root, flags) && Owned(vm) && n > 0 && Need(vm, root, start, 1) <= |Free(vm)|
    ensures Leaf(MapPages(vm, root, start, n, flags).0, root, PageAt(start, 0)).Some?
  {
    hide Sound, Owned, Free, HasRoot, PathSlots, PageAt, AllocPage, FreshMapped, Need, Missing, LoopState;
    hide RangeMapped, MappedFrom, FilledFrom;
    if n == 1 {
      MapPagesMapsRange(vm, root, start, 1, flags);
      RangeHasFirst(vm, MapPages(vm, root, start, 1, flags).0, root, start);
    } else {
      var (m, k) := MapPages(vm, root, start, n - 1, flags);
      FirstPageMapped(vm, root, start, n - 1, flags);
      if k == n - 1 && AllocPage(m) != 0 {
        FreshMappedWorks(m, root, PageAt(start, n - 1), flags);
        IterationKeepsMapped(m, root, PageAt(start, n - 1), flags, PageAt(start, 0));
      }
    }
  }

  lemma RangeHasFirst(vm: Vm, m: Vm, root: nat, start: Word)
    requires RangeMapped(vm, m, root, Pages(start, 1))
    ensures Leaf(m, root, PageAt(start, 0)).Some?
  {
    hide Sound, PageAt, MappedWithin, HoldsTable;
    assert Pages(start, 1) == Pages(start, 0) + {PageAt(start, 0)};
    assert PageAt(start, 0) in Pages(start, 1);
  }

  lemma IterationKeepsMapped(m: Vm, root: nat, v: nat, flags: nat, w: nat)
    requires Mappable(m, root, flags) && v < PAGES && AllocPage(m) != 0 && Leaf(m, root, w).Some?
    requires Sound(FreshMapped(m, root, v, flags))
    ensures Leaf(FreshMapped(m, root, v, flags), root, w).Some?
  {
    hide Sound, HasRoot, PathSlots, AllocPage, FreshMapped, Missing, Free, LeafIn;
    var m' := FreshMapped(m, root, v, flags);
    if |Missing(m, root, v)| < |Free(m)| {
      IterationMaps(m, root, v, flags);
      if w != v {
        assert Leaf(m', root, w) == Leaf(m, root, w);
      }
    } else {
      IterationFills(m, root, v, flags);
      assert Leaf(m', root, w) == Leaf(m, root, w);
    }
  }

  /** Without, nothing of the range is mapped and at most one iteration completes. */
  lemma {:induction false} FirstPageFails(vm: Vm, root: nat, start: Word, n: nat, flags: nat)
    requires Mappable(vm, root, flags) && Owned(vm) && Need(vm, root, start, 1) > |Free(vm)|
    ensures var (m, k) := MapPages(vm, root, start, n, flags);
            && k <= 1 && Owned(m)
            && (k == 1 ==> Free(m) == {} && Leaf(m, root, PageAt(start, 0)) == None)
            && (k == 0 ==> m == vm)
  {
    hide Sound, Owned, Free, HasRoot, PathSlots, PageAt, AllocPage, FreshMapped, Missing, LoopState, MappedFrom, Need;
    if n > 0 {
      var (m, k) := MapPages(vm, root, start, n - 1, flags);
      FirstPageFails(vm, root, start, n - 1, flags);
      OutOfFrames(m);
      if k == n - 1 && AllocPage(m) != 0 {
        assert n == 1 && m == vm;
        FirstPageCost(vm, root, start);
        IterationFills(vm, root, PageAt(start, 0), flags);
        FreshMappedWorks(vm, root, PageAt(start, 0), flags);
      }
    }
  }

  lemma FirstPageCost(vm: Vm, root: nat, start: Word)
    ensures Need(vm, root, start, 1) == 1 + |Missing(vm, root, PageAt(start, 0))|
  {
    hide PathSlots, PageAt;
    assert TablesFor(root, start, 1) == TablesFor(root, start, 0) + PathSlots(root, PageAt(start, 0));
    assert TablesFor(root, start, 1) == PathSlots(root, PageAt(start, 0));
  }

  // ---------------------------------------------------------------------------
  // The three calls
  // ---------------------------------------------------------------------------

  /** sys_mmap, once its address is settled. */
  ghost function Mmapped(vm: Vm, root: nat, start: Word, n: nat, flags: nat): (vm': Vm)
    requires Mappable(vm, root, flags) && Owned(vm)
    ensures Mappable(vm', root, flags)
  {
    var (m, k) := MapPages(vm, root, start, n, flags);
    MapPagesOwned(vm, root, start, n, flags);
    if k == n then m else FramesFreed(m, root, start, k)
  }

  lemma MapPagesOwned(vm: Vm, root: nat, start: Word, n: nat, flags: nat)
    requires Mappable(vm, root, flags) && Owned(vm)
    ensures Owned(MapPages(vm, root, start, n, flags).0)
  {
    hide Sound, Owned, HasRoot, LoopState;
    MapPagesOutcome(vm, root, start, n, flags);
    LoopStateIsOwned(vm, MapPages(vm, root, start, n, flags).0, MapPages(vm, root, start, n, flags).1, root, start, n);
  }

  /**
    The calls whose out-of-memory path runs after at least one page was mapped: enough frames for
    the first page, too few for all but the last and one more.
   */
  ghost predicate StrandsPages(vm: Vm, root: nat, start: Word, n: nat) {
    && n > 0 && start % PAGE_SIZE == 0
    && Need(vm, root, start, 1) <= |Free(vm)| <= Need(vm, root, start, n - 1)
  }

  /**
    sys_mmap keeps every mapped frame used, private and apart from the tables if and only if it
    does not strand pages: its out-of-memory path releases frames that stay mapped.
   */
  lemma MmapKeepsOwnershipIff(vm: Vm, root: nat, start: Word, n: nat, flags: nat)
    requires Mappable(vm, root, flags) && Owned(vm)
    ensures Owned(Mmapped(vm, root, start, n, flags)) <==> !StrandsPages(vm, root, start, n)
  {
    hide Sound, Owned, HasRoot, Need, Free, LoopState, PageAt;
    var (m, k) := MapPages(vm, root, start, n, flags);
    MapPagesOwned(vm, root, start, n, flags);
    MapPagesStops(vm, root, start, n, flags);
    if k < n {
      if start % PAGE_SIZE != 0 {
        OwnedParts(m);
        UnalignedFreesNothing(m, root, start, k);
      } else if Need(vm, root, start, 1) <= |Free(vm)| {
        FirstPageMapped(vm, root, start, n, flags);
        assert k > 0 by {
          NothingDoneCost(vm, root, start, n, flags);
        }
        FreedIsNotOwned(m, root, start, k);
      } else {
        FirstPageFails(vm, root, start, n, flags);
        NothingToFree(m, root, start, k);
      }
    }
  }

  lemma OwnedParts(vm: Vm)
    requires Owned(vm)
    ensures Sound(vm) && TablesUnmapped(vm)
  {
  }

  lemma MapPagesStops(vm: Vm, root: nat, start: Word, n: nat, flags: nat)
    requires Mappable(vm, root, flags) && Owned(vm)
    ensures MapPages(vm, root, start, n, flags).1 < n <==> n > 0 && Need(vm, root, start, n - 1) >= |Free(vm)|
  {
    hide Sound, Owned, HasRoot, Need, Free;
    MapPagesOutcome(vm, root, start, n, flags);
  }

  lemma NothingDoneCost(vm: Vm, root: nat, start: Word, n: nat, flags: nat)
    requires Mappable(vm, root, flags) && Owned(vm) && n > 0 && Need(vm, root, start, 1) <= |Free(vm)|
    ensures MapPages(vm, root, start, n, flags).1 > 0
    decreases n
  {
    hide Sound, Owned, HasRoot, Free, AllocPage, FreshMapped;
    if n > 1 {
      NothingDoneCost(vm, root, start, n - 1, flags);
    } else {
      NoPagesNeedNothing(vm, root, start);
      MapPagesStops(vm, root, start, 1, flags);
    }
  }

  lemma NoPagesNeedNothing(vm: Vm, root: nat, start: Word)
    ensures Need(vm, root, start, 0) == 0 < Need(vm, root, start, 1)
  {
    assert TablesFor(root, start, 0) - vm.tables.Keys == {};
  }

  lemma FreedIsNotOwned(m: Vm, root: nat, start: Word, k: nat)
    requires Owned(m) && start % PAGE_SIZE == 0 && k > 0 && Leaf(m, root, PageAt(start, 0)).Some?
    ensures !Owned(FramesFreed(m, root, start, k))
  {
    hide Sound, HoldsTable, PageAt, FrameOf;
    var f := FrameOf(Leaf(m, root, PageAt(start, 0)).value);
    assert MappedTo(m, root, PageAt(start, 0), f);
    FirstFrameFreed(m, root, start, k, f);
    var u := FramesFreed(m, root, start, k);
    assert Leaf(u, root, PageAt(start, 0)) == Leaf(m, root, PageAt(start, 0));
    assert MappedTo(u, root, PageAt(start, 0), f);
  }

  lemma NothingToFree(m: Vm, root: nat, start: Word, k: nat)
    requires Owned(m) && k <= 1 && (k == 1 ==> Leaf(m, root, PageAt(start, 0)) == None)
    ensures FramesFreed(m, root, start, k) == m
  {
    if k == 1 {
      assert FramesFreed(m, root, start, 0) == m;
    }
  }

  /**
    A sys_mmap that reports success has mapped all its pages if and only if the frames covered
    all of them and their tables; short of tables for the last page it reports success without it.
   */
  lemma MmapSuccessMapsAllIff(vm: Vm, root: nat, start: Word, n: nat, flags: nat)
    requires Mappable(vm, root, flags) && Owned(vm) && MapPages(vm, root, start, n, flags).1 == n
    ensures (forall v: nat :: v in Pages(start, n) ==> Leaf(MapPages(vm, root, start, n, flags).0, root, v).Some?)
            <==> Need(vm, root, start, n) <= |Free(vm)|
  {
    hide Sound, Owned, HasRoot, Need, Free, LoopState, PageAt, RangeMapped, FreshMapped, AllocPage;
    var m := MapPages(vm, root, start, n, flags).0;
    if Need(vm, root, start, n) <= |Free(vm)| {
      MapPagesMapsRange(vm, root, start, n, flags);
      RangeIsMapped(vm, m, root, Pages(start, n));
    } else if n > 0 {
      LastPageMissing(vm, root, start, n, flags);
      assert PageAt(start, n - 1) in Pages(start, n);
    } else {
      NoPagesNeedNothing(vm, root, start);
    }
  }

  lemma RangeIsMapped(vm: Vm, m: Vm, root: nat, pages: set<nat>)
    requires RangeMapped(vm, m, root, pages)
    ensures forall v: nat :: v in pages ==> Leaf(m, root, v).Some?
  {
    hide Sound, HoldsTable, MappedWithin;
  }

  lemma LastPageMissing(vm: Vm, root: nat, start: Word, n: nat, flags: nat)
    requires Mappable(vm, root, flags) && Owned(vm) && MapPages(vm, root, start, n, flags).1 == n
    requires n > 0 && Need(vm, root, start, n) > |Free(vm)|
    ensures Leaf(MapPages(vm, root, start, n, flags).0, root, PageAt(start, n - 1)) == None
  {
    hide Sound, Owned, HasRoot, Need, Free, PageAt, FreshMapped, AllocPage, Missing, TablesFor;
    var (m, k) := MapPages(vm, root, start, n - 1, flags);
    MapPagesStops(vm, root, start, n, flags);
    MapPagesOutcome(vm, root, start, n - 1, flags);
    NeedOneMore(vm, m, root, start, n);
    IterationFills(m, root, PageAt(start, n - 1), flags);
  }

  /** sys_brk growing the heap, and whether it could: if not, it frees and unmaps what it had mapped. */
  ghost function HeapGrown(vm: Vm, root: nat, oldBrk: Word, n: nat): (r: (Vm, bool))
    requires Mappable(vm, root, 3) && Owned(vm)
    ensures Owned(r.0)
  {
    var (m, k) := MapPages(vm, root, oldBrk, n, 3);
    MapPagesOwned(vm, root, oldBrk, n, 3);
    if k == n then (m, true) else (UnmapPages(m, root, oldBrk, k), false)
  }

  /** A machine with one empty address space, rooted at frame 4096, and only its last few frames free. */
  ghost function NearlyFull(ram: seq<Word>, left: nat): Vm
    requires |ram| == RAM_WORDS && left <= 5
  {
    Rooted(Vm(KernelFrames(), ram, map[]), KERNEL_FRAMES).(used := FramesBelow(FRAMES - left))
  }

  lemma NearlyFullIsOwned(ram: seq<Word>, left: nat)
    requires |ram| == RAM_WORDS && left <= 5
    ensures Owned(NearlyFull(ram, left))
        && NearlyFull(ram, left).tables == map[RootSlot(KERNEL_FRAMES) := KERNEL_FRAMES]
  {
    var empty := Vm(KernelFrames(), ram, map[]);
    BootedIsOwned(empty);
    NewRootOwned(empty, KERNEL_FRAMES);
    var rooted, vm := Rooted(empty, KERNEL_FRAMES), NearlyFull(ram, left);
    assert forall f :: f in FramesBelow(FRAMES - left) ==> Below(f, FRAMES);
    assert forall f :: f in KernelFrames() ==> Below(f, FRAMES - left);
    assert Below(KERNEL_FRAMES, FRAMES - left);
    assert Sound(rooted) && rooted.tables == vm.tables && rooted.ram == vm.ram;
    assert Sound(vm);
    hide Sound, HoldsTable, Rooted;
    forall r: nat, v: nat ensures Leaf(vm, r, v) == Leaf(rooted, r, v) {}
    assert rooted.used <= vm.used;
    OwnedFollowsLeaves(rooted, vm);
  }

  lemma ThreeTablesMissing(vm: Vm, root: nat, v: nat)
    requires v < PAGES && vm.tables == map[RootSlot(root) := root]
    ensures |Missing(vm, root, v)| == 3
  {
    hide PathSlots;
    PathLeadsToPage(root, v);
    var a, b, c := PdptSlot(root, v), PdSlot(root, v), PtSlot(root, v);
    assert a.level == 3 && b.level == 2 && c.level == 1;
    hide PdptSlot, PdSlot, PtSlot;
    assert Missing(vm, root, v) == {a, b, c};
    assert |{a, b, c}| == 3;
  }

  /** The first page of such a machine costs four frames: its own and three tables. */
  lemma NearlyFullCosts(ram: seq<Word>, left: nat)
    requires |ram| == RAM_WORDS && left <= 5
    ensures var vm := NearlyFull(ram, left);
            && Mappable(vm, KERNEL_FRAMES, 1) && Owned(vm) && |Free(vm)| == left
            && Need(vm, KERNEL_FRAMES, 0x20_0000, 0) == 0 && Need(vm, KERNEL_FRAMES, 0x20_0000, 1) == 4
            && Leaf(vm, KERNEL_FRAMES, PageAt(0x20_0000, 0)) == None
  {
    hide Sound, Owned, PageAt, Missing, Need, Free, Rooted, PathSlots;
    var vm := NearlyFull(ram, left);
    NearlyFullIsOwned(ram, left);
    OwnedIsSound(vm);
    FramesLeft(vm, left);
    FirstPageCost(vm, KERNEL_FRAMES, 0x20_0000);
    NoPagesNeedNothing(vm, KERNEL_FRAMES, 0x20_0000);
    ThreeTablesMissing(vm, KERNEL_FRAMES, PageAt(0x20_0000, 0));
  }

  lemma FramesLeft(vm: Vm, left: nat)
    requires left <= FRAMES && vm.used == FramesBelow(FRAMES - left)
    ensures |Free(vm)| == left
  {
    CountFramesBelow(FRAMES);
    CountFramesBelow(FRAMES - left);
    assert forall f :: f in vm.used ==> Below(f, FRAMES);
    assert AllFrames() == Free(vm) + vm.used && Free(vm) !! vm.used;
  }

  /** With four frames left a request for two pages strands the first. */
  lemma StrandingIsReal(ram: seq<Word>)
    requires |ram| == RAM_WORDS
    ensures var vm := NearlyFull(ram, 4);
            && Mappable(vm, KERNEL_FRAMES, 1) && Owned(vm) && StrandsPages(vm, KERNEL_FRAMES, 0x20_0000, 2)
            && !Owned(Mmapped(vm, KERNEL_FRAMES, 0x20_0000, 2, 1))
  {
    hide Sound, Owned, Need, Free, Rooted;
    NearlyFullCosts(ram, 4);
    MmapKeepsOwnershipIff(NearlyFull(ram, 4), KERNEL_FRAMES, 0x20_0000, 2, 1);
  }

  /** The same machine meets every condition of the round trip for one page, with no frame to spare. */
  lemma RoundTripIsReal(ram: seq<Word>)
    requires |ram| == RAM_WORDS
    ensures var vm := NearlyFull(ram, 4);
            && Mappable(vm, KERNEL_FRAMES, 1) && Owned(vm)
            && Need(vm, KERNEL_FRAMES, 0x20_0000, 1) == |Free(vm)| == 4
            && forall v: nat :: v in Pages(0x20_0000, 1) ==> Leaf(vm, KERNEL_FRAMES, v) == None
  {
    hide Sound, Owned, PageAt, Need, Free, Rooted;
    NearlyFullCosts(ram, 4);
  }

  /** With three frames left a request for one page succeeds without mapping it. */
  lemma SuccessWithoutPageIsReal(ram: seq<Word>)
    requires |ram| == RAM_WORDS
    ensures var vm := NearlyFull(ram, 3);
            && Mappable(vm, KERNEL_FRAMES, 1) && Owned(vm)
            && MapPages(vm, KERNEL_FRAMES, 0x20_0000, 1, 1).1 == 1
            && Leaf(MapPages(vm, KERNEL_FRAMES, 0x20_0000, 1, 1).0, KERNEL_FRAMES, PageAt(0x20_0000, 0)) == None
  {
    hide Sound, Owned, PageAt, Need, Free, Rooted, NearlyFull, HasRoot, MapPages, LoopState;
    var vm := NearlyFull(ram, 3);
    NearlyFullCosts(ram, 3);
    MapPagesStops(vm, KERNEL_FRAMES, 0x20_0000, 1, 1);
    LastPageMissing(vm, KERNEL_FRAMES, 0x20_0000, 1, 1);
  }

  /** From an address that is not page-aligned sys_munmap clears its pages and releases no frame. */
  lemma UnalignedUnmapReleasesNothing(vm: Vm, root: nat, start: Word, n: nat)
    requires Owned(vm) && start % PAGE_SIZE != 0
    ensures var u := UnmapPages(vm, root, start, n);
            u.used == vm.used && forall v: nat :: v in Pages(start, n) ==> Leaf(u, root, v) == None
  {
    hide Sound, Owned, UnmapPages, MappedWithin, HoldsTable;
    OwnedIsSound(UnmapPages(vm, root, start, n));
    UnmapPagesClearsRange(vm, root, start, n);
  }

  /** There is such a page: mapped on a machine with four frames left and unmapped one byte further on. */
  lemma UnalignedUnmapIsReal(ram: seq<Word>)
    requires |ram| == RAM_WORDS
    ensures var m := (NearlyFullCosts(ram, 4); MapPages(NearlyFull(ram, 4), KERNEL_FRAMES, 0x20_0000, 1, 1).0);
            var v := PageAt(0x20_0000, 0);
            && Owned(m) && Leaf(m, KERNEL_FRAMES, v).Some?
            && var u := UnmapPages(m, KERNEL_FRAMES, 0x20_0001, 1);
            && Owned(u) && Leaf(u, KERNEL_FRAMES, v) == None && FrameOf(Leaf(m, KERNEL_FRAMES, v).value) in u.used
  {
    hide Sound, Owned, Need, Free, Rooted, NearlyFull, HasRoot, MapPages, UnmapPages, HoldsTable, FrameOf;
    var vm := NearlyFull(ram, 4);
    NearlyFullCosts(ram, 4);
    var m := MapPages(vm, KERNEL_FRAMES, 0x20_0000, 1, 1).0;
    MapPagesOwned(vm, KERNEL_FRAMES, 0x20_0000, 1, 1);
    MapPagesMapsRange(vm, KERNEL_FRAMES, 0x20_0000, 1, 1);
    RangeIsMapped(vm, m, KERNEL_FRAMES, Pages(0x20_0000, 1));
    OneAddressOnePage();
    UnalignedUnmapReleasesNothing(m, KERNEL_FRAMES, 0x20_0001, 1);
    UsedIfMapped(m, KERNEL_FRAMES, PageAt(0x20_0000, 0));
  }

  lemma OneAddressOnePage()
    ensures PageAt(0x20_0000, 0) == PageAt(0x20_0001, 0)
    ensures PageAt(0x20_0000, 0) in Pages(0x20_0000, 1) && PageAt(0x20_0001, 0) in Pages(0x20_0001, 1)
  {
    assert AddressAt(0x20_0000, 0) == 0x20_0000 && AddressAt(0x20_0001, 0) == 0x20_0001;
  }

  lemma UsedIfMapped(m: Vm, root: nat, v: nat)
    requires Owned(m) && Leaf(m, root, v).Some?
    ensures FrameOf(Leaf(m, root, v).value) in m.used
  {
    hide Sound, HoldsTable;
    assert MappedTo(m, root, v, FrameOf(Leaf(m, root, v).value));
  }

  // ---------------------------------------------------------------------------
  // Whole runs
  // ---------------------------------------------------------------------------

  /** The words of every table are the same. */
  ghost predicate SameTableWords(vm: Vm, ram': seq<Word>)
    requires Sound(vm)
  {
    |ram'| == RAM_WORDS &&
    forall s, i: nat :: s in vm.tables && i < ENTRIES
        ==> WordAt(ram', vm.tables[s], i) == WordAt(vm.ram, vm.tables[s], i)
  }

  lemma TableWordsDecide(vm: Vm, ram': seq<Word>)
    requires Sound(vm) && SameTableWords(vm, ram')
    ensures Sound(vm.(ram := ram')) && SameLeaves(vm, vm.(ram := ram'))
  {
    var u := vm.(ram := ram');
    forall s, i: nat | s in vm.tables && s.level >= 2 && i < ENTRIES ensures EntryLinked(ram', vm.tables, s, i) {
      assert EntryLinked(vm.ram, vm.tables, s, i);
    }
    forall r: nat, v: nat ensures Leaf(u, r, v) == Leaf(vm, r, v) {
    }
  }

  lemma OwnedFollowsLeaves(vm: Vm, u: Vm)
    requires Owned(vm) && Sound(u) && SameLeaves(vm, u) && vm.used <= u.used
    requires forall f :: HoldsTable(u.tables, f) ==> HoldsTable(vm.tables, f) || f !in vm.used
    ensures Owned(u)
  {
    hide Sound, HoldsTable;
    forall r: nat, w: nat, f: nat | MappedTo(u, r, w, f) ensures MappedTo(vm, r, w, f) {
      assert Leaf(u, r, w) == Leaf(vm, r, w);
    }
  }

  /** A store to a frame that holds no table: by a process to its memory, by the kernel to its own. */
  ghost function Stored(vm: Vm, f: nat, i: nat, e: Word): Vm
    requires Sound(vm) && f < FRAMES && i < ENTRIES
  {
    vm.(ram := WordSet(vm.ram, f, i, e))
  }

  lemma StoreKeepsOwned(vm: Vm, f: nat, i: nat, e: Word)
    requires Owned(vm) && f < FRAMES && i < ENTRIES && !HoldsTable(vm.tables, f)
    ensures Owned(Stored(vm, f, i, e)) && SameLeaves(vm, Stored(vm, f, i, e))
  {
    forall s, j: nat | s in vm.tables && j < ENTRIES
      ensures WordAt(WordSet(vm.ram, f, i, e), vm.tables[s], j) == WordAt(vm.ram, vm.tables[s], j)
    {
      assert vm.tables[s] != f;
    }
    hide Sound, HoldsTable, MappedTo, WordSet;
    TableWordsDecide(vm, WordSet(vm.ram, f, i, e));
    OwnedFollowsLeaves(vm, Stored(vm, f, i, e));
  }

  /** create_process clears a fresh frame for the page directory; without a second frame it gives it back. */
  ghost function Spawned(vm: Vm): Vm
    requires Owned(vm)
  {
    if AllocPage(vm) == 0 then vm
    else
      SpawnKeepsOwned(vm);
      var f := FrameOf(AllocPage(vm));
      if AllocPage(Rooted(vm, f)) == 0 then vm.(ram := Zeroed(vm.ram, f)) else Allocated(Rooted(vm, f))
  }

  lemma ClearedFreeFrame(vm: Vm, f: nat)
    requires Owned(vm) && f in Free(vm)
    ensures Owned(vm.(ram := Zeroed(vm.ram, f))) && SameLeaves(vm, vm.(ram := Zeroed(vm.ram, f)))
  {
    forall s, j: nat | s in vm.tables && j < ENTRIES
      ensures WordAt(Zeroed(vm.ram, f), vm.tables[s], j) == WordAt(vm.ram, vm.tables[s], j)
    {
      ZeroedAt(vm.ram, f, vm.tables[s], j);
    }
    hide Sound, HoldsTable, MappedTo, Zeroed;
    TableWordsDecide(vm, Zeroed(vm.ram, f));
    OwnedFollowsLeaves(vm, vm.(ram := Zeroed(vm.ram, f)));
  }

  lemma NewRootOwned(vm: Vm, f: nat)
    requires Owned(vm) && f in Free(vm) && f > 0
    ensures Owned(Rooted(vm, f))
  {
    RootKeepsTranslations(vm, f);
    RootFrames(vm, f);
    hide Sound, HoldsTable, MappedTo, Zeroed;
    OwnedFollowsLeaves(vm, Rooted(vm, f));
  }

  lemma RootFrames(vm: Vm, f: nat)
    requires |vm.ram| == RAM_WORDS && f < FRAMES
    ensures forall g :: HoldsTable(Rooted(vm, f).tables, g) ==> HoldsTable(vm.tables, g) || g == f
  {
  }

  lemma AllocKeepsOwned(vm: Vm)
    requires Owned(vm) && AllocPage(vm) != 0
    ensures Owned(Allocated(vm)) && SameLeaves(vm, Allocated(vm))
  {
    FreshFrame(vm);
    hide Sound, HoldsTable, MappedTo, AllocPage;
    OwnedFollowsLeaves(vm, Allocated(vm));
  }

  lemma SpawnKeepsOwned(vm: Vm)
    requires Owned(vm) && AllocPage(vm) != 0
    ensures var f := FrameOf(AllocPage(vm));
            && f < FRAMES && |vm.ram| == RAM_WORDS
            && Owned(vm.(ram := Zeroed(vm.ram, f))) && Owned(Rooted(vm, f))
            && (AllocPage(Rooted(vm, f)) != 0 ==> Owned(Allocated(Rooted(vm, f))))
  {
    assert Sound(vm) && |vm.ram| == RAM_WORDS;
    FreshFrame(vm);
    hide Owned, Sound, Zeroed, Rooted, AllocPage, FrameOf;
    var f := FrameOf(AllocPage(vm));
    ClearedFreeFrame(vm, f);
    NewRootOwned(vm, f);
    if AllocPage(Rooted(vm, f)) != 0 {
      AllocKeepsOwned(Rooted(vm, f));
    }
  }

  /** A call of any process (`root` is the frame of its page directory), or a store to memory. */
  datatype Call =
    | Spawn
    | Mmap(root: nat, start: Word, pages: nat, flags: nat)
    | Munmap(root: nat, start: Word, pages: nat)
    | Brk(root: nat, oldBrk: Word, pages: nat)
    | Store(frame: nat, index: nat, value: Word)

  /**
    The process has a page directory, the entry flags include Present as sys_mmap's do, and stores
    go to frames that hold no table.
   */
  ghost predicate Allowed(vm: Vm, c: Call) {
    match c
    case Spawn => true
    case Mmap(root, _, _, flags) => HasRoot(vm, root) && flags < 0x1000 && flags % 2 == 1
    case Munmap(root, _, _) => HasRoot(vm, root)
    case Brk(root, _, _) => HasRoot(vm, root)
    case Store(f, i, _) => f < FRAMES && i < ENTRIES && !HoldsTable(vm.tables, f)
  }

  ghost function Step(vm: Vm, c: Call): Vm
    requires Owned(vm) && Allowed(vm, c)
  {
    match c
    case Spawn => Spawned(vm)
    case Mmap(root, start, pages, flags) => Mmapped(vm, root, start, pages, flags)
    case Munmap(root, start, pages) => UnmapPages(vm, root, start, pages)
    case Brk(root, oldBrk, pages) => HeapGrown(vm, root, oldBrk, pages).0
    case Store(f, i, e) => Stored(vm, f, i, e)
  }

  ghost predicate Strands(vm: Vm, c: Call) {
    c.Mmap? && StrandsPages(vm, c.root, c.start, c.pages)
  }

  lemma StepKeepsOwnershipIff(vm: Vm, c: Call)
    requires Owned(vm) && Allowed(vm, c)
    ensures Owned(Step(vm, c)) <==> !Strands(vm, c)
  {
    OwnedParts(vm);
    hide Owned, Sound, HoldsTable, HasRoot, StrandsPages, Free, AllocPage;
    match c
    case Spawn =>
      if AllocPage(vm) != 0 {
        SpawnKeepsOwned(vm);
      }
    case Mmap(root, start, pages, flags) =>
      MmapKeepsOwnershipIff(vm, root, start, pages, flags);
    case Munmap(_, _, _) =>
    case Brk(_, _, _) =>
    case Store(f, i, e) =>
      StoreKeepsOwned(vm, f, i, e);
  }

  /** Every call of the run is allowed when made, and none strands pages. */
  ghost predicate NoneStrands(vm: Vm, calls: seq<Call>)
    requires Owned(vm)
    decreases |calls|
  {
    calls == [] ||
    (&& Allowed(vm, calls[0]) && !Strands(vm, calls[0])
     && (StepKeepsOwnershipIff(vm, calls[0]);
         NoneStrands(Step(vm, calls[0]), calls[1..])))
  }

  ghost function Run(vm: Vm, calls: seq<Call>): (vm': Vm)
    requires Owned(vm) && NoneStrands(vm, calls)
    ensures Owned(vm')
    decreases |calls|
  {
    if calls == [] then vm
    else
      StepKeepsOwnershipIff(vm, calls[0]);
      Run(Step(vm, calls[0]), calls[1..])
  }

  /** The machine mm_init leaves. */
  ghost predicate Booted(vm: Vm) {
    |vm.ram| == RAM_WORDS && vm.used == KernelFrames() && vm.tables == map[]
  }

  lemma BootedIsOwned(vm: Vm)
    requires Booted(vm)
    ensures Owned(vm)
  {
    assert forall f :: f in KernelFrames() ==> Below(f, FRAMES);
    assert forall r: nat, v: nat :: Leaf(vm, r, v) == None;
  }

  /**
    Over every run of calls from mm_init in which no sys_mmap strands pages: two virtual pages are
    never mapped to one frame, every mapped frame is marked used and lies at or above 16 MB, and no
    mapped frame holds a page table.
   */
  lemma RunsKeepFramesApart(boot: Vm, calls: seq<Call>, r: nat, v: nat, r': nat, v': nat, f: nat)
    requires Booted(boot) && (BootedIsOwned(boot); NoneStrands(boot, calls))
    requires MappedTo(Run(boot, calls), r, v, f)
    ensures f in Run(boot, calls).used && f >= KERNEL_FRAMES && !HoldsTable(Run(boot, calls).tables, f)
    ensures MappedTo(Run(boot, calls), r', v', f) ==> r == r' && v == v'
  {
    hide Sound, HoldsTable;
  }

  /** So a frame that sys_munmap releases is not reachable through any page afterwards. */
  lemma ReleasedFrameUnreachable(vm: Vm, root: nat, start: Word, n: nat, f: nat, r: nat, v: nat)
    requires Owned(vm) && f in vm.used && f !in UnmapPages(vm, root, start, n).used
    ensures !MappedTo(UnmapPages(vm, root, start, n), r, v, f)
  {
    hide Sound, HoldsTable, UnmapPages;
  }
}
