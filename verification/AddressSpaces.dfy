/**
  Who owns a physical frame: get_free_page followed by map_page keeps every mapped frame used,
  private to one page of one address space, and apart from the page tables.
 */
module AddressSpaces {
  import opened CTypes
  import opened FrameAllocation
  import opened PageTables
  import opened VirtualMemory

  // ---------------------------------------------------------------------------
  // Frame ownership
  // ---------------------------------------------------------------------------

  ghost predicate MappedTo(vm: Vm, root: nat, v: nat, f: nat)
    requires Sound(vm)
  {
    Leaf(vm, root, v).Some? && FrameOf(Leaf(vm, root, v).value) == f
  }

  /** Every mapped frame is the caller's alone: no table lies in it. */
  ghost predicate TablesUnmapped(vm: Vm)
    requires Sound(vm)
  {
    forall root: nat, v: nat, f: nat :: MappedTo(vm, root, v, f) ==> !HoldsTable(vm.tables, f)
  }

  /**
    Every mapped frame is marked used, lies at or above 16 MB, holds no page table and serves
    one page of one address space.
   */
  ghost predicate Owned(vm: Vm) {
    && Sound(vm)
    && TablesUnmapped(vm)
    && (forall root: nat, v: nat, f: nat :: MappedTo(vm, root, v, f) ==> f in vm.used && f >= KERNEL_FRAMES)
    && (forall r: nat, v: nat, r': nat, v': nat, f: nat ::
          MappedTo(vm, r, v, f) && MappedTo(vm, r', v', f) ==> r == r' && v == v')
  }

  lemma LeafEntryFacts(page: Word, flags: nat)
    requires page % PAGE_SIZE == 0 && flags < 0x1000 && flags % 2 == 1
    ensures Present(LeafEntry(page, flags)) && FrameOf(LeafEntry(page, flags)) == FrameOf(page)
  {
  }

  // ---------------------------------------------------------------------------
  // One page
  // ---------------------------------------------------------------------------

  ghost function WithFrame(vm: Vm, f: nat): Vm {
    vm.(used := vm.used + {f})
  }

  /** get_free_page then map_page, when a frame is left. */
  ghost function FreshMapped(vm: Vm, root: nat, v: nat, flags: nat): Vm
    requires Sound(vm) && HasRoot(vm, root) && v < PAGES && flags < 0x1000
  {
    AllocTakesFreeFrame(vm);
    PageMapped(Allocated(vm), root, v, LeafEntry(AllocPage(vm), flags))
  }

  lemma FreshFrame(vm: Vm)
    requires Sound(vm) && AllocPage(vm) != 0
    ensures var f := FrameOf(AllocPage(vm));
            && AllocPage(vm) % PAGE_SIZE == 0 && f in Free(vm) && KERNEL_FRAMES <= f < FRAMES
            && Allocated(vm) == WithFrame(vm, f)
            && Sound(WithFrame(vm, f)) && SameLeaves(vm, WithFrame(vm, f))
            && Free(WithFrame(vm, f)) == Free(vm) - {f}
  {
    AllocTakesFreeFrame(vm);
  }

  /** From a to m, page v became mapped to frame f, or else the frames for its tables ran out. */
  ghost predicate MappedOrFull(a: Vm, m: Vm, root: nat, v: nat, f: nat)
    requires v < PAGES
  {
    && Sound(a) && Sound(m) && HasRoot(m, root)
    && Grown(a, m)
    && m.tables.Keys <= a.tables.Keys + PathSlots(root, v)
    && if |Missing(a, root, v)| <= |Free(a)| then
         && m.tables.Keys == a.tables.Keys + PathSlots(root, v)
         && MappedTo(m, root, v, f)
         && SameLeavesExcept(a, m, root, {v})
       else
         && PtSlot(root, v) !in m.tables && Free(m) == {}
         && SameLeaves(a, m)
  }

  lemma MapPageMapsOrFills(a: Vm, root: nat, v: nat, page: Word, flags: nat)
    requires Sound(a) && HasRoot(a, root) && v < PAGES
    requires page % PAGE_SIZE == 0 && flags < 0x1000 && flags % 2 == 1
    ensures MappedOrFull(a, PageMapped(a, root, v, LeafEntry(page, flags)), root, v, FrameOf(page))
  {
    LeafEntryFacts(page, flags);
    hide LeafEntry, Grown, Sound, PageMapped, FrameOf;
    MapPageIsMapUpdate(a, root, v, LeafEntry(page, flags));
    GrownKeepsTables(a, PageMapped(a, root, v, LeafEntry(page, flags)));
  }

  lemma GrownKeepsTables(a: Vm, b: Vm)
    requires Grown(a, b)
    ensures forall s :: s in a.tables ==> s in b.tables
  {
  }

  /** Growth puts no table into a frame that was in use for something else. */
  lemma GrownMissesUsed(a: Vm, b: Vm, f: nat)
    requires Grown(a, b) && f in a.used && !HoldsTable(a.tables, f)
    ensures !HoldsTable(b.tables, f) && f in b.used
  {
  }

  /** A page mapped in m is the new page or was mapped before. */
  lemma MappedBeforeOrNew(a: Vm, m: Vm, root: nat, v: nat, f: nat, r: nat, w: nat, g: nat)
    requires v < PAGES && MappedOrFull(a, m, root, v, f)
    requires MappedTo(m, r, w, g)
    ensures (r == root && w == v && g == f) || MappedTo(a, r, w, g)
  {
    if r != root || w != v || |Missing(a, root, v)| > |Free(a)| {
      assert Leaf(m, r, w) == Leaf(a, r, w);
    }
  }

  lemma FreeFrameHoldsNothing(vm: Vm, f: nat)
    requires Owned(vm) && f in Free(vm)
    ensures !HoldsTable(vm.tables, f)
    ensures forall r: nat, w: nat :: !MappedTo(vm, r, w, f)
  {
  }

  lemma MappedFrameIsOwned(vm: Vm, m: Vm, f: nat, r: nat, w: nat, g: nat)
    requires Owned(vm) && Grown(WithFrame(vm, f), m) && MappedTo(vm, r, w, g)
    ensures g in m.used && g >= KERNEL_FRAMES && !HoldsTable(m.tables, g)
  {
    hide Sound, Grown, MappedTo, HoldsTable;
    GrownMissesUsed(WithFrame(vm, f), m, g);
  }

  lemma NewMappingIsOwned(vm: Vm, m: Vm, root: nat, v: nat, f: nat, r: nat, w: nat, g: nat)
    requires v < PAGES && Owned(vm) && f in Free(vm) && f >= KERNEL_FRAMES
    requires Sound(WithFrame(vm, f)) && SameLeaves(vm, WithFrame(vm, f))
    requires MappedOrFull(WithFrame(vm, f), m, root, v, f)
    requires MappedTo(m, r, w, g)
    ensures g in m.used && g >= KERNEL_FRAMES && !HoldsTable(m.tables, g)
    ensures (r == root && w == v && g == f) || (g != f && MappedTo(vm, r, w, g))
  {
    hide HoldsTable, SameLeavesExcept, Grown, PathSlots, Sound;
    MappedBeforeOrNew(WithFrame(vm, f), m, root, v, f, r, w, g);
    FreeFrameHoldsNothing(vm, f);
    if r != root || w != v || g != f {
      assert Leaf(WithFrame(vm, f), r, w) == Leaf(vm, r, w);
      MappedFrameIsOwned(vm, m, f, r, w, g);
    } else {
      GrownMissesUsed(WithFrame(vm, f), m, f);
    }
  }

  lemma NewMappingKeepsOwned(vm: Vm, m: Vm, root: nat, v: nat, f: nat)
    requires v < PAGES && Owned(vm) && f in Free(vm) && f >= KERNEL_FRAMES
    requires Sound(WithFrame(vm, f)) && SameLeaves(vm, WithFrame(vm, f))
    requires MappedOrFull(WithFrame(vm, f), m, root, v, f)
    ensures Owned(m)
  {
    hide MappedTo, HoldsTable, SameLeaves, SameLeavesExcept, Grown, PathSlots, Sound;
    assert Sound(m);
    forall r: nat, w: nat, g: nat | MappedTo(m, r, w, g)
      ensures g in m.used && g >= KERNEL_FRAMES && !HoldsTable(m.tables, g)
      ensures (r == root && w == v && g == f) || (g != f && MappedTo(vm, r, w, g))
    {
      NewMappingIsOwned(vm, m, root, v, f, r, w, g);
    }
  }
}
