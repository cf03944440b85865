/**
  The page loops of sys_mmap, sys_munmap and sys_brk: how far they get, what the pages cost in
  frames, and what completed loops have mapped and unmapped.
 */
module PageLoops {
  import opened CTypes
  import opened FrameAllocation
  import opened PageTables
  import opened VirtualMemory
  import opened AddressSpaces

  /** The address of page i of a range: `i * PAGE_SIZE` is a 32-bit product. */
  function AddressAt(start: Word, i: nat): Word {
    Wrap64(start + Wrap32(i * PAGE_SIZE))
  }

  function PageAt(start: Word, i: nat): (v: nat)
    ensures v < PAGES
  {
    Vpn(AddressAt(start, i))
  }

  /** The virtual pages of the first n iterations. */
  function Pages(start: Word, n: nat): set<nat> {
    if n == 0 then {} else Pages(start, n - 1) + {PageAt(start, n - 1)}
  }

  /** The page tables they need. */
  ghost function TablesFor(root: nat, start: Word, n: nat): set<Slot> {
    if n == 0 then {} else TablesFor(root, start, n - 1) + PathSlots(root, PageAt(start, n - 1))
  }

  /** The frames n pages cost: one each, and one for every table not there yet. */
  ghost function Need(vm: Vm, root: nat, start: Word, n: nat): nat {
    n + |TablesFor(root, start, n) - vm.tables.Keys|
  }

  lemma NeedOneMore(vm: Vm, m: Vm, root: nat, start: Word, n: nat)
    requires n > 0 && m.tables.Keys == vm.tables.Keys + TablesFor(root, start, n - 1)
    ensures Need(vm, root, start, n) == Need(vm, root, start, n - 1) + 1 + |Missing(m, root, PageAt(start, n - 1))|
  {
    hide PathSlots, PageAt;
    var before, path := TablesFor(root, start, n - 1), PathSlots(root, PageAt(start, n - 1));
    CountNew(before, path, vm.tables.Keys);
  }

  lemma CountNew<T>(before: set<T>, more: set<T>, have: set<T>)
    ensures |before + more - have| == |before - have| + |more - (have + before)|
  {
    assert before + more - have == (before - have) + (more - (have + before));
  }

  lemma NeedGrows(vm: Vm, root: nat, start: Word, n: nat)
    requires n > 0
    ensures Need(vm, root, start, n - 1) < Need(vm, root, start, n)
  {
    hide PathSlots, PageAt;
    var before, path := TablesFor(root, start, n - 1), PathSlots(root, PageAt(start, n - 1));
    assert (before + path) - vm.tables.Keys == (before - vm.tables.Keys) + (path - before - vm.tables.Keys);
  }

  // ---------------------------------------------------------------------------
  // The mapping loop
  // ---------------------------------------------------------------------------

  ghost predicate Mappable(vm: Vm, root: nat, flags: nat) {
    Sound(vm) && HasRoot(vm, root) && flags < 0x1000 && flags % 2 == 1
  }

  /**
    The loop of sys_mmap and of sys_brk: the state it leaves and how many iterations it completed.
    Fewer than n means get_free_page failed.
   */
  ghost function MapPages(vm: Vm, root: nat, start: Word, n: nat, flags: nat): (r: (Vm, nat))
    requires Mappable(vm, root, flags)
    ensures Mappable(r.0, root, flags) && r.1 <= n
  {
    if n == 0 then (vm, 0)
    else
      var (m, k) := MapPages(vm, root, start, n - 1, flags);
      if k < n - 1 || AllocPage(m) == 0 then (m, k)
      else
        FreshMappedWorks(m, root, PageAt(start, n - 1), flags);
        (FreshMapped(m, root, PageAt(start, n - 1), flags), n)
  }

  lemma MapPagesOneMore(vm: Vm, root: nat, start: Word, i: nat, flags: nat)
    requires Mappable(vm, root, flags) && MapPages(vm, root, start, i, flags).1 == i
    ensures var m := MapPages(vm, root, start, i, flags).0;
            && (AllocPage(m) == 0 ==> MapPages(vm, root, start, i + 1, flags) == (m, i) && Allocated(m) == m)
            && (AllocPage(m) != 0 ==>
                 && Sound(Allocated(m)) && HasRoot(Allocated(m), root)
                 && MapPages(vm, root, start, i + 1, flags) ==
                    (PageMapped(Allocated(m), root, PageAt(start, i), LeafEntry(AllocPage(m), flags)), i + 1))
  {
    hide HasRoot, PageMapped, LeafEntry;
    AllocTakesFreeFrame(MapPages(vm, root, start, i, flags).0);
    assert HasRoot(MapPages(vm, root, start, i, flags).0, root);
    AllocKeepsRoot(MapPages(vm, root, start, i, flags).0, root);
  }

  lemma AllocKeepsRoot(vm: Vm, root: nat)
    requires HasRoot(vm, root)
    ensures HasRoot(Allocated(vm), root)
  {
  }

  lemma FreshMappedWorks(vm: Vm, root: nat, v: nat, flags: nat)
    requires Mappable(vm, root, flags) && v < PAGES && AllocPage(vm) != 0
    ensures var f, m := FrameOf(AllocPage(vm)), FreshMapped(vm, root, v, flags);
            && Mappable(m, root, flags)
            && f in Free(vm) && KERNEL_FRAMES <= f < FRAMES
            && Sound(WithFrame(vm, f)) && SameLeaves(vm, WithFrame(vm, f))
            && Free(WithFrame(vm, f)) == Free(vm) - {f}
            && MappedOrFull(WithFrame(vm, f), m, root, v, f)
            && (Owned(vm) ==> Owned(m))
  {
    FreshFrame(vm);
    hide Sound, SameLeaves, Owned, MappedOrFull, AllocPage, LeafEntry, FrameOf, PageMapped;
    var f := FrameOf(AllocPage(vm));
    MapPageMapsOrFills(WithFrame(vm, f), root, v, AllocPage(vm), flags);
    MappedOrFullIsSound(WithFrame(vm, f), FreshMapped(vm, root, v, flags), root, v, f);
    if Owned(vm) {
      NewMappingKeepsOwned(vm, FreshMapped(vm, root, v, flags), root, v, f);
    }
  }

  lemma MappedOrFullIsSound(a: Vm, m: Vm, root: nat, v: nat, f: nat)
    requires v < PAGES && MappedOrFull(a, m, root, v, f)
    ensures Sound(m) && HasRoot(m, root)
  {
  }

  /** One iteration that found a frame, seen from before the allocation. */
  ghost predicate MappedFrom(vm: Vm, m: Vm, root: nat, v: nat)
    requires v < PAGES
  {
    && Sound(vm) && Sound(m)
    && m.tables.Keys == vm.tables.Keys + PathSlots(root, v)
    && |Free(m)| == |Free(vm)| - 1 - |Missing(vm, root, v)|
    && (exists f :: f in Free(vm) && MappedTo(m, root, v, f))
    && SameLeavesExcept(vm, m, root, {v})
  }

  ghost predicate FilledFrom(vm: Vm, m: Vm, root: nat, v: nat) {
    && Sound(vm) && Sound(m)
    && Free(m) == {} && Leaf(m, root, v) == None && SameLeaves(vm, m)
  }

  lemma MissingSame(vm: Vm, f: nat, root: nat, v: nat)
    requires v < PAGES
    ensures Missing(WithFrame(vm, f), root, v) == Missing(vm, root, v)
  {
  }

  lemma GrowthCost(a: Vm, m: Vm, slots: set<Slot>)
    requires Grown(a, m) && m.tables.Keys == a.tables.Keys + slots
    ensures |Free(m)| == |Free(a)| - |slots - a.tables.Keys|
  {
    assert m.tables.Keys - a.tables.Keys == slots - a.tables.Keys;
  }

  lemma IterationMaps(vm: Vm, root: nat, v: nat, flags: nat)
    requires Mappable(vm, root, flags) && v < PAGES && AllocPage(vm) != 0
    requires |Missing(vm, root, v)| < |Free(vm)|
    ensures MappedFrom(vm, FreshMapped(vm, root, v, flags), root, v)
  {
    var f, m := FrameOf(AllocPage(vm)), FreshMapped(vm, root, v, flags);
    FreshMappedWorks(vm, root, v, flags);
    var a := WithFrame(vm, f);
    MissingSame(vm, f, root, v);
    assert a.tables == vm.tables;
    hide Sound, PathSlots, FreshMapped, FrameOf, AllocPage, Owned, Grown;
    GrowthCost(a, m, PathSlots(root, v));
    SameExceptAfter(vm, a, m, root, {v});
  }

  lemma IterationFills(vm: Vm, root: nat, v: nat, flags: nat)
    requires Mappable(vm, root, flags) && v < PAGES && AllocPage(vm) != 0
    requires |Missing(vm, root, v)| >= |Free(vm)|
    ensures FilledFrom(vm, FreshMapped(vm, root, v, flags), root, v)
  {
    var f, m := FrameOf(AllocPage(vm)), FreshMapped(vm, root, v, flags);
    FreshMappedWorks(vm, root, v, flags);
    MissingSame(vm, f, root, v);
    assert Leaf(m, root, v) == None;
    hide Sound, PathSlots, PtSlot, FreshMapped, FrameOf, AllocPage, Owned;
    SameLeavesTwice(vm, WithFrame(vm, f), m);
  }

  lemma OutOfFrames(vm: Vm)
    requires Sound(vm)
    ensures AllocPage(vm) == 0 <==> Free(vm) == {}
  {
    AllocTakesFreeFrame(vm);
  }

  /** What the mapping loop has done after k of n iterations, started from vm. */
  ghost predicate LoopState(vm: Vm, m: Vm, k: nat, root: nat, start: Word, n: nat) {
    && Owned(m)
    && (Need(vm, root, start, n) <= |Free(vm)| ==>
          && k == n && |Free(m)| == |Free(vm)| - Need(vm, root, start, n)
          && m.tables.Keys == vm.tables.Keys + TablesFor(root, start, n))
    && (Need(vm, root, start, n) > |Free(vm)| ==> Free(m) == {})
    && (k == n <==> n == 0 || Need(vm, root, start, n - 1) < |Free(vm)|)
  }

  lemma LoopStarts(vm: Vm, root: nat, start: Word)
    requires Owned(vm)
    ensures LoopState(vm, vm, 0, root, start, 0)
  {
    hide Owned;
    assert TablesFor(root, start, 0) - vm.tables.Keys == {};
  }

  lemma LoopStops(vm: Vm, m: Vm, k: nat, root: nat, start: Word, n: nat)
    requires n > 0 && k <= n - 1 && LoopState(vm, m, k, root, start, n - 1)
    requires k < n - 1 || Free(m) == {}
    ensures LoopState(vm, m, k, root, start, n)
  {
    NeedGrows(vm, root, start, n);
    if n > 1 {
      NeedGrows(vm, root, start, n - 1);
    }
    hide Owned, Need, TablesFor;
  }

  lemma LoopMaps(vm: Vm, m: Vm, m': Vm, root: nat, start: Word, n: nat)
    requires n > 0 && LoopState(vm, m, n - 1, root, start, n - 1) && Owned(m')
    requires Free(m) != {} && MappedFrom(m, m', root, PageAt(start, n - 1))
    requires |Missing(m, root, PageAt(start, n - 1))| < |Free(m)|
    ensures LoopState(vm, m', n, root, start, n)
  {
    hide Owned, Sound, SameLeavesExcept, MappedTo, Need, PathSlots, PageAt, Missing;
    NeedOneMore(vm, m, root, start, n);
  }

  lemma LoopFills(vm: Vm, m: Vm, m': Vm, root: nat, start: Word, n: nat)
    requires n > 0 && LoopState(vm, m, n - 1, root, start, n - 1) && Owned(m')
    requires Free(m) != {} && FilledFrom(m, m', root, PageAt(start, n - 1))
    requires |Missing(m, root, PageAt(start, n - 1))| >= |Free(m)|
    ensures LoopState(vm, m', n, root, start, n)
  {
    hide Owned, Sound, SameLeaves, Leaf, Need, PathSlots, PageAt, Missing;
    NeedOneMore(vm, m, root, start, n);
  }

  /**
    While the frames suffice every iteration completes, at exactly the cost of `Need`; and the
    page loop stops early just when they do not suffice for all the pages but the last, and one frame more.
   */
  lemma {:induction false} MapPagesOutcome(vm: Vm, root: nat, start: Word, n: nat, flags: nat)
    requires Mappable(vm, root, flags) && Owned(vm)
    ensures LoopState(vm, MapPages(vm, root, start, n, flags).0, MapPages(vm, root, start, n, flags).1, root, start, n)
  {
    hide Free, Sound, Owned, HasRoot, PathSlots, PageAt, AllocPage, FreshMapped, Need, Missing, LoopState;
    if n == 0 {
      LoopStarts(vm, root, start);
    } else {
      var v := PageAt(start, n - 1);
      var (m, k) := MapPages(vm, root, start, n - 1, flags);
      MapPagesOutcome(vm, root, start, n - 1, flags);
      OutOfFrames(m);
      if k < n - 1 || AllocPage(m) == 0 {
        assert MapPages(vm, root, start, n, flags) == (m, k);
        LoopStops(vm, m, k, root, start, n);
      } else {
        assert MapPages(vm, root, start, n, flags) == (FreshMapped(m, root, v, flags), n);
        LoopIterates(vm, m, root, start, n, flags);
      }
    }
  }

  lemma LoopIterates(vm: Vm, m: Vm, root: nat, start: Word, n: nat, flags: nat)
    requires n > 0 && LoopState(vm, m, n - 1, root, start, n - 1)
    requires Mappable(m, root, flags) && AllocPage(m) != 0
    ensures LoopState(vm, FreshMapped(m, root, PageAt(start, n - 1), flags), n, root, start, n)
  {
    hide Free, Sound, Owned, HasRoot, PathSlots, PageAt, AllocPage, FreshMapped, Need, Missing, MappedFrom;
    hide FilledFrom, LoopState, MappedOrFull, SameLeaves;
    var v := PageAt(start, n - 1);
    LoopStateIsOwned(vm, m, n - 1, root, start, n - 1);
    OutOfFrames(m);
    FreshMappedWorks(m, root, v, flags);
    if |Missing(m, root, v)| < |Free(m)| {
      IterationMaps(m, root, v, flags);
      LoopMaps(vm, m, FreshMapped(m, root, v, flags), root, start, n);
    } else {
      IterationFills(m, root, v, flags);
      LoopFills(vm, m, FreshMapped(m, root, v, flags), root, start, n);
    }
  }

  lemma LoopStateIsOwned(vm: Vm, m: Vm, k: nat, root: nat, start: Word, n: nat)
    requires LoopState(vm, m, k, root, start, n)
    ensures Owned(m)
  {
  }

  // ---------------------------------------------------------------------------
  // What a completed mapping loop leaves behind
  // ---------------------------------------------------------------------------

  lemma {:induction false} CountFramesBelow(n: nat)
    ensures |FramesBelow(n)| == n
  {
    if n > 0 {
      CountFramesBelow(n - 1);
      assert FramesBelow(n) == FramesBelow(n - 1) + {n - 1};
    } else {
      assert FramesBelow(0) == {};
    }
  }

  lemma FewFreeFrames(vm: Vm)
    ensures |Free(vm)| <= FRAMES
  {
    CountFramesBelow(FRAMES);
    assert |AllFrames() - vm.used| + |AllFrames() * vm.used| == |AllFrames()|;
  }

  lemma PageOfAddress(start: Word, i: nat)
    requires i < 0x10_0000
    ensures PageAt(start, i) == (start / PAGE_SIZE + i) % PAGES
  {
    var sum := start + i * PAGE_SIZE;
    assert Wrap32(i * PAGE_SIZE) == i * PAGE_SIZE;
    assert sum / PAGE_SIZE == start / PAGE_SIZE + i;
    if sum < TWO64 {
      assert AddressAt(start, i) == sum;
    } else {
      assert AddressAt(start, i) == sum - TWO64;
      assert (sum - TWO64) / PAGE_SIZE == sum / PAGE_SIZE - 0x10_0000 * 0x1_0000_0000;
    }
  }

  lemma PagesApart(start: Word, i: nat, j: nat)
    requires i < j < 0x10_0000
    ensures PageAt(start, i) != PageAt(start, j)
  {
    hide PageAt;
    PageOfAddress(start, i);
    PageOfAddress(start, j);
    ShiftedPage(start / PAGE_SIZE + i, j - i);
  }

  lemma ShiftedPage(x: nat, d: nat)
    requires 0 < d < PAGES
    ensures (x + d) % PAGES != x % PAGES
  {
    var q, r := x / PAGES, x % PAGES;
    if r + d < PAGES {
      assert x + d == q * PAGES + (r + d);
    } else {
      assert x + d == (q + 1) * PAGES + (r + d - PAGES);
    }
  }

  lemma {:induction false} PageIsNew(start: Word, n: nat, j: nat)
    requires n <= j < 0x10_0000
    ensures PageAt(start, j) !in Pages(start, n)
  {
    if n > 0 {
      PageIsNew(start, n - 1, j);
      PagesApart(start, n - 1, j);
    }
  }

  ghost predicate MappedWithin(vm: Vm, root: nat, pages: set<nat>, f: nat)
    requires Sound(vm)
  {
    exists v: nat :: v in pages && MappedTo(vm, root, v, f)
  }

  /**
    From vm to m exactly the given pages were mapped, each to a frame that was free, new tables
    lie in frames that were free, and the frames used now are the old ones, those, and the page tables.
   */
  ghost predicate RangeMapped(vm: Vm, m: Vm, root: nat, pages: set<nat>) {
    && Sound(vm) && Sound(m)
    && (forall s :: s in vm.tables ==> s in m.tables && m.tables[s] == vm.tables[s])
    && (forall s :: s in m.tables && s !in vm.tables ==> m.tables[s] !in vm.used)
    && SameLeavesExcept(vm, m, root, pages)
    && (forall v: nat :: v in pages ==> exists f :: f in Free(vm) && MappedTo(m, root, v, f))
    && (forall f :: f in m.used <==> f in vm.used || HoldsTable(m.tables, f) || MappedWithin(m, root, pages, f))
  }

  lemma RangeMappedNone(vm: Vm, root: nat)
    requires Sound(vm)
    ensures RangeMapped(vm, vm, root, {})
  {
    assert forall f :: HoldsTable(vm.tables, f) ==> f in vm.used;
  }

  lemma RangeUsed(vm: Vm, m: Vm, m': Vm, root: nat, pages: set<nat>, v: nat, f: nat, g: nat)
    requires RangeMapped(vm, m, root, pages) && v !in pages && Sound(m')
    requires Grown(WithFrame(m, f), m') && SameLeavesExcept(m, m', root, {v}) && MappedTo(m', root, v, f)
    ensures g in m'.used <==> g in vm.used || HoldsTable(m'.tables, g) || MappedWithin(m', root, pages + {v}, g)
  {
    hide Sound, SameLeavesExcept, MappedTo;
    assert MappedWithin(m', root, pages + {v}, g) <==> MappedWithin(m, root, pages, g) || MappedTo(m', root, v, g) by {
      SameWithin(m, m', root, pages, v, g);
    }
    assert MappedTo(m', root, v, g) <==> g == f by {
      OneFrame(m', root, v, f, g);
    }
    if HoldsTable(m.tables, g) {
      var s :| s in m.tables && m.tables[s] == g;
      assert s in m'.tables && m'.tables[s] == g;
    }
  }

  lemma OneFrame(m: Vm, root: nat, v: nat, f: nat, g: nat)
    requires Sound(m) && MappedTo(m, root, v, f)
    ensures MappedTo(m, root, v, g) <==> g == f
  {
  }

  lemma SameWithin(m: Vm, m': Vm, root: nat, pages: set<nat>, v: nat, g: nat)
    requires Sound(m) && Sound(m') && v !in pages && SameLeavesExcept(m, m', root, {v})
    ensures MappedWithin(m', root, pages + {v}, g) <==> MappedWithin(m, root, pages, g) || MappedTo(m', root, v, g)
  {
    hide Sound;
    assert forall w: nat :: w in pages ==> Leaf(m', root, w) == Leaf(m, root, w);
    if MappedWithin(m, root, pages, g) {
      var w: nat :| w in pages && MappedTo(m, root, w, g);
      assert w in pages + {v} && MappedTo(m', root, w, g);
    }
    if MappedWithin(m', root, pages + {v}, g) {
      var w: nat :| w in pages + {v} && MappedTo(m', root, w, g);
      assert w == v || MappedTo(m, root, w, g);
    }
    if MappedTo(m', root, v, g) {
      assert v in pages + {v};
    }
  }

  lemma RangeLeaves(vm: Vm, m: Vm, m': Vm, root: nat, pages: set<nat>, v: nat)
    requires Sound(vm) && Sound(m) && Sound(m')
    requires SameLeavesExcept(vm, m, root, pages) && SameLeavesExcept(m, m', root, {v})
    ensures SameLeavesExcept(vm, m', root, pages + {v})
  {
    hide Sound;
    forall r: nat, w: nat | r != root || w !in pages + {v}
      ensures Leaf(m', r, w) == Leaf(vm, r, w)
    {
      assert Leaf(m', r, w) == Leaf(m, r, w);
    }
  }

  lemma NewTablesWereFree(vm: Vm, m: Vm, m': Vm, root: nat, pages: set<nat>, f: nat)
    requires RangeMapped(vm, m, root, pages) && f in Free(m) && Grown(WithFrame(m, f), m')
    ensures forall s :: s in vm.tables ==> s in m'.tables && m'.tables[s] == vm.tables[s]
    ensures forall s :: s in m'.tables && s !in vm.tables ==> m'.tables[s] !in vm.used
    ensures f in Free(vm)
  {
    hide Sound, SameLeavesExcept, MappedTo, HoldsTable, MappedWithin;
  }

  lemma RangeGrows(vm: Vm, m: Vm, m': Vm, root: nat, pages: set<nat>, v: nat, f: nat)
    requires RangeMapped(vm, m, root, pages) && v !in pages && Sound(m')
    requires f in Free(m)
    requires Grown(WithFrame(m, f), m') && SameLeavesExcept(m, m', root, {v}) && MappedTo(m', root, v, f)
    ensures RangeMapped(vm, m', root, pages + {v})
  {
    hide Sound, SameLeavesExcept, MappedTo, HoldsTable, MappedWithin, Grown, RangeMapped, Free;
    RangeParts(vm, m, root, pages);
    NewTablesWereFree(vm, m, m', root, pages, f);
    RangeLeaves(vm, m, m', root, pages, v);
    forall w: nat | w in pages + {v}
      ensures exists g :: g in Free(vm) && MappedTo(m', root, w, g)
    {
      if w != v {
        RangePageStays(vm, m, m', root, pages, v, w);
      }
    }
    forall g ensures g in m'.used
        <==> g in vm.used || HoldsTable(m'.tables, g) || MappedWithin(m', root, pages + {v}, g) {
      RangeUsed(vm, m, m', root, pages, v, f, g);
    }
    RangeFromParts(vm, m', root, pages + {v});
  }

  lemma RangeParts(vm: Vm, m: Vm, root: nat, pages: set<nat>)
    requires RangeMapped(vm, m, root, pages)
    ensures Sound(vm) && Sound(m) && SameLeavesExcept(vm, m, root, pages)
  {
  }

  lemma RangeFromParts(vm: Vm, m: Vm, root: nat, pages: set<nat>)
    requires Sound(vm) && Sound(m)
    requires forall s :: s in vm.tables ==> s in m.tables && m.tables[s] == vm.tables[s]
    requires forall s :: s in m.tables && s !in vm.tables ==> m.tables[s] !in vm.used
    requires SameLeavesExcept(vm, m, root, pages)
    requires forall v: nat :: v in pages ==> exists f :: f in Free(vm) && MappedTo(m, root, v, f)
    requires forall f :: f in m.used <==> f in vm.used || HoldsTable(m.tables, f) || MappedWithin(m, root, pages, f)
    ensures RangeMapped(vm, m, root, pages)
  {
    hide Sound, SameLeavesExcept, MappedTo, HoldsTable, MappedWithin, Free;
  }

  lemma RangePageStays(vm: Vm, m: Vm, m': Vm, root: nat, pages: set<nat>, v: nat, w: nat)
    requires RangeMapped(vm, m, root, pages) && Sound(m') && SameLeavesExcept(m, m', root, {v}) && w in pages && w != v
    ensures exists g :: g in Free(vm) && MappedTo(m', root, w, g)
  {
    hide Sound, SameLeavesExcept, MappedTo, HoldsTable, MappedWithin, Free;
    var g :| g in Free(vm) && MappedTo(m, root, w, g);
    StillMapped(m, m', root, v, w, g);
  }

  lemma StillMapped(m: Vm, m': Vm, root: nat, v: nat, w: nat, g: nat)
    requires Sound(m) && Sound(m') && SameLeavesExcept(m, m', root, {v}) && w != v && MappedTo(m, root, w, g)
    ensures MappedTo(m', root, w, g)
  {
    hide Sound;
    assert Leaf(m', root, w) == Leaf(m, root, w);
  }

  /** When the frames suffice, sys_mmap's loop maps its pages to fresh frames and touches nothing else. */
  lemma {:induction false} MapPagesMapsRange(vm: Vm, root: nat, start: Word, n: nat, flags: nat)
    requires Mappable(vm, root, flags) && Owned(vm) && Need(vm, root, start, n) <= |Free(vm)|
    ensures RangeMapped(vm, MapPages(vm, root, start, n, flags).0, root, Pages(start, n))
  {
    hide Sound, Owned, Free, HasRoot, RangeMapped, PathSlots, PageAt, AllocPage, FreshMapped, Need, Missing, LoopState;
    if n == 0 {
      RangeMappedNone(vm, root);
    } else {
      NeedGrows(vm, root, start, n);
      MapPagesMapsRange(vm, root, start, n - 1, flags);
      MapPagesOutcome(vm, root, start, n - 1, flags);
      var (m, k) := MapPages(vm, root, start, n - 1, flags);
      RangeIterates(vm, m, k, root, start, n, flags);
    }
  }

  lemma LoopStateFits(vm: Vm, m: Vm, k: nat, root: nat, start: Word, n: nat)
    requires n > 0 && LoopState(vm, m, k, root, start, n - 1) && Need(vm, root, start, n) <= |Free(vm)|
    ensures k == n - 1 && Free(m) != {} && |Missing(m, root, PageAt(start, n - 1))| < |Free(m)|
    ensures n < 0x10_0000
  {
    NeedAtLeast(vm, root, start, n);
    FewFreeFrames(vm);
    hide Owned, Need, Missing, PageAt, PathSlots, Free, TablesFor;
    NeedGrows(vm, root, start, n);
    NeedOneMore(vm, m, root, start, n);
  }

  lemma RangeIterates(vm: Vm, m: Vm, k: nat, root: nat, start: Word, n: nat, flags: nat)
    requires n > 0 && LoopState(vm, m, k, root, start, n - 1) && Mappable(m, root, flags)
    requires Need(vm, root, start, n) <= |Free(vm)|
    requires RangeMapped(vm, m, root, Pages(start, n - 1))
    ensures k == n - 1 && AllocPage(m) != 0
    ensures RangeMapped(vm, FreshMapped(m, root, PageAt(start, n - 1), flags), root, Pages(start, n))
  {
    hide Sound, Owned, HasRoot, RangeMapped, PathSlots, PageAt, AllocPage, FreshMapped, Need, Missing, SameLeaves;
    hide Grown, MappedOrFull, MappedTo, LoopState, Free, FrameOf, TablesFor, SameLeavesExcept;
    var v := PageAt(start, n - 1);
    LoopStateFits(vm, m, k, root, start, n);
    OutOfFrames(m);
    PageIsNew(start, n - 1, n - 1);
    FreshMappedWorks(m, root, v, flags);
    IterationMaps(m, root, v, flags);
    var f, m' := FrameOf(AllocPage(m)), FreshMapped(m, root, v, flags);
    MappedOrFullMaps(m, m', root, v, f);
    RangeGrows(vm, m, m', root, Pages(start, n - 1), v, f);
  }

  lemma NeedAtLeast(vm: Vm, root: nat, start: Word, n: nat)
    ensures n <= Need(vm, root, start, n)
  {
  }

  lemma MappedOrFullMaps(m: Vm, m': Vm, root: nat, v: nat, f: nat)
    requires v < PAGES && f in Free(m)
    requires MappedOrFull(WithFrame(m, f), m', root, v, f) && |Missing(m, root, v)| < |Free(m)|
    ensures Grown(WithFrame(m, f), m') && MappedTo(m', root, v, f)
  {
    hide Sound, PathSlots;
    MissingSame(m, f, root, v);
    assert Free(WithFrame(m, f)) == Free(m) - {f};
  }

  // ---------------------------------------------------------------------------
  // The unmapping loop
  // ---------------------------------------------------------------------------

  /** One iteration of sys_munmap: free_page and unmap_page if the address is mapped. */
  ghost function PageFreed(vm: Vm, root: nat, a: Word): (vm': Vm)
    requires Owned(vm)
    ensures Owned(vm')
  {
    PageFreedWorks(vm, root, a);
    var pa := PhysicalAddress(Leaf(vm, root, Vpn(a)), a);
    if pa == 0 then vm else PageUnmapped(Released(vm, pa), root, Vpn(a))
  }

  lemma MappedAddress(vm: Vm, root: nat, a: Word)
    requires Owned(vm) && Leaf(vm, root, Vpn(a)).Some?
    ensures var e := Leaf(vm, root, Vpn(a)).value;
            && WithOffset(e, a) != 0 && FrameOf(WithOffset(e, a)) == WithOffset(e, a) / PAGE_SIZE == FrameOf(e)
            && (Freeable(WithOffset(e, a)) <==> a % PAGE_SIZE == 0)
            && !HoldsTable(vm.tables, FrameOf(e))
  {
    var e := Leaf(vm, root, Vpn(a)).value;
    assert MappedTo(vm, root, Vpn(a), FrameOf(e));
    assert FrameOf(e) in AllFrames();
    assert AddressOf(e) == FrameOf(e) * PAGE_SIZE;
  }

  /** What is left of the ownership of frame g once page v is unmapped and its frame released. */
  ghost predicate PageGone(vm: Vm, u: Vm, root: nat, v: nat, freed: bool) {
    && Owned(vm) && Sound(u) && u.tables == vm.tables
    && Leaf(u, root, v) == None && SameLeavesExcept(vm, u, root, {v})
    && u.used == if freed && Leaf(vm, root, v).Some? then vm.used - {FrameOf(Leaf(vm, root, v).value)} else vm.used
  }

  lemma PageGoneKeepsOwned(vm: Vm, u: Vm, root: nat, v: nat, freed: bool)
    requires PageGone(vm, u, root, v, freed)
    ensures Owned(u)
  {
    hide Sound, HoldsTable;
    forall r: nat, w: nat, g: nat | MappedTo(u, r, w, g)
      ensures MappedTo(vm, r, w, g) && g in u.used
    {
      assert Leaf(u, r, w) == Leaf(vm, r, w);
      assert MappedTo(vm, r, w, g);
      if Leaf(vm, root, v).Some? && g == FrameOf(Leaf(vm, root, v).value) {
        assert MappedTo(vm, root, v, g);
        assert r == root && w == v;
      }
    }
  }

  lemma PageFreedWorks(vm: Vm, root: nat, a: Word)
    requires Owned(vm)
    ensures var pa := PhysicalAddress(Leaf(vm, root, Vpn(a)), a);
            && (pa != 0 ==> Sound(Released(vm, pa)))
            && var u := if pa == 0 then vm else PageUnmapped(Released(vm, pa), root, Vpn(a));
            Owned(u) && PageGone(vm, u, root, Vpn(a), a % PAGE_SIZE == 0)
  {
    hide Sound, HoldsTable, FrameOf, WithOffset, Freeable, PageUnmapped, Vpn;
    var v, pa := Vpn(a), PhysicalAddress(Leaf(vm, root, Vpn(a)), a);
    if pa == 0 {
      if Leaf(vm, root, v).Some? {
        MappedAddress(vm, root, a);
      }
      assert PageGone(vm, vm, root, v, a % PAGE_SIZE == 0);
    } else {
      MappedAddress(vm, root, a);
      ReleaseKeepsSound(vm, pa);
      var mid := Released(vm, pa);
      UnmapPageIsMapRemoval(mid, root, v);
      var u := PageUnmapped(mid, root, v);
      SameExceptAfter(vm, mid, u, root, {v});
      assert PageGone(vm, u, root, v, a % PAGE_SIZE == 0);
      PageGoneKeepsOwned(vm, u, root, v, a % PAGE_SIZE == 0);
    }
  }

  /** The loop of sys_munmap. */
  ghost function UnmapPages(vm: Vm, root: nat, start: Word, n: nat): (vm': Vm)
    requires Owned(vm)
    ensures Owned(vm')
  {
    if n == 0 then vm else PageFreed(UnmapPages(vm, root, start, n - 1), root, AddressAt(start, n - 1))
  }

  ghost predicate RangeGone(vm: Vm, u: Vm, root: nat, pages: set<nat>, freed: bool) {
    && Owned(vm) && Owned(u) && u.tables == vm.tables
    && (forall v: nat :: v in pages ==> Leaf(u, root, v) == None)
    && SameLeavesExcept(vm, u, root, pages)
    && (forall f :: f in u.used <==> f in vm.used && !(freed && MappedWithin(vm, root, pages, f)))
  }

  lemma AddressesAligned(start: Word, i: nat)
    ensures AddressAt(start, i) % PAGE_SIZE == start % PAGE_SIZE
  {
    var q := i * PAGE_SIZE / TWO32;
    assert Wrap32(i * PAGE_SIZE) == PAGE_SIZE * (i - q * 0x10_0000);
    var sum := start + Wrap32(i * PAGE_SIZE);
    assert sum % PAGE_SIZE == start % PAGE_SIZE;
    assert Wrap64(sum) == sum || Wrap64(sum) == sum - PAGE_SIZE * 0x10_0000_0000_0000;
  }

  lemma RangeGoneUsed(vm: Vm, m: Vm, u: Vm, root: nat, pages: set<nat>, v: nat, freed: bool, f: nat)
    requires RangeGone(vm, m, root, pages, freed) && PageGone(m, u, root, v, freed)
    ensures f in u.used <==> f in vm.used && !(freed && MappedWithin(vm, root, pages + {v}, f))
  {
    hide Owned, Sound, HoldsTable;
    assert Sound(vm) && Sound(m) && Sound(u) by {
      OwnedIsSound(vm);
      OwnedIsSound(m);
    }
    if MappedWithin(vm, root, pages + {v}, f) {
      var w: nat :| w in pages + {v} && MappedTo(vm, root, w, f);
      if w in pages {
        assert MappedWithin(vm, root, pages, f);
      } else {
        assert Leaf(m, root, v) == Leaf(vm, root, v);
      }
    }
    if MappedWithin(vm, root, pages, f) {
      var w: nat :| w in pages && MappedTo(vm, root, w, f);
      assert w in pages + {v};
    }
    if Leaf(m, root, v).Some? {
      assert v !in pages;
      assert Leaf(vm, root, v) == Leaf(m, root, v);
      assert MappedTo(vm, root, v, FrameOf(Leaf(m, root, v).value)) && v in pages + {v};
      assert MappedWithin(vm, root, pages + {v}, FrameOf(Leaf(m, root, v).value));
    }
  }

  lemma OwnedIsSound(vm: Vm)
    requires Owned(vm)
    ensures Sound(vm)
  {
  }

  lemma RangeGoneOneMore(vm: Vm, m: Vm, u: Vm, root: nat, pages: set<nat>, v: nat, freed: bool)
    requires RangeGone(vm, m, root, pages, freed) && PageGone(m, u, root, v, freed) && Owned(u)
    ensures RangeGone(vm, u, root, pages + {v}, freed)
  {
    hide Owned, Sound, HoldsTable, MappedWithin;
    OwnedIsSound(vm);
    OwnedIsSound(m);
    forall w: nat | w in pages + {v} ensures Leaf(u, root, w) == None {
      if w != v {
        assert Leaf(u, root, w) == Leaf(m, root, w);
      }
    }
    RangeLeaves(vm, m, u, root, pages, v);
    forall f ensures f in u.used <==> f in vm.used && !(freed && MappedWithin(vm, root, pages + {v}, f)) {
      RangeGoneUsed(vm, m, u, root, pages, v, freed, f);
    }
  }

  /** sys_munmap unmaps exactly its pages and, from a page-aligned address, releases exactly their frames. */
  lemma {:induction false} UnmapPagesClearsRange(vm: Vm, root: nat, start: Word, n: nat)
    requires Owned(vm)
    ensures RangeGone(vm, UnmapPages(vm, root, start, n), root, Pages(start, n), start % PAGE_SIZE == 0)
  {
    hide Owned, Sound, HoldsTable, MappedTo, PageFreed, PageAt, AddressAt;
    if n == 0 {
      RangeGoneNone(vm, root, start % PAGE_SIZE == 0);
    } else {
      var m := UnmapPages(vm, root, start, n - 1);
      UnmapPagesClearsRange(vm, root, start, n - 1);
      AddressesAligned(start, n - 1);
      PageFreedIsGone(m, root, start, n - 1);
      RangeGoneOneMore(vm, m, UnmapPages(vm, root, start, n), root, Pages(start, n - 1), PageAt(start, n - 1),
          start % PAGE_SIZE == 0);
    }
  }

  lemma RangeGoneNone(vm: Vm, root: nat, freed: bool)
    requires Owned(vm)
    ensures RangeGone(vm, vm, root, {}, freed)
  {
  }

  lemma PageFreedIsGone(m: Vm, root: nat, start: Word, i: nat)
    requires Owned(m)
    ensures PageGone(m, PageFreed(m, root, AddressAt(start, i)), root, PageAt(start, i), start % PAGE_SIZE == 0)
  {
    AddressesAligned(start, i);
    hide Owned, Sound, AddressAt, PageGone;
    PageFreedWorks(m, root, AddressAt(start, i));
  }
}
