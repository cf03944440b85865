/**
  What the operations of mm.c do to the state, and that map_page and unmap_page are updates of
  the abstract translation.
 */
module VirtualMemory {
  import opened CTypes
  import opened FrameAllocation
  import opened PageTables

  // ---------------------------------------------------------------------------
  // Frames
  // ---------------------------------------------------------------------------

  /** get_free_page: the address handed out, or 0. */
  ghost function AllocPage(vm: Vm): Word {
    GetStep(vm.used).0
  }

  ghost function Allocated(vm: Vm): Vm {
    vm.(used := GetStep(vm.used).1)
  }

  /** free_page */
  ghost function Released(vm: Vm, page: Word): Vm {
    vm.(used := FreeStep(vm.used, page))
  }

  lemma AllocTakesFreeFrame(vm: Vm)
    requires Sound(vm)
    ensures Sound(Allocated(vm)) && SameLeaves(vm, Allocated(vm))
    ensures AllocPage(vm) == 0 <==> Free(vm) == {}
    ensures AllocPage(vm) == 0 ==> Allocated(vm) == vm
    ensures AllocPage(vm) != 0 ==>
      && Freeable(AllocPage(vm)) && FrameOf(AllocPage(vm)) in Free(vm)
      && Allocated(vm).used == vm.used + {FrameOf(AllocPage(vm))}
      && Free(Allocated(vm)) == Free(vm) - {FrameOf(AllocPage(vm))}
  {
    FreeFrameExists(vm.used);
    forall root: nat, v: nat ensures Leaf(Allocated(vm), root, v) == Leaf(vm, root, v) {}
  }

  lemma ReleaseKeepsSound(vm: Vm, page: Word)
    requires Sound(vm) && (Freeable(page) ==> !HoldsTable(vm.tables, FrameOf(page)))
    ensures Sound(Released(vm, page)) && SameLeaves(vm, Released(vm, page))
  {
    assert forall s :: s in vm.tables ==> HoldsTable(vm.tables, vm.tables[s]);
    forall root: nat, v: nat ensures Leaf(Released(vm, page), root, v) == Leaf(vm, root, v) {}
  }

  // ---------------------------------------------------------------------------
  // The path from a root to the table of a page
  // ---------------------------------------------------------------------------

  function PdSlot(root: nat, v: nat): Slot {
    Parent(PtSlot(root, v))
  }

  function PdptSlot(root: nat, v: nat): Slot {
    Parent(PdSlot(root, v))
  }

  // The index of a page at each level above the lowest.
  function Pml4Idx(v: nat): nat { v / ENTRIES / ENTRIES / ENTRIES }
  function PdptIdx(v: nat): nat { v / ENTRIES / ENTRIES % ENTRIES }
  function PdIdx(v: nat): nat { v / ENTRIES % ENTRIES }

  lemma PathToPage(root: nat, v: nat)
    requires v < PAGES
    ensures Pml4Idx(v) < ENTRIES && PdptIdx(v) < ENTRIES && PdIdx(v) < ENTRIES
    ensures Child(RootSlot(root), Pml4Idx(v)) == PdptSlot(root, v)
    ensures Child(PdptSlot(root, v), PdptIdx(v)) == PdSlot(root, v)
    ensures Child(PdSlot(root, v), PdIdx(v)) == PtSlot(root, v)
    ensures Parent(PdptSlot(root, v)) == RootSlot(root)
  {
  }

  /** The virtual page of an address: bits 12 to 47. */
  function Vpn(vaddr: Word): (v: nat)
    ensures v < PAGES
  {
    vaddr / PAGE_SIZE % PAGES
  }

  /** The shifts and masks mm.c applies to an address are the indices of its page. */
  lemma IndicesOfAddress(vaddr: Word)
    ensures vaddr / 0x80_0000_0000 % 0x200 == Pml4Idx(Vpn(vaddr))
    ensures vaddr / 0x4000_0000 % 0x200 == PdptIdx(Vpn(vaddr))
    ensures vaddr / 0x20_0000 % 0x200 == PdIdx(Vpn(vaddr))
    ensures vaddr / 0x1000 % 0x200 == Vpn(vaddr) % ENTRIES
  {
    var p := vaddr / PAGE_SIZE;
    var v := p % PAGES;
    assert vaddr / 0x20_0000 == p / 512;
    assert vaddr / 0x4000_0000 == p / 512 / 512;
    assert vaddr / 0x80_0000_0000 == p / 512 / 512 / 512;
    var q := p / PAGES;
    assert p == q * PAGES + v;
    assert p / 512 == q * 0x800_0000 + v / 512;
    assert p / 512 / 512 == q * 0x4_0000 + v / 512 / 512;
    assert p / 512 / 512 / 512 == q * 0x200 + v / 512 / 512 / 512;
  }

  ghost predicate HasRoot(vm: Vm, root: nat) {
    RootSlot(root) in vm.tables
  }

  // ---------------------------------------------------------------------------
  // get_or_create_table
  // ---------------------------------------------------------------------------

  ghost function TableEnsured(vm: Vm, s: Slot, i: nat): Vm
    requires Sound(vm) && s in vm.tables && s.level >= 2 && i < ENTRIES
  {
    var f := FirstFree(vm.used, 0);
    if Child(s, i) in vm.tables || f == FRAMES then vm else Hung(vm, s, i, f)
  }

  /** What making a missing table does to the bitmap, to memory and to the tree. */
  lemma TableMadeFromFreePage(vm: Vm, s: Slot, i: nat) returns (f: nat)
    requires Sound(vm) && s in vm.tables && s.level >= 2 && i < ENTRIES && Child(s, i) !in vm.tables
    ensures Sound(TableEnsured(vm, s, i))
    ensures |vm.ram| == RAM_WORDS && vm.tables[s] < FRAMES && f < FRAMES
    ensures AllocPage(vm) == 0 ==> TableEnsured(vm, s, i) == vm && Allocated(vm) == vm
    ensures AllocPage(vm) != 0 ==>
      && AllocPage(vm) == f * PAGE_SIZE
      && Allocated(vm) == vm.(used := TableEnsured(vm, s, i).used)
      && TableEnsured(vm, s, i).ram == WordSet(Zeroed(vm.ram, f), vm.tables[s], i, TableEntry(f))
      && TableEnsured(vm, s, i).tables == vm.tables[Child(s, i) := f]
  {
    f := FirstFree(vm.used, 0);
    TableEnsuredWorks(vm, s, i);
    FreeFrameExists(vm.used);
    if f == FRAMES {
      f := 0;
    }
  }

  lemma SameLeavesTwice(a: Vm, b: Vm, c: Vm)
    requires Sound(a) && Sound(b) && Sound(c) && SameLeaves(a, b) && SameLeaves(b, c)
    ensures SameLeaves(a, c)
  {
    forall root: nat, v: nat ensures Leaf(c, root, v) == Leaf(a, root, v) {
      assert Leaf(b, root, v) == Leaf(a, root, v);
    }
  }

  lemma TableEnsuredWorks(vm: Vm, s: Slot, i: nat)
    requires Sound(vm) && s in vm.tables && s.level >= 2 && i < ENTRIES
    ensures var vm' := TableEnsured(vm, s, i);
            && Sound(vm') && SameLeaves(vm, vm') && Grown(vm, vm')
            && (Child(s, i) in vm'.tables <==> Child(s, i) in vm.tables || Free(vm) != {})
            && vm'.tables.Keys == vm.tables.Keys + (if Child(s, i) in vm'.tables then {Child(s, i)} else {})
            && (Child(s, i) !in vm'.tables ==> vm' == vm)
  {
    var vm' := TableEnsured(vm, s, i);
    FreeFrameExists(vm.used);
    if vm' == vm {
      assert vm.tables.Keys - vm.tables.Keys == {};
    } else {
      HangKeepsTranslations(vm, s, i, FirstFree(vm.used, 0));
    }
  }

  // ---------------------------------------------------------------------------
  // map_page and unmap_page
  // ---------------------------------------------------------------------------

  /** Both states are sound, tables only grew, no translation changed. */
  ghost predicate Quietly(vm: Vm, vm': Vm) {
    Sound(vm) && Sound(vm') && SameLeaves(vm, vm') && Grown(vm, vm')
  }

  lemma QuietlyTwice(a: Vm, b: Vm, c: Vm)
    requires Quietly(a, b) && Quietly(b, c)
    ensures Quietly(a, c)
  {
    SameLeavesTwice(a, b, c);
    GrownTwice(a, b, c);
  }

  /** The tables met going down from s along the given indices. */
  ghost function TablesBelow(s: Slot, indices: seq<nat>): set<Slot>
    requires |indices| < s.level
    decreases |indices|
  {
    if indices == [] then {}
    else {Child(s, indices[0])} + TablesBelow(Child(s, indices[0]), indices[1..])
  }

  ghost function Lowest(s: Slot, indices: seq<nat>): Slot
    requires |indices| < s.level
    decreases |indices|
  {
    if indices == [] then s else Lowest(Child(s, indices[0]), indices[1..])
  }

  ghost predicate IndicesOf(s: Slot, indices: seq<nat>) {
    |indices| < s.level && forall i :: 0 <= i < |indices| ==> indices[i] < ENTRIES
  }

  /** One get_or_create_table call per index, each made only if the one before succeeded. */
  ghost function ChainEnsured(vm: Vm, s: Slot, indices: seq<nat>): (vm': Vm)
    requires Sound(vm) && s in vm.tables && s.level <= 4 && IndicesOf(s, indices)
    ensures Quietly(vm, vm')
    decreases |indices|
  {
    TableEnsuredNothing(vm);
    if indices == [] then vm
    else
      var mid := TableEnsured(vm, s, indices[0]);
      TableEnsuredWorks(vm, s, indices[0]);
      if Child(s, indices[0]) !in mid.tables then mid
      else
        var vm' := ChainEnsured(mid, Child(s, indices[0]), indices[1..]);
        QuietlyTwice(vm, mid, vm');
        vm'
  }

  lemma TableEnsuredNothing(vm: Vm)
    requires Sound(vm)
    ensures Quietly(vm, vm)
  {
    assert vm.tables.Keys - vm.tables.Keys == {};
  }

  lemma {:induction false} BelowAreLower(s: Slot, indices: seq<nat>)
    requires |indices| < s.level
    ensures forall q :: q in TablesBelow(s, indices) ==> q.level < s.level
    decreases |indices|
  {
    if indices != [] {
      BelowAreLower(Child(s, indices[0]), indices[1..]);
    }
  }

  /** A table is missing as soon as one above it is. */
  lemma {:induction false} BrokenChain(vm: Vm, s: Slot, indices: seq<nat>)
    requires Sound(vm) && IndicesOf(s, indices) && s.level <= 4 && s !in vm.tables
    ensures Lowest(s, indices) !in vm.tables
    decreases |indices|
  {
    if indices != [] {
      ChildIsInjective(s, indices[0], s, indices[0]);
      BrokenChain(vm, Child(s, indices[0]), indices[1..]);
    }
  }

  lemma CountOneOf(keys: set<Slot>, c: Slot, rest: set<Slot>)
    requires c !in rest
    ensures |({c} + rest) - keys| == |{c} - keys| + |rest - (keys + {c})|
  {
    assert ({c} + rest) - keys == ({c} - keys) + (rest - (keys + {c}));
  }

  /** Ensuring one table leaves the question whether the rest will fit as it was. */
  lemma EnsureOneOf(vm: Vm, s: Slot, i: nat, rest: set<Slot>)
    requires Sound(vm) && s in vm.tables && s.level >= 2 && i < ENTRIES && Child(s, i) !in rest
    ensures var vm', all := TableEnsured(vm, s, i), {Child(s, i)} + rest;
            if Child(s, i) in vm'.tables then
              |all - vm.tables.Keys| <= |Free(vm)| <==> |rest - vm'.tables.Keys| <= |Free(vm')|
            else
              Free(vm) == {} && |all - vm.tables.Keys| > 0
  {
    hide Sound, SameLeaves, TableEnsured, Free;
    TableEnsuredWorks(vm, s, i);
    var vm', c, keys := TableEnsured(vm, s, i), Child(s, i), vm.tables.Keys;
    CountOneOf(keys, c, rest);
    if c in vm'.tables {
      assert vm'.tables.Keys - keys == {c} - keys;
      assert |Free(vm')| + |{c} - keys| == |Free(vm)|;
    } else {
      assert {c} - keys == {c};
    }
  }

  lemma {:induction false} ChainEnsuredKeys(vm: Vm, s: Slot, indices: seq<nat>)
    requires Sound(vm) && s in vm.tables && IndicesOf(s, indices)
    ensures ChainEnsured(vm, s, indices).tables.Keys <= vm.tables.Keys + TablesBelow(s, indices)
    decreases |indices|
  {
    if indices != [] {
      hide Sound, Grown, SameLeaves;
      var c := Child(s, indices[0]);
      TableEnsuredWorks(vm, s, indices[0]);
      var mid := TableEnsured(vm, s, indices[0]);
      if c in mid.tables {
        ChainEnsuredKeys(mid, c, indices[1..]);
      }
    }
  }

  /** Every table of the chain is there afterwards if the missing ones fit, else the lowest is not. */
  lemma {:induction false} ChainEnsuredWorks(vm: Vm, s: Slot, indices: seq<nat>)
    requires Sound(vm) && s in vm.tables && s.level <= 4 && IndicesOf(s, indices)
    ensures |TablesBelow(s, indices) - vm.tables.Keys| <= |Free(vm)| ==>
              TablesBelow(s, indices) <= ChainEnsured(vm, s, indices).tables.Keys
    ensures |TablesBelow(s, indices) - vm.tables.Keys| > |Free(vm)| ==>
              Lowest(s, indices) !in ChainEnsured(vm, s, indices).tables && Free(ChainEnsured(vm, s, indices)) == {}
    decreases |indices|
  {
    if indices == [] {
      assert {} - vm.tables.Keys == {};
    } else {
      hide Sound, Grown, SameLeaves;
      var c, rest := Child(s, indices[0]), TablesBelow(Child(s, indices[0]), indices[1..]);
      BelowAreLower(c, indices[1..]);
      EnsureOneOf(vm, s, indices[0], rest);
      TableEnsuredWorks(vm, s, indices[0]);
      var mid := TableEnsured(vm, s, indices[0]);
      if c in mid.tables {
        ChainEnsuredWorks(mid, c, indices[1..]);
        ChainKeepsTables(mid, c, indices[1..]);
      } else {
        BrokenChain(vm, c, indices[1..]);
      }
    }
  }

  lemma ChainKeepsTables(vm: Vm, s: Slot, indices: seq<nat>)
    requires Sound(vm) && s in vm.tables && IndicesOf(s, indices)
    ensures vm.tables.Keys <= ChainEnsured(vm, s, indices).tables.Keys
  {
    assert Grown(vm, ChainEnsured(vm, s, indices));
  }

  // ---------------------------------------------------------------------------
  // The path to a page
  // ---------------------------------------------------------------------------

  function Indices(v: nat): (indices: seq<nat>)
    requires v < PAGES
    ensures IndicesOf(RootSlot(0), indices)
  {
    [Pml4Idx(v), PdptIdx(v), PdIdx(v)]
  }

  /** The tables below the root that serve virtual page v. */
  ghost function PathSlots(root: nat, v: nat): set<Slot>
    requires v < PAGES
  {
    TablesBelow(RootSlot(root), Indices(v))
  }

  ghost function Missing(vm: Vm, root: nat, v: nat): set<Slot>
    requires v < PAGES
  {
    PathSlots(root, v) - vm.tables.Keys
  }

  lemma PathLeadsToPage(root: nat, v: nat)
    requires v < PAGES
    ensures PathSlots(root, v) == {PdptSlot(root, v), PdSlot(root, v), PtSlot(root, v)}
    ensures Lowest(RootSlot(root), Indices(v)) == PtSlot(root, v)
  {
    PathToPage(root, v);
    var i := Indices(v);
    assert i[1..] == [i[1], i[2]] && i[1..][1..] == [i[2]] && i[1..][1..][1..] == [];
    calc {
      TablesBelow(RootSlot(root), i);
      TablesBelow(PdptSlot(root, v), i[1..]) + {PdptSlot(root, v)};
      TablesBelow(PdSlot(root, v), i[1..][1..]) + {PdSlot(root, v)} + {PdptSlot(root, v)};
      TablesBelow(PtSlot(root, v), []) + {PtSlot(root, v)} + {PdSlot(root, v)} + {PdptSlot(root, v)};
      ({PdptSlot(root, v), PdSlot(root, v), PtSlot(root, v)});
    }
    calc {
      Lowest(RootSlot(root), i);
      Lowest(PdptSlot(root, v), i[1..]);
      Lowest(PdSlot(root, v), i[1..][1..]);
      Lowest(PtSlot(root, v), []);
    }
  }

  ghost function PathEnsured(vm: Vm, root: nat, v: nat): (vm': Vm)
    requires Sound(vm) && HasRoot(vm, root) && v < PAGES
    ensures Quietly(vm, vm')
  {
    ChainEnsured(vm, RootSlot(root), Indices(v))
  }

  /** Down the path of a page: indices step from table to table, and a gap leaves nothing below it. */
  lemma PathBreaks(vm: Vm, root: nat, v: nat)
    requires Sound(vm) && v < PAGES
    ensures |vm.ram| == RAM_WORDS
    ensures Pml4Idx(v) < ENTRIES && PdptIdx(v) < ENTRIES && PdIdx(v) < ENTRIES
    ensures PdptSlot(root, v) == Child(RootSlot(root), Pml4Idx(v)) && PdptSlot(root, v).level == 3
    ensures PdSlot(root, v) == Child(PdptSlot(root, v), PdptIdx(v)) && PdSlot(root, v).level == 2
    ensures PtSlot(root, v) == Child(PdSlot(root, v), PdIdx(v)) && PtSlot(root, v).level == 1
    ensures PdptSlot(root, v) !in vm.tables ==> PdSlot(root, v) !in vm.tables
    ensures PdSlot(root, v) !in vm.tables ==> PtSlot(root, v) !in vm.tables
    ensures forall s :: s in vm.tables ==> 0 < vm.tables[s] < FRAMES
    ensures RootSlot(root) in vm.tables ==> vm.tables[RootSlot(root)] == root
  {
    PathToPage(root, v);
  }

  /** The same, call by call. */
  lemma PathEnsuredByCalls(vm: Vm, root: nat, v: nat)
    requires Sound(vm) && HasRoot(vm, root) && v < PAGES
    ensures Child(RootSlot(root), Pml4Idx(v)) == PdptSlot(root, v) && Pml4Idx(v) < ENTRIES
    ensures Child(PdptSlot(root, v), PdptIdx(v)) == PdSlot(root, v) && PdptSlot(root, v).level == 3
    ensures Child(PdSlot(root, v), PdIdx(v)) == PtSlot(root, v) && PdSlot(root, v).level == 2
    ensures var a := TableEnsured(vm, RootSlot(root), Pml4Idx(v));
            Sound(a) &&
            if PdptSlot(root, v) !in a.tables then PathEnsured(vm, root, v) == a
            else
              var b := TableEnsured(a, PdptSlot(root, v), PdptIdx(v));
              Sound(b) &&
              if PdSlot(root, v) !in b.tables then PathEnsured(vm, root, v) == b
              else PathEnsured(vm, root, v) == TableEnsured(b, PdSlot(root, v), PdIdx(v))
  {
    hide Sound, Grown, SameLeaves, TableEnsured;
    PathToPage(root, v);
    var i := Indices(v);
    assert i[1..] == [PdptIdx(v), PdIdx(v)] && i[1..][1..] == [PdIdx(v)] && i[1..][1..][1..] == [];
    var a := TableEnsured(vm, RootSlot(root), Pml4Idx(v));
    TableEnsuredWorks(vm, RootSlot(root), Pml4Idx(v));
    if PdptSlot(root, v) in a.tables {
      var b := TableEnsured(a, PdptSlot(root, v), PdptIdx(v));
      TableEnsuredWorks(a, PdptSlot(root, v), PdptIdx(v));
      assert ChainEnsured(vm, RootSlot(root), i) == ChainEnsured(a, PdptSlot(root, v), i[1..]);
      if PdSlot(root, v) in b.tables {
        var c := TableEnsured(b, PdSlot(root, v), PdIdx(v));
        TableEnsuredWorks(b, PdSlot(root, v), PdIdx(v));
        assert ChainEnsured(a, PdptSlot(root, v), i[1..]) == ChainEnsured(b, PdSlot(root, v), i[1..][1..]);
        assert PtSlot(root, v) in c.tables ==> ChainEnsured(c, PtSlot(root, v), i[1..][1..][1..]) == c;
      }
    }
  }

  lemma PathEnsuredWorks(vm: Vm, root: nat, v: nat)
    requires Sound(vm) && HasRoot(vm, root) && v < PAGES
    ensures var vm' := PathEnsured(vm, root, v);
            && vm'.tables.Keys <= vm.tables.Keys + PathSlots(root, v)
            && if |Missing(vm, root, v)| <= |Free(vm)| then
                 vm'.tables.Keys == vm.tables.Keys + PathSlots(root, v) && PtSlot(root, v) in vm'.tables
               else PtSlot(root, v) !in vm'.tables && Free(vm') == {}
  {
    hide Sound, Grown, SameLeaves, PtSlot, TablesBelow, Indices;
    PathLeadsToPage(root, v);
    ChainEnsuredWorks(vm, RootSlot(root), Indices(v));
    ChainEnsuredKeys(vm, RootSlot(root), Indices(v));
    ChainKeepsTables(vm, RootSlot(root), Indices(v));
  }

  /**
    The entry map_page writes: the page's address, or-ed with the flags. Flags within the low twelve
    bits, as all callers pass them, leave the address alone.
   */
  function LeafEntry(paddr: Word, flags: Word): (e: Word)
    ensures flags < 0x1000 ==> e == AddressOf(paddr) + flags
  {
    PowersOfTwo();
    OrFits(AddressOf(paddr), flags, 64);
    AddressThenFlags(paddr, flags);
    Or(AddressOf(paddr), flags)
  }

  lemma AddressThenFlags(paddr: Word, flags: Word)
    ensures flags < 0x1000 ==> Or(AddressOf(paddr), flags) == AddressOf(paddr) + flags
  {
    PowersOfTwo();
    assert AddressOf(paddr) == paddr / 0x1000 * 0x1000;
    if flags < 0x1000 {
      OrApart(paddr / 0x1000, flags, 12);
    }
  }

  /** The address an entry gives, with the offset of a virtual address in its page. */
  function WithOffset(e: Word, vaddr: Word): Word {
    AddressOf(e) + vaddr % 0x1000
  }

  /** What get_physical_address answers for an address whose page has the given translation. */
  function PhysicalAddress(leaf: Option<Word>, vaddr: Word): Word {
    match leaf
    case None => 0
    case Some(e) => WithOffset(e, vaddr)
  }

  ghost function PageMapped(vm: Vm, root: nat, v: nat, e: Word): Vm
    requires Sound(vm) && HasRoot(vm, root) && v < PAGES
  {
    var vm' := PathEnsured(vm, root, v);
    if PtSlot(root, v) !in vm'.tables then vm' else LeafWritten(vm', root, v, e)
  }

  ghost function PageUnmapped(vm: Vm, root: nat, v: nat): Vm
    requires Sound(vm)
  {
    if PtSlot(root, v) !in vm.tables then vm else LeafWritten(vm, root, v, 0)
  }

  /**
    map_page refines a map update: if the free frames suffice for the missing tables, page v of
    that address space gets the new entry and no other page of any address space changes;
    otherwise no translation changes at all (and no frame is left).
   */
  lemma MapPageIsMapUpdate(vm: Vm, root: nat, v: nat, e: Word)
    requires Sound(vm) && HasRoot(vm, root) && v < PAGES
    ensures var vm' := PageMapped(vm, root, v, e);
            && Sound(vm') && Grown(vm, vm')
            && vm'.tables.Keys <= vm.tables.Keys + PathSlots(root, v)
            && if |Missing(vm, root, v)| <= |Free(vm)| then
                 && vm'.tables.Keys == vm.tables.Keys + PathSlots(root, v)
                 && Leaf(vm', root, v) == (if Present(e) then Some(e) else None)
                 && SameLeavesExcept(vm, vm', root, {v})
               else
                 && PtSlot(root, v) !in vm'.tables && Free(vm') == {}
                 && SameLeaves(vm, vm')
  {
    hide Sound;
    var mid := PathEnsured(vm, root, v);
    PathEnsuredWorks(vm, root, v);
    if PtSlot(root, v) in mid.tables {
      LeafWriteIsMapUpdate(mid, root, v, e);
      var vm' := PageMapped(vm, root, v, e);
      SameExceptAfter(vm, mid, vm', root, {v});
      SameFramesGrown(vm, mid, vm');
    }
  }

  lemma SameExceptAfter(a: Vm, b: Vm, c: Vm, root: nat, pages: set<nat>)
    requires Sound(a) && Sound(b) && Sound(c) && SameLeaves(a, b) && SameLeavesExcept(b, c, root, pages)
    ensures SameLeavesExcept(a, c, root, pages)
  {
    forall r: nat, w: nat | r != root || w !in pages
      ensures Leaf(c, r, w) == Leaf(a, r, w)
    {
      assert Leaf(b, r, w) == Leaf(a, r, w);
    }
  }

  lemma SameFramesGrown(a: Vm, b: Vm, c: Vm)
    requires Grown(a, b) && c.used == b.used && c.tables == b.tables
    ensures Grown(a, c)
  {
  }

  lemma UnmapPageIsMapRemoval(vm: Vm, root: nat, v: nat)
    requires Sound(vm)
    ensures var vm' := PageUnmapped(vm, root, v);
            && Sound(vm') && vm'.tables == vm.tables && vm'.used == vm.used
            && Leaf(vm', root, v) == None
            && SameLeavesExcept(vm, vm', root, {v})
  {
    if PtSlot(root, v) in vm.tables {
      LeafWriteIsMapUpdate(vm, root, v, 0);
    }
  }
}
