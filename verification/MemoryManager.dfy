/**
  mm.c itself: the bitmap and the words of memory, changed in place. The kernel's identity
  mapping lets mm.c use a physical address as a pointer, so the table at address a is the 512
  words of `ram` from index a / 8. Each method is proved against VirtualMemory.
 */
module MemoryManagement {
  import opened CTypes
  import opened FrameAllocation
  import opened PageTables
  import opened VirtualMemory

  const WORD_BYTES := 8

  class MemoryManager {
    const frames: FrameAllocator
    const ram: array<Word>
    ghost var tables: Tables

    ghost predicate Valid()
      reads this, frames.bitmap, ram
    {
      && frames.Valid()
      && ram as object != frames.bitmap
      && Sound(View())
    }

    ghost function View(): Vm
      requires frames.Valid()
      reads this, frames.bitmap, ram
    {
      Vm(frames.Used(), ram[..], tables)
    }

    /** `pageDir` is null or the address of the root table of an address space. */
    ghost predicate IsPageDir(pageDir: Word)
      reads this
    {
      pageDir != 0 ==> pageDir == FrameOf(pageDir) * PAGE_SIZE && RootSlot(FrameOf(pageDir)) in tables
    }

    /** The state after mm_init, with whatever memory held before. */
    constructor ()
      ensures Valid() && View().tables == map[] && View().used == KernelFrames()
      ensures fresh(frames) && fresh(frames.bitmap) && fresh(ram)
    {
      frames := new FrameAllocator();
      ram := new Word[RAM_WORDS];
      tables := map[];
      new;
      frames.Init();
      assert forall f :: f in KernelFrames() ==> Below(f, FRAMES);
    }

    /** Reads one entry of the table in frame f. */
    method Load(table: Word, index: nat, ghost f: nat) returns (e: Word)
      requires ram.Length == RAM_WORDS && index < ENTRIES
      requires f < FRAMES && table == f * PAGE_SIZE
      ensures e == WordAt(ram[..], f, index)
    {
      e := ram[table / WORD_BYTES + index];
    }

    method Store(table: Word, index: nat, e: Word, ghost f: nat)
      requires ram.Length == RAM_WORDS && index < ENTRIES
      requires f < FRAMES && table == f * PAGE_SIZE
      modifies ram
      ensures ram[..] == WordSet(old(ram[..]), f, index, e)
    {
      ram[table / WORD_BYTES + index] := e;
    }

    /** Clears a page, word by word. */
    method ClearFrame(table: Word, ghost f: nat)
      requires ram.Length == RAM_WORDS
      requires f < FRAMES && table == f * PAGE_SIZE
      modifies ram
      ensures ram[..] == Zeroed(old(ram[..]), f)
    {
      var base := table / WORD_BYTES;
      for i := 0 to ENTRIES
        invariant forall k :: 0 <= k < RAM_WORDS ==>
          ram[k] == if base <= k < base + i then 0 else old(ram[k])
      {
        ram[base + i] := 0;
      }
    }

    method GetFreePage() returns (page: Word)
      requires Valid()
      modifies frames.bitmap
      ensures Valid()
      ensures page == AllocPage(old(View())) && View() == Allocated(old(View()))
    {
      AllocTakesFreeFrame(View());
      page := frames.GetFreePage();
    }

    method FreePage(page: Word)
      requires Valid() && (Freeable(page) ==> !HoldsTable(tables, FrameOf(page)))
      modifies frames.bitmap
      ensures Valid()
      ensures View() == Released(old(View()), page)
    {
      ReleaseKeepsSound(View(), page);
      frames.FreePage(page);
    }

    /** The page_dir of create_process: a cleared frame that becomes the root of a new address space. */
    method NewAddressSpace() returns (pageDir: Word)
      requires Valid()
      modifies this, frames.bitmap, ram
      ensures Valid() && IsPageDir(pageDir)
      ensures pageDir == AllocPage(old(View()))
      ensures View() == if pageDir == 0 then old(View()) else Rooted(old(View()), FrameOf(pageDir))
    {
      AllocTakesFreeFrame(View());
      pageDir := GetFreePage();
      if pageDir == 0 {
        return;
      }
      ghost var f := FrameOf(pageDir);
      RootKeepsTranslations(old(View()), f);
      ClearFrame(pageDir, f);
      tables := tables[RootSlot(f) := f];
    }

    /** The table below entry `index` of the table s, made if it is missing and `create` is set. */
    method GetOrCreateTable(parentTable: Word, index: nat, create: bool, ghost s: Slot) returns (table: Word)
      requires Valid() && index < ENTRIES
      requires s in tables && s.level >= 2 && parentTable == tables[s] * PAGE_SIZE
      modifies this, frames.bitmap, ram
      ensures Valid()
      ensures View() == if create then TableEnsured(old(View()), s, index) else old(View())
      ensures table == if Child(s, index) in tables then tables[Child(s, index)] * PAGE_SIZE else 0
    {
      var entry := ReadTableEntry(parentTable, index, s);
      if Present(entry) {
        return AddressOf(entry);
      } else if create {
        table := MakeTable(parentTable, index, s);
      } else {
        return 0;
      }
    }

    /** The creating branch of get_or_create_table. */
    method MakeTable(parentTable: Word, index: nat, ghost s: Slot) returns (table: Word)
      requires Valid() && index < ENTRIES
      requires s in tables && s.level >= 2 && parentTable == tables[s] * PAGE_SIZE
      requires Child(s, index) !in tables
      modifies this, frames.bitmap, ram
      ensures Valid()
      ensures View() == TableEnsured(old(View()), s, index)
      ensures table == if Child(s, index) in tables then tables[Child(s, index)] * PAGE_SIZE else 0
    {
      ghost var f := TableMadeFromFreePage(View(), s, index);
      hide Sound, TableEnsured, AllocPage, Allocated, FrameOf, Zeroed, WordSet, Child, TableEntry;
      table := GetFreePage();
      if table != 0 {
        LinkTable(table, f, parentTable, index, s);
      }
    }

    /** Clear the frame of a new table and enter it in the table above. */
    method LinkTable(newTable: Word, ghost f: nat, parentTable: Word, index: nat, ghost s: Slot)
      requires frames.Valid() && ram.Length == RAM_WORDS && ram as object != frames.bitmap
      requires f < FRAMES && newTable == f * PAGE_SIZE && index < ENTRIES
      requires s in tables && s.level > 0 && tables[s] < FRAMES && parentTable == tables[s] * PAGE_SIZE
      modifies this, ram
      ensures View() == Vm(old(frames.Used()),
                           WordSet(Zeroed(old(ram[..]), f), old(tables)[s], index, TableEntry(f)),
                           old(tables)[Child(s, index) := f])
    {
      hide Zeroed, WordSet;
      ClearFrame(newTable, f);
      Store(parentTable, index, newTable + 3, tables[s]);
      tables := tables[Child(s, index) := f];
    }

    /** The shifts and masks with which every walk of mm.c begins. */
    static method SplitAddress(vaddr: Word) returns (pml4Idx: nat, pdptIdx: nat, pdIdx: nat, ptIdx: nat)
      ensures pml4Idx == Pml4Idx(Vpn(vaddr)) && pdptIdx == PdptIdx(Vpn(vaddr))
      ensures pdIdx == PdIdx(Vpn(vaddr)) && ptIdx == Vpn(vaddr) % ENTRIES
    {
      pml4Idx := vaddr / 0x80_0000_0000 % 0x200;
      pdptIdx := vaddr / 0x4000_0000 % 0x200;
      pdIdx := vaddr / 0x20_0000 % 0x200;
      ptIdx := vaddr / 0x1000 % 0x200;
      IndicesOfAddress(vaddr);
    }

    /** An entry on the way down from the root, with what the separation invariant says of it. */
    method ReadTableEntry(table: Word, index: nat, ghost s: Slot) returns (e: Word)
      requires Valid() && index < ENTRIES && s in tables && s.level >= 2 && table == tables[s] * PAGE_SIZE
      ensures if Present(e) then
                !Large(e) && Child(s, index) in tables && AddressOf(e) == tables[Child(s, index)] * PAGE_SIZE
              else Child(s, index) !in tables
    {
      e := Load(table, index, tables[s]);
      assert EntryLinked(ram[..], tables, s, index);
    }

    /**
      The steps get_physical_address and unmap_page share: the PD entry on the way to the page,
      or 0 when the chain breaks off above it.
     */
    method WalkToPdEntry(pageDir: Word, vaddr: Word) returns (pdEntry: Word)
      requires Valid() && pageDir != 0 && IsPageDir(pageDir)
      ensures var pt := PtSlot(FrameOf(pageDir), Vpn(vaddr));
              if pt in tables then
                Present(pdEntry) && !Large(pdEntry) && AddressOf(pdEntry) == tables[pt] * PAGE_SIZE
              else !Present(pdEntry)
    {
      ghost var root, v := FrameOf(pageDir), Vpn(vaddr);
      var pml4Idx, pdptIdx, pdIdx, _ := SplitAddress(vaddr);
      PathBreaks(View(), root, v);
      hide Sound, Vpn, Pml4Idx, PdptIdx, PdIdx, PtSlot, PdSlot, PdptSlot;
      var pml4Entry := ReadTableEntry(pageDir, pml4Idx, RootSlot(root));
      if !Present(pml4Entry) {
        return 0;
      }
      var pdptEntry := ReadTableEntry(AddressOf(pml4Entry), pdptIdx, PdptSlot(root, v));
      if !Present(pdptEntry) {
        return 0;
      }
      pdEntry := ReadTableEntry(AddressOf(pdptEntry), pdIdx, PdSlot(root, v));
    }

    method GetPhysicalAddress(pageDir: Word, vaddr: Word) returns (pa: Word)
      requires Valid() && IsPageDir(pageDir)
      ensures pa == if pageDir == 0 then 0
                    else PhysicalAddress(Leaf(View(), FrameOf(pageDir), Vpn(vaddr)), vaddr)
    {
      if pageDir == 0 {
        return 0;
      }
      var _, _, _, ptIdx := SplitAddress(vaddr);
      hide Sound, Vpn, FrameOf, AddressOf, WithOffset;
      var pdEntry := WalkToPdEntry(pageDir, vaddr);
      PathBreaks(View(), FrameOf(pageDir), Vpn(vaddr));
      if Present(pdEntry) {
        if Large(pdEntry) {
          assert false;   // the 2 MB page case: no table of this kernel ever holds such an entry
        }
      } else {
        return 0;
      }
      var ptEntry := Load(AddressOf(pdEntry), ptIdx, tables[PtSlot(FrameOf(pageDir), Vpn(vaddr))]);
      if !Present(ptEntry) {
        return 0;
      }
      return WithOffset(ptEntry, vaddr);
    }

    /** The three get_or_create_table calls of map_page: the page's lowest table, or 0. */
    method EnsurePageTable(pageDir: Word, vaddr: Word) returns (pt: Word)
      requires Valid() && pageDir != 0 && IsPageDir(pageDir)
      modifies this, frames.bitmap, ram
      ensures Valid()
      ensures View() == PathEnsured(old(View()), FrameOf(pageDir), Vpn(vaddr))
      ensures pt == var s := PtSlot(FrameOf(pageDir), Vpn(vaddr)); if s in tables then tables[s] * PAGE_SIZE else 0
    {
      ghost var root, v := FrameOf(pageDir), Vpn(vaddr);
      var pml4Idx, pdptIdx, pdIdx, _ := SplitAddress(vaddr);
      PathEnsuredByCalls(View(), root, v);
      PathBreaks(View(), root, v);
      hide Sound, Vpn, FrameOf, Pml4Idx, PdptIdx, PdIdx, PtSlot, PdSlot, PdptSlot, TableEnsured, PathEnsured;
      pt := 0;
      var pdpt := GetOrCreateTable(pageDir, pml4Idx, true, RootSlot(root));
      PathBreaks(View(), root, v);
      if pdpt != 0 {
        var pd := GetOrCreateTable(pdpt, pdptIdx, true, PdptSlot(root, v));
        PathBreaks(View(), root, v);
        if pd != 0 {
          pt := GetOrCreateTable(pd, pdIdx, true, PdSlot(root, v));
        }
      }
    }

    /** Sets the entry of page v in its lowest table. */
    method WriteLeaf(pt: Word, ptIdx: nat, e: Word, ghost root: nat, ghost v: nat)
      requires Valid() && PtSlot(root, v) in tables
      requires pt == tables[PtSlot(root, v)] * PAGE_SIZE && ptIdx == v % ENTRIES
      modifies ram
      ensures Valid()
      ensures View() == LeafWritten(old(View()), root, v, e)
    {
      LeafWriteIsMapUpdate(View(), root, v, e);
      Store(pt, ptIdx, e, tables[PtSlot(root, v)]);
    }

    method MapPage(pageDir: Word, vaddr: Word, paddr: Word, flags: Word)
      requires Valid() && IsPageDir(pageDir)
      modifies this, frames.bitmap, ram
      ensures Valid()
      ensures View() == if pageDir == 0 then old(View())
                        else PageMapped(old(View()), FrameOf(pageDir), Vpn(vaddr), LeafEntry(paddr, flags))
    {
      if pageDir == 0 {
        return;
      }
      ghost var root, v := FrameOf(pageDir), Vpn(vaddr);
      var _, _, _, ptIdx := SplitAddress(vaddr);
      hide Sound, SameLeaves, SameLeavesExcept, Grown, Vpn, FrameOf, PtSlot, PathEnsured, LeafEntry;
      var pt := EnsurePageTable(pageDir, vaddr);
      PathBreaks(View(), root, v);
      if pt != 0 {
        WriteLeaf(pt, ptIdx, LeafEntry(paddr, flags), root, v);
      }
    }

    method UnmapPage(pageDir: Word, vaddr: Word)
      requires Valid() && IsPageDir(pageDir)
      modifies ram
      ensures Valid()
      ensures View() == if pageDir == 0 then old(View())
                        else PageUnmapped(old(View()), FrameOf(pageDir), Vpn(vaddr))
    {
      if pageDir == 0 {
        return;
      }
      var _, _, _, ptIdx := SplitAddress(vaddr);
      PathBreaks(View(), FrameOf(pageDir), Vpn(vaddr));
      hide Sound, Vpn, FrameOf, Pml4Idx, PdptIdx, PdIdx, PdSlot, PdptSlot;
      var pdEntry := WalkToPdEntry(pageDir, vaddr);
      if !Present(pdEntry) || Large(pdEntry) {
        return;
      }
      WriteLeaf(AddressOf(pdEntry), ptIdx, 0, FrameOf(pageDir), Vpn(vaddr));
    }
  }
}
