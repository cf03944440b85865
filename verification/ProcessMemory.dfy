/**
  kernel.c: sys_mmap, sys_munmap and sys_brk as methods of the current process, over mm.c.
 */
module ProcessMemory {
  import opened CTypes
  import opened FrameAllocation
  import opened PageTables
  import opened VirtualMemory
  import opened AddressSpaces
  import opened PageLoops
  import opened MemoryCalls
  import opened ByteRanges
  import opened MemoryManagement

  const FAILED: Word := SIZE_MAX    // (void*)-1
  const HEAP_LIMIT := 0x100_0000    // 16 MB

  class Process {
    const mm: MemoryManager
    const pageDir: Word
    var heapStart: Word
    var heapBrk: Word
    var heapEnd: Word

    /** A process create_process has made: it has a page directory and its heap limits are low. */
    ghost predicate Valid()
      reads this, mm, mm.frames.bitmap, mm.ram
    {
      && mm.Valid() && Owned(mm.View())
      && pageDir != 0 && mm.IsPageDir(pageDir)
      && heapEnd + HEAP_LIMIT < TWO32
    }

    ghost function Root(): nat {
      FrameOf(pageDir)
    }

    constructor (mm: MemoryManager, pageDir: Word)
      requires mm.Valid() && Owned(mm.View()) && pageDir != 0 && mm.IsPageDir(pageDir)
      ensures Valid() && this.mm == mm && this.pageDir == pageDir
      ensures heapStart == heapBrk == 0x20_0000 && heapEnd == 0x40_0000
    {
      this.mm := mm;
      this.pageDir := pageDir;
      heapStart, heapBrk, heapEnd := 0x20_0000, 0x20_0000, 0x40_0000;
    }

    /** One iteration of the mapping loops: get_free_page and, if it gave a frame, map_page. */
    method MapOne(start: Word, i: nat, flags: nat, ghost before: Vm) returns (ok: bool)
      requires mm.Valid() && pageDir != 0 && mm.IsPageDir(pageDir)
      requires Mappable(before, Root(), flags)
      requires (mm.View(), i) == MapPages(before, Root(), start, i, flags)
      modifies mm, mm.frames.bitmap, mm.ram
      ensures mm.Valid() && mm.IsPageDir(pageDir)
      ensures (mm.View(), if ok then i + 1 else i) == MapPages(before, Root(), start, i + 1, flags)
    {
      hide Sound, AllocPage, Allocated, PageMapped, LeafEntry, MapPages, FrameOf, HasRoot, AddressAt, Vpn;
      ghost var m := mm.View();
      assert HasRoot(m, Root());
      MapPagesOneMore(before, Root(), start, i, flags);
      var page := mm.GetFreePage();
      if page == 0 {
        return false;
      }
      PageDirStays(mm.View(), pageDir);
      mm.MapPage(pageDir, AddressAt(start, i), page, flags);
      PageDirStays(mm.View(), pageDir);
      assert mm.View() == MapPages(before, Root(), start, i + 1, flags).0;
      return true;
    }

    /** The out-of-memory path of sys_mmap: free the frames of the pages done, leaving them mapped. */
    method FreeDone(start: Word, n: nat)
      requires mm.Valid() && TablesUnmapped(mm.View()) && pageDir != 0 && mm.IsPageDir(pageDir)
      modifies mm.frames.bitmap
      ensures mm.Valid() && TablesUnmapped(mm.View())
      ensures mm.View() == FramesFreed(old(mm.View()), Root(), start, n)
    {
      ghost var before := mm.View();
      for j := 0 to n
        invariant mm.Valid() && TablesUnmapped(mm.View()) && mm.IsPageDir(pageDir)
        invariant mm.View() == FramesFreed(before, Root(), start, j)
      {
        hide Sound, TablesUnmapped, HoldsTable, FrameOf, Leaf, WithOffset, AddressAt, Vpn, Released;
        FrameFreedWorks(mm.View(), Root(), AddressAt(start, j));
        MappedAddressHoldsNoTable(mm.View(), Root(), AddressAt(start, j));
        var prev := mm.GetPhysicalAddress(pageDir, AddressAt(start, j));
        if prev != 0 {
          mm.FreePage(prev);
        }
      }
    }

    method SysMmap(addr: Word, length: Word, write: bool, exec: bool, priv: bool) returns (r: Word)
      requires Valid()
      modifies this, mm, mm.frames.bitmap, mm.ram
      ensures length == 0 ==> r == FAILED && mm.View() == old(mm.View()) && heapBrk == old(heapBrk)
      ensures length != 0 ==>
        var start := if addr == 0 then old(heapBrk) else addr;
        var n, flags := PageCount(length), MmapFlags(write, exec, priv);
        && mm.View() == Mmapped(old(mm.View()), Root(), start, n, flags)
        && r == (if MapPages(old(mm.View()), Root(), start, n, flags).1 == n then start else FAILED)
        && heapBrk == (if addr != 0 then old(heapBrk) else Advanced(old(heapBrk), length))
        && (Valid() <==> !StrandsPages(old(mm.View()), Root(), start, n))
      ensures length != 0 ==>
        var start := if addr == 0 then old(heapBrk) else addr;
        MmapAnswers(old(mm.View()), mm.View(), Root(), start, length, write, exec, priv, r)
      ensures mm.Valid() && mm.IsPageDir(pageDir)
      ensures heapStart == old(heapStart) && heapEnd == old(heapEnd)
    {
      hide Sound, Owned, FrameOf, MapPages, Need, Free, HasRoot, StrandsPages, Advanced, PageCount, MmapFlags, Mmapped;
      hide MmapAnswers;
      if length == 0 {
        return FAILED;
      }
      var start := addr;
      if addr == 0 {
        start := heapBrk;
        heapBrk := Advanced(heapBrk, length);
      }
      var pages, flags := PageCount(length), MmapFlags(write, exec, priv);
      PageDirStays(mm.View(), pageDir);
      MmapKeepsOwnershipIff(mm.View(), Root(), start, pages, flags);
      MmapOfBytes(mm.View(), Root(), start, length, write, exec, priv);
      var ok := MapRange(start, pages, flags);
      r := if ok then start else FAILED;
    }

    /** The page loop of sys_mmap. */
    method MapRange(start: Word, pages: nat, flags: nat) returns (ok: bool)
      requires Valid() && flags < 0x1000 && flags % 2 == 1
      modifies mm, mm.frames.bitmap, mm.ram
      ensures mm.Valid() && mm.IsPageDir(pageDir)
      ensures mm.View() == Mmapped(old(mm.View()), Root(), start, pages, flags)
      ensures ok <==> MapPages(old(mm.View()), Root(), start, pages, flags).1 == pages
    {
      hide Sound, Owned, FrameOf, MapPages, HasRoot;
      ghost var before := mm.View();
      PageDirStays(before, pageDir);
      OwnedIsSound(before);
      NothingMappedYet(before, Root(), start, flags);
      for i := 0 to pages
        invariant mm.Valid() && mm.IsPageDir(pageDir)
        invariant (mm.View(), i) == MapPages(before, Root(), start, i, flags)
      {
        ok := MapOne(start, i, flags, before);
        if !ok {
          StoppedStays(before, Root(), start, i + 1, pages, flags);
          MapPagesOwned(before, Root(), start, pages, flags);
          OwnedParts(mm.View());
          FreeDone(start, i);
          return;
        }
      }
      return true;
    }

    method SysMunmap(addr: Word, length: Word) returns (r: int)
      requires Valid()
      modifies mm.frames.bitmap, mm.ram
      ensures Valid()
      ensures r == if addr == 0 || length == 0 then -1 else 0
      ensures mm.View() == if r != 0 then old(mm.View())
                           else UnmapPages(old(mm.View()), Root(), addr, PageCount(length))
      ensures r == 0 ==> ReachCleared(old(mm.View()), mm.View(), Root(), addr, Reach(length))
    {
      if addr == 0 || length == 0 {
        return -1;
      }
      var pages := PageCount(length);
      ghost var before := mm.View();
      for i := 0 to pages
        invariant Valid()
        invariant mm.View() == UnmapPages(before, Root(), addr, i)
      {
        UnmapOne(AddressAt(addr, i));
      }
      MunmapClears(before, Root(), addr, length);
      return 0;
    }

    /** The body of sys_munmap's loop and of sys_brk's rollback. */
    method UnmapOne(a: Word)
      requires Valid()
      modifies mm.frames.bitmap, mm.ram
      ensures Valid()
      ensures mm.View() == PageFreed(old(mm.View()), Root(), a)
    {
      hide Sound, Owned, FrameOf, Released, PageUnmapped, Vpn, WithOffset, Leaf, HoldsTable;
      ghost var before := mm.View();
      PageFreedWorks(before, Root(), a);
      OwnedParts(before);
      MappedAddressHoldsNoTable(before, Root(), a);
      var paddr := mm.GetPhysicalAddress(pageDir, a);
      if paddr != 0 {
        mm.FreePage(paddr);
        mm.UnmapPage(pageDir, a);
      }
    }

    /** The state after growing the heap by n pages, and whether it could be grown. */
    ghost function GrownBy(n: nat): (Vm, bool)
      requires Valid()
      reads this, mm, mm.frames.bitmap, mm.ram
    {
      HeapGrown(mm.View(), Root(), heapBrk, n)
    }

    method SysBrk(addr: Word) returns (r: Word)
      requires Valid()
      modifies this, mm.frames.bitmap, mm.ram, mm
      ensures Valid() && heapStart == old(heapStart) && heapEnd == old(heapEnd)
      ensures r == heapBrk
      ensures
        var grows := heapStart <= addr <= heapEnd + HEAP_LIMIT && addr > old(heapBrk);
        var n := if grows then PageCount(addr - old(heapBrk)) else 0;
        var (after, grown) := old(GrownBy(n));
        && mm.View() == after
        && heapBrk == (if addr != 0 && heapStart <= addr <= heapEnd + HEAP_LIMIT && grown then addr else old(heapBrk))
      ensures heapBrk > old(heapBrk) ==>
        var length := heapBrk - old(heapBrk);
        Sound(old(mm.View())) && Sound(mm.View())
        && (Covered(mm.View(), Root(), old(heapBrk), length)
            <==> CanCover(old(mm.View()), Root(), old(heapBrk), length))
    {
      hide Sound, Owned, FrameOf, MapPages, PageAt, AddressAt, HasRoot, Covered, CanCover;
      ghost var before := mm.View();
      PageDirStays(before, pageDir);
      OwnedIsSound(before);
      NothingMappedYet(before, Root(), heapBrk, 3);
      if addr == 0 {
        return heapBrk;
      }
      var newBrk := addr;
      if newBrk >= heapStart {
        if newBrk <= heapEnd + HEAP_LIMIT {
          if newBrk > heapBrk {
            var oldBrk := heapBrk;
            var pagesNeeded := PageCount(newBrk - oldBrk);
            MapPagesOwned(before, Root(), oldBrk, pagesNeeded, 3);
            for i := 0 to pagesNeeded
              invariant mm.Valid() && mm.IsPageDir(pageDir) && heapStart == old(heapStart) && heapEnd == old(heapEnd)
              invariant heapBrk == oldBrk
              invariant (mm.View(), i) == MapPages(before, Root(), oldBrk, i, 3)
            {
              var ok := MapOne(oldBrk, i, 3, before);
              if !ok {
                StoppedStays(before, Root(), oldBrk, i + 1, pagesNeeded, 3);
                RollBack(oldBrk, i);
                return heapBrk;
              }
            }
            CoveredAfterIff(before, Root(), oldBrk, newBrk - oldBrk, 3);
            OwnedIsSound(mm.View());
          }
          heapBrk := newBrk;
          return addr;
        }
      }
      return heapBrk;
    }

    /** The rollback of sys_brk: unmaps the pages from the old break up to the one that failed. */
    method RollBack(oldBrk: Word, n: nat)
      requires Valid() && oldBrk + n * PAGE_SIZE < TWO32
      modifies mm.frames.bitmap, mm.ram
      ensures Valid()
      ensures mm.View() == UnmapPages(old(mm.View()), Root(), oldBrk, n)
    {
      hide Sound, Owned, FrameOf, PageFreed, AddressAt, HasRoot;
      ghost var before := mm.View();
      var rollbackBrk := oldBrk + n * PAGE_SIZE;
      var rollbackAddr := oldBrk;
      ghost var i := 0;
      while rollbackAddr < rollbackBrk
        invariant Valid() && i <= n && rollbackAddr == oldBrk + i * PAGE_SIZE
        invariant mm.View() == UnmapPages(before, Root(), oldBrk, i)
      {
        LowAddress(oldBrk, i);
        UnmapOne(rollbackAddr);
        rollbackAddr := rollbackAddr + PAGE_SIZE;
        i := i + 1;
      }
    }
  }

  /**
    What sys_mmap does to the bytes asked for and answers. At an aligned address with frames enough it grants
    them all; and wherever it reports success they are all mapped if and only if that could be known before.
   */
  ghost predicate MmapAnswers(vm: Vm, m: Vm, root: nat, start: Word, length: Word, write: bool, exec: bool, priv: bool,
                              r: Word)
  {
    && Sound(vm)
    && (start % PAGE_SIZE == 0 && Need(vm, root, start, Ceiling(length)) <= |Free(vm)| ==>
          r == start && BytesGranted(vm, m, root, start, length, write, exec, priv))
    && (r != FAILED ==> Sound(m) && (Covered(m, root, start, length) <==> CanCover(vm, root, start, length)))
  }

  lemma MmapOfBytes(vm: Vm, root: nat, start: Word, length: Word, write: bool, exec: bool, priv: bool)
    requires Mappable(vm, root, MmapFlags(write, exec, priv)) && Owned(vm) && 0 < length
    ensures var n, flags := PageCount(length), MmapFlags(write, exec, priv);
            MmapAnswers(vm, Mmapped(vm, root, start, n, flags), root, start, length, write, exec, priv,
                        if MapPages(vm, root, start, n, flags).1 == n then start else FAILED)
  {
    hide Sound, Owned, HasRoot, Need, Free, MapPages, PageCount, BytesGranted, Covered, CanCover, MmapFlags;
    hide FramesFreed;
    var n, flags := PageCount(length), MmapFlags(write, exec, priv);
    if start % PAGE_SIZE == 0 && Need(vm, root, start, Ceiling(length)) <= |Free(vm)| {
      MmapGrantsBytes(vm, root, start, length, write, exec, priv);
    }
    if MapPages(vm, root, start, n, flags).1 == n {
      CoveredAfterIff(vm, root, start, length, flags);
    }
  }

  lemma LowAddress(start: Word, i: nat)
    requires start + i * PAGE_SIZE < TWO32
    ensures AddressAt(start, i) == start + i * PAGE_SIZE
  {
  }

  lemma NothingMappedYet(vm: Vm, root: nat, start: Word, flags: nat)
    requires Mappable(vm, root, flags)
    ensures MapPages(vm, root, start, 0, flags) == (vm, 0)
  {
  }

  /** Once get_free_page has failed the remaining iterations would change nothing. */
  lemma {:induction false} StoppedStays(vm: Vm, root: nat, start: Word, i: nat, n: nat, flags: nat)
    requires Mappable(vm, root, flags) && i <= n && MapPages(vm, root, start, i, flags).1 < i
    ensures MapPages(vm, root, start, n, flags) == MapPages(vm, root, start, i, flags)
  {
    hide Sound, HasRoot, FreshMapped, AllocPage;
    if i < n {
      StoppedStays(vm, root, start, i, n - 1, flags);
    }
  }

  lemma MappedAddressHoldsNoTable(vm: Vm, root: nat, a: Word)
    requires Sound(vm) && TablesUnmapped(vm)
    ensures var pa := PhysicalAddress(Leaf(vm, root, Vpn(a)), a); pa != 0 ==> !HoldsTable(vm.tables, FrameOf(pa))
  {
    hide Sound, HoldsTable, Vpn;
    var leaf := Leaf(vm, root, Vpn(a));
    if leaf.Some? {
      OffsetKeepsFrame(leaf.value, a);
      assert MappedTo(vm, root, Vpn(a), FrameOf(leaf.value));
    }
  }

  lemma PageDirStays(vm: Vm, pageDir: Word)
    ensures HasRoot(vm, FrameOf(pageDir)) <==> RootSlot(FrameOf(pageDir)) in vm.tables
  {
  }
}
