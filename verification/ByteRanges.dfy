/**
  sys_mmap, sys_munmap and sys_brk in terms of the bytes asked for: which addresses have a translation
  afterwards, for every length, also those whose page count is cut to 32 bits.
 */
module ByteRanges {
  import opened CTypes
  import opened FrameAllocation
  import opened PageTables
  import opened VirtualMemory
  import opened AddressSpaces
  import opened PageLoops
  import opened MemoryCalls

  /** The pages a length takes, rounded up; the count is cut to 32 bits. */
  function PageCount(length: Word): nat {
    Wrap32(Wrap64(length + PAGE_SIZE - 1) / PAGE_SIZE)
  }

  /** The break moved on by a length rounded up to whole pages. */
  function Advanced(brk: Word, length: Word): Word {
    Wrap64(brk + Wrap64(length + PAGE_SIZE - 1) / PAGE_SIZE * PAGE_SIZE)
  }

  /** The flag bits of sys_mmap: Present, and one bit for each request. */
  function MmapFlags(write: bool, exec: bool, priv: bool): (flags: nat)
    ensures flags < 0x1000 && flags % 2 == 1
  {
    1 + (if write then 2 else 0) + (if exec then 4 else 0) + (if priv then 16 else 0)
  }

  // ---------------------------------------------------------------------------
  // Bytes and pages
  // ---------------------------------------------------------------------------

  /** The page of byte i of a range. */
  function ByteAt(start: Word, i: nat): (v: nat)
    ensures v < PAGES
  {
    Vpn(Wrap64(start + i))
  }

  /** Some byte of the range lies in page v. */
  ghost predicate Meets(start: Word, length: nat, v: nat) {
    exists i: nat :: i < length && ByteAt(start, i) == v
  }

  /** How many pages behind that of `start` page v lies, going round the end of the address space. */
  function Behind(start: Word, v: nat): (d: nat)
    ensures d < PAGES
  {
    (v - start / PAGE_SIZE) % PAGES
  }

  /** The number of whole pages that hold so many bytes. */
  function Ceiling(length: nat): nat {
    if length == 0 then 0 else (length - 1) / PAGE_SIZE + 1
  }

  lemma PageShift(x: int, y: int)
    ensures (x % PAGES - y) % PAGES == (x - y) % PAGES
    ensures (x % PAGES + y) % PAGES == (x + y) % PAGES
  {
    var q := x / PAGES;
    assert x == q * PAGES + x % PAGES;
    Multiples(x % PAGES - y, q);
    Multiples(x % PAGES + y, q);
  }

  lemma Multiples(x: int, q: int)
    ensures (x + q * PAGES) % PAGES == x % PAGES
  {
    assert x == x / PAGES * PAGES + x % PAGES;
    assert x + q * PAGES == (x / PAGES + q) * PAGES + x % PAGES;
  }

  lemma BehindOfPage(start: Word, j: nat)
    ensures Behind(start, (start / PAGE_SIZE + j) % PAGES) == j % PAGES
  {
    PageShift(start / PAGE_SIZE + j, start / PAGE_SIZE);
  }

  lemma PageOfBehind(start: Word, v: nat)
    requires v < PAGES
    ensures (start / PAGE_SIZE + Behind(start, v)) % PAGES == v
  {
    PageShift(v - start / PAGE_SIZE, start / PAGE_SIZE);
  }

  lemma PageOfByte(start: Word, i: nat)
    requires i < TWO64
    ensures ByteAt(start, i) == (start / PAGE_SIZE + (start % PAGE_SIZE + i) / PAGE_SIZE) % PAGES
  {
    var x := start + i;
    assert x / PAGE_SIZE == start / PAGE_SIZE + (start % PAGE_SIZE + i) / PAGE_SIZE;
    if x >= TWO64 {
      assert Wrap64(x) == x - TWO64;
      assert (x - TWO64) / PAGE_SIZE == x / PAGE_SIZE - 0x1_0000 * PAGES;
      Multiples(x / PAGE_SIZE - 0x1_0000 * PAGES, 0x1_0000);
    }
  }

  lemma MetIsNear(start: Word, i: nat)
    requires i < TWO64
    ensures Behind(start, ByteAt(start, i)) * PAGE_SIZE <= start % PAGE_SIZE + i
  {
    hide ByteAt, Behind;
    PageOfByte(start, i);
    var j := (start % PAGE_SIZE + i) / PAGE_SIZE;
    BehindOfPage(start, j);
    assert j % PAGES <= j;
  }

  /** The first byte of the range in the page d pages behind the first. */
  function FirstByte(start: Word, d: nat): nat {
    if d == 0 then 0 else d * PAGE_SIZE - start % PAGE_SIZE
  }

  lemma NearIsMet(start: Word, v: nat)
    requires v < PAGES
    ensures ByteAt(start, FirstByte(start, Behind(start, v))) == v
  {
    hide ByteAt, Behind;
    var d := Behind(start, v);
    assert (start % PAGE_SIZE + FirstByte(start, d)) / PAGE_SIZE == d;
    PageOfByte(start, FirstByte(start, d));
    PageOfBehind(start, v);
  }

  /** A range meets a page if and only if its bytes reach so far behind the first page. */
  lemma MeetsIff(start: Word, length: nat, v: nat)
    requires 0 < length <= TWO64 && v < PAGES
    ensures Meets(start, length, v) <==> Behind(start, v) * PAGE_SIZE < start % PAGE_SIZE + length
  {
    hide ByteAt, Behind;
    if Meets(start, length, v) {
      var i: nat :| i < length && ByteAt(start, i) == v;
      MetIsNear(start, i);
    }
    if Behind(start, v) * PAGE_SIZE < start % PAGE_SIZE + length {
      NearIsMet(start, v);
      assert FirstByte(start, Behind(start, v)) < length;
    }
  }

  lemma AddressesRepeat(start: Word, i: nat)
    ensures AddressAt(start, i) == AddressAt(start, i % 0x10_0000)
  {
    var q := i / 0x10_0000;
    assert i * PAGE_SIZE == q * TWO32 + i % 0x10_0000 * PAGE_SIZE;
    assert Wrap32(i * PAGE_SIZE) == i % 0x10_0000 * PAGE_SIZE;
  }

  /** The pages of a loop are those up to its count behind the first, but never more than 2^20. */
  lemma {:induction false} PagesIff(start: Word, n: nat, v: nat)
    requires v < PAGES
    ensures v in Pages(start, n) <==> Behind(start, v) < n && Behind(start, v) < 0x10_0000
  {
    hide PageAt, Behind;
    if n > 0 {
      PagesIff(start, n - 1, v);
      PageBehind(start, n - 1);
      PageOfBehind(start, v);
      if n - 1 < 0x10_0000 {
        PageOfAddress(start, n - 1);
      }
    }
  }

  lemma PageBehind(start: Word, i: nat)
    ensures Behind(start, PageAt(start, i)) == i % 0x10_0000
  {
    hide Behind, Vpn, AddressAt;
    AddressesRepeat(start, i);
    PageOfAddress(start, i % 0x10_0000);
    BehindOfPage(start, i % 0x10_0000);
  }

  /** The count is that of the pages that hold the bytes if and only if there are less than 2^32 of them. */
  lemma PageCountIff(length: Word)
    requires length > 0
    ensures PageCount(length) == Ceiling(length) <==> length <= 0xFFF_FFFF_F000
    ensures PageCount(length) == if length > TWO64 - PAGE_SIZE then 0 else Ceiling(length) % TWO32
  {
    var x := length + PAGE_SIZE - 1;
    assert x / PAGE_SIZE == Ceiling(length);
    if x >= TWO64 {
      assert Wrap64(x) == x - TWO64 < PAGE_SIZE;
    }
  }

  /** An unwrapped break moves behind the bytes it was moved for, by whole pages and by less than a page too far. */
  lemma BreakIsBehind(brk: Word, length: Word)
    requires 0 < length && brk + length <= TWO64 - PAGE_SIZE
    ensures brk + length <= Advanced(brk, length) < brk + length + PAGE_SIZE
    ensures (Advanced(brk, length) - brk) % PAGE_SIZE == 0
  {
    var x := length + PAGE_SIZE - 1;
    assert x / PAGE_SIZE * PAGE_SIZE <= x < x / PAGE_SIZE * PAGE_SIZE + PAGE_SIZE;
    assert brk + x / PAGE_SIZE * PAGE_SIZE < TWO64;
  }

  // ---------------------------------------------------------------------------
  // Mapping
  // ---------------------------------------------------------------------------

  /** Every byte of the range has a translation. */
  ghost predicate Covered(vm: Vm, root: nat, start: Word, length: nat)
    requires Sound(vm)
  {
    forall i: nat :: i < length ==> Leaf(vm, root, ByteAt(start, i)).Some?
  }

  /** The page behind the last one of a count. */
  function PageAfter(start: Word, n: nat): (v: nat)
    ensures v < PAGES
  {
    (start / PAGE_SIZE + n) % PAGES
  }

  lemma CoveredByPages(vm: Vm, root: nat, start: Word, length: nat)
    requires Sound(vm) && 0 < length <= TWO64
    ensures Covered(vm, root, start, length) <==>
            forall v: nat :: v < PAGES && Behind(start, v) * PAGE_SIZE < start % PAGE_SIZE + length ==>
              Leaf(vm, root, v).Some?
  {
    hide Sound, Leaf, ByteAt, Behind;
    forall v: nat | v < PAGES
      ensures Meets(start, length, v) <==> Behind(start, v) * PAGE_SIZE < start % PAGE_SIZE + length
    {
      MeetsIff(start, length, v);
    }
    if Covered(vm, root, start, length) {
      forall v: nat | v < PAGES && Meets(start, length, v) ensures Leaf(vm, root, v).Some? {
        var i: nat :| i < length && ByteAt(start, i) == v;
      }
    }
    forall i: nat | i < length ensures Meets(start, length, ByteAt(start, i)) {}
  }

  /** No address space has more pages mapped than there are frames. */
  lemma {:induction false} MappedAreFew(vm: Vm, root: nat, pages: set<nat>) returns (frames: set<nat>)
    requires Owned(vm) && forall v: nat :: v in pages ==> Leaf(vm, root, v).Some?
    ensures |frames| == |pages| && frames <= vm.used && |pages| <= |vm.used|
    ensures forall f :: f in frames ==> MappedWithin(vm, root, pages, f)
    decreases pages
  {
    hide Sound, HoldsTable;
    if pages == {} {
      frames := {};
    } else {
      var v: nat :| v in pages;
      var rest := MappedAreFew(vm, root, pages - {v});
      var f := FrameOf(Leaf(vm, root, v).value);
      assert MappedTo(vm, root, v, f);
      frames := rest + {f};
      OwnFrame(vm, root, pages, v, f);
      forall g | g in frames ensures MappedWithin(vm, root, pages, g) {
        if g in rest {
          var w: nat :| w in pages - {v} && MappedTo(vm, root, w, g);
          assert w in pages;
        }
      }
    }
    Subsets(frames, vm.used);
  }

  lemma OwnFrame(vm: Vm, root: nat, pages: set<nat>, v: nat, f: nat)
    requires Owned(vm) && v in pages && MappedTo(vm, root, v, f)
    ensures f in vm.used && !MappedWithin(vm, root, pages - {v}, f)
  {
    hide Sound, HoldsTable;
  }

  lemma Subsets<T>(a: set<T>, b: set<T>)
    ensures a <= b ==> |a| <= |b|
  {
    if a <= b {
      assert b == a + (b - a);
    }
  }

  lemma UsedAreFew(vm: Vm)
    requires Sound(vm)
    ensures |vm.used| <= FRAMES
  {
    CountFramesBelow(FRAMES);
    assert vm.used <= FramesBelow(FRAMES);
    Subsets(vm.used, FramesBelow(FRAMES));
  }

  lemma {:induction false} PagesCounted(start: Word, n: nat)
    requires n <= 0x10_0000
    ensures |Pages(start, n)| == n
  {
    if n > 0 {
      PagesCounted(start, n - 1);
      PageIsNew(start, n - 1, n - 1);
    }
  }

  /** So no range of more than 2^15 pages can be covered. */
  lemma CoveredIsShort(vm: Vm, root: nat, start: Word, length: nat)
    requires Owned(vm) && length > FRAMES * PAGE_SIZE && length <= TWO64
    ensures (OwnedIsSound(vm); !Covered(vm, root, start, length))
  {
    hide Sound, Owned, Leaf, ByteAt, Behind, MappedWithin;
    OwnedIsSound(vm);
    if Covered(vm, root, start, length) {
      CoveredByPages(vm, root, start, length);
      var pages := Pages(start, FRAMES + 1);
      PagesAreReal(start, FRAMES + 1);
      forall v: nat | v in pages ensures Leaf(vm, root, v).Some? {
        PagesIff(start, FRAMES + 1, v);
      }
      var frames := MappedAreFew(vm, root, pages);
      UsedAreFew(vm);
      PagesCounted(start, FRAMES + 1);
    }
  }

  lemma {:induction false} PagesAreReal(start: Word, n: nat)
    ensures forall v: nat :: v in Pages(start, n) ==> v < PAGES
  {
    hide PageAt;
    if n > 0 {
      PagesAreReal(start, n - 1);
    }
  }

  /** The loop that succeeds counts fewer pages than there are frames, and one more. */
  lemma SuccessIsShort(vm: Vm, root: nat, start: Word, n: nat, flags: nat)
    requires Mappable(vm, root, flags) && Owned(vm) && MapPages(vm, root, start, n, flags).1 == n
    ensures n <= FRAMES
  {
    hide Sound, Owned, HasRoot, Need, Free, MapPages;
    MapPagesStops(vm, root, start, n, flags);
    FewFreeFrames(vm);
    if n > 0 {
      NeedAtLeast(vm, root, start, n - 1);
    }
  }

  /** Once its n pages are mapped a range is covered, up to the page behind them. */
  lemma PagesCover(vm: Vm, m: Vm, root: nat, start: Word, length: nat, n: nat)
    requires RangeMapped(vm, m, root, Pages(start, n)) && n <= FRAMES
    requires n == Ceiling(length) && 0 < length <= TWO64
    ensures Sound(vm) && Sound(m)
    ensures Covered(m, root, start, length) <==>
            start % PAGE_SIZE + length <= n * PAGE_SIZE || Leaf(vm, root, PageAfter(start, n)).Some?
  {
    hide Sound, Leaf, ByteAt, Behind, RangeMapped, Covered, PageAfter;
    RangeParts(vm, m, root, Pages(start, n));
    CoveredByPages(m, root, start, length);
    NextPage(vm, m, root, start, n);
    assert n * PAGE_SIZE < length + PAGE_SIZE;
    forall v: nat | v < PAGES && Behind(start, v) < n ensures Leaf(m, root, v).Some? {
      PageIsMapped(vm, m, root, start, n, v);
    }
    forall v: nat | v < PAGES && Behind(start, v) == n ensures v == PageAfter(start, n) {
      PageAfterIff(start, n, v);
    }
  }

  lemma PageAfterIff(start: Word, n: nat, v: nat)
    requires n < PAGES && v < PAGES
    ensures Behind(start, v) == n <==> v == PageAfter(start, n)
  {
    hide Behind;
    BehindOfPage(start, n);
    PageOfBehind(start, v);
  }

  lemma NextPage(vm: Vm, m: Vm, root: nat, start: Word, n: nat)
    requires RangeMapped(vm, m, root, Pages(start, n)) && n <= FRAMES
    ensures Behind(start, PageAfter(start, n)) == n && Sound(vm) && Sound(m)
    ensures Leaf(m, root, PageAfter(start, n)) == Leaf(vm, root, PageAfter(start, n))
  {
    hide Sound, Leaf, Behind, PageAfter, RangeMapped;
    RangeParts(vm, m, root, Pages(start, n));
    PageAfterIff(start, n, PageAfter(start, n));
    PagesIff(start, n, PageAfter(start, n));
  }

  lemma PageIsMapped(vm: Vm, m: Vm, root: nat, start: Word, n: nat, v: nat)
    requires RangeMapped(vm, m, root, Pages(start, n)) && n <= FRAMES && v < PAGES && Behind(start, v) < n
    ensures Sound(m) && Leaf(m, root, v).Some?
  {
    hide Sound, Leaf, Behind, RangeMapped;
    RangeParts(vm, m, root, Pages(start, n));
    RangeIsMapped(vm, m, root, Pages(start, n));
    PagesIff(start, n, v);
  }

  /**
    The free frames cover the pages that hold so many bytes, with their tables, and the bytes lie within as many
    pages from that of `start` on (as from a page-aligned address), or the page behind these is mapped.
   */
  ghost predicate CanCover(vm: Vm, root: nat, start: Word, length: nat)
    requires Sound(vm)
  {
    var n := Ceiling(length);
    && Need(vm, root, start, n) <= |Free(vm)|
    && (start % PAGE_SIZE + length <= n * PAGE_SIZE || Leaf(vm, root, PageAfter(start, n)).Some?)
  }

  /**
    A call of sys_mmap, or a heap growth, that reports success has given every byte asked for a translation if
    and only if that condition held before it. A count cut to 32 bits or wrapped in 64 never gets so far.
   */
  lemma CoveredAfterIff(vm: Vm, root: nat, start: Word, length: Word, flags: nat)
    requires Mappable(vm, root, flags) && Owned(vm) && length > 0
    requires MapPages(vm, root, start, PageCount(length), flags).1 == PageCount(length)
    ensures Covered(MapPages(vm, root, start, PageCount(length), flags).0, root, start, length)
            <==> CanCover(vm, root, start, length)
  {
    hide Sound, Owned, HasRoot, Need, Free, MapPages, RangeMapped, Covered, Leaf, PageCount, Behind, PageAfter;
    var m, n := MapPages(vm, root, start, PageCount(length), flags).0, Ceiling(length);
    MapPagesOwned(vm, root, start, PageCount(length), flags);
    NeedAtLeast(vm, root, start, n);
    FewFreeFrames(vm);
    PageCountIff(length);
    if n > FRAMES {
      CoveredIsShort(m, root, start, length);
    } else if Need(vm, root, start, n) <= |Free(vm)| {
      MapPagesMapsRange(vm, root, start, n, flags);
      PagesCover(vm, m, root, start, length, n);
    } else {
      LastPageMissing(vm, root, start, n, flags);
      LastPageIsMet(m, root, start, length);
    }
  }

  lemma LastPageIsMet(m: Vm, root: nat, start: Word, length: Word)
    requires Sound(m) && length > 0 && Ceiling(length) <= FRAMES
    requires Leaf(m, root, PageAt(start, Ceiling(length) - 1)) == None
    ensures !Covered(m, root, start, length)
  {
    hide Sound, Leaf, Behind, PageAt, Covered;
    CoveredByPages(m, root, start, length);
    PageBehind(start, Ceiling(length) - 1);
  }

  /**
    For an aligned address and frames enough for the pages counted: every byte gets its translation if and
    only if the length is at most 2^44 - 4096. Longer ones report success all the same.
   */
  lemma LengthIsCutIff(vm: Vm, root: nat, start: Word, length: Word, flags: nat)
    requires Mappable(vm, root, flags) && Owned(vm) && length > 0 && start % PAGE_SIZE == 0
    requires Need(vm, root, start, PageCount(length)) <= |Free(vm)|
    ensures MapPages(vm, root, start, PageCount(length), flags).1 == PageCount(length)
    ensures Covered(MapPages(vm, root, start, PageCount(length), flags).0, root, start, length)
            <==> length <= 0xFFF_FFFF_F000
  {
    hide Sound, Owned, HasRoot, Need, Free, MapPages, Covered, Leaf, PageCount, PageAfter;
    EnoughFramesSuffice(vm, root, start, PageCount(length), flags);
    CoveredAfterIff(vm, root, start, length, flags);
    PageCountIff(length);
    NeedAtLeast(vm, root, start, Ceiling(length));
    FewFreeFrames(vm);
  }

  lemma EnoughFramesSuffice(vm: Vm, root: nat, start: Word, n: nat, flags: nat)
    requires Mappable(vm, root, flags) && Owned(vm) && Need(vm, root, start, n) <= |Free(vm)|
    ensures MapPages(vm, root, start, n, flags).1 == n
  {
    hide Sound, Owned, HasRoot, Need, Free, MapPages;
    MapPagesStops(vm, root, start, n, flags);
    if n > 0 {
      NeedGrows(vm, root, start, n);
    }
  }

  /** A request of 2^44 bytes, or of nearly 2^64, succeeds on every machine and maps nothing. */
  lemma HugeRequestIsReal(vm: Vm, root: nat, start: Word, length: Word, flags: nat)
    requires Mappable(vm, root, flags) && Owned(vm)
    requires length == 0x1000_0000_0000 || length > TWO64 - PAGE_SIZE
    ensures MapPages(vm, root, start, PageCount(length), flags) == (vm, PageCount(length))
    ensures !Covered(vm, root, start, length)
  {
    hide Covered, Sound, Owned, HasRoot, MapPages, PageCount;
    PageCountIff(length);
    assert PageCount(length) == 0;
    NothingMapped(vm, root, start, flags);
    CoveredIsShort(vm, root, start, length);
  }

  /** 4096 bytes from the middle of a page on a machine with four frames left: success, and the last bytes unmapped. */
  lemma UnalignedEndIsReal(ram: seq<Word>)
    requires |ram| == RAM_WORDS
    ensures var vm := NearlyFull(ram, 4);
            && Mappable(vm, KERNEL_FRAMES, 1) && Owned(vm)
            && MapPages(vm, KERNEL_FRAMES, 0x20_0800, PageCount(4096), 1).1 == PageCount(4096)
            && !Covered(MapPages(vm, KERNEL_FRAMES, 0x20_0800, PageCount(4096), 1).0, KERNEL_FRAMES, 0x20_0800, 4096)
  {
    hide Sound, Owned, HasRoot, Need, Free, MapPages, Covered, Leaf, NearlyFull, PageAfter, PageCount;
    var vm := NearlyFull(ram, 4);
    NearlyFullCosts(ram, 4);
    NearlyFullIsOwned(ram, 4);
    PageCountIff(4096);
    NoPagesNeedNothing(vm, KERNEL_FRAMES, 0x20_0800);
    MapPagesStops(vm, KERNEL_FRAMES, 0x20_0800, 1, 1);
    NoTableNoLeaf(vm, KERNEL_FRAMES, PageAfter(0x20_0800, 1));
    CoveredAfterIff(vm, KERNEL_FRAMES, 0x20_0800, 4096, 1);
  }

  lemma NothingMapped(vm: Vm, root: nat, start: Word, flags: nat)
    requires Mappable(vm, root, flags)
    ensures MapPages(vm, root, start, 0, flags) == (vm, 0)
  {
  }

  /** What a call that maps `length` bytes with frames enough has done: the entries carry exactly these flags. */
  ghost predicate BytesMapped(vm: Vm, m: Vm, root: nat, start: Word, length: nat, flags: nat)
    requires Sound(vm) && Sound(m)
  {
    && (forall i: nat :: i < length ==>
          && Leaf(m, root, ByteAt(start, i)).Some? && Leaf(m, root, ByteAt(start, i)).value % 0x1000 == flags
          && FrameOf(Leaf(m, root, ByteAt(start, i)).value) in Free(vm))
    && (forall r: nat, v: nat :: r != root || !Meets(start, length, v) ==> Leaf(m, r, v) == Leaf(vm, r, v))
  }

  /** The entries of the pages mapped. */
  ghost predicate Flagged(m: Vm, root: nat, pages: set<nat>, flags: nat)
    requires Sound(m)
  {
    forall v: nat :: v in pages ==> Leaf(m, root, v).Some? && Leaf(m, root, v).value % 0x1000 == flags
  }

  lemma FreshEntry(m: Vm, root: nat, v: nat, flags: nat)
    requires Mappable(m, root, flags) && v < PAGES && AllocPage(m) != 0 && |Missing(m, root, v)| < |Free(m)|
    ensures var m' := FreshMapped(m, root, v, flags);
            && Sound(m') && Flagged(m', root, {v}, flags) && SameLeavesExcept(m, m', root, {v})
  {
    hide PathSlots, Owned, SameLeaves, SameLeavesExcept, Grown, Sound, LeafEntry, FrameOf, Missing, AllocPage;
    hide PageMapped;
    hide Flagged, HasRoot, MappedOrFull;
    var f := FrameOf(AllocPage(m));
    FreshMappedWorks(m, root, v, flags);
    IterationMaps(m, root, v, flags);
    FreshFrame(m);
    MissingSame(m, f, root, v);
    FreshRoot(m, root, f);
    EntryFlags(AllocPage(m), flags);
    EntryWritten(WithFrame(m, f), root, v, LeafEntry(AllocPage(m), flags));
    OneFlagged(FreshMapped(m, root, v, flags), root, v, flags);
  }

  lemma FreshRoot(m: Vm, root: nat, f: nat)
    requires HasRoot(m, root)
    ensures HasRoot(WithFrame(m, f), root)
  {
  }

  lemma EntryWritten(a: Vm, root: nat, v: nat, e: Word)
    requires Sound(a) && HasRoot(a, root) && v < PAGES && Present(e) && |Missing(a, root, v)| <= |Free(a)|
    ensures Sound(PageMapped(a, root, v, e)) && Leaf(PageMapped(a, root, v, e), root, v) == Some(e)
  {
    hide Sound, PageMapped, Missing, Grown, HasRoot, PathSlots;
    MapPageIsMapUpdate(a, root, v, e);
  }

  lemma OneFlagged(m: Vm, root: nat, v: nat, flags: nat)
    requires Sound(m) && Leaf(m, root, v).Some? && Leaf(m, root, v).value % 0x1000 == flags
    ensures Flagged(m, root, {v}, flags)
  {
  }

  lemma EntryFlags(page: Word, flags: nat)
    requires page % PAGE_SIZE == 0 && flags < 0x1000
    ensures LeafEntry(page, flags) % 0x1000 == flags
    ensures flags % 2 == 1 ==> Present(LeafEntry(page, flags))
  {
  }

  lemma FlaggedOneMore(m: Vm, m': Vm, root: nat, pages: set<nat>, v: nat, flags: nat)
    requires Sound(m) && Sound(m') && v !in pages && Flagged(m, root, pages, flags)
    requires Flagged(m', root, {v}, flags) && SameLeavesExcept(m, m', root, {v})
    ensures Flagged(m', root, pages + {v}, flags)
  {
    hide Sound, Leaf;
    forall w: nat | w in pages + {v}
      ensures Leaf(m', root, w).Some? && Leaf(m', root, w).value % 0x1000 == flags
    {
      if w != v {
        assert Leaf(m', root, w) == Leaf(m, root, w);
      } else {
        assert w in {v};
      }
    }
  }

  lemma {:induction false} MapPagesFlag(vm: Vm, root: nat, start: Word, n: nat, flags: nat)
    requires Mappable(vm, root, flags) && Owned(vm) && Need(vm, root, start, n) <= |Free(vm)|
    ensures Flagged(MapPages(vm, root, start, n, flags).0, root, Pages(start, n), flags)
  {
    hide Sound, Owned, Free, HasRoot, PathSlots, PageAt, AllocPage, FreshMapped, Need, Missing, LoopState, Flagged;
    hide RangeMapped;
    if n == 0 {
      NothingFlagged(MapPages(vm, root, start, n, flags).0, root, flags);
    } else {
      NeedGrows(vm, root, start, n);
      MapPagesFlag(vm, root, start, n - 1, flags);
      MapPagesOutcome(vm, root, start, n - 1, flags);
      MapPagesMapsRange(vm, root, start, n - 1, flags);
      var (m, k) := MapPages(vm, root, start, n - 1, flags);
      LoopStateFits(vm, m, k, root, start, n);
      RangeIterates(vm, m, k, root, start, n, flags);
      FreshEntry(m, root, PageAt(start, n - 1), flags);
      PageIsNew(start, n - 1, n - 1);
      FlaggedOneMore(m, FreshMapped(m, root, PageAt(start, n - 1), flags), root, Pages(start, n - 1),
        PageAt(start, n - 1), flags);
    }
  }

  lemma NothingFlagged(m: Vm, root: nat, flags: nat)
    requires Sound(m)
    ensures Flagged(m, root, {}, flags)
  {
  }

  lemma ByteIsMapped(vm: Vm, m: Vm, root: nat, start: Word, length: Word, n: nat, flags: nat, i: nat)
    requires RangeMapped(vm, m, root, Pages(start, n)) && Sound(m) && Flagged(m, root, Pages(start, n), flags)
    requires 0 < length && n == Ceiling(length) <= FRAMES && i < length
    requires start % PAGE_SIZE + length <= n * PAGE_SIZE
    ensures Leaf(m, root, ByteAt(start, i)).Some? && Leaf(m, root, ByteAt(start, i)).value % 0x1000 == flags
    ensures FrameOf(Leaf(m, root, ByteAt(start, i)).value) in Free(vm)
  {
    hide Sound, Leaf, ByteAt, Behind, Free, FrameOf, HoldsTable, MappedWithin;
    var v := ByteAt(start, i);
    MetIsNear(start, i);
    PagesIff(start, n, v);
    var f :| f in Free(vm) && MappedTo(m, root, v, f);
  }

  lemma PageIsMet(start: Word, length: Word, n: nat, v: nat)
    requires 0 < length && n == Ceiling(length) && v in Pages(start, n)
    ensures Meets(start, length, v)
  {
    hide Behind, Meets;
    PagesAreReal(start, n);
    PagesIff(start, n, v);
    MeetsIff(start, length, v);
  }

  /**
    A sys_mmap of any nonzero length at a page-aligned address, with frames for the pages that hold so many
    bytes and for their tables, succeeds. Every byte then has a translation to a frame that was free,
    with the flags given, and every page without a byte of the range has the one it had.
   */
  lemma MmapMapsBytes(vm: Vm, root: nat, start: Word, length: Word, flags: nat)
    requires Mappable(vm, root, flags) && Owned(vm) && 0 < length
    requires start % PAGE_SIZE + length <= Ceiling(length) * PAGE_SIZE
    requires Need(vm, root, start, Ceiling(length)) <= |Free(vm)|
    ensures var n := PageCount(length);
            && MapPages(vm, root, start, n, flags).1 == n
            && Mmapped(vm, root, start, n, flags) == MapPages(vm, root, start, n, flags).0
            && Sound(vm) && Sound(Mmapped(vm, root, start, n, flags))
            && BytesMapped(vm, Mmapped(vm, root, start, n, flags), root, start, length, flags)
  {
    hide Sound, Owned, HasRoot, Need, Free, MapPages, RangeMapped, Leaf, PageCount, Flagged, Meets, ByteAt, FrameOf;
    var n := Ceiling(length);
    NeedAtLeast(vm, root, start, n);
    FewFreeFrames(vm);
    PageCountIff(length);
    EnoughFramesSuffice(vm, root, start, n, flags);
    MapPagesMapsRange(vm, root, start, n, flags);
    MapPagesFlag(vm, root, start, n, flags);
    var m := MapPages(vm, root, start, n, flags).0;
    RangeParts(vm, m, root, Pages(start, n));
    forall i: nat | i < length
      ensures Leaf(m, root, ByteAt(start, i)).Some? && Leaf(m, root, ByteAt(start, i)).value % 0x1000 == flags
      ensures FrameOf(Leaf(m, root, ByteAt(start, i)).value) in Free(vm)
    {
      ByteIsMapped(vm, m, root, start, length, n, flags, i);
    }
    forall r: nat, v: nat | r != root || !Meets(start, length, v) ensures Leaf(m, r, v) == Leaf(vm, r, v) {
      if v in Pages(start, n) {
        PageIsMet(start, length, n, v);
      }
    }
  }

  /** The entry is present, and its write, execute and private bits are as asked. */
  predicate Grants(e: Word, write: bool, exec: bool, priv: bool) {
    && e % 2 == 1 && (e / 2 % 2 == 1 <==> write) && (e / 4 % 2 == 1 <==> exec) && (e / 16 % 2 == 1 <==> priv)
    && e / 8 % 2 == 0 && e % 0x1000 / 32 == 0
  }

  lemma FlagsAsAsked(e: Word, write: bool, exec: bool, priv: bool)
    requires e % 0x1000 == MmapFlags(write, exec, priv)
    ensures Grants(e, write, exec, priv)
  {
    LowBits(e);
  }

  lemma LowBits(e: Word)
    ensures var f := e % 0x1000;
            e % 2 == f % 2 && e / 2 % 2 == f / 2 % 2 && e / 4 % 2 == f / 4 % 2 && e / 8 % 2 == f / 8 % 2
            && e / 16 % 2 == f / 16 % 2
  {
    var q, f := e / 0x1000, e % 0x1000;
    assert e == q * 0x1000 + f;
    LowBit(q * 0x800, f);
    LowBit(q * 0x400, f / 2);
    assert e / 2 == q * 0x800 + f / 2;
    LowBit(q * 0x200, f / 4);
    assert e / 4 == q * 0x400 + f / 4;
    LowBit(q * 0x100, f / 8);
    assert e / 8 == q * 0x200 + f / 8;
    LowBit(q * 0x80, f / 16);
    assert e / 16 == q * 0x100 + f / 16;
  }

  lemma LowBit(h: nat, f: nat)
    ensures (2 * h + f) % 2 == f % 2
  {
  }

  /** All the bytes are granted, from frames that were free, and pages without any of them are as before. */
  ghost predicate BytesGranted(vm: Vm, m: Vm, root: nat, start: Word, length: nat, write: bool, exec: bool,
                               priv: bool) {
    && Sound(vm) && Sound(m)
    && (forall i: nat :: i < length ==>
          && Leaf(m, root, ByteAt(start, i)).Some? && Grants(Leaf(m, root, ByteAt(start, i)).value, write, exec, priv)
          && FrameOf(Leaf(m, root, ByteAt(start, i)).value) in Free(vm))
    && (forall r: nat, v: nat :: r != root || !Meets(start, length, v) ==> Leaf(m, r, v) == Leaf(vm, r, v))
  }

  /** sys_mmap at a page-aligned address, with frames enough for the bytes and no word of how they are counted. */
  lemma MmapGrantsBytes(vm: Vm, root: nat, start: Word, length: Word, write: bool, exec: bool, priv: bool)
    requires Mappable(vm, root, MmapFlags(write, exec, priv)) && Owned(vm) && 0 < length && start % PAGE_SIZE == 0
    requires Need(vm, root, start, Ceiling(length)) <= |Free(vm)|
    ensures var flags := MmapFlags(write, exec, priv);
            && MapPages(vm, root, start, PageCount(length), flags).1 == PageCount(length)
            && BytesGranted(vm, Mmapped(vm, root, start, PageCount(length), flags), root, start, length, write, exec,
                priv)
  {
    hide Sound, Owned, HasRoot, Need, Free, MapPages, Mmapped, Leaf, PageCount, Meets, ByteAt, FrameOf, MmapFlags;
    hide Grants;
    var flags := MmapFlags(write, exec, priv);
    MmapMapsBytes(vm, root, start, length, flags);
    var m := Mmapped(vm, root, start, PageCount(length), flags);
    forall i: nat | i < length ensures Grants(Leaf(m, root, ByteAt(start, i)).value, write, exec, priv) {
      FlagsAsAsked(Leaf(m, root, ByteAt(start, i)).value, write, exec, priv);
    }
  }

  // ---------------------------------------------------------------------------
  // Unmapping
  // ---------------------------------------------------------------------------

  /** How many bytes sys_munmap really covers: whole pages, counted modulo 2^32, and never more than 4 GB. */
  function Reach(length: Word): nat {
    var counted := if length > TWO64 - PAGE_SIZE then 0 else Ceiling(length) % TWO32;
    if counted < 0x10_0000 then counted * PAGE_SIZE else TWO32
  }

  lemma ReachIsPages(start: Word, length: Word, v: nat)
    requires v < PAGES && length > 0
    ensures v in Pages(start, PageCount(length)) <==> Behind(start, v) * PAGE_SIZE < Reach(length)
  {
    hide Behind;
    PageCountIff(length);
    PagesIff(start, PageCount(length), v);
  }

  /** From vm to u exactly the translations of the pages that the bytes reach are gone. */
  ghost predicate ReachCleared(vm: Vm, u: Vm, root: nat, start: Word, reach: nat) {
    && Sound(vm) && Sound(u)
    && (forall v: nat :: v < PAGES ==>
          Leaf(u, root, v) == if Behind(start, v) * PAGE_SIZE < reach then None else Leaf(vm, root, v))
    && (forall r: nat, v: nat :: r != root ==> Leaf(u, r, v) == Leaf(vm, r, v))
  }

  /** sys_munmap changes exactly the translations of the pages within its reach of the first. */
  lemma MunmapClears(vm: Vm, root: nat, start: Word, length: Word)
    requires Owned(vm) && length > 0
    ensures ReachCleared(vm, UnmapPages(vm, root, start, PageCount(length)), root, start, Reach(length))
  {
    hide Owned, Sound, Behind, Reach, PageCount, UnmapPages, MappedWithin, Leaf, Pages;
    UnmapPagesClearsRange(vm, root, start, PageCount(length));
    var u := UnmapPages(vm, root, start, PageCount(length));
    OwnedIsSound(vm);
    OwnedIsSound(u);
    forall v: nat | v < PAGES
      ensures Leaf(u, root, v) == if Behind(start, v) * PAGE_SIZE < Reach(length) then None else Leaf(vm, root, v)
    {
      ReachIsPages(start, length, v);
    }
  }

  /** No byte of the range has a translation. */
  ghost predicate Cleared(vm: Vm, root: nat, start: Word, length: nat)
    requires Sound(vm)
  {
    forall i: nat :: i < length ==> Leaf(vm, root, ByteAt(start, i)) == None
  }

  lemma ClearedByPages(vm: Vm, root: nat, start: Word, length: nat)
    requires Sound(vm) && 0 < length <= TWO64
    ensures Cleared(vm, root, start, length) <==>
            forall v: nat :: v < PAGES && Behind(start, v) * PAGE_SIZE < start % PAGE_SIZE + length ==>
              Leaf(vm, root, v) == None
  {
    hide Sound, Leaf, ByteAt, Behind;
    forall v: nat | v < PAGES
      ensures Meets(start, length, v) <==> Behind(start, v) * PAGE_SIZE < start % PAGE_SIZE + length
    {
      MeetsIff(start, length, v);
    }
    if Cleared(vm, root, start, length) {
      forall v: nat | v < PAGES && Meets(start, length, v) ensures Leaf(vm, root, v) == None {
        var i: nat :| i < length && ByteAt(start, i) == v;
      }
    }
    forall i: nat | i < length ensures Meets(start, length, ByteAt(start, i)) {}
  }

  /**
    After sys_munmap no byte of its range has a translation if and only if no page of the range beyond
    its reach had one before. From an aligned address that reach is the whole range for lengths up to 4 GB.
   */
  lemma ClearedAfterIff(vm: Vm, root: nat, start: Word, length: Word)
    requires Owned(vm) && length > 0
    ensures var u := UnmapPages(vm, root, start, PageCount(length));
            && Sound(vm) && Sound(u)
            && (Cleared(u, root, start, length) <==>
                forall v: nat ::
                  v < PAGES && Reach(length) <= Behind(start, v) * PAGE_SIZE < start % PAGE_SIZE + length ==>
                    Leaf(vm, root, v) == None)
    ensures start % PAGE_SIZE == 0 && length <= TWO32 ==> length <= Reach(length) < length + PAGE_SIZE
  {
    var u := UnmapPages(vm, root, start, PageCount(length));
    MunmapClears(vm, root, start, length);
    hide Owned, Sound, Behind, Leaf, ByteAt, UnmapPages, PageCount, Reach, Cleared;
    if length <= TWO32 {
      ReachOfShort(length);
    }
    ClearedByPages(u, root, start, length);
  }

  lemma ReachOfShort(length: Word)
    requires 0 < length <= TWO32
    ensures length <= Reach(length) < length + PAGE_SIZE
  {
  }

  /** A request of 2^44 bytes, or of nearly 2^64, unmaps nothing. */
  lemma HugeUnmapIsReal(vm: Vm, root: nat, start: Word, length: Word)
    requires Owned(vm) && (length == 0x1000_0000_0000 || length > TWO64 - PAGE_SIZE)
    ensures UnmapPages(vm, root, start, PageCount(length)) == vm
  {
    hide Owned, PageCount;
    PageCountIff(length);
  }
}
