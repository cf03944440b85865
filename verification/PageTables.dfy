/**
  The 4-level page tables of mm.c as a structure in physical memory.

  Memory is a sequence of 64-bit words, 512 to a frame. A table is named by the address space
  it serves (the frame number of its root), its level (4 = PML4 .. 1 = PT) and the leading
  bits of the virtual pages it covers; `Tables` says in which frame each table lies.
 */
module PageTables {
  import opened CTypes
  import opened FrameAllocation

  const ENTRIES := 512
  const RAM_WORDS := FRAMES * ENTRIES
  const PAGES := ENTRIES * ENTRIES * ENTRIES * ENTRIES   // virtual pages: bits 12..47

  datatype Slot = Slot(root: nat, level: nat, prefix: nat)

  type Tables = map<Slot, nat>

  /** The state mm.c works on: the used frames, the words of memory, and where the tables lie. */
  datatype Vm = Vm(used: set<nat>, ram: seq<Word>, tables: Tables)

  // ---------------------------------------------------------------------------
  // Entries: bit 0 is Present, bit 1 Writable, bit 7 marks a large page, bits 12.. hold the address
  // ---------------------------------------------------------------------------

  predicate Present(e: Word) {
    e % 2 == 1
  }

  predicate Writable(e: Word) {
    e / 2 % 2 == 1
  }

  predicate Large(e: Word) {
    e / 0x80 % 2 == 1
  }

  /** The address in an entry: all but its low twelve bits. */
  function AddressOf(e: Word): Word {
    e - e % 0x1000
  }

  function FrameOf(e: Word): nat {
    e / PAGE_SIZE
  }

  function WordAt(ram: seq<Word>, frame: nat, i: nat): Word
    requires |ram| == RAM_WORDS && frame < FRAMES && i < ENTRIES
  {
    ram[frame * ENTRIES + i]
  }

  /** The words of memory after word i of a frame is set to e. */
  function WordSet(ram: seq<Word>, frame: nat, i: nat, e: Word): (ram': seq<Word>)
    requires |ram| == RAM_WORDS && frame < FRAMES && i < ENTRIES
    ensures |ram'| == RAM_WORDS
  {
    ram[frame * ENTRIES + i := e]
  }

  lemma TableEntryBits(f: nat)
    ensures var e := f * PAGE_SIZE + 3;
            e % 2 == 1 && e / 2 % 2 == 1 && e / PAGE_SIZE == f && e / 0x80 % 2 == 0
  {
    OddHalf(2 * (f * 0x400) + 1);
    OddHalf(f * 0x400);
    LargeBit(f * 0x10);
  }

  lemma OddHalf(h: nat)
    ensures (2 * h + 1) % 2 == 1 && (2 * h + 1) / 2 == h
  {
  }

  lemma LargeBit(k: nat)
    ensures (0x100 * k + 3) / 0x80 % 2 == 0
  {
    assert (0x100 * k + 3) / 0x80 == 2 * k;
  }

  /** The entry for a table in frame f: Present and Writable. */
  function TableEntry(f: nat): (e: Word)
    requires f < FRAMES
    ensures Present(e) && Writable(e) && FrameOf(e) == f && !Large(e)
  {
    TableEntryBits(f);
    f * PAGE_SIZE + 3
  }

  // ---------------------------------------------------------------------------
  // The tree of tables
  // ---------------------------------------------------------------------------

  function Child(s: Slot, i: nat): Slot
    requires s.level > 0
  {
    Slot(s.root, s.level - 1, s.prefix * ENTRIES + i)
  }

  function Parent(s: Slot): Slot {
    Slot(s.root, s.level + 1, s.prefix / ENTRIES)
  }

  function RootSlot(root: nat): Slot {
    Slot(root, 4, 0)
  }

  lemma ChildIsInjective(s: Slot, i: nat, q: Slot, j: nat)
    requires s.level >= 2 && q.level >= 2 && i < ENTRIES && j < ENTRIES
    ensures Child(s, i) == Child(q, j) ==> s == q && i == j
    ensures Parent(Child(s, i)) == s
  {
  }

  /** Every table is a root or hangs below another table, and no two share a frame. */
  ghost predicate Shape(tables: Tables) {
    && (forall s :: s in tables ==> 0 < tables[s] < FRAMES && 1 <= s.level <= 4)
    && (forall s :: s in tables && s.level == 4 ==> s.prefix == 0 && tables[s] == s.root)
    && (forall s :: s in tables && s.level < 4 ==> Parent(s) in tables)
    && (forall s, s' :: s in tables && s' in tables && tables[s] == tables[s'] ==> s == s')
  }

  /** Entry i of table s points at the table it should, writable, or is absent; large pages never occur. */
  ghost predicate EntryLinked(ram: seq<Word>, tables: Tables, s: Slot, i: nat)
    requires |ram| == RAM_WORDS && Shape(tables)
    requires s in tables && s.level >= 2 && i < ENTRIES
  {
    var e := WordAt(ram, tables[s], i);
    && (Present(e) <==> Child(s, i) in tables)
    && (Present(e) ==> FrameOf(e) == tables[Child(s, i)] && Writable(e) && !Large(e))
  }

  ghost predicate Linked(ram: seq<Word>, tables: Tables)
    requires |ram| == RAM_WORDS && Shape(tables)
  {
    forall s, i: nat :: s in tables && s.level >= 2 && i < ENTRIES ==> EntryLinked(ram, tables, s, i)
  }

  /** The separation invariant: a forest of tables in frames the allocator will not hand out. */
  ghost predicate Sound(vm: Vm) {
    && |vm.ram| == RAM_WORDS
    && KernelFrames() <= vm.used <= AllFrames()
    && Shape(vm.tables)
    && (forall s :: s in vm.tables ==> vm.tables[s] in vm.used)
    && Linked(vm.ram, vm.tables)
  }

  ghost function Free(vm: Vm): set<nat> {
    AllFrames() - vm.used
  }

  ghost predicate HoldsTable(tables: Tables, f: nat) {
    exists s :: s in tables && tables[s] == f
  }

  // ---------------------------------------------------------------------------
  // The abstract value: which entry serves virtual page v of an address space
  // ---------------------------------------------------------------------------

  /** The lowest-level table that covers virtual page v. */
  function PtSlot(root: nat, v: nat): Slot {
    Slot(root, 1, v / ENTRIES)
  }

  ghost function LeafIn(ram: seq<Word>, tables: Tables, root: nat, v: nat): Option<Word>
    requires |ram| == RAM_WORDS && Shape(tables)
  {
    if PtSlot(root, v) !in tables then None
    else
      var e := WordAt(ram, tables[PtSlot(root, v)], v % ENTRIES);
      if Present(e) then Some(e) else None
  }

  ghost function Leaf(vm: Vm, root: nat, v: nat): Option<Word>
    requires Sound(vm)
  {
    LeafIn(vm.ram, vm.tables, root, v)
  }

  /** Two states agree on every translation of every address space. */
  ghost predicate SameLeaves(vm: Vm, vm': Vm)
    requires Sound(vm) && Sound(vm')
  {
    forall root: nat, v: nat :: Leaf(vm', root, v) == Leaf(vm, root, v)
  }

  /** Two states agree on every translation but those in `pages` of address space `root`. */
  ghost predicate SameLeavesExcept(vm: Vm, vm': Vm, root: nat, pages: set<nat>)
    requires Sound(vm) && Sound(vm')
  {
    forall r: nat, v: nat :: r != root || v !in pages ==> Leaf(vm', r, v) == Leaf(vm, r, v)
  }

  /** Tables were only added, each in a frame of its own that was free, and no other frame was taken. */
  ghost predicate Grown(vm: Vm, vm': Vm) {
    && (forall s :: s in vm.tables ==> s in vm'.tables && vm'.tables[s] == vm.tables[s])
    && (forall s :: s in vm'.tables && s !in vm.tables ==> vm'.tables[s] !in vm.used)
    && (forall f :: f in vm'.used <==> f in vm.used || HoldsTable(vm'.tables, f))
    && |Free(vm')| + |vm'.tables.Keys - vm.tables.Keys| == |Free(vm)|
  }

  lemma GrownTwice(a: Vm, b: Vm, c: Vm)
    requires Grown(a, b) && Grown(b, c)
    ensures Grown(a, c)
  {
    assert c.tables.Keys - a.tables.Keys == (c.tables.Keys - b.tables.Keys) + (b.tables.Keys - a.tables.Keys);
    forall f | HoldsTable(b.tables, f) ensures HoldsTable(c.tables, f) {
      var s :| s in b.tables && b.tables[s] == f;
      assert s in c.tables && c.tables[s] == f;
    }
  }

  // ---------------------------------------------------------------------------
  // The tree is a fact about memory
  // ---------------------------------------------------------------------------

  /** A table of one reading of memory is the same table in any other reading with the same roots. */
  lemma {:induction false} TableDeterminedByMemory(a: Vm, b: Vm, s: Slot)
    requires Sound(a) && Sound(b) && a.ram == b.ram
    requires forall r: nat :: RootSlot(r) in a.tables <==> RootSlot(r) in b.tables
    requires s in a.tables
    ensures s in b.tables && a.tables[s] == b.tables[s]
    decreases 4 - s.level
  {
    if s.level == 4 {
      assert s == RootSlot(s.root);
    } else {
      var p, i := Parent(s), s.prefix % ENTRIES;
      assert p in a.tables;
      TableDeterminedByMemory(a, b, p);
      assert Child(p, i) == s;
      assert EntryLinked(a.ram, a.tables, p, i) && EntryLinked(b.ram, b.tables, p, i);
    }
  }

  /** Memory and the roots leave no choice of where the tables are. */
  lemma TablesDeterminedByMemory(a: Vm, b: Vm)
    requires Sound(a) && Sound(b) && a.ram == b.ram
    requires forall r: nat :: RootSlot(r) in a.tables <==> RootSlot(r) in b.tables
    ensures a.tables == b.tables
  {
    forall s | s in a.tables ensures s in b.tables && a.tables[s] == b.tables[s] {
      TableDeterminedByMemory(a, b, s);
    }
    forall s | s in b.tables ensures s in a.tables {
      TableDeterminedByMemory(b, a, s);
    }
  }

  // ---------------------------------------------------------------------------
  // The writes mm.c makes
  // ---------------------------------------------------------------------------

  /** Frame f filled with zero words. */
  function Zeroed(ram: seq<Word>, f: nat): (ram': seq<Word>)
    requires |ram| == RAM_WORDS && f < FRAMES
    ensures |ram'| == RAM_WORDS
  {
    ram[..f * ENTRIES] + seq(ENTRIES, _ => 0) + ram[(f + 1) * ENTRIES..]
  }

  lemma ZeroedAt(ram: seq<Word>, f: nat, g: nat, i: nat)
    requires |ram| == RAM_WORDS && f < FRAMES && g < FRAMES && i < ENTRIES
    ensures WordAt(Zeroed(ram, f), g, i) == if g == f then 0 else WordAt(ram, g, i)
  {
    if g < f {
      assert g * ENTRIES + i < f * ENTRIES;
    } else if g > f {
      assert g * ENTRIES + i >= (f + 1) * ENTRIES;
    }
  }

  /** A cleared table in frame f, hung below entry i of table s. */
  function Hung(vm: Vm, s: Slot, i: nat, f: nat): (vm': Vm)
    requires |vm.ram| == RAM_WORDS && f < FRAMES && i < ENTRIES
    requires s in vm.tables && vm.tables[s] < FRAMES && s.level >= 2
    ensures |vm'.ram| == RAM_WORDS
  {
    Vm(vm.used + {f},
       WordSet(Zeroed(vm.ram, f), vm.tables[s], i, TableEntry(f)),
       vm.tables[Child(s, i) := f])
  }

  /** s has an empty entry i, and frame f is free to hold the table that would hang there. */
  ghost predicate CanHang(vm: Vm, s: Slot, i: nat, f: nat) {
    && Sound(vm)
    && s in vm.tables && s.level >= 2 && i < ENTRIES && Child(s, i) !in vm.tables
    && 0 < f < FRAMES && f !in vm.used
  }

  lemma HangShape(vm: Vm, s: Slot, i: nat, f: nat)
    requires CanHang(vm, s, i, f)
    ensures Shape(Hung(vm, s, i, f).tables)
  {
    ChildIsInjective(s, i, s, i);
  }

  lemma HangGrows(vm: Vm, s: Slot, i: nat, f: nat)
    requires CanHang(vm, s, i, f)
    ensures Grown(vm, Hung(vm, s, i, f))
    ensures Hung(vm, s, i, f).tables.Keys == vm.tables.Keys + {Child(s, i)}
  {
    var vm' := Hung(vm, s, i, f);
    assert vm'.tables.Keys - vm.tables.Keys == {Child(s, i)};
    assert f in Free(vm);
    assert Free(vm') == Free(vm) - {f};
    assert vm'.tables[Child(s, i)] == f;
  }

  lemma HungAt(vm: Vm, s: Slot, i: nat, f: nat, q: Slot, j: nat)
    requires CanHang(vm, s, i, f) && q in vm.tables && j < ENTRIES
    ensures WordAt(Hung(vm, s, i, f).ram, vm.tables[q], j) ==
            if q == s && j == i then TableEntry(f) else WordAt(vm.ram, vm.tables[q], j)
    ensures WordAt(Hung(vm, s, i, f).ram, f, j) == 0
  {
    ZeroedAt(vm.ram, f, vm.tables[q], j);
    ZeroedAt(vm.ram, f, f, j);
  }

  lemma NewTableHasNoChildren(vm: Vm, s: Slot, i: nat, f: nat, j: nat)
    requires CanHang(vm, s, i, f) && s.level >= 3 && j < ENTRIES
    ensures Child(Child(s, i), j) !in Hung(vm, s, i, f).tables
    ensures WordAt(Hung(vm, s, i, f).ram, f, j) == 0
  {
    HungAt(vm, s, i, f, s, j);
    ChildIsInjective(Child(s, i), j, Child(s, i), j);
  }

  lemma HangKeepsLinked(vm: Vm, s: Slot, i: nat, f: nat, q: Slot, j: nat)
    requires CanHang(vm, s, i, f) && Shape(Hung(vm, s, i, f).tables)
    requires q in Hung(vm, s, i, f).tables && q.level >= 2 && j < ENTRIES
    ensures EntryLinked(Hung(vm, s, i, f).ram, Hung(vm, s, i, f).tables, q, j)
  {
    var tables' := Hung(vm, s, i, f).tables;
    if q == Child(s, i) {
      NewTableHasNoChildren(vm, s, i, f, j);
      assert tables'[q] == f;
    } else {
      var e := WordAt(vm.ram, vm.tables[q], j);
      assert EntryLinked(vm.ram, vm.tables, q, j);
      HungAt(vm, s, i, f, q, j);
      ChildIsInjective(s, i, q, j);
      assert Child(q, j) in tables' <==> Child(q, j) in vm.tables || (q == s && j == i);
    }
  }

  lemma HangKeepsLeaf(vm: Vm, s: Slot, i: nat, f: nat, root: nat, v: nat)
    requires CanHang(vm, s, i, f) && Shape(Hung(vm, s, i, f).tables)
    ensures LeafIn(Hung(vm, s, i, f).ram, Hung(vm, s, i, f).tables, root, v) == LeafIn(vm.ram, vm.tables, root, v)
  {
    var pt := PtSlot(root, v);
    if pt == Child(s, i) {
      HungAt(vm, s, i, f, s, v % ENTRIES);
    } else if pt in vm.tables {
      HungAt(vm, s, i, f, pt, v % ENTRIES);
    }
  }

  /** Hanging a new table keeps the separation invariant and no translation notices. */
  lemma HangKeepsTranslations(vm: Vm, s: Slot, i: nat, f: nat)
    requires CanHang(vm, s, i, f)
    ensures Sound(Hung(vm, s, i, f)) && SameLeaves(vm, Hung(vm, s, i, f)) && Grown(vm, Hung(vm, s, i, f))
    ensures Hung(vm, s, i, f).tables.Keys == vm.tables.Keys + {Child(s, i)}
  {
    var vm' := Hung(vm, s, i, f);
    HangShape(vm, s, i, f);
    HangGrows(vm, s, i, f);
    assert f in AllFrames();
    forall q, j: nat | q in vm'.tables && q.level >= 2 && j < ENTRIES
      ensures EntryLinked(vm'.ram, vm'.tables, q, j)
    {
      HangKeepsLinked(vm, s, i, f, q, j);
    }
    forall root: nat, v: nat
      ensures Leaf(vm', root, v) == Leaf(vm, root, v)
    {
      HangKeepsLeaf(vm, s, i, f, root, v);
    }
  }

  /** A cleared frame that becomes the root of a new address space. */
  function Rooted(vm: Vm, f: nat): Vm
    requires |vm.ram| == RAM_WORDS && f < FRAMES
  {
    Vm(vm.used + {f}, Zeroed(vm.ram, f), vm.tables[RootSlot(f) := f])
  }

  lemma RootKeepsShape(vm: Vm, f: nat)
    requires Sound(vm) && 0 < f < FRAMES && f !in vm.used
    ensures Shape(Rooted(vm, f).tables)
    ensures forall q :: q in vm.tables ==> q != RootSlot(f) && Parent(q) != RootSlot(f)
  {
  }

  lemma RootKeepsLinked(vm: Vm, f: nat, q: Slot, j: nat)
    requires Sound(vm) && 0 < f < FRAMES && f !in vm.used && Shape(Rooted(vm, f).tables)
    requires q in Rooted(vm, f).tables && q.level >= 2 && j < ENTRIES
    ensures EntryLinked(Rooted(vm, f).ram, Rooted(vm, f).tables, q, j)
  {
    RootKeepsShape(vm, f);
    ZeroedAt(vm.ram, f, Rooted(vm, f).tables[q], j);
    ChildIsInjective(q, j, q, j);
    if q != RootSlot(f) {
      assert EntryLinked(vm.ram, vm.tables, q, j);
    }
  }

  lemma RootHasNoPages(vm: Vm, f: nat, v: nat)
    requires Sound(vm) && f !in vm.used
    ensures PtSlot(f, v) !in vm.tables
  {
    var pt := PtSlot(f, v);
    var pd := Parent(pt);
    var pdpt := Parent(pd);
    assert pt in vm.tables ==> pd in vm.tables;
    assert pd in vm.tables ==> pdpt in vm.tables;
    assert pdpt in vm.tables ==> Parent(pdpt) in vm.tables;
  }

  lemma RootIsSound(vm: Vm, f: nat)
    requires Sound(vm) && 0 < f < FRAMES && f !in vm.used
    ensures Sound(Rooted(vm, f))
  {
    hide EntryLinked;
    var vm' := Rooted(vm, f);
    RootKeepsShape(vm, f);
    assert f in AllFrames();
    forall q, j: nat | q in vm'.tables && q.level >= 2 && j < ENTRIES
      ensures EntryLinked(vm'.ram, vm'.tables, q, j)
    {
      RootKeepsLinked(vm, f, q, j);
    }
  }

  lemma RootKeepsLeaf(vm: Vm, f: nat, root: nat, v: nat)
    requires Sound(vm) && 0 < f < FRAMES && f !in vm.used && Sound(Rooted(vm, f))
    ensures Leaf(Rooted(vm, f), root, v) == Leaf(vm, root, v)
  {
    hide Linked, Zeroed;
    if PtSlot(root, v) in vm.tables {
      ZeroedAt(vm.ram, f, vm.tables[PtSlot(root, v)], v % ENTRIES);
    }
  }

  /** The new address space is empty and the others are untouched. */
  lemma RootKeepsTranslations(vm: Vm, f: nat)
    requires Sound(vm) && 0 < f < FRAMES && f !in vm.used
    ensures Sound(Rooted(vm, f)) && SameLeaves(vm, Rooted(vm, f))
    ensures forall v: nat :: Leaf(Rooted(vm, f), f, v) == None
  {
    hide Linked, Shape, Rooted, LeafIn;
    RootIsSound(vm, f);
    forall root: nat, v: nat ensures Leaf(Rooted(vm, f), root, v) == Leaf(vm, root, v) {
      RootKeepsLeaf(vm, f, root, v);
    }
    forall v: nat ensures Leaf(Rooted(vm, f), f, v) == None {
      RootHasNoPages(vm, f, v);
      RootKeepsLeaf(vm, f, f, v);
      NoTableNoLeaf(vm, f, v);
    }
  }

  lemma NoTableNoLeaf(vm: Vm, root: nat, v: nat)
    requires Sound(vm) && PtSlot(root, v) !in vm.tables
    ensures Leaf(vm, root, v) == None
  {
  }

  /** Writing an entry of a lowest-level table. */
  function LeafWritten(vm: Vm, root: nat, v: nat, e: Word): (vm': Vm)
    requires |vm.ram| == RAM_WORDS && PtSlot(root, v) in vm.tables && vm.tables[PtSlot(root, v)] < FRAMES
  {
    vm.(ram := WordSet(vm.ram, vm.tables[PtSlot(root, v)], v % ENTRIES, e))
  }

  lemma LeafWriteAt(vm: Vm, root: nat, v: nat, e: Word, s: Slot, j: nat)
    requires Sound(vm) && PtSlot(root, v) in vm.tables && s in vm.tables && j < ENTRIES
    ensures WordAt(LeafWritten(vm, root, v, e).ram, vm.tables[s], j) ==
            if s == PtSlot(root, v) && j == v % ENTRIES then e else WordAt(vm.ram, vm.tables[s], j)
  {
    hide Linked;
  }

  lemma LeafWriteKeepsLinked(vm: Vm, root: nat, v: nat, e: Word)
    requires Sound(vm) && PtSlot(root, v) in vm.tables
    ensures Sound(LeafWritten(vm, root, v, e))
  {
    hide WordAt, FrameOf, Large, Present, Writable, WordSet;
    var vm' := LeafWritten(vm, root, v, e);
    forall s, j: nat | s in vm.tables && s.level >= 2 && j < ENTRIES
      ensures EntryLinked(vm'.ram, vm.tables, s, j)
    {
      assert EntryLinked(vm.ram, vm.tables, s, j);
      LeafWriteAt(vm, root, v, e, s, j);
    }
  }

  /** ... changes that page's translation and no other, in any address space. */
  lemma LeafWriteIsMapUpdate(vm: Vm, root: nat, v: nat, e: Word)
    requires Sound(vm) && PtSlot(root, v) in vm.tables
    ensures var vm' := LeafWritten(vm, root, v, e);
            && Sound(vm')
            && Leaf(vm', root, v) == (if Present(e) then Some(e) else None)
            && SameLeavesExcept(vm, vm', root, {v})
  {
    hide Linked, WordAt, FrameOf, Large, Writable, WordSet;
    var pt := PtSlot(root, v);
    var vm' := LeafWritten(vm, root, v, e);
    LeafWriteKeepsLinked(vm, root, v, e);
    LeafWriteAt(vm, root, v, e, pt, v % ENTRIES);
    forall r: nat, w: nat | r != root || w != v
      ensures Leaf(vm', r, w) == Leaf(vm, r, w)
    {
      if PtSlot(r, w) in vm.tables {
        LeafWriteAt(vm, root, v, e, PtSlot(r, w), w % ENTRIES);
        assert PtSlot(r, w) == pt ==> w % ENTRIES != v % ENTRIES;
      }
    }
  }
}
