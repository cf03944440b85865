/**
  The physical frame allocator of mm.c: one bit per 4 KB frame of the 128 MB of memory,
  searched first-fit. The abstract value of the bitmap is the set of used frame numbers.
 */
module FrameAllocation {
  import opened CTypes

  const PAGE_SIZE := 4096
  const FRAMES := 32768             // PHYS_MEM_LIMIT / PAGE_SIZE
  const KERNEL_FRAMES := 4096       // 16 MB / PAGE_SIZE, reserved by mm_init
  const PHYS_MEM_LIMIT := 0x800_0000

  predicate Below(f: nat, n: nat) {
    f < n
  }

  function FramesBelow(n: nat): set<nat> {
    set f: nat | f < n && Below(f, n)
  }

  function AllFrames(): set<nat> {
    FramesBelow(FRAMES)
  }

  function KernelFrames(): set<nat> {
    FramesBelow(KERNEL_FRAMES)
  }

  // ---------------------------------------------------------------------------
  // What the allocator does, on sets of used frames
  // ---------------------------------------------------------------------------

  /** The least free frame at or above i, or FRAMES when there is none. */
  function FirstFree(used: set<nat>, i: nat): (f: nat)
    requires i <= FRAMES
    ensures i <= f <= FRAMES
    ensures f < FRAMES ==> f !in used
    ensures forall g :: i <= g < f ==> g in used
    decreases FRAMES - i
  {
    if i == FRAMES || i !in used then i else FirstFree(used, i + 1)
  }

  /** The address handed out, with 0 also standing for failure, and the frames used afterwards. */
  function GetStep(used: set<nat>): (Word, set<nat>) {
    var f := FirstFree(used, 0);
    if f == FRAMES then (0, used) else (f * PAGE_SIZE, used + {f})
  }

  predicate Freeable(page: Word) {
    KERNEL_FRAMES * PAGE_SIZE <= page < PHYS_MEM_LIMIT && page % PAGE_SIZE == 0
  }

  function FreeStep(used: set<nat>, page: Word): set<nat> {
    if Freeable(page) then used - {page / PAGE_SIZE} else used
  }

  // ---------------------------------------------------------------------------
  // Whole runs from mm_init
  // ---------------------------------------------------------------------------

  datatype FrameOp = Acquire | Release(page: Word)

  function StepUsed(used: set<nat>, op: FrameOp): set<nat> {
    match op
    case Acquire => GetStep(used).1
    case Release(page) => FreeStep(used, page)
  }

  function UsedAfter(ops: seq<FrameOp>): set<nat> {
    if ops == [] then KernelFrames() else StepUsed(UsedAfter(ops[..|ops| - 1]), ops[|ops| - 1])
  }

  /** Step i of the run hands out the (nonzero) address `page`. */
  predicate HandsOut(ops: seq<FrameOp>, i: nat, page: Word) {
    i < |ops| && ops[i] == Acquire && page != 0 && GetStep(UsedAfter(ops[..i])).0 == page
  }

  /** Some step hands out `page` and no later step gives it back. */
  ghost predicate Live(ops: seq<FrameOp>, page: Word) {
    exists i: nat :: HandsOut(ops, i, page) && forall k :: i < k < |ops| ==> ops[k] != Release(page)
  }

  lemma FreeFrameExists(used: set<nat>)
    requires KernelFrames() <= used <= AllFrames()
    ensures GetStep(used).0 == 0 <==> used == AllFrames()
    ensures GetStep(used).0 != 0 ==> Freeable(GetStep(used).0) && GetStep(used).0 / PAGE_SIZE !in used
    ensures KernelFrames() <= GetStep(used).1 <= AllFrames()
  {
    var f := FirstFree(used, 0);
    if f == FRAMES {
      assert forall g :: g in AllFrames() ==> g in used;
    } else {
      assert f in AllFrames() && f !in used;
      assert f !in KernelFrames();
    }
  }

  lemma {:induction false} KernelNeverReleased(ops: seq<FrameOp>)
    ensures KernelFrames() <= UsedAfter(ops) <= AllFrames()
  {
    if ops != [] {
      var before := UsedAfter(ops[..|ops| - 1]);
      KernelNeverReleased(ops[..|ops| - 1]);
      FreeFrameExists(before);
      assert forall f :: f in KernelFrames() ==> f < KERNEL_FRAMES;
    }
  }

  /** How one more step changes what is live. */
  lemma LiveStep(ops: seq<FrameOp>, op: FrameOp, page: Word)
    ensures Live(ops + [op], page) <==>
            HandsOut(ops + [op], |ops|, page) || (Live(ops, page) && op != Release(page))
  {
    var longer := ops + [op];
    forall i: nat | i < |ops|
      ensures HandsOut(longer, i, page) == HandsOut(ops, i, page)
    {
      assert longer[..i] == ops[..i];
    }
    if Live(longer, page) {
      var i: nat :| HandsOut(longer, i, page) && forall k :: i < k < |longer| ==> longer[k] != Release(page);
      if i < |ops| {
        assert longer[|ops|] != Release(page);
        assert forall k :: i < k < |ops| ==> ops[k] == longer[k];
      }
    }
    if Live(ops, page) && op != Release(page) {
      var i: nat :| HandsOut(ops, i, page) && forall k :: i < k < |ops| ==> ops[k] != Release(page);
      assert HandsOut(longer, i, page);
    }
  }

  /**
    Over every run from mm_init the used frames are exactly the reserved ones and the live ones:
    nothing is lost, and nothing live is ever offered again.
   */
  lemma {:induction false} UsedAreKernelOrLive(ops: seq<FrameOp>, f: nat)
    requires f < FRAMES
    ensures f in UsedAfter(ops) <==> f < KERNEL_FRAMES || Live(ops, f * PAGE_SIZE)
  {
    if ops != [] {
      var n := |ops| - 1;
      var before := ops[..n];
      assert ops == before + [ops[n]];
      UsedAreKernelOrLive(before, f);
      LiveStep(before, ops[n], f * PAGE_SIZE);
      KernelNeverReleased(before);
      hide Live, StepUsed, GetStep;
      StepOnFrame(UsedAfter(before), ops[n], f);
    }
  }

  lemma StepOnFrame(used: set<nat>, op: FrameOp, f: nat)
    requires KernelFrames() <= used <= AllFrames() && f < FRAMES
    ensures f in StepUsed(used, op) <==>
            || f < KERNEL_FRAMES
            || (f in used && op != Release(f * PAGE_SIZE))
            || (op == Acquire && GetStep(used).0 == f * PAGE_SIZE)
  {
    FreeFrameExists(used);
    assert f < KERNEL_FRAMES ==> f in KernelFrames();
  }

  /** Between two hand-outs of one address there is a free of it. */
  lemma NoLiveFrameHandedOutTwice(ops: seq<FrameOp>, i: nat, j: nat, page: Word)
    requires i < j && HandsOut(ops, i, page) && HandsOut(ops, j, page)
    ensures exists k :: i < k < j && ops[k] == Release(page)
  {
    hide UsedAfter, GetStep;
    var before := ops[..j];
    assert before[..i] == ops[..i];
    assert HandsOut(before, i, page);
    KernelNeverReleased(before);
    FreeFrameExists(UsedAfter(before));
    UsedAreKernelOrLive(before, page / PAGE_SIZE);
    assert !Live(before, page);
    assert !forall k :: i < k < |before| ==> before[k] != Release(page);
  }

  // ---------------------------------------------------------------------------
  // The bit-packed bitmap
  // ---------------------------------------------------------------------------

  /** The byte with only bit b set. */
  function Bit(b: nat): bv8
    requires b < 8
  {
    (1 as bv8) << b
  }

  predicate HasBit(x: bv8, b: nat)
    requires b < 8
  {
    x & Bit(b) != 0
  }

  predicate IsUsed(bitmap: seq<bv8>, f: nat)
    requires |bitmap| == FRAMES / 8 && f < FRAMES
  {
    HasBit(bitmap[f / 8], f % 8)
  }

  function UsedFrames(bitmap: seq<bv8>): (used: set<nat>)
    requires |bitmap| == FRAMES / 8
    ensures used <= AllFrames()
  {
    set f: nat | f < FRAMES && IsUsed(bitmap, f)
  }

  lemma SetOneBit(x: bv8, a: nat, b: nat)
    requires a < 8 && b < 8
    ensures HasBit(x | Bit(a), b) <==> a == b || HasBit(x, b)
    ensures HasBit(x & !Bit(a), b) <==> a != b && HasBit(x, b)
  {
    hide Bit;
    BitMasks(a, b);
    MaskedBits(x, Bit(a), Bit(b));
  }

  predicate OneHot(p: bv8) {
    p != 0 && p & (p - 1) == 0
  }

  lemma BitMasks(a: nat, b: nat)
    requires a < 8 && b < 8
    ensures OneHot(Bit(a)) && OneHot(Bit(b)) && (Bit(a) == Bit(b) <==> a == b)
  {
  }

  lemma MaskedBits(x: bv8, p: bv8, q: bv8)
    requires OneHot(p) && OneHot(q)
    ensures (x | p) & q != 0 <==> p == q || x & q != 0
    ensures (x & !p) & q != 0 <==> p != q && x & q != 0
  {
  }

  lemma OneBitChanged(bitmap: seq<bv8>, f: nat, x: bv8, on: bool)
    requires |bitmap| == FRAMES / 8 && f < FRAMES
    requires forall b :: 0 <= b < 8 ==> HasBit(x, b) == if b == f % 8 then on else HasBit(bitmap[f / 8], b)
    ensures forall g :: 0 <= g < FRAMES ==> IsUsed(bitmap[f / 8 := x], g) == if g == f then on else IsUsed(bitmap, g)
  {
    hide HasBit;
    forall g | 0 <= g < FRAMES ensures IsUsed(bitmap[f / 8 := x], g) == if g == f then on else IsUsed(bitmap, g) {
      assert g == g / 8 * 8 + g % 8 && f == f / 8 * 8 + f % 8;
    }
  }

  lemma MarkedUsed(bitmap: seq<bv8>, f: nat)
    requires |bitmap| == FRAMES / 8 && f < FRAMES
    ensures UsedFrames(bitmap[f / 8 := bitmap[f / 8] | Bit(f % 8)]) == UsedFrames(bitmap) + {f}
  {
    hide IsUsed, Bit, HasBit;
    var x, y := bitmap[f / 8], bitmap[f / 8] | Bit(f % 8);
    forall b | 0 <= b < 8 ensures HasBit(y, b) == if b == f % 8 then true else HasBit(x, b) {
      SetOneBit(x, f % 8, b);
    }
    OneBitChanged(bitmap, f, y, true);
    var marked, before := UsedFrames(bitmap[f / 8 := y]), UsedFrames(bitmap);
    forall g: nat ensures g in marked <==> g in before + {f} {
      assert g in marked <==> g < FRAMES && IsUsed(bitmap[f / 8 := y], g);
      assert g in before <==> g < FRAMES && IsUsed(bitmap, g);
    }
  }

  lemma MarkedFree(bitmap: seq<bv8>, f: nat)
    requires |bitmap| == FRAMES / 8 && f < FRAMES
    ensures UsedFrames(bitmap[f / 8 := bitmap[f / 8] & !Bit(f % 8)]) == UsedFrames(bitmap) - {f}
  {
    hide IsUsed, Bit, HasBit;
    var x, y := bitmap[f / 8], bitmap[f / 8] & !Bit(f % 8);
    forall b | 0 <= b < 8 ensures HasBit(y, b) == if b == f % 8 then false else HasBit(x, b) {
      SetOneBit(x, f % 8, b);
    }
    OneBitChanged(bitmap, f, y, false);
    var marked, before := UsedFrames(bitmap[f / 8 := y]), UsedFrames(bitmap);
    forall g: nat ensures g in marked <==> g in before - {f} {
      assert g in marked <==> g < FRAMES && IsUsed(bitmap[f / 8 := y], g);
      assert g in before <==> g < FRAMES && IsUsed(bitmap, g);
    }
  }

  class FrameAllocator {
    const bitmap: array<bv8>

    ghost predicate Valid() {
      bitmap.Length == FRAMES / 8
    }

    ghost function Used(): (used: set<nat>)
      requires Valid()
      reads bitmap
      ensures used <= AllFrames()
    {
      UsedFrames(bitmap[..])
    }

    constructor ()
      ensures Valid() && fresh(bitmap) && Used() == {}
    {
      bitmap := new bv8[FRAMES / 8](_ => 0);
    }

    method IsPageUsed(pageIdx: nat) returns (used: bool)
      requires Valid() && pageIdx < FRAMES
      ensures used <==> pageIdx in Used()
    {
      used := bitmap[pageIdx / 8] & Bit(pageIdx % 8) != 0;
    }

    method SetPageUsed(pageIdx: nat)
      requires Valid() && pageIdx < FRAMES
      modifies bitmap
      ensures Used() == old(Used()) + {pageIdx}
    {
      ghost var before := bitmap[..];
      bitmap[pageIdx / 8] := bitmap[pageIdx / 8] | Bit(pageIdx % 8);
      MarkedUsed(before, pageIdx);
      assert bitmap[..] == before[pageIdx / 8 := before[pageIdx / 8] | Bit(pageIdx % 8)];
    }

    method SetPageFree(pageIdx: nat)
      requires Valid() && pageIdx < FRAMES
      modifies bitmap
      ensures Used() == old(Used()) - {pageIdx}
    {
      ghost var before := bitmap[..];
      bitmap[pageIdx / 8] := bitmap[pageIdx / 8] & !Bit(pageIdx % 8);
      MarkedFree(before, pageIdx);
      assert bitmap[..] == before[pageIdx / 8 := before[pageIdx / 8] & !Bit(pageIdx % 8)];
    }

    method FindFirstFreePageIndex() returns (idx: Word)
      requires Valid()
      ensures idx == if FirstFree(Used(), 0) == FRAMES then SIZE_MAX else FirstFree(Used(), 0)
    {
      for i := 0 to FRAMES
        invariant FirstFree(Used(), 0) == FirstFree(Used(), i)
      {
        var used := IsPageUsed(i);
        if !used {
          return i;
        }
      }
      return SIZE_MAX;
    }

    method GetFreePage() returns (page: Word)
      requires Valid()
      modifies bitmap
      ensures (page, Used()) == GetStep(old(Used()))
    {
      var idx := FindFirstFreePageIndex();
      if idx == SIZE_MAX {
        return 0;
      }
      page := idx * PAGE_SIZE;
      SetPageUsed(idx);
    }

    method FreePage(page: Word)
      requires Valid()
      modifies bitmap
      ensures Used() == FreeStep(old(Used()), page)
    {
      if page < 0x100_0000 || page >= PHYS_MEM_LIMIT || page % 0x1000 != 0 {
        return;
      }
      SetPageFree(page / PAGE_SIZE);
    }

    /** mm_init: reserve the first 16 MB. */
    method Init()
      requires Valid()
      modifies bitmap
      ensures Used() == old(Used()) + KernelFrames()
    {
      var usedPages := 0x100_0000 / PAGE_SIZE;
      for i := 0 to usedPages
        invariant Used() == old(Used()) + FramesBelow(i)
      {
        SetPageUsed(i);
      }
    }
  }
}
