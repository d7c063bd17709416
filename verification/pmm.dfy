/**
 The physical frame allocator (kernel/src/core/pmm.c): a bitmap of 4 KiB
 frames over the first GiB, a frame total and a used counter.
 */
module Pmm {
  import opened Common

  const FRAME_SIZE := 4096
  const MAX_MEMORY := 0x4000_0000
  const MAX_FRAMES := 0x4_0000
  const BITMAP_BYTES := 0x8000

  // ---------------------------------------------------------------------
  // What the bitmap means: a total and the set of used frames below it.
  // ---------------------------------------------------------------------

  datatype Allocator = Allocator(total: nat, used: set<nat>)

  /** The first frame of [from, hi) that is not used, or hi. */
  function LowestFree(used: set<nat>, from: nat, hi: nat): (f: nat)
    requires from <= hi
    ensures from <= f <= hi
    ensures f < hi ==> f !in used
    ensures forall g :: from <= g < f ==> g in used
    decreases hi - from
  {
    if from == hi || from !in used then from else LowestFree(used, from + 1, hi)
  }

  /** Take the lowest free frame below a physical bound; address 0 reports failure. */
  function AllocBelow(a: Allocator, bound: nat): (Allocator, nat) {
    var hi := Min(bound / FRAME_SIZE, a.total);
    var f := LowestFree(a.used, 0, hi);
    if f < hi then (a.(used := a.used + {f}), f * FRAME_SIZE) else (a, 0)
  }

  function Release(a: Allocator, addr: nat): Allocator {
    a.(used := a.used - {addr / FRAME_SIZE})
  }

  /** Frame f shares a byte with the region [addr, addr + len). */
  predicate Overlaps(f: nat, addr: nat, len: nat) {
    len > 0 && addr < (f + 1) * FRAME_SIZE && f * FRAME_SIZE < addr + len
  }

  /** Physical byte x lies in frame f. */
  predicate ByteOf(x: nat, f: nat) {
    x / FRAME_SIZE == f
  }

  lemma OverlapsIsASharedByte(f: nat, addr: nat, len: nat)
    ensures Overlaps(f, addr, len) <==> exists x: nat :: ByteOf(x, f) && addr <= x < addr + len
  {
    if Overlaps(f, addr, len) {
      var x := if addr <= f * FRAME_SIZE then f * FRAME_SIZE else addr;
      assert ByteOf(x, f) && addr <= x < addr + len;
    }
  }

  predicate Inside(f: nat, addr: nat, len: nat) {
    addr <= f * FRAME_SIZE && (f + 1) * FRAME_SIZE <= addr + len
  }

  /**
   Rounding outwards also releases frames that are only partly available. All
   frames an entry releases lie inside it exactly when it is page-aligned.
   */
  lemma WholeFramesIffAligned(addr: nat, len: nat)
    ensures (forall f: nat :: Overlaps(f, addr, len) ==> Inside(f, addr, len)) <==>
            len == 0 || (addr % FRAME_SIZE == 0 && (addr + len) % FRAME_SIZE == 0)
  {
    if len > 0 {
      var first, last := addr / FRAME_SIZE, (addr + len - 1) / FRAME_SIZE;
      assert Overlaps(first, addr, len) && Overlaps(last, addr, len);
      if addr % FRAME_SIZE == 0 && (addr + len) % FRAME_SIZE == 0 {
        forall f: nat | Overlaps(f, addr, len) ensures Inside(f, addr, len) {
          assert addr == first * FRAME_SIZE && addr + len == (addr + len) / FRAME_SIZE * FRAME_SIZE;
        }
      }
    }
  }

  /**
   The frames `mark_region` visits. The end wraps at 64 bits before it is cut
   at 1 GiB and rounded up.
   */
  predicate Marks(f: nat, addr: Word, len: Word) {
    && len > 0 && addr < MAX_MEMORY
    && addr / FRAME_SIZE <= f && f * FRAME_SIZE < Min(Wrap64(addr + len), MAX_MEMORY)
  }

  lemma WrappedEnd(addr: Word, len: Word)
    ensures Wrap64(addr + len) == if addr + len < TWO64 then addr + len else addr + len - TWO64
  {
    DivModUnique(if addr + len < TWO64 then 0 else 1, TWO64,
                 if addr + len < TWO64 then addr + len else addr + len - TWO64);
  }

  /**
   Those are the frames that share a byte with the region exactly when the
   end does not wrap (or the region lies above 1 GiB or is empty, or both
   amount to the last frame alone).
   */
  lemma MarksIffOverlaps(addr: Word, len: Word)
    ensures (forall f: nat :: f < MAX_FRAMES ==> (Marks(f, addr, len) <==> Overlaps(f, addr, len))) <==>
            || addr + len < TWO64 || addr >= MAX_MEMORY
            || (addr / FRAME_SIZE == MAX_FRAMES - 1 && addr + len - TWO64 > addr / FRAME_SIZE * FRAME_SIZE)
  {
    WrappedEnd(addr, len);
    if addr + len >= TWO64 && addr < MAX_MEMORY {
      var last := MAX_FRAMES - 1;
      assert Overlaps(last, addr, len);
      if addr / FRAME_SIZE == last {
        assert Marks(last, addr, len) <==> last * FRAME_SIZE < addr + len - TWO64;
      } else {
        assert !Marks(last, addr, len);
      }
    }
  }

  /** The rounded range of the loop. */
  lemma MarksIsAFrameRange(addr: Word, len: Word, end: nat, f: nat)
    requires len > 0 && addr < MAX_MEMORY && end == Min(Wrap64(addr + len), MAX_MEMORY)
    ensures Marks(f, addr, len) <==> addr / FRAME_SIZE <= f < Wrap64(end + FRAME_SIZE - 1) / FRAME_SIZE
  {
  }

  lemma LowestFreeIsUnique(used: set<nat>, from: nat, hi: nat, f: nat)
    requires from <= f < hi && f !in used
    requires forall g :: from <= g < f ==> g in used
    ensures LowestFree(used, from, hi) == f
    decreases hi - from
  {
    if from < f {
      LowestFreeIsUnique(used, from + 1, hi, f);
    }
  }

  /** The scan stops at frame f. */
  lemma AllocStopsAt(a: Allocator, bound: nat, hi: nat, f: nat)
    requires hi == Min(bound / FRAME_SIZE, a.total) && f < hi
    requires f !in a.used && forall g: nat :: g < f ==> g in a.used
    ensures AllocBelow(a, bound) == (a.(used := a.used + {f}), f * FRAME_SIZE)
  {
    LowestFreeIsUnique(a.used, 0, hi, f);
  }

  /** The scan finds nothing. */
  lemma AllocFindsNothing(a: Allocator, bound: nat, hi: nat)
    requires hi == Min(bound / FRAME_SIZE, a.total) && forall g: nat :: g < hi ==> g in a.used
    ensures AllocBelow(a, bound) == (a, 0)
  {
  }

  /**
   Allocation hands out the lowest free frame under its bound and marks only
   that frame; it reports 0 exactly when nothing is free there, or when frame 0
   itself had been freed and is what it took.
   */
  lemma AllocTakesLowestFree(a: Allocator, bound: nat)
    ensures
      var (b, addr) := AllocBelow(a, bound);
      var f := addr / FRAME_SIZE;
      && addr % FRAME_SIZE == 0
      && b.total == a.total
      && (addr != 0 ==>
            && addr + FRAME_SIZE <= bound && f < a.total && f !in a.used
            && b.used == a.used + {f} && |b.used| == |a.used| + 1
            && forall g: nat :: g < f ==> g in a.used)
      && (addr == 0 <==> (0 !in a.used && a.total > 0 && bound >= FRAME_SIZE)
                         || forall g: nat :: g < a.total && (g + 1) * FRAME_SIZE <= bound ==> g in a.used)
      && (addr == 0 && 0 in a.used ==> b == a)
  {
    var hi := Min(bound / FRAME_SIZE, a.total);
    var f := LowestFree(a.used, 0, hi);
    if f < hi {
      assert f < a.total && (f + 1) * FRAME_SIZE <= bound;
    } else {
      forall g: nat | g < a.total && (g + 1) * FRAME_SIZE <= bound ensures g in a.used {
        assert g < hi;
      }
    }
  }

  /** A frame that is released is free again, and releasing twice changes nothing more. */
  lemma ReleaseUndoesAlloc(a: Allocator, bound: nat)
    ensures
      var (b, addr) := AllocBelow(a, bound);
      addr != 0 ==> Release(b, addr) == a && Release(Release(b, addr), addr) == a
  {
    AllocTakesLowestFree(a, bound);
    var (b, addr) := AllocBelow(a, bound);
    if addr != 0 {
      assert b.used - {addr / FRAME_SIZE} == a.used;
      assert a.used - {addr / FRAME_SIZE} == a.used;
    }
  }

  // ---------------------------------------------------------------------
  // Bits inside one bitmap byte
  // ---------------------------------------------------------------------

  /** `c | (1 << k)` */
  function OrBit(c: nat, k: nat): nat
    decreases k
  {
    if k == 0 then c / 2 * 2 + 1 else 2 * OrBit(c / 2, k - 1) + c % 2
  }

  /** `c & ~(1 << k)` */
  function AndNotBit(c: nat, k: nat): nat
    decreases k
  {
    if k == 0 then c / 2 * 2 else 2 * AndNotBit(c / 2, k - 1) + c % 2
  }

  lemma {:induction false} OrBitSets(c: nat, k: nat, j: nat)
    ensures TestBit(OrBit(c, k), j) <==> j == k || TestBit(c, j)
    decreases k
  {
    if k > 0 && j > 0 {
      OrBitSets(c / 2, k - 1, j - 1);
      assert OrBit(c, k) / 2 == OrBit(c / 2, k - 1);
    }
  }

  lemma {:induction false} AndNotBitClears(c: nat, k: nat, j: nat)
    ensures TestBit(AndNotBit(c, k), j) <==> j != k && TestBit(c, j)
    decreases k
  {
    if k > 0 && j > 0 {
      AndNotBitClears(c / 2, k - 1, j - 1);
      assert AndNotBit(c, k) / 2 == AndNotBit(c / 2, k - 1);
    }
  }

  /** Both operations stay inside a `uint8_t`. */
  lemma {:induction false} BitOpsStayBytes(c: nat, k: nat, width: nat, limit: nat)
    requires k < width && c < limit && limit == Pow2(width)
    ensures OrBit(c, k) < limit && AndNotBit(c, k) < limit
    decreases k
  {
    if k > 0 {
      BitOpsStayBytes(c / 2, k - 1, width - 1, Pow2(width - 1));
    }
  }

  function Pow2(n: nat): nat {
    if n == 0 then 1 else 2 * Pow2(n - 1)
  }

  /** The two updates of a bitmap cell. */
  function SetBit(c: Byte, k: nat): Byte
    requires k < 8
  {
    assert Pow2(8) == 0x100 by { assert Pow2(4) == 16; }
    BitOpsStayBytes(c, k, 8, 0x100);
    OrBit(c, k)
  }

  function ClearBit(c: Byte, k: nat): Byte
    requires k < 8
  {
    assert Pow2(8) == 0x100 by { assert Pow2(4) == 16; }
    BitOpsStayBytes(c, k, 8, 0x100);
    AndNotBit(c, k)
  }

  lemma FullByte(k: nat)
    requires k < 8
    ensures TestBit(0xFF, k)
  {
    assert TestBit(1, 0) && TestBit(3, 1) && TestBit(7, 2) && TestBit(15, 3);
    assert TestBit(31, 4) && TestBit(63, 5) && TestBit(127, 6) && TestBit(255, 7);
    assert TestBit(0xFF, 0) && TestBit(0xFF, 1) && TestBit(0xFF, 2) && TestBit(0xFF, 3);
    assert TestBit(0x3F, 2) && TestBit(0x3F, 3) && TestBit(0x3F, 4);
  }

  /** The frames below total whose bit is set. */
  ghost function Frames(bits: seq<Byte>, total: nat): set<nat>
    requires total <= 8 * |bits|
  {
    set f: nat | f < total && TestBit(bits[f / 8], f % 8)
  }

  lemma FramesAfterSet(bits: seq<Byte>, total: nat, frame: nat)
    requires frame < total <= 8 * |bits|
    ensures Frames(bits[frame / 8 := SetBit(bits[frame / 8], frame % 8)], total) == Frames(bits, total) + {frame}
  {
    var after := bits[frame / 8 := SetBit(bits[frame / 8], frame % 8)];
    forall f: nat | f < total
      ensures TestBit(after[f / 8], f % 8) <==> f == frame || TestBit(bits[f / 8], f % 8)
    {
      if f / 8 == frame / 8 { OrBitSets(bits[f / 8], frame % 8, f % 8); }
    }
  }

  lemma FramesAfterClear(bits: seq<Byte>, total: nat, frame: nat)
    requires frame < total <= 8 * |bits|
    ensures Frames(bits[frame / 8 := ClearBit(bits[frame / 8], frame % 8)], total) == Frames(bits, total) - {frame}
  {
    var after := bits[frame / 8 := ClearBit(bits[frame / 8], frame % 8)];
    forall f: nat | f < total
      ensures TestBit(after[f / 8], f % 8) <==> f != frame && TestBit(bits[f / 8], f % 8)
    {
      if f / 8 == frame / 8 { AndNotBitClears(bits[f / 8], frame % 8, f % 8); }
    }
  }

  lemma FullFrames(bits: seq<Byte>, total: nat)
    requires total <= 8 * |bits|
    requires forall i :: 0 <= i < |bits| ==> bits[i] == 0xFF
    ensures forall f: nat :: f in Frames(bits, total) <==> f < total
    ensures |Frames(bits, total)| == total
  {
    forall f: nat | f < total ensures f in Frames(bits, total) {
      FullByte(f % 8);
    }
    FullCount(Frames(bits, total), total);
  }

  // ---------------------------------------------------------------------
  // Boot-time memory map
  // ---------------------------------------------------------------------

  datatype Region = Region(addr: Word, len: Word, available: bool) {
    /** `addr + len` as the code computes it. */
    function End(): Word { Wrap64(addr + len) }

    predicate PageAligned() {
      addr % FRAME_SIZE == 0 && (addr + len) % FRAME_SIZE == 0
    }
  }

  /** The highest end of an available entry, and at least 16 MiB. */
  function HighestEnd(regions: seq<Region>): nat {
    if regions == [] then 0x100_0000
    else
      var last := regions[|regions| - 1];
      var h := HighestEnd(regions[..|regions| - 1]);
      if last.available && last.End() > h then last.End() else h
  }

  lemma {:induction false} HighestEndIsMaximum(regions: seq<Region>)
    ensures HighestEnd(regions) >= 0x100_0000
    ensures forall r :: r in regions && r.available ==> r.End() <= HighestEnd(regions)
    ensures HighestEnd(regions) == 0x100_0000
            || exists r :: r in regions && r.available && r.End() == HighestEnd(regions)
  {
    if regions != [] {
      var front, last := regions[..|regions| - 1], regions[|regions| - 1];
      HighestEndIsMaximum(front);
      assert regions == front + [last];
    }
  }

  predicate InAvailable(regions: seq<Region>, f: nat) {
    exists r :: r in regions && r.available && Marks(f, r.addr, r.len)
  }

  /** Exactly the frames that may be handed out after boot. */
  predicate BootFree(regions: seq<Region>, kernelStart: nat, kernelEnd: nat, f: nat)
    requires kernelStart <= kernelEnd
  {
    && InAvailable(regions, f)
    && f * FRAME_SIZE >= 0x10_0000
    && !Overlaps(f, kernelStart, kernelEnd - kernelStart)
  }

  lemma FirstByte(f: nat)
    ensures ByteOf(f * FRAME_SIZE, f)
  {
    DivModUnique(f, FRAME_SIZE, 0);
  }

  /**
   The same byte by byte, for entries whose end does not wrap: some byte of the
   frame is available, and every byte lies at or above 1 MiB and outside the
   kernel image.
   */
  lemma BootFreeByBytes(regions: seq<Region>, kernelStart: nat, kernelEnd: nat, f: nat)
    requires kernelStart <= kernelEnd && f < MAX_FRAMES
    requires forall r :: r in regions && r.available ==> r.addr + r.len < TWO64
    ensures BootFree(regions, kernelStart, kernelEnd, f) <==>
            && (exists r, x: nat :: r in regions && r.available && ByteOf(x, f) && r.addr <= x < r.addr + r.len)
            && (forall x: nat :: ByteOf(x, f) ==> x >= 0x10_0000 && !(kernelStart <= x < kernelEnd))
  {
    FirstByte(f);
    assert f * FRAME_SIZE >= 0x10_0000 <==> forall x: nat :: ByteOf(x, f) ==> x >= 0x10_0000;
    OverlapsIsASharedByte(f, kernelStart, kernelEnd - kernelStart);
    forall r | r in regions && r.available
      ensures Marks(f, r.addr, r.len) <==> exists x: nat :: ByteOf(x, f) && r.addr <= x < r.addr + r.len
    {
      MarksIffOverlaps(r.addr, r.len);
      OverlapsIsASharedByte(f, r.addr, r.len);
    }
  }

  lemma AlignedMarksAreInside(f: nat, r: Region)
    requires r.PageAligned() && Marks(f, r.addr, r.len)
    ensures Inside(f, r.addr, r.len)
  {
    WrappedEnd(r.addr, r.len);
  }

  /** If every available entry is page-aligned, every frame that is free after boot is available memory as a whole. */
  lemma FreeFramesAreWhole(regions: seq<Region>, kernelStart: nat, kernelEnd: nat, f: nat)
    requires kernelStart <= kernelEnd && BootFree(regions, kernelStart, kernelEnd, f)
    requires forall r :: r in regions && r.available && r.len > 0 ==> r.PageAligned()
    ensures exists r :: r in regions && r.available && Inside(f, r.addr, r.len)
  {
    var r :| r in regions && r.available && Marks(f, r.addr, r.len);
    AlignedMarksAreInside(f, r);
  }

  /** The same of an allocator as `pmm_init` leaves it. */
  lemma FreeFramesAreWholeAfterInit(regions: seq<Region>, kernelStart: nat, kernelEnd: nat, a: Allocator)
    requires kernelStart <= kernelEnd
    requires forall f: nat :: f in a.used <==> f < a.total && !BootFree(regions, kernelStart, kernelEnd, f)
    requires forall r :: r in regions && r.available && r.len > 0 ==> r.PageAligned()
    ensures forall f: nat :: f < a.total && f !in a.used ==>
              exists r :: r in regions && r.available && Inside(f, r.addr, r.len)
  {
    forall f: nat | f < a.total && f !in a.used
      ensures exists r :: r in regions && r.available && Inside(f, r.addr, r.len)
    {
      FreeFramesAreWhole(regions, kernelStart, kernelEnd, f);
    }
  }

  lemma CountBelow(s: set<nat>, n: nat)
    requires forall f :: f in s ==> f < n
    ensures |s| <= n
  {
    if n == 0 {
      assert s == {};
    } else {
      CountBelow(s - {n - 1}, n - 1);
      assert n - 1 in s ==> s == (s - {n - 1}) + {n - 1};
      assert n - 1 !in s ==> s == s - {n - 1};
    }
  }

  lemma FullCount(s: set<nat>, n: nat)
    requires forall f: nat :: f in s <==> f < n
    ensures |s| == n
  {
    if n == 0 {
      assert s == {};
    } else {
      FullCount(s - {n - 1}, n - 1);
      assert s == (s - {n - 1}) + {n - 1};
    }
  }

  /** A set as large as the range it lies in is the whole range. */
  lemma FullBelow(s: set<nat>, n: nat)
    requires (forall f :: f in s ==> f < n) && |s| == n
    ensures forall f: nat :: f < n ==> f in s
  {
    forall f: nat | f < n ensures f in s {
      if f !in s {
        CountBelow(s + {f}, n);
      }
    }
  }

  // ---------------------------------------------------------------------
  // The allocator itself
  // ---------------------------------------------------------------------

  class FrameAllocator {
    const bitmap: array<Byte>
    var totalFrames: nat
    var usedFrames: nat

    ghost predicate Shape()
      reads this
    {
      bitmap.Length == BITMAP_BYTES && totalFrames <= MAX_FRAMES
    }

    ghost function Used(): set<nat>
      requires Shape()
      reads this, bitmap
    {
      Frames(bitmap[..], totalFrames)
    }

    ghost function View(): Allocator
      requires Shape()
      reads this, bitmap
    {
      Allocator(totalFrames, Used())
    }

    /** The counter is the number of set bits below the total. */
    ghost predicate Valid()
      reads this, bitmap
    {
      Shape() && usedFrames == |Used()|
    }

    /** The static initial values: a zero bitmap under a counter of MAX_FRAMES, valid only after Init. */
    constructor ()
      ensures Shape() && fresh(bitmap)
    {
      bitmap := new Byte[BITMAP_BYTES](_ => 0);
      totalFrames := MAX_FRAMES;
      usedFrames := MAX_FRAMES;
    }

    method SetFrame(frame: nat)
      requires Valid()
      modifies this`usedFrames, bitmap
      ensures Valid()
      ensures Used() == old(Used()) + (if frame < totalFrames then {frame} else {})
    {
      if frame >= totalFrames {
        return;
      }
      FramesAfterSet(bitmap[..], totalFrames, frame);
      var cell := bitmap[frame / 8];
      if !TestBit(cell, frame % 8) {
        assert frame !in Used();
        bitmap[frame / 8] := SetBit(cell, frame % 8);
        usedFrames := usedFrames + 1;
        assert bitmap[..] == old(bitmap[..])[frame / 8 := SetBit(cell, frame % 8)];
      } else {
        assert frame in Used();
      }
    }

    method ClearFrame(frame: nat)
      requires Valid()
      modifies this`usedFrames, bitmap
      ensures Valid()
      ensures Used() == old(Used()) - {frame}
    {
      if frame >= totalFrames {
        return;
      }
      FramesAfterClear(bitmap[..], totalFrames, frame);
      var cell := bitmap[frame / 8];
      if TestBit(cell, frame % 8) {
        assert frame in Used();
        bitmap[frame / 8] := ClearBit(cell, frame % 8);
        // the test below never fails: frame is one of the used frames
        assert usedFrames > 0;
        if usedFrames > 0 {
          usedFrames := usedFrames - 1;
        }
        assert bitmap[..] == old(bitmap[..])[frame / 8 := ClearBit(cell, frame % 8)];
      } else {
        assert frame !in Used();
      }
    }

    method TestFrame(frame: nat) returns (used: bool)
      requires Valid()
      ensures used <==> frame >= totalFrames || frame in Used()
    {
      used := frame >= totalFrames || TestBit(bitmap[frame / 8], frame % 8);
    }

    /** `mark_region` changes the frames that Marks describes and no others. */
    method MarkRegion(addr: Word, len: Word, available: bool)
      requires Valid()
      modifies this`usedFrames, bitmap
      ensures Valid()
      ensures forall f: nat :: f in Used() <==>
        f < totalFrames && if Marks(f, addr, len) then !available else f in old(Used())
    {
      if len == 0 || addr >= MAX_MEMORY {
        return;
      }
      var end := Wrap64(addr + len);
      if end > MAX_MEMORY {
        end := MAX_MEMORY;
      }
      var first := addr / FRAME_SIZE;
      var last := Wrap64(end + FRAME_SIZE - 1) / FRAME_SIZE;
      forall f: nat ensures Marks(f, addr, len) <==> first <= f < last {
        MarksIsAFrameRange(addr, len, end, f);
      }
      MarkFrames(first, last, available);
    }

    method MarkFrames(first: nat, last: nat, available: bool)
      requires Valid()
      modifies this`usedFrames, bitmap
      ensures Valid()
      ensures forall g: nat :: g in Used() <==>
        g < totalFrames && if first <= g < last then !available else g in old(Used())
    {
      var f := first;
      while f < last
        invariant Valid() && first <= f && (f <= last || f == first)
        invariant forall g: nat :: g in Used() <==>
          g < totalFrames && if first <= g < f then !available else g in old(Used())
      {
        if available {
          ClearFrame(f);
        } else {
          SetFrame(f);
        }
        f := f + 1;
      }
    }

    /** First pass over the memory map. */
    static method HighestAvailableEnd(regions: seq<Region>) returns (highest: nat)
      ensures highest == HighestEnd(regions)
    {
      highest := 0x100_0000;
      for i := 0 to |regions|
        invariant highest == HighestEnd(regions[..i])
      {
        assert regions[..i + 1][..i] == regions[..i];
        assert regions[i] in regions;
        if regions[i].available {
          var candidate := Wrap64(regions[i].addr + regions[i].len);
          if candidate > highest {
            highest := candidate;
          }
        }
      }
      assert regions[..|regions|] == regions;
    }

    /** Second pass over the memory map: release every frame an available entry touches. */
    method ReleaseAvailable(regions: seq<Region>)
      requires Valid()
      requires forall f: nat :: f in Used() <==> f < totalFrames
      modifies this`usedFrames, bitmap
      ensures Valid()
      ensures forall f: nat :: f in Used() <==> f < totalFrames && !InAvailable(regions, f)
    {
      for i := 0 to |regions|
        invariant Valid()
        invariant forall f: nat :: f in Used() <==> f < totalFrames && !InAvailable(regions[..i], f)
      {
        assert regions[..i + 1] == regions[..i] + [regions[i]];
        assert regions[i] in regions;
        if regions[i].available {
          MarkRegion(regions[i].addr, regions[i].len, true);
        }
      }
      assert regions[..|regions|] == regions;
    }

    /** Rebuild the bitmap from the boot memory map and reserve low memory and the kernel image. */
    method Init(regions: seq<Region>, kernelStart: Word, kernelEnd: Word)
      requires Shape()
      requires kernelStart <= kernelEnd
      modifies this, bitmap
      ensures Valid()
      ensures totalFrames == Min(HighestEnd(regions), MAX_MEMORY) / FRAME_SIZE
      ensures forall f: nat :: f in Used() <==> f < totalFrames && !BootFree(regions, kernelStart, kernelEnd, f)
    {
      var highest := HighestAvailableEnd(regions);
      HighestEndIsMaximum(regions);
      if highest > MAX_MEMORY {
        highest := MAX_MEMORY;
      }
      var frames: int := highest / FRAME_SIZE;
      if frames == 0 {
        frames := 1;
      }
      totalFrames := frames;
      forall i | 0 <= i < bitmap.Length {
        bitmap[i] := 0xFF;
      }
      usedFrames := totalFrames;
      FullFrames(bitmap[..], totalFrames);
      ReleaseAvailable(regions);
      MarkRegion(0, 0x10_0000, false);
      MarkRegion(kernelStart, kernelEnd - kernelStart, false);
      MarksIffOverlaps(0, 0x10_0000);
      MarksIffOverlaps(kernelStart, kernelEnd - kernelStart);
    }

    method AllocFrame() returns (addr: nat)
      requires Valid()
      modifies this`usedFrames, bitmap
      ensures Valid()
      ensures (View(), addr) == AllocBelow(old(View()), totalFrames * FRAME_SIZE)
    {
      AddMultiple(totalFrames, FRAME_SIZE, 0);
      for frame := 0 to totalFrames
        invariant unchanged(this) && unchanged(bitmap)
        invariant forall g: nat :: g < frame ==> g in Used()
      {
        var busy := TestFrame(frame);
        if !busy {
          AllocStopsAt(View(), totalFrames * FRAME_SIZE, totalFrames, frame);
          SetFrame(frame);
          return frame * FRAME_SIZE;
        }
      }
      AllocFindsNothing(View(), totalFrames * FRAME_SIZE, totalFrames);
      return 0;
    }

    method AllocFrameLow(maxPhys: nat) returns (addr: nat)
      requires Valid()
      modifies this`usedFrames, bitmap
      ensures Valid()
      ensures (View(), addr) == AllocBelow(old(View()), maxPhys)
    {
      var maxFrame := maxPhys / FRAME_SIZE;
      if maxFrame > totalFrames {
        maxFrame := totalFrames;
      }
      for frame := 0 to maxFrame
        invariant unchanged(this) && unchanged(bitmap)
        invariant forall g: nat :: g < frame ==> g in Used()
      {
        var busy := TestFrame(frame);
        if !busy {
          AllocStopsAt(View(), maxPhys, maxFrame, frame);
          SetFrame(frame);
          return frame * FRAME_SIZE;
        }
      }
      AllocFindsNothing(View(), maxPhys, maxFrame);
      return 0;
    }

    method FreeFrame(addr: nat)
      requires Valid()
      modifies this`usedFrames, bitmap
      ensures Valid()
      ensures View() == Release(old(View()), addr)
    {
      ClearFrame(addr / FRAME_SIZE);
    }

    /** The three KiB counters; total is always used plus free. */
    method Kib() returns (total: nat, used: nat, free: int)
      requires Valid()
      ensures total == used + free
      ensures used == |Used()| * 4
      ensures free == 4 * (totalFrames - |Used()|)
    {
      CountBelow(Used(), totalFrames);
      assert usedFrames <= totalFrames;
      total := (totalFrames * FRAME_SIZE) / 1024;
      used := (usedFrames * FRAME_SIZE) / 1024;
      if usedFrames > totalFrames {
        free := 0;
      } else {
        free := ((totalFrames - usedFrames) * FRAME_SIZE) / 1024;
      }
    }
  }
}
