/** The page mapper as it runs (kernel/src/core/vmm.c): tables edited in place, through the tables themselves. */
module Vmm {
  import opened Common
  import opened Pmm
  import opened Paging
  import opened Window
  import P = PageMap

  /** The tables that a call has added: all that were missing on success, at most the first on failure. */
  ghost predicate Extended(s: Machine, t: Machine, virt: Word, ok: bool) {
    if ok then P.Grown(s, t, P.Path(virt))
    else 0 in s.alloc.used ==> P.Grown(s, t, {}) || P.Grown(s, t, {Pdpt(Pml4Index(virt))})
  }

  class PageMapper {
    const pmm: FrameAllocator
    /** The frame of `pml4_table`. */
    const root: nat
    var mem: Memory

    ghost function View(): Machine
      requires pmm.Shape()
      reads this, pmm, pmm.bitmap
    {
      Machine(mem, pmm.View(), root)
    }

    /** The tables are a tree and can be reached. */
    ghost predicate Valid()
      reads this, pmm, pmm.bitmap
    {
      pmm.Valid() && Tree(View()) && Open(View())
    }

    constructor (pmm: FrameAllocator, root: nat, mem: Memory)
      ensures this.pmm == pmm && this.root == root && this.mem == mem
    {
      this.pmm := pmm;
      this.root := root;
      this.mem := mem;
    }

    /** A store to a linear address; false when it faults. */
    method Put(la: nat, w: Word) returns (ok: bool)
      modifies this`mem
      ensures Store(old(mem), root, la, w) == if ok then Done(mem) else Fault
      ensures !ok ==> mem == old(mem)
    {
      var after := Store(mem, root, la, w);
      ok := after.Done?;
      if ok {
        mem := after.value;
      }
    }

    /** `memset(frame, 0, 4096)`, a word at a time. */
    method ClearTable(frame: nat) returns (ok: bool)
      modifies this`mem
      ensures Zero(old(mem), root, frame, frame + FRAME_SIZE) == if ok then Done(mem) else Fault
    {
      var la := frame;
      while la < frame + FRAME_SIZE
        invariant Zero(old(mem), root, frame, frame + FRAME_SIZE) == Zero(mem, root, la, frame + FRAME_SIZE)
      {
        var stored := Put(la, 0);
        if !stored {
          return false;
        }
        la := la + 8;
      }
      return true;
    }

    /** The table under slot index of the table at linear address parent; Fault when an access faulted. */
    method EnsureTable(parent: nat, index: nat) returns (child: Outcome<Option<nat>>)
      requires pmm.Valid()
      modifies this`mem, pmm`usedFrames, pmm.bitmap
      ensures pmm.Valid() && pmm.totalFrames == old(pmm.totalFrames)
      ensures EnsureTableAt(old(View()), parent, index) == if child.Done? then Done((View(), child.value)) else Fault
    {
      var entry := Load(mem, root, parent + 8 * index);
      if entry.Fault? {
        return Fault;
      }
      if !Present(entry.value) {
        var frame := pmm.AllocFrameLow(P.IDENTITY_WINDOW_LIMIT);
        if frame == 0 {
          return Done(None);
        }
        child := Install(parent, index, frame);
      } else {
        child := Done(Some(Frame(entry.value) * 0x1000));
      }
    }

    method Install(parent: nat, index: nat, frame: nat) returns (child: Outcome<Option<nat>>)
      requires pmm.Valid()
      modifies this`mem
      ensures InstallAt(old(View()), parent, index, frame) == if child.Done? then Done((View(), child.value)) else Fault
    {
      var cleared := ClearTable(frame);
      if !cleared {
        return Fault;
      }
      var linked := Put(parent + 8 * index, Wrap64(frame + 3));
      if !linked {
        return Fault;
      }
      var entry := Load(mem, root, parent + 8 * index);
      if entry.Fault? {
        return Fault;
      }
      return Done(Some(Frame(entry.value) * 0x1000));
    }

    /**
     Map one 2 MiB page. From a tree with its window open it succeeds exactly
     when both addresses are aligned and every missing table can get a frame;
     success is a functional update of the walk, failure no change of it, and
     the window stays open exactly when the page keeps it. From any other
     state nothing is promised; MapSteps says what happens then.
     */
    method Map2m(virt: Word, phys: Word, flags: Word) returns (r: Outcome<bool>)
      requires pmm.Valid()
      modifies this`mem, pmm`usedFrames, pmm.bitmap
      ensures pmm.Valid() && pmm.totalFrames == old(pmm.totalFrames)
      ensures old(Valid()) ==>
        && r.Done? && Tree(View())
        && (r.value <==> virt % 0x20_0000 == 0 && phys % 0x20_0000 == 0 && P.HasRoom(old(View()), P.Path(virt)))
        && Extended(old(View()), View(), virt, r.value)
        && (Open(View()) <==> !r.value || KeepsWindow(virt, phys, flags))
        && (if r.value then P.MapsPage(old(mem), mem, root, virt, phys, flags) else P.SameWalk(old(mem), mem, root))
    {
      ghost var s := View();
      r := MapSteps(virt, phys, flags);
      if Tree(s) && Open(s) {
        MapIsPhysical(s, virt, phys, flags);
        P.MapIsUpdate(s, virt, phys, flags);
        P.MapGrows(s, virt, phys, flags);
        WindowAfterMap(s, virt, phys, flags);
      }
    }

    /** The accesses of `vmm_map_2m` in their order, from any state. */
    method MapSteps(virt: Word, phys: Word, flags: Word) returns (r: Outcome<bool>)
      requires pmm.Valid()
      modifies this`mem, pmm`usedFrames, pmm.bitmap
      ensures pmm.Valid() && pmm.totalFrames == old(pmm.totalFrames)
      ensures MapAt(old(View()), virt, phys, flags) == if r.Done? then Done((View(), r.value)) else Fault
    {
      if virt % 0x20_0000 != 0 || phys % 0x20_0000 != 0 {
        return Done(false);
      }
      var entry := LeafWord(phys, flags);
      var pdpt := EnsureTable(root * FRAME_SIZE, Pml4Index(virt));
      if pdpt.Fault? {
        return Fault;
      }
      if pdpt.value.None? {
        return Done(false);
      }
      var pd := EnsureTable(pdpt.value.value, PdptIndex(virt));
      if pd.Fault? {
        return Fault;
      }
      if pd.value.None? {
        return Done(false);
      }
      var stored := Put(pd.value.value + 8 * PdIndex(virt), entry);
      return if stored then Done(true) else Fault;
    }

    /** The entry for a 2 MiB page, flag by flag. */
    static method LeafWord(phys: Word, flags: Word) returns (w: Word)
      ensures w == P.LeafEntry(phys, flags)
    {
      var entry := 0x81;
      if Writable(flags) {
        entry := entry + 2;
      }
      if User(flags) {
        entry := entry + 4;
      }
      if NoExec(flags) {
        entry := entry + 0x8000_0000_0000_0000;
      }
      w := phys / 0x20_0000 % 0x8000_0000 * 0x20_0000 + entry;
    }

    /** `vmm_init`: one more identity-mapped 2 MiB page right above the first GiB, whenever there is room for its tables. */
    method Init() returns (ok: bool)
      requires Valid()
      modifies this`mem, pmm`usedFrames, pmm.bitmap
      ensures Valid()
      ensures ok <==> P.HasRoom(old(View()), {Pdpt(0), Pd(0, 1)})
      ensures Extended(old(View()), View(), 0x4000_0000, ok)
      ensures forall va {:trigger Translate(mem, root, va)} :: 0 <= va < TWO48 ==>
        Translate(mem, root, va) ==
        if ok && 0x4000_0000 <= va < 0x4020_0000
        then Some(Mapping(va, true, false, false, true, false)) else Translate(old(mem), root, va)
    {
      var r := Map2m(0x4000_0000, 0x4000_0000, 2);
      ok := r.value;
      forall va: nat | va < TWO48
        ensures P.SamePage(0x4000_0000, va) <==> 0x4000_0000 <= va < 0x4020_0000
        ensures P.SamePage(0x4000_0000, va) ==>
                  P.Installed(0x4000_0000, 2, va) == Mapping(va, true, false, false, true, false)
      {
        ExtraPage(va);
      }
    }
  }

  /** The page that `vmm_init` adds. */
  lemma ExtraPage(va: nat)
    requires va < TWO48
    ensures P.SamePage(0x4000_0000, va) <==> 0x4000_0000 <= va < 0x4020_0000
    ensures P.SamePage(0x4000_0000, va) ==>
              P.Installed(0x4000_0000, 2, va) == Mapping(va, true, false, false, true, false)
  {
  }
}
