/**
 Memory bring-up: the tables of kernel/src/arch/x86_64/boot.S, then the steps
 of kernel_main (kernel/src/core/kernel.c) up to the framebuffer mapping.
 */
module Boot {
  import opened Common
  import opened Pmm
  import opened Paging
  import opened Vmm
  import opened Window
  import opened Video
  import P = PageMap

  /** Entry i of the boot page directory: 2 MiB page i, present, writable, huge. */
  function BootPd(): (p: Page)
    ensures forall i :: 0 <= i < 512 ==> p[i] == i * 0x20_0000 + 0x83
  {
    seq(512, i => if 0 <= i < 512 then i * 0x20_0000 + 0x83 else 0)
  }

  /** `pml4_table`, `pdpt_table` and `pd_table` in three consecutive frames from k. */
  function BootMemory(base: Memory, k: nat): Memory
    requires k + 2 < MAX_FRAMES
  {
    base[k := ZeroPage()[0 := (k + 1) * 0x1000 + 3]]
        [k + 1 := ZeroPage()[0 := (k + 2) * 0x1000 + 3]]
        [k + 2 := BootPd()]
  }

  lemma BootLeaf(i: nat)
    requires i < 512
    ensures
      var w: Word := i * 0x20_0000 + 0x83;
      Present(w) && Writable(w) && !User(w) && Huge(w) && !NoExec(w) && Frame2m(w) == i
  {
    P.LowBits(i, 0x83);
  }

  lemma BootIsTree(base: Memory, alloc: Allocator, k: nat)
    requires k + 2 < MAX_FRAMES && alloc.total <= MAX_FRAMES
    requires Reserved(alloc, k) && Reserved(alloc, k + 1) && Reserved(alloc, k + 2)
    ensures Tree(Machine(BootMemory(base, k), alloc, k))
    ensures forall n :: Locate(Machine(BootMemory(base, k), alloc, k), n) ==
                        match n
                        case Pml4 => Some(k)
                        case Pdpt(i) => if i == 0 then Some(k + 1) else None
                        case Pd(i, j) => if i == 0 && j == 0 then Some(k + 2) else None
  {
    var s := Machine(BootMemory(base, k), alloc, k);
    ParentEntryFields(k + 1);
    ParentEntryFields(k + 2);
    forall i: nat | i < 512 ensures Huge(BootPd()[i]) {
      BootLeaf(i);
    }
    forall n ensures Locate(s, n) ==
                     match n
                     case Pml4 => Some(k)
                     case Pdpt(i) => if i == 0 then Some(k + 1) else None
                     case Pd(i, j) => if i == 0 && j == 0 then Some(k + 2) else None
    {
    }
  }

  /** The boot tables identity-map the first GiB and nothing else. */
  lemma BootIdentity(base: Memory, alloc: Allocator, k: nat, va: nat)
    requires k + 2 < MAX_FRAMES && alloc.total <= MAX_FRAMES && va < TWO48
    requires Reserved(alloc, k) && Reserved(alloc, k + 1) && Reserved(alloc, k + 2)
    ensures Translate(BootMemory(base, k), k, va) ==
            if va < 0x4000_0000 then Some(Mapping(va, true, false, false, true, false)) else None
  {
    var s := Machine(BootMemory(base, k), alloc, k);
    BootIsTree(base, alloc, k);
    TranslateInTree(s, va);
    assert va < 0x4000_0000 <==> Pml4Index(va) == 0 && PdptIndex(va) == 0 by {
      assert va / 0x4000_0000 == Pml4Index(va) * 512 + PdptIndex(va) by {
        assert va / 0x4000_0000 / 512 == va / 0x80_0000_0000;
      }
    }
    assert Locate(s, Pd(Pml4Index(va), PdptIndex(va))) == if va < 0x4000_0000 then Some(k + 2) else None;
    if va < 0x4000_0000 {
      BootLeaf(PdIndex(va));
      assert PdIndex(va) == va / 0x20_0000;
    }
  }

  lemma BootIsIdentity(base: Memory, alloc: Allocator, k: nat)
    requires k + 2 < MAX_FRAMES && alloc.total <= MAX_FRAMES
    requires Reserved(alloc, k) && Reserved(alloc, k + 1) && Reserved(alloc, k + 2)
    ensures FirstGiBIdentity(BootMemory(base, k), k)
  {
    forall va: nat | va < 0x4000_0000
      ensures Translate(BootMemory(base, k), k, va) == Some(Mapping(va, true, false, false, true, false))
    {
      BootIdentity(base, alloc, k, va);
    }
  }

  /** Frames of the kernel image are reserved once the allocator is initialised. */
  lemma ImageIsReserved(regions: seq<Region>, kernelStart: nat, kernelEnd: nat, f: nat)
    requires kernelStart <= f * FRAME_SIZE && (f + 1) * FRAME_SIZE <= kernelEnd
    ensures !BootFree(regions, kernelStart, kernelEnd, f)
  {
  }

  /** The boot tables over a freshly initialised allocator. */
  lemma BootMachine(regions: seq<Region>, kernelStart: nat, kernelEnd: nat, k: nat, base: Memory, alloc: Allocator)
    requires kernelStart <= k * FRAME_SIZE && (k + 3) * FRAME_SIZE <= kernelEnd && k + 2 < MAX_FRAMES
    requires alloc.total <= MAX_FRAMES
    requires forall f: nat :: f in alloc.used <==> f < alloc.total && !BootFree(regions, kernelStart, kernelEnd, f)
    ensures Tree(Machine(BootMemory(base, k), alloc, k))
    ensures FirstGiBIdentity(BootMemory(base, k), k)
  {
    ImageIsReserved(regions, kernelStart, kernelEnd, k);
    ImageIsReserved(regions, kernelStart, kernelEnd, k + 1);
    ImageIsReserved(regions, kernelStart, kernelEnd, k + 2);
    BootIsTree(base, alloc, k);
    BootIsIdentity(base, alloc, k);
  }

  /**
   The run of Window.MapOverWindowLosesATable starts from the boot tables: all
   frames of the first 2 MiB and the two frames 1536 and 2048 are allocated.
   */
  lemma BootCanLoseATable(base: Memory, k: nat)
    requires k + 2 < 512 && base[1536][1] == 0x80_0003
    ensures Vulnerable(Machine(BootMemory(base, k), Allocator(MAX_FRAMES, FirstFrames() + {1536, 2048}), k))
  {
    var alloc := Allocator(MAX_FRAMES, FirstFrames() + {1536, 2048});
    var s := Machine(BootMemory(base, k), alloc, k);
    BootIsTree(base, alloc, k);
    BootIsIdentity(base, alloc, k);
    IdentityIsOpen(s);
    assert !P.IsTable(s, 1536) && !P.IsTable(s, 2048);
  }

  predicate InFirstPage(f: nat) { f < 512 }

  ghost function FirstFrames(): set<nat> {
    set f: nat | f < 512 && InFirstPage(f)
  }

  // ---------------------------------------------------------------------
  // How many frames bring-up needs
  // ---------------------------------------------------------------------

  /** The frames that `pmm_init` leaves free. */
  ghost function FreeAtBoot(regions: seq<Region>, kernelStart: nat, kernelEnd: nat): set<nat>
    requires kernelStart <= kernelEnd
  {
    set f: nat | f < Min(HighestEnd(regions), MAX_MEMORY) / FRAME_SIZE && BootFree(regions, kernelStart, kernelEnd, f)
  }

  /** The tables of boot.S. */
  const BOOT_TABLES: set<Node> := {Pml4, Pdpt(0), Pd(0, 0)}

  /** The boot tables, and the one that `vmm_init` adds when any frame is free. */
  ghost function TablesAfterInit(free: set<nat>): set<Node> {
    BOOT_TABLES + if free == {} then {} else {Pd(0, 1)}
  }

  /** The machine that `vmm_init` leaves behind, with that many frames free before it. */
  ghost predicate AfterInit(s: Machine, free: set<nat>) {
    && P.WithinTotal(s.alloc) && 0 in s.alloc.used
    && |s.alloc.used| + |free| == s.alloc.total + (if free == {} then 0 else 1)
    && forall n {:trigger Locate(s, n)} :: Locate(s, n).Some? <==> n in TablesAfterInit(free)
  }

  /** The tables can all be had: none is missing, or there is a frame for each and for the one of `vmm_init`. */
  ghost predicate Enough(free: set<nat>, tables: set<Node>) {
    tables <= BOOT_TABLES || |tables - BOOT_TABLES + {Pd(0, 1)}| <= |free|
  }

  /** Before `vmm_init`: the boot tables, and every frame that is not free in use. */
  lemma AllocatorAtBoot(regions: seq<Region>, kernelStart: nat, kernelEnd: nat, alloc: Allocator)
    requires kernelStart <= kernelEnd
    requires alloc.total == Min(HighestEnd(regions), MAX_MEMORY) / FRAME_SIZE
    requires forall f: nat :: f in alloc.used <==> f < alloc.total && !BootFree(regions, kernelStart, kernelEnd, f)
    ensures P.WithinTotal(alloc) && 0 in alloc.used
    ensures |alloc.used| + |FreeAtBoot(regions, kernelStart, kernelEnd)| == alloc.total
  {
    HighestEndIsMaximum(regions);
    var free := FreeAtBoot(regions, kernelStart, kernelEnd);
    assert alloc.used !! free;
    FullCount(alloc.used + free, alloc.total);
  }

  /** `vmm_init` succeeds exactly when some frame is free. */
  lemma InitNeedsOneFrame(s: Machine, t: Machine, free: set<nat>, ok: bool)
    requires P.WithinTotal(s.alloc) && 0 in s.alloc.used && |s.alloc.used| + |free| == s.alloc.total
    requires forall n :: Locate(s, n).Some? <==> n in BOOT_TABLES
    requires P.WithinTotal(t.alloc) && Extended(s, t, 0x4000_0000, ok)
    requires ok <==> P.HasRoom(s, {Pdpt(0), Pd(0, 1)})
    ensures ok <==> free != {}
    ensures AfterInit(t, free)
  {
    assert P.Path(0x4000_0000) == {Pdpt(0), Pd(0, 1)};
    assert P.Missing(s, {Pdpt(0), Pd(0, 1)}) == {Pd(0, 1)};
    assert P.Missing(s, {Pdpt(0)}) == {} && P.Missing(s, {}) == {};
    if free == {} {
      assert t.alloc.used == s.alloc.used by {
        P.SubsetSize(s.alloc.used, t.alloc.used);
        FullBelow(s.alloc.used, s.alloc.total);
      }
    }
  }

  lemma RoomAfterInit(s: Machine, free: set<nat>, tables: set<Node>)
    requires AfterInit(s, free)
    ensures P.HasRoom(s, tables) <==> Enough(free, tables)
  {
    var needed := tables - BOOT_TABLES;
    if free == {} {
      assert P.Missing(s, tables) == needed;
      if needed != {} {
        P.SubsetSize(needed, needed + {Pd(0, 1)});
      }
    } else {
      assert P.Missing(s, tables) == needed - {Pd(0, 1)};
      assert needed + {Pd(0, 1)} == P.Missing(s, tables) + {Pd(0, 1)};
    }
  }

  /** Five free frames are enough for any framebuffer that is accepted. */
  lemma FiveFramesAreEnough(free: set<nat>, info: Framebuffer)
    requires Accepted(info) && |free| >= 5
    ensures Enough(free, FramebufferTables(info))
  {
    AcceptedNeverWrapped(info);
    var tables := FramebufferTables(info);
    AtMostFourTables(MapStart(info) / HUGE_PAGE, MapEnd(info) / HUGE_PAGE);
    P.SubsetSize(tables - BOOT_TABLES, tables);
  }

  // ---------------------------------------------------------------------
  // Bring-up
  // ---------------------------------------------------------------------

  /** The 2 MiB right above the first GiB. */
  ghost predicate Extra(mem: Memory, root: nat, mapped: bool) {
    forall va {:trigger Translate(mem, root, va)} :: 0x4000_0000 <= va < 0x4020_0000 ==>
      Translate(mem, root, va) == if mapped then Some(Mapping(va, true, false, false, true, false)) else None
  }

  lemma NothingExtraAtBoot(base: Memory, alloc: Allocator, k: nat)
    requires k + 2 < MAX_FRAMES && alloc.total <= MAX_FRAMES
    requires Reserved(alloc, k) && Reserved(alloc, k + 1) && Reserved(alloc, k + 2)
    ensures Extra(BootMemory(base, k), k, false)
    ensures forall n :: Locate(Machine(BootMemory(base, k), alloc, k), n).Some? <==> n in BOOT_TABLES
  {
    BootIsTree(base, alloc, k);
    forall va: nat | 0x4000_0000 <= va < 0x4020_0000 ensures Translate(BootMemory(base, k), k, va) == None {
      BootIdentity(base, alloc, k, va);
    }
  }

  /**
   `pmm_init` then `vmm_init`, from boot tables that lie inside the kernel
   image: the page above the first GiB is added if and only if the memory map
   leaves any frame free.
   */
  method InitPaging(regions: seq<Region>, kernelStart: Word, kernelEnd: Word, k: nat, base: Memory)
    returns (vmm: PageMapper)
    requires kernelStart <= k * FRAME_SIZE && (k + 3) * FRAME_SIZE <= kernelEnd && k + 2 < MAX_FRAMES
    ensures vmm.Valid() && fresh(vmm) && fresh(vmm.pmm) && fresh(vmm.pmm.bitmap)
    ensures FirstGiBIdentity(vmm.mem, vmm.root)
    ensures Extra(vmm.mem, vmm.root, FreeAtBoot(regions, kernelStart, kernelEnd) != {})
    ensures AfterInit(vmm.View(), FreeAtBoot(regions, kernelStart, kernelEnd))
  {
    var pmm := new FrameAllocator();
    pmm.Init(regions, kernelStart, kernelEnd);
    vmm := new PageMapper(pmm, k, BootMemory(base, k));
    BootMachine(regions, kernelStart, kernelEnd, k, base, pmm.View());
    IdentityIsOpen(vmm.View());
    AllocatorAtBoot(regions, kernelStart, kernelEnd, pmm.View());
    NothingExtraAtBoot(base, pmm.View(), k);
    ghost var s := vmm.View();
    var extended := vmm.Init();
    InitNeedsOneFrame(s, vmm.View(), FreeAtBoot(regions, kernelStart, kernelEnd), extended);
  }

  /**
   The framebuffer mapping on a machine that `vmm_init` has left: unless the
   range folds, it succeeds exactly when the description is accepted and
   there are enough frames for the tables.
   */
  method MapScreen(vmm: PageMapper, info: Framebuffer, ghost free: set<nat>)
    returns (driver: FramebufferDriver, r: Outcome<bool>)
    requires vmm.Valid() && FirstGiBIdentity(vmm.mem, vmm.root) && AfterInit(vmm.View(), free)
    modifies vmm`mem, vmm.pmm`usedFrames, vmm.pmm.bitmap
    ensures driver.vmm == vmm
    ensures !(Accepted(info) && FoldsOntoFirstGiB(MapStart(info), MapEnd(info))) ==>
              && r.Done? && vmm.Valid() && FirstGiBIdentity(vmm.mem, vmm.root)
              && (r.value <==> Accepted(info) && Enough(free, FramebufferTables(info)))
              && (r.value ==> FramebufferReachable(vmm.mem, vmm.root, info))
  {
    driver := new FramebufferDriver(vmm, info);
    ghost var before := vmm.mem;
    RoomAfterInit(vmm.View(), free, if Accepted(info) then FramebufferTables(info) else {});
    ghost var stop, closed;
    r, stop, closed := driver.MapFramebuffer();
    if Accepted(info) && !FoldsOntoFirstGiB(MapStart(info), MapEnd(info)) {
      assert closed.None?;
      FirstGiBSurvives(before, vmm.mem, vmm.root, info, stop);
      if r.value {
        MappedFramebufferIsReachable(before, vmm.mem, vmm.root, info);
      }
    }
  }

  /**
   Memory bring-up in kernel_main's order. Unless the range folds, the
   framebuffer gets mapped if and only if its description is accepted and the
   memory map leaves enough frames for the tables.
   */
  method BringUp(regions: seq<Region>, kernelStart: Word, kernelEnd: Word, k: nat, base: Memory, info: Framebuffer)
    returns (vmm: PageMapper, driver: FramebufferDriver, r: Outcome<bool>)
    requires kernelStart <= k * FRAME_SIZE && (k + 3) * FRAME_SIZE <= kernelEnd && k + 2 < MAX_FRAMES
    ensures driver.vmm == vmm
    ensures !(Accepted(info) && FoldsOntoFirstGiB(MapStart(info), MapEnd(info))) ==>
              && r.Done? && vmm.Valid() && FirstGiBIdentity(vmm.mem, vmm.root)
              && (r.value <==>
                    Accepted(info) && Enough(FreeAtBoot(regions, kernelStart, kernelEnd), FramebufferTables(info)))
              && (r.value ==> FramebufferReachable(vmm.mem, vmm.root, info))
  {
    vmm := InitPaging(regions, kernelStart, kernelEnd, k, base);
    driver, r := MapScreen(vmm, info, FreeAtBoot(regions, kernelStart, kernelEnd));
  }
}
