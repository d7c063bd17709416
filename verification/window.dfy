/**
 The page mapper as the processor runs it. kernel/src/core/vmm.c turns a
 physical table address into a pointer by a cast, so every access to a table
 is itself translated by the tables being edited.
 */
module Window {
  import opened Common
  import opened Pmm
  import opened Paging
  import opened PageMap

  // ---------------------------------------------------------------------
  // Linear accesses
  // ---------------------------------------------------------------------

  /** A page fault, or an access that leaves the modelled memory, ends what the model follows. */
  datatype Outcome<+T> = Fault | Done(value: T)

  /** Where a linear address leads; addresses from 2^47 on are not canonical. */
  function Resolve(mem: Memory, root: nat, la: nat): Option<Mapping> {
    if la >= TWO47 then None else
    match Translate(mem, root, la)
    case None => None
    case Some(m) => if m.phys < MAX_MEMORY then Some(m) else None
  }

  function Load(mem: Memory, root: nat, la: nat): Outcome<Word> {
    match Resolve(mem, root, la)
    case None => Fault
    case Some(m) => Done(mem[m.phys / FRAME_SIZE][m.phys % FRAME_SIZE / 8])
  }

  function Store(mem: Memory, root: nat, la: nat, w: Word): Outcome<Memory> {
    match Resolve(mem, root, la)
    case None => Fault
    case Some(m) =>
      if m.writable && m.pathWritable
      then Done(mem[m.phys / FRAME_SIZE := mem[m.phys / FRAME_SIZE][m.phys % FRAME_SIZE / 8 := w]])
      else Fault
  }

  /** `memset` with zero of [la, end), word by word; each store goes through the tables as they are then. */
  function Zero(mem: Memory, root: nat, la: nat, end: nat): Outcome<Memory>
    decreases end - la
  {
    if la >= end then Done(mem) else
    match Store(mem, root, la, 0)
    case Fault => Fault
    case Done(m) => Zero(m, root, la + 8, end)
  }

  /** `ensure_table` on the table at linear address parent; the child is an address too. */
  function EnsureTableAt(s: Machine, parent: nat, index: nat): Outcome<(Machine, Option<nat>)> {
    match Load(s.mem, s.root, parent + 8 * index)
    case Fault => Fault
    case Done(w) =>
      if Present(w) then Done((s, Some(Frame(w) * 0x1000))) else
      var (a, addr) := AllocBelow(s.alloc, IDENTITY_WINDOW_LIMIT);
      if addr == 0 then Done((s.(alloc := a), None)) else
      InstallAt(s.(alloc := a), parent, index, addr)
  }

  /** Zero the new table, link it, and read the link back. */
  function InstallAt(s: Machine, parent: nat, index: nat, addr: nat): Outcome<(Machine, Option<nat>)> {
    match Zero(s.mem, s.root, addr, addr + FRAME_SIZE)
    case Fault => Fault
    case Done(zeroed) =>
      match Store(zeroed, s.root, parent + 8 * index, Wrap64(addr + 3))
      case Fault => Fault
      case Done(linked) =>
        match Load(linked, s.root, parent + 8 * index)
        case Fault => Fault
        case Done(w) => Done((s.(mem := linked), Some(Frame(w) * 0x1000)))
  }

  /** `vmm_map_2m`, access by access. */
  function MapAt(s: Machine, virt: Word, phys: Word, flags: Word): Outcome<(Machine, bool)> {
    if !Aligned(virt, phys) then Done((s, false)) else
    PutLeafAt(s, Pml4Index(virt), PdptIndex(virt), PdIndex(virt), LeafEntry(phys, flags))
  }

  function PutLeafAt(s: Machine, i: nat, j: nat, k: nat, w: Word): Outcome<(Machine, bool)> {
    match EnsureTableAt(s, s.root * FRAME_SIZE, i)
    case Fault => Fault
    case Done((s1, None)) => Done((s1, false))
    case Done((s1, Some(pdpt))) => PutInPdptAt(s1, pdpt, j, k, w)
  }

  function PutInPdptAt(s: Machine, pdpt: nat, j: nat, k: nat, w: Word): Outcome<(Machine, bool)> {
    match EnsureTableAt(s, pdpt, j)
    case Fault => Fault
    case Done((t, None)) => Done((t, false))
    case Done((t, Some(pd))) => SetLeafAt(t, pd, k, w)
  }

  function SetLeafAt(s: Machine, pd: nat, k: nat, w: Word): Outcome<(Machine, bool)> {
    match Store(s.mem, s.root, pd + 8 * k, w)
    case Fault => Fault
    case Done(m) => Done((s.(mem := m), true))
  }

  // ---------------------------------------------------------------------
  // The window through which the tables are reached
  // ---------------------------------------------------------------------

  /** Data accesses to linear address x reach physical address x. */
  predicate Reaches(t: Option<Mapping>, x: nat) {
    t.Some? && t.value.phys == x && t.value.writable && t.value.pathWritable
  }

  /** The identity window is open: the whole first GiB reaches itself. */
  ghost predicate Open(s: Machine) {
    forall va {:trigger Translate(s.mem, s.root, va)} :: 0 <= va < 0x4000_0000 ==>
      Reaches(Translate(s.mem, s.root, va), va)
  }

  /** Data accesses to frame f of the linear space reach physical frame g. */
  ghost predicate Leads(s: Machine, f: nat, g: nat) {
    f < MAX_FRAMES && g < MAX_FRAMES &&
    forall va {:trigger Translate(s.mem, s.root, va)} :: f * FRAME_SIZE <= va < f * FRAME_SIZE + FRAME_SIZE ==>
      Reaches(Translate(s.mem, s.root, va), va - f * FRAME_SIZE + g * FRAME_SIZE)
  }

  lemma ResolveVia(s: Machine, f: nat, g: nat, i: nat)
    requires Leads(s, f, g) && i < 512
    ensures Reaches(Resolve(s.mem, s.root, f * FRAME_SIZE + 8 * i), g * FRAME_SIZE + 8 * i)
  {
    var la := f * FRAME_SIZE + 8 * i;
    assert Reaches(Translate(s.mem, s.root, la), g * FRAME_SIZE + 8 * i);
  }

  /** A load goes to the frame its linear frame leads to, */
  lemma LoadVia(s: Machine, f: nat, g: nat, i: nat)
    requires Leads(s, f, g) && i < 512
    ensures Load(s.mem, s.root, f * FRAME_SIZE + 8 * i) == Done(s.mem[g][i])
  {
    ResolveVia(s, f, g, i);
    DivModUnique(g, FRAME_SIZE, 8 * i);
  }

  /** and so does a store, which changes one word and nothing else. */
  lemma StoreVia(s: Machine, f: nat, g: nat, i: nat, w: Word)
    requires Leads(s, f, g) && i < 512
    ensures Store(s.mem, s.root, f * FRAME_SIZE + 8 * i, w) == Done(s.mem[g := s.mem[g][i := w]])
  {
    ResolveVia(s, f, g, i);
    DivModUnique(g, FRAME_SIZE, 8 * i);
  }

  /** Through an open window a linear access to a table word is the access to that word. */
  lemma OpenLeads(s: Machine, f: nat)
    requires Open(s) && f < MAX_FRAMES
    ensures Leads(s, f, f)
  {
  }

  lemma SameTranslationsSameWindow(s: Machine, t: Machine)
    requires Open(s)
    requires forall va: nat :: va < 0x4000_0000 ==> Translate(t.mem, t.root, va) == Translate(s.mem, s.root, va)
    ensures Open(t)
  {
  }

  /** A frame that is no table can hold anything: shape, tables and walk do not depend on it. */
  lemma OtherFramesDoNotMatter(s: Machine, c: nat, page: Page)
    requires Tree(s) && c < MAX_FRAMES && !IsTable(s, c)
    ensures
      var t := s.(mem := s.mem[c := page]);
      && Tree(t)
      && (forall n :: Locate(t, n) == Locate(s, n))
      && (forall va: nat :: Translate(t.mem, t.root, va) == Translate(s.mem, s.root, va))
      && (Open(s) ==> Open(t))
  {
    var t := s.(mem := s.mem[c := page]);
    assert Locate(s, Pml4) == Some(s.root);
    forall n ensures Locate(t, n) == Locate(s, n) {
      match n {
        case Pml4 =>
        case Pdpt(i) =>
        case Pd(i, j) =>
          assert Locate(s, Pdpt(i)) == Target(s.mem, s.root, i);
      }
    }
    assert forall n :: Locate(s, n).Some? ==> t.mem[Locate(s, n).value] == s.mem[Locate(s, n).value];
    forall va: nat ensures Translate(t.mem, t.root, va) == Translate(s.mem, s.root, va) {
      TranslateInTree(s, va);
      TranslateInTree(t, va);
      assert Locate(t, Pd(Pml4Index(va), PdptIndex(va))) == Locate(s, Pd(Pml4Index(va), PdptIndex(va)));
    }
  }

  lemma OverwritePage(m: Memory, c: nat, p: Page, q: Page)
    requires c < MAX_FRAMES
    ensures m[c := p][c := q] == m[c := q]
    ensures m[c] == q ==> m[c := q] == m
  {
  }

  /** One store into a frame that is no table leaves the window open for the next one. */
  lemma ScratchStore(s: Machine, c: nat, i: nat)
    requires Tree(s) && Open(s) && c < MAX_FRAMES && !IsTable(s, c) && i < 512
    ensures
      var page: Page := s.mem[c][i := 0];
      var t := s.(mem := s.mem[c := page]);
      && Store(s.mem, s.root, c * FRAME_SIZE + 8 * i, 0) == Done(t.mem)
      && Tree(t) && Open(t) && !IsTable(t, c)
  {
    OpenLeads(s, c);
    StoreVia(s, c, c, i, 0);
    OtherFramesDoNotMatter(s, c, s.mem[c][i := 0]);
  }

  /** Zeroing a frame that is no table through the window zeroes that frame. */
  lemma {:induction false} ZeroIsPhysical(s: Machine, c: nat, i: nat)
    requires Tree(s) && Open(s) && c < MAX_FRAMES && !IsTable(s, c) && i <= 512
    requires forall k :: 0 <= k < i ==> s.mem[c][k] == 0
    ensures Zero(s.mem, s.root, c * FRAME_SIZE + 8 * i, c * FRAME_SIZE + FRAME_SIZE) == Done(s.mem[c := ZeroPage()])
    decreases 512 - i
  {
    if i == 512 {
      assert s.mem[c] == ZeroPage();
      OverwritePage(s.mem, c, s.mem[c], ZeroPage());
    } else {
      ScratchStore(s, c, i);
      var page: Page := s.mem[c][i := 0];
      var t := s.(mem := s.mem[c := page]);
      ZeroIsPhysical(t, c, i + 1);
      OverwritePage(s.mem, c, page, ZeroPage());
    }
  }

  /** An address of a table as a result of ensure_table. */
  function Address(c: Option<nat>): Option<nat> {
    match c
    case None => None
    case Some(f) => Some(f * 0x1000)
  }

  /** Linking a zeroed table keeps the window open. */
  lemma EnsureTableKeepsWindow(s: Machine, n: Node, index: nat)
    requires Tree(s) && Open(s) && !n.Pd? && Locate(s, n).Some? && index < 512
    ensures Open(EnsureTable(s, Locate(s, n).value, index).0)
  {
    var t := EnsureTable(s, Locate(s, n).value, index).0;
    forall va: nat | va < 0x4000_0000 ensures Translate(t.mem, t.root, va) == Translate(s.mem, s.root, va) {
      EnsureTableKeepsTranslation(s, n, index, va);
    }
    SameTranslationsSameWindow(s, t);
  }

  predicate ReadsBack(mem: Memory, root: nat, la: nat, c: nat) {
    Load(mem, root, la).Done? && Frame(Load(mem, root, la).value) == c
  }

  lemma LinkStores(s: Machine, f: nat, index: nat, c: nat)
    requires f < MAX_FRAMES && c < MAX_FRAMES && index < 512 && Open(s)
    ensures Store(s.mem, s.root, f * FRAME_SIZE + 8 * index, Wrap64(c * FRAME_SIZE + 3))
         == Done(s.mem[f := s.mem[f][index := c * 0x1000 + 3]])
  {
    assert Wrap64(c * FRAME_SIZE + 3) == c * 0x1000 + 3;
    OpenLeads(s, f);
    StoreVia(s, f, f, index, c * 0x1000 + 3);
  }

  lemma LinkReadsBack(s: Machine, f: nat, index: nat, c: nat)
    requires f < MAX_FRAMES && c < MAX_FRAMES && index < 512 && Open(s)
    requires s.mem[f][index] == c * 0x1000 + 3
    ensures ReadsBack(s.mem, s.root, f * FRAME_SIZE + 8 * index, c)
  {
    OpenLeads(s, f);
    LoadVia(s, f, f, index);
    ParentEntryFields(c);
  }

  lemma InstallSteps(s: Machine, parent: nat, index: nat, addr: nat, zeroed: Memory, linked: Memory, c: nat)
    requires Zero(s.mem, s.root, addr, addr + FRAME_SIZE) == Done(zeroed)
    requires Store(zeroed, s.root, parent + 8 * index, Wrap64(addr + 3)) == Done(linked)
    requires ReadsBack(linked, s.root, parent + 8 * index, c)
    ensures InstallAt(s, parent, index, addr) == Done((s.(mem := linked), Some(c * 0x1000)))
  {
  }

  lemma ZeroKeepsWindow(s: Machine, c: nat)
    requires Tree(s) && Open(s) && c < MAX_FRAMES && !IsTable(s, c)
    ensures Zero(s.mem, s.root, c * FRAME_SIZE, c * FRAME_SIZE + FRAME_SIZE) == Done(s.mem[c := ZeroPage()])
    ensures Open(s.(mem := s.mem[c := ZeroPage()]))
  {
    ZeroIsPhysical(s, c, 0);
    OtherFramesDoNotMatter(s, c, ZeroPage());
  }

  /** The accesses that install a table, seen on physical memory. */
  lemma InstallIsPhysical(s: Machine, a: Allocator, f: nat, index: nat, c: nat, zeroed: Memory, linked: Memory)
    requires f < MAX_FRAMES && c < MAX_FRAMES && index < 512
    requires Tree(s) && Open(s) && !IsTable(s, c)
    requires zeroed == s.mem[c := ZeroPage()] && linked == zeroed[f := zeroed[f][index := c * 0x1000 + 3]]
    requires Open(s.(mem := linked))
    ensures InstallAt(s.(alloc := a), f * FRAME_SIZE, index, c * FRAME_SIZE)
         == Done((s.(alloc := a, mem := linked), Some(c * 0x1000)))
  {
    ZeroKeepsWindow(s, c);
    LinkStores(s.(mem := zeroed), f, index, c);
    LinkReadsBack(s.(mem := linked), f, index, c);
    InstallSteps(s.(alloc := a), f * FRAME_SIZE, index, c * FRAME_SIZE, zeroed, linked, c);
  }

  lemma EnsureTableIsPhysical(s: Machine, n: Node, index: nat)
    requires Tree(s) && Open(s) && !n.Pd? && Locate(s, n).Some? && index < 512
    ensures
      var f := Locate(s, n).value;
      var (t, c) := EnsureTable(s, f, index);
      EnsureTableAt(s, f * FRAME_SIZE, index) == Done((t, Address(c)))
  {
    var f := Locate(s, n).value;
    var (t, c) := EnsureTable(s, f, index);
    OpenLeads(s, f);
    LoadVia(s, f, f, index);
    if !Present(s.mem[f][index]) {
      EnsureTablePages(s, f, index);
      AllocTakesLowestFree(s.alloc, IDENTITY_WINDOW_LIMIT);
      if c.Some? {
        EnsureTableKeepsWindow(s, n, index);
        assert !IsTable(s, c.value);
        InstallIsPhysical(s, t.alloc, f, index, c.value, s.mem[c.value := ZeroPage()], t.mem);
      }
    }
  }

  /** One `ensure_table` through the open window, which stays open. */
  lemma EnsureTableThroughWindow(s: Machine, n: Node, index: nat)
    requires Tree(s) && Open(s) && !n.Pd? && Locate(s, n).Some? && index < 512
    ensures
      var f := Locate(s, n).value;
      var (t, c) := EnsureTable(s, f, index);
      && EnsureTableAt(s, f * FRAME_SIZE, index) == Done((t, Address(c)))
      && Tree(t) && Open(t)
      && (c.Some? ==> Locate(t, Child(n, index)) == c && c.value < MAX_FRAMES)
  {
    EnsureTableIsPhysical(s, n, index);
    EnsureTableKeepsTree(s, n, index);
    EnsureTableKeepsWindow(s, n, index);
  }

  /** Making room for a table never changes a translation. */
  lemma EnsureTableChangesNoTranslation(s: Machine, n: Node, index: nat, va: nat)
    requires Tree(s) && Open(s) && !n.Pd? && Locate(s, n).Some? && index < 512
    ensures
      var r := EnsureTableAt(s, Locate(s, n).value * FRAME_SIZE, index);
      r.Done? && Translate(r.value.0.mem, r.value.0.root, va) == Translate(s.mem, s.root, va)
  {
    EnsureTableIsPhysical(s, n, index);
    EnsureTableKeepsTranslation(s, n, index, va);
  }

  lemma PutInPdptIsPhysical(s: Machine, i: nat, j: nat, k: nat, w: Word)
    requires Tree(s) && Open(s) && Locate(s, Pdpt(i)).Some? && j < 512 && k < 512
    ensures
      var pdpt := Locate(s, Pdpt(i)).value;
      PutInPdptAt(s, pdpt * FRAME_SIZE, j, k, w) == Done(PutInPdpt(s, pdpt, j, k, w))
  {
    EnsureTableThroughWindow(s, Pdpt(i), j);
    var (t, pd) := EnsureTable(s, Locate(s, Pdpt(i)).value, j);
    if pd.Some? {
      OpenLeads(t, pd.value);
      StoreVia(t, pd.value, pd.value, k, w);
    }
  }

  lemma PutLeafIsPhysical(s: Machine, i: nat, j: nat, k: nat, w: Word)
    requires Tree(s) && Open(s) && i < 512 && j < 512 && k < 512
    ensures PutLeafAt(s, i, j, k, w) == Done(PutLeaf(s, i, j, k, w))
  {
    assert Locate(s, Pml4) == Some(s.root);
    EnsureTableThroughWindow(s, Pml4, i);
    var (s1, pdpt) := EnsureTable(s, s.root, i);
    if pdpt.Some? {
      PutInPdptIsPhysical(s1, i, j, k, w);
    }
  }

  /** With the window open the code does to the machine what the physical transformation says. */
  lemma MapIsPhysical(s: Machine, virt: Word, phys: Word, flags: Word)
    requires Tree(s) && Open(s)
    ensures MapAt(s, virt, phys, flags) == Done(Map(s, virt, phys, flags))
  {
    if Aligned(virt, phys) {
      PutLeafIsPhysical(s, Pml4Index(virt), PdptIndex(virt), PdIndex(virt), LeafEntry(phys, flags));
    }
  }

  /**
   Mapping is exactly a functional update of the walk: on success the one
   page goes to phys with the requested leaf bits, everything else is as
   before; on failure, wherever it happens, nothing changes.
   */
  lemma MapUpdatesTranslation(s: Machine, virt: Word, phys: Word, flags: Word, va: nat)
    requires Tree(s) && Open(s) && va < TWO48
    ensures MapAt(s, virt, phys, flags).Done?
    ensures
      var (t, ok) := MapAt(s, virt, phys, flags).value;
      Translate(t.mem, t.root, va) ==
      if ok && SamePage(virt, va) then Some(Installed(phys, flags, va)) else Translate(s.mem, s.root, va)
  {
    MapIsPhysical(s, virt, phys, flags);
    MapUpdates(s, virt, phys, flags, va);
  }

  /**
   A request succeeds exactly when both addresses are aligned and there is
   room for every missing table on its path; it then takes a frame for each
   of those and for nothing else.
   */
  lemma MapSucceedsIff(s: Machine, virt: Word, phys: Word, flags: Word)
    requires Tree(s) && Open(s) && WithinTotal(s.alloc)
    ensures MapAt(s, virt, phys, flags).Done?
    ensures
      var (t, ok) := MapAt(s, virt, phys, flags).value;
      && (ok <==> Aligned(virt, phys) && HasRoom(s, Path(virt)))
      && (ok ==> Grown(s, t, Path(virt)))
  {
    MapIsPhysical(s, virt, phys, flags);
    MapGrows(s, virt, phys, flags);
  }

  // ---------------------------------------------------------------------
  // When the window stays open
  // ---------------------------------------------------------------------

  /** A page outside the first GiB, or the window's own page again, writable. */
  predicate KeepsWindow(virt: Word, phys: Word, flags: Word) {
    virt % TWO48 >= 0x4000_0000 || (phys % TWO52 == virt % TWO48 && Writable(flags))
  }

  /** Inside the page that virt names, the new translation is the window's exactly for the window's own page. */
  lemma InstalledReaches(virt: Word, phys: Word, flags: Word, va: nat)
    requires virt % 0x20_0000 == 0 && va < TWO48 && SamePage(virt, va)
    ensures Reaches(Some(Installed(phys, flags, va)), va) <==> phys % TWO52 == virt % TWO48 && Writable(flags)
  {
    AddMultiple(-(virt / TWO48) * 0x800_0000, 0x20_0000, virt);
    assert va == virt % TWO48 + va % 0x20_0000;
  }

  /** The window after one page of the walk was replaced. */
  lemma WindowAfterPage(s: Machine, t: Machine, virt: Word, phys: Word, flags: Word)
    requires Open(s) && t.root == s.root && virt % 0x20_0000 == 0
    requires MapsPage(s.mem, t.mem, s.root, virt, phys, flags)
    ensures Open(t) <==> KeepsWindow(virt, phys, flags)
  {
    if KeepsWindow(virt, phys, flags) {
      forall va: nat | va < 0x4000_0000 ensures Reaches(Translate(t.mem, t.root, va), va) {
        assert Reaches(Translate(s.mem, s.root, va), va);
        if SamePage(virt, va) {
          InstalledReaches(virt, phys, flags, va);
        }
      }
    } else {
      var va := virt % TWO48;
      InstalledReaches(virt, phys, flags, va);
      assert !Reaches(Translate(t.mem, t.root, va), va);
    }
  }

  lemma WindowAfterMap(s: Machine, virt: Word, phys: Word, flags: Word)
    requires Tree(s) && Open(s)
    ensures
      var (t, ok) := Map(s, virt, phys, flags);
      Tree(t) && (Open(t) <==> !ok || KeepsWindow(virt, phys, flags))
  {
    MapIsUpdate(s, virt, phys, flags);
    var (t, ok) := Map(s, virt, phys, flags);
    if ok {
      WindowAfterPage(s, t, virt, phys, flags);
    } else {
      SameTranslationsSameWindow(s, t);
    }
  }

  /** The window is open after a call exactly when the call failed or mapped a page that keeps it. */
  lemma WindowStaysOpenIff(s: Machine, virt: Word, phys: Word, flags: Word)
    requires Tree(s) && Open(s)
    ensures MapAt(s, virt, phys, flags).Done?
    ensures Tree(MapAt(s, virt, phys, flags).value.0)
    ensures Open(MapAt(s, virt, phys, flags).value.0) <==>
            !MapAt(s, virt, phys, flags).value.1 || KeepsWindow(virt, phys, flags)
  {
    MapIsPhysical(s, virt, phys, flags);
    WindowAfterMap(s, virt, phys, flags);
  }

  // ---------------------------------------------------------------------
  // Whole runs of maps, allocations and frees
  // ---------------------------------------------------------------------

  datatype Op = MapOp(virt: Word, phys: Word, flags: Word) | AllocOp(bound: nat) | FreeOp(addr: nat)

  function Step(s: Machine, op: Op): Outcome<Machine> {
    match op
    case MapOp(virt, phys, flags) =>
      (match MapAt(s, virt, phys, flags)
       case Fault => Fault
       case Done((t, ok)) => Done(t))
    case AllocOp(bound) => Done(s.(alloc := AllocBelow(s.alloc, bound).0))
    case FreeOp(addr) => Done(s.(alloc := Release(s.alloc, addr)))
  }

  function Run(s: Machine, ops: seq<Op>): Outcome<Machine>
    decreases |ops|
  {
    if ops == [] then Done(s) else
    match Step(s, ops[0])
    case Fault => Fault
    case Done(t) => Run(t, ops[1..])
  }

  /** What a caller owes: not to free a frame that is a table now, and not to map over the window. */
  ghost predicate Careful(s: Machine, op: Op) {
    match op
    case MapOp(virt, phys, flags) =>
      MapAt(s, virt, phys, flags).Done? && MapAt(s, virt, phys, flags).value.1 ==> KeepsWindow(virt, phys, flags)
    case AllocOp(_) => true
    case FreeOp(addr) => !IsTable(s, addr / FRAME_SIZE) || addr / FRAME_SIZE >= s.alloc.total
  }

  ghost predicate AllCareful(s: Machine, ops: seq<Op>)
    decreases |ops|
  {
    ops != [] ==> Careful(s, ops[0]) && (Step(s, ops[0]).Done? ==> AllCareful(Step(s, ops[0]).value, ops[1..]))
  }

  /** Allocator changes that keep every table reserved keep the shape, and only those. */
  lemma AllocatorChange(s: Machine, t: Machine)
    requires Tree(s) && t == s.(alloc := t.alloc) && t.alloc.total == s.alloc.total
    ensures TablesStay(s, t) && (Open(s) ==> Open(t))
    ensures Tree(t) <==> forall f: nat :: IsTable(s, f) && f in s.alloc.used && f < s.alloc.total ==> f in t.alloc.used
  {
    assert Locate(s, Pml4) == Some(s.root);
    assert forall n :: Locate(t, n) == Locate(s, n);
    assert forall n :: Locate(s, n).Some? ==> IsTable(s, Locate(s, n).value);
  }

  /** Shape and window hold after a step exactly when it was careful. */
  lemma StepIsSafeIffCareful(s: Machine, op: Op)
    requires Tree(s) && Open(s)
    ensures Step(s, op).Done?
    ensures Tree(Step(s, op).value) && Open(Step(s, op).value) <==> Careful(s, op)
    ensures TablesStay(s, Step(s, op).value)
  {
    match op {
      case MapOp(virt, phys, flags) =>
        WindowStaysOpenIff(s, virt, phys, flags);
        MapIsPhysical(s, virt, phys, flags);
        MapTablesStay(s, virt, phys, flags);
      case AllocOp(bound) =>
        AllocTakesLowestFree(s.alloc, bound);
        AllocatorChange(s, Step(s, op).value);
      case FreeOp(addr) =>
        AllocatorChange(s, Step(s, op).value);
        var f := addr / FRAME_SIZE;
        if IsTable(s, f) && f < s.alloc.total {
          var n :| Locate(s, n) == Some(f);
          assert Reserved(s.alloc, f);
        }
    }
  }

  /** Shape and window survive every careful run, no access faults, and no table ever moves. */
  lemma {:induction false} RunKeepsTree(s: Machine, ops: seq<Op>)
    requires Tree(s) && Open(s) && AllCareful(s, ops)
    ensures Run(s, ops).Done?
    ensures Tree(Run(s, ops).value) && Open(Run(s, ops).value) && TablesStay(s, Run(s, ops).value)
    decreases |ops|
  {
    if ops != [] {
      StepIsSafeIffCareful(s, ops[0]);
      RunKeepsTree(Step(s, ops[0]).value, ops[1..]);
    }
  }

  /** A frame that was a table at any earlier time is never handed out again. */
  lemma TablesAreNeverHandedOut(s: Machine, ops: seq<Op>, f: nat, bound: nat)
    requires Tree(s) && Open(s) && AllCareful(s, ops) && IsTable(s, f)
    ensures Run(s, ops).Done?
    ensures
      var addr := AllocBelow(Run(s, ops).value.alloc, bound).1;
      addr != 0 ==> addr / FRAME_SIZE != f
  {
    RunKeepsTree(s, ops);
    var t := Run(s, ops).value;
    AllocTakesLowestFree(t.alloc, bound);
    var n :| Locate(s, n) == Some(f);
    assert Locate(t, n) == Some(f);
  }

  /** Whether an operation frees frame f. */
  predicate Frees(op: Op, f: nat) {
    op.FreeOp? && op.addr / FRAME_SIZE == f
  }

  /** A frame that is allocated for something else is never written by the mapper and never becomes a table. */
  lemma {:induction false} RunKeepsOtherFrames(s: Machine, ops: seq<Op>, f: nat)
    requires Tree(s) && Open(s) && AllCareful(s, ops)
    requires Reserved(s.alloc, f) && !IsTable(s, f) && forall op :: op in ops ==> !Frees(op, f)
    ensures Run(s, ops).Done?
    ensures
      var t := Run(s, ops).value;
      t.mem[f] == s.mem[f] && Reserved(t.alloc, f) && !IsTable(t, f)
    decreases |ops|
  {
    if ops != [] {
      StepIsSafeIffCareful(s, ops[0]);
      var t := Step(s, ops[0]).value;
      StepKeepsOtherFrames(s, ops[0], f);
      RunKeepsOtherFrames(t, ops[1..], f);
    }
  }

  lemma StepKeepsOtherFrames(s: Machine, op: Op, f: nat)
    requires Tree(s) && Open(s) && Reserved(s.alloc, f) && !IsTable(s, f) && !Frees(op, f)
    ensures Step(s, op).Done?
    ensures
      var t := Step(s, op).value;
      t.mem[f] == s.mem[f] && Reserved(t.alloc, f) && !IsTable(t, f)
  {
    match op {
      case MapOp(virt, phys, flags) =>
        MapIsPhysical(s, virt, phys, flags);
        MapKeepsOtherFrames(s, virt, phys, flags, f);
      case AllocOp(bound) =>
        AllocTakesLowestFree(s.alloc, bound);
        assert forall n :: Locate(Step(s, op).value, n) == Locate(s, n);
      case FreeOp(addr) =>
        assert forall n :: Locate(Step(s, op).value, n) == Locate(s, n);
    }
  }

  // ---------------------------------------------------------------------
  // What happens once the window is closed over a table
  // ---------------------------------------------------------------------

  lemma EnsurePresentVia(s: Machine, f: nat, g: nat, index: nat, x: nat)
    requires Leads(s, f, g) && index < 512 && x < MAX_FRAMES && s.mem[g][index] == x * 0x1000 + 3
    ensures EnsureTableAt(s, f * FRAME_SIZE, index) == Done((s, Some(x * FRAME_SIZE)))
  {
    LoadVia(s, f, g, index);
    ParentEntryFields(x);
  }

  /**
   The PDPT of virt sits in frame f, and linear frame f now leads to another
   frame g, where something that looks like a parent entry stands. Then the
   code reports success and no address translates differently.
   */
  lemma LostTable(s: Machine, virt: Word, phys: Word, flags: Word, f: nat, g: nat, x: nat)
    requires Tree(s) && Aligned(virt, phys) && Locate(s, Pdpt(Pml4Index(virt))) == Some(f)
    requires Leads(s, s.root, s.root) && Leads(s, f, g) && Leads(s, x, x)
    requires s.mem[g][PdptIndex(virt)] == x * 0x1000 + 3 && !IsTable(s, x)
    ensures MapAt(s, virt, phys, flags).Done?
    ensures
      var (t, ok) := MapAt(s, virt, phys, flags).value;
      ok && forall va: nat :: Translate(t.mem, t.root, va) == Translate(s.mem, s.root, va)
  {
    var k := PdIndex(virt);
    MisdirectedStore(s, Pml4Index(virt), PdptIndex(virt), k, LeafEntry(phys, flags), f, g, x);
    OtherFramesDoNotMatter(s, x, s.mem[x][k := LeafEntry(phys, flags)]);
  }

  lemma MisdirectedStore(s: Machine, i: nat, j: nat, k: nat, w: Word, f: nat, g: nat, x: nat)
    requires Tree(s) && i < 512 && j < 512 && k < 512 && Locate(s, Pdpt(i)) == Some(f)
    requires Leads(s, s.root, s.root) && Leads(s, f, g) && Leads(s, x, x)
    requires s.mem[g][j] == x * 0x1000 + 3
    ensures PutLeafAt(s, i, j, k, w) == Done((s.(mem := s.mem[x := s.mem[x][k := w]]), true))
  {
    assert Locate(s, Pml4) == Some(s.root);
    assert PointsDown(s.mem[s.root][i]);
    EnsurePresentVia(s, s.root, s.root, i, f);
    EnsurePresentVia(s, f, g, j, x);
    StoreVia(s, x, x, k, w);
  }

  /**
   A machine on which the window can be closed over a table: frame 512, the
   first of the second 2 MiB page, is the lowest free one, and frames 1536
   and 2048 belong to somebody else, who keeps a number there.
   */
  ghost predicate Vulnerable(s: Machine) {
    && Tree(s) && Open(s) && s.root < 512 && s.alloc.total > 513 && Locate(s, Pdpt(1)).None?
    && (forall f: nat :: f < 512 ==> f in s.alloc.used) && 512 !in s.alloc.used && 513 !in s.alloc.used
    && Reserved(s.alloc, 1536) && !IsTable(s, 1536) && s.mem[1536][1] == 0x80_0003
    && Reserved(s.alloc, 2048) && !IsTable(s, 2048)
  }

  lemma TakesFrame(a: Allocator, f: nat)
    requires f < a.total <= MAX_FRAMES && f !in a.used && forall g: nat :: g < f ==> g in a.used
    ensures AllocBelow(a, IDENTITY_WINDOW_LIMIT) == (a.(used := a.used + {f}), f * FRAME_SIZE)
  {
    AllocStopsAt(a, IDENTITY_WINDOW_LIMIT, Min(IDENTITY_WINDOW_LIMIT / FRAME_SIZE, a.total), f);
  }

  lemma NewTableIn(s: Machine, n: Node, index: nat, f: nat)
    requires Tree(s) && !n.Pd? && Locate(s, n).Some? && index < 512 && Locate(s, Child(n, index)).None?
    requires 0 < f < s.alloc.total && f !in s.alloc.used && forall g: nat :: g < f ==> g in s.alloc.used
    ensures
      var (t, c) := EnsureTable(s, Locate(s, n).value, index);
      c == Some(f) && Tree(t) && Locate(t, Child(n, index)) == c && t.alloc == s.alloc.(used := s.alloc.used + {f})
      && t.root == s.root
  {
    var h := Locate(s, n).value;
    assert Locate(s, Child(n, index)) == Target(s.mem, h, index);
    if Present(s.mem[h][index]) {
      assert PointsDown(s.mem[h][index]);
    }
    TakesFrame(s.alloc, f);
    EnsureTableKeepsTree(s, n, index);
  }

  /** The first map of the run puts a PDPT into frame 512. */
  lemma PdptInFrame512(s: Machine, w: Word)
    requires Vulnerable(s) && Huge(w)
    ensures
      var (t, ok) := PutLeaf(s, 1, 0, 0, w);
      ok && Locate(t, Pdpt(1)) == Some(512) && Locate(t, Pd(1, 1)) == None
  {
    assert Locate(s, Pml4) == Some(s.root);
    NewTableIn(s, Pml4, 1, 512);
    var s1 := EnsureTable(s, s.root, 1).0;
    EnsureTableLocates(s, Pml4, 1, Pd(1, 0));
    EnsureTableLocates(s, Pml4, 1, Pd(1, 1));
    NewTableIn(s1, Pdpt(1), 0, 513);
    EnsureTableLocates(s1, Pdpt(1), 0, Pdpt(1));
    EnsureTableLocates(s1, Pdpt(1), 0, Pd(1, 1));
    SetLeafKeepsTree(EnsureTable(s1, 512, 0).0, Pd(1, 0), 0, w);
  }

  /** Where both tables exist, a leaf is written without allocating. */
  lemma PutLeafInPlace(s: Machine, i: nat, j: nat, k: nat, w: Word)
    requires Tree(s) && i < 512 && j < 512 && k < 512 && Huge(w) && Locate(s, Pd(i, j)).Some?
    ensures PutLeaf(s, i, j, k, w) == (SetLeaf(s, Locate(s, Pd(i, j)).value, k, w), true)
    ensures forall n :: Locate(PutLeaf(s, i, j, k, w).0, n) == Locate(s, n)
  {
    assert Locate(s, Pml4) == Some(s.root);
    assert PointsDown(s.mem[s.root][i]);
    assert Locate(s, Pdpt(i)) == Target(s.mem, s.root, i);
    assert PointsDown(s.mem[Locate(s, Pdpt(i)).value][j]);
    SetLeafKeepsTree(s, Pd(i, j), k, w);
  }

  /** The state between the two maps of the run. */
  ghost predicate TableInWindow(s: Machine) {
    && Tree(s) && Open(s) && s.root < 512 && Locate(s, Pdpt(1)) == Some(512) && Locate(s, Pd(1, 1)) == None
    && Reserved(s.alloc, 1536) && !IsTable(s, 1536) && s.mem[1536][1] == 0x80_0003
    && Reserved(s.alloc, 2048) && !IsTable(s, 2048)
  }

  lemma FirstMapPhysical(s: Machine, virt: Word, phys: Word)
    requires Vulnerable(s) && Aligned(virt, phys)
    requires Pml4Index(virt) == 1 && PdptIndex(virt) == 0 && PdIndex(virt) == 0
    ensures
      var (t, ok) := Map(s, virt, phys, 2);
      ok && Locate(t, Pdpt(1)) == Some(512) && Locate(t, Pd(1, 1)) == None && t.root == s.root
  {
    LeafEntryFields(phys, 2);
    PdptInFrame512(s, LeafEntry(phys, 2));
  }

  lemma FirstMap(s: Machine, virt: Word, phys: Word)
    requires Vulnerable(s) && Aligned(virt, phys) && virt % TWO48 >= 0x4000_0000
    requires Pml4Index(virt) == 1 && PdptIndex(virt) == 0 && PdIndex(virt) == 0
    ensures MapAt(s, virt, phys, 2).Done? && MapAt(s, virt, phys, 2).value.1
    ensures TableInWindow(MapAt(s, virt, phys, 2).value.0)
  {
    FirstMapPhysical(s, virt, phys);
    MapIsPhysical(s, virt, phys, 2);
    WindowStaysOpenIff(s, virt, phys, 2);
    MapKeepsOtherFrames(s, virt, phys, 2, 1536);
    MapKeepsOtherFrames(s, virt, phys, 2, 2048);
  }

  lemma SecondPage(va: nat)
    requires va < TWO48
    ensures SamePage(0x20_0000, va) <==> 0x20_0000 <= va < 0x40_0000
    ensures SamePage(0x20_0000, va) ==> Installed(0x60_0000, 2, va).phys == va + 0x40_0000
    ensures Installed(0x60_0000, 2, va).writable && Installed(0x60_0000, 2, va).pathWritable
  {
  }

  /** After the second page is mapped elsewhere, its frames lead elsewhere and the others still lead home. */
  lemma SecondPageLeads(s: Machine, t: Machine, f: nat)
    requires Open(s) && t.root == s.root && MapsPage(s.mem, t.mem, s.root, 0x20_0000, 0x60_0000, 2) && f < 0x1_0000
    ensures Leads(t, f, if 512 <= f < 1024 then f + 1024 else f)
  {
    forall va: nat | f * FRAME_SIZE <= va < f * FRAME_SIZE + FRAME_SIZE
      ensures Reaches(Translate(t.mem, t.root, va), if 512 <= f < 1024 then va + 0x40_0000 else va)
    {
      SecondPage(va);
      assert Reaches(Translate(s.mem, s.root, va), va);
    }
  }

  /** The state after the second map: linear frame 512 leads to frame 1536. */
  ghost predicate TableLost(s: Machine) {
    && Tree(s) && !Open(s) && Leads(s, s.root, s.root) && Leads(s, 512, 1536) && Leads(s, 2048, 2048)
    && Locate(s, Pdpt(1)) == Some(512) && Locate(s, Pd(1, 1)) == None
    && s.mem[1536][1] == 0x80_0003 && !IsTable(s, 2048)
  }

  lemma WindowHasATable(s: Machine)
    requires Tree(s) && Open(s)
    ensures Locate(s, Pd(0, 0)).Some?
  {
    assert Reaches(Translate(s.mem, s.root, 0), 0);
    TranslateInTree(s, 0);
  }

  lemma MapInPlace(s: Machine, virt: Word, phys: Word)
    requires Tree(s) && Aligned(virt, phys) && Locate(s, Pd(Pml4Index(virt), PdptIndex(virt))).Some?
    ensures
      var (t, ok) := Map(s, virt, phys, 2);
      ok && t.root == s.root && forall n :: Locate(t, n) == Locate(s, n)
  {
    LeafEntryFields(phys, 2);
    PutLeafInPlace(s, Pml4Index(virt), PdptIndex(virt), PdIndex(virt), LeafEntry(phys, 2));
  }

  lemma SecondMap(s: Machine)
    requires TableInWindow(s)
    ensures MapAt(s, 0x20_0000, 0x60_0000, 2).Done? && MapAt(s, 0x20_0000, 0x60_0000, 2).value.1
    ensures TableLost(MapAt(s, 0x20_0000, 0x60_0000, 2).value.0)
  {
    WindowHasATable(s);
    MapInPlace(s, 0x20_0000, 0x60_0000);
    MapIsPhysical(s, 0x20_0000, 0x60_0000, 2);
    MapIsUpdate(s, 0x20_0000, 0x60_0000, 2);
    WindowStaysOpenIff(s, 0x20_0000, 0x60_0000, 2);
    MapKeepsOtherFrames(s, 0x20_0000, 0x60_0000, 2, 1536);
    var t := Map(s, 0x20_0000, 0x60_0000, 2).0;
    SecondPageLeads(s, t, s.root);
    SecondPageLeads(s, t, 512);
    SecondPageLeads(s, t, 2048);
  }

  lemma ThirdMap(s: Machine, virt: Word, phys: Word)
    requires TableLost(s) && Aligned(virt, phys) && Pml4Index(virt) == 1 && PdptIndex(virt) == 1
    ensures MapAt(s, virt, phys, 2).Done? && MapAt(s, virt, phys, 2).value.1
    ensures Translate(MapAt(s, virt, phys, 2).value.0.mem, MapAt(s, virt, phys, 2).value.0.root, virt) == None
  {
    LostTable(s, virt, phys, 2, 512, 1536, 2048);
    TranslateInTree(s, virt);
  }

  lemma RunIndices()
    ensures Pml4Index(0x80_0000_0000) == 1 && PdptIndex(0x80_0000_0000) == 0 && PdIndex(0x80_0000_0000) == 0
    ensures Pml4Index(0x80_4000_0000) == 1 && PdptIndex(0x80_4000_0000) == 1
  {
  }

  /**
   Why callers must not map over the window: two maps that both succeed leave
   a machine on which the next one reports success although the page it was
   asked for is still not mapped.
   */
  lemma MapOverWindowLosesATable(s: Machine, p: Word, q: Word)
    requires Vulnerable(s) && p % 0x20_0000 == 0 && q % 0x20_0000 == 0
    ensures
      var r := Run(s, [MapOp(0x80_0000_0000, p, 2), MapOp(0x20_0000, 0x60_0000, 2)]);
      && r.Done? && Tree(r.value) && !Open(r.value)
      && var later := MapAt(r.value, 0x80_4000_0000, q, 2);
      && later.Done? && later.value.1
      && Translate(later.value.0.mem, later.value.0.root, 0x80_4000_0000) == None
  {
    RunIndices();
    FirstMap(s, 0x80_0000_0000, p);
    var t := MapAt(s, 0x80_0000_0000, p, 2).value.0;
    SecondMap(t);
    var u := MapAt(t, 0x20_0000, 0x60_0000, 2).value.0;
    TwoSteps(s, MapOp(0x80_0000_0000, p, 2), MapOp(0x20_0000, 0x60_0000, 2), t, u);
    ThirdMap(u, 0x80_4000_0000, q);
  }

  lemma TwoSteps(s: Machine, a: Op, b: Op, t: Machine, u: Machine)
    requires Step(s, a) == Done(t) && Step(t, b) == Done(u)
    ensures Run(s, [a, b]) == Done(u)
  {
    assert [a, b][1..] == [b] && [b][1..] == [];
    assert Run(u, []) == Done(u);
    assert Run(t, [b]) == Done(u);
  }
}
