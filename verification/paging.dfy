/**
 Physical memory as the page walker sees it: pages of 512 words, the 4-level
 walk, and the shape that the kernel's tables keep inside that memory.
 */
module Paging {
  import opened Common
  import opened Pmm

  type Page = p: seq<Word> | |p| == 512 witness seq(512, _ => 0)

  /** The first GiB of physical memory, which holds every page table. */
  type Memory = m: seq<Page> | |m| == 0x4_0000 witness seq<Page>(0x4_0000, _ => ZeroPage())

  function ZeroPage(): (p: Page)
    ensures forall k :: 0 <= k < 512 ==> p[k] == 0
  {
    seq(512, _ => 0)
  }

  // ---------------------------------------------------------------------
  // Fields of an entry and of a linear address
  // ---------------------------------------------------------------------

  predicate Present(w: Word) { w % 2 == 1 }
  predicate Writable(w: Word) { w / 2 % 2 == 1 }
  predicate User(w: Word) { w / 4 % 2 == 1 }
  predicate Huge(w: Word) { w / 128 % 2 == 1 }
  predicate NoExec(w: Word) { w / 0x8000_0000_0000_0000 == 1 }

  /** Bits 51..12 and 51..21 of an entry. */
  function Frame(w: Word): nat { w / 0x1000 % 0x100_0000_0000 }
  function Frame2m(w: Word): nat { w / 0x20_0000 % 0x8000_0000 }

  function Pml4Index(va: nat): (i: nat) ensures i < 512 { va / 0x80_0000_0000 % 512 }
  function PdptIndex(va: nat): (i: nat) ensures i < 512 { va / 0x4000_0000 % 512 }
  function PdIndex(va: nat): (i: nat) ensures i < 512 { va / 0x20_0000 % 512 }
  function PtIndex(va: nat): (i: nat) ensures i < 512 { va / 0x1000 % 512 }

  // ---------------------------------------------------------------------
  // The hardware walk (4-level paging, section 4.5 of Intel SDM volume 3A)
  // ---------------------------------------------------------------------

  /**
   The outcome of a walk: the physical address, the three access bits of the
   leaf entry, and whether every entry above the leaf also grants writing
   and user access.
   */
  datatype Mapping = Mapping(phys: nat, writable: bool, user: bool, noExec: bool, pathWritable: bool, pathUser: bool)

  function Leaf(w: Word, phys: nat, pathWritable: bool, pathUser: bool): Mapping {
    Mapping(phys, Writable(w), User(w), NoExec(w), pathWritable, pathUser)
  }

  function Index(va: nat, level: nat): (i: nat)
    ensures i < 512
  {
    if level >= 4 then Pml4Index(va) else
    if level == 3 then PdptIndex(va) else
    if level == 2 then PdIndex(va) else PtIndex(va)
  }

  /** The page that a leaf entry above the last level stands for: 1 GiB or 2 MiB. */
  function HugeFrame(e: Word, level: nat, va: nat): nat {
    if level == 3 then Frame(e) / 0x4_0000 * 0x4000_0000 + va % 0x4000_0000
    else Frame2m(e) * 0x20_0000 + va % 0x20_0000
  }

  /**
   Walk down from a table at a level. A table outside the modelled memory
   translates nothing, and a PML4 entry cannot be a leaf.
   */
  function Walk(mem: Memory, table: nat, level: nat, va: nat, w: bool, u: bool): Option<Mapping>
    decreases level, va
  {
    if table >= MAX_FRAMES then None else
    var e := mem[table][Index(va, level)];
    if !Present(e) then None else
    if level <= 1 then Some(Leaf(e, Frame(e) * 0x1000 + va % 0x1000, w, u)) else
    if Huge(e) then (if level >= 4 then None else Some(Leaf(e, HugeFrame(e, level, va), w, u))) else
    Walk(mem, Frame(e), level - 1, va, w && Writable(e), u && User(e))
  }

  /** The walk from the PML4 in frame root. */
  function Translate(mem: Memory, root: nat, va: nat): Option<Mapping> {
    Walk(mem, root, 4, va, true, true)
  }

  // ---------------------------------------------------------------------
  // The tree of tables
  // ---------------------------------------------------------------------

  /** Memory, allocator and the frame of the PML4. */
  datatype Machine = Machine(mem: Memory, alloc: Allocator, root: nat)

  /** A position in the tree: the PML4, the PDPT under slot i, the PD under slots i and j. */
  datatype Node = Pml4 | Pdpt(i: nat) | Pd(i: nat, j: nat)

  function Child(n: Node, index: nat): Node
    requires !n.Pd?
  {
    match n
    case Pml4 => Pdpt(index)
    case Pdpt(i) => Pd(i, index)
  }

  /** The frame that a present slot points at. */
  function Target(mem: Memory, f: nat, index: nat): Option<nat> {
    if f < MAX_FRAMES && index < 512 && Present(mem[f][index]) && Frame(mem[f][index]) < MAX_FRAMES
    then Some(Frame(mem[f][index])) else None
  }

  /** The frame that holds the table at a position, if that table exists. */
  function Locate(s: Machine, n: Node): Option<nat> {
    match n
    case Pml4 => Some(s.root)
    case Pdpt(i) => Target(s.mem, s.root, i)
    case Pd(i, j) =>
      match Target(s.mem, s.root, i)
      case None => None
      case Some(f) => Target(s.mem, f, j)
  }

  /** A parent entry: a frame address with exactly the present and writable bits. */
  predicate PointsDown(w: Word) {
    Frame(w) < MAX_FRAMES && w == Frame(w) * 0x1000 + 3
  }

  predicate Reserved(a: Allocator, f: nat) {
    f < MAX_FRAMES && (f >= a.total || f in a.used)
  }

  predicate ParentEntries(page: Page) {
    forall k :: 0 <= k < 512 && Present(page[k]) ==> PointsDown(page[k])
  }

  predicate HugeEntries(page: Page) {
    forall k :: 0 <= k < 512 && Present(page[k]) ==> Huge(page[k])
  }

  /**
   The heap shape: every table sits in a reserved frame, no frame is two
   tables (so each table has one parent slot), entries above the PD level
   only point down, and entries of a PD are 2 MiB pages.
   */
  ghost predicate Tree(s: Machine) {
    && s.alloc.total <= MAX_FRAMES
    && Reserved(s.alloc, s.root)
    && (forall n {:trigger Locate(s, n)} :: Locate(s, n).Some? ==>
          && Reserved(s.alloc, Locate(s, n).value)
          && (if n.Pd? then HugeEntries(s.mem[Locate(s, n).value]) else ParentEntries(s.mem[Locate(s, n).value])))
    && (forall n, m {:trigger Locate(s, n), Locate(s, m)} ::
          Locate(s, n).Some? && Locate(s, n) == Locate(s, m) ==> n == m)
  }

  lemma ParentPresent(f: nat)
    requires f < MAX_FRAMES
    ensures Present(f * 0x1000 + 3) && Writable(f * 0x1000 + 3)
  {
    AddMultiple(f * 0x800, 2, 3);
    AddMultiple(f * 0x400, 2, 1);
  }

  lemma ParentNotUser(f: nat)
    requires f < MAX_FRAMES
    ensures !User(f * 0x1000 + 3)
  {
    AddMultiple(f * 0x400, 4, 3);
    AddMultiple(f * 0x200, 2, 0);
  }

  lemma ParentNotHuge(f: nat)
    requires f < MAX_FRAMES
    ensures !Huge(f * 0x1000 + 3)
  {
    AddMultiple(f * 0x20, 128, 3);
    AddMultiple(f * 0x10, 2, 0);
  }

  lemma ParentFrame(f: nat)
    requires f < MAX_FRAMES
    ensures Frame(f * 0x1000 + 3) == f
  {
    DivModUnique(f, 0x1000, 3);
    DivModUnique(0, 0x100_0000_0000, f);
  }

  lemma ParentEntryFields(f: nat)
    requires f < MAX_FRAMES
    ensures
      var w: Word := f * 0x1000 + 3;
      Present(w) && Writable(w) && !User(w) && !Huge(w) && !NoExec(w) && Frame(w) == f && PointsDown(w)
  {
    ParentPresent(f);
    ParentNotUser(f);
    ParentNotHuge(f);
    ParentFrame(f);
    DivModUnique(0, 0x8000_0000_0000_0000, f * 0x1000 + 3);
  }

  /** What a PD entry at the end of an all-parent path translates to. */
  function PdLeaf(w: Word, va: nat): Option<Mapping> {
    if Present(w) then Some(Leaf(w, Frame2m(w) * 0x20_0000 + va % 0x20_0000, true, false)) else None
  }

  /** A parent entry leads the walk one level down, on a path that is writable and not user. */
  lemma WalkDown(mem: Memory, table: nat, level: nat, va: nat, u: bool)
    requires table < MAX_FRAMES && level > 1 && PointsDown(mem[table][Index(va, level)])
    ensures
      var e := mem[table][Index(va, level)];
      Present(e) && Walk(mem, table, level, va, true, u) == Walk(mem, Frame(e), level - 1, va, true, false)
  {
    ParentEntryFields(Frame(mem[table][Index(va, level)]));
  }

  /** Inside a tree the walk is decided by one PD entry, on a path that is writable and never user. */
  lemma TranslateInTree(s: Machine, va: nat)
    requires Tree(s)
    ensures Translate(s.mem, s.root, va) ==
            match Locate(s, Pd(Pml4Index(va), PdptIndex(va)))
            case None => None
            case Some(d) => PdLeaf(s.mem[d][PdIndex(va)], va)
  {
    assert Locate(s, Pml4) == Some(s.root);
    var e4 := s.mem[s.root][Pml4Index(va)];
    if Present(e4) {
      assert PointsDown(e4);
      WalkDown(s.mem, s.root, 4, va, true);
      assert Locate(s, Pdpt(Pml4Index(va))) == Some(Frame(e4));
      var e3 := s.mem[Frame(e4)][PdptIndex(va)];
      if Present(e3) {
        assert PointsDown(e3);
        WalkDown(s.mem, Frame(e4), 3, va, false);
        assert Locate(s, Pd(Pml4Index(va), PdptIndex(va))) == Some(Frame(e3));
      }
    }
  }
}
