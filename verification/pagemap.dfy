/**
 What the 2 MiB page mapper of kernel/src/core/vmm.c does to memory and
 allocator, and what that does to the hardware walk.
 */
module PageMap {
  import opened Common
  import opened Pmm
  import opened Paging

  const IDENTITY_WINDOW_LIMIT := 0x4000_0000

  // ---------------------------------------------------------------------
  // The transformation
  // ---------------------------------------------------------------------

  /** `ensure_table` on the table in frame f: the new machine and the child's frame. */
  function EnsureTable(s: Machine, f: nat, index: nat): (Machine, Option<nat>)
    requires s.alloc.total <= MAX_FRAMES && f < MAX_FRAMES && index < 512
  {
    if Present(s.mem[f][index]) then (s, Some(Frame(s.mem[f][index]))) else
    var (a, addr) := AllocBelow(s.alloc, IDENTITY_WINDOW_LIMIT);
    if addr == 0 then (s.(alloc := a), None) else
    var c := addr / FRAME_SIZE;
    var zeroed: Memory := s.mem[c := ZeroPage()];
    (s.(mem := zeroed[f := zeroed[f][index := addr + 3]], alloc := a), Some(c))
  }

  /** The leaf entry `vmm_map_2m` writes; flag bits 1, 2 and 63 select the access bits. */
  function LeafEntry(phys: Word, flags: Word): Word {
    phys / 0x20_0000 % 0x8000_0000 * 0x20_0000 + 0x81
    + (if Writable(flags) then 2 else 0)
    + (if User(flags) then 4 else 0)
    + (if NoExec(flags) then 0x8000_0000_0000_0000 else 0)
  }

  function SetLeaf(s: Machine, d: nat, k: nat, w: Word): Machine
    requires d < MAX_FRAMES && k < 512
  {
    s.(mem := s.mem[d := s.mem[d][k := w]])
  }

  predicate Aligned(virt: Word, phys: Word) {
    virt % 0x20_0000 == 0 && phys % 0x20_0000 == 0
  }

  /** `vmm_map_2m`. A table pointer outside the modelled memory cannot occur in a Tree. */
  function Map(s: Machine, virt: Word, phys: Word, flags: Word): (Machine, bool)
    requires s.alloc.total <= MAX_FRAMES && s.root < MAX_FRAMES
  {
    if !Aligned(virt, phys) then (s, false) else
    PutLeaf(s, Pml4Index(virt), PdptIndex(virt), PdIndex(virt), LeafEntry(phys, flags))
  }

  /** Make sure of the two tables on the path i, j and write slot k of the second. */
  function PutLeaf(s: Machine, i: nat, j: nat, k: nat, w: Word): (Machine, bool)
    requires s.alloc.total <= MAX_FRAMES && s.root < MAX_FRAMES && i < 512 && j < 512 && k < 512
  {
    var (s1, pdpt) := EnsureTable(s, s.root, i);
    if pdpt.None? || pdpt.value >= MAX_FRAMES then (s1, false) else PutInPdpt(s1, pdpt.value, j, k, w)
  }

  function PutInPdpt(s: Machine, pdpt: nat, j: nat, k: nat, w: Word): (Machine, bool)
    requires s.alloc.total <= MAX_FRAMES && pdpt < MAX_FRAMES && j < 512 && k < 512
  {
    var (t, pd) := EnsureTable(s, pdpt, j);
    if pd.None? || pd.value >= MAX_FRAMES then (t, false) else (SetLeaf(t, pd.value, k, w), true)
  }

  // ---------------------------------------------------------------------
  // ensure_table grows the tree by one empty table
  // ---------------------------------------------------------------------

  /** The page in every frame but the parent's and the new child's is untouched. */
  lemma EnsureTablePages(s: Machine, f: nat, index: nat)
    requires s.alloc.total <= MAX_FRAMES && f < MAX_FRAMES && index < 512 && Reserved(s.alloc, f)
    ensures
      var (t, c) := EnsureTable(s, f, index);
      && t.root == s.root && t.alloc.total == s.alloc.total && s.alloc.used <= t.alloc.used
      && (c.None? || Present(s.mem[f][index]) ==> t.mem == s.mem)
      && (c.None? && 0 in s.alloc.used ==> t == s && forall g: nat :: g < s.alloc.total ==> g in s.alloc.used)
      && (c.Some? && !Present(s.mem[f][index]) ==>
            && 0 < c.value < MAX_FRAMES && !Reserved(s.alloc, c.value) && Reserved(t.alloc, c.value)
            && t.mem == s.mem[c.value := ZeroPage()][f := s.mem[f][index := c.value * 0x1000 + 3]])
  {
    AllocTakesLowestFree(s.alloc, IDENTITY_WINDOW_LIMIT);
  }

  lemma EnsureTableLocates(s: Machine, n: Node, index: nat, m: Node)
    requires Tree(s) && !n.Pd? && Locate(s, n).Some? && index < 512
    ensures
      var (t, c) := EnsureTable(s, Locate(s, n).value, index);
      Locate(t, m) == if m == Child(n, index) && c.Some? then c else Locate(s, m)
  {
    var f := Locate(s, n).value;
    var (t, c) := EnsureTable(s, f, index);
    EnsureTablePages(s, f, index);
    if Present(s.mem[f][index]) {
      assert PointsDown(s.mem[f][index]);
    } else if c.Some? {
      ParentEntryFields(c.value);
      assert Locate(s, Pml4) == Some(s.root);
      match m {
        case Pml4 =>
        case Pdpt(i) =>
        case Pd(i, j) =>
          assert Locate(s, Pdpt(i)) == Target(s.mem, s.root, i);
      }
    }
  }

  lemma EnsureTableKeepsTree(s: Machine, n: Node, index: nat)
    requires Tree(s) && !n.Pd? && Locate(s, n).Some? && index < 512
    ensures
      var (t, c) := EnsureTable(s, Locate(s, n).value, index);
      && Tree(t)
      && (c.Some? ==> Locate(t, Child(n, index)) == c && c.value < MAX_FRAMES)
  {
    var f := Locate(s, n).value;
    var (t, c) := EnsureTable(s, f, index);
    EnsureTablePages(s, f, index);
    forall m ensures Locate(t, m) == if m == Child(n, index) && c.Some? then c else Locate(s, m) {
      EnsureTableLocates(s, n, index, m);
    }
    if Present(s.mem[f][index]) {
      assert PointsDown(s.mem[f][index]);
    } else if c.Some? {
      ParentEntryFields(c.value);
      forall m | Locate(t, m).Some?
        ensures Reserved(t.alloc, Locate(t, m).value)
        ensures if m.Pd? then HugeEntries(t.mem[Locate(t, m).value]) else ParentEntries(t.mem[Locate(t, m).value])
      {
        if m == Child(n, index) {
        } else if m == n {
          assert ParentEntries(s.mem[f]);
        } else {
          assert t.mem[Locate(s, m).value] == s.mem[Locate(s, m).value];
        }
      }
    }
  }

  /** Making room for a table never changes a translation: the new table is empty. */
  lemma EnsureTableKeepsTranslation(s: Machine, n: Node, index: nat, va: nat)
    requires Tree(s) && !n.Pd? && Locate(s, n).Some? && index < 512
    ensures
      var (t, c) := EnsureTable(s, Locate(s, n).value, index);
      Translate(t.mem, t.root, va) == Translate(s.mem, s.root, va)
  {
    var f := Locate(s, n).value;
    var (t, c) := EnsureTable(s, f, index);
    var pd := Pd(Pml4Index(va), PdptIndex(va));
    EnsureTablePages(s, f, index);
    EnsureTableKeepsTree(s, n, index);
    EnsureTableLocates(s, n, index, pd);
    TranslateInTree(s, va);
    TranslateInTree(t, va);
    if !Present(s.mem[f][index]) && c.Some? {
      assert Locate(s, pd) == Some(f) ==> pd == n;
    }
  }

  // ---------------------------------------------------------------------
  // Writing a leaf changes one 2 MiB page
  // ---------------------------------------------------------------------

  /** The low bits of a word whose upper part is a multiple of 2 MiB. */
  lemma LowPresent(upper: nat, low: nat)
    requires low < 0x20_0000 && upper * 0x20_0000 + low < TWO64
    ensures Present(upper * 0x20_0000 + low) <==> Present(low)
    ensures Writable(upper * 0x20_0000 + low) <==> Writable(low)
  {
    AddMultiple(upper * 0x10_0000, 2, low);
    AddMultiple(upper * 0x8_0000, 2, low / 2);
  }

  lemma LowUser(upper: nat, low: nat)
    requires low < 0x20_0000 && upper * 0x20_0000 + low < TWO64
    ensures User(upper * 0x20_0000 + low) <==> User(low)
  {
    AddMultiple(upper * 0x8_0000, 4, low);
    AddMultiple(upper * 0x4_0000, 2, low / 4);
  }

  lemma LowHuge(upper: nat, low: nat)
    requires low < 0x20_0000 && upper * 0x20_0000 + low < TWO64
    ensures Huge(upper * 0x20_0000 + low) <==> Huge(low)
  {
    AddMultiple(upper * 0x4000, 128, low);
    AddMultiple(upper * 0x2000, 2, low / 128);
  }

  lemma LowBits(upper: nat, low: nat)
    requires low < 0x20_0000 && upper * 0x20_0000 + low < TWO64
    ensures
      var w: Word := upper * 0x20_0000 + low;
      && w / 0x20_0000 == upper
      && (Present(w) <==> Present(low)) && (Writable(w) <==> Writable(low))
      && (User(w) <==> User(low)) && (Huge(w) <==> Huge(low))
  {
    DivModUnique(upper, 0x20_0000, low);
    LowPresent(upper, low);
    LowUser(upper, low);
    LowHuge(upper, low);
  }

  /** The access bits of a leaf entry, below its frame. */
  function LeafLow(writable: bool, user: bool): Word {
    0x81 + (if writable then 2 else 0) + (if user then 4 else 0)
  }

  lemma LeafLowBits(writable: bool, user: bool)
    ensures
      var low := LeafLow(writable, user);
      low < 0x20_0000 && Present(low) && Huge(low) && (Writable(low) <==> writable) && (User(low) <==> user)
  {
  }

  /** Frame and NX bit of a word put together from NX, page number and low bits. */
  lemma LeafHigh(nx: nat, q: nat, low: nat)
    requires nx < 2 && q < 0x8000_0000 && low < 0x20_0000
    ensures
      var w: Word := (nx * 0x400_0000_0000 + q) * 0x20_0000 + low;
      Frame2m(w) == q && (NoExec(w) <==> nx == 1)
  {
    DivModUnique(nx * 0x400_0000_0000 + q, 0x20_0000, low);
    DivModUnique(nx * 0x800, 0x8000_0000, q);
    DivModUnique(nx, 0x8000_0000_0000_0000, q * 0x20_0000 + low);
  }

  /** The physical page of a leaf entry keeps bits 51..21 of the address. */
  lemma LeafPhys(phys: Word)
    requires phys % 0x20_0000 == 0
    ensures phys / 0x20_0000 % 0x8000_0000 * 0x20_0000 == phys % TWO52
  {
    var p := phys / 0x20_0000;
    DivModUnique(p / 0x8000_0000, TWO52, p % 0x8000_0000 * 0x20_0000);
  }

  lemma LeafEntryFields(phys: Word, flags: Word)
    requires phys % 0x20_0000 == 0
    ensures
      var w := LeafEntry(phys, flags);
      && Present(w) && Huge(w)
      && Frame2m(w) * 0x20_0000 == phys % TWO52
      && (Writable(w) <==> Writable(flags)) && (User(w) <==> User(flags)) && (NoExec(w) <==> NoExec(flags))
  {
    var q := phys / 0x20_0000 % 0x8000_0000;
    var nx := if NoExec(flags) then 1 else 0;
    var low := LeafLow(Writable(flags), User(flags));
    assert LeafEntry(phys, flags) == (nx * 0x400_0000_0000 + q) * 0x20_0000 + low;
    LeafLowBits(Writable(flags), User(flags));
    LowBits(nx * 0x400_0000_0000 + q, low);
    LeafHigh(nx, q, low);
    LeafPhys(phys);
  }

  /** A 48-bit address is determined by its 2 MiB page, and that by the three indices. */
  lemma IndicesDeterminePage(a: nat, b: nat)
    requires a < TWO48 && b < TWO48
    ensures a / 0x20_0000 == b / 0x20_0000 <==>
            Pml4Index(a) == Pml4Index(b) && PdptIndex(a) == PdptIndex(b) && PdIndex(a) == PdIndex(b)
  {
    PageNumber(a);
    PageNumber(b);
  }

  lemma PageNumber(x: nat)
    requires x < TWO48
    ensures x / 0x20_0000 == (Pml4Index(x) * 512 + PdptIndex(x)) * 512 + PdIndex(x)
  {
    var k := x / 0x20_0000;
    DivModUnique(k / 512, 0x4000_0000, k % 512 * 0x20_0000 + x % 0x20_0000);
    var m := x / 0x4000_0000;
    DivModUnique(m / 512, 0x80_0000_0000, m % 512 * 0x4000_0000 + x % 0x4000_0000);
  }

  lemma SetLeafKeepsTree(s: Machine, n: Node, k: nat, w: Word)
    requires Tree(s) && n.Pd? && Locate(s, n).Some? && k < 512 && Huge(w)
    ensures
      var t := SetLeaf(s, Locate(s, n).value, k, w);
      Tree(t) && forall m :: Locate(t, m) == Locate(s, m)
  {
    var d := Locate(s, n).value;
    var t := SetLeaf(s, d, k, w);
    assert Locate(s, Pml4) == Some(s.root);
    forall m ensures Locate(t, m) == Locate(s, m) {
      match m {
        case Pml4 =>
        case Pdpt(i) =>
        case Pd(i, j) =>
          assert Locate(s, Pdpt(i)) == Target(s.mem, s.root, i);
      }
    }
    forall m | Locate(t, m).Some?
      ensures if m.Pd? then HugeEntries(t.mem[Locate(t, m).value]) else ParentEntries(t.mem[Locate(t, m).value])
    {
      if m == n {
        assert HugeEntries(s.mem[d]);
      } else {
        assert t.mem[Locate(s, m).value] == s.mem[Locate(s, m).value];
      }
    }
  }

  lemma SetLeafTranslation(s: Machine, n: Node, k: nat, w: Word, va: nat)
    requires Tree(s) && n.Pd? && Locate(s, n).Some? && k < 512 && Huge(w)
    ensures
      var t := SetLeaf(s, Locate(s, n).value, k, w);
      Translate(t.mem, t.root, va) ==
      if n == Pd(Pml4Index(va), PdptIndex(va)) && k == PdIndex(va) then PdLeaf(w, va)
      else Translate(s.mem, s.root, va)
  {
    var t := SetLeaf(s, Locate(s, n).value, k, w);
    var pd := Pd(Pml4Index(va), PdptIndex(va));
    SetLeafKeepsTree(s, n, k, w);
    TranslateInTree(s, va);
    TranslateInTree(t, va);
    assert Locate(t, pd) == Locate(s, pd);
    if Locate(s, pd).Some? && pd != n {
      assert Locate(s, pd) != Locate(s, n);
    }
  }

  // ---------------------------------------------------------------------
  // vmm_map_2m
  // ---------------------------------------------------------------------

  /** The translation that a successful mapping installs for va. */
  function Installed(phys: Word, flags: Word, va: nat): Mapping {
    Mapping(phys % TWO52 + va % 0x20_0000, Writable(flags), User(flags), NoExec(flags), true, false)
  }

  /** Whether va lies in the 2 MiB page that virt names (bits 63..48 are ignored). */
  predicate SamePage(virt: Word, va: nat) {
    va / 0x20_0000 == virt % TWO48 / 0x20_0000
  }

  lemma HighBitsIgnored(hi: nat, v: nat)
    requires v < TWO48
    ensures
      var virt := hi * TWO48 + v;
      Pml4Index(virt) == Pml4Index(v) && PdptIndex(virt) == PdptIndex(v) && PdIndex(virt) == PdIndex(v)
  {
    AddMultiple(hi * 512, 0x80_0000_0000, v);
    AddMultiple(hi, 512, v / 0x80_0000_0000);
    AddMultiple(hi * 0x4_0000, 0x4000_0000, v);
    AddMultiple(hi * 512, 512, v / 0x4000_0000);
    AddMultiple(hi * 0x800_0000, 0x20_0000, v);
    AddMultiple(hi * 0x4_0000, 512, v / 0x20_0000);
  }

  lemma PageIndices(virt: Word, va: nat)
    requires va < TWO48
    ensures SamePage(virt, va) <==>
            Pml4Index(virt) == Pml4Index(va) && PdptIndex(virt) == PdptIndex(va) && PdIndex(virt) == PdIndex(va)
  {
    HighBitsIgnored(virt / TWO48, virt % TWO48);
    IndicesDeterminePage(virt % TWO48, va);
  }

  lemma LeafTranslation(phys: Word, flags: Word, va: nat)
    requires phys % 0x20_0000 == 0
    ensures Huge(LeafEntry(phys, flags))
    ensures PdLeaf(LeafEntry(phys, flags), va) == Some(Installed(phys, flags, va))
  {
    LeafEntryFields(phys, flags);
  }

  lemma PutLeafKeepsTree(s: Machine, i: nat, j: nat, k: nat, w: Word)
    requires Tree(s) && i < 512 && j < 512 && k < 512 && Huge(w)
    ensures Tree(PutLeaf(s, i, j, k, w).0)
  {
    assert Locate(s, Pml4) == Some(s.root);
    EnsureTableKeepsTree(s, Pml4, i);
    var (s1, pdpt) := EnsureTable(s, s.root, i);
    if pdpt.Some? {
      EnsureTableKeepsTree(s1, Pdpt(i), j);
      var (s2, pd) := EnsureTable(s1, pdpt.value, j);
      if pd.Some? {
        SetLeafKeepsTree(s2, Pd(i, j), k, w);
      }
    }
  }

  lemma MapKeepsTree(s: Machine, virt: Word, phys: Word, flags: Word)
    requires Tree(s)
    ensures Tree(Map(s, virt, phys, flags).0)
  {
    if Aligned(virt, phys) {
      LeafEntryFields(phys, flags);
      PutLeafKeepsTree(s, Pml4Index(virt), PdptIndex(virt), PdIndex(virt), LeafEntry(phys, flags));
    }
  }

  /** The walk of an address changes exactly when its three indices are the slot that was written. */
  lemma PutLeafUpdates(s: Machine, i: nat, j: nat, k: nat, w: Word, va: nat)
    requires Tree(s) && i < 512 && j < 512 && k < 512 && Huge(w)
    ensures
      var (t, ok) := PutLeaf(s, i, j, k, w);
      Translate(t.mem, t.root, va) ==
      if ok && i == Pml4Index(va) && j == PdptIndex(va) && k == PdIndex(va) then PdLeaf(w, va)
      else Translate(s.mem, s.root, va)
  {
    assert Locate(s, Pml4) == Some(s.root);
    EnsureTableKeepsTree(s, Pml4, i);
    EnsureTableKeepsTranslation(s, Pml4, i, va);
    var (s1, pdpt) := EnsureTable(s, s.root, i);
    if pdpt.Some? {
      EnsureTableKeepsTree(s1, Pdpt(i), j);
      EnsureTableKeepsTranslation(s1, Pdpt(i), j, va);
      var (s2, pd) := EnsureTable(s1, pdpt.value, j);
      if pd.Some? {
        SetLeafTranslation(s2, Pd(i, j), k, w, va);
      }
    }
  }

  lemma MapUpdates(s: Machine, virt: Word, phys: Word, flags: Word, va: nat)
    requires Tree(s) && va < TWO48
    ensures
      var (t, ok) := Map(s, virt, phys, flags);
      Translate(t.mem, t.root, va) ==
      if ok && SamePage(virt, va) then Some(Installed(phys, flags, va)) else Translate(s.mem, s.root, va)
  {
    if Aligned(virt, phys) {
      LeafTranslation(phys, flags, va);
      PageIndices(virt, va);
      PutLeafUpdates(s, Pml4Index(virt), PdptIndex(virt), PdIndex(virt), LeafEntry(phys, flags), va);
    }
  }

  /** The walk after is the walk before, with one page replaced. */
  ghost predicate MapsPage(before: Memory, after: Memory, root: nat, virt: Word, phys: Word, flags: Word) {
    forall va {:trigger Translate(after, root, va)} :: 0 <= va < TWO48 ==>
      Translate(after, root, va) ==
      if SamePage(virt, va) then Some(Installed(phys, flags, va)) else Translate(before, root, va)
  }

  ghost predicate SameWalk(before: Memory, after: Memory, root: nat) {
    forall va {:trigger Translate(after, root, va)} :: 0 <= va < TWO48 ==>
      Translate(after, root, va) == Translate(before, root, va)
  }

  lemma MapIsUpdate(s: Machine, virt: Word, phys: Word, flags: Word)
    requires Tree(s)
    ensures
      var (t, ok) := Map(s, virt, phys, flags);
      && Tree(t)
      && if ok then MapsPage(s.mem, t.mem, s.root, virt, phys, flags) else SameWalk(s.mem, t.mem, s.root)
  {
    var (t, ok) := Map(s, virt, phys, flags);
    MapKeepsTree(s, virt, phys, flags);
    forall va: nat | va < TWO48
      ensures Translate(t.mem, s.root, va) ==
              if ok && SamePage(virt, va) then Some(Installed(phys, flags, va)) else Translate(s.mem, s.root, va)
    {
      MapUpdates(s, virt, phys, flags, va);
    }
  }

  // ---------------------------------------------------------------------
  // Which requests there is room for
  // ---------------------------------------------------------------------

  /** The tables above the page that virt names, besides the PML4. */
  function Path(virt: Word): set<Node> {
    {Pdpt(Pml4Index(virt)), Pd(Pml4Index(virt), PdptIndex(virt))}
  }

  /** Those of the given tables that do not exist yet. */
  function Missing(s: Machine, nodes: set<Node>): set<Node> {
    set n | n in nodes && Locate(s, n).None?
  }

  /**
   Every missing table can get a frame of its own. While frame 0 is free it
   is the one that is taken, and taking it reads as a failure.
   */
  predicate HasRoom(s: Machine, nodes: set<Node>) {
    Missing(s, nodes) == {} || (0 in s.alloc.used && |s.alloc.used| + |Missing(s, nodes)| <= s.alloc.total)
  }

  predicate WithinTotal(a: Allocator) {
    a.total <= MAX_FRAMES && forall f :: f in a.used ==> f < a.total
  }

  /** t is s with exactly the missing ones of the given tables added, each in a frame that was free. */
  ghost predicate Grown(s: Machine, t: Machine, nodes: set<Node>) {
    && t.root == s.root && t.alloc.total == s.alloc.total && s.alloc.used <= t.alloc.used
    && |t.alloc.used| == |s.alloc.used| + |Missing(s, nodes)|
    && (0 in t.alloc.used <==> 0 in s.alloc.used) && (Missing(s, nodes) != {} ==> 0 in s.alloc.used)
    && forall n {:trigger Locate(t, n)} :: Locate(t, n).Some? <==> Locate(s, n).Some? || n in nodes
  }

  lemma SubsetSize<T>(a: set<T>, b: set<T>)
    requires a <= b
    ensures |a| <= |b|
  {
    assert b == a + (b - a);
  }

  lemma MissingInParts(s: Machine, t: Machine, a: set<Node>, b: set<Node>)
    requires Grown(s, t, a)
    ensures Missing(s, a + b) == Missing(s, a) + Missing(t, b) && Missing(s, a) !! Missing(t, b)
    ensures |Missing(s, a + b)| == |Missing(s, a)| + |Missing(t, b)|
  {
    assert forall n :: n in Missing(t, b) <==> n in b && n !in a && Locate(s, n).None?;
  }

  /** Growing by some tables and then by others is growing by all of them, */
  lemma GrownInParts(s: Machine, t: Machine, u: Machine, a: set<Node>, b: set<Node>)
    requires Grown(s, t, a) && Grown(t, u, b)
    ensures Grown(s, u, a + b)
  {
    MissingInParts(s, t, a, b);
  }

  /** and there is room for all exactly when there is room for the rest after the first part. */
  lemma RoomInParts(s: Machine, t: Machine, a: set<Node>, b: set<Node>)
    requires Grown(s, t, a) && WithinTotal(t.alloc)
    ensures HasRoom(s, a + b) <==> HasRoom(t, b)
  {
    MissingInParts(s, t, a, b);
    CountBelow(t.alloc.used, t.alloc.total);
  }

  lemma RoomForFewer(s: Machine, a: set<Node>, b: set<Node>)
    requires a <= b && HasRoom(s, b)
    ensures HasRoom(s, a)
  {
    SubsetSize(Missing(s, a), Missing(s, b));
  }

  lemma AllocSucceedsIffFree(a: Allocator)
    requires WithinTotal(a)
    ensures
      var (b, addr) := AllocBelow(a, IDENTITY_WINDOW_LIMIT);
      && (addr != 0 <==> 0 in a.used && |a.used| < a.total)
      && WithinTotal(b) && b.total == a.total && a.used <= b.used
      && (addr != 0 ==> |b.used| == |a.used| + 1 && (0 in b.used <==> 0 in a.used))
  {
    AllocTakesLowestFree(a, IDENTITY_WINDOW_LIMIT);
    CountBelow(a.used, a.total);
    if |a.used| == a.total {
      FullBelow(a.used, a.total);
    } else if AllocBelow(a, IDENTITY_WINDOW_LIMIT).1 == 0 && 0 in a.used {
      FullCount(a.used, a.total);
    }
  }

  /** One table: there is room for it exactly when it exists or a frame is free. */
  lemma EnsureTableGrows(s: Machine, n: Node, index: nat)
    requires Tree(s) && WithinTotal(s.alloc) && !n.Pd? && Locate(s, n).Some? && index < 512
    ensures
      var (t, c) := EnsureTable(s, Locate(s, n).value, index);
      && WithinTotal(t.alloc) && t.alloc.total == s.alloc.total && s.alloc.used <= t.alloc.used
      && (c.Some? <==> HasRoom(s, {Child(n, index)}))
      && (c.Some? ==> Grown(s, t, {Child(n, index)}))
  {
    var f := Locate(s, n).value;
    var (t, c) := EnsureTable(s, f, index);
    var child := Child(n, index);
    assert Locate(s, child) == Target(s.mem, f, index);
    assert Missing(s, {child}) == if Locate(s, child).None? then {child} else {};
    AllocSucceedsIffFree(s.alloc);
    if Present(s.mem[f][index]) {
      assert PointsDown(s.mem[f][index]);
    } else if c.Some? {
      forall m ensures Locate(t, m).Some? <==> Locate(s, m).Some? || m == child {
        EnsureTableLocates(s, n, index, m);
      }
    }
  }

  lemma PutInPdptGrows(s: Machine, i: nat, j: nat, k: nat, w: Word)
    requires Tree(s) && WithinTotal(s.alloc) && Locate(s, Pdpt(i)).Some? && j < 512 && k < 512 && Huge(w)
    ensures
      var (t, ok) := PutInPdpt(s, Locate(s, Pdpt(i)).value, j, k, w);
      && WithinTotal(t.alloc) && t.alloc.total == s.alloc.total && s.alloc.used <= t.alloc.used
      && (ok <==> HasRoom(s, {Pd(i, j)}))
      && (ok ==> Grown(s, t, {Pd(i, j)}))
      && (!ok && 0 in s.alloc.used ==> t == s)
  {
    AllocTakesLowestFree(s.alloc, IDENTITY_WINDOW_LIMIT);
    EnsureTableKeepsTree(s, Pdpt(i), j);
    EnsureTableGrows(s, Pdpt(i), j);
    var (t, pd) := EnsureTable(s, Locate(s, Pdpt(i)).value, j);
    if pd.Some? {
      SetLeafKeepsTree(t, Pd(i, j), k, w);
    }
  }

  lemma PutLeafGrows(s: Machine, i: nat, j: nat, k: nat, w: Word)
    requires Tree(s) && WithinTotal(s.alloc) && i < 512 && j < 512 && k < 512 && Huge(w)
    ensures
      var (t, ok) := PutLeaf(s, i, j, k, w);
      && WithinTotal(t.alloc) && t.alloc.total == s.alloc.total && s.alloc.used <= t.alloc.used
      && (ok <==> HasRoom(s, {Pdpt(i), Pd(i, j)}))
      && (ok ==> Grown(s, t, {Pdpt(i), Pd(i, j)}))
      && (!ok && 0 in s.alloc.used ==> t == s || Grown(s, t, {Pdpt(i)}))
  {
    AllocTakesLowestFree(s.alloc, IDENTITY_WINDOW_LIMIT);
    assert Locate(s, Pml4) == Some(s.root);
    EnsureTableKeepsTree(s, Pml4, i);
    EnsureTableGrows(s, Pml4, i);
    assert {Pdpt(i)} + {Pd(i, j)} == {Pdpt(i), Pd(i, j)};
    var (s1, pdpt) := EnsureTable(s, s.root, i);
    if pdpt.None? {
      if HasRoom(s, {Pdpt(i), Pd(i, j)}) {
        RoomForFewer(s, {Pdpt(i)}, {Pdpt(i), Pd(i, j)});
      }
    } else {
      PutInPdptGrows(s1, i, j, k, w);
      RoomInParts(s, s1, {Pdpt(i)}, {Pd(i, j)});
      var (t, ok) := PutInPdpt(s1, pdpt.value, j, k, w);
      if ok {
        GrownInParts(s, s1, t, {Pdpt(i)}, {Pd(i, j)});
      }
    }
  }

  /**
   A request succeeds exactly when both addresses are aligned and there is
   room for the tables of its path, and it then adds those and no others. A
   request that fails may have added the first of them.
   */
  lemma MapGrows(s: Machine, virt: Word, phys: Word, flags: Word)
    requires Tree(s) && WithinTotal(s.alloc)
    ensures
      var (t, ok) := Map(s, virt, phys, flags);
      && WithinTotal(t.alloc) && t.alloc.total == s.alloc.total && s.alloc.used <= t.alloc.used
      && (ok <==> Aligned(virt, phys) && HasRoom(s, Path(virt)))
      && (ok ==> Grown(s, t, Path(virt)))
      && (!ok && 0 in s.alloc.used ==> t == s || Grown(s, t, {Pdpt(Pml4Index(virt))}))
  {
    if Aligned(virt, phys) {
      LeafEntryFields(phys, flags);
      PutLeafGrows(s, Pml4Index(virt), PdptIndex(virt), PdIndex(virt), LeafEntry(phys, flags));
    }
  }

  // ---------------------------------------------------------------------
  // Tables stay where they are
  // ---------------------------------------------------------------------

  ghost predicate IsTable(s: Machine, f: nat) {
    exists n :: Locate(s, n) == Some(f)
  }

  /** Tables that exist stay where they are. */
  ghost predicate TablesStay(s: Machine, t: Machine) {
    forall n {:trigger Locate(t, n)} {:trigger Locate(s, n)} :: Locate(s, n).Some? ==> Locate(t, n) == Locate(s, n)
  }

  lemma EnsureTableStays(s: Machine, n: Node, index: nat)
    requires Tree(s) && !n.Pd? && Locate(s, n).Some? && index < 512
    ensures TablesStay(s, EnsureTable(s, Locate(s, n).value, index).0)
  {
    var f := Locate(s, n).value;
    var (t, c) := EnsureTable(s, f, index);
    forall m | Locate(s, m).Some? ensures Locate(t, m) == Locate(s, m) {
      EnsureTableLocates(s, n, index, m);
      if m == Child(n, index) {
        assert Locate(s, m) == Target(s.mem, f, index);
      }
    }
  }

  lemma PutLeafTablesStay(s: Machine, i: nat, j: nat, k: nat, w: Word)
    requires Tree(s) && i < 512 && j < 512 && k < 512 && Huge(w)
    ensures TablesStay(s, PutLeaf(s, i, j, k, w).0)
  {
    assert Locate(s, Pml4) == Some(s.root);
    EnsureTableKeepsTree(s, Pml4, i);
    EnsureTableStays(s, Pml4, i);
    var (s1, pdpt) := EnsureTable(s, s.root, i);
    if pdpt.Some? {
      EnsureTableKeepsTree(s1, Pdpt(i), j);
      EnsureTableStays(s1, Pdpt(i), j);
      var (s2, pd) := EnsureTable(s1, pdpt.value, j);
      if pd.Some? {
        SetLeafKeepsTree(s2, Pd(i, j), k, w);
      }
    }
  }

  lemma MapTablesStay(s: Machine, virt: Word, phys: Word, flags: Word)
    requires Tree(s)
    ensures TablesStay(s, Map(s, virt, phys, flags).0)
  {
    if Aligned(virt, phys) {
      LeafEntryFields(phys, flags);
      PutLeafTablesStay(s, Pml4Index(virt), PdptIndex(virt), PdIndex(virt), LeafEntry(phys, flags));
    }
  }

  lemma EnsureTableKeepsOtherFrames(s: Machine, n: Node, index: nat, g: nat)
    requires Tree(s) && !n.Pd? && Locate(s, n).Some? && index < 512
    requires Reserved(s.alloc, g) && !IsTable(s, g)
    ensures
      var t := EnsureTable(s, Locate(s, n).value, index).0;
      t.mem[g] == s.mem[g] && Reserved(t.alloc, g) && !IsTable(t, g)
  {
    var f := Locate(s, n).value;
    var (t, c) := EnsureTable(s, f, index);
    EnsureTablePages(s, f, index);
    assert g != f;
    if IsTable(t, g) {
      var m :| Locate(t, m) == Some(g);
      EnsureTableLocates(s, n, index, m);
    }
  }

  lemma PutLeafKeepsOtherFrames(s: Machine, i: nat, j: nat, k: nat, w: Word, g: nat)
    requires Tree(s) && i < 512 && j < 512 && k < 512 && Huge(w) && Reserved(s.alloc, g) && !IsTable(s, g)
    ensures
      var t := PutLeaf(s, i, j, k, w).0;
      t.mem[g] == s.mem[g] && Reserved(t.alloc, g) && !IsTable(t, g)
  {
    assert Locate(s, Pml4) == Some(s.root);
    EnsureTableKeepsTree(s, Pml4, i);
    EnsureTableKeepsOtherFrames(s, Pml4, i, g);
    var (s1, pdpt) := EnsureTable(s, s.root, i);
    if pdpt.Some? {
      EnsureTableKeepsTree(s1, Pdpt(i), j);
      EnsureTableKeepsOtherFrames(s1, Pdpt(i), j, g);
      var (s2, pd) := EnsureTable(s1, pdpt.value, j);
      if pd.Some? {
        SetLeafKeepsTree(s2, Pd(i, j), k, w);
        assert pd.value != g;
      }
    }
  }

  /** A frame in use for something else keeps its content and never becomes a table. */
  lemma MapKeepsOtherFrames(s: Machine, virt: Word, phys: Word, flags: Word, g: nat)
    requires Tree(s) && Reserved(s.alloc, g) && !IsTable(s, g)
    ensures
      var t := Map(s, virt, phys, flags).0;
      t.mem[g] == s.mem[g] && Reserved(t.alloc, g) && !IsTable(t, g)
  {
    if Aligned(virt, phys) {
      LeafEntryFields(phys, flags);
      PutLeafKeepsOtherFrames(s, Pml4Index(virt), PdptIndex(virt), PdIndex(virt), LeafEntry(phys, flags), g);
    }
  }

  /** Each table has exactly one parent slot, in exactly one parent table. */
  lemma OneParentSlot(s: Machine, n: Node, i: nat, m: Node, j: nat)
    requires Tree(s) && !n.Pd? && !m.Pd?
    requires Locate(s, n).Some? && Locate(s, m).Some? && i < 512 && j < 512
    requires Target(s.mem, Locate(s, n).value, i).Some?
    requires Target(s.mem, Locate(s, n).value, i) == Target(s.mem, Locate(s, m).value, j)
    ensures n == m && i == j
  {
    assert Locate(s, Child(n, i)) == Target(s.mem, Locate(s, n).value, i);
    assert Locate(s, Child(m, j)) == Target(s.mem, Locate(s, m).value, j);
  }
}
