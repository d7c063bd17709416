/** Mapping the linear framebuffer (kernel/src/core/video.c). */
module Video {
  import opened Common
  import opened Pmm
  import opened Paging
  import opened Vmm
  import opened Window
  import P = PageMap

  const HUGE_PAGE := 0x20_0000
  const MAP_MAX_BYTES := 0x1000_0000

  datatype Framebuffer = Framebuffer(present: bool, mapped: bool, physAddr: Word, sizeBytes: Word)

  /** `value & ~(2 MiB - 1)` */
  function AlignDown2m(value: Word): (r: Word)
    ensures r % HUGE_PAGE == 0 && r <= value < r + HUGE_PAGE
  {
    value / 0x20_0000 * 0x20_0000
  }

  /** `(value + 2 MiB - 1) & ~(2 MiB - 1)`, with the addition wrapping at 64 bits. */
  function AlignUp2m(value: Word): Word {
    AlignDown2m(Wrap64(value + HUGE_PAGE - 1))
  }

  /** The range the mapping loop walks. */
  function MapStart(fb: Framebuffer): Word { AlignDown2m(fb.physAddr) }
  function MapEnd(fb: Framebuffer): Word { AlignUp2m(Wrap64(fb.physAddr + fb.sizeBytes)) }

  predicate Accepted(fb: Framebuffer) {
    && fb.present && 0 < fb.sizeBytes <= MAP_MAX_BYTES
    && MapStart(fb) < MapEnd(fb)
  }

  /** A range that is accepted has wrapped nowhere and covers the framebuffer tightly. */
  lemma AcceptedNeverWrapped(fb: Framebuffer)
    requires Accepted(fb)
    ensures fb.physAddr + fb.sizeBytes + HUGE_PAGE - 1 < TWO64
    ensures MapStart(fb) <= fb.physAddr
    ensures fb.physAddr + fb.sizeBytes <= MapEnd(fb) < fb.physAddr + fb.sizeBytes + HUGE_PAGE
    ensures MapStart(fb) % HUGE_PAGE == 0 && MapEnd(fb) % HUGE_PAGE == 0
    ensures MapEnd(fb) - MapStart(fb) <= 0x1040_0000
  {
  }

  /** Nothing else is rejected: up to 256 MiB at an address whose sums stay below 2^64. */
  lemma AcceptedIff(fb: Framebuffer)
    ensures Accepted(fb) <==>
            fb.present && 1 <= fb.sizeBytes <= 0x1000_0000 && fb.physAddr + fb.sizeBytes + 0x1F_FFFF < TWO64
  {
  }

  /** Distance of va above start, on the 48-bit circle of linear addresses. */
  function Offset(start: int, va: int): (d: nat)
    ensures d < TWO48
  {
    (va - start) % 0x1_0000_0000_0000
  }

  /** What identity-mapping [start, stop) page by page makes of a translation. */
  function RangeMapped(start: nat, stop: nat, va: nat, before: Option<Mapping>): Option<Mapping> {
    if start + Offset(start, va) < stop
    then Some(Mapping((start + Offset(start, va)) % TWO52, true, false, false, true, false))
    else before
  }

  lemma SamePageIsSmallOffset(addr: Word, va: nat)
    requires addr % HUGE_PAGE == 0 && va < TWO48
    ensures P.SamePage(addr, va) <==> Offset(addr, va) < HUGE_PAGE
    ensures P.SamePage(addr, va) ==> Offset(addr, va) == va % HUGE_PAGE
  {
    var q, v := addr / TWO48, addr % TWO48;
    AddMultiple(-q * 0x800_0000, 0x20_0000, addr);
    assert v == v / 0x20_0000 * 0x20_0000;
    if va >= v {
      DivModUnique(-q, TWO48, va - v);
    } else {
      DivModUnique(-q - 1, TWO48, va - v + TWO48);
    }
  }

  /** The offset from a point further on, for a point less than a full circle away. */
  lemma OffsetsAgree(start: nat, addr: nat, va: nat)
    requires start <= addr < start + 0x1040_0000
    ensures
      var x := start + Offset(start, va);
      Offset(addr, va) == if x >= addr then x - addr else x - addr + TWO48
  {
    var q := (va - start) / TWO48;
    var x := start + Offset(start, va);
    assert va - addr == q * TWO48 + (x - addr);
    if x >= addr {
      DivModUnique(q, TWO48, x - addr);
    } else {
      DivModUnique(q - 1, TWO48, x - addr + TWO48);
    }
  }

  /** One more page extends the mapped range by 2 MiB. */
  lemma ExtendRange(start: nat, addr: Word, va: nat, before: Option<Mapping>)
    requires start % HUGE_PAGE == 0 && addr % HUGE_PAGE == 0
    requires start <= addr < start + 0x1040_0000 && va < TWO48
    ensures
      RangeMapped(start, addr + HUGE_PAGE, va, before) ==
      if P.SamePage(addr, va) then Some(P.Installed(addr, 2, va)) else RangeMapped(start, addr, va, before)
  {
    SamePageIsSmallOffset(addr, va);
    OffsetsAgree(start, addr, va);
    var x := start + Offset(start, va);
    if P.SamePage(addr, va) {
      assert x == addr + va % HUGE_PAGE;
      InsideOnePage(addr, va % HUGE_PAGE);
    }
  }

  /** The walk in memory `after` is the walk in memory `before` with [start, stop) identity mapped. */
  ghost predicate IsMapped(before: Memory, after: Memory, root: nat, start: nat, stop: nat) {
    forall va {:trigger Translate(after, root, va)} :: 0 <= va < TWO48 ==>
      Translate(after, root, va) == RangeMapped(start, stop, va, Translate(before, root, va))
  }

  lemma ExtendMapped(m0: Memory, m1: Memory, m2: Memory, root: nat, start: nat, addr: Word)
    requires start % HUGE_PAGE == 0 && addr % HUGE_PAGE == 0
    requires start <= addr < start + 0x1040_0000
    requires IsMapped(m0, m1, root, start, addr)
    requires P.MapsPage(m1, m2, root, addr, addr, 2)
    ensures IsMapped(m0, m2, root, start, addr + HUGE_PAGE)
  {
    forall va: nat | va < TWO48
      ensures Translate(m2, root, va) == RangeMapped(start, addr + HUGE_PAGE, va, Translate(m0, root, va))
    {
      ExtendRange(start, addr, va, Translate(m0, root, va));
    }
  }

  lemma InsideOnePage(addr: nat, d: nat)
    requires addr % HUGE_PAGE == 0 && d < HUGE_PAGE
    ensures (addr + d) % TWO52 == addr % TWO52 + d
  {
    var page := addr / 0x20_0000;
    var q, c := page / 0x8000_0000, page % 0x8000_0000;
    DivModUnique(q, TWO52, c * 0x20_0000 + d);
    DivModUnique(q, TWO52, c * 0x20_0000);
  }

  /** The first GiB is identity mapped and writable. */
  ghost predicate FirstGiBIdentity(mem: Memory, root: nat) {
    forall va {:trigger Translate(mem, root, va)} :: 0 <= va < 0x4000_0000 ==>
      Translate(mem, root, va) == Some(Mapping(va, true, false, false, true, false))
  }

  lemma IdentityIsOpen(s: Machine)
    requires FirstGiBIdentity(s.mem, s.root)
    ensures Open(s)
  {
    forall va: nat | va < 0x4000_0000 ensures Reaches(Translate(s.mem, s.root, va), va) {
      assert Translate(s.mem, s.root, va) == Some(Mapping(va, true, false, false, true, false));
    }
  }

  /**
   Physical ranges at or above 2^48 fold onto low linear addresses. This says
   that the range [start, stop) reaches into a fold of the first GiB whose
   bits 51..48 are not zero.
   */
  predicate FoldsOntoFirstGiB(start: nat, stop: nat) {
    || (start % TWO48 < 0x4000_0000 && start / TWO48 % 16 != 0)
    || ((start / TWO48 + 1) * TWO48 < stop && (start / TWO48 + 1) % 16 != 0)
  }

  /** The identity map of the first GiB survives the mapping of a range exactly when the range does not fold onto it. */
  lemma FirstGiBSurvivesIff(start: nat, stop: nat)
    requires start < stop <= start + 0x1040_0000
    ensures
      (forall va: nat :: va < 0x4000_0000 ==>
        RangeMapped(start, stop, va, Some(Mapping(va, true, false, false, true, false)))
        == Some(Mapping(va, true, false, false, true, false)))
      <==> !FoldsOntoFirstGiB(start, stop)
  {
    var q, r := start / TWO48, start % TWO48;
    if r < 0x4000_0000 && q % 16 != 0 {
      FoldedOffset(start, r);
      FoldedAddress(q, r);
      assert RangeMapped(start, stop, r, Some(Mapping(r, true, false, false, true, false)))
          != Some(Mapping(r, true, false, false, true, false));
    } else if (q + 1) * TWO48 < stop && (q + 1) % 16 != 0 {
      FoldedOffset(start, 0);
      FoldedAddress(q + 1, 0);
      assert RangeMapped(start, stop, 0, Some(Mapping(0, true, false, false, true, false)))
          != Some(Mapping(0, true, false, false, true, false));
    } else {
      forall va: nat | va < 0x4000_0000 && start + Offset(start, va) < stop
        ensures (start + Offset(start, va)) % TWO52 == va
      {
        FoldedOffset(start, va);
        FoldedAddress(if va >= r then q else q + 1, va);
      }
    }
  }

  lemma FoldedOffset(start: nat, va: nat)
    requires va < TWO48
    ensures start + Offset(start, va) ==
            (if va >= start % TWO48 then start / TWO48 else start / TWO48 + 1) * TWO48 + va
  {
    var q, r := start / TWO48, start % TWO48;
    if va >= r {
      DivModUnique(-q, TWO48, va - r);
    } else {
      DivModUnique(-q - 1, TWO48, va - r + TWO48);
    }
  }

  lemma FoldedAddress(q: nat, r: nat)
    requires r < TWO48
    ensures (q * TWO48 + r) % TWO52 == (q % 16) * TWO48 + r
  {
    DivModUnique(q / 16, TWO52, (q % 16) * TWO48 + r);
  }

  // ---------------------------------------------------------------------
  // Which pages of a range close the identity window
  // ---------------------------------------------------------------------

  /** Pages of 2 MiB in the 64-bit address space. */
  const PAGES := 0x800_0000_0000

  /** Page k, mapped to itself, leaves the identity window open. */
  predicate Keeps(k: nat)
    requires k < PAGES
  {
    KeepsWindow(k * HUGE_PAGE, k * HUGE_PAGE, 2)
  }

  ghost predicate KeepsAll(k: nat, n: nat)
    requires n < PAGES
  {
    forall i :: k <= i < n ==> Keeps(i)
  }

  lemma KeepsIff(k: nat)
    requires k < PAGES
    ensures Keeps(k) <==> k * HUGE_PAGE % TWO48 >= 0x4000_0000 || k * HUGE_PAGE / TWO48 % 16 == 0
  {
    var a := k * HUGE_PAGE;
    FoldedAddress(a / TWO48, a % TWO48);
  }

  lemma FoldPoint(q: nat)
    ensures q * TWO48 / TWO48 == q && q * TWO48 % TWO48 == 0 && q * TWO48 == q * 0x800_0000 * HUGE_PAGE
  {
    DivModUnique(q, TWO48, 0);
  }

  /** Two points less than a circle apart have the same number of turns, or one more. */
  lemma Turns(start: nat, a: nat)
    requires start <= a < start + 0x1040_0000
    ensures a / TWO48 == start / TWO48 ==> a % TWO48 >= start % TWO48
    ensures a / TWO48 == start / TWO48 || a / TWO48 == start / TWO48 + 1
  {
    var q, r := start / TWO48, start % TWO48;
    if r + (a - start) < TWO48 {
      DivModUnique(q, TWO48, r + (a - start));
    } else {
      DivModUnique(q + 1, TWO48, r + (a - start) - TWO48);
    }
  }

  /** The folding condition says exactly that some page of the range closes the window. */
  lemma FoldsIffSomePageCloses(k: nat, n: nat)
    requires k < n < PAGES && n <= k + 0x82
    ensures KeepsAll(k, n) <==> !FoldsOntoFirstGiB(k * HUGE_PAGE, n * HUGE_PAGE)
  {
    var start, stop := k * HUGE_PAGE, n * HUGE_PAGE;
    var q := start / TWO48;
    if start % TWO48 < 0x4000_0000 && q % 16 != 0 {
      KeepsIff(k);
      assert !Keeps(k);
    } else if (q + 1) * TWO48 < stop && (q + 1) % 16 != 0 {
      FoldPoint(q + 1);
      KeepsIff((q + 1) * 0x800_0000);
      assert !Keeps((q + 1) * 0x800_0000);
    } else {
      forall i | k <= i < n ensures Keeps(i) {
        KeepsIff(i);
        Turns(start, i * HUGE_PAGE);
      }
    }
  }

  /** A description at 2^48 is accepted and folds onto the page that holds the kernel image. */
  lemma FoldingDescription()
    ensures
      var fb := Framebuffer(true, false, TWO48, 0x20_0000);
      Accepted(fb) && FoldsOntoFirstGiB(MapStart(fb), MapEnd(fb))
  {
  }

  // ---------------------------------------------------------------------
  // The tables a range needs
  // ---------------------------------------------------------------------

  /** The tables above pages k to n - 1. */
  function Tables(k: nat, n: nat): set<Node>
    requires n < PAGES
    decreases n
  {
    if n <= k then {} else Tables(k, n - 1) + P.Path((n - 1) * HUGE_PAGE)
  }

  lemma {:induction false} TablesInclude(k: nat, i: nat, n: nat)
    requires i <= n < PAGES
    ensures Tables(k, i) <= Tables(k, n)
    decreases n
  {
    if i < n {
      TablesInclude(k, i, n - 1);
    }
  }

  /** The loop can reach page i, and no further unless i is the end of the range. */
  ghost predicate StopsAt(s: Machine, k: nat, i: nat, n: nat)
    requires k <= i <= n < PAGES
  {
    P.HasRoom(s, Tables(k, i)) && (i < n ==> !P.HasRoom(s, Tables(k, i + 1)))
  }

  /** It reaches the end exactly when there is room for all tables of the range. */
  lemma StopsAtEndIffRoom(s: Machine, k: nat, i: nat, n: nat)
    requires k <= i <= n < PAGES && StopsAt(s, k, i, n)
    ensures i == n <==> P.HasRoom(s, Tables(k, n))
  {
    if i < n && P.HasRoom(s, Tables(k, n)) {
      TablesInclude(k, i + 1, n);
      P.RoomForFewer(s, Tables(k, i + 1), Tables(k, n));
    }
  }

  /** What has been added fitted. */
  lemma GrownHadRoom(s: Machine, t: Machine, nodes: set<Node>)
    requires P.Grown(s, t, nodes) && P.WithinTotal(t.alloc)
    ensures P.HasRoom(s, nodes)
  {
    CountBelow(t.alloc.used, t.alloc.total);
  }

  /** Page i after the pages from k on. */
  lemma OnePageMore(s: Machine, t: Machine, k: nat, i: nat)
    requires k <= i && i + 1 < PAGES && P.Grown(s, t, Tables(k, i)) && P.WithinTotal(t.alloc)
    ensures P.HasRoom(s, Tables(k, i + 1)) <==> P.HasRoom(t, P.Path(i * HUGE_PAGE))
  {
    P.RoomInParts(s, t, Tables(k, i), P.Path(i * HUGE_PAGE));
  }

  /** A range that is accepted reaches into at most two 1 GiB regions, so it needs at most four tables. */
  lemma {:induction false} AtMostFourTables(k: nat, n: nat)
    requires k < n < PAGES && n <= k + 0x82
    ensures Tables(k, n) <= P.Path(k * HUGE_PAGE) + P.Path((n - 1) * HUGE_PAGE)
    ensures |Tables(k, n)| <= 4
    decreases n
  {
    assert Tables(k, n) == Tables(k, n - 1) + P.Path((n - 1) * HUGE_PAGE);
    if k < n - 1 {
      AtMostFourTables(k, n - 1);
      MiddlePage(k * HUGE_PAGE, (n - 2) * HUGE_PAGE, (n - 1) * HUGE_PAGE);
    } else {
      assert Tables(k, k) == {};
    }
    P.SubsetSize(Tables(k, n), P.Path(k * HUGE_PAGE) + P.Path((n - 1) * HUGE_PAGE));
  }

  /** A point between two others less than 1 GiB apart shares the tables of one of them. */
  lemma MiddlePage(a: Word, b: Word, c: Word)
    requires a <= b <= c < a + 0x4000_0000
    ensures P.Path(b) == P.Path(a) || P.Path(b) == P.Path(c)
  {
    assert b / 0x4000_0000 == a / 0x4000_0000 || b / 0x4000_0000 == c / 0x4000_0000;
    PathByGiB(a);
    PathByGiB(b);
    PathByGiB(c);
  }

  lemma PathByGiB(a: Word)
    ensures var g := a / 0x4000_0000; P.Path(a) == {Pdpt(g / 512 % 512), Pd(g / 512 % 512, g % 512)}
  {
    assert a / 0x80_0000_0000 == a / 0x4000_0000 / 512;
  }

  /** The tables a framebuffer needs. */
  function FramebufferTables(fb: Framebuffer): set<Node> {
    Tables(MapStart(fb) / HUGE_PAGE, MapEnd(fb) / HUGE_PAGE)
  }

  /** The loop counter at page i of a range: aligned, inside, and its step does not wrap. */
  lemma LoopCounter(k: nat, i: nat, n: nat)
    requires k <= i < n < PAGES && i < k + 0x82
    ensures i * HUGE_PAGE % HUGE_PAGE == 0 && (i + 1) * HUGE_PAGE == i * HUGE_PAGE + HUGE_PAGE
    ensures k * HUGE_PAGE <= i * HUGE_PAGE < k * HUGE_PAGE + 0x1040_0000
    ensures i * HUGE_PAGE + HUGE_PAGE <= n * HUGE_PAGE
    ensures Wrap64(i * HUGE_PAGE + HUGE_PAGE) == i * HUGE_PAGE + HUGE_PAGE
  {
    DivModUnique(i, HUGE_PAGE, 0);
  }

  /** The machine s after pages k to i - 1 of a walk that began in s0, its window still open. */
  ghost predicate MappedTo(s0: Machine, s: Machine, k: nat, i: nat) {
    s.root == s0.root && Tree(s) && Open(s) && IsMapped(s0.mem, s.mem, s0.root, k * HUGE_PAGE, i * HUGE_PAGE)
  }

  /** Pages k to i - 1 were mapped when the window closed: the tables are still a tree but cannot be relied on. */
  ghost predicate ClosedAfter(s0: Machine, s: Machine, k: nat, i: nat) {
    s.root == s0.root && Tree(s) && !Open(s) && IsMapped(s0.mem, s.mem, s0.root, k * HUGE_PAGE, i * HUGE_PAGE)
  }

  /** What the call for page i makes of it. */
  ghost predicate PageDone(s0: Machine, t: Machine, k: nat, i: nat, ok: bool)
    requires k <= i && i + 1 < PAGES
  {
    && (ok <==> P.HasRoom(s0, Tables(k, i + 1)))
    && if !ok then MappedTo(s0, t, k, i)
       else if Keeps(i) then MappedTo(s0, t, k, i + 1) && P.Grown(s0, t, Tables(k, i + 1))
       else ClosedAfter(s0, t, k, i + 1)
  }

  /** The walk and the tables after one more call of the mapper. */
  lemma OnePageDone(s0: Machine, s: Machine, t: Machine, k: nat, i: nat, ok: bool)
    requires k <= i < k + 0x82 && i + 1 < PAGES
    requires MappedTo(s0, s, k, i) && P.Grown(s0, s, Tables(k, i)) && P.WithinTotal(s.alloc)
    requires t.root == s.root && Tree(t) && (Open(t) <==> !ok || Keeps(i))
    requires ok <==> P.HasRoom(s, P.Path(i * HUGE_PAGE))
    requires ok ==> P.Grown(s, t, P.Path(i * HUGE_PAGE))
    requires if ok then P.MapsPage(s.mem, t.mem, s.root, i * HUGE_PAGE, i * HUGE_PAGE, 2)
             else P.SameWalk(s.mem, t.mem, s.root)
    ensures PageDone(s0, t, k, i, ok)
  {
    OnePageMore(s0, s, k, i);
    LoopCounter(k, i, i + 1);
    DivModUnique(k, HUGE_PAGE, 0);
    if ok {
      ExtendMapped(s0.mem, s.mem, t.mem, s0.root, k * HUGE_PAGE, i * HUGE_PAGE);
      P.GrownInParts(s0, s, t, Tables(k, i), P.Path(i * HUGE_PAGE));
    }
  }

  /**
   Where the loop stands before page i: with the window open it has mapped
   the pages so far; otherwise `closed` is the machine after page `at` - 1.
   */
  ghost predicate Walking(s0: Machine, s: Machine, closed: Option<Machine>, k: nat, at: nat, i: nat, n: nat)
    requires n < PAGES
  {
    && k <= at <= i <= n
    && match closed
       case None => at == i && KeepsAll(k, i) && MappedTo(s0, s, k, i) && P.Grown(s0, s, Tables(k, i))
       case Some(c) => !KeepsAll(k, n) && ClosedAfter(s0, c, k, at)
  }

  /** What MapRange promises when the loop leaves at page `at`. */
  ghost predicate Walked(s0: Machine, s: Machine, closed: Option<Machine>, k: nat, at: nat, n: nat)
    requires n < PAGES
  {
    && k <= at <= n
    && match closed
       case None => MappedTo(s0, s, k, at) && StopsAt(s0, k, at, n)
       case Some(c) => ClosedAfter(s0, c, k, at)
  }

  lemma WalksOn(s0: Machine, s: Machine, t: Machine, closed: Option<Machine>, k: nat, at: nat, i: nat, n: nat)
    requires n < PAGES && i < n && Walking(s0, s, closed, k, at, i, n)
    requires closed.None? ==> PageDone(s0, t, k, i, true)
    ensures closed.Some? ==> Walking(s0, t, closed, k, at, i + 1, n)
    ensures closed.None? ==> Walking(s0, t, if Keeps(i) then None else Some(t), k, i + 1, i + 1, n)
  {
  }

  lemma WalkFails(s0: Machine, s: Machine, t: Machine, closed: Option<Machine>, k: nat, at: nat, i: nat, n: nat)
    requires n < PAGES && i < n && Walking(s0, s, closed, k, at, i, n) && P.WithinTotal(s.alloc)
    requires closed.None? ==> PageDone(s0, t, k, i, false)
    ensures Walked(s0, t, closed, k, at, n) && (closed.None? ==> at < n) && (closed.Some? ==> !KeepsAll(k, n))
  {
    if closed.None? {
      GrownHadRoom(s0, s, Tables(k, i));
    }
  }

  lemma WalkEnds(s0: Machine, s: Machine, closed: Option<Machine>, k: nat, at: nat, n: nat)
    requires n < PAGES && Walking(s0, s, closed, k, at, n, n) && P.WithinTotal(s.alloc)
    ensures Walked(s0, s, closed, k, at, n) && (closed.None? ==> at == n) && (closed.Some? <==> !KeepsAll(k, n))
  {
    if closed.None? {
      GrownHadRoom(s0, s, Tables(k, n));
    }
  }

  lemma WalkStarts(s0: Machine, k: nat, n: nat)
    requires k < n < PAGES && Tree(s0) && Open(s0)
    ensures Walking(s0, s0, None, k, k, k, n)
  {
  }

  /** The framebuffer's pages up to stop are mapped: all of them exactly when there was room for their tables. */
  ghost predicate MappedPart(s0: Machine, s: Machine, fb: Framebuffer, stop: nat, ok: bool) {
    && s.root == s0.root && Tree(s) && Open(s)
    && MapStart(fb) <= stop <= MapEnd(fb) && (ok <==> stop == MapEnd(fb))
    && (ok <==> P.HasRoom(s0, FramebufferTables(fb)))
    && IsMapped(s0.mem, s.mem, s0.root, MapStart(fb), stop)
  }

  lemma PageBounds(start: Word, end: Word, at: nat)
    requires start % HUGE_PAGE == 0 && end % HUGE_PAGE == 0 && start / HUGE_PAGE <= at <= end / HUGE_PAGE
    ensures start <= at * HUGE_PAGE <= end && at * HUGE_PAGE / HUGE_PAGE == at
    ensures start / HUGE_PAGE * HUGE_PAGE == start && (at == end / HUGE_PAGE <==> at * HUGE_PAGE == end)
  {
    DivModUnique(at, HUGE_PAGE, 0);
  }

  class FramebufferDriver {
    var fb: Framebuffer
    const vmm: PageMapper

    constructor (vmm: PageMapper, fb: Framebuffer)
      ensures this.vmm == vmm && this.fb == fb
    {
      this.vmm := vmm;
      this.fb := fb;
    }

    /** The call for page i, */
    method MapPage(ghost s0: Machine, ghost k: nat, ghost i: nat, addr: Word) returns (r: Outcome<bool>)
      requires vmm.pmm.Valid()
      requires k <= i < k + 0x82 && i + 1 < PAGES && addr == i * HUGE_PAGE
      modifies vmm`mem, vmm.pmm`usedFrames, vmm.pmm.bitmap
      ensures vmm.pmm.Valid()
      ensures old(MappedTo(s0, vmm.View(), k, i) && P.Grown(s0, vmm.View(), Tables(k, i))) ==>
                r.Done? && PageDone(s0, vmm.View(), k, i, r.value)
    {
      ghost var s := vmm.View();
      LoopCounter(k, i, i + 1);
      r := vmm.Map2m(addr, addr, 2);
      if MappedTo(s0, s, k, i) && P.Grown(s0, s, Tables(k, i)) {
        OnePageDone(s0, s, vmm.View(), k, i, r.value);
      }
    }

    /** and where the loop stands after it. */
    method MapOne(ghost s0: Machine, ghost k: nat, ghost i: nat, ghost next: nat, ghost n: nat, addr: Word,
                  ghost at0: nat, ghost closed0: Option<Machine>)
      returns (r: Outcome<bool>, ghost at: nat, ghost closed: Option<Machine>)
      requires vmm.pmm.Valid()
      requires k <= i < next == i + 1 <= n < PAGES && n <= k + 0x82 && addr == i * HUGE_PAGE
      requires Walking(s0, vmm.View(), closed0, k, at0, i, n)
      modifies vmm`mem, vmm.pmm`usedFrames, vmm.pmm.bitmap
      ensures vmm.pmm.Valid()
      ensures r == Done(true) ==> Walking(s0, vmm.View(), closed, k, at, next, n)
      ensures r != Done(true) ==>
        && Walked(s0, vmm.View(), closed, k, at, n)
        && (if closed.None? then r.Done? && at < n else !KeepsAll(k, n))
    {
      ghost var s := vmm.View();
      r := MapPage(s0, k, i, addr);
      at, closed := at0, closed0;
      if r == Done(true) {
        WalksOn(s0, s, vmm.View(), closed, k, at, i, n);
        if closed.None? {
          at, closed := i + 1, if Keeps(i) then None else Some(vmm.View());
        }
      } else {
        WalkFails(s0, s, vmm.View(), closed, k, at, i, n);
      }
    }

    /**
     The mapping loop over [mapStart, mapEnd), from a tree with its window
     open. While the window stays open, the loop has mapped exactly the pages
     up to page `at`, and it stops before the end exactly where there is no
     room for the tables of the next page. If a page closes the window,
     `closed` is the machine right after it, `at` the page that follows, and
     nothing is promised about the rest of the loop.
     */
    method MapRange(mapStart: Word, mapEnd: Word)
      returns (r: Outcome<bool>, ghost at: nat, ghost closed: Option<Machine>)
      requires vmm.Valid()
      requires mapStart < mapEnd <= mapStart + 0x1040_0000
      requires mapStart % HUGE_PAGE == 0 && mapEnd % HUGE_PAGE == 0
      modifies vmm`mem, vmm.pmm`usedFrames, vmm.pmm.bitmap
      ensures vmm.pmm.Valid()
      ensures Walked(old(vmm.View()), vmm.View(), closed, mapStart / HUGE_PAGE, at, mapEnd / HUGE_PAGE)
      ensures closed.None? ==> r.Done? && (r.value <==> at == mapEnd / HUGE_PAGE)
      ensures closed.Some? || r == Done(true) ==> (closed.Some? <==> FoldsOntoFirstGiB(mapStart, mapEnd))
    {
      ghost var k, n := mapStart / HUGE_PAGE, mapEnd / HUGE_PAGE;
      ghost var i := k;
      ghost var s0 := vmm.View();
      FoldsIffSomePageCloses(k, n);
      WalkStarts(s0, k, n);
      var addr: nat := mapStart;
      at, closed := k, None;
      while addr < mapEnd
        invariant vmm.pmm.Valid() && k <= at <= i <= n
        invariant addr == i * HUGE_PAGE
        invariant Walking(s0, vmm.View(), closed, k, at, i, n)
      {
        LoopCounter(k, i, n);
        ghost var page := i;
        i := i + 1;
        r, at, closed := MapOne(s0, k, page, i, n, addr, at, closed);
        if r != Done(true) {
          return;
        }
        addr := Wrap64(addr + HUGE_PAGE);
      }
      WalkEnds(s0, vmm.View(), closed, k, at, n);
      return Done(true), at, closed;
    }

    /**
     `video_map_framebuffer`. For a range that does not fold, success maps
     exactly the enclosing 2 MiB pages, and there is success exactly when there
     is room for all their tables; a failure part way has mapped an initial
     piece of them and nothing else.
     */
    method MapFramebuffer() returns (r: Outcome<bool>, ghost stop: nat, ghost closed: Option<Machine>)
      requires vmm.Valid()
      modifies this, vmm`mem, vmm.pmm`usedFrames, vmm.pmm.bitmap
      ensures vmm.pmm.Valid()
      ensures !Accepted(old(fb)) ==>
        r == Done(false) && vmm.mem == old(vmm.mem) && vmm.Valid() && fb == old(fb) && closed.None?
      ensures Accepted(old(fb)) ==>
        && fb == (if r.Done? then old(fb).(mapped := r.value) else old(fb))
        && (closed.Some? || r == Done(true) ==>
              (closed.Some? <==> FoldsOntoFirstGiB(MapStart(old(fb)), MapEnd(old(fb)))))
        && match closed
           case None => r.Done? && MappedPart(old(vmm.View()), vmm.View(), old(fb), stop, r.value)
           case Some(c) => ClosedAfter(old(vmm.View()), c, MapStart(old(fb)) / HUGE_PAGE, stop / HUGE_PAGE)
    {
      closed := None;
      if !fb.present || fb.sizeBytes == 0 {
        return Done(false), 0, closed;
      }
      if fb.sizeBytes > MAP_MAX_BYTES {
        return Done(false), 0, closed;
      }
      var mapStart := AlignDown2m(fb.physAddr);
      var mapEnd := AlignUp2m(Wrap64(fb.physAddr + fb.sizeBytes));
      if mapEnd <= mapStart {
        return Done(false), 0, closed;
      }
      AcceptedNeverWrapped(fb);
      ghost var s0 := vmm.View();
      ghost var at;
      r, at, closed := MapRange(mapStart, mapEnd);
      stop := at * HUGE_PAGE;
      PageBounds(mapStart, mapEnd, at);
      if closed.None? {
        StopsAtEndIffRoom(s0, mapStart / HUGE_PAGE, at, mapEnd / HUGE_PAGE);
      }
      if r.Done? {
        fb := fb.(mapped := r.value);
      }
    }
  }

  /** After success every framebuffer byte in the canonical lower half translates to itself, writable. */
  lemma FramebufferIsIdentityMapped(fb: Framebuffer, x: nat, before: Option<Mapping>)
    requires Accepted(fb) && fb.physAddr <= x < fb.physAddr + fb.sizeBytes && x < TWO47
    ensures RangeMapped(MapStart(fb), MapEnd(fb), x, before) == Some(Mapping(x, true, false, false, true, false))
  {
    AcceptedNeverWrapped(fb);
    DivModUnique(0, TWO48, x - MapStart(fb));
    DivModUnique(0, TWO52, x);
  }

  /** Every framebuffer byte whose address is canonical as a pointer translates to itself, writable. */
  ghost predicate FramebufferReachable(mem: Memory, root: nat, fb: Framebuffer) {
    forall x {:trigger Translate(mem, root, x)} ::
      fb.physAddr <= x < fb.physAddr + fb.sizeBytes && x < TWO47 ==>
      Translate(mem, root, x) == Some(Mapping(x, true, false, false, true, false))
  }

  lemma MappedFramebufferIsReachable(before: Memory, after: Memory, root: nat, fb: Framebuffer)
    requires Accepted(fb) && IsMapped(before, after, root, MapStart(fb), MapEnd(fb))
    ensures FramebufferReachable(after, root, fb)
  {
    forall x: nat | fb.physAddr <= x < fb.physAddr + fb.sizeBytes && x < TWO47
      ensures Translate(after, root, x) == Some(Mapping(x, true, false, false, true, false))
    {
      FramebufferIsIdentityMapped(fb, x, Translate(before, root, x));
    }
  }

  /** Wherever the mapping loop stopped, a range that does not fold leaves the first GiB as it was. */
  lemma FirstGiBSurvives(before: Memory, after: Memory, root: nat, fb: Framebuffer, stop: nat)
    requires Accepted(fb) && MapStart(fb) <= stop <= MapEnd(fb)
    requires !FoldsOntoFirstGiB(MapStart(fb), MapEnd(fb))
    requires FirstGiBIdentity(before, root) && IsMapped(before, after, root, MapStart(fb), stop)
    ensures FirstGiBIdentity(after, root)
  {
    AcceptedNeverWrapped(fb);
    if MapStart(fb) < stop {
      FirstGiBSurvivesIff(MapStart(fb), stop);
    }
    forall va: nat | va < 0x4000_0000
      ensures Translate(after, root, va) == Some(Mapping(va, true, false, false, true, false))
    {
      assert Translate(before, root, va) == Some(Mapping(va, true, false, false, true, false));
    }
  }
}
