/** Mapping the local APIC: two fresh tables linked into the kernel's page tables. */
module Lapic {
  import opened Machine
  import opened Paging

  const LAPIC_PHYSICAL_BASE: bv64 := 0xFEE0_0000
  const LAPIC_VIRTUAL_BASE: bv64 := 0xFFFF_FFFF_C000_0000
  const WRITABLE: bv64 := 1 << 1
  const WRITE_THROUGH: bv64 := 1 << 3
  const CACHE_DISABLE: bv64 := 1 << 4
  const PAGE_MASK: bv64 := 0x0000_FFFF_FFFF_F000

  predicate InPage(a: bv64, page: bv64) {
    a & !OFFSET_MASK == page
  }

  /** The last 1 GiB of the address space: PML4 entry 511, PDPT entry 511. */
  predicate InRegion(va: bv64) {
    Pml4Index(va) == 511 && PdptIndex(va) == 511
  }

  predicate AtLapic(va: bv64) {
    InRegion(va) && PdIndex(va) == 0 && PtIndex(va) == 0
  }

  /** The PDPT entry that covers the region. */
  function LapicSlot(m: Memory, cr3: bv64): bv64 {
    Slot(Table(m(Slot(Table(cr3), 511))), 511)
  }

  /** The two new tables are distinct pages that no walk reads. */
  ghost predicate Fresh(m: Memory, cr3: bv64, pd: bv64, pt: bv64) {
    && pd != pt
    && forall va, i | 0 <= i < |Path(m, cr3, va)| ::
         !InPage(Path(m, cr3, va)[i], pd) && !InPage(Path(m, cr3, va)[i], pt)
  }

  /** Only walks for the region read its PDPT entry. */
  ghost predicate OnePath(m: Memory, cr3: bv64) {
    forall va, i | 0 <= i < |Path(m, cr3, va)| :: Path(m, cr3, va)[i] == LapicSlot(m, cr3) ==> InRegion(va)
  }

  predicate Unmapped(m: Memory, cr3: bv64, va: bv64) {
    Translate(m, cr3, va).None? && !IsMapped(m, cr3, va)
  }

  /** The same answer from the same words: nothing an entry says about `va`, rights and caching included, is new. */
  predicate SameWalk(m: Memory, m': Memory, cr3: bv64, va: bv64) {
    && Translate(m', cr3, va) == Translate(m, cr3, va) && IsMapped(m', cr3, va) == IsMapped(m, cr3, va)
    && Path(m', cr3, va) == Path(m, cr3, va) && Agree(m, m', Path(m, cr3, va))
  }

  /** The root entry that covers the region. */
  function Root(cr3: bv64): bv64 {
    Slot(Table(cr3), 511)
  }

  /** Bit 1 of every entry on the way grants writing. */
  predicate Writable(m: Memory, cr3: bv64, va: bv64) {
    forall i | 0 <= i < |Path(m, cr3, va)| :: m(Path(m, cr3, va)[i]) & 2 != 0
  }

  /** Bit 2 is missing somewhere on the way, so user code has no access. */
  predicate KernelOnly(m: Memory, cr3: bv64, va: bv64) {
    exists i | 0 <= i < |Path(m, cr3, va)| :: m(Path(m, cr3, va)[i]) & 4 == 0
  }

  /** Bits 3 and 4 of the last entry: write-through, and no caching at all. */
  predicate Uncached(m: Memory, cr3: bv64, va: bv64) {
    var path := Path(m, cr3, va);
    |path| == 4 && m(path[3]) & 8 != 0 && m(path[3]) & 16 != 0
  }

  /** The local APIC's page is shown for device access: uncached, for the kernel only, and writable as far as the root
      entry lets it be. */
  predicate DevicePage(m: Memory, m': Memory, cr3: bv64, va: bv64) {
    && Translate(m', cr3, va) == Some(0xFEE0_0000 | (va & 0xFFF))
    && Uncached(m', cr3, va) && KernelOnly(m', cr3, va)
    && (Writable(m', cr3, va) <==> m(Root(cr3)) & 2 != 0)
  }

  /** Nothing to see yet: the region is unmapped and every other address is mapped as in `m`. */
  ghost predicate Quiet(m: Memory, m': Memory, cr3: bv64) {
    forall va :: if InRegion(va) then Unmapped(m', cr3, va) else SameWalk(m, m', cr3, va)
  }

  /** The page at `LAPIC_VIRTUAL_BASE` shows the local APIC, the rest of its gigabyte nothing, all else is as before. */
  ghost predicate Shown(m: Memory, m': Memory, cr3: bv64) {
    forall va ::
      if AtLapic(va) then DevicePage(m, m', cr3, va)
      else if InRegion(va) then Unmapped(m', cr3, va)
      else SameWalk(m, m', cr3, va)
  }

  // --- bit-level facts ---------------------------------------------------------------

  lemma LapicPage(va: bv64)
    ensures AtLapic(va) <==> va & 0x0000_FFFF_FFFF_F000 == 0x0000_FFFF_C000_0000
  {
  }

  function TableEntry(page: bv64): bv64 {
    page | PRESENT | WRITABLE
  }

  function LapicEntry(): bv64 {
    LAPIC_PHYSICAL_BASE | PRESENT | WRITABLE | WRITE_THROUGH | CACHE_DISABLE
  }

  predicate IsTablePage(p: bv64) {
    p & !ADDRESS_MASK == 0
  }

  /** An entry made of a page address and flag bits points back to the page. */
  lemma EntryBits(p: bv64)
    requires IsTablePage(p)
    ensures Table(TableEntry(p)) == p && Present(TableEntry(p)) && !Huge(TableEntry(p))
  {
  }

  lemma LapicEntryBits()
    ensures var e := LapicEntry();
      Table(e) == LAPIC_PHYSICAL_BASE && Present(e) && !Present(0)
  {
  }

  lemma SlotBits(p: bv64, i: bv64)
    requires IsTablePage(p) && i < 512
    ensures InPage(Slot(p, i), p) && (Slot(p, i) == p <==> i == 0)
  {
  }

  lemma IndexBits(va: bv64)
    ensures PdIndex(va) < 512 && PtIndex(va) < 512
  {
  }

  /** Word `i` of a page-aligned array lies `8 * i` bytes into the array's frame. */
  lemma ArrayWord(m: Memory, cr3: bv64, base: bv64, i: bv64)
    requires Offset(base) == 0 && i < 512 && Translate(m, cr3, base).Some?
    ensures IsTablePage(Translate(m, cr3, base).value)
    ensures Translate(m, cr3, Slot(base, i)) == Some(Slot(Translate(m, cr3, base).value, i))
  {
    ArrayBits(base, i);
    SameEntries(m, cr3, base, Slot(base, i));
    FrameBits(PtEntry(m, cr3, base), i);
    hide Pml4Entry, PdptEntry, PdEntry, PtEntry, Present, Huge, AtOffset, Offset, Table, Slot, IsTablePage;
  }

  lemma ArrayBits(base: bv64, i: bv64)
    requires Offset(base) == 0 && i < 512
    ensures base & PAGE_MASK == Slot(base, i) & PAGE_MASK && Offset(Slot(base, i)) == 8 * i
  {
  }

  lemma FrameBits(entry: bv64, i: bv64)
    requires i < 512
    ensures AtOffset(Table(entry), 0) == Table(entry) && IsTablePage(Table(entry))
    ensures AtOffset(Table(entry), 8 * i) == Slot(Table(entry), i)
  {
  }

  // --- between the writes ---------------------------------------------------------------

  /** Outside the two new tables, `m'` differs from `m` at most in the region's PDPT entry. */
  ghost predicate Staged(m: Memory, m': Memory, cr3: bv64, pd: bv64, pt: bv64) {
    forall a :: !InPage(a, pd) && !InPage(a, pt) && a != LapicSlot(m, cr3) ==> m'(a) == m(a)
  }

  lemma ElsewhereSame(m: Memory, m': Memory, cr3: bv64, pd: bv64, pt: bv64, va: bv64)
    requires Fresh(m, cr3, pd, pt) && Staged(m, m', cr3, pd, pt) && !InRegion(va)
    requires OnePath(m, cr3) || m'(LapicSlot(m, cr3)) == m(LapicSlot(m, cr3))
    ensures SameWalk(m, m', cr3, va)
  {
    hide Path, Translate, IsMapped, InRegion, InPage, LapicSlot;
    assert Agree(m, m', Path(m, cr3, va));
    WalkDependsOnPath(m, m', cr3, va);
  }

  lemma BelowRoot()
    ensures Pml4Index(511 << 39) == 511 && PdptIndex(511 << 39) == 0
  {
  }

  /** The root entry over the region is none of the words written. */
  lemma RootKept(m: Memory, m': Memory, cr3: bv64, pd: bv64, pt: bv64)
    requires Fresh(m, cr3, pd, pt) && Staged(m, m', cr3, pd, pt)
    requires m'(LapicSlot(m, cr3)) == m(LapicSlot(m, cr3)) || (Present(m(Root(cr3))) && !Present(m(LapicSlot(m, cr3))))
    ensures m'(Root(cr3)) == m(Root(cr3))
  {
    var va := 511 << 39;
    BelowRoot();
    hide Pml4Index, PdptIndex, Slot, Table, Present, Huge, InPage, LapicSlot;
    assert Path(m, cr3, va)[0] == Root(cr3);
  }

  /** What a walk for the region reads first. */
  lemma RegionTop(m: Memory, m': Memory, cr3: bv64, va: bv64)
    requires InRegion(va) && m'(Root(cr3)) == m(Root(cr3))
    ensures Pml4Entry(m', cr3, va) == m(Root(cr3)) && PdptEntry(m', cr3, va) == m'(LapicSlot(m, cr3))
  {
    hide Pml4Index, PdptIndex, Slot, Table;
  }

  /** Before its PDPT entry is written the region is unmapped. */
  lemma RegionBefore(m: Memory, m': Memory, cr3: bv64, pd: bv64, pt: bv64, va: bv64)
    requires Fresh(m, cr3, pd, pt) && Staged(m, m', cr3, pd, pt) && InRegion(va)
    requires m'(LapicSlot(m, cr3)) == m(LapicSlot(m, cr3)) && !Present(m(LapicSlot(m, cr3)))
    ensures Unmapped(m', cr3, va)
  {
    RootKept(m, m', cr3, pd, pt);
    RegionTop(m, m', cr3, va);
    hide Fresh, Staged, Pml4Entry, PdptEntry, Present, Huge, LapicSlot, InRegion;
  }

  /** Once it is written, a walk for the region continues in the new tables. */
  lemma RegionLinked(m: Memory, m': Memory, cr3: bv64, pd: bv64, pt: bv64, va: bv64)
    requires Fresh(m, cr3, pd, pt) && Staged(m, m', cr3, pd, pt) && InRegion(va)
    requires IsTablePage(pd) && Present(m(Root(cr3))) && !Present(m(LapicSlot(m, cr3)))
    requires m'(LapicSlot(m, cr3)) == TableEntry(pd)
    ensures PdSlot(m', cr3, va) == Slot(pd, PdIndex(va))
    ensures !Present(PdEntry(m', cr3, va)) ==> Unmapped(m', cr3, va)
    ensures Present(PdEntry(m', cr3, va)) && !Huge(PdEntry(m', cr3, va)) && !Present(PtEntry(m', cr3, va)) ==>
      Unmapped(m', cr3, va)
    ensures Present(PdEntry(m', cr3, va)) && !Huge(PdEntry(m', cr3, va)) && Present(PtEntry(m', cr3, va)) ==>
      Translate(m', cr3, va) == Some(AtOffset(Table(PtEntry(m', cr3, va)), Offset(va)))
  {
    RootKept(m, m', cr3, pd, pt);
    RegionTop(m, m', cr3, va);
    EntryBits(pd);
    hide Fresh, Staged, Pml4Entry, PdptEntry, Present, Huge, LapicSlot, InRegion, PdEntry, PtEntry, IsTablePage,
         AtOffset, Offset, Slot, Table;
  }

  /** The new tables as far as they are filled: entry 0 of each, all other entries absent. */
  ghost predicate Filled(m: Memory, pd: bv64, pt: bv64, pdEntry: bv64, ptEntry: bv64) {
    forall i: bv64 | i < 512 ::
      && m(Slot(pd, i)) == (if i == 0 then pdEntry else 0)
      && m(Slot(pt, i)) == (if i == 0 then ptEntry else 0)
  }

  lemma ZeroIsAbsent()
    ensures !Present(0)
  {
  }

  lemma QuietBefore(m: Memory, m': Memory, cr3: bv64, pd: bv64, pt: bv64)
    requires Fresh(m, cr3, pd, pt) && Staged(m, m', cr3, pd, pt)
    requires m'(LapicSlot(m, cr3)) == m(LapicSlot(m, cr3)) && !Present(m(LapicSlot(m, cr3)))
    ensures Quiet(m, m', cr3)
  {
    hide Fresh, Staged, Present, LapicSlot, InRegion, Unmapped, SameWalk;
    forall va ensures if InRegion(va) then Unmapped(m', cr3, va) else SameWalk(m, m', cr3, va) {
      if InRegion(va) { RegionBefore(m, m', cr3, pd, pt, va); } else { ElsewhereSame(m, m', cr3, pd, pt, va); }
    }
  }

  /** With the directory linked but empty, or holding only an empty table, the region still shows nothing. */
  lemma QuietLinked(m: Memory, m': Memory, cr3: bv64, pd: bv64, pt: bv64, pdEntry: bv64)
    requires Fresh(m, cr3, pd, pt) && OnePath(m, cr3) && Staged(m, m', cr3, pd, pt)
    requires IsTablePage(pd) && IsTablePage(pt) && m'(LapicSlot(m, cr3)) == TableEntry(pd)
    requires Present(m(Root(cr3))) && !Present(m(LapicSlot(m, cr3)))
    requires Filled(m', pd, pt, pdEntry, 0) && (pdEntry == 0 || pdEntry == TableEntry(pt))
    ensures Quiet(m, m', cr3)
  {
    ZeroIsAbsent();
    EntryBits(pt);
    hide Fresh, OnePath, Staged, Present, LapicSlot, InRegion, Unmapped, SameWalk, IsTablePage, TableEntry, LapicEntry,
         Huge, Table, Slot, PdIndex, PtIndex;
    forall va ensures if InRegion(va) then Unmapped(m', cr3, va) else SameWalk(m, m', cr3, va) {
      if InRegion(va) {
        RegionLinked(m, m', cr3, pd, pt, va);
        IndexBits(va);
      } else {
        ElsewhereSame(m, m', cr3, pd, pt, va);
      }
    }
  }

  /** The words a walk for the local APIC's page reads once the tables are filled. */
  lemma LapicWords(m: Memory, m': Memory, cr3: bv64, pd: bv64, pt: bv64, va: bv64)
    requires Fresh(m, cr3, pd, pt) && Staged(m, m', cr3, pd, pt) && AtLapic(va)
    requires IsTablePage(pd) && IsTablePage(pt) && m'(LapicSlot(m, cr3)) == TableEntry(pd)
    requires Present(m(Root(cr3))) && !Present(m(LapicSlot(m, cr3)))
    requires Filled(m', pd, pt, TableEntry(pt), LapicEntry())
    ensures Path(m', cr3, va) == [Root(cr3), LapicSlot(m, cr3), Slot(pd, 0), Slot(pt, 0)]
    ensures m'(Root(cr3)) == m(Root(cr3))
    ensures Translate(m', cr3, va) == Some(AtOffset(Table(LapicEntry()), Offset(va)))
  {
    EntryBits(pd);
    EntryBits(pt);
    LapicEntryBits();
    RootKept(m, m', cr3, pd, pt);
    RegionTop(m, m', cr3, va);
    hide Fresh, Staged, Present, LapicSlot, IsTablePage, TableEntry, LapicEntry, Huge, Table, Slot, Pml4Index,
         PdptIndex, PdIndex, PtIndex, AtOffset, Offset;
  }

  /** What the entries written say about access. */
  lemma EntryRights(p: bv64)
    requires IsTablePage(p)
    ensures var e := TableEntry(p); e & 2 != 0 && e & 4 == 0
    ensures var e := LapicEntry(); e & 2 != 0 && e & 4 == 0 && e & 8 != 0 && e & 16 != 0
  {
  }

  lemma LapicAddress(va: bv64)
    ensures AtOffset(LAPIC_PHYSICAL_BASE, Offset(va)) == 0xFEE0_0000 | (va & 0xFFF)
  {
  }

  lemma ShowsDevice(m: Memory, m': Memory, cr3: bv64, pd: bv64, pt: bv64, va: bv64)
    requires Fresh(m, cr3, pd, pt) && Staged(m, m', cr3, pd, pt) && AtLapic(va)
    requires IsTablePage(pd) && IsTablePage(pt) && m'(LapicSlot(m, cr3)) == TableEntry(pd)
    requires Present(m(Root(cr3))) && !Present(m(LapicSlot(m, cr3)))
    requires Filled(m', pd, pt, TableEntry(pt), LapicEntry())
    ensures DevicePage(m, m', cr3, va)
  {
    hide Fresh, Staged, Present, LapicSlot, IsTablePage, TableEntry, LapicEntry, Table, Slot, AtLapic, AtOffset, Offset,
         Path, Translate, Root, Writable, KernelOnly;
    LapicWords(m, m', cr3, pd, pt, va);
    EntryRights(pd);
    EntryRights(pt);
    LapicEntryBits();
    LapicAddress(va);
    WordRights(m', cr3, va);
  }

  /** The rights of a walk of four words. */
  lemma WordRights(m: Memory, cr3: bv64, va: bv64)
    requires |Path(m, cr3, va)| == 4
    ensures var path := Path(m, cr3, va);
      && (Writable(m, cr3, va) <==>
            m(path[0]) & 2 != 0 && m(path[1]) & 2 != 0 && m(path[2]) & 2 != 0 && m(path[3]) & 2 != 0)
      && (m(path[3]) & 4 == 0 ==> KernelOnly(m, cr3, va))
  {
    hide Path;
  }

  lemma ShownAfter(m: Memory, m': Memory, cr3: bv64, pd: bv64, pt: bv64)
    requires Fresh(m, cr3, pd, pt) && OnePath(m, cr3) && Staged(m, m', cr3, pd, pt)
    requires IsTablePage(pd) && IsTablePage(pt) && m'(LapicSlot(m, cr3)) == TableEntry(pd)
    requires Present(m(Root(cr3))) && !Present(m(LapicSlot(m, cr3)))
    requires Filled(m', pd, pt, TableEntry(pt), LapicEntry())
    ensures Shown(m, m', cr3)
  {
    EntryBits(pt);
    LapicEntryBits();
    hide Fresh, OnePath, Staged, Present, LapicSlot, InRegion, Unmapped, SameWalk, IsTablePage, TableEntry, LapicEntry,
         Huge, Table, Slot, PdIndex, PtIndex, AtOffset, Offset, Translate, DevicePage;
    forall va
      ensures if AtLapic(va) then DevicePage(m, m', cr3, va)
        else if InRegion(va) then Unmapped(m', cr3, va) else SameWalk(m, m', cr3, va)
    {
      if AtLapic(va) {
        ShowsDevice(m, m', cr3, pd, pt, va);
      } else if InRegion(va) {
        RegionLinked(m, m', cr3, pd, pt, va);
        IndexBits(va);
      } else {
        ElsewhereSame(m, m', cr3, pd, pt, va);
      }
    }
  }

  /** A walk through a present root reads the PDPT entry next. */
  lemma SecondWord(m: Memory, cr3: bv64, va: bv64)
    requires Present(Pml4Entry(m, cr3, va))
    ensures |Path(m, cr3, va)| > 1 && Path(m, cr3, va)[1] == PdptSlot(m, cr3, va)
  {
    hide Present, Huge, Pml4Entry, PdptEntry, PdEntry, PtEntry, Pml4Slot, PdptSlot, PdSlot, PtSlot;
  }

  /** The region's PDPT entry is a word of the tree, so neither new table holds it. */
  lemma SlotOutside(m: Memory, cr3: bv64, pd: bv64, pt: bv64)
    requires Fresh(m, cr3, pd, pt) && Present(m(Root(cr3)))
    ensures !InPage(LapicSlot(m, cr3), pd) && !InPage(LapicSlot(m, cr3), pt)
  {
    hide Path, Pml4Index, PdptIndex, PdIndex, PtIndex, Slot, Table, Present, InPage, LAPIC_VIRTUAL_BASE;
    var va := LAPIC_VIRTUAL_BASE;
    RegionBase();
    SecondWord(m, cr3, va);
    assert PdptSlot(m, cr3, va) == LapicSlot(m, cr3);
  }

  lemma RegionBase()
    ensures Pml4Index(LAPIC_VIRTUAL_BASE) == 511 && PdptIndex(LAPIC_VIRTUAL_BASE) == 511
  {
  }

  // --- another path to the region's PDPT entry ------------------------------------------------

  /** The start of the gigabyte that holds `va`. */
  function GigabyteOf(va: bv64): bv64 {
    va & !0x3FFF_FFFF
  }

  /** The start of the two megabytes that hold `va`. */
  function LargePageOf(va: bv64): bv64 {
    va & !0x1F_FFFF
  }

  lemma GigabyteIndices(va: bv64)
    ensures var wa := GigabyteOf(va);
      Pml4Index(wa) == Pml4Index(va) && PdptIndex(wa) == PdptIndex(va) && PdIndex(wa) == 0 && PtIndex(wa) == 0
  {
  }

  lemma LargePageIndices(va: bv64)
    ensures var wa := LargePageOf(va);
      && Pml4Index(wa) == Pml4Index(va) && PdptIndex(wa) == PdptIndex(va)
      && PdIndex(wa) == PdIndex(va) && PtIndex(wa) == 0
  {
  }

  /** Only the last word of a walk can be absent. */
  lemma EarlierPresent(m: Memory, cr3: bv64, va: bv64, i: nat)
    requires i + 1 < |Path(m, cr3, va)|
    ensures Present(m(Path(m, cr3, va)[i]))
  {
    hide Present, Huge, Pml4Slot, PdptSlot, PdSlot, PtSlot;
  }

  /** The words of a walk before it reaches an absent region entry are not written. */
  lemma EarlierKept(m: Memory, m': Memory, cr3: bv64, pd: bv64, pt: bv64, va: bv64, i: nat)
    requires Fresh(m, cr3, pd, pt) && Staged(m, m', cr3, pd, pt) && !Present(m(LapicSlot(m, cr3)))
    requires i + 1 < |Path(m, cr3, va)|
    ensures m'(Path(m, cr3, va)[i]) == m(Path(m, cr3, va)[i])
  {
    EarlierPresent(m, cr3, va, i);
    hide Path, Present, InPage, LapicSlot;
  }

  /** Both tables filled and linked in at the region's entry. */
  ghost predicate Complete(m: Memory, m': Memory, cr3: bv64, pd: bv64, pt: bv64) {
    && Fresh(m, cr3, pd, pt) && Staged(m, m', cr3, pd, pt) && IsTablePage(pd) && IsTablePage(pt)
    && Present(m(Root(cr3))) && !Present(m(LapicSlot(m, cr3)))
    && m'(LapicSlot(m, cr3)) == TableEntry(pd) && Filled(m', pd, pt, TableEntry(pt), LapicEntry())
  }

  lemma CompleteEntries(m: Memory, m': Memory, cr3: bv64, pd: bv64, pt: bv64)
    requires Complete(m, m', cr3, pd, pt)
    ensures var e := m'(LapicSlot(m, cr3)); Present(e) && !Huge(e) && Table(e) == pd
    ensures var e := m'(Slot(pd, 0)); Present(e) && !Huge(e) && Table(e) == pt
    ensures Present(m'(Slot(pt, 0)))
  {
    EntryBits(pd);
    EntryBits(pt);
    LapicEntryBits();
    hide Present, Huge, Table, Slot, LapicSlot, Root, TableEntry, LapicEntry, IsTablePage, Fresh, Staged;
  }

  /** The region's entry is not a root entry, since it is absent. */
  lemma AliasNotAtRoot(m: Memory, cr3: bv64, va: bv64)
    requires Present(m(Root(cr3))) && !Present(m(LapicSlot(m, cr3)))
    ensures Pml4Slot(cr3, va) != LapicSlot(m, cr3)
  {
    hide Present, Table, Slot, Pml4Index;
    RootIndexBits(va);
    TableIsMasked(cr3);
    TableIsMasked(m(Root(cr3)));
    if Pml4Slot(cr3, va) == LapicSlot(m, cr3) {
      SameSlot(Table(cr3), Table(m(Root(cr3))), Pml4Index(va));
    }
  }

  lemma RootIndexBits(va: bv64)
    ensures Pml4Index(va) < 512
  {
  }

  /** The region's entry read as a PDPT entry under another root entry. */
  lemma AliasAtPdpt(m: Memory, m': Memory, cr3: bv64, pd: bv64, pt: bv64, va: bv64)
    requires Complete(m, m', cr3, pd, pt) && |Path(m, cr3, va)| > 1 && PdptSlot(m, cr3, va) == LapicSlot(m, cr3)
    ensures Translate(m, cr3, GigabyteOf(va)).None? && Translate(m', cr3, GigabyteOf(va)).Some?
  {
    hide Path, Complete, Fresh, Staged, LapicSlot, Present, Huge, Table, Slot, Pml4Index, PdptIndex, PdIndex, PtIndex,
         GigabyteOf, LargePageOf, AtOffset, Offset, Root;
    CompleteParts(m, m', cr3, pd, pt);
    LongWalk(m, cr3, va);
    EarlierKept(m, m', cr3, pd, pt, va, 0);
    GigabyteIndices(va);
    CompleteEntries(m, m', cr3, pd, pt);
  }

  /** The region's entry read as a page directory entry. */
  lemma AliasAtPd(m: Memory, m': Memory, cr3: bv64, pd: bv64, pt: bv64, va: bv64)
    requires Complete(m, m', cr3, pd, pt) && |Path(m, cr3, va)| > 2 && PdSlot(m, cr3, va) == LapicSlot(m, cr3)
    ensures Translate(m, cr3, LargePageOf(va)).None? && Translate(m', cr3, LargePageOf(va)).Some?
  {
    hide Path, Complete, Fresh, Staged, LapicSlot, Present, Huge, Table, Slot, Pml4Index, PdptIndex, PdIndex, PtIndex,
         GigabyteOf, LargePageOf, AtOffset, Offset, Root;
    CompleteParts(m, m', cr3, pd, pt);
    LongWalk(m, cr3, va);
    EarlierKept(m, m', cr3, pd, pt, va, 0);
    EarlierKept(m, m', cr3, pd, pt, va, 1);
    LargePageIndices(va);
    CompleteEntries(m, m', cr3, pd, pt);
  }

  /** The region's entry read as a page table entry. */
  lemma AliasAtPt(m: Memory, m': Memory, cr3: bv64, pd: bv64, pt: bv64, va: bv64)
    requires Complete(m, m', cr3, pd, pt) && |Path(m, cr3, va)| > 3 && PtSlot(m, cr3, va) == LapicSlot(m, cr3)
    ensures Translate(m, cr3, va).None? && Translate(m', cr3, va).Some?
  {
    hide Path, Complete, Fresh, Staged, LapicSlot, Present, Huge, Table, Slot, Pml4Index, PdptIndex, PdIndex, PtIndex,
         AtOffset, Offset, Root;
    CompleteParts(m, m', cr3, pd, pt);
    LongWalk(m, cr3, va);
    EarlierKept(m, m', cr3, pd, pt, va, 0);
    EarlierKept(m, m', cr3, pd, pt, va, 1);
    EarlierKept(m, m', cr3, pd, pt, va, 2);
    CompleteEntries(m, m', cr3, pd, pt);
  }

  lemma Appears(m: Memory, m': Memory, cr3: bv64, wa: bv64)
    requires !InRegion(wa) && Translate(m, cr3, wa).None? && Translate(m', cr3, wa).Some?
    ensures !Shown(m, m', cr3)
  {
    hide Translate, IsMapped, InRegion;
    assert !SameWalk(m, m', cr3, wa);
  }

  /** If a walk outside the region reads its PDPT entry, the finished mapping shows at an address outside the region. */
  lemma AliasShows(m: Memory, m': Memory, cr3: bv64, pd: bv64, pt: bv64, va: bv64, i: nat)
    requires Complete(m, m', cr3, pd, pt) && !InRegion(va)
    requires i < |Path(m, cr3, va)| && Path(m, cr3, va)[i] == LapicSlot(m, cr3)
    ensures !Shown(m, m', cr3)
  {
    hide Path, Complete, Fresh, Staged, LapicSlot, Present, Huge, Slot, Table, Pml4Index, PdptIndex, PdIndex, PtIndex,
         GigabyteOf, LargePageOf, Root, Translate, IsMapped, Shown, Pml4Slot, PdptSlot, PdSlot, PtSlot;
    CompleteParts(m, m', cr3, pd, pt);
    LongWalk(m, cr3, va);
    AliasNotAtRoot(m, cr3, va);
    GigabyteIndices(va);
    LargePageIndices(va);
    if i == 1 {
      AliasAtPdpt(m, m', cr3, pd, pt, va);
      Appears(m, m', cr3, GigabyteOf(va));
    } else if i == 2 {
      AliasAtPd(m, m', cr3, pd, pt, va);
      Appears(m, m', cr3, LargePageOf(va));
    } else {
      AliasAtPt(m, m', cr3, pd, pt, va);
      Appears(m, m', cr3, va);
    }
  }

  /** The finished mapping is what it should be exactly when no other walk reads the region's PDPT entry. */
  lemma ShownIff(m: Memory, m': Memory, cr3: bv64, pd: bv64, pt: bv64)
    requires Complete(m, m', cr3, pd, pt)
    ensures Shown(m, m', cr3) <==> OnePath(m, cr3)
  {
    if OnePath(m, cr3) {
      ShownAfter(m, m', cr3, pd, pt);
    } else {
      var va, i :| 0 <= i < |Path(m, cr3, va)| && Path(m, cr3, va)[i] == LapicSlot(m, cr3) && !InRegion(va);
      AliasShows(m, m', cr3, pd, pt, va, i);
    }
    hide *;
  }

  lemma CompleteParts(m: Memory, m': Memory, cr3: bv64, pd: bv64, pt: bv64)
    requires Complete(m, m', cr3, pd, pt)
    ensures Fresh(m, cr3, pd, pt) && Staged(m, m', cr3, pd, pt)
    ensures Present(m(Root(cr3))) && !Present(m(LapicSlot(m, cr3)))
  {
  }

  lemma SameSlot(p: bv64, q: bv64, i: bv64)
    requires IsTablePage(p) && IsTablePage(q) && i < 512 && Slot(p, i) == Slot(q, 511)
    ensures i == 511
  {
    SlotBits(p, i);
    SlotBits(q, 511);
  }

  // --- the assumptions can be met -----------------------------------------------------------

  /** A kernel mapped at entry 511, 510: its tables at 0x1000 to 0x4000, its two spare pages at 0x5000 and 0x6000. The
      root entry 256, at 0x1800, is empty or shares the kernel's PDPT. */
  function SampleMemory(shared: bool): Memory {
    a => if a == 0x1FF8 || (shared && a == 0x1800) then 0x2003 else if a == 0x2FF0 then 0x3003
         else if a == 0x3000 then 0x4003 else if a == 0x4000 then 0x5003 else if a == 0x4008 then 0x6003 else 0
  }

  lemma SampleSlots(va: bv64)
    ensures var a := Slot(0x1000, Pml4Index(va)); 0x1000 <= a < 0x2000 && (a == 0x1FF8 <==> Pml4Index(va) == 511)
    ensures var a := Slot(0x2000, PdptIndex(va)); 0x2000 <= a < 0x3000 && (a == 0x2FF8 <==> PdptIndex(va) == 511)
    ensures var a := Slot(0x3000, PdIndex(va)); 0x3000 <= a < 0x4000
    ensures var a := Slot(0x4000, PtIndex(va)); 0x4000 <= a < 0x5000
  {
  }

  lemma SampleWords()
    ensures Table(0x1000) == 0x1000 && Table(0x2003) == 0x2000 && Table(0x3003) == 0x3000 && Table(0x4003) == 0x4000
    ensures Table(0x5003) == 0x5000 && Table(0x6003) == 0x6000
    ensures Present(0x2003) && Present(0x3003) && Present(0x4003) && Present(0x5003) && Present(0x6003) && !Present(0)
    ensures !Huge(0x3003) && !Huge(0x4003) && Slot(0x1000, 511) == 0x1FF8 && Slot(0x2000, 511) == 0x2FF8
  {
  }

  lemma SamplePages(a: bv64)
    requires 0x1000 <= a < 0x5000
    ensures !InPage(a, 0x5000) && !InPage(a, 0x6000)
  {
  }

  lemma SampleRead(shared: bool, a: bv64)
    ensures var m := SampleMemory(shared);
      && (0x1000 <= a < 0x2000 ==> m(a) == if a == 0x1FF8 then 0x2003 else if shared && a == 0x1800 then 0x2003 else 0)
      && (0x2000 <= a < 0x3000 ==> m(a) == if a == 0x2FF0 then 0x3003 else 0)
      && (0x3000 <= a < 0x4000 ==> m(a) == if a == 0x3000 then 0x4003 else 0)
  {
  }

  lemma SamplePath(shared: bool, va: bv64, i: nat)
    requires i < |Path(SampleMemory(shared), 0x1000, va)|
    ensures var a := Path(SampleMemory(shared), 0x1000, va)[i];
      0x1000 <= a < 0x5000 && (a == 0x2FF8 && !shared ==> InRegion(va))
  {
    var m := SampleMemory(shared);
    SampleWords();
    SampleSlots(va);
    hide SampleMemory, Slot, Table, Present, Huge, Pml4Index, PdptIndex, PdIndex, PtIndex;
    SampleRead(shared, Pml4Slot(0x1000, va));
    if Present(Pml4Entry(m, 0x1000, va)) {
      assert Pml4Entry(m, 0x1000, va) == 0x2003;
      SampleRead(shared, PdptSlot(m, 0x1000, va));
      if Present(PdptEntry(m, 0x1000, va)) {
        assert PdptEntry(m, 0x1000, va) == 0x3003;
        SampleRead(shared, PdSlot(m, 0x1000, va));
      }
    }
  }

  /** Where the sample's kernel sees its two spare pages. */
  const SAMPLE_DIRECTORY: bv64 := 0xFFFF_FFFF_8000_0000
  const SAMPLE_TABLE: bv64 := 0xFFFF_FFFF_8000_1000

  lemma SampleIndices()
    ensures Pml4Index(SAMPLE_DIRECTORY) == 511 && PdptIndex(SAMPLE_DIRECTORY) == 510
    ensures PdIndex(SAMPLE_DIRECTORY) == 0 && PtIndex(SAMPLE_DIRECTORY) == 0 && Offset(SAMPLE_DIRECTORY) == 0
    ensures Pml4Index(SAMPLE_TABLE) == 511 && PdptIndex(SAMPLE_TABLE) == 510
    ensures PdIndex(SAMPLE_TABLE) == 0 && PtIndex(SAMPLE_TABLE) == 1 && Offset(SAMPLE_TABLE) == 0
    ensures Slot(0x2000, 510) == 0x2FF0 && Slot(0x3000, 0) == 0x3000
    ensures Slot(0x4000, 0) == 0x4000 && Slot(0x4000, 1) == 0x4008
    ensures AtOffset(0x5000, 0) == 0x5000 && AtOffset(0x6000, 0) == 0x6000
  {
  }

  /** Both spare pages are mapped. */
  lemma SampleTranslates(shared: bool)
    ensures Translate(SampleMemory(shared), 0x1000, SAMPLE_DIRECTORY) == Some(0x5000)
    ensures Translate(SampleMemory(shared), 0x1000, SAMPLE_TABLE) == Some(0x6000)
  {
    var m := SampleMemory(shared);
    SampleWords();
    SampleIndices();
    assert m(0x1FF8) == 0x2003 && m(0x2FF0) == 0x3003 && m(0x3000) == 0x4003;
    assert m(0x4000) == 0x5003 && m(0x4008) == 0x6003;
    hide SampleMemory, Slot, Table, Present, Huge, Pml4Index, PdptIndex, PdIndex, PtIndex, Offset, AtOffset,
         SAMPLE_DIRECTORY, SAMPLE_TABLE;
  }

  /** An address under root entry 256 whose walk uses the same PDPT entry as the region when the PDPT is shared. */
  const SAMPLE_ALIAS: bv64 := 0xFFFF_807F_C000_0000

  lemma AliasIndices()
    ensures Pml4Index(SAMPLE_ALIAS) == 256 && PdptIndex(SAMPLE_ALIAS) == 511
    ensures Slot(0x1000, 256) == 0x1800
  {
  }

  /** In the shared layout the alias address reads the region's PDPT entry. */
  lemma SampleAliased()
    ensures !OnePath(SampleMemory(true), 0x1000)
  {
    var m := SampleMemory(true);
    SampleWords();
    AliasIndices();
    SampleRead(true, 0x1800);
    SampleRead(true, 0x1FF8);
    hide SampleMemory, Path, Slot, Table, Present, Huge, Pml4Index, PdptIndex, SAMPLE_ALIAS;
    assert LapicSlot(m, 0x1000) == 0x2FF8;
    SecondWord(m, 0x1000, SAMPLE_ALIAS);
    assert Path(m, 0x1000, SAMPLE_ALIAS)[1] == 0x2FF8 && !InRegion(SAMPLE_ALIAS);
  }

  /** Both answers occur: in an ordinary layout the kernel goes ahead and only one path leads to the region, and when
      another root entry shares the PDPT it goes ahead all the same. */
  lemma SampleLayouts(shared: bool)
    ensures var m := SampleMemory(shared);
      && CanMap(m, 0x1000, SAMPLE_DIRECTORY, SAMPLE_TABLE) && FreshArrays(m, 0x1000, SAMPLE_DIRECTORY, SAMPLE_TABLE)
      && Translate(m, 0x1000, SAMPLE_DIRECTORY) == Some(0x5000) && Translate(m, 0x1000, SAMPLE_TABLE) == Some(0x6000)
      && (OnePath(m, 0x1000) <==> !shared)
  {
    SampleTranslates(shared);
    SampleWords();
    SampleRead(shared, 0x1FF8);
    SampleRead(shared, 0x2FF8);
    SampleAliased();
    var m := SampleMemory(shared);
    assert LapicSlot(m, 0x1000) == 0x2FF8;
    hide SampleMemory, Path, InPage, InRegion, LapicSlot, Slot, Table, Present, Translate, SAMPLE_DIRECTORY,
         SAMPLE_TABLE;
    forall va, i | 0 <= i < |Path(m, 0x1000, va)|
      ensures !InPage(Path(m, 0x1000, va)[i], 0x5000) && !InPage(Path(m, 0x1000, va)[i], 0x6000)
      ensures Path(m, 0x1000, va)[i] == 0x2FF8 && !shared ==> InRegion(va)
    {
      SamplePath(shared, va, i);
      SamplePages(Path(m, 0x1000, va)[i]);
    }
  }

  // --- writing words -----------------------------------------------------------------------

  /** Writing word `i` of a new table stays inside that table. */
  lemma StagedWrite(m: Memory, m': Memory, cr3: bv64, pd: bv64, pt: bv64, p: bv64, i: bv64, v: bv64)
    requires Staged(m, m', cr3, pd, pt) && IsTablePage(p) && i < 512 && (p == pd || p == pt)
    requires !InPage(LapicSlot(m, cr3), pd) && !InPage(LapicSlot(m, cr3), pt)
    ensures Staged(m, Write(m', Slot(p, i), v), cr3, pd, pt)
    ensures Write(m', Slot(p, i), v)(LapicSlot(m, cr3)) == m'(LapicSlot(m, cr3))
  {
    SlotBits(p, i);
    hide Slot, InPage, IsTablePage, LapicSlot;
  }

  lemma Distinct(pd: bv64, pt: bv64, i: bv64, j: bv64)
    requires IsTablePage(pd) && IsTablePage(pt) && pd != pt && i < 512 && j < 512
    ensures Slot(pd, i) != Slot(pt, j)
    ensures Slot(pd, i) == Slot(pd, 0) <==> i == 0
    ensures Slot(pt, j) == Slot(pt, 0) <==> j == 0
  {
    SlotBits(pd, i);
    SlotBits(pt, j);
    SlotBits(pd, 0);
    SlotBits(pt, 0);
    hide Slot, IsTablePage;
  }

  lemma WriteAt(m: Memory, a: bv64, v: bv64, x: bv64)
    ensures Write(m, a, v)(x) == if x == a then v else m(x)
  {
  }

  /** Writing entry 0 of the directory changes that entry alone. */
  lemma FillDirectory(m: Memory, pd: bv64, pt: bv64, pdEntry: bv64, ptEntry: bv64, v: bv64)
    requires Filled(m, pd, pt, pdEntry, ptEntry) && IsTablePage(pd) && IsTablePage(pt) && pd != pt
    ensures Filled(Write(m, Slot(pd, 0), v), pd, pt, v, ptEntry)
  {
    hide Slot, IsTablePage, Write;
    forall i: bv64 | i < 512
      ensures Write(m, Slot(pd, 0), v)(Slot(pd, i)) == (if i == 0 then v else 0)
      ensures Write(m, Slot(pd, 0), v)(Slot(pt, i)) == (if i == 0 then ptEntry else 0)
    {
      Distinct(pd, pt, i, i);
      Distinct(pd, pt, 0, i);
      WriteAt(m, Slot(pd, 0), v, Slot(pd, i));
      WriteAt(m, Slot(pd, 0), v, Slot(pt, i));
    }
  }

  /** Writing entry 0 of the table changes that entry alone. */
  lemma FillTable(m: Memory, pd: bv64, pt: bv64, pdEntry: bv64, ptEntry: bv64, v: bv64)
    requires Filled(m, pd, pt, pdEntry, ptEntry) && IsTablePage(pd) && IsTablePage(pt) && pd != pt
    ensures Filled(Write(m, Slot(pt, 0), v), pd, pt, pdEntry, v)
  {
    hide Slot, IsTablePage, Write;
    forall i: bv64 | i < 512
      ensures Write(m, Slot(pt, 0), v)(Slot(pt, i)) == (if i == 0 then v else 0)
      ensures Write(m, Slot(pt, 0), v)(Slot(pd, i)) == (if i == 0 then pdEntry else 0)
    {
      Distinct(pd, pt, i, i);
      Distinct(pd, pt, i, 0);
      WriteAt(m, Slot(pt, 0), v, Slot(pt, i));
      WriteAt(m, Slot(pt, 0), v, Slot(pd, i));
    }
  }

  /** A translated address is reached through present entries only. */
  lemma MappedPath(m: Memory, cr3: bv64, va: bv64)
    requires Translate(m, cr3, va).Some?
    ensures forall i | 0 <= i < |Path(m, cr3, va)| :: Present(m(Path(m, cr3, va)[i]))
  {
    hide Present, Huge, Pml4Slot, PdptSlot, PdSlot, PtSlot, AtOffset, Offset, Table;
  }

  /** A page-aligned array of the kernel stays where it was: its walk reads none of the words written. */
  lemma ArrayStays(m: Memory, m': Memory, cr3: bv64, pd: bv64, pt: bv64, base: bv64, i: bv64)
    requires Fresh(m, cr3, pd, pt) && Staged(m, m', cr3, pd, pt) && !Present(m(LapicSlot(m, cr3)))
    requires Translate(m, cr3, base).Some? && Offset(base) == 0 && i < 512
    ensures Translate(m', cr3, Slot(base, i)) == Some(Slot(Translate(m, cr3, base).value, i))
    ensures IsTablePage(Translate(m, cr3, base).value)
  {
    hide Translate, IsMapped, Slot, Offset, LapicSlot, Present, IsTablePage, Path, InPage;
    MappedPath(m, cr3, base);
    assert Agree(m, m', Path(m, cr3, base));
    WalkDependsOnPath(m, m', cr3, base);
    ArrayWord(m', cr3, base, i);
  }

  lemma StagedSame(m: Memory, cr3: bv64, pd: bv64, pt: bv64)
    ensures Staged(m, m, cr3, pd, pt)
  {
  }

  /** Clearing one word keeps the stage and every word already clear. */
  lemma ZeroStep(m: Memory, m': Memory, cr3: bv64, pd: bv64, pt: bv64, p: bv64, i: bv64)
    requires Staged(m, m', cr3, pd, pt) && IsTablePage(p) && i < 512 && (p == pd || p == pt)
    requires !InPage(LapicSlot(m, cr3), pd) && !InPage(LapicSlot(m, cr3), pt)
    ensures var w := Write(m', Slot(p, i), 0);
      && Staged(m, w, cr3, pd, pt) && w(LapicSlot(m, cr3)) == m'(LapicSlot(m, cr3))
      && w(Slot(p, i)) == 0 && (forall a :: m'(a) == 0 ==> w(a) == 0)
  {
    hide Slot, InPage, IsTablePage, LapicSlot, Staged;
    StagedWrite(m, m', cr3, pd, pt, p, i, 0);
  }

  /** When the kernel goes ahead: both tables are mapped, the PDPT exists and its last entry is unused. */
  predicate CanMap(m: Memory, cr3: bv64, pageDirectory: bv64, pageTable: bv64) {
    && Translate(m, cr3, pageDirectory).Some? && Translate(m, cr3, pageTable).Some?
    && Present(m(Root(cr3))) && !Present(m(LapicSlot(m, cr3)))
  }

  /** If the arrays are mapped, they are pages of their own that no walk reads. */
  ghost predicate FreshArrays(m: Memory, cr3: bv64, pageDirectory: bv64, pageTable: bv64) {
    CanMap(m, cr3, pageDirectory, pageTable) ==>
      Fresh(m, cr3, Translate(m, cr3, pageDirectory).value, Translate(m, cr3, pageTable).value)
  }

  lemma TablesAligned(m: Memory, cr3: bv64, pageDirectory: bv64, pageTable: bv64)
    requires Offset(pageDirectory) == 0 && Offset(pageTable) == 0
    requires Translate(m, cr3, pageDirectory).Some? && Translate(m, cr3, pageTable).Some?
    ensures IsTablePage(Translate(m, cr3, pageDirectory).value) && IsTablePage(Translate(m, cr3, pageTable).value)
  {
    ArrayWord(m, cr3, pageDirectory, 0);
    ArrayWord(m, cr3, pageTable, 0);
  }

  /** Writing the region's PDPT entry keeps the stage and both tables. */
  lemma LinkSlot(m: Memory, m': Memory, cr3: bv64, pd: bv64, pt: bv64, v: bv64)
    requires Staged(m, m', cr3, pd, pt) && Filled(m', pd, pt, 0, 0) && IsTablePage(pd) && IsTablePage(pt)
    requires !InPage(LapicSlot(m, cr3), pd) && !InPage(LapicSlot(m, cr3), pt)
    ensures var w := Write(m', LapicSlot(m, cr3), v);
      Staged(m, w, cr3, pd, pt) && Filled(w, pd, pt, 0, 0) && w(LapicSlot(m, cr3)) == v
  {
    hide Slot, InPage, IsTablePage, LapicSlot;
    var w := Write(m', LapicSlot(m, cr3), v);
    forall i: bv64 | i < 512 ensures w(Slot(pd, i)) == 0 && w(Slot(pt, i)) == 0 {
      SlotBits(pd, i);
      SlotBits(pt, i);
    }
  }

  ghost predicate ClearUpTo(m: Memory, pd: bv64, pt: bv64, n: bv64) {
    forall j: bv64 | j < n :: m(Slot(pd, j)) == 0 && m(Slot(pt, j)) == 0
  }

  lemma NoneClear(m: Memory, pd: bv64, pt: bv64)
    ensures ClearUpTo(m, pd, pt, 0)
  {
  }

  lemma NextClear(m0: Memory, m1: Memory, m2: Memory, pd: bv64, pt: bv64, i: bv64)
    requires ClearUpTo(m0, pd, pt, i) && i < 512
    requires m1(Slot(pd, i)) == 0 && forall a :: m0(a) == 0 ==> m1(a) == 0
    requires m2(Slot(pt, i)) == 0 && forall a :: m1(a) == 0 ==> m2(a) == 0
    ensures ClearUpTo(m2, pd, pt, i + 1)
  {
    hide Slot;
    forall j: bv64 | j < i + 1 ensures m2(Slot(pd, j)) == 0 && m2(Slot(pt, j)) == 0 {
      LastOrBefore(i, j);
    }
  }

  lemma LastOrBefore(i: bv64, j: bv64)
    requires j < i + 1 && i < 512
    ensures j < i || j == i
  {
  }

  lemma AllClear(m: Memory, pd: bv64, pt: bv64)
    requires ClearUpTo(m, pd, pt, 512)
    ensures Filled(m, pd, pt, 0, 0)
  {
    hide Slot;
  }

  // --- the writes, one by one ---------------------------------------------------------------

  datatype Store = Store(at: bv64, value: bv64)

  /** The writes that clear the first `i` words of both tables. */
  function Clearing(pd: bv64, pt: bv64, i: bv64): seq<Store> {
    if i == 0 then [] else Clearing(pd, pt, i - 1) + [Store(Slot(pd, i - 1), 0), Store(Slot(pt, i - 1), 0)]
  }

  /** Every write of the mapping, in order: both tables are cleared, then linked from the top down. */
  function Stores(pd: bv64, pt: bv64, pdptSlot: bv64): seq<Store> {
    Clearing(pd, pt, 512)
    + [Store(pdptSlot, TableEntry(pd)), Store(Slot(pd, 0), TableEntry(pt)), Store(Slot(pt, 0), LapicEntry())]
  }

  /** The same writes when both tables are given by their virtual addresses. */
  function MappingStores(m: Memory, cr3: bv64, pageDirectory: bv64, pageTable: bv64): seq<Store>
    requires CanMap(m, cr3, pageDirectory, pageTable)
  {
    Stores(Translate(m, cr3, pageDirectory).value, Translate(m, cr3, pageTable).value, LapicSlot(m, cr3))
  }

  /** `steps` are the memories before, between and after these writes. */
  ghost predicate Trace(steps: seq<Memory>, stores: seq<Store>) {
    && |steps| == |stores| + 1
    && forall k | 0 <= k < |stores| :: steps[k + 1] == Write(steps[k], stores[k].at, stores[k].value)
  }

  lemma TraceOn(steps: seq<Memory>, stores: seq<Store>, s: Store, m: Memory)
    requires Trace(steps, stores) && m == Write(steps[|steps| - 1], s.at, s.value)
    ensures Trace(steps + [m], stores + [s])
  {
    hide Write;
  }

  lemma TraceNone(m: Memory)
    ensures Trace([m], [])
  {
  }

  lemma TraceClear(steps: seq<Memory>, m1: Memory, m2: Memory, pd: bv64, pt: bv64, i: bv64)
    requires Trace(steps, Clearing(pd, pt, i)) && i < 512
    requires m1 == Write(steps[|steps| - 1], Slot(pd, i), 0) && m2 == Write(m1, Slot(pt, i), 0)
    ensures Trace(steps + [m1] + [m2], Clearing(pd, pt, i + 1))
  {
    hide Write, Slot;
    var first, second := Store(Slot(pd, i), 0), Store(Slot(pt, i), 0);
    TraceOn(steps, Clearing(pd, pt, i), first, m1);
    TraceOn(steps + [m1], Clearing(pd, pt, i) + [first], second, m2);
    assert Clearing(pd, pt, i) + [first] + [second] == Clearing(pd, pt, i + 1);
  }

  lemma TraceLinks(steps: seq<Memory>, m1: Memory, m2: Memory, m3: Memory, pd: bv64, pt: bv64, pdptSlot: bv64)
    requires Trace(steps, Clearing(pd, pt, 512)) && m1 == Write(steps[|steps| - 1], pdptSlot, TableEntry(pd))
    requires m2 == Write(m1, Slot(pd, 0), TableEntry(pt)) && m3 == Write(m2, Slot(pt, 0), LapicEntry())
    ensures Trace(steps + [m1] + [m2] + [m3], Stores(pd, pt, pdptSlot))
  {
    hide Write, Slot, TableEntry, LapicEntry, Clearing;
    var stores := Clearing(pd, pt, 512);
    var first, second := Store(pdptSlot, TableEntry(pd)), Store(Slot(pd, 0), TableEntry(pt));
    var third := Store(Slot(pt, 0), LapicEntry());
    TraceOn(steps, stores, first, m1);
    TraceOn(steps + [m1], stores + [first], second, m2);
    TraceOn(steps + [m1] + [m2], stores + [first] + [second], third, m3);
    assert stores + [first] + [second] + [third] == Stores(pd, pt, pdptSlot);
  }

  /** Clearing `d` more words takes `n` more writes. */
  ghost predicate Takes(pd: bv64, pt: bv64, d: bv64, n: nat) {
    forall i: bv64 | i <= 512 - d :: |Clearing(pd, pt, i + d)| == |Clearing(pd, pt, i)| + n
  }

  lemma TakesOnce(pd: bv64, pt: bv64)
    ensures Takes(pd, pt, 1, 2)
  {
  }

  lemma TakesTwice(pd: bv64, pt: bv64, d: bv64, n: nat)
    requires d <= 256 && Takes(pd, pt, d, n)
    ensures Takes(pd, pt, d + d, 2 * n)
  {
    hide Clearing;
    forall i: bv64 | i <= 512 - (d + d)
      ensures |Clearing(pd, pt, i + (d + d))| == |Clearing(pd, pt, i)| + 2 * n
    {
      DoubleBits(i, d);
      assert |Clearing(pd, pt, i + d)| == |Clearing(pd, pt, i)| + n;
      assert |Clearing(pd, pt, i + d + d)| == |Clearing(pd, pt, i + d)| + n;
    }
  }

  lemma DoubleBits(i: bv64, d: bv64)
    requires d <= 256 && i <= 512 - (d + d)
    ensures i <= 512 - d && i + d <= 512 - d && i + d + d == i + (d + d)
  {
  }

  lemma {:induction false} ClearingZeroes(pd: bv64, pt: bv64, i: bv64)
    ensures forall k | 0 <= k < |Clearing(pd, pt, i)| :: Clearing(pd, pt, i)[k].value == 0
    decreases i
  {
    if i > 0 {
      ClearingZeroes(pd, pt, i - 1);
    }
  }

  lemma FirstWords(pd: bv64, pt: bv64)
    ensures Slot(pd, 0) == pd && Slot(pt, 0) == pt && TableEntry(pd) == pd | 3 && TableEntry(pt) == pt | 3
    ensures LapicEntry() == 0xFEE0_001B
  {
  }

  /** All the writes: 1024 zeroes, 512 words in each table, then the three links from the top down. */
  lemma StoresInPlain(pd: bv64, pt: bv64, pdptSlot: bv64)
    ensures var stores := Stores(pd, pt, pdptSlot);
      && |stores| == 1027 && (forall k | 0 <= k < 1024 :: stores[k].value == 0)
      && stores[1024] == Store(pdptSlot, pd | 3) && stores[1025] == Store(pd, pt | 3)
      && stores[1026] == Store(pt, 0xFEE0_001B)
  {
    StoreCount(pd, pt, pdptSlot);
    ClearingZeroes(pd, pt, 512);
    FirstWords(pd, pt);
    hide Clearing, Slot, TableEntry, LapicEntry;
  }

  /** Both tables have 512 words, and three writes follow. */
  lemma StoreCount(pd: bv64, pt: bv64, pdptSlot: bv64)
    ensures |Clearing(pd, pt, 512)| == 1024 && |Stores(pd, pt, pdptSlot)| == 1027
  {
    TakesOnce(pd, pt);
    TakesTwice(pd, pt, 1, 2);
    TakesTwice(pd, pt, 2, 4);
    TakesTwice(pd, pt, 4, 8);
    TakesTwice(pd, pt, 8, 16);
    TakesTwice(pd, pt, 16, 32);
    TakesTwice(pd, pt, 32, 64);
    TakesTwice(pd, pt, 64, 128);
    TakesTwice(pd, pt, 128, 256);
    TakesTwice(pd, pt, 256, 512);
    AllTaken(pd, pt);
    hide Clearing, Takes;
  }

  lemma AllTaken(pd: bv64, pt: bv64)
    requires Takes(pd, pt, 512, 1024)
    ensures |Clearing(pd, pt, 512)| == 1024
  {
    assert |Clearing(pd, pt, 0 + 512)| == |Clearing(pd, pt, 0)| + 1024;
    assert Clearing(pd, pt, 0) == [];
  }

  class Cpu {
    var mem: Memory
    const cr3: bv64

    constructor (mem: Memory, cr3: bv64) {
      this.mem, this.cr3 := mem, cr3;
    }

    /** A store through the page tables. */
    method StoreVirtual(va: bv64, v: bv64)
      requires Translate(mem, cr3, va).Some?
      modifies this
      ensures mem == Write(old(mem), Translate(old(mem), cr3, va).value, v)
    {
      mem := Write(mem, Translate(mem, cr3, va).value, v);
    }

    /** Clear word `i` of the array at `base`, whose frame `p` is a new table; `m` is memory at the start. */
    method ClearWord(base: bv64, i: bv64, ghost m: Memory, ghost pd: bv64, ghost pt: bv64, ghost p: bv64)
      requires Fresh(m, cr3, pd, pt) && Present(m(Root(cr3))) && !Present(m(LapicSlot(m, cr3)))
      requires Staged(m, mem, cr3, pd, pt) && mem(LapicSlot(m, cr3)) == m(LapicSlot(m, cr3))
      requires Translate(m, cr3, base) == Some(p) && Offset(base) == 0 && i < 512 && (p == pd || p == pt)
      modifies this
      ensures Staged(m, mem, cr3, pd, pt) && mem(LapicSlot(m, cr3)) == m(LapicSlot(m, cr3))
      ensures mem(Slot(p, i)) == 0 && forall a :: old(mem)(a) == 0 ==> mem(a) == 0
      ensures mem == Write(old(mem), Slot(p, i), 0) && Quiet(m, mem, cr3)
    {
      hide Fresh, Staged, Quiet, InPage, Slot, Translate, Offset, LapicSlot, IsTablePage, Write, Present, Root;
      SlotOutside(m, cr3, pd, pt);
      ArrayStays(m, mem, cr3, pd, pt, base, i);
      ZeroStep(m, mem, cr3, pd, pt, p, i);
      StoreVirtual(Slot(base, i), 0);
      QuietBefore(m, mem, cr3, pd, pt);
    }

    /** Zero both arrays word by word. */
    method ClearTables(pageDirectory: bv64, pageTable: bv64, ghost pd: bv64, ghost pt: bv64)
      returns (ghost steps: seq<Memory>)
      requires CanMap(mem, cr3, pageDirectory, pageTable) && Fresh(mem, cr3, pd, pt)
      requires Offset(pageDirectory) == 0 && Offset(pageTable) == 0
      requires Translate(mem, cr3, pageDirectory) == Some(pd) && Translate(mem, cr3, pageTable) == Some(pt)
      modifies this
      ensures Staged(old(mem), mem, cr3, pd, pt) && Filled(mem, pd, pt, 0, 0)
      ensures mem(LapicSlot(old(mem), cr3)) == old(mem)(LapicSlot(old(mem), cr3))
      ensures |steps| > 0 && Trace(steps, Clearing(pd, pt, 512)) && steps[0] == old(mem) && steps[|steps| - 1] == mem
      ensures forall k | 0 <= k < |steps| :: Quiet(old(mem), steps[k], cr3)
    {
      hide Fresh, Staged, Quiet, InPage, Slot, Translate, Offset, LapicSlot, IsTablePage, Write, Present, Root,
           ClearUpTo, Filled, Trace;
      ghost var m := mem;
      NoneClear(m, pd, pt);
      StagedSame(m, cr3, pd, pt);
      SlotOutside(m, cr3, pd, pt);
      QuietBefore(m, m, cr3, pd, pt);
      steps := [m];
      TraceNone(m);
      var i: bv64 := 0;
      while i < 512
        invariant i <= 512
        invariant Staged(m, mem, cr3, pd, pt) && mem(LapicSlot(m, cr3)) == m(LapicSlot(m, cr3))
        invariant ClearUpTo(mem, pd, pt, i)
        invariant |steps| > 0 && steps[0] == m && steps[|steps| - 1] == mem && Trace(steps, Clearing(pd, pt, i))
        invariant forall k | 0 <= k < |steps| :: Quiet(m, steps[k], cr3)
        decreases 512 - i
      {
        ghost var m0 := mem;
        ClearWord(pageDirectory, i, m, pd, pt, pd);
        ghost var m1 := mem;
        ClearWord(pageTable, i, m, pd, pt, pt);
        NextClear(m0, m1, mem, pd, pt, i);
        TraceClear(steps, m1, mem, pd, pt, i);
        steps := steps + [m1] + [mem];
        i := i + 1;
      }
      AllClear(mem, pd, pt);
    }

    /** Memory so far: only the new tables, which were free, and the region's PDPT entry differ from `m`. */
    ghost predicate Linked(m: Memory, pd: bv64, pt: bv64, pdEntry: bv64, ptEntry: bv64)
      reads this
    {
      && Fresh(m, cr3, pd, pt) && IsTablePage(pd) && IsTablePage(pt)
      && Present(m(Root(cr3))) && !Present(m(LapicSlot(m, cr3)))
      && Staged(m, mem, cr3, pd, pt) && Filled(mem, pd, pt, pdEntry, ptEntry)
      && mem(LapicSlot(m, cr3)) == TableEntry(pd)
    }

    /** Write entry 0 of the directory through the kernel's own mapping of it. */
    method FillDirectoryEntry(pageDirectory: bv64, ghost m: Memory, ghost pd: bv64, pt: bv64)
      requires Linked(m, pd, pt, 0, 0)
      requires Translate(m, cr3, pageDirectory) == Some(pd) && Offset(pageDirectory) == 0
      modifies this
      ensures Linked(m, pd, pt, TableEntry(pt), 0) && (OnePath(m, cr3) ==> Quiet(m, mem, cr3))
      ensures mem == Write(old(mem), Slot(pd, 0), TableEntry(pt))
    {
      assert pd != pt;
      hide Fresh, OnePath, Staged, Quiet, Filled, InPage, Slot, Translate, Offset, LapicSlot, IsTablePage, Write,
           Present, Root, TableEntry;
      SlotOutside(m, cr3, pd, pt);
      ArrayStays(m, mem, cr3, pd, pt, pageDirectory, 0);
      StagedWrite(m, mem, cr3, pd, pt, pd, 0, TableEntry(pt));
      FillDirectory(mem, pd, pt, 0, 0, TableEntry(pt));
      StoreVirtual(Slot(pageDirectory, 0), TableEntry(pt));
      if OnePath(m, cr3) {
        QuietLinked(m, mem, cr3, pd, pt, TableEntry(pt));
      }
    }

    /** Write entry 0 of the page table: the page that shows the local APIC. */
    method FillTableEntry(pageTable: bv64, ghost m: Memory, ghost pd: bv64, ghost pt: bv64)
      requires Linked(m, pd, pt, TableEntry(pt), 0)
      requires Translate(m, cr3, pageTable) == Some(pt) && Offset(pageTable) == 0
      modifies this
      ensures (Shown(m, mem, cr3) <==> OnePath(m, cr3)) && mem == Write(old(mem), Slot(pt, 0), LapicEntry())
    {
      assert pd != pt;
      hide Fresh, OnePath, Staged, Quiet, Shown, Filled, InPage, Slot, Translate, Offset, LapicSlot, IsTablePage, Write,
           Present, Root, TableEntry, LapicEntry;
      SlotOutside(m, cr3, pd, pt);
      ArrayStays(m, mem, cr3, pd, pt, pageTable, 0);
      StagedWrite(m, mem, cr3, pd, pt, pt, 0, LapicEntry());
      FillTable(mem, pd, pt, TableEntry(pt), 0, LapicEntry());
      StoreVirtual(Slot(pageTable, 0), LapicEntry());
      ShownIff(m, mem, cr3, pd, pt);
    }

    /** Clear both tables, then link them top down and fill in the one page. */
    method InstallTables(pageDirectory: bv64, pageTable: bv64, pd: bv64, pt: bv64, pdptSlot: bv64)
      returns (ghost steps: seq<Memory>)
      requires CanMap(mem, cr3, pageDirectory, pageTable) && Fresh(mem, cr3, pd, pt)
      requires Offset(pageDirectory) == 0 && Offset(pageTable) == 0
      requires Translate(mem, cr3, pageDirectory) == Some(pd) && Translate(mem, cr3, pageTable) == Some(pt)
      requires pdptSlot == LapicSlot(mem, cr3)
      modifies this
      ensures Shown(old(mem), mem, cr3) <==> OnePath(old(mem), cr3)
      ensures |steps| > 0 && Trace(steps, Stores(pd, pt, pdptSlot)) && steps[0] == old(mem) && steps[|steps| - 1] == mem
      ensures OnePath(old(mem), cr3) ==> forall k | 0 <= k < |steps| - 1 :: Quiet(old(mem), steps[k], cr3)
    {
      hide Fresh, OnePath, Staged, Quiet, Shown, Filled, InPage, Slot, Translate, Offset, LapicSlot, IsTablePage, Write,
           Present, Root, TableEntry, Trace, Clearing;
      ghost var m := mem;
      SlotOutside(m, cr3, pd, pt);
      TablesAligned(m, cr3, pageDirectory, pageTable);
      steps := ClearTables(pageDirectory, pageTable, pd, pt);
      LinkSlot(m, mem, cr3, pd, pt, TableEntry(pd));
      mem := Write(mem, pdptSlot, TableEntry(pd));
      if OnePath(m, cr3) {
        QuietLinked(m, mem, cr3, pd, pt, 0);
      }
      ghost var m1 := mem;
      FillDirectoryEntry(pageDirectory, m, pd, pt);
      ghost var m2 := mem;
      FillTableEntry(pageTable, m, pd, pt);
      TraceLinks(steps, m1, m2, mem, pd, pt, pdptSlot);
      steps := steps + [m1] + [m2] + [mem];
    }

    /** Map the local APIC at `LAPIC_VIRTUAL_BASE`; `steps` are the memories before, between and after the writes. The
        mapping shows there and nowhere else exactly when only walks for the region read its PDPT entry. */
    method EnableLegacyPic(pageDirectory: bv64, pageTable: bv64) returns (ok: bool, ghost steps: seq<Memory>)
      requires cr3 & !OFFSET_MASK == Table(cr3)
      requires Offset(pageDirectory) == 0 && Offset(pageTable) == 0
      requires FreshArrays(mem, cr3, pageDirectory, pageTable)
      modifies this
      ensures ok <==> CanMap(old(mem), cr3, pageDirectory, pageTable)
      ensures if ok then Shown(old(mem), mem, cr3) <==> OnePath(old(mem), cr3) else mem == old(mem)
      ensures |steps| == (if ok then 1028 else 1) && steps[0] == old(mem) && steps[|steps| - 1] == mem
      ensures ok ==> Trace(steps, MappingStores(old(mem), cr3, pageDirectory, pageTable))
      ensures ok && OnePath(old(mem), cr3) ==> forall k | 0 <= k < |steps| - 1 :: Quiet(old(mem), steps[k], cr3)
    {
      steps := [mem];
      var directory := Translate(mem, cr3, pageDirectory);
      if directory.None? {
        return false, steps;
      }
      var table := Translate(mem, cr3, pageTable);
      if table.None? {
        return false, steps;
      }
      var pml4Entry := mem(Slot(cr3 & !OFFSET_MASK, 511));
      if !Present(pml4Entry) {
        return false, steps;
      }
      var pdptSlot := Slot(Table(pml4Entry), 511);
      if Present(mem(pdptSlot)) {
        return false, steps;
      }
      steps := InstallTables(pageDirectory, pageTable, directory.value, table.value, pdptSlot);
      StoreCount(directory.value, table.value, pdptSlot);
      ok := true;
    }
  }
}
