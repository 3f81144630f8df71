/** The four-level page walk over physical memory. */
module Paging {
  import opened Machine

  /** Physical memory as 64-bit words, by address. */
  type Memory = bv64 -> bv64

  const PRESENT: bv64 := 1
  const HUGE: bv64 := 1 << 7
  const ADDRESS_MASK: bv64 := 0x000F_FFFF_FFFF_F000
  const OFFSET_MASK: bv64 := 0xFFF

  function Write(m: Memory, a: bv64, v: bv64): Memory {
    x => if x == a then v else m(x)
  }

  predicate Present(entry: bv64) {
    entry & PRESENT != 0
  }

  predicate Huge(entry: bv64) {
    entry & HUGE != 0
  }

  function Table(entry: bv64): bv64 {
    entry & ADDRESS_MASK
  }

  /** The address of entry `index` of a table. */
  function Slot(table: bv64, index: bv64): bv64 {
    table + 8 * index
  }

  function Pml4Index(va: bv64): bv64 { (va >> 39) & 0x1FF }

  function PdptIndex(va: bv64): bv64 { (va >> 30) & 0x1FF }

  function PdIndex(va: bv64): bv64 { (va >> 21) & 0x1FF }

  function PtIndex(va: bv64): bv64 { (va >> 12) & 0x1FF }

  // The words of a walk and where they are read.

  function Pml4Slot(cr3: bv64, va: bv64): bv64 { Slot(Table(cr3), Pml4Index(va)) }

  function Pml4Entry(m: Memory, cr3: bv64, va: bv64): bv64 { m(Pml4Slot(cr3, va)) }

  function PdptSlot(m: Memory, cr3: bv64, va: bv64): bv64 { Slot(Table(Pml4Entry(m, cr3, va)), PdptIndex(va)) }

  function PdptEntry(m: Memory, cr3: bv64, va: bv64): bv64 { m(PdptSlot(m, cr3, va)) }

  function PdSlot(m: Memory, cr3: bv64, va: bv64): bv64 { Slot(Table(PdptEntry(m, cr3, va)), PdIndex(va)) }

  function PdEntry(m: Memory, cr3: bv64, va: bv64): bv64 { m(PdSlot(m, cr3, va)) }

  function PtSlot(m: Memory, cr3: bv64, va: bv64): bv64 { Slot(Table(PdEntry(m, cr3, va)), PtIndex(va)) }

  function PtEntry(m: Memory, cr3: bv64, va: bv64): bv64 { m(PtSlot(m, cr3, va)) }

  function Offset(va: bv64): bv64 {
    va & OFFSET_MASK
  }

  function AtOffset(frame: bv64, offset: bv64): bv64 {
    frame | offset
  }

  /** `paging_translate_4k`: the physical address behind `va`, unless some level is missing or huge. */
  function Translate(m: Memory, cr3: bv64, va: bv64): Option<bv64> {
    if !Present(Pml4Entry(m, cr3, va)) then None
    else if !Present(PdptEntry(m, cr3, va)) || Huge(PdptEntry(m, cr3, va)) then None
    else if !Present(PdEntry(m, cr3, va)) || Huge(PdEntry(m, cr3, va)) then None
    else if !Present(PtEntry(m, cr3, va)) then None
    else Some(AtOffset(Table(PtEntry(m, cr3, va)), Offset(va)))
  }

  /** `paging_is_mapped`: does any page, of any size, cover `va`? */
  predicate IsMapped(m: Memory, cr3: bv64, va: bv64) {
    if !Present(Pml4Entry(m, cr3, va)) then false
    else if !Present(PdptEntry(m, cr3, va)) then false
    else if Huge(PdptEntry(m, cr3, va)) then true
    else if !Present(PdEntry(m, cr3, va)) then false
    else if Huge(PdEntry(m, cr3, va)) then true
    else Present(PtEntry(m, cr3, va))
  }

  /** The words a walk for `va` reads, from the root down. */
  function Path(m: Memory, cr3: bv64, va: bv64): seq<bv64> {
    if !Present(Pml4Entry(m, cr3, va)) then [Pml4Slot(cr3, va)]
    else if !Present(PdptEntry(m, cr3, va)) || Huge(PdptEntry(m, cr3, va)) then
      [Pml4Slot(cr3, va), PdptSlot(m, cr3, va)]
    else if !Present(PdEntry(m, cr3, va)) || Huge(PdEntry(m, cr3, va)) then
      [Pml4Slot(cr3, va), PdptSlot(m, cr3, va), PdSlot(m, cr3, va)]
    else
      [Pml4Slot(cr3, va), PdptSlot(m, cr3, va), PdSlot(m, cr3, va), PtSlot(m, cr3, va)]
  }

  /** The walk ends early at a present entry with the huge bit: a 1 GiB or 2 MiB page. */
  predicate MeetsHuge(m: Memory, cr3: bv64, va: bv64) {
    var path := Path(m, cr3, va);
    2 <= |path| <= 3 && Present(m(path[|path| - 1])) && Huge(m(path[|path| - 1]))
  }

  /** The two walks agree except on huge pages, which only `IsMapped` accepts. */
  lemma WalksAgree(m: Memory, cr3: bv64, va: bv64)
    ensures Translate(m, cr3, va).Some? ==> IsMapped(m, cr3, va)
    ensures IsMapped(m, cr3, va) && Translate(m, cr3, va).None? <==> MeetsHuge(m, cr3, va)
  {
    hide Table, Slot, Present, Huge, AtOffset, Offset;
  }

  predicate Agree(m: Memory, m': Memory, path: seq<bv64>) {
    forall i | 0 <= i < |path| :: m'(path[i]) == m(path[i])
  }

  /** What the words of a walk are, and that each but the last is present and not huge where that matters. */
  lemma LongWalk(m: Memory, cr3: bv64, va: bv64)
    ensures var path := Path(m, cr3, va);
      && 0 < |path| <= 4 && path[0] == Pml4Slot(cr3, va)
      && (|path| > 1 ==> path[1] == PdptSlot(m, cr3, va) && Present(Pml4Entry(m, cr3, va)))
      && (|path| > 2 ==> path[2] == PdSlot(m, cr3, va)
                         && Present(PdptEntry(m, cr3, va)) && !Huge(PdptEntry(m, cr3, va)))
      && (|path| > 3 ==> path[3] == PtSlot(m, cr3, va)
                         && Present(PdEntry(m, cr3, va)) && !Huge(PdEntry(m, cr3, va)))
  {
    hide Present, Huge, Pml4Entry, PdptEntry, PdEntry, PtEntry, Pml4Slot, PdptSlot, PdSlot, PtSlot;
  }

  /** The entries read agree, as far down as the walk goes. */
  lemma SameWords(m: Memory, m': Memory, cr3: bv64, va: bv64)
    requires Agree(m, m', Path(m, cr3, va))
    ensures var n := |Path(m, cr3, va)|;
      && Pml4Entry(m', cr3, va) == Pml4Entry(m, cr3, va)
      && (n > 1 ==> PdptSlot(m', cr3, va) == PdptSlot(m, cr3, va) && PdptEntry(m', cr3, va) == PdptEntry(m, cr3, va))
      && (n > 2 ==> PdSlot(m', cr3, va) == PdSlot(m, cr3, va) && PdEntry(m', cr3, va) == PdEntry(m, cr3, va))
      && (n > 3 ==> PtSlot(m', cr3, va) == PtSlot(m, cr3, va) && PtEntry(m', cr3, va) == PtEntry(m, cr3, va))
  {
    hide Path, Table, Slot, Present, Huge, Pml4Slot, Pml4Index, PdptIndex, PdIndex, PtIndex;
    LongWalk(m, cr3, va);
  }

  /** Memory that agrees on the words a walk reads gives the same walk. */
  lemma WalkDependsOnPath(m: Memory, m': Memory, cr3: bv64, va: bv64)
    requires Agree(m, m', Path(m, cr3, va))
    ensures Path(m', cr3, va) == Path(m, cr3, va)
    ensures Translate(m', cr3, va) == Translate(m, cr3, va)
    ensures IsMapped(m', cr3, va) == IsMapped(m, cr3, va)
  {
    hide Agree, Table, Present, Huge, AtOffset, Offset, Pml4Slot, PdptSlot, PdSlot, PtSlot, Pml4Entry, PdptEntry,
         PdEntry, PtEntry;
    SameWords(m, m', cr3, va);
  }

  // --- the walk, level by level ------------------------------------------------------------

  function TopNine(bits: bv64): bv64 { (bits >> 39) & 0x1FF }

  function Shifted(bits: bv64): bv64 { bits << 9 }

  predicate BitZero(e: bv64) { e & 1 != 0 }

  predicate BitSeven(e: bv64) { e & 0x80 != 0 }

  function AddressField(e: bv64): bv64 { e & 0x000F_FFFF_FFFF_F000 }

  function WordAt(table: bv64, i: bv64): bv64 { table + 8 * i }

  function ByteIn(frame: bv64, va: bv64): bv64 { frame | (va & 0xFFF) }

  datatype Found = Nothing | LargePage | SmallPage(frame: bv64)

  /** One step per level, from level 4 down: nine address bits from the top of the 48 pick an entry; bit 0 says whether
      it is present, and on levels 3 and 2 bit 7 makes it a large page. */
  function Descend(m: Memory, table: bv64, bits: bv64, level: nat): Found
    requires 1 <= level <= 4
    decreases level
  {
    var entry := m(WordAt(table, TopNine(bits)));
    if !BitZero(entry) then Nothing
    else if level == 1 then SmallPage(AddressField(entry))
    else if level <= 3 && BitSeven(entry) then LargePage
    else Descend(m, AddressField(entry), Shifted(bits), level - 1)
  }

  lemma IndexShifts(va: bv64)
    ensures Pml4Index(va) == TopNine(va) && PdptIndex(va) == TopNine(Shifted(va))
    ensures PdIndex(va) == TopNine(Shifted(Shifted(va))) && PtIndex(va) == TopNine(Shifted(Shifted(Shifted(va))))
  {
  }

  lemma EntryBit(e: bv64)
    ensures Present(e) <==> BitZero(e)
  {
  }

  lemma EntryHuge(e: bv64)
    ensures Huge(e) <==> BitSeven(e)
  {
  }

  lemma EntryAddress(e: bv64, i: bv64, va: bv64)
    ensures Table(e) == AddressField(e) && Slot(e, i) == WordAt(e, i) && AtOffset(e, Offset(va)) == ByteIn(e, va)
  {
  }

  /** An entry read through the walk's own names. */
  lemma EntryFields(m: Memory, table: bv64, i: bv64, va: bv64)
    ensures var e := m(Slot(table, i));
      && e == m(WordAt(table, i)) && (Present(e) <==> BitZero(e)) && (Huge(e) <==> BitSeven(e))
      && Table(e) == AddressField(e) && AtOffset(Table(e), Offset(va)) == ByteIn(Table(e), va)
  {
    hide Present, BitZero, Huge, BitSeven, Table, AddressField, Slot, WordAt, AtOffset, Offset, ByteIn;
    var e := m(Slot(table, i));
    EntryAddress(table, i, va);
    EntryBit(e);
    EntryHuge(e);
    EntryAddress(e, i, va);
    EntryAddress(Table(e), i, va);
  }

  /** One level of the walk, for the entry it reads. */
  lemma OneLevel(m: Memory, table: bv64, bits: bv64, level: nat, e: bv64)
    requires 1 <= level <= 4 && e == m(Slot(table, TopNine(bits)))
    ensures !Present(e) ==> Descend(m, table, bits, level) == Nothing
    ensures Present(e) && level == 1 ==> Descend(m, table, bits, level) == SmallPage(Table(e))
    ensures Present(e) && 1 < level <= 3 && Huge(e) ==> Descend(m, table, bits, level) == LargePage
    ensures Present(e) && 1 < level && (level == 4 || !Huge(e)) ==>
      Descend(m, table, bits, level) == Descend(m, Table(e), Shifted(bits), level - 1)
  {
    hide TopNine, Shifted, Present, BitZero, Huge, BitSeven, Table, AddressField, Slot, WordAt, AtOffset, Offset,
         ByteIn;
    EntryFields(m, table, TopNine(bits), 0);
  }

  /** The last two levels. */
  lemma LowLevels(m: Memory, table: bv64, bits: bv64, e2: bv64, e1: bv64)
    requires e2 == m(Slot(table, TopNine(bits))) && e1 == m(Slot(Table(e2), TopNine(Shifted(bits))))
    ensures Descend(m, table, bits, 2) ==
      if !Present(e2) then Nothing
      else if Huge(e2) then LargePage
      else if !Present(e1) then Nothing
      else SmallPage(Table(e1))
  {
    hide *;
    OneLevel(m, table, bits, 2, e2);
    OneLevel(m, Table(e2), Shifted(bits), 1, e1);
  }

  /** The first two levels. */
  lemma HighLevels(m: Memory, table: bv64, bits: bv64, e4: bv64, e3: bv64)
    requires e4 == m(Slot(table, TopNine(bits))) && e3 == m(Slot(Table(e4), TopNine(Shifted(bits))))
    ensures Descend(m, table, bits, 4) ==
      if !Present(e4) || !Present(e3) then Nothing
      else if Huge(e3) then LargePage
      else Descend(m, Table(e3), Shifted(Shifted(bits)), 2)
  {
    hide *;
    OneLevel(m, table, bits, 4, e4);
    OneLevel(m, Table(e4), Shifted(bits), 3, e3);
  }

  /** The entries of a walk, read through the bits that are left at each level. */
  lemma WalkEntries(m: Memory, cr3: bv64, va: bv64)
    ensures Table(cr3) == AddressField(cr3)
    ensures Pml4Entry(m, cr3, va) == m(Slot(Table(cr3), TopNine(va)))
    ensures PdptEntry(m, cr3, va) == m(Slot(Table(Pml4Entry(m, cr3, va)), TopNine(Shifted(va))))
    ensures PdEntry(m, cr3, va) == m(Slot(Table(PdptEntry(m, cr3, va)), TopNine(Shifted(Shifted(va)))))
    ensures PtEntry(m, cr3, va) == m(Slot(Table(PdEntry(m, cr3, va)), TopNine(Shifted(Shifted(Shifted(va))))))
    ensures AtOffset(Table(PtEntry(m, cr3, va)), Offset(va)) == ByteIn(Table(PtEntry(m, cr3, va)), va)
  {
    hide TopNine, Shifted, Pml4Index, PdptIndex, PdIndex, PtIndex, Table, AddressField, Slot, WordAt, AtOffset, Offset,
         ByteIn;
    IndexShifts(va);
    EntryAddress(cr3, 0, va);
    EntryAddress(Table(PtEntry(m, cr3, va)), 0, va);
  }

  /** The four steps from the root, in terms of the entries read. */
  lemma FourLevels(m: Memory, cr3: bv64, va: bv64)
    ensures var found := Descend(m, AddressField(cr3), va, 4);
      var e4, e3, e2, e1 := Pml4Entry(m, cr3, va), PdptEntry(m, cr3, va), PdEntry(m, cr3, va), PtEntry(m, cr3, va);
      found ==
        if !Present(e4) || !Present(e3) then Nothing
        else if Huge(e3) then LargePage
        else if !Present(e2) then Nothing
        else if Huge(e2) then LargePage
        else if !Present(e1) then Nothing
        else SmallPage(Table(e1))
    ensures AtOffset(Table(PtEntry(m, cr3, va)), Offset(va)) == ByteIn(Table(PtEntry(m, cr3, va)), va)
  {
    hide *;
    WalkEntries(m, cr3, va);
    var e4, e3 := Pml4Entry(m, cr3, va), PdptEntry(m, cr3, va);
    HighLevels(m, Table(cr3), va, e4, e3);
    LowLevels(m, Table(e3), Shifted(Shifted(va)), PdEntry(m, cr3, va), PtEntry(m, cr3, va));
  }

  /** Both functions are the level-by-level walk: one accepts small pages and gives the byte's place in the frame, the
      other accepts pages of any size. */
  lemma WalksDescend(m: Memory, cr3: bv64, va: bv64)
    ensures var found := Descend(m, AddressField(cr3), va, 4);
      && Translate(m, cr3, va) == (if found.SmallPage? then Some(ByteIn(found.frame, va)) else None)
      && (IsMapped(m, cr3, va) <==> !found.Nothing?)
  {
    FourLevels(m, cr3, va);
    hide Descend, Present, Huge, Table, AddressField, AtOffset, Offset, ByteIn, Pml4Entry, PdptEntry, PdEntry, PtEntry;
  }

  // --- one page, one frame -----------------------------------------------------------

  lemma IndicesOfPage(va: bv64, wa: bv64)
    requires va & 0x0000_FFFF_FFFF_F000 == wa & 0x0000_FFFF_FFFF_F000
    ensures Pml4Index(va) == Pml4Index(wa) && PdptIndex(va) == PdptIndex(wa)
    ensures PdIndex(va) == PdIndex(wa) && PtIndex(va) == PtIndex(wa)
  {
  }

  lemma OffsetOf(frame: bv64, va: bv64)
    requires frame & !ADDRESS_MASK == 0
    ensures AtOffset(frame, Offset(va)) & ADDRESS_MASK == frame
    ensures Offset(AtOffset(frame, Offset(va))) == Offset(va)
  {
  }

  lemma TableIsMasked(entry: bv64)
    ensures Table(entry) & !ADDRESS_MASK == 0
  {
  }

  lemma SameEntries(m: Memory, cr3: bv64, va: bv64, wa: bv64)
    requires va & 0x0000_FFFF_FFFF_F000 == wa & 0x0000_FFFF_FFFF_F000
    ensures Pml4Entry(m, cr3, va) == Pml4Entry(m, cr3, wa) && PdptEntry(m, cr3, va) == PdptEntry(m, cr3, wa)
    ensures PdEntry(m, cr3, va) == PdEntry(m, cr3, wa) && PtEntry(m, cr3, va) == PtEntry(m, cr3, wa)
  {
    IndicesOfPage(va, wa);
    hide Pml4Index, PdptIndex, PdIndex, PtIndex, Slot, Table;
  }

  /** Two addresses in one page, whatever their top sixteen bits, are mapped alike: to one frame, each at its own
      offset. */
  lemma OnePageOneFrame(m: Memory, cr3: bv64, va: bv64, wa: bv64)
    requires va & 0x0000_FFFF_FFFF_F000 == wa & 0x0000_FFFF_FFFF_F000
    ensures IsMapped(m, cr3, va) == IsMapped(m, cr3, wa)
    ensures match (Translate(m, cr3, va), Translate(m, cr3, wa))
      case (Some(p), Some(q)) => p & ADDRESS_MASK == q & ADDRESS_MASK
                                 && Offset(p) == Offset(va) && Offset(q) == Offset(wa)
      case (None, None) => true
      case _ => false
  {
    hide Pml4Entry, PdptEntry, PdEntry, PtEntry, Present, Huge, AtOffset, Offset;
    SameEntries(m, cr3, va, wa);
    var frame := Table(PtEntry(m, cr3, va));
    TableIsMasked(PtEntry(m, cr3, va));
    OffsetOf(frame, va);
    OffsetOf(frame, wa);
    hide Table;
  }

  /** Translation looks at the low 48 bits only. */
  lemma LowBitsOnly(m: Memory, cr3: bv64, va: bv64, wa: bv64)
    requires va & 0x0000_FFFF_FFFF_FFFF == wa & 0x0000_FFFF_FFFF_FFFF
    ensures Translate(m, cr3, va) == Translate(m, cr3, wa) && IsMapped(m, cr3, va) == IsMapped(m, cr3, wa)
  {
    hide Pml4Entry, PdptEntry, PdEntry, PtEntry, Present, Huge, Table, AtOffset, Offset;
    SamePage(va, wa);
    SameEntries(m, cr3, va, wa);
  }

  lemma SamePage(va: bv64, wa: bv64)
    requires va & 0x0000_FFFF_FFFF_FFFF == wa & 0x0000_FFFF_FFFF_FFFF
    ensures va & 0x0000_FFFF_FFFF_F000 == wa & 0x0000_FFFF_FFFF_F000 && Offset(va) == Offset(wa)
  {
  }
}
