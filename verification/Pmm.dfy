/** The physical frame allocator as it runs: counters, a bump pointer and two packed bitmaps. */
module PmmCode {
  import opened Machine
  import opened PmmModel
  import Bits

  /** `memset` over a whole bitmap. */
  method Fill(bits: array<bv8>, v: bv8)
    modifies bits
    ensures forall i | 0 <= i < bits.Length :: bits[i] == v
  {
    for i := 0 to bits.Length
      invariant forall j | 0 <= j < i :: bits[j] == v
    {
      bits[i] := v;
    }
  }

  lemma FilledBits(bits: seq<bv8>, f: nat)
    requires f / 8 < |bits|
    ensures bits[f / 8] == 0xFF ==> Bits.Test(bits, f)
    ensures bits[f / 8] == 0 ==> !Bits.Test(bits, f)
  {
    Bits.MaskTable(f % 8);
  }

  /** Highest usable end, and the first of the longest usable ranges. */
  datatype Survey = Survey(highest: u64, base: u64, end: u64, length: u64)

  /** `s` summarises the first `n` entries. */
  predicate Surveyed(entries: seq<Entry>, n: nat, s: Survey)
    requires n <= |entries|
  {
    && (forall i | 0 <= i < n && entries[i].usable ::
          UsableEnd(entries[i]) <= s.highest && UsableLength(entries[i]) <= s.length)
    && (s.highest == 0 || exists i: nat | i < n :: entries[i].usable && UsableEnd(entries[i]) == s.highest)
    && (if s.length == 0 then s.base == 0 && s.end == 0 else exists i: nat | i < n :: IsLongest(entries, i, s))
  }

  /** Entry `i` is the surveyed range and no earlier entry is as long. */
  predicate IsLongest(entries: seq<Entry>, i: nat, s: Survey)
    requires i < |entries|
  {
    && entries[i].usable
    && (s.base, s.end, s.length) == (UsableBase(entries[i]), UsableEnd(entries[i]), UsableLength(entries[i]))
    && forall j | 0 <= j < i && entries[j].usable :: UsableLength(entries[j]) < s.length
  }

  method TakeSurvey(entries: seq<Entry>) returns (s: Survey)
    ensures Surveyed(entries, |entries|, s)
  {
    s := Survey(0, 0, 0, 0);
    for i := 0 to |entries|
      invariant Surveyed(entries, i, s)
    {
      var e := entries[i];
      if e.usable {
        var usableBase, usableEnd, usableLength := UsableBase(e), UsableEnd(e), UsableLength(e);
        ghost var was := s;
        if usableEnd > s.highest {
          s := s.(highest := usableEnd);
        }
        if usableLength > s.length {
          s := s.(base := usableBase, end := usableEnd, length := usableLength);
          assert IsLongest(entries, i, s);
        } else if s.length > 0 {
          ghost var j: nat :| j < i && IsLongest(entries, j, was);
          assert IsLongest(entries, j, s);
        }
      }
    }
  }

  lemma RangeFacts(e: Entry)
    requires Sound(e) && e.usable
    ensures UsableBase(e) % FRAME == 0 && UsableEnd(e) % FRAME == 0 && UsableEnd(e) <= TWO_64 - FRAME
    ensures if WellFormed(e) then UsableBase(e) <= UsableEnd(e) && UsableLength(e) == UsableEnd(e) - UsableBase(e)
            else UsableBase(e) == UsableEnd(e) + FRAME <= TWO_64 - 2 * FRAME && UsableLength(e) == TWO_64 - FRAME
  {
    WholeFrames(e, 0);
    PageAligned(Wrap(e.base + 0xFFF));
    PageAligned(Wrap(e.base + e.length));
    hide PageOf, Wrap, UsableLength, Sound, WellFormed;
  }

  lemma PageAligned(a: u64)
    ensures PageOf(a) % FRAME == 0 && PageOf(a) <= TWO_64 - FRAME
  {
  }

  lemma EntryFrames(e: Entry)
    requires Sound(e) && e.usable
    ensures forall f: nat :: Offers(e, f) <==> UsableBase(e) / FRAME <= f < UsableEnd(e) / FRAME
  {
    RangeFacts(e);
    forall f: nat ensures Offers(e, f) <==> UsableBase(e) / FRAME <= f < UsableEnd(e) / FRAME {
      WholeFrames(e, f);
    }
    hide UsableBase, UsableEnd, Offers, Sound;
  }

  /** The surveyed range lies below the highest end; only a range inside one page has its ends crossed. */
  predicate InRange(s: Survey) {
    && s.highest % FRAME == 0 && s.base % FRAME == 0
    && s.end <= s.highest <= TWO_64 - FRAME
    && (if s.base <= s.end then s.length == s.end - s.base
        else s.base == s.end + FRAME <= TWO_64 - 2 * FRAME && s.length == TWO_64 - FRAME)
    && (s.highest == 0 && s.base <= s.end ==> s.base == s.end == 0)
  }

  /** What a survey of sound entries says about its numbers. */
  lemma SurveyRange(entries: seq<Entry>, s: Survey)
    requires Surveyed(entries, |entries|, s) && forall i | 0 <= i < |entries| :: Sound(entries[i])
    ensures InRange(s)
  {
    if s.highest > 0 {
      var i: nat :| i < |entries| && entries[i].usable && UsableEnd(entries[i]) == s.highest;
      RangeFacts(entries[i]);
    }
    if s.length > 0 {
      var i: nat :| i < |entries| && IsLongest(entries, i, s);
      RangeFacts(entries[i]);
    }
    hide UsableBase, UsableEnd, UsableLength, WellFormed, InsidePage;
  }

  /** Every whole usable frame lies below the highest end, and the surveyed range holds only usable frames. */
  lemma SurveyFrames(entries: seq<Entry>, s: Survey, f: nat)
    requires Surveyed(entries, |entries|, s) && forall i | 0 <= i < |entries| :: Sound(entries[i])
    ensures Usable(entries, f) ==> f * FRAME < s.highest
    ensures s.base <= f * FRAME < s.end ==> Usable(entries, f)
  {
    if Usable(entries, f) {
      var i :| 0 <= i < |entries| && Offers(entries[i], f);
      WholeFrames(entries[i], f);
    }
    if s.length > 0 {
      var i: nat :| i < |entries| && IsLongest(entries, i, s);
      WholeFrames(entries[i], f);
    }
  }

  // --- how start-up ends --------------------------------------------------------------

  /** The frames one bitmap takes when memory ends at `highest`. */
  function BitmapPages(highest: u64): nat {
    ((highest / FRAME + 7) / 8 + 0xFFF) / FRAME
  }

  /** `n` is the least number of parts of `size` that hold `amount`. */
  predicate IsLeast(n: nat, amount: nat, size: nat) {
    amount <= n * size && forall m: nat | m < n :: m * size < amount
  }

  lemma PagesAreLeast(highest: u64)
    ensures var frames := highest / FRAME; var bytes := (frames + 7) / 8;
      IsLeast(bytes, frames, 8) && IsLeast(BitmapPages(highest), bytes, 4096)
  {
  }

  predicate PassesSizeCheck(s: Survey) {
    s.length >= 2 * BitmapPages(s.highest) * FRAME
  }

  /** The answer of start-up after the survey: the size check, then the bump allocation of both bitmaps. */
  function StartUp(s: Survey): Outcome<()> {
    if !PassesSizeCheck(s) then Panicked(BitmapDoesNotFit)
    else if s.highest == 0 || s.end < s.base then Panicked(OutOfMemory)
    else Returned(())
  }

  /** The frames start-up opens: usable as a whole, and outside the two bitmaps at the bottom of the surveyed range. */
  function OpenedFrames(entries: seq<Entry>, s: Survey): set<nat> {
    set f: nat | f < s.highest / FRAME && Usable(entries, f)
                 && !(s.base / FRAME <= f < s.base / FRAME + 2 * BitmapPages(s.highest))
  }

  /** What opening frames must respect: every usable entry, and every usable frame, lies below the frame count. */
  lemma AllBelow(entries: seq<Entry>, s: Survey, count: nat)
    requires Surveyed(entries, |entries|, s) && forall i | 0 <= i < |entries| :: Sound(entries[i])
    requires count * FRAME == s.highest
    ensures forall i | 0 <= i < |entries| && entries[i].usable :: UsableEnd(entries[i]) <= count * FRAME
    ensures forall f: nat | Usable(entries, f) :: f < count
  {
    forall f: nat | Usable(entries, f) ensures f < count {
      SurveyFrames(entries, s, f);
    }
    hide UsableEnd, UsableLength, Sound, Usable;
  }

  lemma OpenedIsFree(entries: seq<Entry>, s: Survey, p: PmmModel.Pmm)
    requires p.bitmapAt * FRAME == s.base && p.ownersAt == p.bitmapAt + p.pages && p.pages == BitmapPages(s.highest)
    requires p.count * FRAME == s.highest && forall f: nat | Usable(entries, f) :: f < p.count
    requires forall f: nat :: f in p.free <==> Usable(entries, f) && !Metadata(p, f)
    ensures p.free == OpenedFrames(entries, s)
  {
    hide Usable, BitmapPages;
  }

  /** Where the bitmaps lie after a successful start. */
  lemma BitmapsFit(s: Survey)
    requires InRange(s) && StartUp(s).Returned?
    ensures var frames, pages := s.highest / FRAME, BitmapPages(s.highest);
      && s.base % FRAME == 0 && s.highest == frames * FRAME <= TWO_64 - FRAME
      && s.base + 2 * pages * FRAME <= s.end <= s.highest
      && (s.base + pages * FRAME) / FRAME == s.base / FRAME + pages
      && (frames + 7) / 8 <= pages * FRAME
  {
    PagesAreLeast(s.highest);
    hide BitmapPages;
  }

  lemma LeastIsOne(m: nat, n: nat, amount: nat, size: nat)
    requires IsLeast(m, amount, size) && IsLeast(n, amount, size)
    ensures m == n
  {
  }

  /** The size check asks for just the two bitmaps: `bytes` hold a bit for each of `frames`, `pages` those bytes. */
  lemma SizeCheckIsExact(s: Survey, frames: nat, bytes: nat, pages: nat)
    requires InRange(s) && frames * 4096 == s.highest && IsLeast(bytes, frames, 8) && IsLeast(pages, bytes, 4096)
    ensures StartUp(s) == Panicked(BitmapDoesNotFit) <==> s.length < 2 * (pages * 4096)
  {
    PagesAreLeast(s.highest);
    LeastIsOne(bytes, (frames + 7) / 8, frames, 8);
    LeastIsOne(pages, BitmapPages(s.highest), bytes, 4096);
    hide IsLeast, BitmapPages, InRange;
  }

  /** Every usable entry ends inside the first page. */
  predicate NothingAboveFirstPage(entries: seq<Entry>) {
    forall i | 0 <= i < |entries| && entries[i].usable :: entries[i].base + entries[i].length < FRAME
  }

  /** The usable entry takes in the whole address space but its last page. */
  predicate IsWhole(e: Entry) {
    e.usable && e.base == 0 && e.length >= TWO_64 - FRAME
  }

  /** Some entry lies inside one page, and none before it takes in the whole address space. */
  predicate MisledSurvey(entries: seq<Entry>) {
    exists i | 0 <= i < |entries| :: InsidePage(entries[i]) && forall j | 0 <= j < i :: !IsWhole(entries[j])
  }

  /** Which entries end low and which compute the greatest possible length. */
  lemma EntryShape(e: Entry)
    requires Sound(e) && e.usable
    ensures UsableEnd(e) == 0 <==> e.base + e.length < FRAME
    ensures UsableLength(e) <= TWO_64 - FRAME
    ensures UsableLength(e) == TWO_64 - FRAME <==> InsidePage(e) || IsWhole(e)
    ensures UsableEnd(e) < UsableBase(e) <==> InsidePage(e)
  {
    Rounded(e);
    RangeFacts(e);
    PageBounds(e.base + e.length);
    PageBounds(e.base + 0xFFF);
    hide PageOf, Wrap, UsableBase, UsableEnd, UsableLength;
  }

  lemma LowMap(entries: seq<Entry>, s: Survey)
    requires Surveyed(entries, |entries|, s) && forall i | 0 <= i < |entries| :: Sound(entries[i])
    ensures s.highest == 0 <==> NothingAboveFirstPage(entries)
  {
    forall i | 0 <= i < |entries| && entries[i].usable { EntryShape(entries[i]); }
    hide UsableBase, UsableEnd, UsableLength, Sound, InsidePage, IsWhole, IsLongest;
  }

  /** The surveyed range has its ends crossed exactly when the first range of greatest length lies inside a page. */
  lemma CrossedRange(entries: seq<Entry>, s: Survey)
    requires Surveyed(entries, |entries|, s) && forall i | 0 <= i < |entries| :: Sound(entries[i])
    ensures s.end < s.base <==> MisledSurvey(entries)
  {
    hide UsableBase, UsableEnd, UsableLength, Sound, InsidePage, IsWhole;
    if s.length > 0 {
      var k: nat :| k < |entries| && IsLongest(entries, k, s);
      EntryShape(entries[k]);
      forall j | 0 <= j < k ensures !IsWhole(entries[j]) {
        LengthOf(entries[j]);
      }
      assert s.end < s.base ==> InsidePage(entries[k]);
    }
    if MisledSurvey(entries) {
      var i: nat :| i < |entries| && InsidePage(entries[i]) && forall j | 0 <= j < i :: !IsWhole(entries[j]);
      LengthOf(entries[i]);
    }
  }

  lemma LengthOf(e: Entry)
    requires Sound(e)
    ensures IsWhole(e) || InsidePage(e) ==> e.usable && UsableLength(e) == TWO_64 - FRAME
  {
    if e.usable { EntryShape(e); }
    hide UsableLength, Sound;
  }

  /** A survey that finds no memory, or a range of almost 2^64 bytes, gets past the size check. */
  lemma CheckPasses(s: Survey)
    requires InRange(s) && (s.highest == 0 || s.end < s.base)
    ensures PassesSizeCheck(s)
  {
    FewPages(s.highest);
    hide BitmapPages;
  }

  /** The bitmaps take less than one part in 2^14 of the address space. */
  lemma FewPages(highest: u64)
    ensures BitmapPages(highest) <= 0x40_0000_0000 && (highest == 0 ==> BitmapPages(highest) == 0)
  {
    var frames := highest / FRAME;
    assert frames <= 0x10_0000_0000_0000;
    var bytes := (frames + 7) / 8;
    assert bytes <= 0x2_0000_0000_0000;
  }

  /** Exactly when the bump phase panics, which is always after the size check has passed. */
  lemma BumpFailsIff(entries: seq<Entry>, s: Survey)
    requires Surveyed(entries, |entries|, s) && forall i | 0 <= i < |entries| :: Sound(entries[i])
    ensures StartUp(s) == Panicked(OutOfMemory) <==> NothingAboveFirstPage(entries) || MisledSurvey(entries)
    ensures StartUp(s).Returned? <==>
      PassesSizeCheck(s) && !NothingAboveFirstPage(entries) && !MisledSurvey(entries)
  {
    SurveyRange(entries, s);
    LowMap(entries, s);
    CrossedRange(entries, s);
    if s.highest == 0 || s.end < s.base {
      CheckPasses(s);
    }
    hide Surveyed, Sound, NothingAboveFirstPage, MisledSurvey, PassesSizeCheck;
  }

  /** Start-up passes its size check and then runs out of memory on a map without entries, and on one whose only
      range lies inside a page. */
  lemma BumpFailures(s: Survey, t: Survey)
    requires Surveyed([], 0, s) && Surveyed([Entry(0x10, 0x20, true)], 1, t)
    ensures PassesSizeCheck(s) && StartUp(s) == Panicked(OutOfMemory)
    ensures PassesSizeCheck(t) && StartUp(t) == Panicked(OutOfMemory)
  {
    hide Surveyed, InsidePage, StartUp, MisledSurvey, Sound;
    TinyMap();
    BumpFailsIff([], s);
    BumpFailsIff([Entry(0x10, 0x20, true)], t);
    StartUpChecks(s);
    StartUpChecks(t);
  }

  lemma StartUpChecks(s: Survey)
    ensures StartUp(s) == Panicked(OutOfMemory) ==> PassesSizeCheck(s)
  {
    hide PassesSizeCheck;
  }

  lemma TinyMap()
    ensures var entries := [Entry(0x10, 0x20, true)];
      (forall i | 0 <= i < |entries| :: Sound(entries[i])) && MisledSurvey(entries)
  {
    var entries := [Entry(0x10, 0x20, true)];
    assert InsidePage(entries[0]);
    hide InsidePage;
  }

  /** An entry that holds no frame but ends higher fails the size check instead. */
  lemma BareEntry(s: Survey)
    requires Surveyed([Entry(0x5000, 0, true)], 1, s)
    ensures StartUp(s) == Panicked(BitmapDoesNotFit)
  {
    var entries := [Entry(0x5000, 0, true)];
    AlignedIsWellFormed(entries[0]);
    RangeFacts(entries[0]);
    hide UsableEnd, UsableLength, UsableBase;
    assert s.highest == 0x5000 && s.length == 0;
    assert BitmapPages(0x5000) == 1;
  }

  /** An entry that is not sound: its range inside one of the last two pages passes the size check, and the bump
      pointer wraps past its end, so that the first bitmap is placed above all memory. */
  lemma BumpCanWrap(s: Survey)
    requires Surveyed([Entry(TWO_64 - 0x1FF0, 0x10, true)], 1, s)
    ensures !Sound(Entry(TWO_64 - 0x1FF0, 0x10, true)) && PassesSizeCheck(s)
    ensures Wrap(s.base + FRAME) <= s.end < s.base && s.highest <= s.base
  {
    LastRange();
    FewPages(s.highest);
    hide UsableBase, UsableEnd, UsableLength, BitmapPages, Sound;
    var entries := [Entry(TWO_64 - 0x1FF0, 0x10, true)];
    assert s.length > 0 && IsLongest(entries, 0, s) && s.highest == TWO_64 - 0x2000;
  }

  lemma LastRange()
    ensures var e := Entry(TWO_64 - 0x1FF0, 0x10, true);
      && UsableBase(e) == TWO_64 - 0x1000 && UsableEnd(e) == TWO_64 - 0x2000 && UsableLength(e) == TWO_64 - FRAME
      && !Sound(e)
  {
  }

  /** Rounding an already rounded end up again changes nothing and does not overflow. */
  lemma WholeFrameCount(highest: u64)
    requires highest % FRAME == 0 && highest <= TWO_64 - FRAME
    ensures Wrap(highest + 0xFFF) / FRAME * FRAME == highest
  {
  }

  class Pmm {
    var base: u64
    var end: u64
    var next: u64
    var byteCount: nat
    var frameCount: nat
    var pageCount: nat
    var bitmap: array<bv8>
    var bitmapAddress: u64
    var ready: bool
    var owners: array<bv8>
    var ownersAddress: u64

    /** The two bitmaps are distinct and have a bit for every frame. */
    ghost predicate Shaped()
      reads this
    {
      && bitmap != owners
      && bitmap.Length == byteCount == owners.Length
      && frameCount <= 8 * byteCount
    }

    ghost function FreeSet(): set<nat>
      requires Shaped()
      reads this, bitmap
    {
      set f: nat | f < frameCount && !Bits.Test(bitmap[..], f)
    }

    ghost function OwnedSet(): set<nat>
      requires Shaped()
      reads this, owners
    {
      set f: nat | f < frameCount && Bits.Test(owners[..], f)
    }

    ghost function Model(): PmmModel.Pmm
      requires Shaped()
      reads this, bitmap, owners
    {
      PmmModel.Pmm(frameCount, pageCount, bitmapAddress / FRAME, ownersAddress / FRAME, FreeSet(), OwnedSet())
    }

    ghost predicate Valid()
      reads this, bitmap, owners
    {
      && Shaped()
      && ready
      && bitmapAddress % FRAME == 0 && ownersAddress % FRAME == 0
      && Inv(Model())
    }

    constructor ()
      ensures !ready && base == end == next == 0 && fresh(bitmap) && fresh(owners)
    {
      base, end, next, byteCount, frameCount, pageCount := 0, 0, 0, 0, 0, 0;
      bitmapAddress, ownersAddress, ready := 0, 0, false;
      bitmap, owners := new bv8[0], new bv8[0];
    }

    /** Before the bitmaps exist: hand out the next frame of the chosen range. */
    method BumpFrame() returns (r: Outcome<u64>)
      requires !ready
      modifies `next
      ensures if Wrap(old(next) + FRAME) <= end
              then r == Returned(old(next)) && next == Wrap(old(next) + FRAME)
              else r == Panicked(OutOfMemory) && next == old(next)
    {
      if Wrap(next + FRAME) <= end {
        r := Returned(next);
        next := Wrap(next + FRAME);
      } else {
        r := Panicked(OutOfMemory);
      }
    }

    /** Scan for the first clear bit, mark the frame owned and used, and give its address. */
    method AllocateFrame() returns (r: Outcome<u64>)
      requires ready ==> Valid()
      modifies `next, bitmap, owners
      ensures old(ready) ==> Valid() && next == old(next) && (Model(), r) == Allocate(old(Model()))
      ensures !old(ready) ==> bitmap[..] == old(bitmap[..]) && owners[..] == old(owners[..])
      ensures !old(ready) ==>
        if Wrap(old(next) + FRAME) <= end
        then r == Returned(old(next)) && next == Wrap(old(next) + FRAME)
        else r == Panicked(OutOfMemory) && next == old(next)
    {
      if !ready {
        r := BumpFrame();
        return;
      }
      hide Bits.Test;
      ghost var p := Model();
      var frameIndex := 0;
      while frameIndex < frameCount
        invariant 0 <= frameIndex <= frameCount
        invariant next == old(next) && bitmap[..] == old(bitmap[..]) && owners[..] == old(owners[..])
        invariant forall f: nat | f < frameIndex :: f !in p.free
      {
        var address: u64 := frameIndex * FRAME;
        var free := Bits.IsFree(bitmap, address);
        if free {
          assert frameIndex in p.free;
          assert Lowest(p.free, p.count) == frameIndex;
          Bits.MarkUsed(owners, address);
          assert bitmap[..] == old(bitmap[..]);
          Bits.MarkUsed(bitmap, address);
          assert FreeSet() == p.free - {frameIndex};
          assert OwnedSet() == p.owned + {frameIndex};
          AllocateIsLowest(p);
          return Returned(address);
        }
        frameIndex := frameIndex + 1;
      }
      assert Lowest(p.free, p.count) == p.count;
      assert FreeSet() == p.free && OwnedSet() == p.owned;
      r := Panicked(OutOfMemory);
    }

    method FreeFrame(address: u64) returns (r: Outcome<()>)
      requires ready ==> Valid()
      modifies bitmap, owners
      ensures !ready ==> r == Panicked(BitmapNotReady)
      ensures ready ==> Valid() && (Model(), r) == Free(old(Model()), address)
      ensures r.Panicked? ==> bitmap[..] == old(bitmap[..]) && owners[..] == old(owners[..])
    {
      if !ready {
        return Panicked(BitmapNotReady);
      }
      hide Bits.Test;
      ghost var p := Model();
      FreeIffOwned(p, address);
      if address % FRAME != 0 {
        return Panicked(AddressNotAligned);
      }
      if address / FRAME >= frameCount {
        return Panicked(OutOfFrameCount);
      }
      if bitmapAddress <= address < Wrap(bitmapAddress + pageCount * FRAME) {
        return Panicked(BetweenBitmapAddress);
      }
      var unowned := Bits.IsFree(owners, address);
      if unowned {
        return Panicked(FrameNotAllocated);
      }
      Bits.MarkFree(owners, address);
      Bits.MarkFree(bitmap, address);
      assert FreeSet() == p.free + {address / FRAME};
      assert OwnedSet() == p.owned - {address / FRAME};
      r := Returned(());
    }

    /** The debug counter is the cardinality of the free set. */
    method FreeFrameCount() returns (count: nat)
      requires Valid()
      ensures count == |Model().free|
    {
      count := 0;
      ghost var seen: set<nat> := {};
      for i := 0 to frameCount
        invariant seen == set f: nat | f < i && !Bits.Test(bitmap[..], f)
        invariant count == |seen|
      {
        var free := Bits.IsFree(bitmap, i * FRAME);
        if free {
          count := count + 1;
          seen := seen + {i};
        }
      }
      assert seen == FreeSet();
    }

    /** Clear the bit of every whole frame of one usable entry. */
    method MarkEntryFree(e: Entry)
      requires e.usable && Sound(e) && UsableEnd(e) <= frameCount * FRAME && Shaped()
      modifies bitmap
      ensures forall f: nat | f / 8 < bitmap.Length ::
        Bits.Test(bitmap[..], f) <==> old(Bits.Test(bitmap[..], f)) && !Offers(e, f)
    {
      var address, usableEnd := UsableBase(e), UsableEnd(e);
      ghost var was := bitmap[..];
      ghost var first, at, last := address / FRAME, address / FRAME, usableEnd / FRAME;
      RangeFacts(e);
      EntryFrames(e);
      hide Bits.Test, UsableBase, UsableEnd, Offers, WellFormed, InsidePage;
      while address < usableEnd
        invariant address == at * FRAME && first <= at && (at == first || at <= last)
        invariant forall f: nat | f / 8 < bitmap.Length ::
          Bits.Test(bitmap[..], f) <==> Bits.Test(was, f) && !(first <= f < at)
        decreases usableEnd - address
      {
        Bits.MarkFree(bitmap, address);
        address, at := address + FRAME, at + 1;
      }
    }

    /** Set the bits of the `pageCount` frames from `address` on: bitmap memory is not for callers. */
    method Reserve(address: u64)
      requires Shaped() && address % FRAME == 0 && address / FRAME + pageCount <= frameCount
      requires frameCount * FRAME < TWO_64
      modifies bitmap
      ensures forall f: nat | f / 8 < bitmap.Length ::
        Bits.Test(bitmap[..], f) <==>
          old(Bits.Test(bitmap[..], f)) || address / FRAME <= f < address / FRAME + pageCount
    {
      for i := 0 to pageCount
        invariant forall f: nat | f / 8 < bitmap.Length ::
          Bits.Test(bitmap[..], f) <==> old(Bits.Test(bitmap[..], f)) || address / FRAME <= f < address / FRAME + i
      {
        Bits.MarkUsed(bitmap, address + i * FRAME);
      }
    }

    /** Take the frames of one bitmap from the bump pointer; the first is its address. */
    method TakePages() returns (r: Outcome<u64>)
      requires !ready && end <= TWO_64 - FRAME && next + FRAME < TWO_64
      requires next + FRAME <= end ==> pageCount > 0 && next + pageCount * FRAME <= end
      modifies `next, bitmap, owners
      ensures if old(next) + FRAME > end then r == Panicked(OutOfMemory)
              else r == Returned(old(next)) && next == old(next) + pageCount * FRAME
    {
      r := AllocateFrame();
      if r.Panicked? { return; }
      for i := 0 to pageCount - 1
        invariant !ready && next == old(next) + (i + 1) * FRAME
      {
        var page := AllocateFrame();
        if page.Panicked? { return page; }
      }
    }

    /** Size both bitmaps and place them at the bottom of the longest usable range. */
    method PlaceBitmaps(s: Survey) returns (r: Outcome<()>)
      requires !ready && InRange(s)
      modifies this, bitmap, owners
      ensures frameCount * FRAME == s.highest && byteCount == (frameCount + 7) / 8
      ensures pageCount == BitmapPages(s.highest)
      ensures r == StartUp(s)
      ensures r.Returned? ==>
        && !ready && bitmapAddress == s.base && ownersAddress == s.base + pageCount * FRAME
        && Shaped() && fresh(bitmap) && fresh(owners)
        && forall f: nat | f / 8 < byteCount :: Bits.Test(bitmap[..], f) && !Bits.Test(owners[..], f)
    {
      WholeFrameCount(s.highest);
      hide Wrap;
      frameCount := Wrap(s.highest + 0xFFF) / FRAME;
      byteCount := (frameCount + 7) / 8;
      pageCount := (byteCount + 0xFFF) / FRAME;
      if s.length < pageCount * FRAME * 2 {
        return Panicked(BitmapDoesNotFit);
      }
      base, end := s.base, s.end;
      next := base;
      r := TakeBitmapFrames();
      if r.Panicked? { return; }
      MakeBitmaps();
      r := Returned(());
    }

    /** Take the frames of both bitmaps, one after the other. */
    method TakeBitmapFrames() returns (r: Outcome<()>)
      requires !ready && end <= TWO_64 - FRAME && next + FRAME < TWO_64
      requires next + FRAME <= end ==> pageCount > 0 && next + 2 * pageCount * FRAME <= end
      modifies `next, `bitmapAddress, `ownersAddress, bitmap, owners
      ensures if old(next) + FRAME > end then r == Panicked(OutOfMemory)
              else r == Returned(()) && bitmapAddress == old(next) && ownersAddress == old(next) + pageCount * FRAME
    {
      var taken := TakePages();
      if taken.Panicked? { return Panicked(taken.reason); }
      bitmapAddress := taken.value;
      taken := TakePages();
      ownersAddress := taken.value;
      r := Returned(());
    }

    /** Start with every frame blocked and owned by nobody. */
    method MakeBitmaps()
      modifies `bitmap, `owners
      ensures bitmap.Length == owners.Length == byteCount && bitmap != owners && fresh(bitmap) && fresh(owners)
      ensures forall f: nat | f / 8 < byteCount :: Bits.Test(bitmap[..], f) && !Bits.Test(owners[..], f)
    {
      bitmap := new bv8[byteCount];
      owners := new bv8[byteCount];
      Fill(bitmap, 0xFF);
      Fill(owners, 0x00);
      hide Bits.Test;
      forall f: nat | f / 8 < byteCount ensures Bits.Test(bitmap[..], f) && !Bits.Test(owners[..], f) {
        FilledBits(bitmap[..], f);
        FilledBits(owners[..], f);
      }
    }

    method OpenUsable(entries: seq<Entry>)
      requires Shaped()
      requires forall i | 0 <= i < |entries| && entries[i].usable ::
        Sound(entries[i]) && UsableEnd(entries[i]) <= frameCount * FRAME
      modifies bitmap
      ensures forall f: nat | f / 8 < bitmap.Length ::
        Bits.Test(bitmap[..], f) <==> old(Bits.Test(bitmap[..], f)) && !Usable(entries, f)
    {
      ghost var was := bitmap[..];
      for i := 0 to |entries|
        invariant forall f: nat | f / 8 < bitmap.Length ::
          Bits.Test(bitmap[..], f) <==> Bits.Test(was, f) && !exists j | 0 <= j < i :: Offers(entries[j], f)
      {
        if entries[i].usable {
          MarkEntryFree(entries[i]);
        }
      }
    }

    /** Open the usable frames except those of the two bitmaps, and leave start-up. */
    method OpenFrames(entries: seq<Entry>)
      requires Shaped() && frameCount * FRAME <= TWO_64 - FRAME
      requires forall i | 0 <= i < |entries| && entries[i].usable ::
        Sound(entries[i]) && UsableEnd(entries[i]) <= frameCount * FRAME
      requires forall f: nat | Usable(entries, f) :: f < frameCount
      requires forall f: nat | f / 8 < byteCount :: Bits.Test(bitmap[..], f) && !Bits.Test(owners[..], f)
      requires bitmapAddress % FRAME == 0 && ownersAddress == bitmapAddress + pageCount * FRAME
      requires byteCount <= pageCount * FRAME
      requires ownersAddress / FRAME + pageCount <= frameCount
      modifies `ready, bitmap
      ensures Valid() && Model().owned == {}
      ensures forall f: nat :: f in Model().free <==> Usable(entries, f) && !Metadata(Model(), f)
    {
      ghost var was := owners[..];
      OpenUsable(entries);
      Reserve(bitmapAddress);
      Reserve(ownersAddress);
      ready := true;
      assert owners[..] == was;
      assert OwnedSet() == {};
      forall f: nat ensures f in FreeSet() <==> Usable(entries, f) && !Metadata(Model(), f) {
      }
    }

    /** Find usable memory, place both bitmaps at the bottom of its longest range, and open
        every other whole usable frame for allocation. */
    method Init(entries: seq<Entry>) returns (r: Outcome<()>, ghost s: Survey)
      requires !ready
      requires forall i | 0 <= i < |entries| :: Sound(entries[i])
      modifies this, bitmap, owners
      ensures Surveyed(entries, |entries|, s)
      ensures frameCount * FRAME == s.highest && byteCount == (frameCount + 7) / 8
      ensures pageCount == BitmapPages(s.highest)
      ensures IsLeast(pageCount, byteCount, 4096) && IsLeast(byteCount, frameCount, 8)
      ensures r == StartUp(s)
      ensures r == Panicked(OutOfMemory) <==> NothingAboveFirstPage(entries) || MisledSurvey(entries)
      ensures r.Returned? ==> fresh(bitmap) && fresh(owners) && Valid()
      ensures r.Returned? ==> bitmapAddress == s.base && bitmapAddress + byteCount <= ownersAddress
      ensures r.Returned? ==>
        forall a: nat |
          bitmapAddress <= a < bitmapAddress + byteCount || ownersAddress <= a < ownersAddress + byteCount ::
            a / 4096 !in Model().free + Model().owned
      ensures r.Returned? ==>
        var p := Model();
        && p.bitmapAt * FRAME == s.base && p.ownersAt == p.bitmapAt + p.pages
        && (p.ownersAt + p.pages) * FRAME <= s.end
        && p.owned == {}
        && p.free == OpenedFrames(entries, s)
        && (forall f: nat :: f in p.free <==> Usable(entries, f) && !Metadata(p, f))
    {
      hide Surveyed, StartUp, NothingAboveFirstPage, MisledSurvey, OpenedFrames, Usable, BitmapPages, UsableEnd, Sound,
           InRange, PassesSizeCheck, IsLeast, Inv, Metadata;
      var survey := TakeSurvey(entries);
      s := survey;
      SurveyRange(entries, s);
      BumpFailsIff(entries, s);
      PagesAreLeast(s.highest);
      r := PlaceBitmaps(survey);
      if r.Panicked? { return; }
      BitmapsFit(s);
      AllBelow(entries, s, frameCount);
      OpenFrames(entries);
      OpenedIsFree(entries, s, Model());
      BytesAreKept();
    }

    /** The bytes of both bitmaps lie in frames nobody can be given. */
    lemma BytesAreKept()
      requires Valid() && byteCount <= pageCount * FRAME
      ensures forall a: nat |
        bitmapAddress <= a < bitmapAddress + byteCount || ownersAddress <= a < ownersAddress + byteCount ::
          a / FRAME !in Model().free + Model().owned
    {
      forall a: nat | bitmapAddress <= a < bitmapAddress + byteCount || ownersAddress <= a < ownersAddress + byteCount
        ensures Metadata(Model(), a / FRAME)
      {
        if bitmapAddress <= a < bitmapAddress + byteCount {
          ByteFrame(bitmapAddress / FRAME, pageCount, a - bitmapAddress);
        } else {
          ByteFrame(ownersAddress / FRAME, pageCount, a - ownersAddress);
        }
      }
    }
  }
}
