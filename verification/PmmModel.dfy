/** The physical frame allocator on values: a partition of frames into free, owned and reserved. */
module PmmModel {
  import opened Machine

  // --- the boot memory map ----------------------------------------------------

  datatype Entry = Entry(base: u64, length: u64, usable: bool)

  function UsableBase(e: Entry): u64 {
    PageOf(Wrap(e.base + 0xFFF))
  }

  function UsableEnd(e: Entry): u64 {
    PageOf(Wrap(e.base + e.length))
  }

  function UsableLength(e: Entry): u64 {
    Wrap(UsableEnd(e) - UsableBase(e))
  }

  /** No address of the entry overflows, and its first and last page boundaries are in order. */
  predicate WellFormed(e: Entry) {
    e.usable ==> e.base + e.length < TWO_64 && PageOf(e.base + 0xFFF) <= PageOf(e.base + e.length)
  }

  /** The entry lies inside one page, whose rounded-up base comes after its rounded-down end. */
  predicate InsidePage(e: Entry) {
    && e.usable && e.base + 0xFFF < TWO_64 - FRAME && e.base + e.length < TWO_64
    && PageOf(e.base + 0xFFF) > PageOf(e.base + e.length)
  }

  /** The entries start-up can be given: only those that overflow, or touch the last pages, are left out. */
  predicate Sound(e: Entry) {
    WellFormed(e) || InsidePage(e)
  }

  /** The whole 4 KiB frame `f` is usable memory of entry `e`. */
  predicate Offers(e: Entry, f: int) {
    e.usable && e.base <= f * FRAME && (f + 1) * FRAME <= e.base + e.length
  }

  predicate Usable(entries: seq<Entry>, f: int) {
    exists i | 0 <= i < |entries| :: Offers(entries[i], f)
  }

  /** No rounding of a sound entry wraps. */
  lemma Rounded(e: Entry)
    requires Sound(e) && e.usable
    ensures UsableBase(e) == PageOf(e.base + 0xFFF) && UsableEnd(e) == PageOf(e.base + e.length)
  {
    PageBounds(e.base + 0xFFF);
    PageBounds(e.base + e.length);
    TopPage(e.base + 0xFFF);
    hide PageOf, Wrap;
  }

  lemma TopPage(x: nat)
    ensures x >= TWO_64 ==> PageOf(x) >= TWO_64
  {
  }

  /** Rounding an entry inwards keeps exactly its whole frames, of which a range inside one page has none. */
  lemma WholeFrames(e: Entry, f: nat)
    requires Sound(e) && e.usable
    ensures Offers(e, f) <==> UsableBase(e) <= f * FRAME < UsableEnd(e)
    ensures if WellFormed(e) then UsableBase(e) <= UsableEnd(e) && UsableLength(e) == UsableEnd(e) - UsableBase(e)
            else UsableBase(e) == UsableEnd(e) + FRAME <= TWO_64 - 2 * FRAME && UsableLength(e) == TWO_64 - FRAME
  {
    Rounded(e);
    RoundedLength(e);
    PageInside(e.base, e.base + e.length, f);
    hide PageOf, Wrap, UsableBase, UsableEnd, UsableLength, WellFormed, Sound;
  }

  lemma RoundedLength(e: Entry)
    requires Sound(e) && e.usable
    ensures if WellFormed(e) then UsableBase(e) <= UsableEnd(e) && UsableLength(e) == UsableEnd(e) - UsableBase(e)
            else UsableBase(e) == UsableEnd(e) + FRAME <= TWO_64 - 2 * FRAME && UsableLength(e) == TWO_64 - FRAME
  {
    Rounded(e);
    WrapNear(UsableEnd(e) - UsableBase(e));
    PageBounds(e.base + 0xFFF);
    PageStep(e.base, e.base + e.length);
    hide PageOf, Wrap, UsableBase, UsableEnd;
  }

  /** Frame `f` lies whole between `a` and `b` exactly when it lies between the rounded addresses. */
  lemma PageInside(a: nat, b: nat, f: nat)
    ensures a <= f * FRAME <==> PageOf(a + 0xFFF) <= f * FRAME
    ensures (f + 1) * FRAME <= b <==> f * FRAME < PageOf(b)
  {
  }

  /** Rounding up and rounding down differ by one page at most. */
  lemma PageStep(a: nat, b: nat)
    requires a <= b
    ensures PageOf(a + 0xFFF) <= PageOf(b) || PageOf(a + 0xFFF) == PageOf(b) + FRAME
    ensures a + 0xFFF < TWO_64 - FRAME ==> PageOf(a + 0xFFF) <= TWO_64 - 2 * FRAME
  {
  }

  /** The length computed for an entry that does not overflow is honest exactly when the entry is well formed:
      a range inside one page wraps to almost 2^64. */
  lemma LengthWrapsIff(e: Entry)
    requires e.usable && e.base + e.length < TWO_64
    ensures UsableLength(e) <= e.length <==> WellFormed(e)
    ensures var tiny := Entry(0x10, 0x20, true); !WellFormed(tiny) && UsableLength(tiny) == TWO_64 - FRAME
  {
    if e.base + 0xFFF < TWO_64 {
      NoOverflow(e);
    } else {
      BaseOverflows(e);
    }
    TinyRange();
    hide UsableLength, WellFormed;
  }

  lemma TinyRange()
    ensures var tiny := Entry(0x10, 0x20, true); !WellFormed(tiny) && UsableLength(tiny) == TWO_64 - FRAME
  {
  }

  lemma BaseOverflows(e: Entry)
    requires e.usable && e.base + e.length < TWO_64 <= e.base + 0xFFF
    ensures UsableLength(e) > e.length && !WellFormed(e)
  {
    assert UsableBase(e) == 0 && UsableEnd(e) == TWO_64 - FRAME;
  }

  lemma NoOverflow(e: Entry)
    requires e.usable && e.base + e.length < TWO_64 && e.base + 0xFFF < TWO_64
    ensures UsableLength(e) <= e.length <==> WellFormed(e)
  {
    var b, n := PageOf(e.base + 0xFFF), PageOf(e.base + e.length);
    PageBounds(e.base + 0xFFF);
    PageBounds(e.base + e.length);
    WrapNear(n - b);
    hide PageOf, Wrap;
  }

  lemma PageBounds(a: nat)
    ensures PageOf(a) <= a < PageOf(a) + FRAME && (a < TWO_64 ==> Wrap(a) == a)
  {
  }

  lemma WrapNear(x: int)
    requires -TWO_64 <= x < TWO_64
    ensures Wrap(x) == if x >= 0 then x else x + TWO_64
  {
  }

  /** Page-aligned entries, as the Limine boot protocol promises for usable memory, are well formed. */
  lemma AlignedIsWellFormed(e: Entry)
    requires e.base % FRAME == 0 && e.length % FRAME == 0 && e.base + e.length < TWO_64
    ensures WellFormed(e) && (e.usable ==> UsableBase(e) == e.base && UsableEnd(e) == e.base + e.length)
  {
    AlignedPage(e.base);
    AlignedPage(e.base + e.length);
    if e.usable {
      Rounded(e);
    }
    hide PageOf, Wrap, UsableBase, UsableEnd;
  }

  lemma AlignedPage(a: nat)
    requires a % FRAME == 0
    ensures PageOf(a) == a == PageOf(a + 0xFFF)
  {
  }

  // --- the allocator after start-up ---------------------------------------------

  /** `bitmapAt` and `ownersAt` are the first frames of the two bitmaps, `pages` the length of each. */
  datatype Pmm = Pmm(count: nat, pages: nat, bitmapAt: nat, ownersAt: nat, free: set<nat>, owned: set<nat>)

  predicate Metadata(p: Pmm, f: nat) {
    p.bitmapAt <= f < p.bitmapAt + p.pages || p.ownersAt <= f < p.ownersAt + p.pages
  }

  predicate Inv(p: Pmm) {
    && p.count * FRAME < TWO_64
    && p.bitmapAt + p.pages <= p.ownersAt && p.ownersAt + p.pages <= p.count
    && p.count <= 8 * (p.pages * FRAME)
    && (forall f | f in p.free + p.owned :: f < p.count && !Metadata(p, f))
    && p.free !! p.owned
  }

  /** The byte at physical address `a` holds the bit of some frame, in one of the two packed bitmaps. */
  ghost predicate HoldsBits(p: Pmm, a: int) {
    exists f: nat | f < p.count :: a == p.bitmapAt * FRAME + f / 8 || a == p.ownersAt * FRAME + f / 8
  }

  /** Every byte of the bitmaps is kept for them: it lies in no frame that is free or handed out, and the bitmaps share
      no byte. */
  lemma StorageIsKept(p: Pmm, a: int)
    requires Inv(p) && HoldsBits(p, a)
    ensures a >= 0 && Metadata(p, a / FRAME) && a / FRAME !in p.free + p.owned
    ensures forall f: nat, g: nat | f < p.count && g < p.count ::
      p.bitmapAt * FRAME + f / 8 < p.ownersAt * FRAME + g / 8
  {
    forall f: nat | f < p.count ensures f / 8 < p.pages * FRAME {
    }
    var f: nat :| f < p.count && (a == p.bitmapAt * FRAME + f / 8 || a == p.ownersAt * FRAME + f / 8);
    ByteFrame(p.bitmapAt, p.pages, f / 8);
    ByteFrame(p.ownersAt, p.pages, f / 8);
  }

  lemma ByteFrame(at: nat, pages: nat, i: nat)
    requires i < pages * FRAME
    ensures at <= (at * FRAME + i) / FRAME < at + pages
  {
  }

  /** Least element of `s` from `i` on; `n` when there is none below `n`. */
  function Lowest(s: set<nat>, n: nat, i: nat := 0): (r: nat)
    requires i <= n
    ensures i <= r <= n
    ensures r < n ==> r in s
    ensures forall f | i <= f < r :: f !in s
    decreases n - i
  {
    if i == n || i in s then i else Lowest(s, n, i + 1)
  }

  function Allocate(p: Pmm): (Pmm, Outcome<u64>)
    requires Inv(p)
  {
    var f := Lowest(p.free, p.count);
    if f == p.count then (p, Panicked(OutOfMemory))
    else (p.(free := p.free - {f}, owned := p.owned + {f}), Returned(f * FRAME))
  }

  function Free(p: Pmm, address: u64): (Pmm, Outcome<()>) {
    var f := address / FRAME;
    if address % FRAME != 0 then (p, Panicked(AddressNotAligned))
    else if f >= p.count then (p, Panicked(OutOfFrameCount))
    else if p.bitmapAt * FRAME <= address < (p.bitmapAt + p.pages) * FRAME then (p, Panicked(BetweenBitmapAddress))
    else if f !in p.owned then (p, Panicked(FrameNotAllocated))
    else (p.(free := p.free + {f}, owned := p.owned - {f}), Returned(()))
  }

  // --- what the two operations keep and undo --------------------------------------

  /** Allocation hands out the lowest free frame and fails exactly when none is free. */
  lemma AllocateIsLowest(p: Pmm)
    requires Inv(p)
    ensures Inv(Allocate(p).0)
    ensures Allocate(p).1.Panicked? <==> p.free == {}
    ensures Allocate(p).1.Panicked? ==> Allocate(p) == (p, Panicked(OutOfMemory))
    ensures Allocate(p).1.Returned? ==>
      var f := Allocate(p).1.value / FRAME;
      && Allocate(p).1.value == f * FRAME
      && f in p.free && (forall g | g in p.free :: f <= g)
      && Allocate(p).0 == p.(free := p.free - {f}, owned := p.owned + {f})
  {
    var f := Lowest(p.free, p.count);
    if f == p.count {
      assert forall g | g in p.free + p.owned :: g < p.count;
      assert p.free == {};
    } else {
      assert f in p.free + p.owned;
    }
  }

  /** Of all addresses, exactly the page-aligned addresses of owned frames can be freed. */
  lemma FreeIffOwned(p: Pmm, address: u64)
    requires Inv(p)
    ensures Inv(Free(p, address).0)
    ensures Free(p, address).1.Returned? <==> address % FRAME == 0 && address / FRAME in p.owned
    ensures Free(p, address).1.Panicked? ==> Free(p, address).0 == p
  {
    var f := address / FRAME;
    if f in p.owned {
      assert f in p.free + p.owned;
    }
  }

  /** What a refused address is told. A frame of the first bitmap is named as such; the ownership bitmap has no check of
      its own, and its frames are refused because nobody owns them. */
  lemma FreeRefuses(p: Pmm, address: u64)
    requires Inv(p) && Free(p, address).1.Panicked?
    ensures var f, why := address / 4096, Free(p, address).1.reason;
      && (why == AddressNotAligned <==> address % 4096 != 0)
      && (why == OutOfFrameCount <==> address % 4096 == 0 && f >= p.count)
      && (why == BetweenBitmapAddress <==> address % 4096 == 0 && p.bitmapAt <= f < p.bitmapAt + p.pages)
      && (address % 4096 == 0 && p.ownersAt <= f < p.ownersAt + p.pages ==> why == FrameNotAllocated)
      && (why == FrameNotAllocated ==> f !in p.owned)
      && why in {AddressNotAligned, OutOfFrameCount, BetweenBitmapAddress, FrameNotAllocated}
  {
    var f := address / FRAME;
    if address % FRAME == 0 {
      assert address == f * FRAME;
    }
  }

  lemma AllocateThenFree(p: Pmm)
    requires Inv(p) && p.free != {}
    ensures var (q, r) := Allocate(p);
      r.Returned? && Free(q, r.value) == (p, Returned(())) && Allocate(Free(q, r.value).0) == (q, r)
  {
    AllocateIsLowest(p);
    var (q, r) := Allocate(p);
    FreeIffOwned(q, r.value);
    assert Free(q, r.value).0.free == p.free;
    assert Free(q, r.value).0.owned == p.owned;
  }

  // --- whole runs ---------------------------------------------------------------

  datatype Call = AllocateCall | FreeCall(address: u64)

  function Step(p: Pmm, c: Call): (Pmm, Outcome<u64>)
    requires Inv(p)
  {
    match c
    case AllocateCall => Allocate(p)
    case FreeCall(a) =>
      var (q, r) := Free(p, a);
      (q, if r.Returned? then Returned(a) else Panicked(r.reason))
  }

  /** The frames a client holds after a call, from the answers it saw. */
  function Held(held: set<nat>, c: Call, r: Outcome<u64>): set<nat> {
    if r.Panicked? then held
    else if c.AllocateCall? then held + {r.value / FRAME}
    else held - {r.value / FRAME}
  }

  /** Run calls until one panics; keep the state, what the callers hold, and whether the kernel still runs. */
  ghost function Run(p: Pmm, held: set<nat>, calls: seq<Call>): (Pmm, set<nat>, bool)
    requires Inv(p)
    decreases |calls|
  {
    if |calls| == 0 then (p, held, true)
    else
      var (q, r) := Step(p, calls[0]);
      StepKeeps(p, calls[0]);
      if r.Panicked? then (q, held, false) else Run(q, Held(held, calls[0], r), calls[1..])
  }

  lemma StepKeeps(p: Pmm, c: Call)
    requires Inv(p)
    ensures Inv(Step(p, c).0)
    ensures Step(p, c).0.free + Step(p, c).0.owned == p.free + p.owned
    ensures Held(p.owned, c, Step(p, c).1) == Step(p, c).0.owned
    ensures Step(p, c).0 == p.(free := Step(p, c).0.free, owned := Step(p, c).0.owned)
  {
    match c
    case AllocateCall => AllocateIsLowest(p);
    case FreeCall(a) => FreeIffOwned(p, a);
  }

  /** Over every run the partition stands: owned means handed out and not yet returned, and
      the frames outside free and owned, metadata among them, never enter either. */
  lemma {:induction false} RunKeepsPartition(p: Pmm, calls: seq<Call>)
    requires Inv(p)
    ensures var (q, held, _) := Run(p, p.owned, calls);
      && Inv(q) && q.owned == held
      && q.free + q.owned == p.free + p.owned
      && |q.free| + |q.owned| == |p.free| + |p.owned|
      && q == p.(free := q.free, owned := q.owned)
    decreases |calls|
  {
    if |calls| > 0 {
      var (q, r) := Step(p, calls[0]);
      StepKeeps(p, calls[0]);
      if r.Returned? {
        RunKeepsPartition(q, calls[1..]);
      }
    }
    var (q, _, _) := Run(p, p.owned, calls);
    assert |q.free + q.owned| == |q.free| + |q.owned|;
    assert |p.free + p.owned| == |p.free| + |p.owned|;
  }
}
