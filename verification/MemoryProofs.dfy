/** What holds of the heap and the frame allocator together over whole runs. */
module MemoryProofs {
  import opened Machine
  import H = HeapModel
  import P = PmmModel
  import HP = HeapProofs
  import opened MemoryModel

  lemma GetFrameKeeps(s: System)
    requires Inv(s)
    ensures Inv(Step(s, GetFrame).0)
  {
    hide H.Inv, P.Inv, P.Allocate, FrameNo;
    P.AllocateIsLowest(s.pmm);
    FreeIsNobodys(s);
  }

  /** A free frame is in no one's hands. */
  lemma FreeIsNobodys(s: System)
    requires Inv(s)
    ensures forall f | f in s.pmm.free :: f !in s.clients && f !in FrameNos(s.heap.frames, s.hhdm)
  {
    hide H.Inv, FrameNo;
    assert forall f | f in s.pmm.free :: f !in s.pmm.owned;
  }

  lemma PutFrameKeeps(s: System, a: u64)
    requires Inv(s) && Allowed(s, PutFrame(a))
    ensures Inv(Step(s, PutFrame(a)).0)
  {
    hide H.Inv, P.Inv, FrameNo;
    P.FreeIffOwned(s.pmm, a);
    assert forall b | b in s.heap.frames :: FrameNo(b, s.hhdm) in FrameNos(s.heap.frames, s.hhdm);
  }

  /** The frame allocator's answer, shifted into the direct map, is a new page of the heap. */
  lemma FreshBase(s: System)
    requires Inv(s) && P.Allocate(s.pmm).1.Returned?
    ensures var f := P.Allocate(s.pmm).1.value; var base := f + s.hhdm;
      && base > 0 && base % FRAME == 0 && base !in s.heap.frames
      && FrameNo(base, s.hhdm) == f / FRAME
      && FrameNos(s.heap.frames + {base}, s.hhdm) == FrameNos(s.heap.frames, s.hhdm) + {f / FRAME}
      && OwnedFrames(s.heap.frames + {base}, s.hhdm, s.pmm.owned + {f / FRAME})
  {
    hide H.Inv, P.Inv, P.Allocate;
    P.AllocateIsLowest(s.pmm);
    FreeIsNobodys(s);
    var f := P.Allocate(s.pmm).1.value;
    assert FrameNo(f + s.hhdm, s.hhdm) == f / FRAME;
    hide FrameNo;
    assert f + s.hhdm in s.heap.frames ==> FrameNo(f + s.hhdm, s.hhdm) in FrameNos(s.heap.frames, s.hhdm);
  }

  lemma ObtainKeeps(s: System, n: int)
    requires Inv(s) && n <= H.MAX_REQUEST
    ensures var (h, q, r) := Obtain(s.heap, s.pmm, s.hhdm, n);
      && Inv(s.(heap := h, pmm := q))
      && (r.Returned? ==> var k := ObtainedAt(s.heap, s.pmm, s.hhdm, n); k < |h.free| && n <= h.free[k].size)
      && h.live == s.heap.live && (r.Panicked? ==> h == s.heap)
  {
    hide H.Inv, P.Inv, P.Allocate, FrameNo, H.Position;
    if H.FirstFit(s.heap.free, n) == |s.heap.free| {
      P.AllocateIsLowest(s.pmm);
      if P.Allocate(s.pmm).1.Returned? {
        FreshBase(s);
        FreeIsNobodys(s);
        HP.GrowKeeps(s.heap, P.Allocate(s.pmm).1.value + s.hhdm);
      }
    }
  }

  lemma MallocKeeps(s: System, want: u64)
    requires Inv(s)
    ensures Inv(Step(s, Malloc(want)).0)
  {
    hide H.Inv, P.Inv, FrameNo, H.RoundUp16, Obtain, ObtainedAt;
    var n := H.RoundUp16(want);
    if want > 0 && n <= H.MAX_REQUEST {
      ObtainKeeps(s, n);
      var (h, q, r) := Obtain(s.heap, s.pmm, s.hhdm, n);
      if r.Returned? {
        HP.CarveKeeps(h, ObtainedAt(s.heap, s.pmm, s.hhdm, n), want);
      }
    }
  }

  lemma FreeKeeps(s: System, p: u64)
    requires Inv(s)
    ensures Inv(Step(s, Free(p)).0)
  {
    hide H.Inv, P.Inv, FrameNo;
    var j := LoanAt(s.heap.live, p - H.HEADER);
    if p != 0 && j < |s.heap.live| {
      HP.ReleaseKeeps(s.heap, j);
    }
  }

  // --- whole runs -----------------------------------------------------------------

  /** The state after a run; a call that panics halts the kernel. */
  ghost function Run(s: System, calls: seq<Call>): System
    requires Inv(s)
    decreases |calls|
  {
    if |calls| == 0 || !Allowed(s, calls[0]) then s
    else
      StepKeeps(s, calls[0]);
      var (t, r) := Step(s, calls[0]);
      if r.Panicked? then t else Run(t, calls[1..])
  }

  /** Frames move between free and owned only; the metadata and everything else stay out of reach. */
  predicate SameGround(p: P.Pmm, q: P.Pmm) {
    q.free + q.owned == p.free + p.owned && q == p.(free := q.free, owned := q.owned)
  }

  lemma StepKeeps(s: System, c: Call)
    requires Inv(s) && Allowed(s, c)
    ensures Inv(Step(s, c).0) && Step(s, c).0.hhdm == s.hhdm
    ensures SameGround(s.pmm, Step(s, c).0.pmm)
  {
    hide H.Inv, P.Inv, H.Release, H.Carve, H.Grow, H.RoundUp16, FrameNo;
    match c
    case GetFrame => GetFrameKeeps(s); P.StepKeeps(s.pmm, P.AllocateCall);
    case PutFrame(a) => PutFrameKeeps(s, a); P.StepKeeps(s.pmm, P.FreeCall(a));
    case Malloc(want) => MallocKeeps(s, want); P.StepKeeps(s.pmm, P.AllocateCall);
    case Free(p) => FreeKeeps(s, p);
  }

  /** After every run of clients' calls the heap tiles its frames, every owned frame has one holder, and no
      frame has entered or left the two bitmaps or the reserved rest. */
  lemma {:induction false} RunKeeps(s: System, calls: seq<Call>)
    requires Inv(s)
    ensures Inv(Run(s, calls)) && SameGround(s.pmm, Run(s, calls).pmm)
    decreases |calls|
  {
    hide H.Inv, P.Inv, Step, Allowed;
    if |calls| > 0 && Allowed(s, calls[0]) {
      StepKeeps(s, calls[0]);
      if Step(s, calls[0]).1.Returned? {
        RunKeeps(Step(s, calls[0]).0, calls[1..]);
      }
    }
  }

  /** A byte of a heap block lies in a frame owned for the heap alone: no client holds the frame
      and neither bitmap is stored there. */
  lemma Separation(s: System, x: int)
    requires Inv(s) && (H.InFree(s.heap.free, x) || H.InLive(s.heap.live, x))
    ensures var f := FrameNo(PageOf(x), s.hhdm);
      f in s.pmm.owned && f !in s.clients && f !in s.pmm.free && !P.Metadata(s.pmm, f)
    ensures !P.HoldsBits(s.pmm, x - s.hhdm)
  {
    var f := FrameNo(PageOf(x), s.hhdm);
    assert PageOf(x) in s.heap.frames;
    SamePhysical(x, s.hhdm);
    if P.HoldsBits(s.pmm, x - s.hhdm) {
      P.StorageIsKept(s.pmm, x - s.hhdm);
    }
    hide H.Ordered, H.LoansApart, H.Balanced, FrameNo, PageOf, P.HoldsBits;
    assert f in FrameNos(s.heap.frames, s.hhdm);
    assert f in s.pmm.free + s.pmm.owned;
  }

  /** A byte's page in the direct map stands for the frame its physical address lies in. */
  lemma SamePhysical(x: int, hhdm: u64)
    requires hhdm % FRAME == 0
    ensures FrameNo(PageOf(x), hhdm) == (x - hhdm) / FRAME
  {
  }

  // --- freeing twice ----------------------------------------------------------------

  lemma StaleIsNotLent(h: H.Heap, p: int)
    requires H.Inv(h) && p in h.stale
    ensures LoanAt(h.live, p) == |h.live|
  {
    hide H.Tiles, H.Balanced, H.Ordered;
    assert H.Sunk(h.free, p);
    var i :| 0 <= i < |h.free| &&
      (p == h.free[i].addr || (h.free[i].addr + H.HEADER <= p && p + H.HEADER <= h.free[i].End()));
    assert H.ChunkOk(h.free[i]) by { assert H.Ordered(h.free); OrderedOk(h.free, i); }
    forall j | 0 <= j < |h.live| ensures h.live[j].chunk.addr != p {
      assert H.Apart(h.free[i], h.live[j].chunk) && H.LoanOk(h.live[j]);
    }
  }

  lemma OrderedOk(free: seq<H.Chunk>, i: nat)
    requires H.Ordered(free) && i < |free|
    ensures H.ChunkOk(free[i])
  {
  }

  /** Calls that allocate no heap memory never unmark a header. */
  lemma StepKeepsMarks(s: System, c: Call)
    requires Inv(s) && Allowed(s, c) && !c.Malloc?
    ensures s.heap.stale <= Step(s, c).0.heap.stale
  {
  }

  lemma FreeOfStale(s: System, p: u64)
    requires Inv(s) && p != 0 && p - H.HEADER in s.heap.stale
    ensures Step(s, Free(p)) == (s, Panicked(HeapDoubleFree))
  {
    StaleIsNotLent(s.heap, p - H.HEADER);
  }

  lemma {:induction false} StaleStaysCaught(s: System, p: u64, calls: seq<Call>)
    requires Inv(s) && p != 0 && p - H.HEADER in s.heap.stale
    requires forall c | c in calls :: !c.Malloc?
    ensures var t := Run(s, calls); Inv(t) && Step(t, Free(p)) == (t, Panicked(HeapDoubleFree))
    decreases |calls|
  {
    hide H.Inv, P.Inv, Step, Allowed;
    RunKeeps(s, calls);
    if |calls| > 0 && Allowed(s, calls[0]) {
      StepKeeps(s, calls[0]);
      StepKeepsMarks(s, calls[0]);
      var (t, r) := Step(s, calls[0]);
      if r.Returned? {
        StaleStaysCaught(t, p, calls[1..]);
      } else {
        FreeOfStale(t, p);
      }
    } else {
      FreeOfStale(s, p);
    }
  }

  /** The first free is what marks the header. */
  lemma FreeMarks(s: System, p: u64)
    requires Inv(s) && p != 0 && Step(s, Free(p)).1.Returned?
    ensures p - H.HEADER in Step(s, Free(p)).0.heap.stale && Allowed(s, Free(p))
  {
    hide H.Inv, P.Inv;
  }

  /** Once a payload is freed, a second free of it panics after any run of calls that allocate no heap memory,
      however its header was merged meanwhile. */
  lemma DoubleFreeIsCaught(s: System, p: u64, calls: seq<Call>)
    requires Inv(s) && p != 0 && Step(s, Free(p)).1.Returned?
    requires forall c | c in calls :: !c.Malloc?
    ensures var freed := Step(s, Free(p)).0;
      && Inv(freed)
      && var t := Run(freed, calls); Inv(t) && Step(t, Free(p)) == (t, Panicked(HeapDoubleFree))
  {
    FreeMarks(s, p);
    StepKeeps(s, Free(p));
    StaleStaysCaught(Step(s, Free(p)).0, p, calls);
    hide *;
  }

  // --- what one kmalloc gives -----------------------------------------------------------

  /** Rounding up wraps to zero for the last fifteen sizes. */
  lemma RoundUpIsExact(want: u64)
    requires want > 0
    ensures H.RoundUp16(want) % 16 == 0
    ensures if want <= TWO_64 - 16 then want <= H.RoundUp16(want) < want + 16 else H.RoundUp16(want) == 0
  {
  }

  /** A lent payload is 16-aligned and holds the bytes asked for exactly when rounding the request did not wrap;
      it is never more than 47 bytes larger, in steps of 16. */
  lemma LoanHonoursRequest(h: H.Heap, j: nat)
    requires H.Inv(h) && j < |h.live|
    ensures var l := h.live[j];
      && (l.chunk.addr + H.HEADER) % 16 == 0 && l.chunk.size % 16 == 0
      && (l.chunk.size >= l.want <==> l.want <= TWO_64 - 16)
      && (l.want <= TWO_64 - 16 ==> 0 < l.chunk.size < l.want + 48)
      && l.chunk.size - H.RoundUp16(l.want) in {0, 16, 32}
  {
    hide H.Tiles, H.Balanced, H.Ordered, H.RoundUp16;
    assert H.LoanOk(h.live[j]);
    RoundUpIsExact(h.live[j].want);
  }

  /** The answer of `kmalloc`, for every request. */
  lemma KmallocAnswers(s: System, want: u64)
    requires Inv(s)
    ensures var (t, r) := Step(s, Malloc(want)); var rounded := H.RoundUp16(want);
      && (r == Panicked(ZeroHeapAllocation) <==> want == 0)
      && (r == Panicked(HeapOverflow) <==> 4064 < want <= TWO_64 - 16)
      && (r == Panicked(OutOfMemory) <==>
            && 0 < want && !(4064 < want <= TWO_64 - 16)
            && s.pmm.free == {} && forall c | c in s.heap.free :: c.size < rounded)
      && (r.Panicked? ==> t == s && r.reason in {ZeroHeapAllocation, HeapOverflow, OutOfMemory})
      && (r.Returned? ==>
            && |t.heap.live| == |s.heap.live| + 1 && s.heap.live <= t.heap.live
            && t.heap.live[|s.heap.live|].want == want
            && r.value == Wrap(t.heap.live[|s.heap.live|].chunk.addr + H.HEADER))
  {
    hide H.Inv, P.Inv, P.Allocate, H.RoundUp16, FrameNo, H.Grow, Wrap;
    if want > 0 {
      RoundUpIsExact(want);
      P.AllocateIsLowest(s.pmm);
      var n := H.RoundUp16(want);
      if n <= H.MAX_REQUEST {
        ObtainKeeps(s, n);
      }
    }
  }

  lemma StepKeepsPositive(s: System, c: Call)
    requires Inv(s) && H.Positive(s.heap) && (c.Malloc? ==> c.want <= TWO_64 - 16)
    ensures H.Positive(Step(s, c).0.heap)
  {
    hide H.Inv, P.Inv, H.RoundUp16, H.Positive, H.Carve, H.Grow, H.Release, FrameNo;
    HP.StaysPositive(s.heap);
    if c.Malloc? && c.want > 0 {
      RoundUpIsExact(c.want);
      var n := H.RoundUp16(c.want);
      if n <= H.MAX_REQUEST {
        ObtainKeeps(s, n);
        HP.StaysPositive(Obtain(s.heap, s.pmm, s.hhdm, n).0);
      }
    }
  }

  /** In every run without requests above 2^64-16 all payloads, free and lent, are positive multiples of 16. */
  lemma {:induction false} RunKeepsPositive(s: System, calls: seq<Call>)
    requires Inv(s) && H.Positive(s.heap)
    requires forall c | c in calls && c.Malloc? :: c.want <= TWO_64 - 16
    ensures H.Positive(Run(s, calls).heap)
    decreases |calls|
  {
    hide H.Inv, P.Inv, H.Positive, Step, Allowed;
    if |calls| > 0 && Allowed(s, calls[0]) {
      StepKeeps(s, calls[0]);
      StepKeepsPositive(s, calls[0]);
      if Step(s, calls[0]).1.Returned? {
        RunKeepsPositive(Step(s, calls[0]).0, calls[1..]);
      }
    }
  }

  // --- which block a call takes or returns ------------------------------------------------

  /** The step lends the front of free block `c`, the lowest that holds `n` bytes; the rest of it stays on the list when
      at least 48 bytes are left, and nothing else changes. */
  ghost predicate LendsFrom(s: System, t: System, r: Outcome<int>, c: H.Chunk, n: int, want: u64) {
    && c in s.heap.free && c.size >= n && (forall e | e in s.heap.free && e.addr < c.addr :: e.size < n)
    && r == Returned(Wrap(c.addr + 32)) && t == s.(heap := t.heap) && t.heap.frames == s.heap.frames
    && H.Shrunk(s.heap.free, c, n, t.heap.free)
    && t.heap.live == s.heap.live + [H.Loan(H.Chunk(c.addr, if c.size - n >= 48 then n else c.size), want)]
  }

  /** `kmalloc` when some block fits. */
  lemma MallocTakes(s: System, want: u64)
    requires Inv(s) && want > 0 && H.RoundUp16(want) <= 4064
    requires exists c | c in s.heap.free :: c.size >= H.RoundUp16(want)
    ensures exists c :: LendsFrom(s, Step(s, Malloc(want)).0, Step(s, Malloc(want)).1, c, H.RoundUp16(want), want)
  {
    var n := H.RoundUp16(want);
    var k := H.FirstFit(s.heap.free, n);
    assert k < |s.heap.free|;
    MallocFits(s, want);
    HP.CarveShrinks(s.heap, k, n, want);
    LowerIsEarlier(s.heap, k);
    hide Inv, P.Inv, Step, Wrap, H.RoundUp16, H.Shrunk, H.FirstFit, H.CarveList;
    assert LendsFrom(s, Step(s, Malloc(want)).0, Step(s, Malloc(want)).1, s.heap.free[k], n, want);
  }

  lemma LowerIsEarlier(h: H.Heap, k: nat)
    requires H.Inv(h) && k < |h.free|
    ensures forall i | 0 <= i < |h.free| && h.free[i].addr < h.free[k].addr :: i < k
  {
    assert forall i | 0 <= i < |h.free| :: H.ChunkOk(h.free[i]);
    forall i | 0 <= i < |h.free| ensures h.free[i].addr < h.free[k].addr ==> i < k {
      if k < i {
        assert h.free[k].End() <= h.free[i].addr;
      }
    }
  }

  /** The step takes frame `f`, the lowest free one, into the heap and lends its front; the rest of it, when at least
      48 bytes are left, is the only new free block. */
  ghost predicate LendsFresh(s: System, t: System, r: Outcome<int>, f: nat, n: int, want: u64) {
    var base := f * 4096 + s.hhdm;
    && f in s.pmm.free && (forall g | g in s.pmm.free :: f <= g)
    && t.pmm == s.pmm.(free := s.pmm.free - {f}, owned := s.pmm.owned + {f})
    && t.clients == s.clients && t.hhdm == s.hhdm && t.heap.frames == s.heap.frames + {base}
    && r == Returned(base + 32)
    && (forall e :: e in t.heap.free <==>
          e in s.heap.free || (4064 - n >= 48 && e == H.Chunk(base + 32 + n, 4064 - n - 32)))
    && t.heap.live == s.heap.live + [H.Loan(H.Chunk(base, if 4064 - n >= 48 then n else 4064), want)]
  }

  /** `kmalloc` when no block fits. */
  lemma MallocGrowsBy(s: System, want: u64)
    requires Inv(s) && want > 0 && H.RoundUp16(want) <= 4064 && s.pmm.free != {}
    requires forall c | c in s.heap.free :: c.size < H.RoundUp16(want)
    ensures exists f :: LendsFresh(s, Step(s, Malloc(want)).0, Step(s, Malloc(want)).1, f, H.RoundUp16(want), want)
  {
    hide H.Inv, P.Inv, P.Allocate, Step, Wrap, H.RoundUp16, H.FirstFit, H.CarveList, H.Insert, H.Position, H.Shrunk,
         FrameNos, OwnedFrames;
    var n := H.RoundUp16(want);
    P.AllocateIsLowest(s.pmm);
    MallocGrows(s, want);
    var f := P.Allocate(s.pmm).1.value / FRAME;
    var base := f * FRAME + s.hhdm;
    var g, k := H.Grow(s.heap, base), H.Position(s.heap.free, base);
    var c := H.Chunk(base, H.MAX_REQUEST);
    NewChunk(s, base);
    GrownMembers(s.heap.free, c);
    HP.CarveShrinks(g, k, n, want);
    FreshList(s.heap.free, c, n, H.Carve(g, k, n, want).free);
    PayloadAddress(s.(heap := g, pmm := P.Allocate(s.pmm).0), k);
    AddressWraps(base + H.HEADER);
    assert LendsFresh(s, Step(s, Malloc(want)).0, Step(s, Malloc(want)).1, f, n, want);
  }

  lemma FreshList(free: seq<H.Chunk>, c: H.Chunk, n: int, after: seq<H.Chunk>)
    requires c !in free && H.Shrunk(H.Insert(free, c), c, n, after)
    ensures forall e :: e in after <==>
      e in free || (c.size - n >= 48 && e == H.Chunk(c.addr + 32 + n, c.size - n - 32))
  {
    GrownMembers(free, c);
    hide H.Insert;
  }

  lemma GrownMembers(free: seq<H.Chunk>, c: H.Chunk)
    ensures var f, k := H.Insert(free, c), H.Position(free, c.addr);
      k < |f| && f[k] == c && forall e :: e in f <==> e in free || e == c
  {
    var k := H.Position(free, c.addr);
    assert free == free[..k] + free[k..];
    forall e ensures e in H.Insert(free, c) <==> e in free || e == c {
    }
  }

  /** The fresh frame's chunk is new to the list. */
  lemma NewChunk(s: System, base: int)
    requires Inv(s) && P.Allocate(s.pmm).1.Returned? && base == P.Allocate(s.pmm).1.value + s.hhdm
    ensures H.Chunk(base, H.MAX_REQUEST) !in s.heap.free
  {
    FreshBase(s);
    var c := H.Chunk(base, H.MAX_REQUEST);
    assert PageOf(base) == base;
    assert c in s.heap.free ==> c.Holds(base) && H.InFree(s.heap.free, base);
    hide H.Ordered, H.LoansApart, H.Balanced, P.Inv, FrameNo, P.Allocate;
  }

  /** The step ends loan `j`: its block comes back as one with the free blocks that touch it, on both sides, and every
      other block, every other loan and the frame allocator stay as they were. */
  ghost predicate EndsLoan(s: System, t: System, j: nat)
    requires j < |s.heap.live|
  {
    && t == s.(heap := t.heap) && t.heap.frames == s.heap.frames
    && t.heap.live == s.heap.live[..j] + s.heap.live[j + 1..]
    && H.Merged(s.heap.free, s.heap.live[j].chunk, t.heap.free)
  }

  /** `kfree` of a lent payload. */
  lemma FreeMerges(s: System, p: u64)
    requires Inv(s) && p != 0 && Step(s, Free(p)).1.Returned?
    ensures exists j: nat | j < |s.heap.live| ::
      s.heap.live[j].chunk.addr == p - 32 && EndsLoan(s, Step(s, Free(p)).0, j)
  {
    var j := LoanAt(s.heap.live, p - H.HEADER);
    HP.ReleaseMerges(s.heap, j);
    hide H.Inv, P.Inv, H.Merged, H.PutBack;
    assert s.heap.live[j].chunk.addr == p - 32 && EndsLoan(s, Step(s, Free(p)).0, j);
  }

  // --- kmalloc, then kfree ---------------------------------------------------------------

  /** Looking up the header of the block just lent finds the new loan. */
  lemma NewLoanIsFound(h: H.Heap, k: nat, n: int, want: u64)
    requires H.Inv(h) && k < |h.free|
    ensures LoanAt(H.Carve(h, k, n, want).live, h.free[k].addr) == |h.live|
  {
    hide H.Tiles, H.Balanced;
    assert H.ChunkOk(h.free[k]);
    forall j | 0 <= j < |h.live| ensures h.live[j].chunk.addr != h.free[k].addr {
      assert H.Apart(h.free[k], h.live[j].chunk) && H.LoanOk(h.live[j]);
    }
    var live := H.Carve(h, k, n, want).live;
    assert live[|h.live|].chunk.addr == h.free[k].addr;
    assert forall j | 0 <= j < |h.live| :: live[j] == h.live[j];
  }

  /** A listed block lies below 2^64, and so does the address of its payload unless it is empty. */
  lemma PayloadAddress(s: System, k: nat)
    requires Inv(s) && k < |s.heap.free|
    ensures var a := s.heap.free[k].addr + H.HEADER;
      0 < a <= TWO_64 && (a == TWO_64 ==> s.heap.free[k].size == 0)
  {
    forall b | b in s.heap.frames ensures b + FRAME <= TWO_64 {
      assert FrameNo(b, s.hhdm) in s.pmm.free + s.pmm.owned;
    }
    HP.Below(s.heap, TWO_64);
    assert H.ChunkOk(s.heap.free[k]);
  }

  /** In state `t`, freeing `pointer` is allowed, succeeds, and leads back to `s` with its heap undone. */
  ghost predicate FreeUndoes(t: System, pointer: int, s: System, k: nat, n: int)
    requires k < |s.heap.free|
  {
    && Inv(t) && 0 < pointer < TWO_64 && Allowed(t, Free(pointer))
    && var (u, r) := Step(t, Free(pointer));
       r == Returned(0) && u == s.(heap := u.heap) && H.Undone(s.heap, k, n, u.heap)
  }

  /** Freeing the payload of the block just lent ends that loan. */
  lemma FreeFindsLoan(s: System, k: nat, n: int, want: u64, p: u64)
    requires H.Inv(s.heap) && k < |s.heap.free| && p != 0 && p == s.heap.free[k].addr + H.HEADER
    ensures var h := H.Carve(s.heap, k, n, want); var t := s.(heap := h);
      && Allowed(t, Free(p)) && |h.live| == |s.heap.live| + 1
      && (P.Inv(s.pmm) ==> Step(t, Free(p)) == (t.(heap := H.Release(h, |s.heap.live|)), Returned(0)))
  {
    NewLoanIsFound(s.heap, k, n, want);
    hide H.Inv, P.Inv, H.Release;
  }

  lemma CarveInv(s: System, k: nat, want: u64)
    requires Inv(s) && k < |s.heap.free| && want > 0 && H.RoundUp16(want) <= s.heap.free[k].size
    ensures Inv(s.(heap := H.Carve(s.heap, k, H.RoundUp16(want), want)))
  {
    HP.CarveKeeps(s.heap, k, want);
    hide H.Inv, P.Inv, H.RoundUp16, FrameNo;
  }

  /** Lending block `k` and freeing the pointer handed out. */
  lemma LendThenFree(s: System, k: nat, want: u64)
    requires Inv(s) && k < |s.heap.free| && want > 0 && H.RoundUp16(want) <= s.heap.free[k].size
    ensures var n := H.RoundUp16(want); var p := Wrap(s.heap.free[k].addr + H.HEADER);
      && (s.heap.free[k].size > 0 ==> p == s.heap.free[k].addr + H.HEADER > 0)
      && (p != 0 ==> FreeUndoes(s.(heap := H.Carve(s.heap, k, n, want)), p, s, k, n))
  {
    var n, p := H.RoundUp16(want), Wrap(s.heap.free[k].addr + H.HEADER);
    hide H.Inv, P.Inv, H.RoundUp16, H.Carve, H.Release, H.Undone, Wrap, Step, Allowed, FrameNos, OwnedFrames;
    PayloadAddress(s, k);
    AddressWraps(s.heap.free[k].addr + H.HEADER);
    if p != 0 {
      FreeFindsLoan(s, k, n, want, p);
      CarveInv(s, k, want);
      HP.RoundTrip(s.heap, k, want);
    }
  }

  lemma AddressWraps(a: int)
    requires 0 < a <= TWO_64
    ensures Wrap(a) == if a == TWO_64 then 0 else a
  {
  }

  /** What `kmalloc` does when some block fits. */
  lemma MallocFits(s: System, want: u64)
    requires Inv(s) && want > 0 && H.RoundUp16(want) <= H.MAX_REQUEST
    requires H.FirstFit(s.heap.free, H.RoundUp16(want)) < |s.heap.free|
    ensures var n := H.RoundUp16(want); var k := H.FirstFit(s.heap.free, n);
      Step(s, Malloc(want)) ==
      (s.(heap := H.Carve(s.heap, k, n, want)), Returned(Wrap(s.heap.free[k].addr + H.HEADER)))
  {
    hide H.Inv, P.Inv, H.RoundUp16, Wrap, H.Carve;
  }

  /** `kfree(kmalloc(want))` on calls, when some block fits: the pointer is found again, the frame allocator is not
      touched, and the heap is as it was, with the list itself restored exactly when nothing else could merge. */
  lemma MallocThenFree(s: System, want: u64)
    requires Inv(s) && want > 0 && H.RoundUp16(want) <= H.MAX_REQUEST
    requires H.FirstFit(s.heap.free, H.RoundUp16(want)) < |s.heap.free|
    ensures var n := H.RoundUp16(want); var (t, r) := Step(s, Malloc(want));
      && r.Returned? && (want <= TWO_64 - 16 ==> r.value != 0)
      && (r.value != 0 ==> FreeUndoes(t, r.value, s, H.FirstFit(s.heap.free, n), n))
  {
    hide *;
    RoundUpIsExact(want);
    MallocFits(s, want);
    LendThenFree(s, H.FirstFit(s.heap.free, H.RoundUp16(want)), want);
  }

  /** When no two free blocks touch, the free list comes back chunk for chunk. */
  lemma MallocThenFreeIdentical(s: System, want: u64)
    requires Inv(s) && 0 < want <= TWO_64 - 16 && H.RoundUp16(want) <= H.MAX_REQUEST
    requires H.FirstFit(s.heap.free, H.RoundUp16(want)) < |s.heap.free| && forall i :: !H.Joins(s.heap.free, i)
    ensures var (t, r) := Step(s, Malloc(want));
      && r.Returned? && 0 < r.value < TWO_64 && Inv(t)
      && Step(t, Free(r.value)).0.heap.(stale := s.heap.stale) == s.heap
  {
    MallocThenFree(s, want);
    hide Inv, Step, H.RoundUp16, Allowed, H.Joins;
  }

  /** The same when the heap has to grow: one frame more is owned and free in the heap, and nothing else changed. */
  lemma MallocThenFreeGrown(s: System, want: u64)
    requires Inv(s) && want > 0 && H.RoundUp16(want) <= H.MAX_REQUEST && s.pmm.free != {}
    requires H.FirstFit(s.heap.free, H.RoundUp16(want)) == |s.heap.free|
    ensures var n := H.RoundUp16(want); var (t, r) := Step(s, Malloc(want)); var (q, f) := P.Allocate(s.pmm);
      && r.Returned? && f.Returned?
      && var base := f.value + s.hhdm; var g := H.Grow(s.heap, base); var k := H.Position(s.heap.free, base);
      && k < |g.free| && r.value == base + H.HEADER
      && FreeUndoes(t, r.value, s.(heap := g, pmm := q), k, n)
      && g.live == s.heap.live && g.frames == s.heap.frames + {base}
      && (forall x: int :: H.InFree(g.free, x) <==> H.InFree(s.heap.free, x) || PageOf(x) == base)
  {
    hide H.Inv, P.Inv, P.Allocate, H.Carve, H.RoundUp16, H.InFree, FreeUndoes, PageOf, FrameNo, H.Position, Step;
    MallocGrows(s, want);
    var q := P.Allocate(s.pmm).0;
    var base := P.Allocate(s.pmm).1.value + s.hhdm;
    FrameBytes(s.heap.free, base);
    LendThenFree(s.(heap := H.Grow(s.heap, base), pmm := q), H.Position(s.heap.free, base), want);
  }

  /** What `kmalloc` does when no block fits but a frame is free. */
  lemma MallocGrows(s: System, want: u64)
    requires Inv(s) && want > 0 && H.RoundUp16(want) <= H.MAX_REQUEST && s.pmm.free != {}
    requires H.FirstFit(s.heap.free, H.RoundUp16(want)) == |s.heap.free|
    ensures var n := H.RoundUp16(want); var (q, f) := P.Allocate(s.pmm);
      && f.Returned?
      && var base := f.value + s.hhdm; var g := H.Grow(s.heap, base); var k := H.Position(s.heap.free, base);
      && base % FRAME == 0 && k < |g.free| && Inv(s.(heap := g, pmm := q))
      && Step(s, Malloc(want)) ==
         (s.(heap := H.Carve(g, k, n, want), pmm := q), Returned(Wrap(g.free[k].addr + H.HEADER)))
  {
    hide H.Inv, P.Inv, P.Allocate, H.Carve, H.RoundUp16, FrameNo, Wrap, H.Position, H.Grow;
    P.AllocateIsLowest(s.pmm);
    FreshBase(s);
    ObtainKeeps(s, H.RoundUp16(want));
  }

  /** A fresh frame on the list adds just its own page. */
  lemma FrameBytes(free: seq<H.Chunk>, base: int)
    requires base % FRAME == 0
    ensures var f := H.Insert(free, H.Chunk(base, H.MAX_REQUEST)); var k := H.Position(free, base);
      && k < |f| && f[k] == H.Chunk(base, H.MAX_REQUEST)
      && forall x: int :: H.InFree(f, x) <==> H.InFree(free, x) || PageOf(x) == base
  {
    HP.InsertBytes(free, H.Chunk(base, H.MAX_REQUEST));
  }

  /** Two touching frames, both free as a whole: the heap grew twice and never merged them. */
  function TwoFrames(): System {
    System(H.Grow(H.Grow(H.EMPTY, 0x12000), 0x13000), P.Pmm(4, 1, 0, 1, {}, {2, 3}), 0x10000, {})
  }

  lemma TwoFramesInv()
    ensures Inv(TwoFrames())
    ensures TwoFrames().heap.free == [H.Chunk(0x12000, H.MAX_REQUEST), H.Chunk(0x13000, H.MAX_REQUEST)]
  {
    EmptyInv();
    hide H.Inv, FrameNo;
    var one := H.Grow(H.EMPTY, 0x12000);
    assert one.free == [H.Chunk(0x12000, H.MAX_REQUEST)];
    HP.PositionIs(one.free, 0x13000, 1);
    HP.GrowKeeps(H.EMPTY, 0x12000);
    HP.GrowKeeps(one, 0x13000);
    TwoFrameNos();
    assert TwoFrames().heap.frames == {0x12000, 0x13000};
    hide H.Insert, H.Position;
  }

  lemma EmptyInv()
    ensures H.Inv(H.EMPTY)
  {
  }

  lemma TwoFrameNos()
    ensures FrameNos({0x12000, 0x13000}, 0x10000) == {2, 3} && OwnedFrames({0x12000, 0x13000}, 0x10000, {2, 3})
  {
    assert FrameNo(0x12000, 0x10000) == 2 && FrameNo(0x13000, 0x10000) == 3;
    hide FrameNo;
  }

  /** A state in which the free list does not come back: the block taken merges with the next frame's. */
  lemma ListNotRestored()
    ensures var s := TwoFrames(); Inv(s) && var (t, r) := Step(s, Malloc(H.MAX_REQUEST));
      && r.Returned? && 0 < r.value < TWO_64 && Inv(t)
      && Step(t, Free(r.value)).1 == Returned(0) && Step(t, Free(r.value)).0.heap.free != s.heap.free
  {
    var s := TwoFrames();
    TwoFramesInv();
    RoundUpIsExact(H.MAX_REQUEST);
    assert H.FirstFit(s.heap.free, H.MAX_REQUEST) == 0;
    assert H.Joins(s.heap.free, 0) && !H.Splits(s.heap.free[0], H.MAX_REQUEST);
    MallocThenFree(s, H.MAX_REQUEST);
    hide Inv, Step, TwoFrames, H.FirstFit, H.RoundUp16, Allowed, H.Joins, H.Splits;
  }

  /** A request that wraps is answered with a payload that is too small. */
  lemma WrappedRequest(s: System)
    requires Inv(s) && s.pmm.free != {}
    ensures var want := TWO_64 - 1; var (t, r) := Step(s, Malloc(want));
      && r.Returned? && |t.heap.live| == |s.heap.live| + 1
      && t.heap.live[|s.heap.live|].want == want && t.heap.live[|s.heap.live|].chunk.size <= 32
  {
    var want := TWO_64 - 1;
    RoundUpIsExact(want);
    KmallocAnswers(s, want);
    MallocKeeps(s, want);
    hide Step, Inv, H.Inv, H.RoundUp16;
    LoanHonoursRequest(Step(s, Malloc(want)).0.heap, |s.heap.live|);
  }
}
