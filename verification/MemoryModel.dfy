/** The heap and the frame allocator under it as one system: calls, clients and whole runs. */
module MemoryModel {
  import opened Machine
  import H = HeapModel
  import P = PmmModel

  /** Make sure some free chunk holds `n` payload bytes: grow by one frame when none does. */
  function Obtain(h: H.Heap, p: P.Pmm, hhdm: u64, n: int): (H.Heap, P.Pmm, Outcome<()>)
    requires P.Inv(p)
  {
    if H.FirstFit(h.free, n) < |h.free| then (h, p, Returned(()))
    else
      var (q, frame) := P.Allocate(p);
      if frame.Panicked? then (h, q, Panicked(frame.reason))
      else (H.Grow(h, frame.value + hhdm), q, Returned(()))
  }

  /** The place on the list of the chunk found or added. */
  function ObtainedAt(h: H.Heap, p: P.Pmm, hhdm: u64, n: int): nat
    requires P.Inv(p)
  {
    var k := H.FirstFit(h.free, n);
    if k < |h.free| || P.Allocate(p).1.Panicked? then k
    else H.Position(h.free, P.Allocate(p).1.value + hhdm)
  }

  /** `kmalloc` on values: the new heap, the new frame allocator and the answer. */
  function Kmalloc(h: H.Heap, p: P.Pmm, hhdm: u64, want: u64): (H.Heap, P.Pmm, Outcome<int>)
    requires P.Inv(p)
  {
    var n := H.RoundUp16(want);
    var k := ObtainedAt(h, p, hhdm, n);
    if want == 0 then (h, p, Panicked(ZeroHeapAllocation))
    else if n > H.MAX_REQUEST then (h, p, Panicked(HeapOverflow))
    else
      var (g, q, r) := Obtain(h, p, hhdm, n);
      if r.Panicked? then (g, q, Panicked(r.reason))
      else (H.Carve(g, k, n, want), q, Returned(Wrap(g.free[k].addr + H.HEADER)))
  }

  /** Which loan lies behind header address `a`; `|live|` when none does. */
  function LoanAt(live: seq<H.Loan>, a: int, j: nat := 0): (r: nat)
    requires j <= |live|
    ensures j <= r <= |live|
    ensures r < |live| ==> live[r].chunk.addr == a
    ensures forall i | j <= i < r :: live[i].chunk.addr != a
    decreases |live| - j
  {
    if j == |live| || live[j].chunk.addr == a then j else LoanAt(live, a, j + 1)
  }

  // --- the system and its clients ---------------------------------------------------

  /** The physical frame behind heap frame `b`, seen through the direct map at `hhdm`. */
  function FrameNo(b: int, hhdm: u64): int {
    (b - hhdm) / FRAME
  }

  function FrameNos(frames: set<int>, hhdm: u64): set<int> {
    set b | b in frames :: FrameNo(b, hhdm)
  }

  /** Each heap frame is owned in the frame allocator. */
  predicate OwnedFrames(frames: set<int>, hhdm: u64, owned: set<nat>) {
    forall b | b in frames :: b >= hhdm && b % FRAME == 0 && FrameNo(b, hhdm) in owned
  }

  /** `clients` are the frames taken from the frame allocator directly. */
  datatype System = System(heap: H.Heap, pmm: P.Pmm, hhdm: u64, clients: set<nat>)

  /** Every owned frame has exactly one holder: a direct client or the heap. */
  ghost predicate Inv(s: System) {
    && H.Inv(s.heap) && P.Inv(s.pmm)
    && s.hhdm > 0 && s.hhdm % FRAME == 0 && s.hhdm + s.pmm.count * FRAME <= TWO_64
    && OwnedFrames(s.heap.frames, s.hhdm, s.pmm.owned)
    && s.clients !! FrameNos(s.heap.frames, s.hhdm)
    && s.pmm.owned == s.clients + FrameNos(s.heap.frames, s.hhdm)
  }

  datatype Call = GetFrame | PutFrame(address: u64) | Malloc(want: u64) | Free(pointer: u64)

  /** Clients never give back a frame of the heap, and free only null, lent payloads, or payloads freed since
      the last allocation. */
  predicate Allowed(s: System, c: Call) {
    match c
    case PutFrame(a) => a % FRAME != 0 || a / FRAME !in FrameNos(s.heap.frames, s.hhdm)
    case Free(p) => p == 0 || LoanAt(s.heap.live, p - H.HEADER) < |s.heap.live| || p - H.HEADER in s.heap.stale
    case _ => true
  }

  function Step(s: System, c: Call): (System, Outcome<int>)
    requires P.Inv(s.pmm)
  {
    match c
    case GetFrame =>
      var (q, r) := P.Allocate(s.pmm);
      if r.Panicked? then (s.(pmm := q), Panicked(r.reason))
      else (s.(pmm := q, clients := s.clients + {r.value / FRAME}), Returned(r.value))
    case PutFrame(a) =>
      var (q, r) := P.Free(s.pmm, a);
      if r.Panicked? then (s.(pmm := q), Panicked(r.reason))
      else (s.(pmm := q, clients := s.clients - {a / FRAME}), Returned(0))
    case Malloc(want) =>
      var (h, q, r) := Kmalloc(s.heap, s.pmm, s.hhdm, want);
      (s.(heap := h, pmm := q), r)
    case Free(p) =>
      var j := LoanAt(s.heap.live, p - H.HEADER);
      if p == 0 then (s, Returned(0))
      else if j < |s.heap.live| then (s.(heap := H.Release(s.heap, j)), Returned(0))
      else (s, Panicked(HeapDoubleFree))
  }
}
