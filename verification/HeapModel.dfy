/** The kernel heap on values: which chunks are free, which are lent out, and which frames back them. */
module HeapModel {
  import opened Machine

  const HEADER: int := 32
  const MAX_REQUEST: int := FRAME - HEADER

  /** A header at `addr` followed by `size` payload bytes. */
  datatype Chunk = Chunk(addr: int, size: int) {
    function End(): int { addr + HEADER + size }

    predicate Holds(x: int) { addr <= x < End() }
  }

  /** A chunk lent to a client, with the byte count the client asked for. */
  datatype Loan = Loan(chunk: Chunk, want: u64)

  /** `stale` holds the headers freed since the last allocation, absorbed by merges or not. */
  datatype Heap = Heap(free: seq<Chunk>, live: seq<Loan>, frames: set<int>, stale: set<int>)

  const EMPTY: Heap := Heap([], [], {}, {})

  // --- operations -----------------------------------------------------------

  function RoundUp16(size: u64): u64 {
    var bumped := Wrap(size + 0xF);
    bumped - bumped % 16
  }

  /** First chunk from `k` on that holds `n` payload bytes; `|free|` when there is none. */
  function FirstFit(free: seq<Chunk>, n: int, k: nat := 0): (r: nat)
    requires k <= |free|
    ensures k <= r <= |free|
    ensures r < |free| ==> free[r].size >= n
    ensures forall i | k <= i < r :: free[i].size < n
    decreases |free| - k
  {
    if k == |free| || free[k].size >= n then k else FirstFit(free, n, k + 1)
  }

  /** How many chunks of the list, from `k` on, come before address `a`. */
  function Position(free: seq<Chunk>, a: int, k: nat := 0): (r: nat)
    requires k <= |free|
    ensures k <= r <= |free|
    ensures r < |free| ==> free[r].addr >= a
    ensures forall i | k <= i < r :: free[i].addr < a
    decreases |free| - k
  {
    if k == |free| || free[k].addr >= a then k else Position(free, a, k + 1)
  }

  predicate Splits(c: Chunk, n: int) {
    c.size - n >= HEADER + 16
  }

  function Front(c: Chunk, n: int): Chunk {
    if Splits(c, n) then Chunk(c.addr, n) else c
  }

  function Rest(c: Chunk, n: int): Chunk {
    Chunk(c.addr + HEADER + n, c.size - n - HEADER)
  }

  /** The free list once the first `n` payload bytes of chunk `k` are lent. */
  function CarveList(free: seq<Chunk>, k: nat, n: int): seq<Chunk>
    requires k < |free|
  {
    free[..k] + (if Splits(free[k], n) then [Rest(free[k], n)] else []) + free[k + 1..]
  }

  function Carve(h: Heap, k: nat, n: int, want: u64): Heap
    requires k < |h.free|
  {
    h.(free := CarveList(h.free, k, n), live := h.live + [Loan(Front(h.free[k], n), want)], stale := {})
  }

  function Insert(free: seq<Chunk>, c: Chunk): seq<Chunk> {
    var k := Position(free, c.addr);
    free[..k] + [c] + free[k..]
  }

  /** Add the frame at `base` to the free list, in address order and without merging. */
  function Grow(h: Heap, base: int): Heap {
    h.(free := Insert(h.free, Chunk(base, MAX_REQUEST)), frames := h.frames + {base}, stale := {})
  }

  predicate Joins(free: seq<Chunk>, i: int) {
    0 <= i && i + 1 < |free| && free[i].End() == free[i + 1].addr
  }

  /** Let chunk `i` absorb its successor in the list when it ends exactly where that one begins. */
  function Join(free: seq<Chunk>, i: int): seq<Chunk> {
    if Joins(free, i)
    then free[..i] + [Chunk(free[i].addr, free[i].size + HEADER + free[i + 1].size)] + free[i + 2..]
    else free
  }

  /** The free list after chunk `c` is put back at its place and merged, first forward and then backward. */
  function PutBack(free: seq<Chunk>, c: Chunk): seq<Chunk> {
    var k: int := Position(free, c.addr);
    Join(Join(Insert(free, c), k), k - 1)
  }

  /** End loan `j`. */
  function Release(h: Heap, j: nat): Heap
    requires j < |h.live|
  {
    var c := h.live[j].chunk;
    h.(free := PutBack(h.free, c), live := h.live[..j] + h.live[j + 1..], stale := h.stale + {c.addr})
  }

  // --- invariant ------------------------------------------------------------

  predicate ChunkOk(c: Chunk) {
    c.addr > 0 && c.addr % 16 == 0 && c.size >= 0 && c.size % 16 == 0
  }

  predicate Apart(c: Chunk, d: Chunk) {
    c.End() <= d.addr || d.End() <= c.addr
  }

  predicate LoanOk(l: Loan) {
    && ChunkOk(l.chunk)
    && l.want > 0
    && RoundUp16(l.want) <= l.chunk.size <= RoundUp16(l.want) + 32
  }

  /** Strict address order without overlap. */
  predicate Sorted(free: seq<Chunk>) {
    forall i, j | 0 <= i < j < |free| :: free[i].End() <= free[j].addr
  }

  /** Consecutive chunks touch only where a frame begins, or at a place in `lo..hi`. */
  predicate SpacedBut(free: seq<Chunk>, lo: int, hi: int) {
    forall i, j | 0 <= i < j < |free| && free[i].End() == free[j].addr ::
      lo <= i < hi || free[j].addr % FRAME == 0
  }

  predicate Ordered(free: seq<Chunk>) {
    && (forall i | 0 <= i < |free| :: ChunkOk(free[i]))
    && Sorted(free)
    && SpacedBut(free, 0, 0)
  }

  predicate LoansApart(free: seq<Chunk>, live: seq<Loan>) {
    && (forall j | 0 <= j < |live| :: LoanOk(live[j]))
    && (forall i, j | 0 <= i < |free| && 0 <= j < |live| :: Apart(free[i], live[j].chunk))
    && (forall i, j | 0 <= i < j < |live| :: Apart(live[i].chunk, live[j].chunk))
  }

  predicate InFree(free: seq<Chunk>, x: int) {
    exists i | 0 <= i < |free| :: free[i].Holds(x)
  }

  predicate InLive(live: seq<Loan>, x: int) {
    exists j | 0 <= j < |live| :: live[j].chunk.Holds(x)
  }

  /** Every byte of the heap's frames lies in a chunk, and no chunk reaches outside them. */
  ghost predicate Tiles(h: Heap) {
    forall x: int :: InFree(h.free, x) || InLive(h.live, x) <==> PageOf(x) in h.frames
  }

  /** Header `p` is a free chunk's own header or lies whole inside a free chunk's payload. */
  predicate Sunk(free: seq<Chunk>, p: int) {
    exists i | 0 <= i < |free| ::
      p == free[i].addr || (free[i].addr + HEADER <= p && p + HEADER <= free[i].End())
  }

  function FreeBytes(free: seq<Chunk>): int {
    if |free| == 0 then 0 else FreeBytes(free[..|free| - 1]) + free[|free| - 1].size
  }

  function UsedBytes(live: seq<Loan>): int {
    if |live| == 0 then 0 else UsedBytes(live[..|live| - 1]) + live[|live| - 1].chunk.size
  }

  /** Payload bytes plus one header per chunk make up the frames exactly. */
  predicate Balanced(h: Heap) {
    UsedBytes(h.live) + FreeBytes(h.free) + HEADER * (|h.live| + |h.free|) == FRAME * |h.frames|
  }

  /** No empty payload anywhere. */
  predicate Positive(h: Heap) {
    && (forall i | 0 <= i < |h.free| :: h.free[i].size > 0)
    && (forall j | 0 <= j < |h.live| :: h.live[j].chunk.size > 0)
  }

  ghost predicate Inv(h: Heap) {
    && Ordered(h.free)
    && LoansApart(h.free, h.live)
    && (forall b | b in h.frames :: b > 0 && b % FRAME == 0)
    && Tiles(h)
    && Balanced(h)
    && (forall p | p in h.stale :: Sunk(h.free, p))
  }

  /** `back` is heap `h` again after `n` bytes of block `k` were lent and returned: the same loans, frames, free bytes
      and headers, and the same list exactly when the block touched no free neighbour it could merge with. */
  ghost predicate Undone(h: Heap, k: nat, n: int, back: Heap)
    requires k < |h.free|
  {
    && back.live == h.live && back.frames == h.frames
    && (forall x: int :: InFree(back.free, x) <==> InFree(h.free, x))
    && FreeBytes(back.free) + HEADER * |back.free| == FreeBytes(h.free) + HEADER * |h.free|
    && (back.free == h.free <==> !Joins(h.free, k - 1) && (Splits(h.free[k], n) || !Joins(h.free, k)))
  }

  // --- what lending and returning a block do to the list -------------------------------

  /** `a` is where the free memory around `c` begins: at the chunk that ends where `c` begins, or at `c` itself. */
  ghost predicate FreeFrom(free: seq<Chunk>, c: Chunk, a: int) {
    || (exists e | e in free :: e.End() == c.addr && e.addr == a)
    || (a == c.addr && forall e | e in free :: e.End() != c.addr)
  }

  /** `b` is where the free memory around `c` ends: with the chunk that begins where `c` ends, or with `c` itself. */
  ghost predicate FreeUpTo(free: seq<Chunk>, c: Chunk, b: int) {
    || (exists e | e in free :: e.addr == c.End() && e.End() == b)
    || (b == c.End() && forall e | e in free :: e.addr != c.End())
  }

  /** `after` lists one chunk for `c` and the chunks of `free` that touch it, and every other chunk as it was. */
  ghost predicate Merged(free: seq<Chunk>, c: Chunk, after: seq<Chunk>) {
    exists a, b ::
      && FreeFrom(free, c, a) && FreeUpTo(free, c, b)
      && forall e :: e in after <==> e == Chunk(a, b - a - 32) || (e in free && e.End() != c.addr && e.addr != c.End())
  }

  /** `after` lists every chunk but `c` as it was, and behind the first `n` payload bytes of `c` one more when at
      least 48 bytes are left there. */
  ghost predicate Shrunk(free: seq<Chunk>, c: Chunk, n: int, after: seq<Chunk>) {
    forall e :: e in after <==>
      (e in free && e != c) || (c.size - n >= 48 && e == Chunk(c.addr + 32 + n, c.size - n - 32))
  }
}
