/** Heap headers as memory words: what the list and the loans look like in memory, and what each write does to them. */
module HeapMemory {
  import opened Machine
  import opened HeapModel
  import Proofs = HeapProofs
  import PmmModel
  import MM = MemoryModel

  const MAGIC: u64 := 0x4B424D48

  // Offsets of the header fields behind the size, which comes first.
  const NEXT: int := 8
  const IS_FREE: int := 16
  const MAGIC_AT: int := 24

  /** The 64-bit words of kernel memory, by address. */
  type Memory = map<int, u64>

  predicate HasHeader(m: Memory, a: int) {
    a in m && a + NEXT in m && a + IS_FREE in m && a + MAGIC_AT in m
  }

  predicate HeaderIs(m: Memory, c: Chunk, next: int, isFree: int) {
    && HasHeader(m, c.addr)
    && m[c.addr] == c.size && m[c.addr + NEXT] == next
    && m[c.addr + IS_FREE] == isFree && m[c.addr + MAGIC_AT] == MAGIC
  }

  /** The address of entry `k` of the list, or the null that ends it. */
  function AddrAt(free: seq<Chunk>, k: int): int
    requires 0 <= k
  {
    if k < |free| then free[k].addr else 0
  }

  /** The header of list entry `i` holds its size, its successor, the free mark and the magic number. */
  predicate LinkAt(m: Memory, free: seq<Chunk>, i: nat)
    requires i < |free|
  {
    HeaderIs(m, free[i], AddrAt(free, i + 1), 1)
  }

  predicate Linked(m: Memory, free: seq<Chunk>) {
    forall i: nat | i < |free| :: LinkAt(m, free, i)
  }

  predicate Lent(m: Memory, live: seq<Loan>) {
    forall j | 0 <= j < |live| :: HeaderIs(m, live[j].chunk, 0, 0)
  }

  predicate MarkedFree(m: Memory, p: int) {
    HasHeader(m, p) && m[p + IS_FREE] == 1 && m[p + MAGIC_AT] == MAGIC
  }

  predicate InPayload(c: Chunk, a: int) {
    c.addr + HEADER <= a < c.End()
  }

  /** No payload byte of these loans was written. */
  ghost predicate PayloadsKept(live: seq<Loan>, m: Memory, m': Memory) {
    forall j, a | 0 <= j < |live| && a in m && InPayload(live[j].chunk, a) :: a in m' && m'[a] == m[a]
  }

  /** What taking block `k` off the list wrote: inside the block, and one link before it. */
  ghost predicate Detached(m: Memory, m': Memory, free: seq<Chunk>, k: nat, n: int)
    requires k < |free|
  {
    var c := free[k];
    var next := AddrAt(free, k + 1);
    && (forall a | a in m && !c.Holds(a) && !(k > 0 && a == free[k - 1].addr + NEXT) :: a in m' && m'[a] == m[a])
    && (forall a | a in m' && !c.Holds(a) && !(k > 0 && a == free[k - 1].addr + NEXT) :: a in m)
    && (k > 0 ==> free[k - 1].addr + NEXT in m'
                  && m'[free[k - 1].addr + NEXT] == if Splits(c, n) then Rest(c, n).addr else next)
    && HasHeader(m', c.addr) && m'[c.addr] == Front(c, n).size && m'[c.addr + MAGIC_AT] == MAGIC
    && (Splits(c, n) ==> HeaderIs(m', Rest(c, n), next, 1))
  }

  /** Off the list and marked as lent. */
  ghost predicate Taken(m: Memory, m': Memory, free: seq<Chunk>, k: nat, n: int)
    requires k < |free|
  {
    Detached(m, m', free, k, n) && HeaderIs(m', Front(free[k], n), 0, 0)
  }

  lemma MarkTaken(m: Memory, m': Memory, free: seq<Chunk>, k: nat, n: int)
    requires k < |free| && 0 <= n && free[k].size >= 0 && Detached(m, m', free, k, n)
    requires k > 0 ==> free[k - 1].End() <= free[k].addr && free[k - 1].size >= 0
    ensures var t := m'[free[k].addr + IS_FREE := 0][free[k].addr + NEXT := 0];
      Taken(m, t, free, k, n) && free[k].addr in t && t[free[k].addr] == Front(free[k], n).size
  {
  }

  /** Headers and payloads away from block `k` and its predecessor are as they were. */
  lemma TakenElsewhere(m: Memory, m': Memory, free: seq<Chunk>, k: nat, n: int, c: Chunk, next: int, isFree: int)
    requires k < |free| && Taken(m, m', free, k, n) && free[k].size >= 0 && c.size >= 0
    requires Apart(free[k], c) && (k > 0 ==> Apart(free[k - 1], c) && free[k - 1].size >= 0)
    requires HeaderIs(m, c, next, isFree)
    ensures HeaderIs(m', c, next, isFree)
    ensures forall a | a in m && InPayload(c, a) :: a in m' && m'[a] == m[a]
  {
  }

  /** Entry `i` of the carved list and the address of the entry after it, in terms of the old list. */
  lemma CarvedNext(free: seq<Chunk>, f: seq<Chunk>, k: nat, n: int, i: nat)
    requires k < |free| && Proofs.Carved(free, f, k, n) && i < |f|
    ensures var j := if i < k || Splits(free[k], n) then i else i + 1;
      && j < |free| && f[i] == (if j == k then Rest(free[k], n) else free[j])
      && AddrAt(f, i + 1) ==
         if i + 1 == k then (if Splits(free[k], n) then Rest(free[k], n).addr else AddrAt(free, k + 1))
         else AddrAt(free, j + 1)
  {
    hide Splits, Rest;
  }

  lemma TakenLinked(m: Memory, m': Memory, free: seq<Chunk>, f: seq<Chunk>, k: nat, n: int, i: nat)
    requires Sorted(free) && k < |free| && Linked(m, free)
    requires forall i | 0 <= i < |free| :: free[i].size >= 0
    requires 0 <= n && Taken(m, m', free, k, n)
    requires Proofs.Carved(free, f, k, n) && i < |f|
    ensures LinkAt(m', f, i)
  {
    hide Taken, HeaderIs, Proofs.Carved, Splits, Rest, AddrAt;
    CarvedNext(free, f, k, n, i);
    var j := if i < k || Splits(free[k], n) then i else i + 1;
    assert LinkAt(m, free, j);
    if i + 1 == k {
      assert free[i].End() <= free[k].addr;
      TakenBefore(m, m', free, k, n);
    } else if j == k {
      TakenRest(m, m', free, k, n);
    } else {
      assert Apart(free[k], free[j]) && (k > 0 ==> Apart(free[k - 1], free[j]));
      TakenElsewhere(m, m', free, k, n, free[j], AddrAt(free, j + 1), 1);
    }
  }

  lemma TakenRest(m: Memory, m': Memory, free: seq<Chunk>, k: nat, n: int)
    requires k < |free| && Taken(m, m', free, k, n) && Splits(free[k], n)
    ensures HeaderIs(m', Rest(free[k], n), AddrAt(free, k + 1), 1)
  {
  }

  /** The predecessor's header keeps all but its link, which now leads past the block or to the rest of it. */
  lemma TakenBefore(m: Memory, m': Memory, free: seq<Chunk>, k: nat, n: int)
    requires 0 < k < |free| && Taken(m, m', free, k, n) && LinkAt(m, free, k - 1)
    requires free[k - 1].End() <= free[k].addr && free[k - 1].size >= 0
    ensures HeaderIs(m', free[k - 1], if Splits(free[k], n) then Rest(free[k], n).addr else AddrAt(free, k + 1), 1)
  {
  }

  lemma TakenLent(m: Memory, m': Memory, free: seq<Chunk>, live: seq<Loan>, k: nat, n: int)
    requires k < |free| && Lent(m, live) && Taken(m, m', free, k, n)
    requires forall i, j | 0 <= i < |free| && 0 <= j < |live| :: Apart(free[i], live[j].chunk)
    requires forall i | 0 <= i < |free| :: free[i].size >= 0
    requires forall j | 0 <= j < |live| :: live[j].chunk.size >= 0
    ensures Lent(m', live) && PayloadsKept(live, m, m')
  {
    forall j | 0 <= j < |live|
      ensures HeaderIs(m', live[j].chunk, 0, 0)
      ensures forall a | a in m && InPayload(live[j].chunk, a) :: a in m' && m'[a] == m[a]
    {
      assert Apart(free[k], live[j].chunk);
      assert k > 0 ==> Apart(free[k - 1], live[j].chunk);
      TakenElsewhere(m, m', free, k, n, live[j].chunk, 0, 0);
    }
  }

  // --- putting a block on the list, and joining two ---------------------------------

  /** `m'` is `m` with chunk `c`, already marked free, linked in before entry `k`. */
  ghost predicate Planted(m: Memory, m': Memory, free: seq<Chunk>, c: Chunk, k: nat)
    requires k <= |free|
  {
    && (forall a | a in m && a != c.addr + NEXT && !(k > 0 && a == free[k - 1].addr + NEXT) :: a in m' && m'[a] == m[a])
    && (forall a | a in m' && a != c.addr + NEXT && !(k > 0 && a == free[k - 1].addr + NEXT) :: a in m)
    && (k > 0 ==> free[k - 1].addr + NEXT in m' && m'[free[k - 1].addr + NEXT] == c.addr)
    && HeaderIs(m', c, AddrAt(free, k), 1)
  }

  predicate Inserted(free: seq<Chunk>, f: seq<Chunk>, c: Chunk, k: nat)
    requires k <= |free|
  {
    && |f| == |free| + 1 && f[k] == c
    && (forall i {:trigger f[i]} | 0 <= i < k :: f[i] == free[i])
    && (forall i {:trigger f[i]} | k < i < |f| :: f[i] == free[i - 1])
  }

  /** Headers away from the two written links stay, and no payload there is touched. */
  lemma PlantedElsewhere(m: Memory, m': Memory, free: seq<Chunk>, c: Chunk, k: nat, d: Chunk, next: int, isFree: int)
    requires k <= |free| && Planted(m, m', free, c, k) && c.size >= 0 && d.size >= 0 && Apart(c, d)
    requires k > 0 ==> free[k - 1].size >= 0 && Apart(free[k - 1], d)
    requires HeaderIs(m, d, next, isFree)
    ensures HeaderIs(m', d, next, isFree)
    ensures forall a | a in m && InPayload(d, a) :: a in m' && m'[a] == m[a]
  {
  }

  lemma PlantedLinked(m: Memory, m': Memory, free: seq<Chunk>, f: seq<Chunk>, c: Chunk, k: nat, i: nat)
    requires Sorted(free) && Linked(m, free) && k <= |free| && Planted(m, m', free, c, k)
    requires forall i | 0 <= i < |free| :: free[i].size >= 0 && Apart(free[i], c)
    requires c.size >= 0 && Inserted(free, f, c, k) && i < |f|
    ensures LinkAt(m', f, i)
  {
    if i != k {
      var j := if i < k then i else i - 1;
      assert LinkAt(m, free, j) && Apart(free[j], c);
      if i != k - 1 {
        assert k > 0 ==> Apart(free[k - 1], free[j]);
        PlantedElsewhere(m, m', free, c, k, free[j], AddrAt(free, j + 1), 1);
      }
    }
  }

  lemma PlantedLent(m: Memory, m': Memory, free: seq<Chunk>, c: Chunk, k: nat, live: seq<Loan>)
    requires k <= |free| && Planted(m, m', free, c, k) && Lent(m, live) && c.size >= 0
    requires forall i | 0 <= i < |free| :: free[i].size >= 0
    requires forall j | 0 <= j < |live| :: live[j].chunk.size >= 0 && Apart(c, live[j].chunk)
    requires forall i, j | 0 <= i < |free| && 0 <= j < |live| :: Apart(free[i], live[j].chunk)
    ensures Lent(m', live) && PayloadsKept(live, m, m')
  {
    forall j | 0 <= j < |live|
      ensures HeaderIs(m', live[j].chunk, 0, 0)
      ensures forall a | a in m && InPayload(live[j].chunk, a) :: a in m' && m'[a] == m[a]
    {
      assert k > 0 ==> Apart(free[k - 1], live[j].chunk);
      PlantedElsewhere(m, m', free, c, k, live[j].chunk, 0, 0);
    }
  }

  /** `m'` is `m` after entry `i` of the list absorbed its successor. */
  ghost predicate Absorbed(m: Memory, m': Memory, free: seq<Chunk>, i: nat)
    requires Joins(free, i)
  {
    var a := free[i].addr;
    && (forall b | b in m && b != a && b != a + NEXT :: b in m' && m'[b] == m[b])
    && (forall b | b in m' && b != a && b != a + NEXT :: b in m)
    && a in m' && m'[a] == free[i].size + HEADER + free[i + 1].size
    && a + NEXT in m' && m'[a + NEXT] == AddrAt(free, i + 2)
  }

  predicate Joined(free: seq<Chunk>, f: seq<Chunk>, i: nat)
    requires Joins(free, i)
  {
    && |f| == |free| - 1
    && f[i] == Chunk(free[i].addr, free[i].size + HEADER + free[i + 1].size)
    && (forall j {:trigger f[j]} | 0 <= j < i :: f[j] == free[j])
    && (forall j {:trigger f[j]} | i < j < |f| :: f[j] == free[j + 1])
  }

  lemma AbsorbedLinked(m: Memory, m': Memory, free: seq<Chunk>, f: seq<Chunk>, i: nat, j: nat)
    requires Joins(free, i) && Sorted(free) && Linked(m, free) && Absorbed(m, m', free, i)
    requires forall i | 0 <= i < |free| :: free[i].size >= 0
    requires Joined(free, f, i) && j < |f|
    ensures LinkAt(m', f, j)
  {
    var n := if j <= i then j else j + 1;
    assert LinkAt(m, free, n);
    assert n != i ==> Apart(free[n], free[i]);
  }

  lemma AbsorbedLent(m: Memory, m': Memory, free: seq<Chunk>, i: nat, live: seq<Loan>)
    requires Joins(free, i) && Absorbed(m, m', free, i) && Lent(m, live) && free[i].size >= 0
    requires forall j | 0 <= j < |live| :: live[j].chunk.size >= 0 && Apart(free[i], live[j].chunk)
    ensures Lent(m', live) && PayloadsKept(live, m, m')
  {
    forall j | 0 <= j < |live|
      ensures HeaderIs(m', live[j].chunk, 0, 0)
      ensures forall a | a in m && InPayload(live[j].chunk, a) :: a in m' && m'[a] == m[a]
    {
      assert Apart(free[i], live[j].chunk);
    }
  }

  /** Writing inside a chunk that lies apart from the list and the loans leaves both alone. */
  lemma Undisturbed(m: Memory, m': Memory, c: Chunk, free: seq<Chunk>, live: seq<Loan>)
    requires forall a | a in m && !c.Holds(a) :: a in m' && m'[a] == m[a]
    requires Linked(m, free) && Lent(m, live) && c.size >= 0
    requires forall i | 0 <= i < |free| :: free[i].size >= 0 && Apart(free[i], c)
    requires forall j | 0 <= j < |live| :: live[j].chunk.size >= 0 && Apart(c, live[j].chunk)
    ensures Linked(m', free) && Lent(m', live) && PayloadsKept(live, m, m')
  {
    forall i: nat | i < |free| ensures LinkAt(m', free, i) {
      assert LinkAt(m, free, i) && Apart(free[i], c);
    }
    forall j | 0 <= j < |live|
      ensures HeaderIs(m', live[j].chunk, 0, 0)
      ensures forall a | a in m && InPayload(live[j].chunk, a) :: a in m' && m'[a] == m[a]
    {
      assert Apart(c, live[j].chunk);
    }
  }

  // --- stale headers ----------------------------------------------------------------

  lemma PlantedStale(m: Memory, m': Memory, free: seq<Chunk>, c: Chunk, k: nat, p: int)
    requires Sorted(free) && k <= |free| && Planted(m, m', free, c, k) && c.size >= 0
    requires forall i | 0 <= i < |free| :: free[i].size >= 0 && Apart(free[i], c)
    requires Sunk(free, p) && MarkedFree(m, p)
    ensures MarkedFree(m', p)
  {
    var i :| 0 <= i < |free| && (p == free[i].addr || (free[i].addr + HEADER <= p && p + HEADER <= free[i].End()));
    assert Apart(free[i], c);
    assert k > 0 && i != k - 1 ==> Apart(free[i], free[k - 1]);
  }

  lemma AbsorbedStale(m: Memory, m': Memory, free: seq<Chunk>, i: nat, p: int)
    requires Joins(free, i) && Sorted(free) && Absorbed(m, m', free, i)
    requires forall i | 0 <= i < |free| :: free[i].size >= 0
    requires Sunk(free, p) && MarkedFree(m, p)
    ensures MarkedFree(m', p)
  {
    var j :| 0 <= j < |free| && (p == free[j].addr || (free[j].addr + HEADER <= p && p + HEADER <= free[j].End()));
    assert i != j ==> Apart(free[i], free[j]);
  }

  // --- the list between the steps of an operation -------------------------------------

  /** Shape of a list of free chunks beside some loans. */
  ghost predicate Shape(free: seq<Chunk>, live: seq<Loan>, stale: set<int>) {
    && Sorted(free)
    && (forall i | 0 <= i < |free| :: ChunkOk(free[i]) && free[i].End() <= TWO_64)
    && (forall j | 0 <= j < |live| :: live[j].chunk.size >= 0)
    && (forall i, j | 0 <= i < |free| && 0 <= j < |live| :: Apart(free[i], live[j].chunk))
    && (forall p | p in stale :: Sunk(free, p))
  }

  /** Memory holds that list, those loans and the marks of the stale headers. */
  ghost predicate Stored(m: Memory, head: int, free: seq<Chunk>, live: seq<Loan>, stale: set<int>) {
    && Linked(m, free) && head == AddrAt(free, 0)
    && Lent(m, live)
    && (forall p | p in stale :: MarkedFree(m, p))
  }

  lemma Sizes(free: seq<Chunk>)
    requires forall i | 0 <= i < |free| :: ChunkOk(free[i])
    ensures forall i | 0 <= i < |free| :: free[i].size >= 0 && free[i].addr > 0
  {
  }

  lemma Inserts(free: seq<Chunk>, c: Chunk)
    ensures Inserted(free, Insert(free, c), c, Position(free, c.addr))
  {
  }

  lemma JoinsAt(free: seq<Chunk>, i: nat)
    requires Joins(free, i)
    ensures Joined(free, Join(free, i), i)
  {
  }

  lemma JoinShape(free: seq<Chunk>, i: int, live: seq<Loan>, stale: set<int>)
    requires Shape(free, live, stale)
    ensures Shape(Join(free, i), live, stale)
  {
    var f := Join(free, i);
    Proofs.JoinSorted(free, i);
    Proofs.JoinOk(free, i);
    forall p | p in stale { Proofs.JoinSunk(free, i, p); }
    if Joins(free, i) {
      forall a | 0 <= a < |f|
        ensures f[a].End() <= TWO_64
        ensures forall j | 0 <= j < |live| :: Apart(f[a], live[j].chunk)
      {
        Proofs.JoinAt(free, i, a);
        forall j | 0 <= j < |live| ensures Apart(f[a], live[j].chunk) {
          assert Apart(free[a], live[j].chunk) && Apart(free[a + 1], live[j].chunk);
        }
      }
    }
  }

  lemma AbsorbedStored(m: Memory, m': Memory, head: int, free: seq<Chunk>, i: nat, live: seq<Loan>, stale: set<int>)
    requires Joins(free, i) && Shape(free, live, stale) && Stored(m, head, free, live, stale)
    requires Absorbed(m, m', free, i)
    ensures Stored(m', head, Join(free, i), live, stale) && PayloadsKept(live, m, m')
  {
    hide ChunkOk, Join, LinkAt, MarkedFree, Sunk, HeaderIs, Absorbed;
    var f := Join(free, i);
    Sizes(free);
    JoinsAt(free, i);
    forall j: nat | j < |f| ensures LinkAt(m', f, j) {
      AbsorbedLinked(m, m', free, f, i, j);
    }
    AbsorbedLent(m, m', free, i, live);
    forall p | p in stale ensures MarkedFree(m', p) {
      AbsorbedStale(m, m', free, i, p);
    }
  }

  lemma PlantedStored(m: Memory, m': Memory, head: int, head': int, free: seq<Chunk>, c: Chunk, live: seq<Loan>,
                      stale: set<int>)
    requires Shape(free, live, stale) && Stored(m, head, free, live, stale) && c.size >= 0
    requires forall i | 0 <= i < |free| :: Apart(free[i], c)
    requires forall j | 0 <= j < |live| :: Apart(c, live[j].chunk)
    requires var k := Position(free, c.addr); Planted(m, m', free, c, k) && head' == if k == 0 then c.addr else head
    ensures Stored(m', head', Insert(free, c), live, stale) && PayloadsKept(live, m, m')
  {
    hide ChunkOk, Insert, Position, LinkAt, MarkedFree, Sunk, HeaderIs, Planted;
    var f, k := Insert(free, c), Position(free, c.addr);
    Sizes(free);
    Inserts(free, c);
    forall i: nat | i < |f| ensures LinkAt(m', f, i) {
      PlantedLinked(m, m', free, f, c, k, i);
    }
    PlantedLent(m, m', free, c, k, live);
    forall p | p in stale ensures MarkedFree(m', p) {
      PlantedStale(m, m', free, c, k, p);
    }
  }

  lemma TakenStored(m: Memory, m': Memory, head: int, head': int, free: seq<Chunk>, live: seq<Loan>, stale: set<int>,
                    k: nat, n: int, want: u64)
    requires Shape(free, live, stale) && Stored(m, head, free, live, stale)
    requires k < |free| && 0 <= n <= free[k].size && Taken(m, m', free, k, n)
    requires head' == if k > 0 then head else if Splits(free[0], n) then Rest(free[0], n).addr else AddrAt(free, 1)
    ensures Stored(m', head', CarveList(free, k, n), live + [Loan(Front(free[k], n), want)], {})
    ensures PayloadsKept(live, m, m')
  {
    hide ChunkOk, CarveList, LinkAt, MarkedFree, Sunk;
    var f := CarveList(free, k, n);
    Sizes(free);
    Proofs.CarveAt(free, k, n);
    forall i: nat | i < |f| ensures LinkAt(m', f, i) {
      TakenLinked(m, m', free, f, k, n, i);
    }
    TakenLent(m, m', free, live, k, n);
  }

  lemma ModelBounds(h: HeapModel.Heap, hhdm: u64, p: PmmModel.Pmm)
    requires Inv(h) && PmmModel.Inv(p) && hhdm > 0 && hhdm % FRAME == 0 && hhdm + p.count * FRAME <= TWO_64
    requires MM.OwnedFrames(h.frames, hhdm, p.owned)
    ensures Shape(h.free, h.live, h.stale)
    ensures 0 <= UsedBytes(h.live) < TWO_64 && |h.frames| <= p.count
  {
    forall b | b in h.frames ensures hhdm <= b < hhdm + p.count * FRAME && b + FRAME <= TWO_64 {
      assert MM.FrameNo(b, hhdm) in p.free + p.owned;
    }
    Proofs.Below(h, TWO_64);
    Proofs.UsedFits(h, hhdm, p.count);
    assert forall j | 0 <= j < |h.live| :: LoanOk(h.live[j]);
  }

  lemma WrapSmall(x: int)
    requires 0 <= x < TWO_64
    ensures Wrap(x) == x
  {
  }

  /** The heap after lending stands on the same frames, keeps the invariant, and its count of bytes does not wrap. */
  lemma CarveFacts(h: HeapModel.Heap, hhdm: u64, p: PmmModel.Pmm, k: nat, want: u64)
    requires Inv(h) && PmmModel.Inv(p) && hhdm > 0 && hhdm % FRAME == 0 && hhdm + p.count * FRAME <= TWO_64
    requires MM.OwnedFrames(h.frames, hhdm, p.owned)
    requires k < |h.free| && want > 0 && RoundUp16(want) <= h.free[k].size
    ensures var n := RoundUp16(want); var g := Carve(h, k, n, want);
      Inv(g) && g.frames == h.frames && UsedBytes(g.live) == Wrap(UsedBytes(h.live) + Front(h.free[k], n).size)
  {
    var l := Loan(Front(h.free[k], RoundUp16(want)), want);
    Proofs.UsedBytesAppend(h.live, [l]);
    Proofs.OneLoan(l);
    Proofs.CarveKeeps(h, k, want);
    ModelBounds(Carve(h, k, RoundUp16(want), want), hhdm, p);
    WrapSmall(UsedBytes(Carve(h, k, RoundUp16(want), want).live));
  }

  /** `f` has `c` at its place in `free`, and the same chunk before it. */
  predicate Grown(free: seq<Chunk>, f: seq<Chunk>, c: Chunk) {
    var k := Position(free, c.addr);
    k < |f| && f[k] == c && (k > 0 ==> f[k - 1] == free[k - 1])
  }

  /** The frame just allocated is new to the heap, and growing by it keeps everything. */
  lemma GrowFacts(h: HeapModel.Heap, hhdm: u64, p: PmmModel.Pmm)
    requires Inv(h) && PmmModel.Inv(p) && hhdm > 0 && hhdm % FRAME == 0 && hhdm + p.count * FRAME <= TWO_64
    requires MM.OwnedFrames(h.frames, hhdm, p.owned) && PmmModel.Allocate(p).1.Returned?
    ensures var (q, r) := PmmModel.Allocate(p); var base := r.value + hhdm; var c := Chunk(base, MAX_REQUEST);
      && base > 0 && base % FRAME == 0 && base + FRAME <= TWO_64 && base !in h.frames && |h.frames| + 1 < TWO_64
      && (forall i | 0 <= i < |h.free| :: Apart(h.free[i], c))
      && (forall j | 0 <= j < |h.live| :: Apart(c, h.live[j].chunk))
      && Inv(Grow(h, base)) && MM.OwnedFrames(Grow(h, base).frames, hhdm, q.owned)
      && Grown(h.free, Grow(h, base).free, c)
  {
    hide Inv, Insert, Position, PmmModel.Allocate;
    PmmModel.AllocateIsLowest(p);
    var (q, r) := PmmModel.Allocate(p);
    var base := r.value + hhdm;
    assert r.value / FRAME in p.free + p.owned;
    ModelBounds(h, hhdm, p);
    Proofs.FrameIsFresh(h, base);
    Proofs.GrowKeeps(h, base);
    Inserts(h.free, Chunk(base, MAX_REQUEST));
  }

  lemma InsertShape(free: seq<Chunk>, c: Chunk, rest: seq<Loan>, stale: set<int>)
    requires Shape(free, rest, stale) && ChunkOk(c) && c.End() <= TWO_64
    requires forall i | 0 <= i < |free| :: Apart(free[i], c)
    requires forall j | 0 <= j < |rest| :: Apart(c, rest[j].chunk)
    ensures Shape(Insert(free, c), rest, stale + {c.addr})
  {
    var f := Insert(free, c);
    assert forall i | 0 <= i < |free| :: ChunkOk(free[i]);
    Proofs.InsertSorted(free, c);
    Proofs.InsertOk(free, c);
    forall i | 0 <= i < |f|
      ensures f[i].End() <= TWO_64 && forall j | 0 <= j < |rest| :: Apart(f[i], rest[j].chunk)
    {
      Proofs.InsertAt(free, c, i);
    }
    forall p | p in stale + {c.addr} { Proofs.InsertSunk(free, c, p); }
  }

  /** Where the returned block and its neighbours sit on the list, before and after the forward merge. */
  lemma JoinHeads(free: seq<Chunk>, c: Chunk)
    ensures var f0, k := Insert(free, c), Position(free, c.addr); var f1 := Join(f0, k);
      && k < |f0| && k < |f1| && f0[k] == c && f1[k].addr == c.addr && AddrAt(f0, k + 1) == AddrAt(free, k)
      && (k > 0 ==> f1[k - 1] == free[k - 1])
      && (k == 0 ==> Join(f1, -1) == f1)
      && (k == |free| ==> f1 == f0)
  {
  }

  /** Allocation forgets the stale headers. */
  lemma StoredFewer(m: Memory, head: int, free: seq<Chunk>, live: seq<Loan>, stale: set<int>)
    ensures Stored(m, head, free, live, stale) ==> Stored(m, head, free, live, {})
    ensures Shape(free, live, stale) ==> Shape(free, live, {})
  {
  }

  lemma StoredLoan(m: Memory, head: int, free: seq<Chunk>, live: seq<Loan>, stale: set<int>, j: nat)
    requires Stored(m, head, free, live, stale) && j < |live|
    ensures HeaderIs(m, live[j].chunk, 0, 0)
  {
  }

  /** Marking a lent block free disturbs nothing else. */
  lemma MarkedStored(m: Memory, m': Memory, head: int, free: seq<Chunk>, live: seq<Loan>, stale: set<int>, j: nat)
    requires j < |live| && m' == m[live[j].chunk.addr + IS_FREE := 1]
    requires Shape(free, live, stale) && Stored(m, head, free, live, stale)
    requires var c := live[j].chunk; forall i | 0 <= i < |live| && i != j :: Apart(c, live[i].chunk)
    ensures var rest := live[..j] + live[j + 1..];
      Shape(free, rest, stale) && Stored(m', head, free, rest, stale) && PayloadsKept(rest, m, m')
  {
    var c, rest := live[j].chunk, live[..j] + live[j + 1..];
    assert forall i | 0 <= i < |free| :: ChunkOk(free[i]);
    assert forall i | 0 <= i < |rest| :: rest[i] == live[if i < j then i else i + 1];
    Undisturbed(m, m', c, free, rest);
    forall p | p in stale ensures MarkedFree(m', p) {
      assert Sunk(free, p);
      var i :| 0 <= i < |free| && (p == free[i].addr || (free[i].addr + HEADER <= p && p + HEADER <= free[i].End()));
      assert Apart(free[i], c);
    }
  }

  /** A pointer below `HEADER` wraps to a place that no header, lent or stale, has. */
  lemma HeaderPlace(h: HeapModel.Heap, hhdm: u64, p: PmmModel.Pmm, pointer: u64)
    requires Inv(h) && PmmModel.Inv(p) && hhdm > 0 && hhdm % FRAME == 0 && hhdm + p.count * FRAME <= TWO_64
    requires MM.OwnedFrames(h.frames, hhdm, p.owned) && pointer > 0
    ensures var block := Wrap(pointer - HEADER);
      if pointer >= HEADER then block == pointer - HEADER
      else
        && MM.LoanAt(h.live, block) == MM.LoanAt(h.live, pointer - HEADER) == |h.live|
        && block !in h.stale && pointer - HEADER !in h.stale
  {
    var block := Wrap(pointer - HEADER);
    if pointer < HEADER {
      assert block + HEADER > TWO_64;
      ModelBounds(h, hhdm, p);
      forall p | p in h.stale ensures 0 < p <= TWO_64 - HEADER {
        SunkBounds(h.free, p);
      }
      forall j | 0 <= j < |h.live| ensures 0 < h.live[j].chunk.addr <= TWO_64 - HEADER {
        LoanFacts(h, hhdm, p, j);
      }
    }
    hide Wrap, Inv, PmmModel.Inv, Shape;
  }

  lemma SunkBounds(free: seq<Chunk>, p: int)
    requires Sunk(free, p) && forall i | 0 <= i < |free| :: ChunkOk(free[i]) && free[i].End() <= TWO_64
    ensures 0 < p <= TWO_64 - HEADER
  {
  }

  /** A loan's block keeps clear of everything else. */
  lemma LoanFacts(h: HeapModel.Heap, hhdm: u64, p: PmmModel.Pmm, j: nat)
    requires Inv(h) && PmmModel.Inv(p) && hhdm + p.count * FRAME <= TWO_64
    requires MM.OwnedFrames(h.frames, hhdm, p.owned) && j < |h.live|
    ensures var c := h.live[j].chunk;
      && ChunkOk(c) && c.End() <= TWO_64
      && (forall i | 0 <= i < |h.free| :: Apart(h.free[i], c))
      && (forall i | 0 <= i < |h.live| && i != j :: Apart(c, h.live[i].chunk))
  {
    assert LoanOk(h.live[j]);
    forall b | b in h.frames ensures b + FRAME <= TWO_64 {
      assert MM.FrameNo(b, hhdm) in p.free + p.owned;
    }
    Proofs.Below(h, TWO_64);
  }

  /** Ending loan `j` keeps the invariant, and its bytes come off the count without wrapping. */
  lemma ReleaseFacts(h: HeapModel.Heap, hhdm: u64, p: PmmModel.Pmm, j: nat)
    requires Inv(h) && PmmModel.Inv(p) && hhdm > 0 && hhdm % FRAME == 0 && hhdm + p.count * FRAME <= TWO_64
    requires MM.OwnedFrames(h.frames, hhdm, p.owned) && j < |h.live|
    ensures Inv(Release(h, j)) && UsedBytes(Release(h, j).live) == Wrap(UsedBytes(h.live) - h.live[j].chunk.size)
  {
    hide Inv, PutBack, Wrap, PmmModel.Inv;
    Proofs.ReleaseKeeps(h, j);
    Proofs.UsedBytesDrop(h.live, j);
    ModelBounds(Release(h, j), hhdm, p);
    WrapSmall(UsedBytes(Release(h, j).live));
  }

  /** A payload word is no part of any header that matters. */
  lemma StoreKeeps(m: Memory, m': Memory, head: int, free: seq<Chunk>, live: seq<Loan>, stale: set<int>,
                   j: nat, address: int, value: u64)
    requires j < |live| && InPayload(live[j].chunk, address) && m' == m[address := value]
    requires Shape(free, live, stale) && Stored(m, head, free, live, stale)
    requires forall i | 0 <= i < |live| && i != j :: Apart(live[j].chunk, live[i].chunk)
    ensures Stored(m', head, free, live, stale)
  {
    hide ChunkOk, Sorted;
    var c := live[j].chunk;
    Sizes(free);
    forall i: nat | i < |free| ensures LinkAt(m', free, i) {
      assert LinkAt(m, free, i) && Apart(free[i], c);
    }
    forall i | 0 <= i < |live| ensures HeaderIs(m', live[i].chunk, 0, 0) {
      assert i != j ==> Apart(c, live[i].chunk);
    }
    forall p | p in stale ensures MarkedFree(m', p) {
      assert Sunk(free, p);
      var i :| 0 <= i < |free| && (p == free[i].addr || (free[i].addr + HEADER <= p && p + HEADER <= free[i].End()));
      assert Apart(free[i], c);
    }
  }

  lemma KeptSame(live: seq<Loan>, m: Memory)
    ensures PayloadsKept(live, m, m)
  {
  }

  lemma KeptTwice(live: seq<Loan>, m0: Memory, m1: Memory, m2: Memory)
    requires PayloadsKept(live, m0, m1) && PayloadsKept(live, m1, m2)
    ensures PayloadsKept(live, m0, m2)
  {
  }

  // --- where the heap writes ------------------------------------------------------------

  /** Every word outside the chunks of this list is as it was, and none appeared. */
  ghost predicate KeptOutside(free: seq<Chunk>, m: Memory, m': Memory) {
    && (forall a | a in m && !InFree(free, a) :: a in m' && m'[a] == m[a])
    && (forall a | a in m' && !InFree(free, a) :: a in m)
  }

  /** Every word outside these frames is as it was, and none appeared. */
  ghost predicate KeptBeyond(frames: set<int>, m: Memory, m': Memory) {
    && (forall a | a in m && PageOf(a) !in frames :: a in m' && m'[a] == m[a])
    && (forall a | a in m' && PageOf(a) !in frames :: a in m)
  }

  lemma OutsideTwice(free: seq<Chunk>, m0: Memory, m1: Memory, m2: Memory)
    requires KeptOutside(free, m0, m1) && KeptOutside(free, m1, m2)
    ensures KeptOutside(free, m0, m2)
  {
  }

  lemma BeyondTwice(frames: set<int>, m0: Memory, m1: Memory, m2: Memory)
    requires KeptBeyond(frames, m0, m1) && KeptBeyond(frames, m1, m2)
    ensures KeptBeyond(frames, m0, m2)
  {
  }

  lemma OutsideNone(free: seq<Chunk>, m: Memory)
    ensures KeptOutside(free, m, m)
  {
  }

  /** What an allocation knows of the block it found and of the block before it. */
  lemma BlockFacts(m: Memory, head: int, free: seq<Chunk>, k: nat, live: seq<Loan>, stale: set<int>)
    requires k < |free| && Shape(free, live, stale) && Stored(m, head, free, live, stale)
    ensures LinkAt(m, free, k) && free[k].End() <= TWO_64 && head == AddrAt(free, 0)
    ensures forall i | 0 <= i < |free| :: free[i].size >= 0
    ensures k > 0 ==> free[k - 1].addr > 0 && free[k - 1].End() <= free[k].addr
  {
    Sizes(free);
  }

  /** What a merge reads of two neighbours on the list. */
  lemma NeighbourFacts(m: Memory, head: int, free: seq<Chunk>, i: nat, live: seq<Loan>, stale: set<int>)
    requires i + 1 < |free| && Shape(free, live, stale) && Stored(m, head, free, live, stale)
    ensures LinkAt(m, free, i) && LinkAt(m, free, i + 1)
    ensures free[i].addr > 0 && free[i].size >= 0 && free[i].End() <= TWO_64
    ensures free[i + 1].size >= 0 && free[i + 1].End() <= TWO_64
    ensures free[i].addr in m && (Wrap(free[i].addr + HEADER + m[free[i].addr]) == free[i + 1].addr <==> Joins(free, i))
  {
    assert ChunkOk(free[i]) && ChunkOk(free[i + 1]) && LinkAt(m, free, i) && LinkAt(m, free, i + 1);
    assert free[i].End() <= free[i + 1].addr < TWO_64;
    WrapSmall(free[i].End());
    hide Wrap;
  }

  lemma BeyondSame(frames: set<int>, m: Memory)
    ensures KeptBeyond(frames, m, m)
  {
  }

  lemma JoinedBytes(free: seq<Chunk>, i: int, live: seq<Loan>, stale: set<int>)
    requires Shape(free, live, stale)
    ensures forall x: int :: InFree(Join(free, i), x) <==> InFree(free, x)
  {
    Sizes(free);
    Proofs.JoinBytes(free, i);
  }

  /** Marking loan `j` free and writing inside the free chunks and its own stays in the heap's frames. */
  lemma MarkedBeyond(h: HeapModel.Heap, j: nat, m: Memory, m1: Memory, m2: Memory)
    requires Inv(h) && j < |h.live| && m1 == m[h.live[j].chunk.addr + IS_FREE := 1]
    requires KeptOutside(Insert(h.free, h.live[j].chunk), m1, m2)
    ensures KeptBeyond(h.frames, m, m2)
  {
    var c := h.live[j].chunk;
    var f := Insert(h.free, c);
    assert ChunkOk(c) by { assert LoanOk(h.live[j]); }
    Proofs.InsertBytes(h.free, c);
    assert c.Holds(c.addr + IS_FREE);
    forall x: int | InFree(f, x) ensures InFree(h.free, x) || InLive(h.live, x) {
      assert c.Holds(x) ==> InLive(h.live, x);
    }
    hide Inv, InFree, InLive, Insert;
    OutsideTwice(f, m, m1, m2);
    OutsideIsBeyond(h, f, m, m2);
  }

  lemma OutsideSame(free: seq<Chunk>, f: seq<Chunk>, m: Memory, m': Memory)
    requires KeptOutside(f, m, m') && forall x: int :: InFree(f, x) ==> InFree(free, x)
    ensures KeptOutside(free, m, m')
  {
  }

  /** Free chunks and the chunk being returned lie in the heap's frames, so writes inside them stay there. */
  lemma OutsideIsBeyond(h: HeapModel.Heap, f: seq<Chunk>, m: Memory, m': Memory)
    requires Inv(h) && KeptOutside(f, m, m')
    requires forall x: int :: InFree(f, x) ==> InFree(h.free, x) || InLive(h.live, x)
    ensures KeptBeyond(h.frames, m, m')
  {
    hide Ordered, LoansApart, Balanced, InFree, InLive, PageOf;
    assert Tiles(h);
  }

  lemma TakenOutside(m: Memory, m': Memory, free: seq<Chunk>, k: nat, n: int)
    requires k < |free| && Taken(m, m', free, k, n) && forall i | 0 <= i < |free| :: free[i].size >= 0
    ensures KeptOutside(free, m, m')
  {
    assert forall a | free[k].Holds(a) :: InFree(free, a);
    assert k > 0 ==> free[k - 1].Holds(free[k - 1].addr + NEXT) && InFree(free, free[k - 1].addr + NEXT);
    hide InFree;
  }

  /** The list with `c` put in covers `c` and the old list. */
  lemma InsertCovers(free: seq<Chunk>, c: Chunk, x: int)
    requires c.Holds(x) || InFree(free, x)
    ensures InFree(Insert(free, c), x)
  {
    Proofs.InsertBytes(free, c);
  }

  lemma ChunkOutside(m: Memory, m': Memory, free: seq<Chunk>, c: Chunk)
    requires forall a | a in m && !c.Holds(a) :: a in m' && m'[a] == m[a]
    requires forall a | a in m' && !c.Holds(a) :: a in m
    ensures KeptOutside(Insert(free, c), m, m')
  {
    forall a | c.Holds(a) ensures InFree(Insert(free, c), a) { InsertCovers(free, c, a); }
    hide InFree, Insert, Position;
  }

  /** Nothing but two words inside the list's chunks was written. */
  lemma WordsOutside(m: Memory, m': Memory, free: seq<Chunk>, x: int, y: int)
    requires forall a | a in m && a != x && a != y :: a in m' && m'[a] == m[a]
    requires forall a | a in m' && a != x && a != y :: a in m
    requires InFree(free, x) && InFree(free, y)
    ensures KeptOutside(free, m, m')
  {
    hide InFree;
  }

  lemma PlantedOutside(m: Memory, m': Memory, free: seq<Chunk>, c: Chunk)
    requires Planted(m, m', free, c, Position(free, c.addr)) && c.size >= 0
    requires forall i | 0 <= i < |free| :: free[i].size >= 0
    ensures KeptOutside(Insert(free, c), m, m')
  {
    hide Insert, HeaderIs, KeptOutside;
    var k, x := Position(free, c.addr), c.addr + NEXT;
    var y := if k > 0 then free[k - 1].addr + NEXT else x;
    assert k > 0 ==> free[k - 1].Holds(y);
    InsertCovers(free, c, x);
    InsertCovers(free, c, y);
    WordsOutside(m, m', Insert(free, c), x, y);
  }

  lemma AbsorbedOutside(m: Memory, m': Memory, free: seq<Chunk>, i: nat)
    requires Joins(free, i) && Absorbed(m, m', free, i) && free[i].size >= 0
    ensures KeptOutside(free, m, m')
  {
    var a := free[i].addr;
    assert free[i].Holds(a) && free[i].Holds(a + NEXT) && InFree(free, a) && InFree(free, a + NEXT);
    hide InFree;
  }
}
