/** `kmalloc` and `kfree` over headers stored in memory words. */
module HeapCode {
  import opened Machine
  import opened HeapModel
  import opened HeapMemory
  import PmmModel
  import PmmCode
  import MM = MemoryModel
  import Proofs = HeapProofs

  class Heap {
    const pmm: PmmCode.Pmm
    var hhdm: u64
    var ready: bool
    var used: u64
    var frameCount: u64
    var head: u64
    var mem: Memory
    ghost var model: HeapModel.Heap

    constructor (pmm: PmmCode.Pmm)
      ensures this.pmm == pmm && !ready
    {
      this.pmm := pmm;
      hhdm, ready, used, frameCount, head, mem, model := 0, false, 0, 0, 0, map[], EMPTY;
    }

    /** The heap's frames are mapped below 2^64 and owned in the frame allocator. */
    ghost predicate Backed()
      requires pmm.Valid()
      reads this, pmm, pmm.bitmap, pmm.owners
    {
      && hhdm > 0 && hhdm % FRAME == 0 && hhdm + pmm.frameCount * FRAME <= TWO_64
      && MM.OwnedFrames(model.frames, hhdm, pmm.Model().owned)
    }

    /** The words in memory and the counters say what the model says. */
    ghost predicate Coherent()
      reads this
    {
      && Stored(mem, head, model.free, model.live, model.stale)
      && used == UsedBytes(model.live) && frameCount == |model.frames|
    }

    ghost predicate Valid()
      reads this, pmm, pmm.bitmap, pmm.owners
    {
      ready && pmm.Valid() && Backed() && Inv(model) && Coherent()
    }

    method Init(hhdmOffset: u64)
      requires pmm.Valid() && hhdmOffset > 0 && hhdmOffset % FRAME == 0
      requires hhdmOffset + pmm.frameCount * FRAME <= TWO_64
      modifies this
      ensures Valid() && model == EMPTY && mem == old(mem) && hhdm == hhdmOffset
    {
      hhdm, ready, used, frameCount, head := hhdmOffset, true, 0, 0, 0;
      model := EMPTY;
    }

    /** Walk the list to the first block that is marked free and large enough. */
    method FindFit(size: u64) returns (previous: u64, block: u64)
      requires Linked(mem, model.free) && head == AddrAt(model.free, 0)
      requires forall i | 0 <= i < |model.free| :: model.free[i].addr > 0
      ensures var k := FirstFit(model.free, size);
        block == AddrAt(model.free, k) && previous == if k == 0 then 0 else model.free[k - 1].addr
    {
      previous, block := 0, head;
      ghost var k := 0;
      while block != 0
        invariant k <= |model.free| && block == AddrAt(model.free, k)
        invariant previous == if k == 0 then 0 else model.free[k - 1].addr
        invariant FirstFit(model.free, size) == FirstFit(model.free, size, k)
        decreases |model.free| - k
      {
        assert LinkAt(mem, model.free, k);
        if mem[block + IS_FREE] == 1 && mem[block] >= size {
          break;
        }
        previous, block := block, mem[block + NEXT];
        k := k + 1;
      }
      assert block == 0 ==> k == |model.free|;
    }

    /** Walk the list to the first block at or after `address`. */
    method FindPlace(address: u64) returns (previous: u64, block: u64)
      requires Linked(mem, model.free) && head == AddrAt(model.free, 0)
      requires forall i | 0 <= i < |model.free| :: model.free[i].addr > 0
      ensures var k := Position(model.free, address);
        block == AddrAt(model.free, k) && previous == if k == 0 then 0 else model.free[k - 1].addr
    {
      previous, block := 0, head;
      ghost var k := 0;
      while block != 0 && block < address
        invariant k <= |model.free| && block == AddrAt(model.free, k)
        invariant previous == if k == 0 then 0 else model.free[k - 1].addr
        invariant forall i | 0 <= i < k :: model.free[i].addr < address
        decreases |model.free| - k
      {
        assert LinkAt(mem, model.free, k);
        previous, block := block, mem[block + NEXT];
        k := k + 1;
      }
      Proofs.PositionIs(model.free, address, k);
    }

    /** Write the whole header of a free block. */
    method WriteHeader(block: u64, size: u64, next: u64)
      modifies `mem
      ensures HeaderIs(mem, Chunk(block, size), next, 1)
      ensures mem[block] == size && mem[block + 8] == next && mem[block + 16] == 1 && mem[block + 24] == 0x4B424D48
      ensures forall a | a in old(mem) && !(block <= a < block + HEADER) :: a in mem && mem[a] == old(mem)[a]
      ensures forall a | a in mem && !(block <= a < block + HEADER) :: a in old(mem)
    {
      mem := mem[block := size];
      mem := mem[block + NEXT := next];
      mem := mem[block + IS_FREE := 1];
      mem := mem[block + MAGIC_AT := MAGIC];
    }

    /** Turn the end of the block into a block of its own that takes its place on the list. */
    method SplitBlock(previous: u64, block: u64, size: u64)
      requires HasHeader(mem, block) && mem[block] - size >= HEADER + 16
      requires block + HEADER + mem[block] <= TWO_64
      requires previous != 0 ==> previous + HEADER <= block
      modifies `mem, `head
      ensures var rest := block + HEADER + size;
        && HeaderIs(mem, Chunk(rest, old(mem[block]) - size - HEADER), old(mem[block + NEXT]), 1)
        && HasHeader(mem, block) && mem[block] == size && mem[block + MAGIC_AT] == old(mem[block + MAGIC_AT])
        && (if previous == 0 then head == rest
            else head == old(head) && previous + NEXT in mem && mem[previous + NEXT] == rest)
        && (forall a | a in old(mem) && !(block <= a < block + HEADER) && !(rest <= a < rest + HEADER)
                       && !(previous != 0 && a == previous + NEXT) :: a in mem && mem[a] == old(mem[a]))
        && (forall a | a in mem && !(block <= a < block + HEADER) && !(rest <= a < rest + HEADER)
                       && !(previous != 0 && a == previous + NEXT) :: a in old(mem))
    {
      var remaining := mem[block] - size;
      var newBlock: u64 := block + HEADER + size;
      WriteHeader(newBlock, remaining - HEADER, mem[block + NEXT]);
      if previous == 0 {
        head := newBlock;
      } else {
        mem := mem[previous + NEXT := newBlock];
      }
      mem := mem[block := size];
    }

    /** Take the whole block off the list. */
    method UnlinkBlock(previous: u64, block: u64)
      requires HasHeader(mem, block)
      modifies `mem, `head
      ensures if previous == 0 then head == old(mem)[block + NEXT] && mem == old(mem)
              else head == old(head) && mem == old(mem)[previous + NEXT := old(mem)[block + NEXT]]
    {
      if previous == 0 {
        head := mem[block + NEXT];
      } else {
        mem := mem[previous + NEXT := mem[block + NEXT]];
      }
    }

    /** Split or unlink the block that was found. */
    method DetachBlock(previous: u64, block: u64, size: u64, ghost k: nat)
      requires k < |model.free| && LinkAt(mem, model.free, k) && size <= model.free[k].size
      requires block == model.free[k].addr && previous == if k == 0 then 0 else model.free[k - 1].addr
      requires model.free[k].End() <= TWO_64
      requires k > 0 ==> previous > 0 && model.free[k - 1].size >= 0 && model.free[k - 1].End() <= block
      modifies `mem, `head
      ensures Detached(old(mem), mem, model.free, k, size)
      ensures head == if k > 0 then old(head)
                      else if Splits(model.free[0], size) then Rest(model.free[0], size).addr
                      else AddrAt(model.free, 1)
    {
      var remaining := Wrap(mem[block] - size);
      if remaining >= HEADER + 16 {
        SplitBlock(previous, block, size);
      } else {
        UnlinkBlock(previous, block);
      }
    }

    /** Take the block that was found, mark it lent and charge it. */
    method TakeBlock(previous: u64, block: u64, size: u64, ghost k: nat)
      requires k < |model.free| && LinkAt(mem, model.free, k) && size <= model.free[k].size
      requires block == model.free[k].addr && previous == if k == 0 then 0 else model.free[k - 1].addr
      requires model.free[k].End() <= TWO_64
      requires k > 0 ==> previous > 0 && model.free[k - 1].size >= 0 && model.free[k - 1].End() <= block
      modifies `mem, `head, `used
      ensures Taken(old(mem), mem, model.free, k, size)
      ensures head == if k > 0 then old(head)
                      else if Splits(model.free[0], size) then Rest(model.free[0], size).addr
                      else AddrAt(model.free, 1)
      ensures used == Wrap(old(used) + Front(model.free[k], size).size)
    {
      hide Detached, Taken, LinkAt, Splits, Front, Rest;
      DetachBlock(previous, block, size, k);
      MarkTaken(old(mem), mem, model.free, k, size);
      mem := mem[block + IS_FREE := 0];
      mem := mem[block + NEXT := 0];
      used := Wrap(used + mem[block]);
    }

    /** Put a block that is marked free on the list, in address order. */
    method LinkBlock(block: u64, ghost c: Chunk) returns (previous: u64)
      requires block == c.addr && block in mem && block + IS_FREE in mem && block + MAGIC_AT in mem
      requires mem[block] == c.size && mem[block + IS_FREE] == 1 && mem[block + MAGIC_AT] == MAGIC
      requires Linked(mem, model.free) && head == AddrAt(model.free, 0)
      requires forall i | 0 <= i < |model.free| ::
        model.free[i].addr > 0 && model.free[i].size >= 0 && Apart(model.free[i], c)
      requires c.size >= 0
      modifies `mem, `head
      ensures Planted(old(mem), mem, model.free, c, Position(model.free, block))
      ensures var k := Position(model.free, block);
        && previous == (if k == 0 then 0 else model.free[k - 1].addr)
        && head == (if k == 0 then block else old(head))
    {
      var current;
      previous, current := FindPlace(block);
      ghost var k := Position(model.free, block);
      assert k > 0 ==> Apart(model.free[k - 1], c);
      mem := mem[block + NEXT := current];
      if previous == 0 {
        head := block;
      } else {
        mem := mem[previous + NEXT := block];
      }
    }

    /** `block` absorbs the next block on the list: `next` ends up inside it. */
    method Absorb(block: u64, next: u64, ghost f: seq<Chunk>, ghost i: nat)
      requires Joins(f, i) && LinkAt(mem, f, i) && LinkAt(mem, f, i + 1)
      requires block == f[i].addr && next == f[i + 1].addr
      requires f[i].size >= 0 && f[i + 1].size >= 0 && f[i].addr > 0 && f[i + 1].End() <= TWO_64
      modifies `mem
      ensures Absorbed(old(mem), mem, f, i)
    {
      mem := mem[block := Wrap(mem[block] + HEADER + mem[next])];
      mem := mem[block + NEXT := mem[next + NEXT]];
    }

    /** If `first` ends exactly where the next listed block `second` begins, combine them. */
    method MergeInto(first: u64, second: u64, ghost f: seq<Chunk>, ghost i: nat, ghost live: seq<Loan>,
                     ghost stale: set<int>)
      requires i + 1 < |f| && first == f[i].addr && second == f[i + 1].addr
      requires Shape(f, live, stale) && Stored(mem, head, f, live, stale)
      modifies `mem
      ensures Shape(Join(f, i), live, stale) && Stored(mem, head, Join(f, i), live, stale)
      ensures PayloadsKept(live, old(mem), mem) && KeptOutside(f, old(mem), mem)
    {
      hide Shape, Stored, Linked, LinkAt, PayloadsKept, KeptOutside, InFree, Absorbed, Wrap, Joins;
      JoinShape(f, i, live, stale);
      KeptSame(live, mem);
      OutsideNone(f, mem);
      NeighbourFacts(mem, head, f, i, live, stale);
      if Wrap(first + HEADER + mem[first]) == second {
        Absorb(first, second, f, i);
        AbsorbedOutside(old(mem), mem, f, i);
        AbsorbedStored(old(mem), mem, head, f, i, live, stale);
      }
    }

    /** The header of a fresh frame, away from every block so far: one free block. */
    method WriteFrameHeader(base: u64)
      requires Shape(model.free, model.live, {}) && Stored(mem, head, model.free, model.live, {})
      requires forall i | 0 <= i < |model.free| :: Apart(model.free[i], Chunk(base, MAX_REQUEST))
      requires forall j | 0 <= j < |model.live| :: Apart(Chunk(base, MAX_REQUEST), model.live[j].chunk)
      modifies `mem
      ensures base in mem && base + IS_FREE in mem && base + MAGIC_AT in mem
      ensures mem[base] == MAX_REQUEST && mem[base + IS_FREE] == 1 && mem[base + MAGIC_AT] == MAGIC
      ensures Stored(mem, head, model.free, model.live, {})
      ensures PayloadsKept(model.live, old(mem), mem)
      ensures KeptOutside(Insert(model.free, Chunk(base, MAX_REQUEST)), old(mem), mem)
    {
      Sizes(model.free);
      hide Linked, Lent, PayloadsKept, KeptOutside, Insert, Apart;
      mem := mem[base := FRAME - HEADER];
      mem := mem[base + IS_FREE := 1];
      mem := mem[base + MAGIC_AT := MAGIC];
      Undisturbed(old(mem), mem, Chunk(base, MAX_REQUEST), model.free, model.live);
      ChunkOutside(old(mem), mem, model.free, Chunk(base, MAX_REQUEST));
    }

    /** Write the header of a fresh frame and link it in, without merging. */
    method GrowHeap(base: u64) returns (previous: u64)
      requires Shape(model.free, model.live, {}) && Stored(mem, head, model.free, model.live, {})
      requires forall i | 0 <= i < |model.free| :: Apart(model.free[i], Chunk(base, MAX_REQUEST))
      requires forall j | 0 <= j < |model.live| :: Apart(Chunk(base, MAX_REQUEST), model.live[j].chunk)
      requires base > 0 && base % FRAME == 0 && base + FRAME <= TWO_64
      modifies `mem, `head, `frameCount
      ensures Stored(mem, head, Insert(model.free, Chunk(base, MAX_REQUEST)), model.live, {})
      ensures var k := Position(model.free, base); previous == if k == 0 then 0 else model.free[k - 1].addr
      ensures PayloadsKept(model.live, old(mem), mem) && frameCount == Wrap(old(frameCount) + 1)
      ensures KeptOutside(Insert(model.free, Chunk(base, MAX_REQUEST)), old(mem), mem)
    {
      hide Shape, Stored, Insert, PayloadsKept, KeptOutside, Position, Apart;
      ghost var c := Chunk(base, MAX_REQUEST);
      WriteFrameHeader(base);
      ghost var m1 := mem;
      previous := PlaceBlock(base, c, model.free, model.live, {});
      StoredFewer(mem, head, Insert(model.free, c), model.live, {} + {base});
      KeptTwice(model.live, old(mem), m1, mem);
      OutsideTwice(Insert(model.free, c), old(mem), m1, mem);
      frameCount := Wrap(frameCount + 1);
    }

    /** What the invariant says about shapes, addresses and counters. */
    lemma Bounds()
      requires Valid()
      ensures Shape(model.free, model.live, model.stale)
      ensures UsedBytes(model.live) < TWO_64 && |model.frames| <= pmm.frameCount
    {
      ModelBounds(model, hhdm, pmm.Model());
    }

    /** Lend the block that was found: `model` is the heap before. */
    method Lend(previous: u64, block: u64, size: u64, ghost k: nat, ghost want: u64)
      requires Shape(model.free, model.live, model.stale) && Stored(mem, head, model.free, model.live, model.stale)
      requires k < |model.free|
      requires block == model.free[k].addr && previous == if k == 0 then 0 else model.free[k - 1].addr
      requires want > 0 && size == RoundUp16(want) <= model.free[k].size
      modifies `mem, `head, `used
      ensures var g := Carve(model, k, size, want);
        Stored(mem, head, g.free, g.live, {}) && used == Wrap(old(used) + Front(model.free[k], size).size)
      ensures PayloadsKept(model.live, old(mem), mem) && KeptOutside(model.free, old(mem), mem)
    {
      hide Stored, Shape, LinkAt, Taken, KeptOutside, PayloadsKept, Splits, Rest, Wrap, RoundUp16;
      BlockFacts(mem, head, model.free, k, model.live, model.stale);
      TakeBlock(previous, block, size, k);
      TakenStored(old(mem), mem, old(head), head, model.free, model.live, model.stale, k, size, want);
      TakenOutside(old(mem), mem, model.free, k, size);
    }

    /** Add the frame at `base` to the heap. */
    method Expand(base: u64) returns (previous: u64)
      requires Coherent() && Shape(model.free, model.live, model.stale)
      requires forall i | 0 <= i < |model.free| :: Apart(model.free[i], Chunk(base, MAX_REQUEST))
      requires forall j | 0 <= j < |model.live| :: Apart(Chunk(base, MAX_REQUEST), model.live[j].chunk)
      requires base > 0 && base % FRAME == 0 && base + FRAME <= TWO_64
      requires base !in model.frames && |model.frames| + 1 < TWO_64
      modifies `mem, `head, `frameCount, `model
      ensures Coherent() && model == Grow(old(model), base) && model.live == old(model).live
      ensures var k := Position(old(model).free, base); previous == if k == 0 then 0 else old(model).free[k - 1].addr
      ensures PayloadsKept(model.live, old(mem), mem) && KeptOutside(model.free, old(mem), mem)
    {
      StoredFewer(mem, head, model.free, model.live, model.stale);
      hide Stored, Shape, Insert, PayloadsKept, KeptOutside, Position, Apart;
      previous := GrowHeap(base);
      model := Grow(model, base);
    }

    /** Grow the heap by one frame; its block is the one to take. */
    method GrowByFrame() returns (r: Outcome<()>, previous: u64, block: u64, ghost k: nat)
      requires Valid()
      modifies `mem, `head, `frameCount, `model, pmm`next, pmm.bitmap, pmm.owners
      ensures Valid() && pmm.Model() == PmmModel.Allocate(old(pmm.Model())).0
      ensures var frame := PmmModel.Allocate(old(pmm.Model())).1;
        if frame.Panicked? then r == Panicked(frame.reason) && model == old(model)
        else
          && r == Returned(()) && block == frame.value + hhdm && model == Grow(old(model), block)
          && k == Position(old(model).free, block)
          && k < |model.free| && model.free[k] == Chunk(block, MAX_REQUEST)
          && previous == if k == 0 then 0 else model.free[k - 1].addr
      ensures model.live == old(model).live && PayloadsKept(model.live, old(mem), mem)
      ensures KeptBeyond(model.frames, old(mem), mem)
    {
      hide Inv, Grow, PayloadsKept, KeptOutside, KeptBeyond, PmmModel.Inv, PmmModel.Allocate, Shape, Stored, Position;
      Bounds();
      ghost var p := pmm.Model();
      PmmModel.AllocateIsLowest(p);
      var frame := pmm.AllocateFrame();
      if frame.Panicked? {
        KeptSame(model.live, mem);
        BeyondSame(model.frames, mem);
        return Panicked(frame.reason), 0, 0, 0;
      }
      var base := frame.value + hhdm;
      GrowFacts(model, hhdm, p);
      k := Position(model.free, base);
      block := base;
      previous := Expand(base);
      OutsideIsBeyond(model, model.free, old(mem), mem);
      r := Returned(());
    }

    /** Find a block that fits, growing the heap by one frame if there is none. */
    method Obtain(size: u64) returns (r: Outcome<()>, previous: u64, block: u64, ghost k: nat)
      requires Valid() && size <= MAX_REQUEST
      modifies `mem, `head, `frameCount, `model, pmm`next, pmm.bitmap, pmm.owners
      ensures Valid() && (model, pmm.Model(), r) == MM.Obtain(old(model), old(pmm.Model()), hhdm, size)
      ensures r.Returned? ==>
        && k < |model.free| && block == model.free[k].addr && size <= model.free[k].size
        && k == MM.ObtainedAt(old(model), old(pmm.Model()), hhdm, size)
        && previous == if k == 0 then 0 else model.free[k - 1].addr
      ensures model.live == old(model).live && PayloadsKept(model.live, old(mem), mem)
      ensures KeptBeyond(model.frames, old(mem), mem)
    {
      hide Inv, PmmModel.Inv, Grow, PmmModel.Allocate, PayloadsKept, KeptBeyond, Position, Lent, MarkedFree;
      Bounds();
      k := FirstFit(model.free, size);
      Sizes(model.free);
      KeptSame(model.live, mem);
      BeyondSame(model.frames, mem);
      previous, block := FindFit(size);
      hide Stored, Linked, Shape;
      r := Returned(());
      if block == 0 {
        r, previous, block, k := GrowByFrame();
      }
    }

    /** Lend the block that was found and charge it. */
    method Charge(previous: u64, block: u64, size: u64, ghost k: nat, ghost want: u64)
      requires Coherent() && Shape(model.free, model.live, model.stale) && k < |model.free|
      requires block == model.free[k].addr && previous == if k == 0 then 0 else model.free[k - 1].addr
      requires want > 0 && size == RoundUp16(want) <= model.free[k].size
      requires UsedBytes(Carve(model, k, size, want).live)
            == Wrap(UsedBytes(model.live) + Front(model.free[k], size).size)
      modifies `mem, `head, `used, `model
      ensures Coherent() && model == Carve(old(model), k, size, want)
      ensures PayloadsKept(old(model).live, old(mem), mem) && KeptOutside(old(model).free, old(mem), mem)
    {
      hide KeptOutside;
      Lend(previous, block, size, k, want);
      model := Carve(model, k, size, want);
    }

    /** Obtain a block for a checked request and lend it. */
    method Allocate(size: u64, want: u64) returns (r: Outcome<int>)
      requires Valid() && want > 0 && size == RoundUp16(want) <= MAX_REQUEST
      modifies `mem, `head, `used, `frameCount, `model, pmm`next, pmm.bitmap, pmm.owners
      ensures Valid() && (model, pmm.Model(), r) == MM.Kmalloc(old(model), old(pmm.Model()), hhdm, want)
      ensures PayloadsKept(old(model).live, old(mem), mem) && KeptBeyond(model.frames, old(mem), mem)
    {
      hide Inv, RoundUp16, Wrap, Carve, Grow, MM.Obtain, MM.ObtainedAt, PmmModel.Inv, PmmModel.Allocate, Stored, Shape,
           PmmCode.Pmm.Shaped, PayloadsKept, KeptOutside, KeptBeyond;
      var got, previous, block, k := Obtain(size);
      if got.Panicked? {
        return Panicked(got.reason);
      }
      Bounds();
      CarveFacts(model, hhdm, pmm.Model(), k, want);
      ghost var h, m1 := model, mem;
      Charge(previous, block, size, k, want);
      OutsideIsBeyond(h, h.free, m1, mem);
      BeyondTwice(h.frames, old(mem), m1, mem);
      r := Returned(Wrap(block + HEADER));
      KeptTwice(old(model).live, old(mem), m1, mem);
    }

    method Kmalloc(want: u64) returns (r: Outcome<int>)
      requires ready ==> Valid()
      modifies `mem, `head, `used, `frameCount, `model, pmm`next, pmm.bitmap, pmm.owners
      ensures !ready ==> r == Panicked(HeapNotInitiated) && model == old(model)
      ensures ready ==> Valid() && (model, pmm.Model(), r) == MM.Kmalloc(old(model), old(pmm.Model()), hhdm, want)
      ensures PayloadsKept(old(model).live, old(mem), mem)
      ensures if ready then KeptBeyond(model.frames, old(mem), mem) else mem == old(mem)
    {
      hide Inv, KeptBeyond, PayloadsKept;
      KeptSame(model.live, mem);
      BeyondSame(model.frames, mem);
      if !ready {
        return Panicked(HeapNotInitiated);
      }
      if want == 0 {
        return Panicked(ZeroHeapAllocation);
      }
      var size := RoundUp16(want);
      if size > FRAME - HEADER {
        return Panicked(HeapOverflow);
      }
      r := Allocate(size, want);
    }

    /** Put a block that is marked free on the list, in address order. */
    method PlaceBlock(block: u64, ghost c: Chunk, ghost free: seq<Chunk>, ghost rest: seq<Loan>, ghost stale: set<int>)
      returns (previous: u64)
      requires block == c.addr && free == model.free
      requires block in mem && block + IS_FREE in mem && block + MAGIC_AT in mem
      requires mem[block] == c.size && mem[block + IS_FREE] == 1 && mem[block + MAGIC_AT] == MAGIC
      requires Shape(free, rest, stale) && Stored(mem, head, free, rest, stale)
      requires ChunkOk(c) && c.End() <= TWO_64
      requires forall i | 0 <= i < |free| :: Apart(free[i], c)
      requires forall j | 0 <= j < |rest| :: Apart(c, rest[j].chunk)
      modifies `mem, `head
      ensures Shape(Insert(free, c), rest, stale + {c.addr})
      ensures Stored(mem, head, Insert(free, c), rest, stale + {c.addr})
      ensures LinkAt(mem, Insert(free, c), Position(free, c.addr))
      ensures forall i | 0 <= i < |free| :: free[i].addr > 0
      ensures var k := Position(free, c.addr); previous == if k == 0 then 0 else free[k - 1].addr
      ensures PayloadsKept(rest, old(mem), mem) && KeptOutside(Insert(free, c), old(mem), mem)
    {
      hide Insert, PayloadsKept, KeptOutside, Position;
      Sizes(free);
      previous := LinkBlock(block, c);
      PlantedOutside(old(mem), mem, free, c);
      PlantedStored(old(mem), mem, old(head), head, free, c, rest, stale);
      InsertShape(free, c, rest, stale);
      JoinHeads(free, c);
      assert LinkAt(mem, Insert(free, c), Position(free, c.addr));
    }

    /** Put a block that is marked free back on the list, and merge it forward and then backward. */
    method Reinsert(block: u64, ghost c: Chunk, ghost free: seq<Chunk>, ghost rest: seq<Loan>, ghost stale: set<int>)
      requires block == c.addr && free == model.free && HasHeader(mem, block)
      requires mem[block] == c.size && mem[block + IS_FREE] == 1 && mem[block + MAGIC_AT] == MAGIC
      requires Shape(free, rest, stale) && Stored(mem, head, free, rest, stale)
      requires ChunkOk(c) && c.End() <= TWO_64
      requires forall i | 0 <= i < |free| :: Apart(free[i], c)
      requires forall j | 0 <= j < |rest| :: Apart(c, rest[j].chunk)
      modifies `mem, `head
      ensures Stored(mem, head, PutBack(free, c), rest, stale + {c.addr})
      ensures PayloadsKept(rest, old(mem), mem) && KeptOutside(Insert(free, c), old(mem), mem)
    {
      hide Insert, Join, PayloadsKept, KeptOutside, Shape, Stored, Linked;
      ghost var f0, k := Insert(free, c), Position(free, c.addr);
      ghost var marks := stale + {c.addr};
      var previous := PlaceBlock(block, c, free, rest, stale);
      JoinHeads(free, c);
      ghost var m1 := mem;
      var next := mem[block + NEXT];
      if next != 0 {
        MergeInto(block, next, f0, k, rest, marks);
        KeptTwice(rest, old(mem), m1, mem);
        OutsideTwice(f0, old(mem), m1, mem);
      }
      ghost var f1, m2 := Join(f0, k), mem;
      if previous != 0 {
        JoinedBytes(f0, k, rest, marks);
        MergeInto(previous, block, f1, k - 1, rest, marks);
        KeptTwice(rest, old(mem), m2, mem);
        OutsideSame(f0, f1, m2, mem);
        OutsideTwice(f0, old(mem), m2, mem);
      }
    }

    /** Mark the block of loan `j` free, give back its bytes and put it on the list. */
    method EndLoan(block: u64, ghost j: nat)
      requires Valid() && j < |model.live| && block == model.live[j].chunk.addr
      modifies `mem, `head, `used, `model
      ensures Valid() && model == Release(old(model), j)
      ensures PayloadsKept(model.live, old(mem), mem) && KeptBeyond(model.frames, old(mem), mem)
    {
      hide Inv, PmmModel.Inv, PayloadsKept, KeptOutside, KeptBeyond, PutBack, Stored, Shape, Insert, Wrap, UsedBytes,
           MM.OwnedFrames, ChunkOk, Apart;
      Bounds();
      ghost var h, c := model, model.live[j].chunk;
      ghost var rest := h.live[..j] + h.live[j + 1..];
      LoanFacts(h, hhdm, pmm.Model(), j);
      ReleaseFacts(h, hhdm, pmm.Model(), j);
      StoredLoan(mem, head, h.free, h.live, h.stale, j);
      var freedSize := mem[block];
      mem := mem[block + IS_FREE := 1];
      MarkedStored(old(mem), mem, head, h.free, h.live, h.stale, j);
      ghost var m1 := mem;
      Reinsert(block, c, h.free, rest, h.stale);
      KeptTwice(rest, old(mem), m1, mem);
      MarkedBeyond(h, j, old(mem), m1, mem);
      used := Wrap(used - freedSize);
      model := Release(h, j);
    }

    /** Callers pass null or a pointer behind a readable header, and never forge a header that
        is neither lent nor recognisable as bad. */
    ghost predicate MayFree(pointer: u64)
      reads this
    {
      var block := Wrap(pointer - HEADER);
      pointer == 0 || !ready ||
      (HasHeader(mem, block)
       && (mem[block + MAGIC_AT] == MAGIC && mem[block + IS_FREE] == 0 ==> MM.LoanAt(model.live, block) < |model.live|))
    }

    method Kfree(pointer: u64) returns (r: Outcome<()>)
      requires (ready ==> Valid()) && MayFree(pointer)
      modifies `mem, `head, `used, `model
      ensures ready ==> Valid()
      ensures pointer == 0 ==> r == Returned(())
      ensures pointer != 0 && !ready ==> r == Panicked(HeapNotInitiated)
      ensures pointer != 0 && ready ==>
        var block := Wrap(pointer - HEADER);
        var j := MM.LoanAt(old(model).live, block);
        && (if j < |old(model).live| then r == Returned(()) && model == Release(old(model), j)
            else r == Panicked(if old(mem)[block + MAGIC_AT] != MAGIC then HeapInvalidFree else HeapDoubleFree))
        && (block in old(model).stale ==> r == Panicked(HeapDoubleFree))
      ensures pointer == 0 || r.Panicked? ==> model == old(model) && mem == old(mem) && used == old(used)
      ensures PayloadsKept(model.live, old(mem), mem)
      ensures if ready then KeptBeyond(model.frames, old(mem), mem) else mem == old(mem)
    {
      hide Inv, PmmModel.Inv, Release, KeptBeyond, PayloadsKept;
      KeptSame(model.live, mem);
      BeyondSame(model.frames, mem);
      if pointer == 0 {
        return Returned(());
      }
      if !ready {
        return Panicked(HeapNotInitiated);
      }
      var block := Wrap(pointer - HEADER);
      ghost var j := MM.LoanAt(model.live, block);
      if j < |model.live| {
        StoredLoan(mem, head, model.free, model.live, model.stale, j);
      }
      if mem[block + MAGIC_AT] != MAGIC {
        return Panicked(HeapInvalidFree);
      }
      if mem[block + IS_FREE] != 0 {
        return Panicked(HeapDoubleFree);
      }
      EndLoan(block, j);
      r := Returned(());
    }

    /** A client writes a word of a payload it holds. */
    method Store(ghost j: nat, address: int, value: u64)
      requires Valid() && j < |model.live| && address % 8 == 0 && InPayload(model.live[j].chunk, address)
      modifies `mem
      ensures Valid() && mem == old(mem)[address := value]
    {
      hide Inv, PmmModel.Inv;
      LoanFacts(model, hhdm, pmm.Model(), j);
      Bounds();
      mem := mem[address := value];
      StoreKeeps(old(mem), mem, head, model.free, model.live, model.stale, j, address, value);
    }

    /** The counter the kernel reports is the sum of the lent sizes; with the free bytes and one header per chunk it
        accounts for every byte of the heap's frames. */
    method GetUsedBytes() returns (n: u64)
      requires Valid()
      ensures n == UsedBytes(model.live)
      ensures n + FreeBytes(model.free) + HEADER * (|model.live| + |model.free|) == FRAME * frameCount
    {
      hide Tiles, Ordered, LoansApart;
      n := used;
    }

    method GetFrameCount() returns (n: u64)
      requires Valid()
      ensures n == |model.frames|
    {
      n := frameCount;
    }
  }
}
