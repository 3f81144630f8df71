/** Frame allocator, heap and direct clients together: the running code refines the system model call by call. */
module KernelMemory {
  import opened Machine
  import P = PmmModel
  import H = HeapModel
  import PmmCode
  import HeapMemory
  import HeapCode
  import opened MemoryModel
  import MemoryProofs

  class Memory {
    const pmm: PmmCode.Pmm
    const heap: HeapCode.Heap
    ghost var clients: set<nat>

    ghost function State(): System
      requires pmm.Shaped()
      reads this, heap, pmm, pmm.bitmap, pmm.owners
    {
      System(heap.model, pmm.Model(), heap.hhdm, clients)
    }

    ghost predicate Valid()
      reads this, heap, pmm, pmm.bitmap, pmm.owners
    {
      heap.pmm == pmm && heap.Valid() && Inv(State())
    }

    constructor (pmm: PmmCode.Pmm, heap: HeapCode.Heap)
      requires heap.pmm == pmm && heap.Valid() && heap.model == H.EMPTY
      ensures Valid() && this.pmm == pmm && this.heap == heap
      ensures State() == System(H.EMPTY, pmm.Model(), heap.hhdm, pmm.Model().owned)
    {
      this.pmm, this.heap, clients := pmm, heap, pmm.Model().owned;
    }

    method GetFrame() returns (r: Outcome<int>)
      requires Valid()
      modifies `clients, pmm`next, pmm.bitmap, pmm.owners
      ensures Valid() && (State(), r) == Step(old(State()), Call.GetFrame)
    {
      hide H.Inv, P.Inv, H.Ordered, FrameNo;
      MemoryProofs.StepKeeps(State(), Call.GetFrame);
      var frame := pmm.AllocateFrame();
      if frame.Panicked? {
        return Panicked(frame.reason);
      }
      clients := clients + {frame.value / FRAME};
      r := Returned(frame.value);
    }

    /** A client gives back a frame it took itself; any other address but the heap's frames is refused. */
    method PutFrame(address: u64) returns (r: Outcome<int>)
      requires Valid() && Allowed(State(), Call.PutFrame(address))
      modifies `clients, pmm.bitmap, pmm.owners
      ensures Valid() && (State(), r) == Step(old(State()), Call.PutFrame(address))
    {
      hide H.Inv, P.Inv, H.Ordered, FrameNo;
      MemoryProofs.StepKeeps(State(), Call.PutFrame(address));
      var freed := pmm.FreeFrame(address);
      if freed.Panicked? {
        return Panicked(freed.reason);
      }
      clients := clients - {address / FRAME};
      r := Returned(0);
    }

    method Malloc(want: u64) returns (r: Outcome<int>)
      requires Valid()
      modifies heap, pmm`next, pmm.bitmap, pmm.owners
      ensures Valid() && (State(), r) == Step(old(State()), Call.Malloc(want))
      ensures HeapMemory.PayloadsKept(old(heap.model).live, old(heap.mem), heap.mem)
      ensures HeapMemory.KeptBeyond(heap.model.frames, old(heap.mem), heap.mem)
    {
      hide H.Inv, P.Inv, H.Ordered, FrameNo, HeapMemory.PayloadsKept, HeapMemory.KeptBeyond, Kmalloc;
      MemoryProofs.StepKeeps(State(), Call.Malloc(want));
      r := heap.Kmalloc(want);
    }

    /** Freeing follows the system model on every pointer the model allows; on any other readable pointer that is
        not a forged loan it panics, and nothing changes. */
    method Free(pointer: u64) returns (r: Outcome<int>)
      requires Valid() && heap.MayFree(pointer)
      modifies heap
      ensures Valid()
      ensures if old(Allowed(State(), Call.Free(pointer))) then (State(), r) == Step(old(State()), Call.Free(pointer))
              else
                && State() == old(State())
                && r == Panicked(if old(heap.mem)[Wrap(pointer - H.HEADER) + HeapMemory.MAGIC_AT] != HeapMemory.MAGIC
                                 then HeapInvalidFree else HeapDoubleFree)
      ensures HeapMemory.PayloadsKept(heap.model.live, old(heap.mem), heap.mem)
      ensures HeapMemory.KeptBeyond(heap.model.frames, old(heap.mem), heap.mem)
    {
      hide H.Inv, P.Inv, H.Ordered, FrameNo, HeapMemory.PayloadsKept, HeapMemory.KeptBeyond, H.Release;
      MemoryProofs.FreeKeeps(State(), pointer);
      if pointer > 0 {
        HeapMemory.HeaderPlace(heap.model, heap.hhdm, pmm.Model(), pointer);
      }
      var freed := heap.Kfree(pointer);
      r := if freed.Panicked? then Panicked(freed.reason) else Returned(0);
    }
  }

  /** Whatever `kmalloc` and `kfree` write stays out of client frames, free frames and every byte of both bitmaps: `s`
      is the state after the call, `m` and `m'` memory before and after it. */
  lemma OthersUntouched(s: System, m: HeapMemory.Memory, m': HeapMemory.Memory, a: int)
    requires Inv(s) && HeapMemory.KeptBeyond(s.heap.frames, m, m') && a >= s.hhdm
    requires var f := FrameNo(PageOf(a), s.hhdm);
      f in s.clients || f in s.pmm.free || (f >= 0 && P.Metadata(s.pmm, f)) || P.HoldsBits(s.pmm, a - s.hhdm)
    ensures (a in m <==> a in m') && (a in m ==> m'[a] == m[a])
  {
    var f := FrameNo(PageOf(a), s.hhdm);
    MemoryProofs.SamePhysical(a, s.hhdm);
    if P.HoldsBits(s.pmm, a - s.hhdm) {
      P.StorageIsKept(s.pmm, a - s.hhdm);
    }
    hide H.Inv, FrameNo, PageOf, P.HoldsBits;
    assert PageOf(a) in s.heap.frames ==> f in FrameNos(s.heap.frames, s.hhdm);
    assert f in s.pmm.owned ==> f in s.pmm.free + s.pmm.owned;
  }

  // --- start-up ---------------------------------------------------------------------------

  /** How many frames the kernel takes and keeps before the heap starts. */
  const BOOT_FRAMES: nat := 6

  predicate OwnsLowest(q: P.Pmm) {
    forall f, g | f in q.owned && g in q.free :: f < g
  }

  /** The owned frames are `n` in number and lie below every free one; nothing else differs from `p`. */
  predicate TookLowest(p: P.Pmm, q: P.Pmm, n: nat) {
    && MemoryProofs.SameGround(p, q)
    && |q.owned| == n && |q.free| + n == |p.free| && OwnsLowest(q)
  }

  lemma TakeOneMore(p: P.Pmm, q: P.Pmm, n: nat)
    requires P.Inv(q) && TookLowest(p, q, n) && q.free != {}
    ensures TookLowest(p, P.Allocate(q).0, n + 1)
  {
    hide P.Inv, P.Allocate;
    P.AllocateIsLowest(q);
    var f := P.Allocate(q).1.value / FRAME;
    MoveOne(q.free, q.owned, f);
    assert P.Allocate(q).0 == q.(free := q.free - {f}, owned := q.owned + {f});
  }

  lemma MoveOne(free: set<nat>, owned: set<nat>, f: nat)
    requires f in free && free !! owned
    ensures |free - {f}| == |free| - 1 && |owned + {f}| == |owned| + 1
    ensures (free - {f}) + (owned + {f}) == free + owned
  {
  }

  /** Allocating a frame and giving it back: the free count goes down by one and up again. */
  method CountTest(pmm: PmmCode.Pmm) returns (r: Outcome<()>, passed: bool)
    requires pmm.Valid()
    modifies pmm`next, pmm.bitmap, pmm.owners
    ensures pmm.Valid() && pmm.Model() == old(pmm.Model()) && passed
    ensures r == if old(pmm.Model()).free == {} then Panicked(OutOfMemory) else Returned(())
  {
    hide P.Inv, P.Allocate, P.Free;
    ghost var p := pmm.Model();
    P.AllocateIsLowest(p);
    var before := pmm.FreeFrameCount();
    var frame := pmm.AllocateFrame();
    if frame.Panicked? {
      return Panicked(frame.reason), true;
    }
    P.AllocateThenFree(p);
    var taken := pmm.FreeFrameCount();
    var freed := pmm.FreeFrame(frame.value);
    var after := pmm.FreeFrameCount();
    passed := taken == before - 1 && after == before;
    r := Returned(());
  }

  /** Give back frame `last`, just allocated from `p`, and allocate again: the same frame comes. */
  method ReuseTest(pmm: PmmCode.Pmm, last: u64, ghost p: P.Pmm) returns (passed: bool)
    requires pmm.Valid() && P.Inv(p) && P.Allocate(p) == (pmm.Model(), Returned(last))
    modifies pmm`next, pmm.bitmap, pmm.owners
    ensures pmm.Valid() && pmm.Model() == old(pmm.Model()) && passed
  {
    hide P.Inv, P.Allocate, P.Free;
    P.AllocateIsLowest(p);
    P.AllocateThenFree(p);
    var freed := pmm.FreeFrame(last);
    var again := pmm.AllocateFrame();
    passed := again == Returned(last);
  }

  /** The kernel's own checks of the frame allocator at start-up, which never fail, and the frames they keep. */
  method TakeBootFrames(pmm: PmmCode.Pmm) returns (r: Outcome<()>, passed: bool)
    requires pmm.Valid() && pmm.Model().owned == {}
    modifies pmm`next, pmm.bitmap, pmm.owners
    ensures pmm.Valid() && passed
    ensures r == if |old(pmm.Model()).free| < BOOT_FRAMES then Panicked(OutOfMemory) else Returned(())
    ensures r.Returned? ==> TookLowest(old(pmm.Model()), pmm.Model(), BOOT_FRAMES)
  {
    hide P.Inv, P.Allocate;
    ghost var p, q := pmm.Model(), pmm.Model();
    r, passed := CountTest(pmm);
    if r.Panicked? { return; }
    var last: u64 := 0;
    for i := 0 to BOOT_FRAMES
      invariant pmm.Valid() && TookLowest(p, pmm.Model(), i) && passed && r == Returned(())
      invariant i > 0 ==> P.Inv(q) && P.Allocate(q) == (pmm.Model(), Returned(last))
    {
      q := pmm.Model();
      P.AllocateIsLowest(q);
      var frame := pmm.AllocateFrame();
      if frame.Panicked? {
        return Panicked(frame.reason), true;
      }
      TakeOneMore(p, q, i);
      last := frame.value;
    }
    passed := ReuseTest(pmm, last, q);
  }

  lemma TopIsMapped(entries: seq<P.Entry>, s: PmmCode.Survey, hhdm: u64)
    requires PmmCode.Surveyed(entries, |entries|, s)
    requires forall i | 0 <= i < |entries| && entries[i].usable :: hhdm + P.UsableEnd(entries[i]) <= TWO_64
    ensures hhdm + s.highest <= TWO_64
  {
    hide P.UsableEnd, P.UsableBase, P.UsableLength;
  }

  /** Start-up as the kernel does it: the frame allocator and its checks first, then the heap over the direct map. */
  method Boot(entries: seq<P.Entry>, hhdm: u64) returns (r: Outcome<Memory>, ghost s: PmmCode.Survey)
    requires forall i | 0 <= i < |entries| :: P.Sound(entries[i])
    requires forall i | 0 <= i < |entries| && entries[i].usable :: hhdm + P.UsableEnd(entries[i]) <= TWO_64
    requires hhdm > 0 && hhdm % FRAME == 0
    ensures PmmCode.Surveyed(entries, |entries|, s)
    ensures r.Returned? <==>
      PmmCode.StartUp(s).Returned? && |PmmCode.OpenedFrames(entries, s)| >= 6
    ensures r.Panicked? ==>
      r.reason == if PmmCode.StartUp(s).Panicked? then PmmCode.StartUp(s).reason else OutOfMemory
    ensures r.Returned? ==>
      fresh(r.value) && r.value.Valid() && Started(r.value.State(), hhdm, PmmCode.OpenedFrames(entries, s))
  {
    var pmm := new PmmCode.Pmm();
    var started;
    started, s := pmm.Init(entries);
    if started.Panicked? {
      return Panicked(started.reason), s;
    }
    TopIsMapped(entries, s, hhdm);
    hide H.Inv, P.Inv, P.UsableEnd, P.Sound, P.Usable, P.Metadata, PmmCode.Surveyed, PmmCode.StartUp, OwnsLowest,
         PmmCode.NothingAboveFirstPage, PmmCode.MisledSurvey, PmmCode.BitmapPages, PmmCode.OpenedFrames, FrameNo,
         PmmCode.IsLeast, TookLowest, Started;
    ghost var p := pmm.Model();
    var taken, passed := TakeBootFrames(pmm);
    if taken.Panicked? {
      return Panicked(taken.reason), s;
    }
    var memory := StartHeap(pmm, hhdm);
    StartedFrom(p, memory.State(), hhdm);
    r := Returned(memory);
  }

  /** The state start-up ends in: an empty heap, six client frames below every free one, and no other frame opened. */
  predicate Started(s: System, hhdm: u64, available: set<nat>) {
    && s.heap == H.EMPTY && s.hhdm == hhdm
    && s.clients == s.pmm.owned && |s.clients| == 6 && OwnsLowest(s.pmm)
    && s.clients + s.pmm.free == available
  }

  lemma StartedFrom(p: P.Pmm, s: System, hhdm: u64)
    requires TookLowest(p, s.pmm, BOOT_FRAMES) && p.owned == {}
    requires s.heap == H.EMPTY && s.hhdm == hhdm && s.clients == s.pmm.owned
    ensures Started(s, hhdm, p.free)
  {
    hide OwnsLowest;
  }

  /** The heap on top of a running frame allocator; the frames owned so far stay with the clients. */
  method StartHeap(pmm: PmmCode.Pmm, hhdm: u64) returns (memory: Memory)
    requires pmm.Valid() && hhdm > 0 && hhdm % FRAME == 0 && hhdm + pmm.frameCount * FRAME <= TWO_64
    ensures fresh(memory) && memory.pmm == pmm && memory.Valid()
    ensures memory.State() == System(H.EMPTY, pmm.Model(), hhdm, pmm.Model().owned)
  {
    hide H.Inv, P.Inv;
    var heap := new HeapCode.Heap(pmm);
    heap.Init(hhdm);
    memory := new Memory(pmm, heap);
  }
}
