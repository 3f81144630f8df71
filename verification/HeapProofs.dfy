module HeapProofs {
  import opened Machine
  import opened HeapModel

  lemma {:induction false} FreeBytesAppend(s: seq<Chunk>, t: seq<Chunk>)
    ensures FreeBytes(s + t) == FreeBytes(s) + FreeBytes(t)
  {
    if |t| == 0 {
      assert s + t == s;
    } else {
      assert (s + t)[..|s + t| - 1] == s + t[..|t| - 1];
      FreeBytesAppend(s, t[..|t| - 1]);
    }
  }

  lemma {:induction false} UsedBytesAppend(s: seq<Loan>, t: seq<Loan>)
    ensures UsedBytes(s + t) == UsedBytes(s) + UsedBytes(t)
  {
    if |t| == 0 {
      assert s + t == s;
    } else {
      assert (s + t)[..|s + t| - 1] == s + t[..|t| - 1];
      UsedBytesAppend(s, t[..|t| - 1]);
    }
  }

  /** Replacing the middle of a list changes the sum by what was replaced. */
  lemma FreeBytesSplice(s: seq<Chunk>, i: nat, j: nat, mid: seq<Chunk>)
    requires i <= j <= |s|
    ensures FreeBytes(s[..i] + mid + s[j..]) == FreeBytes(s) - FreeBytes(s[i..j]) + FreeBytes(mid)
  {
    hide FreeBytes;
    FreeBytesAppend(s[..i] + mid, s[j..]);
    FreeBytesAppend(s[..i], mid);
    assert s == s[..i] + s[i..j] + s[j..];
    FreeBytesAppend(s[..i] + s[i..j], s[j..]);
    FreeBytesAppend(s[..i], s[i..j]);
  }

  lemma UsedBytesDrop(s: seq<Loan>, j: nat)
    requires j < |s|
    ensures UsedBytes(s[..j] + s[j + 1..]) == UsedBytes(s) - s[j].chunk.size
  {
    hide UsedBytes;
    UsedBytesAppend(s[..j], s[j + 1..]);
    OneLoan(s[j]);
    UsedBytesAppend(s[..j], [s[j]]);
    UsedBytesAppend(s[..j] + [s[j]], s[j + 1..]);
    assert s == s[..j] + [s[j]] + s[j + 1..];
  }

  lemma OneLoan(l: Loan)
    ensures UsedBytes([l]) == l.chunk.size
  {
    assert [l][..0] == [];
  }

  lemma One(c: Chunk)
    ensures FreeBytes([c]) == c.size
  {
    assert [c][..0] == [];
  }

  lemma Two(c: Chunk, d: Chunk)
    ensures FreeBytes([c, d]) == c.size + d.size
  {
    assert [c, d][..1] == [c];
    One(c);
  }

  lemma PositionIs(free: seq<Chunk>, a: int, k: nat)
    requires k <= |free| && (forall i | 0 <= i < k :: free[i].addr < a) && (k < |free| ==> free[k].addr >= a)
    ensures Position(free, a) == k
  {
  }

  // --- inserting and joining --------------------------------------------------

  lemma InsertAt(free: seq<Chunk>, c: Chunk, i: nat)
    requires i <= |free|
    ensures var k := Position(free, c.addr);
      Insert(free, c)[i] == if i < k then free[i] else if i == k then c else free[i - 1]
  {
  }

  lemma InsertSorted(free: seq<Chunk>, c: Chunk)
    requires Sorted(free) && c.size >= 0
    requires forall i | 0 <= i < |free| :: free[i].size >= 0 && Apart(free[i], c)
    ensures Sorted(Insert(free, c))
  {
    var f, k := Insert(free, c), Position(free, c.addr);
    forall i, j | 0 <= i < j < |f| ensures f[i].End() <= f[j].addr {
      InsertAt(free, c, i);
      InsertAt(free, c, j);
      if i == k {
        assert Apart(free[j - 1], c);
      } else if j == k {
        assert Apart(free[i], c);
      }
    }
  }

  /** Only consecutive chunks of a sorted list can touch. */
  lemma Neighbours(free: seq<Chunk>, i: nat, j: nat)
    requires Sorted(free) && i < j < |free| && forall k | 0 <= k < |free| :: free[k].size >= 0
    ensures free[i].End() == free[j].addr ==> j == i + 1
  {
    assert j > i + 1 ==> free[i].End() <= free[i + 1].addr && free[i + 1].End() <= free[j].addr;
  }

  lemma InsertSpaced(free: seq<Chunk>, c: Chunk)
    requires SpacedBut(free, 0, 0) && Sorted(Insert(free, c))
    requires forall i | 0 <= i < |Insert(free, c)| :: Insert(free, c)[i].size >= 0
    ensures var k := Position(free, c.addr); SpacedBut(Insert(free, c), k - 1, k + 1)
  {
    var f, k := Insert(free, c), Position(free, c.addr);
    forall i, j | 0 <= i < j < |f| && f[i].End() == f[j].addr
      ensures k - 1 <= i < k + 1 || f[j].addr % FRAME == 0
    {
      InsertAt(free, c, i);
      InsertAt(free, c, j);
      Neighbours(f, i, j);
    }
  }

  lemma InsertOk(free: seq<Chunk>, c: Chunk)
    requires ChunkOk(c) && forall i | 0 <= i < |free| :: ChunkOk(free[i])
    ensures forall i | 0 <= i < |Insert(free, c)| :: ChunkOk(Insert(free, c)[i])
  {
  }

  lemma InsertApart(free: seq<Chunk>, c: Chunk, live: seq<Loan>)
    requires LoansApart(free, live)
    requires forall j | 0 <= j < |live| :: Apart(c, live[j].chunk)
    ensures LoansApart(Insert(free, c), live)
  {
    var f := Insert(free, c);
    forall i, j | 0 <= i < |f| && 0 <= j < |live| ensures Apart(f[i], live[j].chunk) {
      InsertAt(free, c, i);
    }
  }

  lemma InsertBytes(free: seq<Chunk>, c: Chunk)
    ensures FreeBytes(Insert(free, c)) == FreeBytes(free) + c.size
    ensures forall x: int :: InFree(Insert(free, c), x) <==> InFree(free, x) || c.Holds(x)
  {
    var f, k := Insert(free, c), Position(free, c.addr);
    FreeBytesSplice(free, k, k, [c]);
    assert FreeBytes(free[k..k]) == 0;
    One(c);
    forall x: int ensures InFree(f, x) <==> InFree(free, x) || c.Holds(x) {
      assert f[k] == c;
      if InFree(free, x) {
        var i :| 0 <= i < |free| && free[i].Holds(x);
        assert f[if i < k then i else i + 1] == free[i];
      }
      if InFree(f, x) {
        var i :| 0 <= i < |f| && f[i].Holds(x);
        InsertAt(free, c, i);
      }
    }
  }

  lemma InsertSunk(free: seq<Chunk>, c: Chunk, p: int)
    requires Sunk(free, p) || p == c.addr
    ensures Sunk(Insert(free, c), p)
  {
    var f, k := Insert(free, c), Position(free, c.addr);
    if p == c.addr {
      assert f[k] == c;
    } else {
      var i :| 0 <= i < |free| && (p == free[i].addr || (free[i].addr + HEADER <= p && p + HEADER <= free[i].End()));
      assert f[if i < k then i else i + 1] == free[i];
    }
  }

  lemma JoinAt(free: seq<Chunk>, i: int, j: nat)
    requires Joins(free, i) && j < |free| - 1
    ensures Join(free, i)[j] ==
      if j < i then free[j]
      else if j == i then Chunk(free[i].addr, free[i].size + HEADER + free[i + 1].size)
      else free[j + 1]
  {
  }

  lemma JoinSorted(free: seq<Chunk>, i: int)
    requires Sorted(free)
    ensures Sorted(Join(free, i))
  {
    if Joins(free, i) {
      var f := Join(free, i);
      forall a, b | 0 <= a < b < |f| ensures f[a].End() <= f[b].addr {
        JoinAt(free, i, a);
        JoinAt(free, i, b);
        assert free[if a < i then a else a + 1].End() <= free[if b <= i then b else b + 1].addr;
      }
    }
  }

  lemma JoinSpaced(free: seq<Chunk>, lo: int, i: int)
    requires lo <= i && Sorted(free) && SpacedBut(free, lo, i + 1)
    requires forall j | 0 <= j < |free| :: free[j].size >= 0
    ensures SpacedBut(Join(free, i), lo, i)
  {
    if Joins(free, i) {
      var f := Join(free, i);
      forall a, b | 0 <= a < b < |f| && f[a].End() == f[b].addr
        ensures lo <= a < i || f[b].addr % FRAME == 0
      {
        JoinAt(free, i, a);
        JoinAt(free, i, b);
        var m, n := if a < i then a else a + 1, if b <= i then b else b + 1;
        assert free[m].End() == free[n].addr;
      }
    } else {
      forall a, b | 0 <= a < b < |free| && free[a].End() == free[b].addr
        ensures lo <= a < i || free[b].addr % FRAME == 0
      {
        Neighbours(free, a, b);
      }
    }
  }

  lemma JoinOk(free: seq<Chunk>, i: int)
    requires forall j | 0 <= j < |free| :: ChunkOk(free[j])
    ensures forall j | 0 <= j < |Join(free, i)| :: ChunkOk(Join(free, i)[j])
  {
    if Joins(free, i) {
      forall j | 0 <= j < |Join(free, i)| ensures ChunkOk(Join(free, i)[j]) {
        JoinAt(free, i, j);
        assert ChunkOk(free[j]) && ChunkOk(free[j + 1]);
      }
    }
    hide Join;
  }

  lemma JoinApart(free: seq<Chunk>, i: int, live: seq<Loan>)
    requires LoansApart(free, live)
    ensures LoansApart(Join(free, i), live)
  {
    if Joins(free, i) {
      var f := Join(free, i);
      forall a, j | 0 <= a < |f| && 0 <= j < |live| ensures Apart(f[a], live[j].chunk) {
        JoinAt(free, i, a);
        assert Apart(free[a], live[j].chunk) && Apart(free[a + 1], live[j].chunk);
        assert LoanOk(live[j]);
      }
    }
  }

  lemma JoinBytes(free: seq<Chunk>, i: int)
    requires forall j | 0 <= j < |free| :: free[j].size >= 0
    ensures forall x: int :: InFree(Join(free, i), x) <==> InFree(free, x)
  {
    if Joins(free, i) {
      var f := Join(free, i);
      forall x: int ensures InFree(f, x) <==> InFree(free, x) {
        if InFree(free, x) {
          var j :| 0 <= j < |free| && free[j].Holds(x);
          JoinAt(free, i, if j <= i then j else j - 1);
          assert f[if j <= i then j else j - 1].Holds(x);
        }
        if InFree(f, x) {
          var j :| 0 <= j < |f| && f[j].Holds(x);
          JoinAt(free, i, j);
          assert free[j].Holds(x) || free[j + 1].Holds(x);
        }
      }
    }
  }

  lemma JoinTotal(free: seq<Chunk>, i: int)
    ensures FreeBytes(Join(free, i)) + HEADER * |Join(free, i)| == FreeBytes(free) + HEADER * |free|
  {
    if Joins(free, i) {
      var c := Chunk(free[i].addr, free[i].size + HEADER + free[i + 1].size);
      FreeBytesSplice(free, i, i + 2, [c]);
      assert free[i..i + 2] == [free[i], free[i + 1]];
      One(c);
      Two(free[i], free[i + 1]);
    }
  }

  lemma JoinSunk(free: seq<Chunk>, i: int, p: int)
    requires forall j | 0 <= j < |free| :: free[j].size >= 0
    requires Sunk(free, p)
    ensures Sunk(Join(free, i), p)
  {
    if Joins(free, i) {
      var f := Join(free, i);
      var j :| 0 <= j < |free| && (p == free[j].addr || (free[j].addr + HEADER <= p && p + HEADER <= free[j].End()));
      JoinLength(free, i);
      var m := if j <= i then j else j - 1;
      JoinAt(free, i, m);
      assert p == f[m].addr || (f[m].addr + HEADER <= p && p + HEADER <= f[m].End());
    }
    hide Join;
  }

  // --- growing ----------------------------------------------------------------

  /** A chunk that overlaps the frame at `base` has a byte there. */
  lemma SharedByte(c: Chunk, base: int) returns (x: int)
    requires base % FRAME == 0 && c.size >= 0 && !Apart(c, Chunk(base, MAX_REQUEST))
    ensures c.Holds(x) && PageOf(x) == base
  {
    x := if c.addr < base then base else c.addr;
  }

  lemma ByteInFree(free: seq<Chunk>, c: Chunk, x: int)
    requires c in free && c.Holds(x)
    ensures InFree(free, x)
  {
  }

  lemma ByteInLive(live: seq<Loan>, l: Loan, x: int)
    requires l in live && l.chunk.Holds(x)
    ensures InLive(live, x)
  {
  }

  lemma FrameIsFresh(h: Heap, base: int)
    requires Inv(h) && base % FRAME == 0 && base !in h.frames
    ensures forall i | 0 <= i < |h.free| :: Apart(h.free[i], Chunk(base, MAX_REQUEST))
    ensures forall j | 0 <= j < |h.live| :: Apart(Chunk(base, MAX_REQUEST), h.live[j].chunk)
  {
    hide Balanced, Sunk, Sorted, SpacedBut;
    forall i | 0 <= i < |h.free| ensures Apart(h.free[i], Chunk(base, MAX_REQUEST)) {
      var c := h.free[i];
      if !Apart(c, Chunk(base, MAX_REQUEST)) {
        var x := SharedByte(c, base);
        ByteInFree(h.free, c, x);
      }
    }
    forall j | 0 <= j < |h.live| ensures Apart(Chunk(base, MAX_REQUEST), h.live[j].chunk) {
      var l := h.live[j];
      assert LoanOk(l);
      if !Apart(l.chunk, Chunk(base, MAX_REQUEST)) {
        var x := SharedByte(l.chunk, base);
        ByteInLive(h.live, l, x);
      }
    }
  }

  lemma FrameSpaced(free: seq<Chunk>, base: int)
    requires base % FRAME == 0 && Sorted(Insert(free, Chunk(base, MAX_REQUEST)))
    requires var k := Position(free, base); SpacedBut(Insert(free, Chunk(base, MAX_REQUEST)), k - 1, k + 1)
    ensures SpacedBut(Insert(free, Chunk(base, MAX_REQUEST)), 0, 0)
  {
    var f, k := Insert(free, Chunk(base, MAX_REQUEST)), Position(free, base);
    forall i, j | 0 <= i < j < |f| && f[i].End() == f[j].addr ensures f[j].addr % FRAME == 0 {
      assert f[k] == Chunk(base, MAX_REQUEST);
    }
  }

  lemma GrowTiles(h: Heap, base: int)
    requires Tiles(h) && base % FRAME == 0
    ensures Tiles(Grow(h, base))
  {
    InsertBytes(h.free, Chunk(base, MAX_REQUEST));
    FrameBytes(base);
  }

  lemma GrowBalanced(h: Heap, base: int)
    requires Balanced(h) && base !in h.frames
    ensures Balanced(Grow(h, base))
  {
    InsertBytes(h.free, Chunk(base, MAX_REQUEST));
  }

  lemma GrowOrdered(h: Heap, base: int)
    requires Ordered(h.free) && base > 0 && base % FRAME == 0
    requires forall i | 0 <= i < |h.free| :: Apart(h.free[i], Chunk(base, MAX_REQUEST))
    ensures Ordered(Grow(h, base).free)
  {
    hide Insert, Position, Sorted, SpacedBut, Apart;
    var c := Chunk(base, MAX_REQUEST);
    InsertSorted(h.free, c);
    InsertOk(h.free, c);
    InsertSpaced(h.free, c);
    FrameSpaced(h.free, base);
  }

  lemma GrowKeeps(h: Heap, base: int)
    requires Inv(h) && base > 0 && base % FRAME == 0 && base !in h.frames
    ensures Inv(Grow(h, base))
  {
    FrameIsFresh(h, base);
    GrowOrdered(h, base);
    InsertApart(h.free, Chunk(base, MAX_REQUEST), h.live);
    GrowTiles(h, base);
    GrowBalanced(h, base);
  }

  lemma FrameBytes(base: int)
    requires base % FRAME == 0
    ensures forall x: int :: Chunk(base, MAX_REQUEST).Holds(x) <==> PageOf(x) == base
  {
  }

  // --- carving ----------------------------------------------------------------

  /** `f` is `free` with chunk `k` replaced by the rest of it, or dropped. */
  predicate Carved(free: seq<Chunk>, f: seq<Chunk>, k: nat, n: int)
    requires k < |free|
  {
    && |f| == (if Splits(free[k], n) then |free| else |free| - 1)
    && (forall i {:trigger f[i]} | 0 <= i < k :: f[i] == free[i])
    && (Splits(free[k], n) ==> f[k] == Rest(free[k], n))
    && (forall i {:trigger f[i]} | k <= i < |f| ::
          f[i] == if !Splits(free[k], n) then free[i + 1] else if i == k then Rest(free[k], n) else free[i])
  }

  lemma CarveAt(free: seq<Chunk>, k: nat, n: int)
    requires k < |free|
    ensures Carved(free, CarveList(free, k, n), k, n)
  {
  }

  lemma CarveInFree(free: seq<Chunk>, f: seq<Chunk>, k: nat, n: int, x: int)
    requires k < |free| && Carved(free, f, k, n) && 0 <= n <= free[k].size
    ensures InFree(free, x) <==> InFree(f, x) || Front(free[k], n).Holds(x)
  {
    var d := if Splits(free[k], n) then 0 else 1;
    if InFree(free, x) {
      var i :| 0 <= i < |free| && free[i].Holds(x);
      if i == k {
        assert d == 0 ==> f[k] == Rest(free[k], n);
      } else {
        assert f[if i < k then i else i - d] == free[i];
      }
    }
    if InFree(f, x) {
      var i :| 0 <= i < |f| && f[i].Holds(x);
      assert free[if i < k then i else i + d].Holds(x);
    }
    assert Front(free[k], n).Holds(x) ==> free[k].Holds(x);
  }

  lemma LiveAdd(live: seq<Loan>, l: Loan, x: int)
    ensures InLive(live + [l], x) <==> InLive(live, x) || l.chunk.Holds(x)
  {
    var all := live + [l];
    if InLive(live, x) {
      var j :| 0 <= j < |live| && live[j].chunk.Holds(x);
      assert all[j] == live[j];
    }
    assert all[|live|] == l;
  }

  lemma CarveTiles(h: Heap, k: nat, n: int, want: u64)
    requires k < |h.free| && Tiles(h) && 0 <= n <= h.free[k].size
    ensures Tiles(Carve(h, k, n, want))
  {
    CarveAt(h.free, k, n);
    var g := Carve(h, k, n, want);
    forall x: int ensures InFree(g.free, x) || InLive(g.live, x) <==> PageOf(x) in g.frames {
      CarveInFree(h.free, CarveList(h.free, k, n), k, n, x);
      LiveAdd(h.live, Loan(Front(h.free[k], n), want), x);
    }
  }

  lemma CarveSorted(free: seq<Chunk>, f: seq<Chunk>, k: nat, n: int)
    requires Sorted(free) && k < |free| && n >= 0 && Carved(free, f, k, n)
    ensures Sorted(f)
    ensures SpacedBut(free, 0, 0) ==> SpacedBut(f, 0, 0)
  {
    var d := if Splits(free[k], n) then 0 else 1;
    forall i, j | 0 <= i < j < |f|
      ensures f[i].End() <= f[j].addr
      ensures SpacedBut(free, 0, 0) && f[i].End() == f[j].addr ==> f[j].addr % FRAME == 0
    {
      assert free[if i < k then i else i + d].End() <= free[if j < k then j else j + d].addr;
    }
  }

  lemma CarveOk(free: seq<Chunk>, f: seq<Chunk>, k: nat, n: int)
    requires k < |free| && Carved(free, f, k, n) && n >= 0 && n % 16 == 0
    requires forall i | 0 <= i < |free| :: ChunkOk(free[i])
    ensures forall i | 0 <= i < |f| :: ChunkOk(f[i])
  {
    if Splits(free[k], n) {
      RestOk(free[k], n);
    }
    hide ChunkOk, Rest, Splits;
  }

  lemma RestOk(c: Chunk, n: int)
    requires ChunkOk(c) && Splits(c, n) && n >= 0 && n % 16 == 0
    ensures ChunkOk(Rest(c, n))
  {
  }

  lemma CarveApart(free: seq<Chunk>, f: seq<Chunk>, live: seq<Loan>, k: nat, want: u64)
    requires Sorted(free) && LoansApart(free, live) && k < |free| && ChunkOk(free[k])
    requires want > 0 && RoundUp16(want) <= free[k].size && Carved(free, f, k, RoundUp16(want))
    ensures LoansApart(f, live + [Loan(Front(free[k], RoundUp16(want)), want)])
  {
    var n := RoundUp16(want);
    var d := if Splits(free[k], n) then 0 else 1;
    var l := Loan(Front(free[k], n), want);
    var all := live + [l];
    assert LoanOk(l);
    hide RoundUp16, LoanOk;
    forall i, j | 0 <= i < |f| && 0 <= j < |all| ensures Apart(f[i], all[j].chunk) {
      var m := if i < k then i else i + d;
      if j < |live| {
        assert Apart(free[m], live[j].chunk);
      } else {
        assert m < k ==> free[m].End() <= free[k].addr;
        assert m > k ==> free[k].End() <= free[m].addr;
      }
    }
    forall i, j | 0 <= i < j < |all| ensures Apart(all[i].chunk, all[j].chunk) {
      assert Apart(free[k], live[i].chunk);
    }
  }

  /** Carving takes the lent payload and its header out of the list's total, no more. */
  lemma CarveTotal(free: seq<Chunk>, k: nat, n: int)
    requires k < |free|
    ensures FreeBytes(CarveList(free, k, n)) + HEADER * |CarveList(free, k, n)| + HEADER + Front(free[k], n).size
         == FreeBytes(free) + HEADER * |free|
  {
    var c := free[k];
    FreeBytesSplice(free, k, k + 1, if Splits(c, n) then [Rest(c, n)] else []);
    assert free[k..k + 1] == [c];
    One(c);
    One(Rest(c, n));
    assert FreeBytes([]) == 0;
    hide FreeBytes;
  }

  lemma CarveBalanced(h: Heap, k: nat, n: int, want: u64)
    requires k < |h.free| && Balanced(h)
    ensures Balanced(Carve(h, k, n, want))
  {
    var l := Loan(Front(h.free[k], n), want);
    CarveTotal(h.free, k, n);
    OneLoan(l);
    UsedBytesAppend(h.live, [l]);
    hide FreeBytes, UsedBytes, CarveList, Front;
  }

  lemma CarveKeeps(h: Heap, k: nat, want: u64)
    requires Inv(h) && k < |h.free| && want > 0 && RoundUp16(want) <= h.free[k].size
    ensures Inv(Carve(h, k, RoundUp16(want), want))
  {
    var n := RoundUp16(want);
    var f := CarveList(h.free, k, n);
    CarveAt(h.free, k, n);
    CarveSorted(h.free, f, k, n);
    CarveOk(h.free, f, k, n);
    CarveApart(h.free, f, h.live, k, want);
    CarveTiles(h, k, n, want);
    CarveBalanced(h, k, n, want);
  }

  // --- releasing --------------------------------------------------------------

  lemma LiveDrop(live: seq<Loan>, j: nat, x: int)
    requires j < |live|
    ensures InLive(live, x) <==> InLive(live[..j] + live[j + 1..], x) || live[j].chunk.Holds(x)
  {
    var rest := live[..j] + live[j + 1..];
    if InLive(live, x) {
      var i :| 0 <= i < |live| && live[i].chunk.Holds(x);
      assert i != j ==> rest[if i < j then i else i - 1] == live[i];
    }
    if InLive(rest, x) {
      var i :| 0 <= i < |rest| && rest[i].chunk.Holds(x);
      assert rest[i] == live[if i < j then i else i + 1];
    }
  }

  lemma DropApart(free: seq<Chunk>, live: seq<Loan>, j: nat)
    requires LoansApart(free, live) && j < |live|
    ensures var rest := live[..j] + live[j + 1..];
      LoansApart(free, rest) && forall i | 0 <= i < |rest| :: Apart(live[j].chunk, rest[i].chunk)
  {
    var rest := live[..j] + live[j + 1..];
    forall i | 0 <= i < |rest|
      ensures rest[i] == live[if i < j then i else i + 1] && Apart(live[j].chunk, rest[i].chunk)
    {
    }
  }

  lemma PutBackOrdered(free: seq<Chunk>, c: Chunk)
    requires Ordered(free) && ChunkOk(c) && forall i | 0 <= i < |free| :: Apart(free[i], c)
    ensures Ordered(PutBack(free, c))
  {
    var k: int := Position(free, c.addr);
    var f0 := Insert(free, c);
    var f1 := Join(f0, k);
    InsertOk(free, c);
    InsertSorted(free, c);
    InsertSpaced(free, c);
    JoinOk(f0, k);
    JoinSorted(f0, k);
    JoinSpaced(f0, k - 1, k);
    JoinOk(f1, k - 1);
    JoinSorted(f1, k - 1);
    JoinSpaced(f1, k - 1, k - 1);
  }

  lemma PutBackApart(free: seq<Chunk>, c: Chunk, live: seq<Loan>)
    requires LoansApart(free, live)
    requires forall j | 0 <= j < |live| :: Apart(c, live[j].chunk)
    ensures LoansApart(PutBack(free, c), live)
  {
    var k: int := Position(free, c.addr);
    var f0 := Insert(free, c);
    InsertApart(free, c, live);
    JoinApart(f0, k, live);
    JoinApart(Join(f0, k), k - 1, live);
  }

  /** Merging moves no byte in or out of the free list: its bytes are the old ones and the returned chunk's. */
  lemma PutBackBytes(free: seq<Chunk>, c: Chunk)
    requires ChunkOk(c) && forall i | 0 <= i < |free| :: ChunkOk(free[i])
    ensures FreeBytes(PutBack(free, c)) + HEADER * |PutBack(free, c)|
         == FreeBytes(free) + HEADER * |free| + HEADER + c.size
    ensures forall x: int :: InFree(PutBack(free, c), x) <==> InFree(free, x) || c.Holds(x)
  {
    var k: int := Position(free, c.addr);
    var f0 := Insert(free, c);
    InsertOk(free, c);
    InsertBytes(free, c);
    JoinOk(f0, k);
    JoinBytes(f0, k);
    JoinBytes(Join(f0, k), k - 1);
    JoinTotal(f0, k);
    JoinTotal(Join(f0, k), k - 1);
    hide Join, Insert, Position, InFree, FreeBytes, ChunkOk;
  }

  /** Whatever was sunk stays sunk, and the returned chunk's header is sunk too. */
  lemma PutBackSunk(free: seq<Chunk>, c: Chunk, p: int)
    requires ChunkOk(c) && forall i | 0 <= i < |free| :: ChunkOk(free[i])
    requires Sunk(free, p) || p == c.addr
    ensures Sunk(PutBack(free, c), p)
  {
    var k: int := Position(free, c.addr);
    var f0 := Insert(free, c);
    InsertOk(free, c);
    InsertSunk(free, c, p);
    JoinOk(f0, k);
    JoinSunk(f0, k, p);
    JoinSunk(Join(f0, k), k - 1, p);
  }

  lemma ReleaseKeeps(h: Heap, j: nat)
    requires Inv(h) && j < |h.live|
    ensures Inv(Release(h, j))
  {
    var c := h.live[j].chunk;
    assert LoanOk(h.live[j]);
    DropApart(h.free, h.live, j);
    PutBackOrdered(h.free, c);
    PutBackApart(h.free, c, h.live[..j] + h.live[j + 1..]);
    PutBackBytes(h.free, c);
    UsedBytesDrop(h.live, j);
    forall x: int { LiveDrop(h.live, j, x); }
    forall p | p in h.stale + {c.addr} { PutBackSunk(h.free, c, p); }
  }

  // --- bounds -------------------------------------------------------------------

  /** No chunk reaches past the end of the highest frame. */
  lemma Below(h: Heap, top: int)
    requires Inv(h) && forall b | b in h.frames :: b + FRAME <= top
    ensures forall i | 0 <= i < |h.free| :: h.free[i].End() <= top
    ensures forall j | 0 <= j < |h.live| :: h.live[j].chunk.End() <= top
  {
    forall i | 0 <= i < |h.free| ensures h.free[i].End() <= top {
      assert h.free[i].Holds(h.free[i].End() - 1);
      assert InFree(h.free, h.free[i].End() - 1);
    }
    forall j | 0 <= j < |h.live| ensures h.live[j].chunk.End() <= top {
      assert LoanOk(h.live[j]);
      assert h.live[j].chunk.Holds(h.live[j].chunk.End() - 1);
      assert InLive(h.live, h.live[j].chunk.End() - 1);
    }
  }

  lemma {:induction false} FreeBytesNatural(free: seq<Chunk>)
    requires forall i | 0 <= i < |free| :: ChunkOk(free[i])
    ensures FreeBytes(free) >= 0
  {
    if |free| > 0 {
      FreeBytesNatural(free[..|free| - 1]);
    }
  }

  lemma {:induction false} UsedBytesNatural(live: seq<Loan>)
    requires forall j | 0 <= j < |live| :: live[j].chunk.size >= 0
    ensures UsedBytes(live) >= 0
  {
    if |live| > 0 {
      UsedBytesNatural(live[..|live| - 1]);
    }
  }

  /** At most `n` frames fit in `n` frames' worth of addresses. */
  lemma {:induction false} FramesFit(frames: set<int>, lo: int, n: nat)
    requires lo % FRAME == 0
    requires forall b | b in frames :: b % FRAME == 0 && lo <= b < lo + n * FRAME
    ensures |frames| <= n
  {
    if n == 0 {
      assert forall b :: b !in frames;
    } else {
      var last := lo + (n - 1) * FRAME;
      forall b | b in frames - {last} ensures b < last {
        assert b < lo + n * FRAME;
      }
      FramesFit(frames - {last}, lo, n - 1);
    }
  }

  /** The bytes in use never reach the end of the address space. */
  lemma UsedFits(h: Heap, lo: int, n: nat)
    requires Inv(h) && lo % FRAME == 0
    requires forall b | b in h.frames :: lo <= b < lo + n * FRAME
    ensures 0 <= UsedBytes(h.live) <= n * FRAME && |h.frames| <= n
  {
    assert forall j | 0 <= j < |h.live| :: LoanOk(h.live[j]);
    UsedBytesNatural(h.live);
    FramesFit(h.frames, lo, n);
    FreeBytesNatural(h.free);
  }

  // --- no empty payloads ----------------------------------------------------------------

  lemma JoinPositive(free: seq<Chunk>, i: int)
    requires forall j | 0 <= j < |free| :: free[j].size > 0
    ensures forall j | 0 <= j < |Join(free, i)| :: Join(free, i)[j].size > 0
  {
  }

  /** Lending at least one byte, growing and ending loans make no empty payload. */
  lemma StaysPositive(h: Heap)
    requires Positive(h)
    ensures forall k: nat, n: int, want: u64 | k < |h.free| && 0 < n :: Positive(Carve(h, k, n, want))
    ensures forall base: int :: Positive(Grow(h, base))
    ensures forall j: nat | j < |h.live| :: Positive(Release(h, j))
  {
    forall k: nat, n: int, want: u64 | k < |h.free| && 0 < n ensures Positive(Carve(h, k, n, want)) {
      CarveAt(h.free, k, n);
    }
    forall j: nat | j < |h.live| ensures Positive(Release(h, j)) {
      var c := h.live[j].chunk;
      var k: int := Position(h.free, c.addr);
      JoinPositive(Insert(h.free, c), k);
      JoinPositive(Join(Insert(h.free, c), k), k - 1);
    }
  }

  // --- kmalloc and kfree undo each other -----------------------------------------------

  lemma FrontPosition(free: seq<Chunk>, f: seq<Chunk>, k: nat, n: int)
    requires Sorted(free) && k < |free| && 0 <= n && Carved(free, f, k, n)
    requires forall i | 0 <= i < |free| :: free[i].size >= 0
    ensures Position(f, free[k].addr) == k
  {
    hide Position;
    assert forall i | 0 <= i < k :: free[i].End() <= free[k].addr;
    assert !Splits(free[k], n) && k < |f| ==> free[k].End() <= free[k + 1].addr;
    PositionIs(f, free[k].addr, k);
  }

  /** Where the front goes back: beside the rest of its chunk, or into the gap the whole chunk left. */
  lemma FrontGoesBack(free: seq<Chunk>, k: nat, n: int)
    requires k < |free| && Position(CarveList(free, k, n), free[k].addr) == k
    ensures Insert(CarveList(free, k, n), Front(free[k], n))
         == free[..k] + [Front(free[k], n)] + (if Splits(free[k], n) then [Rest(free[k], n)] else []) + free[k + 1..]
  {
    hide Position, Splits, Rest;
    var f, mid := CarveList(free, k, n), if Splits(free[k], n) then [Rest(free[k], n)] else [];
    assert f[..k] == free[..k];
    assert f[k..] == mid + free[k + 1..];
  }

  lemma JoinBoth(free: seq<Chunk>, f0: seq<Chunk>, k: nat)
    requires f0 == free || Join(f0, k) == free
    ensures Join(Join(f0, k), k - 1) == free
      <==> !Joins(free, k - 1) && (f0 != free || !Joins(free, k))
  {
    JoinLength(free, k - 1);
    JoinLength(f0, k);
    JoinLength(Join(free, k), k - 1);
    hide Join, Joins;
  }

  /** Putting the front of a carved chunk back restores the list exactly when nothing else touched it. */
  lemma CarveThenPutBack(free: seq<Chunk>, k: nat, n: int)
    requires Sorted(free) && k < |free| && 0 <= n && (forall i | 0 <= i < |free| :: free[i].size >= 0)
    ensures PutBack(CarveList(free, k, n), Front(free[k], n)) == free
      <==> !Joins(free, k - 1) && (Splits(free[k], n) || !Joins(free, k))
  {
    CarveAt(free, k, n);
    FrontPosition(free, CarveList(free, k, n), k, n);
    FrontGoesBack(free, k, n);
    var f0 := Insert(CarveList(free, k, n), Front(free[k], n));
    if Splits(free[k], n) {
      RejoinFront(free, k, n);
      assert |f0| == |free| + 1;
    } else {
      assert f0 == free;
    }
    JoinBoth(free, f0, k);
    hide Insert, Position, Joins, Join, Sorted, CarveList;
  }

  lemma RejoinFront(free: seq<Chunk>, k: nat, n: int)
    requires k < |free| && Splits(free[k], n)
    ensures Join(free[..k] + [Front(free[k], n)] + [Rest(free[k], n)] + free[k + 1..], k) == free
  {
    var f := free[..k] + [Front(free[k], n)] + [Rest(free[k], n)] + free[k + 1..];
    assert f[k] == Front(free[k], n) && f[k + 1] == Rest(free[k], n);
    assert f[..k] == free[..k] && f[k + 2..] == free[k + 1..];
    assert free == free[..k] + [free[k]] + free[k + 1..];
  }

  lemma JoinLength(free: seq<Chunk>, i: int)
    ensures |Join(free, i)| == if Joins(free, i) then |free| - 1 else |free|
    ensures !Joins(free, i) ==> Join(free, i) == free
  {
  }

  /** Ending the loan just carved gives back the bytes in use and the very set of free bytes; the free list
      is the same chunk for chunk exactly when the block taken touched no free neighbour it could merge with. */
  lemma RoundTrip(h: Heap, k: nat, want: u64)
    requires Inv(h) && k < |h.free| && want > 0 && RoundUp16(want) <= h.free[k].size
    ensures |Carve(h, k, RoundUp16(want), want).live| == |h.live| + 1
    ensures Undone(h, k, RoundUp16(want), Release(Carve(h, k, RoundUp16(want), want), |h.live|))
  {
    hide Tiles, LoansApart, Balanced, PutBack;
    RoundTripBytes(h.free, k, RoundUp16(want));
    assert forall i | 0 <= i < |h.free| :: ChunkOk(h.free[i]);
    CarveThenPutBack(h.free, k, RoundUp16(want));
  }

  lemma RoundTripBytes(free: seq<Chunk>, k: nat, n: int)
    requires Ordered(free) && k < |free| && 0 <= n <= free[k].size && n % 16 == 0
    ensures var back := PutBack(CarveList(free, k, n), Front(free[k], n));
      && (forall x: int :: InFree(back, x) <==> InFree(free, x))
      && FreeBytes(back) + HEADER * |back| == FreeBytes(free) + HEADER * |free|
  {
    var c, f := free[k], CarveList(free, k, n);
    assert ChunkOk(c) && ChunkOk(Front(c, n));
    CarveAt(free, k, n);
    CarveOk(free, f, k, n);
    CarveTotal(free, k, n);
    PutBackBytes(f, Front(c, n));
    hide PutBack, FreeBytes, CarveList, Front, ChunkOk, Carved, Sorted, SpacedBut;
    forall x: int ensures InFree(PutBack(f, Front(c, n)), x) <==> InFree(free, x) {
      CarveInFree(free, f, k, n, x);
    }
  }

  // --- the lists an allocation and a free leave behind --------------------------------------

  /** The returned chunk's neighbours on the list are the only chunks that can touch it. */
  lemma TouchingNeighbours(free: seq<Chunk>, c: Chunk, i: nat)
    requires Sorted(free) && c.size >= 0 && i < |free|
    requires forall j | 0 <= j < |free| :: free[j].size >= 0 && Apart(free[j], c)
    ensures var k := Position(free, c.addr);
      && (free[i].End() == c.addr ==> i + 1 == k) && (free[i].addr == c.End() ==> i == k)
      && (i < k ==> free[i].End() <= c.addr) && (i >= k ==> c.End() <= free[i].addr)
  {
    var k := Position(free, c.addr);
    assert Apart(free[i], c);
    if i + 1 < k {
      assert Apart(free[k - 1], c) && free[i].End() <= free[k - 1].addr;
    }
    if k < i {
      assert Apart(free[k], c) && free[k].End() <= free[i].addr;
    }
  }

  lemma InsertMembers(free: seq<Chunk>, c: Chunk, e: Chunk)
    ensures e in Insert(free, c) <==> e in free || e == c
  {
    var k := Position(free, c.addr);
    assert free == free[..k] + free[k..];
  }

  /** No chunk stands on a sorted list twice. */
  lemma OnlyOnce(f: seq<Chunk>, i: nat, j: nat)
    requires Sorted(f) && i < |f| && j < |f| && f[i] == f[j] && f[i].size >= 0
    ensures i == j
  {
  }

  lemma JoinedEnd(f: seq<Chunk>, i: nat)
    requires Joins(f, i)
    ensures Chunk(f[i].addr, f[i].size + HEADER + f[i + 1].size)
         == Chunk(f[i].addr, f[i + 1].End() - f[i].addr - HEADER)
  {
  }

  /** Where the chunks of a list go when entry `i` absorbs the next. */
  lemma JoinIndex(f: seq<Chunk>, i: nat)
    requires Joins(f, i)
    ensures var g := Join(f, i);
      && |g| == |f| - 1 && g[i] == Chunk(f[i].addr, f[i + 1].End() - f[i].addr - HEADER)
      && (forall j {:trigger g[j]} | 0 <= j < |g| && j != i :: g[j] == f[if j < i then j else j + 1])
      && (forall j {:trigger f[j]} | 0 <= j < |f| && j != i && j != i + 1 :: g[if j < i then j else j - 1] == f[j])
  {
    var g := Join(f, i);
    JoinLength(f, i);
    JoinedEnd(f, i);
    hide Join;
    JoinAt(f, i, i);
    forall j: nat | j < |f| && j != i && j != i + 1 ensures g[if j < i then j else j - 1] == f[j] {
      JoinAt(f, i, if j < i then j else j - 1);
    }
    forall j: nat | j < |g| && j != i ensures g[j] == f[if j < i then j else j + 1] {
      JoinAt(f, i, j);
    }
  }

  /** Joining puts one chunk in the place of two. */
  lemma JoinMembers(f: seq<Chunk>, i: nat, e: Chunk)
    requires Sorted(f) && Joins(f, i) && forall j | 0 <= j < |f| :: f[j].size >= 0
    ensures e in Join(f, i) <==>
      e == Chunk(f[i].addr, f[i + 1].End() - f[i].addr - HEADER) || (e in f && e != f[i] && e != f[i + 1])
  {
    JoinIndex(f, i);
    var g := Join(f, i);
    forall j: nat | j < |f|
      ensures (f[j] == f[i] ==> j == i) && (f[j] == f[i + 1] ==> j == i + 1)
    {
      if f[j] == f[i] { OnlyOnce(f, i, j); }
      if f[j] == f[i + 1] { OnlyOnce(f, i + 1, j); }
    }
    hide Join, Sorted;
  }

  /** Which chunks touch the returned one: its neighbours on the list, if they do. */
  lemma WhoTouches(free: seq<Chunk>, c: Chunk, e: Chunk)
    requires Sorted(free) && c.size >= 0
    requires forall j | 0 <= j < |free| :: free[j].size >= 0 && Apart(free[j], c)
    ensures var k := Position(free, c.addr);
      && (e in free && e.End() == c.addr ==> k > 0 && e == free[k - 1])
      && (e in free && e.addr == c.End() ==> k < |free| && e == free[k])
      && (e in free ==> e.addr != c.addr)
  {
    if e in free {
      var i: nat :| i < |free| && free[i] == e;
      TouchingNeighbours(free, c, i);
    }
    hide Sorted, Position;
  }

  /** The chunk that ends up around the returned one: from its left neighbour, if that touches, to its right one. */
  function Whole(free: seq<Chunk>, c: Chunk): Chunk {
    var k := Position(free, c.addr);
    var a := if k > 0 && free[k - 1].End() == c.addr then free[k - 1].addr else c.addr;
    var b := if k < |free| && free[k].addr == c.End() then free[k].End() else c.End();
    Chunk(a, b - a - HEADER)
  }

  lemma WholeSpans(free: seq<Chunk>, c: Chunk)
    requires Sorted(free) && c.size >= 0
    requires forall j | 0 <= j < |free| :: free[j].size >= 0 && Apart(free[j], c)
    ensures FreeFrom(free, c, Whole(free, c).addr) && FreeUpTo(free, c, Whole(free, c).End())
  {
    var k := Position(free, c.addr);
    forall e | e in free
      ensures e.End() == c.addr ==> k > 0 && e == free[k - 1]
      ensures e.addr == c.End() ==> k < |free| && e == free[k]
    {
      WhoTouches(free, c, e);
    }
    hide Sorted, Apart, Position;
    assert k > 0 ==> free[k - 1] in free;
    assert k < |free| ==> free[k] in free;
  }

  /** The list with the returned chunk at its place. */
  lemma InsertFacts(free: seq<Chunk>, c: Chunk)
    requires Sorted(free) && c.size >= 0
    requires forall j | 0 <= j < |free| :: free[j].size >= 0 && Apart(free[j], c)
    ensures var k := Position(free, c.addr); var f := Insert(free, c);
      && Sorted(f) && |f| == |free| + 1 && k < |f| && f[k] == c && (forall j | 0 <= j < |f| :: f[j].size >= 0)
      && (k < |free| ==> f[k + 1] == free[k]) && (k > 0 ==> f[k - 1] == free[k - 1])
  {
    InsertSorted(free, c);
    forall j: nat | j < |free| + 1 ensures Insert(free, c)[j].size >= 0 {
      InsertAt(free, c, j);
    }
  }

  /** The list after one merge. */
  lemma JoinFacts(f: seq<Chunk>, i: nat)
    requires Sorted(f) && i < |f| && forall j | 0 <= j < |f| :: f[j].size >= 0
    ensures var g := Join(f, i);
      && Sorted(g) && i < |g| && (forall j | 0 <= j < |g| :: g[j].size >= 0)
      && g[i] == (if Joins(f, i) then Chunk(f[i].addr, f[i + 1].End() - f[i].addr - HEADER) else f[i])
      && (i > 0 ==> g[i - 1] == f[i - 1]) && (!Joins(f, i) ==> g == f)
  {
    JoinSorted(f, i);
    if Joins(f, i) {
      JoinIndex(f, i);
    } else {
      assert Join(f, i) == f;
    }
    hide Join, Sorted;
  }

  /** The list after the forward merge: its chunks, and what stands at the returned chunk's place and before it. */
  lemma FirstMerge(free: seq<Chunk>, c: Chunk, k: nat, f: seq<Chunk>, e: Chunk)
    requires Sorted(free) && c.size >= 0 && k == Position(free, c.addr) && f == Join(Insert(free, c), k)
    requires forall j | 0 <= j < |free| :: free[j].size >= 0 && Apart(free[j], c)
    ensures Sorted(f) && k < |f| && (forall j | 0 <= j < |f| :: f[j].size >= 0) && k <= |free|
    ensures k > 0 ==> f[k - 1] == free[k - 1]
    ensures if k < |free| && free[k].addr == c.End()
      then
        && f[k] == Chunk(c.addr, free[k].End() - c.addr - HEADER)
        && (e in f <==> e == f[k] || (e in free && e != free[k]))
      else f[k] == c && (e in f <==> e in free || e == c)
  {
    hide Insert, Position, Sorted, Apart, Join;
    InsertFacts(free, c);
    InsertMembers(free, c, e);
    WhoTouches(free, c, e);
    JoinFacts(Insert(free, c), k);
    if k < |free| && free[k].addr == c.End() {
      JoinMembers(Insert(free, c), k, e);
    }
  }

  lemma PutBackIs(free: seq<Chunk>, c: Chunk, k: nat, f: seq<Chunk>)
    requires k == Position(free, c.addr) && f == Join(Insert(free, c), k)
    ensures PutBack(free, c) == (if k > 0 && Joins(f, k - 1) then Join(f, k - 1) else f)
  {
    hide Insert, Position;
  }

  /** Which chunks are listed after both merges. */
  lemma PutBackMembers(free: seq<Chunk>, c: Chunk, e: Chunk)
    requires Sorted(free) && c.size >= 0
    requires forall j | 0 <= j < |free| :: free[j].size >= 0 && Apart(free[j], c)
    ensures e in PutBack(free, c) <==> e == Whole(free, c) || (e in free && e.End() != c.addr && e.addr != c.End())
  {
    hide Insert, Position, Sorted, Apart, Join, PutBack;
    var k := Position(free, c.addr);
    var f := Join(Insert(free, c), k);
    FirstMerge(free, c, k, f, e);
    WhoTouches(free, c, e);
    PutBackIs(free, c, k, f);
    if k > 0 && free[k - 1].End() == c.addr {
      JoinMembers(f, k - 1, e);
    }
  }

  lemma PutBackMerges(free: seq<Chunk>, c: Chunk)
    requires Sorted(free) && c.size >= 0
    requires forall j | 0 <= j < |free| :: free[j].size >= 0 && Apart(free[j], c)
    ensures Merged(free, c, PutBack(free, c))
  {
    hide PutBack, Sorted, Apart, Position, Whole, FreeFrom, FreeUpTo;
    var d := Whole(free, c);
    WholeSpans(free, c);
    forall e ensures e in PutBack(free, c) <==> e == d || (e in free && e.End() != c.addr && e.addr != c.End()) {
      PutBackMembers(free, c, e);
    }
    assert d == Chunk(d.addr, d.End() - d.addr - 32);
  }

  /** Membership in a list whose middle part was replaced by one chunk. */
  lemma Members(free: seq<Chunk>, i: nat, j: nat, d: Chunk, e: Chunk)
    requires i <= j <= |free|
    ensures e in free[..i] + [d] + free[j..] <==> e == d || exists m | 0 <= m < |free| && !(i <= m < j) :: free[m] == e
  {
    if m :| 0 <= m < |free| && !(i <= m < j) && free[m] == e {
      if m < i {
        assert free[..i][m] == e;
      } else {
        assert free[j..][m - j] == e;
      }
    }
  }

  /** Ending a loan lists its chunk as one with the free chunks that touch it, and changes no other. */
  lemma ReleaseMerges(h: Heap, j: nat)
    requires Inv(h) && j < |h.live|
    ensures Merged(h.free, h.live[j].chunk, Release(h, j).free)
  {
    assert LoanOk(h.live[j]) && forall i | 0 <= i < |h.free| :: ChunkOk(h.free[i]);
    PutBackMerges(h.free, h.live[j].chunk);
    hide Merged, Tiles, PutBack;
  }

  /** Lending changes the one chunk it takes from. */
  lemma CarveShrinks(h: Heap, k: nat, n: int, want: u64)
    requires Inv(h) && k < |h.free| && n >= 0
    ensures Shrunk(h.free, h.free[k], n, Carve(h, k, n, want).free)
  {
    var c := h.free[k];
    assert forall i | 0 <= i < |h.free| :: ChunkOk(h.free[i]);
    forall i | 0 <= i < |h.free| ensures h.free[i] == c <==> i == k {
      if i < k { assert h.free[i].End() <= c.addr; }
      if k < i { assert c.End() <= h.free[i].addr; }
    }
    hide Sorted, Inv;
    forall e ensures e in Carve(h, k, n, want).free
      <==> (e in h.free && e != c) || (Splits(c, n) && e == Rest(c, n))
    {
      if Splits(c, n) {
        Members(h.free, k, k + 1, Rest(c, n), e);
      } else {
        assert h.free[..k] + [] + h.free[k + 1..] == h.free[..k] + h.free[k + 1..];
        Members(h.free, k, k + 1, c, e);
        Without(h.free, k, e);
      }
    }
  }

  lemma Without(free: seq<Chunk>, k: nat, e: Chunk)
    requires k < |free|
    ensures e in free[..k] + free[k + 1..] <==> exists m | 0 <= m < |free| && m != k :: free[m] == e
  {
    if m :| 0 <= m < |free| && m != k && free[m] == e {
      if m < k {
        assert free[..k][m] == e;
      } else {
        assert free[k + 1..][m - k - 1] == e;
      }
    }
  }
}
