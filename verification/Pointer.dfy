/** The mouse as a state machine over the bytes its interrupt delivers. */
module PointerModel {
  import opened Machine
  import Bits

  const CURSOR_SIZE: int := 4
  const ACKNOWLEDGE: bv8 := 0xFA

  /** Bytes of the packet so far, how many there are, and the position. */
  datatype Pointer = Pointer(packet: seq<bv8>, index: nat, x: int, y: int)

  /** A two's complement byte. */
  function Signed(b: bv8): int {
    if b < 0x80 then b as int else b as int - 256
  }

  /** Move along one axis and stay on a screen of `size` pixels; the comparison is unsigned. */
  function Moved(position: int, movement: int, size: u64): int {
    var p := position + movement;
    var q := if p < 0 then 0 else p;
    if q > Wrap(size - CURSOR_SIZE) then size - CURSOR_SIZE else q
  }

  predicate StartsPacket(b: bv8) {
    b != ACKNOWLEDGE && b & 0x08 != 0
  }

  /** The overflow bits of a packet's first byte. */
  predicate Overflowed(b: bv8) {
    b & 0xC0 != 0
  }

  /** What one interrupt byte does. */
  function Feed(p: Pointer, b: bv8, width: u64, height: u64): Pointer
    requires |p.packet| == 3 && p.index < 3
  {
    if p.index == 0 && !StartsPacket(b) then p else
    var packet := p.packet[p.index := b];
    if p.index < 2 then p.(packet := packet, index := p.index + 1)
    else if Overflowed(packet[0]) then p.(packet := packet, index := 0)
    else Pointer(packet, 0, Moved(p.x, Signed(packet[1]), width), Moved(p.y, -Signed(packet[2]), height))
  }

  predicate Fits(p: Pointer, width: u64, height: u64) {
    0 <= p.x <= width - CURSOR_SIZE && 0 <= p.y <= height - CURSOR_SIZE
  }

  predicate Sound(p: Pointer, width: u64, height: u64) {
    |p.packet| == 3 && p.index < 3 && 0 <= p.x < width && 0 <= p.y < height
  }

  predicate Screen(width: u64, height: u64) {
    CURSOR_SIZE <= width < 0x4000_0000 && CURSOR_SIZE <= height < 0x4000_0000
  }

  function Start(packet: seq<bv8>, index: nat, width: u64, height: u64): Pointer {
    Pointer(packet, index, width / 2, height / 2)
  }

  /** The square drawn first fits exactly on screens of at least 7 by 7. */
  lemma StartFits(packet: seq<bv8>, index: nat, width: u64, height: u64)
    ensures Fits(Start(packet, index, width, height), width, height) <==> width >= 7 && height >= 7
  {
  }

  lemma MovedStays(position: int, movement: int, size: u64)
    requires CURSOR_SIZE <= size
    ensures 0 <= Moved(position, movement, size) <= size - CURSOR_SIZE
  {
  }

  lemma FeedKeeps(p: Pointer, b: bv8, width: u64, height: u64)
    requires Sound(p, width, height) && Screen(width, height)
    ensures Sound(Feed(p, b, width, height), width, height)
    ensures Fits(p, width, height) ==> Fits(Feed(p, b, width, height), width, height)
    ensures var q := Feed(p, b, width, height); (q.x, q.y) != (p.x, p.y) ==> Fits(q, width, height)
  {
  }

  function FeedAll(p: Pointer, bytes: seq<bv8>, width: u64, height: u64): (q: Pointer)
    requires Sound(p, width, height) && Screen(width, height)
    ensures Sound(q, width, height)
    decreases |bytes|
  {
    if |bytes| == 0 then p else
    FeedKeeps(p, bytes[0], width, height);
    FeedAll(Feed(p, bytes[0], width, height), bytes[1..], width, height)
  }

  /** Over every byte stream, on a screen of at least 7 by 7, the square never leaves the screen. */
  lemma {:induction false} AlwaysFits(p: Pointer, bytes: seq<bv8>, width: u64, height: u64)
    requires Sound(p, width, height) && Screen(width, height) && Fits(p, width, height)
    ensures Fits(FeedAll(p, bytes, width, height), width, height)
    decreases |bytes|
  {
    if |bytes| > 0 {
      FeedKeeps(p, bytes[0], width, height);
      AlwaysFits(Feed(p, bytes[0], width, height), bytes[1..], width, height);
    }
  }

  // --- packets --------------------------------------------------------------------------

  datatype Packet = Packet(flags: bv8, dx: bv8, dy: bv8)

  function Bytes(ps: seq<Packet>): seq<bv8> {
    if |ps| == 0 then [] else [ps[0].flags, ps[0].dx, ps[0].dy] + Bytes(ps[1..])
  }

  /** Where a list of packets moves the pointer; overflowing ones are dropped. */
  function Track(x: int, y: int, ps: seq<Packet>, width: u64, height: u64): (int, int)
    decreases |ps|
  {
    if |ps| == 0 then (x, y)
    else if Overflowed(ps[0].flags) then Track(x, y, ps[1..], width, height)
    else Track(Moved(x, Signed(ps[0].dx), width), Moved(y, -Signed(ps[0].dy), height), ps[1..], width, height)
  }

  lemma OnePacket(p: Pointer, k: Packet, width: u64, height: u64)
    requires Sound(p, width, height) && Screen(width, height) && p.index == 0 && StartsPacket(k.flags)
    ensures var p1 := Feed(p, k.flags, width, height); var p2 := Feed(p1, k.dx, width, height);
      Feed(p2, k.dy, width, height) == Pointer([k.flags, k.dx, k.dy], 0,
        if Overflowed(k.flags) then p.x else Moved(p.x, Signed(k.dx), width),
        if Overflowed(k.flags) then p.y else Moved(p.y, -Signed(k.dy), height))
  {
    hide StartsPacket, Overflowed, Signed, Moved;
    var p1 := Feed(p, k.flags, width, height);
    var p2 := Feed(p1, k.dx, width, height);
    assert p2.packet[2 := k.dy] == [k.flags, k.dx, k.dy];
  }

  /** A movement byte stands for the number between -128 and 127 that it equals modulo 256. */
  lemma SignedByValue(b: bv8)
    ensures -128 <= Signed(b) <= 127 && (Signed(b) - b as int) % 256 == 0
  {
  }

  /** The place of `0..last` nearest to `target`. */
  function Nearest(target: int, last: int): int {
    if target < 0 then 0 else if target > last then last else target
  }

  /** The pointer goes where the movement leads, or to the end of the screen nearest to there. */
  lemma MovedByValue(position: int, movement: int, size: u64)
    requires size >= 4
    ensures Moved(position, movement, size) == Nearest(position + movement, size - 4)
  {
  }

  /** A packet starts with a byte whose bit 3 is one, except the acknowledgement; its two top bits report overflow. */
  lemma FlagsByValue(b: bv8)
    ensures StartsPacket(b) <==> b != 250 && Bits.Digit(b, 8)
    ensures Overflowed(b) <==> b >= 64
  {
    Bits.DigitIsBit(b, 8);
    hide Bits.Digit;
  }

  /** Between packets, any byte that cannot start one is ignored. */
  lemma StrayByteIgnored(p: Pointer, b: bv8, width: u64, height: u64)
    requires Sound(p, width, height) && p.index == 0 && (b == 250 || !Bits.Digit(b, 8))
    ensures Feed(p, b, width, height) == p
  {
    FlagsByValue(b);
    hide Bits.Digit, StartsPacket;
  }

  /** One whole packet: right is positive in x, up is positive in y, and an overflowed packet moves nothing. */
  lemma PacketMoves(p: Pointer, k: Packet, sx: int, sy: int, width: u64, height: u64)
    requires Sound(p, width, height) && Screen(width, height) && p.index == 0
    requires k.flags != 250 && Bits.Digit(k.flags, 8)
    requires -128 <= sx <= 127 && (sx - k.dx as int) % 256 == 0
    requires -128 <= sy <= 127 && (sy - k.dy as int) % 256 == 0
    ensures Sound(Feed(p, k.flags, width, height), width, height)
    ensures Sound(Feed(Feed(p, k.flags, width, height), k.dx, width, height), width, height)
    ensures var q := Feed(Feed(Feed(p, k.flags, width, height), k.dx, width, height), k.dy, width, height);
      && q.index == 0
      && q.x == (if k.flags >= 64 then p.x else Nearest(p.x + sx, width - 4))
      && q.y == (if k.flags >= 64 then p.y else Nearest(p.y - sy, height - 4))
  {
    FlagsByValue(k.flags);
    SignedIs(k.dx, sx);
    SignedIs(k.dy, sy);
    MovedByValue(p.x, sx, width);
    MovedByValue(p.y, -sy, height);
    hide Bits.Digit, StartsPacket, Overflowed, Signed, Moved, Nearest;
    FeedKeeps(p, k.flags, width, height);
    FeedKeeps(Feed(p, k.flags, width, height), k.dx, width, height);
    OnePacket(p, k, width, height);
  }

  lemma SignedIs(b: bv8, s: int)
    requires -128 <= s <= 127 && (s - b as int) % 256 == 0
    ensures Signed(b) == s
  {
    SignedByValue(b);
    hide Signed;
  }

  /** Whole packets are tracked one by one, whatever their movement bytes look like. */
  lemma {:induction false} PacketsAreTracked(p: Pointer, ps: seq<Packet>, width: u64, height: u64)
    requires Sound(p, width, height) && Screen(width, height) && p.index == 0
    requires forall i | 0 <= i < |ps| :: StartsPacket(ps[i].flags)
    ensures var q := FeedAll(p, Bytes(ps), width, height);
      q.index == 0 && (q.x, q.y) == Track(p.x, p.y, ps, width, height)
    decreases |ps|
  {
    hide Feed, StartsPacket, Overflowed, Signed, Moved, FeedAll;
    if |ps| > 0 {
      var k, rest := ps[0], Bytes(ps[1..]);
      FeedFirst(p, k.flags, [k.dx, k.dy] + rest, width, height);
      var p1 := Feed(p, k.flags, width, height);
      FeedFirst(p1, k.dx, [k.dy] + rest, width, height);
      var p2 := Feed(p1, k.dx, width, height);
      FeedFirst(p2, k.dy, rest, width, height);
      OnePacket(p, k, width, height);
      assert Bytes(ps) == [k.flags] + ([k.dx, k.dy] + rest) && [k.dx, k.dy] + rest == [k.dx] + ([k.dy] + rest);
      PacketsAreTracked(Feed(p2, k.dy, width, height), ps[1..], width, height);
    } else {
      FeedNothing(p, width, height);
    }
  }

  lemma FeedNothing(p: Pointer, width: u64, height: u64)
    requires Sound(p, width, height) && Screen(width, height)
    ensures FeedAll(p, [], width, height) == p
  {
  }

  lemma FeedFirst(p: Pointer, b: bv8, rest: seq<bv8>, width: u64, height: u64)
    requires Sound(p, width, height) && Screen(width, height)
    ensures Sound(Feed(p, b, width, height), width, height)
    ensures FeedAll(p, [b] + rest, width, height) == FeedAll(Feed(p, b, width, height), rest, width, height)
  {
    FeedKeeps(p, b, width, height);
    assert ([b] + rest)[1..] == rest;
  }
}
