/** Machine words, the constants shared by the memory code, and the ways a call can end. */
module Machine {
  const TWO_64: int := 0x1_0000_0000_0000_0000
  const FRAME: int := 0x1000

  type u64 = x: int | 0 <= x < TWO_64

  /** Unsigned 64-bit arithmetic: keep the low 64 bits. */
  function Wrap(x: int): u64 {
    x % TWO_64
  }

  /** The start of the 4 KiB page that holds `a`. */
  function PageOf(a: int): int {
    a - a % FRAME
  }

  datatype Option<+T> = None | Some(value: T)

  /** The messages `panic` is called with by the memory code. */
  datatype Panic =
    | HeapNotInitiated
    | ZeroHeapAllocation
    | HeapOverflow
    | HeapInvalidFree
    | HeapDoubleFree
    | OutOfMemory
    | BitmapDoesNotFit
    | BitmapNotReady
    | AddressNotAligned
    | OutOfFrameCount
    | BetweenBitmapAddress
    | FrameNotAllocated

  /** A call either returns or ends in `panic`, which never returns. */
  datatype Outcome<+T> = Returned(value: T) | Panicked(reason: Panic)
}
