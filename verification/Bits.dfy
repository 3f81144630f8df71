/** Packed bitmaps: one bit per 4 KiB frame, eight frames per byte. */
module Bits {
  import opened Machine

  function Mask(k: nat): bv8
    requires k < 8
  {
    1 << k
  }

  predicate Has(v: bv8, k: nat)
    requires k < 8
  {
    v & Mask(k) != 0
  }

  function Raise(v: bv8, k: nat): bv8
    requires k < 8
  {
    v | Mask(k)
  }

  function Lower(v: bv8, k: nat): bv8
    requires k < 8
  {
    v & !Mask(k)
  }

  /** Bit `f` of a packed bitmap. */
  predicate Test(bits: seq<bv8>, f: nat)
    requires f / 8 < |bits|
  {
    Has(bits[f / 8], f % 8)
  }

  /** The `k`-th power of two. */
  function Weight(k: nat): bv8
    requires k < 8
  {
    if k == 0 then 1 else if k == 1 then 2 else if k == 2 then 4 else if k == 3 then 8
    else if k == 4 then 16 else if k == 5 then 32 else if k == 6 then 64 else 128
  }

  lemma MaskTable(k: nat)
    requires k < 8
    ensures Mask(k) == Weight(k)
  {
    if k == 0 {
    } else if k == 1 {
    } else if k == 2 {
    } else if k == 3 {
    } else if k == 4 {
    } else if k == 5 {
    } else if k == 6 {
    } else {
    }
  }

  /** The binary digit of `v` with this weight is one. */
  predicate Digit(v: bv8, weight: bv8) {
    weight != 0 && (v / weight) % 2 == 1
  }

  lemma DigitIsBit(v: bv8, w: bv8)
    requires w == 1 || w == 2 || w == 4 || w == 8 || w == 16 || w == 32 || w == 64 || w == 128
    ensures Digit(v, w) <==> v & w != 0
  {
  }

  /** Frame `f`'s bit is binary digit `f % 8` of byte `f / 8`, counted from the least significant. */
  lemma TestByValue(bits: seq<bv8>, f: nat)
    requires f / 8 < |bits|
    ensures Test(bits, f) <==> Digit(bits[f / 8], Weight(f % 8))
  {
    hide Mask, Digit;
    MaskTable(f % 8);
    DigitIsBit(bits[f / 8], Weight(f % 8));
  }

  lemma SetMask(v: bv8, m: bv8, n: bv8)
    ensures m & n == 0 ==> (v | m) & n == v & n && (v & !m) & n == v & n
    ensures m != 0 ==> (v | m) & m != 0
    ensures (v & !m) & m == 0
  {
  }

  lemma MasksApart(i: nat, j: nat)
    requires i < 8 && j < 8
    ensures Mask(i) != 0 && (i != j ==> Mask(i) & Mask(j) == 0)
  {
    MaskTable(i);
    MaskTable(j);
  }

  /** Different bits of a byte have disjoint masks, so changing one bit leaves the others alone. */
  lemma OtherBits(v: bv8, i: nat, j: nat)
    requires i < 8 && j < 8
    ensures Has(Raise(v, i), j) <==> i == j || Has(v, j)
    ensures Has(Lower(v, i), j) <==> i != j && Has(v, j)
  {
    MasksApart(i, j);
    hide Mask;
    SetMask(v, Mask(i), Mask(j));
  }

  /** The bit of the frame at `address` becomes one; every other bit stays. */
  method MarkUsed(bits: array<bv8>, address: u64)
    requires address / FRAME / 8 < bits.Length
    modifies bits
    ensures forall f: nat | f / 8 < bits.Length ::
      Test(bits[..], f) <==> f == address / FRAME || old(Test(bits[..], f))
  {
    hide Mask, Has, Raise, Lower;
    var frameIndex := address / FRAME;
    var byteIndex := frameIndex / 8;
    var bitIndex := frameIndex % 8;
    bits[byteIndex] := Raise(bits[byteIndex], bitIndex);
    forall f: nat | f / 8 < bits.Length
      ensures Test(bits[..], f) <==> f == frameIndex || old(Test(bits[..], f))
    {
      OtherBits(old(bits[byteIndex]), bitIndex, f % 8);
    }
  }

  /** The bit of the frame at `address` becomes zero; every other bit stays. */
  method MarkFree(bits: array<bv8>, address: u64)
    requires address / FRAME / 8 < bits.Length
    modifies bits
    ensures forall f: nat | f / 8 < bits.Length ::
      Test(bits[..], f) <==> f != address / FRAME && old(Test(bits[..], f))
  {
    hide Mask, Has, Raise, Lower;
    var frameIndex := address / FRAME;
    var byteIndex := frameIndex / 8;
    var bitIndex := frameIndex % 8;
    bits[byteIndex] := Lower(bits[byteIndex], bitIndex);
    forall f: nat | f / 8 < bits.Length
      ensures Test(bits[..], f) <==> f != frameIndex && old(Test(bits[..], f))
    {
      OtherBits(old(bits[byteIndex]), bitIndex, f % 8);
    }
  }

  method IsFree(bits: array<bv8>, address: u64) returns (free: bool)
    requires address / FRAME / 8 < bits.Length
    ensures free <==> !Test(bits[..], address / FRAME)
  {
    var frameIndex := address / FRAME;
    free := !Has(bits[frameIndex / 8], frameIndex % 8);
  }
}
