/** Drawing primitives over the pixel memory of the display. */
module Display {
  import opened Machine
  import Bits

  type Color = x: int | 0 <= x < 0x1_0000_0000

  /** Rows of pixels. */
  type Picture = seq<seq<Color>>

  lemma SamePicture(p: Picture, q: Picture, width: nat)
    requires |p| == |q| && (forall y | 0 <= y < |p| :: |p[y]| == |q[y]| == width)
    requires forall x, y | 0 <= y < |p| && 0 <= x < width :: p[y][x] == q[y][x]
    ensures p == q
  {
    forall y | 0 <= y < |p| ensures p[y] == q[y] {
    }
  }

  /** An 8x8 bitmap, one byte a row, most significant bit leftmost. */
  type Glyph = g: seq<bv8> | |g| == 8 witness [0, 0, 0, 0, 0, 0, 0, 0]

  /** `p` is one of the `length` coordinates from `start` on; coordinates wrap at 2^64. */
  predicate Spans(p: int, start: u64, length: u64) {
    Wrap(p - start) < length
  }

  predicate InRect(px: int, py: int, x: u64, y: u64, width: u64, height: u64) {
    Spans(px, x, width) && Spans(py, y, height)
  }

  function Mask(gx: nat): bv8
    requires gx < 8
  {
    1 << (7 - gx)
  }

  predicate BitSet(glyph: Glyph, gx: nat, gy: nat)
    requires gx < 8 && gy < 8
  {
    glyph[gy] & Mask(gx) != 0
  }

  /** Column `gx` of a glyph row is binary digit `7 - gx` of its byte: the leftmost pixel is the most significant. */
  lemma BitByValue(glyph: Glyph, gx: nat, gy: nat)
    requires gx < 8 && gy < 8
    ensures BitSet(glyph, gx, gy) <==> Bits.Digit(glyph[gy], Bits.Weight(7 - gx))
  {
    SameMask(gx);
    Bits.DigitIsBit(glyph[gy], Bits.Weight(7 - gx));
    hide Mask, Bits.Digit;
  }

  lemma SameMask(gx: nat)
    requires gx < 8
    ensures Mask(gx) == Bits.Weight(7 - gx)
  {
    Bits.MaskTable(7 - gx);
  }

  /** Cell `(gx, gy)` of a glyph drawn at `(x, y)` is set and covers the pixel. */
  predicate CellCovers(px: int, py: int, x: u64, y: u64, glyph: Glyph, scale: u64, gx: nat, gy: nat)
    requires gx < 8 && gy < 8
  {
    BitSet(glyph, gx, gy) && InRect(px, py, Wrap(x + gx * scale), Wrap(y + gy * scale), scale, scale)
  }

  predicate GlyphCovers(px: int, py: int, x: u64, y: u64, glyph: Glyph, scale: u64) {
    exists gx: nat, gy: nat | gx < 8 && gy < 8 :: CellCovers(px, py, x, y, glyph, scale, gx, gy)
  }

  /** One of the first `n` cells, row by row, covers the pixel. */
  predicate CellsCover(px: int, py: int, x: u64, y: u64, glyph: Glyph, scale: u64, n: nat) {
    exists gx: nat, gy: nat | gx < 8 && gy < 8 && 8 * gy + gx < n :: CellCovers(px, py, x, y, glyph, scale, gx, gy)
  }

  lemma NextCell(px: int, py: int, x: u64, y: u64, glyph: Glyph, scale: u64, gx: nat, gy: nat)
    requires gx < 8 && gy < 8
    ensures CellsCover(px, py, x, y, glyph, scale, 8 * gy + gx + 1)
      <==> CellsCover(px, py, x, y, glyph, scale, 8 * gy + gx) || CellCovers(px, py, x, y, glyph, scale, gx, gy)
  {
    hide CellCovers;
    if CellsCover(px, py, x, y, glyph, scale, 8 * gy + gx + 1) {
      var cx: nat, cy: nat :| cx < 8 && cy < 8 && 8 * cy + cx < 8 * gy + gx + 1
                              && CellCovers(px, py, x, y, glyph, scale, cx, cy);
      assert 8 * cy + cx == 8 * gy + gx ==> cx == gx && cy == gy;
    }
  }

  lemma CellBit(glyph: Glyph, gx: nat, gy: nat)
    requires gx < 8 && gy < 8
    ensures BitSet(glyph, gx, gy) <==> glyph[gy] & Mask(gx) != 0
  {
  }

  lemma FirstAndLastCell(px: int, py: int, x: u64, y: u64, glyph: Glyph, scale: u64)
    ensures !CellsCover(px, py, x, y, glyph, scale, 0)
    ensures CellsCover(px, py, x, y, glyph, scale, 64) <==> GlyphCovers(px, py, x, y, glyph, scale)
  {
    hide CellCovers;
  }

  lemma WrapShift(p: int, start: u64, j: u64)
    requires 0 <= p < TWO_64
    ensures Wrap(start + j) == p <==> Wrap(p - start) == j
  {
  }

  /** Without overflow a span is the plain interval. */
  lemma SpansPlain(p: int, start: u64, length: u64)
    requires 0 <= p < TWO_64 && start + length <= TWO_64
    ensures Spans(p, start, length) <==> start <= p < start + length
  {
  }

  /** A span that runs over the end of the address range goes on at zero. */
  lemma SpansAround(p: int, start: u64, length: u64)
    requires 0 <= p < TWO_64 && start + length > TWO_64
    ensures Spans(p, start, length) <==> start <= p || p < start + length - TWO_64
  {
  }

  lemma DividesTo(a: nat, scale: nat, g: nat)
    requires scale > 0
    ensures a / scale == g <==> g * scale <= a < g * scale + scale
  {
    var q := a / scale;
    assert a == q * scale + a % scale;
    if q < g { Multiples(q, g, scale); }
    if g < q { Multiples(g, q, scale); }
  }

  lemma {:induction false} Multiples(g: nat, h: nat, scale: nat)
    requires g < h
    ensures g * scale + scale <= h * scale
  {
    assert h * scale == (h - 1) * scale + scale;
    if g < h - 1 {
      Multiples(g, h - 1, scale);
    }
  }

  /** A cell of the glyph covers the square of `scale` by `scale` pixels at its place. */
  lemma CellInPlain(px: int, py: int, x: u64, y: u64, glyph: Glyph, scale: u64, gx: nat, gy: nat)
    requires 0 <= px < TWO_64 && 0 <= py < TWO_64 && 0 < scale && gx < 8 && gy < 8
    requires x + 8 * scale <= TWO_64 && y + 8 * scale <= TWO_64
    ensures CellCovers(px, py, x, y, glyph, scale, gx, gy)
      <==> BitSet(glyph, gx, gy) && x <= px && (px - x) / scale == gx && y <= py && (py - y) / scale == gy
  {
    hide BitSet, Spans, Wrap;
    AxisInPlain(px, x, scale, gx);
    AxisInPlain(py, y, scale, gy);
  }

  lemma AxisInPlain(p: int, start: u64, scale: u64, g: nat)
    requires 0 <= p < TWO_64 && 0 < scale && g < 8 && start + 8 * scale <= TWO_64
    ensures Spans(p, Wrap(start + g * scale), scale) <==> start <= p && (p - start) / scale == g
  {
    Multiples(g, 8, scale);
    var from: nat := start + g * scale;
    assert Wrap(from) == from by { assert from < TWO_64; }
    SpansPlain(p, from, scale);
    if start <= p {
      DividesTo(p - start, scale, g);
    }
    hide Spans, Wrap;
  }

  /** What a glyph covers at any scale, in plain coordinates: pixel `(i, j)` of the drawing belongs to bit `i / scale`
      of row `j / scale`. */
  lemma GlyphInPlain(px: int, py: int, x: u64, y: u64, glyph: Glyph, scale: u64)
    requires 0 <= px < TWO_64 && 0 <= py < TWO_64 && 0 < scale
    requires x + 8 * scale <= TWO_64 && y + 8 * scale <= TWO_64
    ensures GlyphCovers(px, py, x, y, glyph, scale)
      <==> x <= px < x + 8 * scale && y <= py < y + 8 * scale
           && 0 <= (px - x) / scale < 8 && 0 <= (py - y) / scale < 8
           && Bits.Digit(glyph[(py - y) / scale], Bits.Weight(7 - (px - x) / scale))
  {
    hide CellCovers, BitSet, Bits.Digit, Bits.Weight;
    forall gx: nat, gy: nat | gx < 8 && gy < 8
      ensures CellCovers(px, py, x, y, glyph, scale, gx, gy)
        <==> Bits.Digit(glyph[gy], Bits.Weight(7 - gx))
             && x <= px && (px - x) / scale == gx && y <= py && (py - y) / scale == gy
    {
      CellInPlain(px, py, x, y, glyph, scale, gx, gy);
      BitByValue(glyph, gx, gy);
    }
    WithinEight(px, x, scale);
    WithinEight(py, y, scale);
    if x <= px < x + 8 * scale && y <= py < y + 8 * scale {
      assert CellCovers(px, py, x, y, glyph, scale, (px - x) / scale, (py - y) / scale)
        <==> Bits.Digit(glyph[(py - y) / scale], Bits.Weight(7 - (px - x) / scale));
    }
  }

  lemma WithinEight(p: int, start: u64, scale: u64)
    requires scale > 0
    ensures start <= p && 0 <= (p - start) / scale < 8 <==> start <= p < start + 8 * scale
  {
    if start <= p {
      var q := (p - start) / scale;
      DividesTo(p - start, scale, q);
      if q < 8 { Multiples(q, 8, scale); }
      if q > 8 { Multiples(8, q, scale); }
    }
  }

  class Framebuffer {
    const width: nat
    const height: nat
    /** Pixels per row: the pitch in pixels, padding included. */
    const stride: nat
    const pixels: array2<Color>

    ghost predicate Valid() {
      pixels.Length0 == height && pixels.Length1 == stride && width <= stride < TWO_64 && height < TWO_64
    }

    constructor (width: nat, height: nat, stride: nat, pixels: array2<Color>)
      requires pixels.Length0 == height && pixels.Length1 == stride && width <= stride < TWO_64 && height < TWO_64
      ensures Valid() && this.pixels == pixels && this.width == width && this.height == height && this.stride == stride
    {
      this.width, this.height, this.stride, this.pixels := width, height, stride, pixels;
    }

    predicate InMemory(x: int, y: int) {
      0 <= x < stride && 0 <= y < height
    }

    function At(x: int, y: int): Color
      requires Valid() && InMemory(x, y)
      reads pixels
    {
      pixels[y, x]
    }

    /** The whole pixel memory as a value, row by row. */
    ghost function Snapshot(): (p: Picture)
      requires Valid()
      reads pixels
      ensures |p| == height && forall y | 0 <= y < height :: |p[y]| == stride
      ensures forall x, y | InMemory(x, y) :: p[y][x] == At(x, y)
    {
      seq(height, y requires 0 <= y < height reads pixels =>
        seq(stride, x requires 0 <= x < stride reads pixels => pixels[y, x]))
    }

    method PutPixel(x: u64, y: u64, color: Color)
      requires Valid()
      modifies pixels
      ensures forall px, py | InMemory(px, py) ::
        At(px, py) == if px == x && py == y && px < width then color else old(At(px, py))
    {
      if x >= width || y >= height {
        return;
      }
      pixels[y, x] := color;
    }

    method GetPixel(x: u64, y: u64) returns (color: Color)
      requires Valid()
      ensures color == if x < width && y < height then At(x, y) else 0
    {
      if x >= width || y >= height {
        return 0;
      }
      color := pixels[y, x];
    }

    method Fill(color: Color)
      requires Valid()
      modifies pixels
      ensures forall px, py | InMemory(px, py) :: At(px, py) == if px < width then color else old(At(px, py))
    {
      for y := 0 to height
        invariant forall px, py | InMemory(px, py) ::
          At(px, py) == if px < width && py < y then color else old(At(px, py))
      {
        for x := 0 to width
          invariant forall px, py | InMemory(px, py) ::
            At(px, py) == if px < width && (py < y || (py == y && px < x)) then color else old(At(px, py))
        {
          PutPixel(x, y, color);
        }
      }
    }

    method DrawRect(x: u64, y: u64, w: u64, h: u64, color: Color)
      requires Valid()
      modifies pixels
      ensures forall px, py | InMemory(px, py) ::
        At(px, py) == if px < width && InRect(px, py, x, y, w, h) then color else old(At(px, py))
    {
      for yOffset := 0 to h
        invariant forall px, py | InMemory(px, py) ::
          At(px, py) == if px < width && Spans(px, x, w) && Wrap(py - y) < yOffset then color else old(At(px, py))
      {
        for xOffset := 0 to w
          invariant forall px, py | InMemory(px, py) ::
            At(px, py) == if px < width && ((Spans(px, x, w) && Wrap(py - y) < yOffset)
                                            || (Wrap(px - x) < xOffset && Wrap(py - y) == yOffset))
                          then color else old(At(px, py))
        {
          PutPixel(Wrap(x + xOffset), Wrap(y + yOffset), color);
          forall px, py | InMemory(px, py)
            ensures px == Wrap(x + xOffset) && py == Wrap(y + yOffset) <==>
              Wrap(px - x) == xOffset && Wrap(py - y) == yOffset
          {
            WrapShift(px, x, xOffset);
            WrapShift(py, y, yOffset);
          }
        }
      }
    }

    method DrawGlyph(x: u64, y: u64, glyph: Glyph, scale: u64, color: Color)
      requires Valid()
      modifies pixels
      ensures forall px, py | InMemory(px, py) ::
        At(px, py) == if px < width && GlyphCovers(px, py, x, y, glyph, scale) then color else old(At(px, py))
    {
      hide CellsCover, GlyphCovers, InRect, BitSet;
      forall px, py | InMemory(px, py)
        ensures !CellsCover(px, py, x, y, glyph, scale, 0)
        ensures CellsCover(px, py, x, y, glyph, scale, 64) <==> GlyphCovers(px, py, x, y, glyph, scale)
      {
        FirstAndLastCell(px, py, x, y, glyph, scale);
      }
      for glyphY := 0 to 8
        invariant forall px, py | InMemory(px, py) ::
          At(px, py)
          == if px < width && CellsCover(px, py, x, y, glyph, scale, 8 * glyphY) then color else old(At(px, py))
      {
        var row := glyph[glyphY];
        for glyphX := 0 to 8
          invariant forall px, py | InMemory(px, py) ::
            At(px, py) == if px < width && CellsCover(px, py, x, y, glyph, scale, 8 * glyphY + glyphX)
                          then color else old(At(px, py))
        {
          forall px, py | InMemory(px, py)
            ensures CellsCover(px, py, x, y, glyph, scale, 8 * glyphY + glyphX + 1)
              <==> CellsCover(px, py, x, y, glyph, scale, 8 * glyphY + glyphX)
                   || CellCovers(px, py, x, y, glyph, scale, glyphX, glyphY)
          {
            NextCell(px, py, x, y, glyph, scale, glyphX, glyphY);
          }
          assert BitSet(glyph, glyphX, glyphY) <==> row & Mask(glyphX) != 0 by { CellBit(glyph, glyphX, glyphY); }
          if row & Mask(glyphX) != 0 {
            DrawRect(Wrap(x + glyphX * scale), Wrap(y + glyphY * scale), scale, scale, color);
          }
        }
      }
    }

    /** Move the rows from `top` on up by `rows` and clear what opens at the bottom. */
    method ScrollRegionUp(top: u64, rows: u64, background: Color)
      requires Valid()
      modifies pixels
      ensures forall px, py | InMemory(px, py) ::
        At(px, py) ==
          if py < top then old(At(px, py))
          else if rows >= height - top then (if px < width then background else old(At(px, py)))
          else if py + rows < height then old(At(px, py + rows))
          else background
    {
      if top >= height {
        return;
      }
      if rows >= height - top {
        DrawRect(0, top, width, height - top, background);
        forall px, py | InMemory(px, py)
          ensures InRect(px, py, 0, top, width, height - top) <==> px < width && top <= py
        {
          SpansPlain(px, 0, width);
          SpansPlain(py, top, height - top);
        }
        return;
      }
      for y := top to height - rows
        invariant forall px, py | InMemory(px, py) ::
          At(px, py) == if top <= py < y then old(At(px, py + rows)) else old(At(px, py))
      {
        for x := 0 to stride
          invariant forall px, py | InMemory(px, py) ::
            At(px, py) == if top <= py < y || (py == y && px < x) then old(At(px, py + rows)) else old(At(px, py))
        {
          assert At(x, y + rows) == old(At(x, y + rows));
          pixels[y, x] := pixels[y + rows, x];
        }
      }
      for y := height - rows to height
        invariant forall px, py | InMemory(px, py) ::
          At(px, py) == if top <= py < height - rows then old(At(px, py + rows))
                        else if height - rows <= py < y then background else old(At(px, py))
      {
        for x := 0 to stride
          invariant forall px, py | InMemory(px, py) ::
            At(px, py) == if top <= py < height - rows then old(At(px, py + rows))
                          else if height - rows <= py < y || (py == y && px < x) then background else old(At(px, py))
        {
          pixels[y, x] := background;
        }
      }
    }
  }
}
