/** The text console: a cursor, two colours and pixels, kept equal to a window on a document. */
module ConsoleCode {
  import opened Machine
  import opened Display
  import opened Utf8
  import opened TextScreen
  import TextLaws
  import Bits

  /** Cell `g` of a 2x glyph from `start` spans the pixels that halve to it. */
  lemma CellPlain(p: int, start: u64, g: nat)
    requires 0 <= p < TWO_64 && start + GLYPH_SIZE <= TWO_64 && g < 8
    ensures Spans(p, Wrap(start + g * 2), 2) <==> start <= p && (p - start) / 2 == g
  {
    SpansPlain(p, start + g * 2, 2);
  }

  /** What a 2x glyph covers, in plain coordinates. */
  lemma GlyphPlain(px: int, py: int, x: u64, y: u64, glyph: Glyph)
    requires 0 <= px < TWO_64 && 0 <= py < TWO_64 && x + GLYPH_SIZE <= TWO_64 && y + GLYPH_SIZE <= TWO_64
    ensures GlyphCovers(px, py, x, y, glyph, 2)
      <==> x <= px < x + GLYPH_SIZE && y <= py < y + GLYPH_SIZE && BitSet(glyph, (px - x) / 2, (py - y) / 2)
  {
    hide BitSet, Spans, Wrap;
    forall gx: nat, gy: nat | gx < 8 && gy < 8
      ensures CellCovers(px, py, x, y, glyph, 2, gx, gy)
        <==> BitSet(glyph, gx, gy) && x <= px && (px - x) / 2 == gx && y <= py && (py - y) / 2 == gy
    {
      CellPlain(px, x, gx);
      CellPlain(py, y, gy);
    }
    hide CellCovers;
    if x <= px < x + GLYPH_SIZE && y <= py < y + GLYPH_SIZE && BitSet(glyph, (px - x) / 2, (py - y) / 2) {
      assert CellCovers(px, py, x, y, glyph, 2, (px - x) / 2, (py - y) / 2);
    }
  }

  /** A pixel lies in the cell whose corner is at a row and column of the grid. */
  lemma InCell(px: int, py: int, row: nat, column: nat)
    requires px >= 0 && py >= CONTENT_TOP
    ensures var x, y := GLYPH_SIZE * column, CONTENT_TOP + GLYPH_SIZE * row;
      && (x <= px < x + GLYPH_SIZE && y <= py < y + GLYPH_SIZE <==> RowOf(py) == row && ColumnOf(px) == column)
      && (RowOf(py) == row && ColumnOf(px) == column ==> px - x == ColumnPixel(px) && py - y == RowPixel(py))
  {
  }

  class Console {
    const fb: Framebuffer
    const font: Font
    const background: Color
    var cursorX: u64
    var cursorY: u64
    var textColor: Color
    var uptime: u64
    ghost var doc: Document
    ghost var header: seq<Shape>

    function Rows(): int { (fb.height - CONTENT_TOP) / GLYPH_SIZE }

    function Columns(): int { fb.width / GLYPH_SIZE }

    /** At least one cell fits below the header, and pixel coordinates stay far from 2^64. */
    predicate Sized() {
      GLYPH_SIZE <= fb.width < TWO_64 / 4 && CONTENT_TOP + GLYPH_SIZE <= fb.height < TWO_64 / 4
    }

    /** The colour every visible pixel must have. */
    ghost function View(px: int, py: int): Color
      requires Sized()
      reads this
    {
      if py < HEADER_HEIGHT then Painted(header, px, py, background)
      else if py < CONTENT_TOP then background
      else TextPixel(doc, Rows(), px, py, background)
    }

    /** The cursor stands behind the last cell of the last line. */
    ghost predicate CursorAt(d: Document)
      requires Sized()
      reads this
    {
      && Fits(d, Columns())
      && cursorX == GLYPH_SIZE * |d[|d| - 1]|
      && cursorY == CONTENT_TOP + GLYPH_SIZE * (|d| - 1 - Top(d, Rows()))
    }

    ghost predicate Showing()
      requires fb.Valid() && Sized()
      reads this, fb.pixels
    {
      forall px, py | 0 <= px < fb.width && 0 <= py < fb.height :: fb.At(px, py) == View(px, py)
    }

    ghost predicate Valid()
      reads this, fb.pixels
    {
      fb.Valid() && Sized() && CursorAt(doc) && Showing()
    }

    constructor (fb: Framebuffer, font: Font, background: Color) {
      this.fb, this.font, this.background := fb, font, background;
      cursorX, cursorY, textColor, uptime, doc, header := 0, CONTENT_TOP, 0x00ffffff, 0, BLANK, [];
    }

    /** How many rows of glyphs the screen has room for. */
    lemma RoomFor(n: int)
      requires Sized()
      ensures CONTENT_TOP + GLYPH_SIZE * n <= fb.height <==> n <= Rows()
      ensures forall py | fb.height <= py :: RowOf(py) >= Rows()
    {
    }

    /** What the screen shows, in plain numbers: the header, a blank strip, and from row 56 down the last lines of the
        document in cells of sixteen by sixteen pixels. */
    lemma SeenInPlain(px: int, py: int)
      requires Valid() && 0 <= px < fb.width && 40 <= py < fb.height
      ensures py < 56 ==> fb.At(px, py) == background
      ensures py >= 56 ==>
        var rows: nat := (fb.height - 56) / 16;
        var row, column := (py - 56) / 16, px / 16;
        var line := row + if |doc| <= rows then 0 else |doc| - rows;
        fb.At(px, py) == if row < rows && line < |doc| && column < |doc[line]|
                            && Bits.Digit(doc[line][column].glyph[(py - 56) % 16 / 2], Bits.Weight(7 - px % 16 / 2))
                         then doc[line][column].color else background
    {
      if py >= 56 {
        TextLaws.TextInPlain(doc, Rows(), px, py, background);
      }
      hide Bits.Digit, Bits.Weight, TextPixel, Painted;
    }

    /** Start a line, scrolling the region below the header when no row is left. */
    method StartLine(glyphHeight: u64)
      requires Valid() && glyphHeight == GLYPH_SIZE
      modifies this, fb.pixels
      ensures Valid() && doc == NewLine(old(doc))
      ensures header == old(header) && textColor == old(textColor) && uptime == old(uptime)
    {
      hide TextPixel, Painted, RowOf, Rows, Columns, NewLine;
      ghost var d := doc;
      RoomFor(1);
      RoomFor(|d| - Top(d, Rows()));
      RoomFor(|d| + 1 - Top(d, Rows()));
      NewLineFits(d, Rows(), Columns());
      Advance(glyphHeight);
      doc := NewLine(doc);
      forall px, py | 0 <= px < fb.width && CONTENT_TOP <= py < fb.height ensures fb.At(px, py) == View(px, py) {
        NewLinePixels(d, Rows(), px, py, background);
        if py + GLYPH_SIZE >= fb.height {
          MarginIsBlank(d, Rows(), px, py + GLYPH_SIZE, background);
        }
      }
    }

    /** Move the cursor to the next row, or scroll by one row when there is none. */
    method Advance(glyphHeight: u64)
      requires fb.Valid() && Sized() && glyphHeight == GLYPH_SIZE && cursorY <= fb.height
      modifies `cursorX, `cursorY, fb.pixels
      ensures cursorX == 0
      ensures var scrolls := old(cursorY) + 2 * GLYPH_SIZE > fb.height;
        && cursorY == (if scrolls then old(cursorY) else old(cursorY) + GLYPH_SIZE)
        && forall px, py | 0 <= px < fb.width && 0 <= py < fb.height ::
             fb.At(px, py) == if !scrolls || py < CONTENT_TOP then old(fb.At(px, py))
                              else if py + GLYPH_SIZE < fb.height then old(fb.At(px, py + GLYPH_SIZE))
                              else background
    {
      cursorX := 0;
      cursorY := cursorY + glyphHeight;
      if cursorY + glyphHeight > fb.height {
        fb.ScrollRegionUp(CONTENT_TOP, glyphHeight, background);
        cursorY := cursorY - glyphHeight;
      }
    }

    /** Draw a glyph in the blank cell under the cursor and step over it. */
    method PutGlyph(glyph: Glyph)
      requires Valid() && |doc[|doc| - 1]| < Columns()
      modifies this, fb.pixels
      ensures Valid() && doc == Put(old(doc), Cell(glyph, textColor), Columns())
      ensures header == old(header) && textColor == old(textColor) && uptime == old(uptime)
    {
      hide TextPixel, Painted, Rows, Columns, GlyphCovers, BitSet;
      ghost var d, c := doc, Cell(glyph, textColor);
      RoomFor(1);
      ghost var row, column := |d| - 1 - Top(d, Rows()), |d[|d| - 1]|;
      RoomFor(row + 1);
      ColumnsFit(column + 1);
      fb.DrawGlyph(cursorX, cursorY, glyph, 2, textColor);
      cursorX := cursorX + GLYPH_SIZE;
      doc := Put(doc, c, Columns());
      forall px, py | 0 <= px < fb.width && 0 <= py < fb.height ensures fb.At(px, py) == View(px, py) {
        GlyphPlain(px, py, old(cursorX), cursorY, glyph);
        if py >= CONTENT_TOP {
          InCell(px, py, row, column);
          PutPixels(d, Rows(), Columns(), c, px, py, background);
        }
      }
    }

    lemma ColumnsFit(n: int)
      requires Sized()
      ensures GLYPH_SIZE * n <= fb.width <==> n <= Columns()
    {
    }

    method WriteCodepoint(character: Codepoint)
      requires Valid()
      modifies this, fb.pixels
      ensures Valid() && doc == Typed(old(doc), character, font, textColor, Columns())
      ensures header == old(header) && textColor == old(textColor) && uptime == old(uptime)
    {
      hide Showing;
      if character == 10 {
        StartLine(GLYPH_SIZE);
        return;
      }
      var glyph := font(character);
      if glyph.None? {
        return;
      }
      ColumnsFit(1);
      ColumnsFit(|doc[|doc| - 1]| + 1);
      if cursorX + GLYPH_SIZE > fb.width {
        PutWraps(doc, Columns(), Cell(glyph.value, textColor));
        StartLine(GLYPH_SIZE);
      }
      PutGlyph(glyph.value);
    }

    /** Decode the text byte by byte up to its terminator and write each codepoint. */
    method Write(text: seq<Byte>)
      requires Valid() && exists n: nat :: Terminated(text, n)
      modifies this, fb.pixels
      ensures Valid() && doc == TypedAll(old(doc), Decode(text), font, textColor, Columns())
      ensures header == old(header) && textColor == old(textColor) && uptime == old(uptime)
    {
      hide Showing, Typed, TypedAll, Decode, IsPair, PairValue;
      ghost var n: nat :| Terminated(text, n);
      var index := 0;
      assert text[0..] == text;
      while text[index] != 0
        invariant 0 <= index <= n && Valid()
        invariant header == old(header) && textColor == old(textColor) && uptime == old(uptime)
        invariant TypedAll(doc, Decode(text[index..]), font, textColor, Columns())
               == TypedAll(old(doc), Decode(text), font, textColor, Columns())
        decreases n - index
      {
        DecodeAt(text, index, n);
        var firstByte := text[index];
        if firstByte < 0x80 {
          TypedFirst(doc, firstByte as bv32, Decode(text[index + 1..]), font, textColor, Columns());
          WriteCodepoint(firstByte as bv32);
          index := index + 1;
        } else {
          var secondByte := text[index + 1];
          if IsPair(firstByte, secondByte) {
            TypedFirst(doc, PairValue(firstByte, secondByte), Decode(text[index + 2..]), font, textColor, Columns());
            WriteCodepoint(PairValue(firstByte, secondByte));
            index := index + 2;
          } else {
            TypedFirst(doc, QUESTION_MARK, Decode(text[index + 1..]), font, textColor, Columns());
            WriteCodepoint(QUESTION_MARK);
            index := index + 1;
          }
        }
      }
      DecodeEnd(text, index);
      TypedNothing(doc, font, textColor, Columns());
    }

    method Backspace()
      requires Valid()
      modifies this, fb.pixels
      ensures Valid() && doc == Erase(old(doc))
      ensures header == old(header) && textColor == old(textColor) && uptime == old(uptime)
    {
      hide TextPixel, Painted, Rows, Columns, GlyphCovers, BitSet, Spans;
      if cursorX == 0 {
        return;
      }
      ghost var d := doc;
      RoomFor(1);
      ghost var row, column := |d| - 1 - Top(d, Rows()), |d[|d| - 1]| - 1;
      RoomFor(row + 1);
      ColumnsFit(column + 1);
      cursorX := cursorX - GLYPH_SIZE;
      fb.DrawRect(cursorX, cursorY, GLYPH_SIZE, GLYPH_SIZE, background);
      doc := Erase(doc);
      forall px, py | 0 <= px < fb.width && 0 <= py < fb.height ensures fb.At(px, py) == View(px, py) {
        SpansPlain(px, cursorX, GLYPH_SIZE);
        SpansPlain(py, cursorY, GLYPH_SIZE);
        if py >= CONTENT_TOP {
          InCell(px, py, row, column);
          ErasePixels(d, Rows(), px, py, background);
        }
      }
    }

    /** Draw a header text; its letters end up over whatever was there. */
    method DrawHeaderText(x: u64, y: u64, text: seq<Codepoint>, scale: u64, color: Color)
      requires fb.Valid()
      modifies fb.pixels
      ensures forall px, py | fb.InMemory(px, py) && px < fb.width ::
        fb.At(px, py) == Painted(Letters(x, y, text, scale, color, font), px, py, old(fb.At(px, py)))
    {
      hide Painted, Letters, GlyphCovers, InRect;
      var xCoordinate: u64 := x;
      ghost var all := Letters(x, y, text, scale, color, font);
      assert text[0..] == text;
      for index := 0 to |text|
        invariant forall px, py | fb.InMemory(px, py) && px < fb.width ::
          Painted(all, px, py, old(fb.At(px, py)))
          == Painted(Letters(xCoordinate, y, text[index..], scale, color, font), px, py, fb.At(px, py))
      {
        ghost var rest := Letters(Wrap(xCoordinate + 8 * scale), y, text[index + 1..], scale, color, font);
        LettersStep(xCoordinate, y, text, index, scale, color, font);
        var glyph := font(text[index]);
        if glyph.Some? {
          ghost var letter := Letter(xCoordinate, y, glyph.value, scale, color);
          forall px, py | fb.InMemory(px, py) && px < fb.width
            ensures Painted([letter] + rest, px, py, fb.At(px, py))
                 == Painted(rest, px, py,
                      if GlyphCovers(px, py, xCoordinate, y, glyph.value, scale) then color else fb.At(px, py))
          {
            PaintedAppend([letter], rest, px, py, fb.At(px, py));
            PaintedOne(letter, px, py, fb.At(px, py));
          }
          fb.DrawGlyph(xCoordinate, y, glyph.value, scale, color);
        } else {
          assert [] + rest == rest;
        }
        xCoordinate := Wrap(xCoordinate + 8 * scale);
      }
      forall px, py | fb.InMemory(px, py)
        ensures Painted(Letters(xCoordinate, y, text[|text|..], scale, color, font), px, py, fb.At(px, py))
             == fb.At(px, py)
      {
        LettersEnd(xCoordinate, y, text, scale, color, font, px, py, fb.At(px, py));
      }
    }

    /** Draw the whole header for an uptime. */
    method DrawHeader(uptimeSeconds: u64)
      requires fb.Valid() && fb.width < TWO_64
      modifies fb.pixels
      ensures forall px, py | fb.InMemory(px, py) && px < fb.width ::
        fb.At(px, py) == Painted(HeaderShapes(fb.width, uptimeSeconds, textColor, font), px, py, old(fb.At(px, py)))
    {
      hide Painted, Letters, GlyphCovers, InRect, ClockText;
      fb.DrawRect(0, 0, fb.width, HEADER_HEIGHT, HEADER_COLOR);
      fb.DrawRect(0, HEADER_HEIGHT - 1, fb.width, 1, HEADER_LINE_COLOR);
      fb.DrawRect(16, 12, 3, 16, ACCENT_COLOR);
      DrawHeaderText(28, 12, KBM, 2, textColor);
      var uptimeX := ClockX(fb.width);
      DrawHeaderText(uptimeX, 12, ClockText(uptimeSeconds), 2, DIM_COLOR);
      forall px, py | fb.InMemory(px, py) && px < fb.width
        ensures Painted(HeaderShapes(fb.width, uptimeSeconds, textColor, font), px, py, old(fb.At(px, py)))
             == Painted(Letters(uptimeX, 12, ClockText(uptimeSeconds), 2, DIM_COLOR, font), px, py,
                  Painted(Letters(28, 12, KBM, 2, textColor, font), px, py,
                    if InRect(px, py, 16, 12, 3, 16) then ACCENT_COLOR
                    else if InRect(px, py, 0, HEADER_HEIGHT - 1, fb.width, 1) then HEADER_LINE_COLOR
                    else if InRect(px, py, 0, 0, fb.width, HEADER_HEIGHT) then HEADER_COLOR
                    else old(fb.At(px, py))))
      {
        HeaderLayers(fb.width, uptimeSeconds, textColor, font, px, py, old(fb.At(px, py)));
      }
    }

    /** Redraw the header and nothing else; the text below keeps every pixel. */
    method UpdateHeader(uptimeSeconds: u64)
      requires Valid()
      modifies this, fb.pixels
      ensures Valid() && State() == After(old(State()), TextScreen.UpdateHeader(uptimeSeconds), fb.width, font)
      ensures forall px, py | 0 <= px < fb.width && HEADER_HEIGHT <= py < fb.height ::
        fb.At(px, py) == old(fb.At(px, py))
    {
      hide Painted, TextPixel, HeaderShapes, Rows, Columns;
      uptime := uptimeSeconds;
      DrawHeader(uptimeSeconds);
      header := HeaderShapes(fb.width, uptimeSeconds, textColor, font);
      forall px, py | 0 <= px < fb.width && 0 <= py < fb.height
        ensures fb.At(px, py) == View(px, py)
        ensures py >= HEADER_HEIGHT ==> fb.At(px, py) == old(fb.At(px, py))
      {
        HeaderIsConfined(fb.width, uptimeSeconds, textColor, font, px, py, old(fb.At(px, py)), background);
      }
    }

    ghost function State(): TextState
      reads this
    {
      TextState(doc, textColor, uptime, header)
    }

    /** Blank the screen, put the cursor at the top and draw the header, as `console_init` and `console_clear` do. */
    method Reset()
      requires fb.Valid() && Sized()
      modifies this, fb.pixels
      ensures Valid() && doc == BLANK && header == HeaderShapes(fb.width, uptime, textColor, font)
      ensures textColor == old(textColor) && uptime == old(uptime)
      ensures forall px, py | 0 <= px < fb.width && 40 <= py < fb.height :: fb.At(px, py) == background
    {
      hide Painted, HeaderShapes;
      fb.Fill(background);
      cursorX := 0;
      cursorY := CONTENT_TOP;
      DrawHeader(uptime);
      doc, header := BLANK, HeaderShapes(fb.width, uptime, textColor, font);
      forall px, py | 0 <= px < fb.width && 0 <= py < fb.height ensures fb.At(px, py) == View(px, py) {
        HeaderIsConfined(fb.width, uptime, textColor, font, px, py, background, background);
        BlankIsBackground(Rows(), px, py, background);
      }
    }

    method Init()
      requires fb.Valid() && Sized()
      modifies this, fb.pixels
      ensures Valid() && State() == TextState(BLANK, textColor, 0, HeaderShapes(fb.width, 0, textColor, font))
      ensures forall px, py | 0 <= px < fb.width && 40 <= py < fb.height :: fb.At(px, py) == background
    {
      uptime := 0;
      Reset();
    }

    method ClearScreen()
      requires Valid()
      modifies this, fb.pixels
      ensures Valid() && State() == After(old(State()), Clear, fb.width, font)
      ensures forall px, py | 0 <= px < fb.width && 40 <= py < fb.height :: fb.At(px, py) == background
    {
      Reset();
    }

    method SetTextColor(color: Color)
      requires Valid()
      modifies `textColor
      ensures textColor == color && Valid()
      ensures State() == After(old(State()), TextScreen.SetTextColor(color), fb.width, font)
    {
      textColor := color;
    }

    /** One call from outside. */
    method Handle(e: Event)
      requires Valid() && (e.WriteText? ==> exists n: nat :: Terminated(e.text, n))
      modifies this, fb.pixels
      ensures Valid() && State() == After(old(State()), e, fb.width, font)
    {
      match e
      case WriteText(text) => Write(text);
      case WriteOne(ch) => WriteCodepoint(ch);
      case Backspace => Backspace();
      case Clear => ClearScreen();
      case SetTextColor(color) => SetTextColor(color);
      case UpdateHeader(uptimeSeconds) => UpdateHeader(uptimeSeconds);
    }

    /** Over every run of calls the screen is the rendering of the state the run leads to. */
    method Replay(events: seq<Event>)
      requires Valid()
      requires forall i | 0 <= i < |events| && events[i].WriteText? :: exists n: nat :: Terminated(events[i].text, n)
      modifies this, fb.pixels
      ensures Valid() && State() == AfterAll(old(State()), events, fb.width, font)
    {
      hide After, Showing;
      for i := 0 to |events|
        invariant Valid() && State() == AfterAll(old(State()), events[..i], fb.width, font)
      {
        assert events[..i + 1][..i] == events[..i];
        Handle(events[i]);
      }
      assert events[..|events|] == events;
    }
  }
}
