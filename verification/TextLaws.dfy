/** What typing, erasing, colours and the header come to, without following the console step by step. */
module TextLaws {
  import opened Machine
  import opened Display
  import opened Utf8
  import opened TextScreen
  import Bits

  // --- typing a text lays it out ------------------------------------------------------------

  /** The parts of a text between its newlines (codepoint 10), at least one. */
  function Segments(text: seq<Codepoint>): (r: seq<seq<Codepoint>>)
    ensures |r| > 0
  {
    if |text| == 0 then [[]]
    else
      var rest := Segments(text[1..]);
      if text[0] == 10 then [[]] + rest else [[text[0]] + rest[0]] + rest[1..]
  }

  /** The cells of a segment: one for each codepoint that has a glyph. */
  function Cells(segment: seq<Codepoint>, font: Font, color: Color): seq<Cell> {
    if |segment| == 0 then []
    else (match font(segment[0]) case None => [] case Some(g) => [Cell(g, color)]) + Cells(segment[1..], font, color)
  }

  /** A row of cells cut every `columns` cells; an empty row is one empty line. */
  function Cut(cells: seq<Cell>, columns: nat): seq<seq<Cell>>
    requires columns > 0
  {
    if |cells| <= columns then [cells] else [cells[..columns]] + Cut(cells[columns..], columns)
  }

  /** The lines of all segments, one segment below the other. */
  function Lines(segments: seq<seq<Codepoint>>, font: Font, color: Color, columns: nat): seq<seq<Cell>>
    requires columns > 0
  {
    if |segments| == 0 then []
    else Cut(Cells(segments[0], font, color), columns) + Lines(segments[1..], font, color, columns)
  }

  lemma CutNonEmpty(cells: seq<Cell>, columns: nat)
    requires columns > 0
    ensures |Cut(cells, columns)| > 0
  {
  }

  /** Putting one more cell behind a cut row is cutting the longer row. */
  lemma {:induction false} PutCut(pre: Document, cells: seq<Cell>, c: Cell, columns: nat)
    requires columns > 0
    ensures |Cut(cells, columns)| > 0
    ensures Put(pre + Cut(cells, columns), c, columns) == pre + Cut(cells + [c], columns)
    decreases |cells|
  {
    CutNonEmpty(cells, columns);
    if |cells| < columns {
      assert (pre + [cells])[..|pre|] == pre;
    } else if |cells| == columns {
      assert (cells + [c])[..columns] == cells && (cells + [c])[columns..] == [c];
      assert Cut([c], columns) == [[c]];
      assert pre + [cells] + [[c]] == pre + ([cells] + [[c]]);
    } else {
      var head, tail := cells[..columns], cells[columns..];
      assert (cells + [c])[..columns] == head && (cells + [c])[columns..] == tail + [c];
      assert pre + Cut(cells, columns) == (pre + [head]) + Cut(tail, columns);
      assert pre + Cut(cells + [c], columns) == (pre + [head]) + Cut(tail + [c], columns);
      PutCut(pre + [head], tail, c, columns);
    }
  }

  /** Typing goes on where a cut row stands: the first segment lengthens the row, the others follow below. */
  lemma {:induction false} TypedFrom(pre: Document, cells: seq<Cell>, text: seq<Codepoint>, font: Font, color: Color,
                                     columns: nat)
    requires columns > 0
    ensures |Cut(cells, columns)| > 0
    ensures var segments := Segments(text);
      TypedAll(pre + Cut(cells, columns), text, font, color, columns)
      == pre + Cut(cells + Cells(segments[0], font, color), columns) + Lines(segments[1..], font, color, columns)
    decreases |text|
  {
    hide Put, Cut, Cells, Lines;
    CutNonEmpty(cells, columns);
    CutNonEmpty([], columns);
    NoCells(font, color, columns);
    var d := pre + Cut(cells, columns);
    if |text| == 0 {
      assert text == [] && Segments(text) == [[]] && Segments(text)[1..] == [];
      assert cells + [] == cells && d + [] == d;
    } else {
      var rest := Segments(text[1..]);
      FirstCells(text[0], rest[0], font, color);
      if text[0] == 10 {
        TypedFrom(d, [], text[1..], font, color, columns);
        NextLines(rest, font, color, columns);
        assert [] + Cells(rest[0], font, color) == Cells(rest[0], font, color);
        assert Segments(text)[1..] == rest && cells + [] == cells;
      } else {
        assert Segments(text)[0] == [text[0]] + rest[0] && Segments(text)[1..] == rest[1..];
        match font(text[0])
        case None =>
          TypedFrom(pre, cells, text[1..], font, color, columns);
        case Some(g) =>
          PutCut(pre, cells, Cell(g, color), columns);
          CutNonEmpty(cells + [Cell(g, color)], columns);
          TypedFrom(pre, cells + [Cell(g, color)], text[1..], font, color, columns);
          assert cells + [Cell(g, color)] + Cells(rest[0], font, color)
              == cells + ([Cell(g, color)] + Cells(rest[0], font, color));
      }
    }
  }

  lemma NoCells(font: Font, color: Color, columns: nat)
    requires columns > 0
    ensures Cells([], font, color) == [] && Cut([], columns) == [[]] && Lines([], font, color, columns) == []
  {
  }

  lemma FirstCells(ch: Codepoint, segment: seq<Codepoint>, font: Font, color: Color)
    ensures Cells([ch] + segment, font, color)
      == (match font(ch) case None => [] case Some(g) => [Cell(g, color)]) + Cells(segment, font, color)
    ensures font(ch) == None ==> Cells([ch] + segment, font, color) == Cells(segment, font, color)
  {
    assert ([ch] + segment)[1..] == segment;
    assert [] + Cells(segment, font, color) == Cells(segment, font, color);
  }

  lemma NextLines(segments: seq<seq<Codepoint>>, font: Font, color: Color, columns: nat)
    requires columns > 0 && |segments| > 0
    ensures Lines(segments, font, color, columns)
      == Cut(Cells(segments[0], font, color), columns) + Lines(segments[1..], font, color, columns)
  {
  }

  /** Typing a text on a blank screen lays out its segments: each starts a line of its own and is cut every `columns`
      cells, and codepoints without a glyph leave no trace. */
  lemma TypingLaysOut(text: seq<Codepoint>, font: Font, color: Color, columns: nat)
    requires columns > 0
    ensures TypedAll(BLANK, text, font, color, columns) == Lines(Segments(text), font, color, columns)
  {
    hide Cells, Cut, Lines, Segments, TypedAll;
    NoCells(font, color, columns);
    assert [] + Cut([], columns) == BLANK;
    TypedFrom([], [], text, font, color, columns);
    var segments := Segments(text);
    NextLines(segments, font, color, columns);
    assert [] + Cells(segments[0], font, color) == Cells(segments[0], font, color);
    assert [] + Cut(Cells(segments[0], font, color), columns) == Cut(Cells(segments[0], font, color), columns);
  }

  /** Writing the encoding of a text on a blank screen lays it out in lines of one cell for each sixteen pixels of
      width, in the current colour. */
  lemma WritingLaysOut(s: TextState, text: seq<Codepoint>, width: u64, font: Font)
    requires s.doc == BLANK && width >= 16 && forall i | 0 <= i < |text| :: 0 < text[i] < 0x800
    ensures After(s, WriteText(Encode(text)), width, font)
         == s.(doc := Lines(Segments(text), font, s.color, width / 16))
  {
    DecodeEncode(text);
    TypingLaysOut(text, font, s.color, width / 16);
    hide Lines, Segments, TypedAll, Encode, Decode;
  }

  /** On a document in use the first segment goes on behind the cursor. */
  lemma TypingGoesOn(d: Document, text: seq<Codepoint>, font: Font, color: Color, columns: nat)
    requires columns > 0 && Fits(d, columns)
    ensures var segments := Segments(text); var last := d[|d| - 1];
      TypedAll(d, text, font, color, columns)
      == d[..|d| - 1] + Cut(last + Cells(segments[0], font, color), columns)
         + Lines(segments[1..], font, color, columns)
  {
    var last := d[|d| - 1];
    assert d == d[..|d| - 1] + Cut(last, columns);
    TypedFrom(d[..|d| - 1], last, text, font, color, columns);
  }

  /** In a text whose codepoints all have glyphs and whose segments are short enough, the lines are the segments,
      codepoint for codepoint. */
  lemma {:induction false} ShortSegments(segments: seq<seq<Codepoint>>, font: Font, color: Color, columns: nat)
    requires columns > 0
    requires forall i, j | 0 <= i < |segments| && 0 <= j < |segments[i]| :: font(segments[i][j]).Some?
    requires forall i | 0 <= i < |segments| :: |segments[i]| <= columns
    ensures var lines := Lines(segments, font, color, columns);
      && |lines| == |segments|
      && (forall i | 0 <= i < |segments| :: |lines[i]| == |segments[i]|)
      && (forall i, j | 0 <= i < |segments| && 0 <= j < |segments[i]| ::
            lines[i][j] == Cell(font(segments[i][j]).value, color))
    decreases |segments|
  {
    if |segments| > 0 {
      assert forall j | 0 <= j < |segments[0]| :: font(segments[0][j]).Some?;
      OneCellEach(segments[0], font, color);
      ShortSegments(segments[1..], font, color, columns);
    }
  }

  lemma {:induction false} OneCellEach(segment: seq<Codepoint>, font: Font, color: Color)
    requires forall j | 0 <= j < |segment| :: font(segment[j]).Some?
    ensures var cells := Cells(segment, font, color);
      |cells| == |segment| && forall j | 0 <= j < |segment| :: cells[j] == Cell(font(segment[j]).value, color)
    decreases |segment|
  {
    if |segment| > 0 {
      OneCellEach(segment[1..], font, color);
    }
  }

  // --- single calls ---------------------------------------------------------------------------

  /** Erasing at column 0 does nothing at all; elsewhere the cursor's line loses its last cell and the others stay. */
  lemma ErasingKeepsLines(d: Document)
    requires |d| > 0
    ensures var e := Erase(d); var n := |d| - 1;
      && |e| == |d| && (forall i | 0 <= i < n :: e[i] == d[i])
      && (|d[n]| == 0 ==> e == d)
      && (|d[n]| > 0 ==> |e[n]| == |d[n]| - 1 && forall j | 0 <= j < |e[n]| :: e[n][j] == d[n][j])
  {
  }

  /** After a change of colour the cells already written keep theirs, and the next one has the new colour. */
  lemma ColourOfLaterCells(s: TextState, color: Color, ch: Codepoint, width: u64, font: Font)
    requires |s.doc| > 0 && Fits(s.doc, width / 16) && width >= 16 && ch != 10 && font(ch).Some?
    ensures var changed := After(s, SetTextColor(color), width, font);
      && changed.doc == s.doc && changed.header == s.header && changed.uptime == s.uptime
      && var d := After(changed, WriteOne(ch), width, font).doc; var last := d[|d| - 1];
         |last| > 0 && last[|last| - 1] == Cell(font(ch).value, color) && d != s.doc
  {
    var d := Put(s.doc, Cell(font(ch).value, color), width / 16);
    assert |d| == |s.doc| ==> |d[|d| - 1]| == |s.doc[|d| - 1]| + 1;
  }

  /** Clearing leaves one empty line and keeps colour and uptime; the header is drawn afresh in the current colour. */
  lemma ClearingBlanks(s: TextState, rows: nat, width: u64, font: Font, px: int, py: int, background: Color)
    requires |s.doc| > 0 && 0 <= px < width && 40 <= py < TWO_64
    ensures var t := After(s, Clear, width, font);
      && t.color == s.color && t.uptime == s.uptime
      && TextPixel(t.doc, rows, px, py, background) == background
      && Painted(t.header, px, py, background) == background
      && (forall row, column :: CellAt(t.doc, rows, row, column) == None)
  {
    BlankIsBackground(rows, px, py, background);
    HeaderIsConfined(width, s.uptime, s.color, font, px, py, background, background);
    hide HeaderShapes, TextPixel, Painted;
  }

  // --- the header, pixel by pixel -----------------------------------------------------------

  /** A text of double-size letters whose first begins at `(x, 12)` has a set pixel here. */
  predicate TextBit(text: seq<Codepoint>, x: int, font: Font, px: int, py: int) {
    && x <= px < x + 16 * |text| && 12 <= py < 28
    && var glyph := font(text[(px - x) / 16]);
       glyph.Some? && Bits.Digit(glyph.value[(py - 12) / 2], Bits.Weight(7 - (px - x) % 16 / 2))
  }

  /** What one letter paints. */
  lemma LetterBit(x: u64, g: Glyph, color: Color, px: int, py: int)
    requires 0 <= px < TWO_64 && 0 <= py < TWO_64 && x + 16 <= TWO_64
    ensures Covers(Letter(x, 12, g, 2, color), px, py) <==>
      x <= px < x + 16 && 12 <= py < 28 && Bits.Digit(g[(py - 12) / 2], Bits.Weight(7 - (px - x) / 2))
  {
    GlyphInPlain(px, py, x, 12, g, 2);
    hide GlyphCovers, Bits.Digit, Bits.Weight;
  }

  /** A header text shows letter `i` in the sixteen columns from `x + 16 * i` on and leaves every other pixel alone. */
  lemma {:induction false} LettersInPlain(x: u64, text: seq<Codepoint>, color: Color, font: Font, px: int, py: int,
                                          base: Color)
    requires 0 <= px < TWO_64 && 0 <= py < TWO_64 && x + 16 * |text| < TWO_64
    ensures Painted(Letters(x, 12, text, 2, color, font), px, py, base)
         == if TextBit(text, x, font, px, py) then color else base
    decreases |text|
  {
    hide TextBit, Covers, Painted;
    if |text| == 0 {
      NothingPainted(x, text, font, px, py, base);
    } else {
      var rest := Letters(x + 16, 12, text[1..], 2, color, font);
      TextBitStep(text, x, font, px, py);
      LettersInPlain(x + 16, text[1..], color, font, px, py, base);
      match font(text[0])
      case None =>
        assert [] + rest == rest;
      case Some(g) =>
        var letter := Letter(x, 12, g, 2, color);
        PaintedAppend([letter], rest, px, py, base);
        PaintedOne(letter, px, py, base);
        LettersInPlain(x + 16, text[1..], color, font, px, py, Painted([letter], px, py, base));
        LetterBit(x, g, color, px, py);
    }
  }

  lemma NothingPainted(x: int, text: seq<Codepoint>, font: Font, px: int, py: int, base: Color)
    requires |text| == 0
    ensures Painted([], px, py, base) == base && !TextBit(text, x, font, px, py)
  {
  }

  lemma TextBitStep(text: seq<Codepoint>, x: int, font: Font, px: int, py: int)
    requires |text| > 0
    ensures TextBit(text, x, font, px, py) <==>
      || TextBit(text[1..], x + 16, font, px, py)
      || (x <= px < x + 16 && 12 <= py < 28 && font(text[0]).Some?
          && Bits.Digit(font(text[0]).value[(py - 12) / 2], Bits.Weight(7 - (px - x) / 2)))
    ensures TextBit(text[1..], x + 16, font, px, py) ==> px >= x + 16
  {
    hide Bits.Digit, Bits.Weight;
    if px >= x + 16 {
      assert (px - x) / 16 == (px - (x + 16)) / 16 + 1 && (px - x) % 16 == (px - (x + 16)) % 16;
    }
  }

  /** The clock's left edge: sixteen pixels from the right end it ends, on any screen wide enough. */
  function ClockLeft(width: int): int {
    if width > 144 then width - 144 else 16
  }

  /** The colour of a header pixel: the clock over the kernel's name over the accent bar over a line at row 39 and the
      header's ground. */
  function HeaderPixel(width: u64, uptime: u64, color: Color, font: Font, px: int, py: int): Color {
    if TextBit(ClockText(uptime), ClockLeft(width), font, px, py) then 0x008B949E
    else if TextBit([0x6B, 0x62, 0x6D], 28, font, px, py) then color
    else if 16 <= px < 19 && 12 <= py < 28 then 0x004DD9C8
    else if py == 39 then 0x002B3440
    else 0x00161C24
  }

  lemma HeaderInPlain(width: u64, uptime: u64, color: Color, font: Font, px: int, py: int, base: Color)
    requires 0 <= px < width && 0 <= py < 40
    ensures Painted(HeaderShapes(width, uptime, color, font), px, py, base)
         == HeaderPixel(width, uptime, color, font, px, py)
  {
    HeaderLayers(width, uptime, color, font, px, py, base);
    RectsInPlain(width, px, py);
    var ground := if InRect(px, py, 16, 12, 3, 16) then ACCENT_COLOR
                  else if InRect(px, py, 0, HEADER_HEIGHT - 1, width, 1) then HEADER_LINE_COLOR
                  else if InRect(px, py, 0, 0, width, HEADER_HEIGHT) then HEADER_COLOR
                  else base;
    assert |ClockText(uptime)| == 8;
    LettersInPlain(28, KBM, color, font, px, py, ground);
    hide Letters, TextBit, ClockText, HeaderShapes, InRect, Painted;
    LettersInPlain(ClockX(width), ClockText(uptime), DIM_COLOR, font, px, py,
      Painted(Letters(28, 12, KBM, 2, color, font), px, py, ground));
  }

  lemma RectsInPlain(width: u64, px: int, py: int)
    requires 0 <= px < width && 0 <= py < 40
    ensures InRect(px, py, 16, 12, 3, 16) <==> 16 <= px < 19 && 12 <= py < 28
    ensures InRect(px, py, 0, HEADER_HEIGHT - 1, width, 1) <==> py == 39
    ensures InRect(px, py, 0, 0, width, HEADER_HEIGHT)
  {
    SpansPlain(px, 16, 3);
    SpansPlain(py, 12, 16);
    SpansPlain(px, 0, width);
    SpansPlain(py, 39, 1);
    SpansPlain(py, 0, 40);
    hide Spans;
  }

  /** The numerals from zero to nine. */
  const NUMERALS: seq<Codepoint> := [0x30, 0x31, 0x32, 0x33, 0x34, 0x35, 0x36, 0x37, 0x38, 0x39]

  lemma DigitIsNumeral(n: nat)
    requires n < 10
    ensures Digit(n) == NUMERALS[n]
  {
    if n == 0 { } else if n == 1 { } else if n == 2 { } else if n == 3 { } else if n == 4 { }
    else if n == 5 { } else if n == 6 { } else if n == 7 { } else if n == 8 { } else { }
  }

  /** The codepoints read hh:mm:ss, and the digits at those places are those of the uptime. */
  lemma ClockReads(uptime: u64)
    ensures var d := ClockDigits(uptime);
      && (forall i | 0 <= i < 6 :: d[i] < 10) && d[2] < 6 && d[4] < 6
      && ClockText(uptime) == [NUMERALS[d[0]], NUMERALS[d[1]], 0x3A, NUMERALS[d[2]], NUMERALS[d[3]], 0x3A,
                               NUMERALS[d[4]], NUMERALS[d[5]]]
      && (10 * d[0] + d[1]) * 3600 + (10 * d[2] + d[3]) * 60 + 10 * d[4] + d[5]
         == if uptime < 360000 then uptime else 99 * 3600 + uptime % 3600
  {
    ClockTellsTime(uptime);
    var d := ClockDigits(uptime);
    forall i | 0 <= i < 6 ensures Digit(d[i]) == NUMERALS[d[i]] {
      DigitIsNumeral(d[i]);
    }
    hide ClockDigits, Digit, NUMERALS;
  }

  /** A header update shows the new uptime in the current colour, and touches nothing else. */
  lemma UpdateShowsUptime(s: TextState, uptime: u64, width: u64, font: Font, px: int, py: int, base: Color)
    requires |s.doc| > 0 && 0 <= px < width && 0 <= py < 40
    ensures var t := After(s, UpdateHeader(uptime), width, font);
      && t.doc == s.doc && t.color == s.color && t.uptime == uptime
      && Painted(t.header, px, py, base) == HeaderPixel(width, uptime, s.color, font, px, py)
  {
    HeaderInPlain(width, uptime, s.color, font, px, py, base);
    hide HeaderShapes, Painted, HeaderPixel;
  }

  /** Clearing draws the header for the uptime shown last. */
  lemma ClearingKeepsUptime(s: TextState, width: u64, font: Font, px: int, py: int, base: Color)
    requires |s.doc| > 0 && 0 <= px < width && 0 <= py < 40
    ensures Painted(After(s, Clear, width, font).header, px, py, base)
         == HeaderPixel(width, s.uptime, s.color, font, px, py)
  {
    HeaderInPlain(width, s.uptime, s.color, font, px, py, base);
    hide HeaderShapes, Painted, HeaderPixel;
  }

  /** Below row 56 pixel `(px, py)` belongs to cell `px / 16` of row `(py - 56) / 16`, and the rows show the last lines
      of the document; each cell is its glyph at double size. */
  lemma TextInPlain(d: Document, rows: nat, px: int, py: int, background: Color)
    requires px >= 0 && py >= 56
    ensures var row, column := (py - 56) / 16, px / 16;
      var line := row + if |d| <= rows then 0 else |d| - rows;
      TextPixel(d, rows, px, py, background)
      == if row < rows && line < |d| && column < |d[line]|
            && Bits.Digit(d[line][column].glyph[(py - 56) % 16 / 2], Bits.Weight(7 - px % 16 / 2))
         then d[line][column].color else background
  {
    var row, column := (py - 56) / 16, px / 16;
    var cell := CellAt(d, rows, row, column);
    if cell.Some? {
      BitByValue(cell.value.glyph, px % 16 / 2, (py - 56) % 16 / 2);
    }
    hide Bits.Digit, Bits.Weight, BitSet;
  }
}
