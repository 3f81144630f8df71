/** What the console shows: a window on an ever-growing document, under a status header. */
module TextScreen {
  import opened Machine
  import opened Display
  import opened Utf8

  const GLYPH_SIZE: int := 16
  const HEADER_HEIGHT: int := 40
  const CONTENT_TOP: int := 56

  const HEADER_COLOR: Color := 0x00161C24
  const ACCENT_COLOR: Color := 0x004DD9C8
  const HEADER_LINE_COLOR: Color := 0x002B3440
  const DIM_COLOR: Color := 0x008B949E

  /** `font_get_glyph`: the bitmap of a codepoint, if the font has one. */
  type Font = Codepoint -> Option<Glyph>

  // --- the document ---------------------------------------------------------------

  datatype Cell = Cell(glyph: Glyph, color: Color)

  /** Lines of cells, never empty, the last one being written. */
  type Document = seq<seq<Cell>>

  const BLANK: Document := [[]]

  function NewLine(d: Document): Document {
    d + [[]]
  }

  function Put(d: Document, c: Cell, columns: nat): Document
    requires |d| > 0
  {
    var last := d[|d| - 1];
    if |last| == columns then d + [[c]] else d[..|d| - 1] + [last + [c]]
  }

  /** Backspace erases on the current line only. */
  function Erase(d: Document): Document
    requires |d| > 0
  {
    var last := d[|d| - 1];
    if |last| == 0 then d else d[..|d| - 1] + [last[..|last| - 1]]
  }

  /** A newline starts a line, an unknown codepoint does nothing, any other is put at the cursor. */
  function Typed(d: Document, ch: Codepoint, font: Font, color: Color, columns: nat): Document
    requires |d| > 0
  {
    if ch == 10 then NewLine(d)
    else match font(ch)
      case None => d
      case Some(g) => Put(d, Cell(g, color), columns)
  }

  function TypedAll(d: Document, chs: seq<Codepoint>, font: Font, color: Color, columns: nat): Document
    requires |d| > 0
    decreases |chs|
  {
    if |chs| == 0 then d else TypedAll(Typed(d, chs[0], font, color, columns), chs[1..], font, color, columns)
  }

  lemma TypedFirst(d: Document, ch: Codepoint, rest: seq<Codepoint>, font: Font, color: Color, columns: nat)
    requires |d| > 0
    ensures TypedAll(d, [ch] + rest, font, color, columns)
         == TypedAll(Typed(d, ch, font, color, columns), rest, font, color, columns)
  {
  }

  lemma TypedNothing(d: Document, font: Font, color: Color, columns: nat)
    requires |d| > 0
    ensures TypedAll(d, [], font, color, columns) == d
  {
  }

  predicate Fits(d: Document, columns: nat) {
    |d| > 0 && forall i | 0 <= i < |d| :: |d[i]| <= columns
  }

  // --- its picture ----------------------------------------------------------------

  /** The first line in view. */
  function Top(d: Document, rows: nat): nat {
    if |d| <= rows then 0 else |d| - rows
  }

  /** The cell at a row and column of the window, if the document has one there. */
  function CellAt(d: Document, rows: nat, row: int, column: int): Option<Cell> {
    if 0 <= row < rows && Top(d, rows) + row < |d| && 0 <= column < |d[Top(d, rows) + row]|
    then Some(d[Top(d, rows) + row][column])
    else None
  }

  /** The colour of a pixel at `(x, y)` inside a cell. */
  function CellPixel(c: Option<Cell>, x: int, y: int, background: Color): Color
    requires 0 <= x < GLYPH_SIZE && 0 <= y < GLYPH_SIZE
  {
    if c.Some? && BitSet(c.value.glyph, x / 2, y / 2) then c.value.color else background
  }

  function RowOf(py: int): int { (py - CONTENT_TOP) / GLYPH_SIZE }

  function RowPixel(py: int): int { (py - CONTENT_TOP) % GLYPH_SIZE }

  function ColumnOf(px: int): int { px / GLYPH_SIZE }

  function ColumnPixel(px: int): int { px % GLYPH_SIZE }

  /** The rendering of a document below the header. */
  function TextPixel(d: Document, rows: nat, px: int, py: int, background: Color): Color {
    CellPixel(CellAt(d, rows, RowOf(py), ColumnOf(px)), ColumnPixel(px), RowPixel(py), background)
  }

  // --- how each operation moves the window ---------------------------------------------

  /** A new line shows nothing itself; once the window is full it pushes every row up by one. */
  lemma NewLineShows(d: Document, rows: nat, row: int, column: int)
    requires rows > 0
    ensures CellAt(NewLine(d), rows, row, column)
         == if |d| < rows || row < 0 then CellAt(d, rows, row, column) else CellAt(d, rows, row + 1, column)
  {
  }

  /** A new line is one more, empty line; the window moves when it was full. */
  lemma NewLineFits(d: Document, rows: nat, columns: nat)
    requires Fits(d, columns) && rows > 0
    ensures var e := NewLine(d);
      && Fits(e, columns) && |e| == |d| + 1 && |e[|d|]| == 0
      && |e| - Top(e, rows) == if |d| < rows then |d| - Top(d, rows) + 1 else |d| - Top(d, rows)
  {
  }

  /** In pixels: nothing changes while rows are left; after that each row shows what the one below showed. */
  lemma NewLinePixels(d: Document, rows: nat, px: int, py: int, background: Color)
    requires rows > 0 && py >= CONTENT_TOP
    ensures TextPixel(NewLine(d), rows, px, py, background)
         == TextPixel(d, rows, px, if |d| < rows then py else py + GLYPH_SIZE, background)
  {
    NewLineShows(d, rows, RowOf(py), ColumnOf(px));
    assert RowOf(py + GLYPH_SIZE) == RowOf(py) + 1 && RowPixel(py + GLYPH_SIZE) == RowPixel(py);
    hide CellAt, NewLine, CellPixel;
  }

  /** Below the last whole row there is only background. */
  lemma MarginIsBlank(d: Document, rows: nat, px: int, py: int, background: Color)
    requires RowOf(py) >= rows
    ensures TextPixel(d, rows, px, py, background) == background
  {
  }

  lemma BlankIsBackground(rows: nat, px: int, py: int, background: Color)
    ensures TextPixel(BLANK, rows, px, py, background) == background
  {
  }

  /** Putting a cell on a line with room shows it at the cursor and changes nothing else. */
  lemma PutShows(d: Document, rows: nat, columns: nat, c: Cell, row: int, column: int)
    requires rows > 0 && |d| > 0 && |d[|d| - 1]| < columns
    ensures CellAt(Put(d, c, columns), rows, row, column)
         == if row == |d| - 1 - Top(d, rows) && column == |d[|d| - 1]| then Some(c) else CellAt(d, rows, row, column)
    ensures CellAt(d, rows, |d| - 1 - Top(d, rows), |d[|d| - 1]|) == None
  {
  }

  lemma PutPixels(d: Document, rows: nat, columns: nat, c: Cell, px: int, py: int, background: Color)
    requires rows > 0 && |d| > 0 && |d[|d| - 1]| < columns
    ensures var here := RowOf(py) == |d| - 1 - Top(d, rows) && ColumnOf(px) == |d[|d| - 1]|;
      && TextPixel(Put(d, c, columns), rows, px, py, background)
         == (if here then CellPixel(Some(c), ColumnPixel(px), RowPixel(py), background)
             else TextPixel(d, rows, px, py, background))
      && (here ==> TextPixel(d, rows, px, py, background) == background)
  {
    PutShows(d, rows, columns, c, RowOf(py), ColumnOf(px));
  }

  lemma ErasePixels(d: Document, rows: nat, px: int, py: int, background: Color)
    requires rows > 0 && |d| > 0 && |d[|d| - 1]| > 0
    ensures TextPixel(Erase(d), rows, px, py, background)
         == if RowOf(py) == |d| - 1 - Top(d, rows) && ColumnOf(px) == |d[|d| - 1]| - 1 then background
            else TextPixel(d, rows, px, py, background)
  {
    EraseShows(d, rows, RowOf(py), ColumnOf(px));
  }

  /** On a full line a cell goes to the new line below. */
  lemma PutWraps(d: Document, columns: nat, c: Cell)
    requires |d| > 0 && |d[|d| - 1]| == columns > 0
    ensures Put(d, c, columns) == Put(NewLine(d), c, columns)
  {
    var e := NewLine(d);
    assert e[..|e| - 1] == d && e[|e| - 1] == [] && [] + [c] == [c];
  }

  lemma EraseShows(d: Document, rows: nat, row: int, column: int)
    requires rows > 0 && |d| > 0 && |d[|d| - 1]| > 0
    ensures CellAt(Erase(d), rows, row, column)
         == if row == |d| - 1 - Top(d, rows) && column == |d[|d| - 1]| - 1 then None else CellAt(d, rows, row, column)
  {
  }

  /** Erasing takes back what was just put. */
  lemma EraseUndoesPut(d: Document, c: Cell, columns: nat)
    requires |d| > 0 && columns > 0
    ensures Erase(Put(d, c, columns)) == if |d[|d| - 1]| == columns then NewLine(d) else d
  {
    var last := d[|d| - 1];
    if |last| == columns {
      assert (d + [[c]])[..|d|] == d && [c][..0] == [];
    } else {
      assert (last + [c])[..|last|] == last;
      assert d == d[..|d| - 1] + [last];
    }
  }

  // --- the header ---------------------------------------------------------------------

  /** Things the header is painted with, later ones over earlier ones. */
  datatype Shape =
    | Rect(x: u64, y: u64, width: u64, height: u64, color: Color)
    | Letter(x: u64, y: u64, glyph: Glyph, scale: u64, color: Color)

  predicate Covers(s: Shape, px: int, py: int) {
    match s
    case Rect(x, y, w, h, _) => InRect(px, py, x, y, w, h)
    case Letter(x, y, g, scale, _) => GlyphCovers(px, py, x, y, g, scale)
  }

  function Painted(shapes: seq<Shape>, px: int, py: int, base: Color): Color {
    if |shapes| == 0 then base
    else if Covers(shapes[|shapes| - 1], px, py) then shapes[|shapes| - 1].color
    else Painted(shapes[..|shapes| - 1], px, py, base)
  }

  /** The letters of a header text, from left to right; characters without a glyph leave a gap. */
  function Letters(x: u64, y: u64, text: seq<Codepoint>, scale: u64, color: Color, font: Font): seq<Shape>
    decreases |text|
  {
    if |text| == 0 then [] else
    var here := match font(text[0]) case None => [] case Some(g) => [Letter(x, y, g, scale, color)];
    here + Letters(Wrap(x + 8 * scale), y, text[1..], scale, color, font)
  }

  function Digit(n: nat): Codepoint
    requires n < 10
  {
    (0x30 + n) as bv32
  }

  function Hours(uptime: u64): nat {
    if uptime / 3600 > 99 then 99 else uptime / 3600
  }

  /** The clock text: two digits each for hours (at most 99), minutes and seconds. */
  function ClockDigits(uptime: u64): seq<nat> {
    var m, s := (uptime / 60) % 60, uptime % 60;
    [Hours(uptime) / 10, Hours(uptime) % 10, m / 10, m % 10, s / 10, s % 10]
  }

  function ClockText(uptime: u64): seq<Codepoint> {
    var d := ClockDigits(uptime);
    [Digit(d[0]), Digit(d[1]), 0x3A, Digit(d[2]), Digit(d[3]), 0x3A, Digit(d[4]), Digit(d[5])]
  }

  /** Read as a clock, the digits give the uptime back, up to the hours they can show. */
  lemma ClockTellsTime(uptime: u64)
    ensures var d := ClockDigits(uptime);
      && (forall i | 0 <= i < 6 :: d[i] < 10) && d[2] < 6 && d[4] < 6
      && var seconds := (10 * d[0] + d[1]) * 3600 + (10 * d[2] + d[3]) * 60 + 10 * d[4] + d[5];
         seconds == if uptime < 360000 then uptime else 99 * 3600 + uptime % 3600
  {
    TwoDigits(Hours(uptime));
    TwoDigits((uptime / 60) % 60);
    TwoDigits(uptime % 60);
    Sexagesimal(uptime);
  }

  lemma TwoDigits(n: nat)
    requires n < 100
    ensures n / 10 < 10 && n % 10 < 10 && 10 * (n / 10) + n % 10 == n
    ensures n < 60 ==> n / 10 < 6
  {
  }

  lemma Sexagesimal(n: nat)
    ensures n % 3600 == 60 * ((n / 60) % 60) + n % 60
    ensures n == 3600 * (n / 3600) + n % 3600 && (n / 3600 > 99 <==> n >= 360000)
  {
    var m := n / 60;
    assert n == 3600 * (m / 60) + (60 * (m % 60) + n % 60);
  }

  function ClockX(width: u64): u64 {
    if width > 8 * 16 + 16 then width - 8 * 16 - 16 else 16
  }

  /** The kernel's name. */
  const KBM: seq<Codepoint> := [0x6B, 0x62, 0x6D]

  function HeaderShapes(width: u64, uptime: u64, color: Color, font: Font): seq<Shape> {
    [Rect(0, 0, width, HEADER_HEIGHT, HEADER_COLOR),
     Rect(0, HEADER_HEIGHT - 1, width, 1, HEADER_LINE_COLOR),
     Rect(16, 12, 3, 16, ACCENT_COLOR)]
    + Letters(28, 12, KBM, 2, color, font)
    + Letters(ClockX(width), 12, ClockText(uptime), 2, DIM_COLOR, font)
  }

  /** Drawing a text letter by letter: what is left to draw after the first. */
  lemma LettersStep(x: u64, y: u64, text: seq<Codepoint>, i: nat, scale: u64, color: Color, font: Font)
    requires i < |text|
    ensures Letters(x, y, text[i..], scale, color, font)
         == (match font(text[i]) case None => [] case Some(g) => [Letter(x, y, g, scale, color)])
            + Letters(Wrap(x + 8 * scale), y, text[i + 1..], scale, color, font)
  {
    assert text[i..][1..] == text[i + 1..];
  }

  lemma LettersEnd(x: u64, y: u64, text: seq<Codepoint>, scale: u64, color: Color, font: Font, px: int, py: int,
                   base: Color)
    ensures Painted(Letters(x, y, text[|text|..], scale, color, font), px, py, base) == base
  {
  }

  lemma PaintedOne(s: Shape, px: int, py: int, base: Color)
    ensures Painted([s], px, py, base) == if Covers(s, px, py) then s.color else base
  {
    assert [s][..0] == [];
  }

  lemma {:induction false} PaintedAppend(s: seq<Shape>, t: seq<Shape>, px: int, py: int, base: Color)
    ensures Painted(s + t, px, py, base) == Painted(t, px, py, Painted(s, px, py, base))
  {
    if |t| == 0 {
      assert s + t == s;
    } else {
      assert (s + t)[..|s + t| - 1] == s + t[..|t| - 1];
      PaintedAppend(s, t[..|t| - 1], px, py, base);
    }
  }

  /** The header's layers, from the bottom up. */
  lemma HeaderLayers(width: u64, uptime: u64, color: Color, font: Font, px: int, py: int, base: Color)
    ensures Painted(HeaderShapes(width, uptime, color, font), px, py, base)
         == Painted(Letters(ClockX(width), 12, ClockText(uptime), 2, DIM_COLOR, font), px, py,
              Painted(Letters(28, 12, KBM, 2, color, font), px, py,
                if InRect(px, py, 16, 12, 3, 16) then ACCENT_COLOR
                else if InRect(px, py, 0, HEADER_HEIGHT - 1, width, 1) then HEADER_LINE_COLOR
                else if InRect(px, py, 0, 0, width, HEADER_HEIGHT) then HEADER_COLOR
                else base))
  {
    hide Letters, InRect, GlyphCovers, ClockText, ClockX;
    var a, b, c := Rect(0, 0, width, HEADER_HEIGHT, HEADER_COLOR),
                   Rect(0, HEADER_HEIGHT - 1, width, 1, HEADER_LINE_COLOR),
      Rect(16, 12, 3, 16, ACCENT_COLOR);
    var name := Letters(28, 12, KBM, 2, color, font);
    PaintedAppend([a, b, c] + name, Letters(ClockX(width), 12, ClockText(uptime), 2, DIM_COLOR, font), px, py, base);
    PaintedAppend([a, b, c], name, px, py, base);
    PaintedAppend([a, b], [c], px, py, base);
    PaintedAppend([a], [b], px, py, base);
    PaintedOne(a, px, py, base);
    PaintedOne(b, px, py, Painted([a], px, py, base));
    PaintedOne(c, px, py, Painted([a, b], px, py, base));
    assert [a, b, c] == [a, b] + [c] && [a, b] == [a] + [b];
  }

  /** A shape that stays above row `bottom`. */
  predicate Above(s: Shape, bottom: int) {
    match s
    case Rect(_, y, _, h, _) => y + h <= bottom
    case Letter(_, y, _, scale, _) => y + 8 * scale <= bottom
  }

  lemma CellAbove(y: u64, scale: u64, gy: nat, py: int, bottom: int)
    requires gy < 8 && y + 8 * scale <= bottom <= py < TWO_64
    ensures !Spans(py, Wrap(y + gy * scale), scale)
  {
    hide Spans;
    CellEnds(gy, scale);
    var start: nat := y + gy * scale;
    assert start + scale <= bottom;
    WrapSmall(start);
    hide Wrap;
    SpansPlain(py, start, scale);
  }

  lemma WrapSmall(x: u64)
    ensures Wrap(x) == x
  {
  }

  lemma CellEnds(gy: nat, scale: nat)
    requires gy < 8
    ensures gy * scale + scale <= 8 * scale
  {
    assert 8 * scale - gy * scale - scale == (7 - gy) * scale;
  }

  lemma AboveCovers(s: Shape, bottom: int, px: int, py: int)
    requires Above(s, bottom) && bottom <= py < TWO_64 && bottom < TWO_64
    ensures !Covers(s, px, py)
  {
    hide BitSet;
    match s
    case Rect(x, y, w, h, _) => SpansPlain(py, y, h);
    case Letter(x, y, g, scale, _) =>
      forall gx: nat, gy: nat | gx < 8 && gy < 8 ensures !CellCovers(px, py, x, y, g, scale, gx, gy) {
        CellAbove(y, scale, gy, py, bottom);
      }
  }

  lemma {:induction false} LettersAbove(x: u64, y: u64, text: seq<Codepoint>, color: Color, font: Font)
    requires y + 16 <= HEADER_HEIGHT
    ensures forall i | 0 <= i < |Letters(x, y, text, 2, color, font)| ::
      Above(Letters(x, y, text, 2, color, font)[i], HEADER_HEIGHT)
    decreases |text|
  {
    if |text| > 0 {
      LettersAbove(Wrap(x + 16), y, text[1..], color, font);
    }
  }

  lemma {:induction false} PaintedAbove(shapes: seq<Shape>, bottom: int, px: int, py: int, base: Color)
    requires bottom <= py < TWO_64 && bottom < TWO_64 && forall i | 0 <= i < |shapes| :: Above(shapes[i], bottom)
    ensures Painted(shapes, px, py, base) == base
  {
    if |shapes| > 0 {
      AboveCovers(shapes[|shapes| - 1], bottom, px, py);
      PaintedAbove(shapes[..|shapes| - 1], bottom, px, py, base);
    }
  }

  /** The header is drawn wholly above row 40, and there it does not show what was below it. */
  lemma HeaderIsConfined(width: u64, uptime: u64, color: Color, font: Font, px: int, py: int, base: Color, base': Color)
    requires 0 <= px < width && 0 <= py < TWO_64
    ensures py >= HEADER_HEIGHT ==> Painted(HeaderShapes(width, uptime, color, font), px, py, base) == base
    ensures py < HEADER_HEIGHT ==>
      Painted(HeaderShapes(width, uptime, color, font), px, py, base)
      == Painted(HeaderShapes(width, uptime, color, font), px, py, base')
  {
    var shapes := HeaderShapes(width, uptime, color, font);
    if py >= HEADER_HEIGHT {
      LettersAbove(28, 12, KBM, color, font);
      LettersAbove(ClockX(width), 12, ClockText(uptime), DIM_COLOR, font);
      PaintedAbove(shapes, HEADER_HEIGHT, px, py, base);
    } else {
      SpansPlain(px, 0, width);
      SpansPlain(py, 0, HEADER_HEIGHT);
      assert shapes == shapes[..1] + shapes[1..] && shapes[..1][..0] == [];
      PaintedAppend(shapes[..1], shapes[1..], px, py, base);
      PaintedAppend(shapes[..1], shapes[1..], px, py, base');
    }
  }

  // --- the console as a state machine --------------------------------------------------

  /** Document, text colour, the uptime last shown and the header as it was drawn. */
  datatype TextState = TextState(doc: Document, color: Color, uptime: u64, header: seq<Shape>)

  datatype Event =
    | WriteText(text: seq<Byte>)
    | WriteOne(ch: Codepoint)
    | Backspace
    | Clear
    | SetTextColor(color: Color)
    | UpdateHeader(uptime: u64)

  function After(c: TextState, e: Event, width: u64, font: Font): TextState
    requires |c.doc| > 0
  {
    match e
    case WriteText(text) => c.(doc := TypedAll(c.doc, Decode(text), font, c.color, width / GLYPH_SIZE))
    case WriteOne(ch) => c.(doc := Typed(c.doc, ch, font, c.color, width / GLYPH_SIZE))
    case Backspace => c.(doc := Erase(c.doc))
    case Clear => c.(doc := BLANK, header := HeaderShapes(width, c.uptime, c.color, font))
    case SetTextColor(color) => c.(color := color)
    case UpdateHeader(uptime) => c.(uptime := uptime, header := HeaderShapes(width, uptime, c.color, font))
  }

  lemma {:induction false} AfterHasLines(c: TextState, e: Event, width: u64, font: Font)
    requires |c.doc| > 0
    ensures |After(c, e, width, font).doc| > 0
  {
    if e.WriteText? {
      TypedAllHasLines(c.doc, Decode(e.text), font, c.color, width / GLYPH_SIZE);
    }
  }

  lemma {:induction false} TypedAllHasLines(d: Document, chs: seq<Codepoint>, font: Font, color: Color, columns: nat)
    requires |d| > 0
    ensures |TypedAll(d, chs, font, color, columns)| > 0
    decreases |chs|
  {
    if |chs| > 0 {
      TypedAllHasLines(Typed(d, chs[0], font, color, columns), chs[1..], font, color, columns);
    }
  }

  ghost function AfterAll(c: TextState, events: seq<Event>, width: u64, font: Font): (r: TextState)
    requires |c.doc| > 0
    ensures |r.doc| > 0
  {
    if |events| == 0 then c else
    AfterHasLines(AfterAll(c, events[..|events| - 1], width, font), events[|events| - 1], width, font);
    After(AfterAll(c, events[..|events| - 1], width, font), events[|events| - 1], width, font)
  }

  /** Calls take effect in the order they are made. */
  lemma {:induction false} AfterBoth(c: TextState, first: seq<Event>, second: seq<Event>, width: u64, font: Font)
    requires |c.doc| > 0
    ensures AfterAll(c, first + second, width, font) == AfterAll(AfterAll(c, first, width, font), second, width, font)
    ensures forall e :: AfterAll(c, [e], width, font) == After(c, e, width, font)
    decreases |second|
  {
    hide After;
    forall e ensures AfterAll(c, [e], width, font) == After(c, e, width, font) {
      assert [e][..0] == [];
    }
    if |second| == 0 {
      assert first + second == first;
    } else {
      var all := first + second;
      assert all[..|all| - 1] == first + second[..|second| - 1];
      AfterBoth(c, first, second[..|second| - 1], width, font);
    }
  }
}
