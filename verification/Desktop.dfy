/** The kernel's idle loop: mouse interrupts and header updates share one screen. */
module Desktop {
  import opened Machine
  import opened Display
  import PM = PointerModel
  import MouseCode
  import TextScreen
  import TextLaws
  import ConsoleCode

  datatype Event = MouseByte(b: bv8) | Second(uptime: u64)

  datatype DeskState = DeskState(pointer: PM.Pointer, text: TextScreen.TextState)

  function After(s: DeskState, e: Event, width: u64, height: u64, font: TextScreen.Font): (t: DeskState)
    requires PM.Sound(s.pointer, width, height) && PM.Screen(width, height) && |s.text.doc| > 0
    ensures PM.Sound(t.pointer, width, height) && t.text.doc == s.text.doc
    ensures PM.Fits(s.pointer, width, height) ==> PM.Fits(t.pointer, width, height)
  {
    match e
    case MouseByte(b) => PM.FeedKeeps(s.pointer, b, width, height); s.(pointer := PM.Feed(s.pointer, b, width, height))
    case Second(uptime) => s.(text := TextScreen.After(s.text, TextScreen.UpdateHeader(uptime), width, font))
  }

  /** A mouse byte leaves the text alone; a second leaves pointer and text alone and shows the new uptime. */
  lemma EventsShow(s: DeskState, e: Event, width: u64, height: u64, font: TextScreen.Font, px: int, py: int,
                   base: Color)
    requires PM.Sound(s.pointer, width, height) && PM.Screen(width, height) && |s.text.doc| > 0
    requires 0 <= px < width && 0 <= py < 40
    ensures var t := After(s, e, width, height, font);
      match e
      case MouseByte(b) => t.text == s.text && t.pointer == PM.Feed(s.pointer, b, width, height)
      case Second(uptime) =>
        && t.pointer == s.pointer && t.text.color == s.text.color && t.text.uptime == uptime
        && TextScreen.Painted(t.text.header, px, py, base)
           == TextLaws.HeaderPixel(width, uptime, s.text.color, font, px, py)
  {
    if e.Second? {
      TextLaws.UpdateShowsUptime(s.text, e.uptime, width, font, px, py, base);
    }
    hide TextScreen.Painted, TextLaws.HeaderPixel, PM.Feed;
  }

  function AfterAll(s: DeskState, events: seq<Event>, width: u64, height: u64, font: TextScreen.Font): (t: DeskState)
    requires PM.Sound(s.pointer, width, height) && PM.Screen(width, height) && |s.text.doc| > 0
    ensures PM.Sound(t.pointer, width, height) && t.text.doc == s.text.doc
    ensures PM.Fits(s.pointer, width, height) ==> PM.Fits(t.pointer, width, height)
  {
    if |events| == 0 then s
    else After(AfterAll(s, events[..|events| - 1], width, height, font), events[|events| - 1], width, height, font)
  }

  /** Events take effect in the order they arrive. */
  lemma {:induction false} AfterBoth(s: DeskState, first: seq<Event>, second: seq<Event>, width: u64, height: u64,
                                     font: TextScreen.Font)
    requires PM.Sound(s.pointer, width, height) && PM.Screen(width, height) && |s.text.doc| > 0
    ensures AfterAll(s, first + second, width, height, font)
         == AfterAll(AfterAll(s, first, width, height, font), second, width, height, font)
    ensures forall e :: AfterAll(s, [e], width, height, font) == After(s, e, width, height, font)
    decreases |second|
  {
    hide After;
    forall e ensures AfterAll(s, [e], width, height, font) == After(s, e, width, height, font) {
      assert [e][..0] == [];
    }
    if |second| == 0 {
      assert first + second == first;
    } else {
      var all := first + second;
      assert all[..|all| - 1] == first + second[..|second| - 1];
      AfterBoth(s, first, second[..|second| - 1], width, height, font);
    }
  }

  /** Everything on the screen: the console's rendering with a red square at the pointer. */
  class Screen {
    const fb: Framebuffer
    const console: ConsoleCode.Console
    const mouse: MouseCode.Mouse

    constructor (fb: Framebuffer, console: ConsoleCode.Console, mouse: MouseCode.Mouse)
      requires console.fb == fb == mouse.fb && console.Valid() && !mouse.visible && mouse.index < 3
      requires mouse.packet.Length == 3 && mouse.saved.Length == 16 && PM.Screen(fb.width, fb.height)
      modifies mouse, mouse.saved, fb.pixels
      ensures Valid() && this.fb == fb && this.console == console && this.mouse == mouse
    {
      this.fb, this.console, this.mouse := fb, console, mouse;
      new;
      mouse.Init();
    }

    /** The picture under the square is the console's. */
    ghost predicate ShowsConsole(p: Picture)
      requires console.fb == fb && fb.Valid() && console.Sized()
      requires |p| == fb.height && forall y | 0 <= y < fb.height :: |p[y]| == fb.stride
      reads console
    {
      forall px, py | 0 <= px < fb.width && 0 <= py < fb.height :: p[py][px] == console.View(px, py)
    }

    ghost predicate Valid()
      reads console, mouse, mouse.packet, mouse.saved, fb.pixels
    {
      && console.fb == fb == mouse.fb && fb.Valid() && console.Sized() && console.CursorAt(console.doc)
      && mouse.Valid() && mouse.visible
      && ShowsConsole(mouse.under)
    }

    ghost function State(): DeskState
      reads console, mouse, mouse.packet
    {
      DeskState(mouse.Position(), console.State())
    }

    lemma WhatIsSeen(px: int, py: int)
      requires Valid() && 0 <= px < fb.width && 0 <= py < fb.height
      ensures fb.At(px, py) == if mouse.x <= px < mouse.x + 4 && mouse.y <= py < mouse.y + 4 then 0x00FF0000
                               else console.View(px, py)
    {
    }

    /** The mouse interrupt. */
    method Interrupt(b: bv8)
      requires Valid()
      modifies mouse, mouse.packet, mouse.saved, fb.pixels
      ensures Valid() && State() == After(old(State()), MouseByte(b), fb.width, fb.height, console.font)
    {
      mouse.Irq(b);
    }

    /** With interrupts off: lift the square, redraw the header, draw the square again. */
    method ShowUptime(uptime: u64)
      requires Valid()
      modifies console, mouse, mouse.saved, fb.pixels
      ensures Valid() && State() == After(old(State()), Second(uptime), fb.width, fb.height, console.font)
    {
      mouse.HideCursor();
      console.UpdateHeader(uptime);
      mouse.ShowCursor();
    }

    /** Over every interleaving of mouse bytes and header updates. */
    method Replay(events: seq<Event>)
      requires Valid()
      modifies console, mouse, mouse.packet, mouse.saved, fb.pixels
      ensures Valid() && State() == AfterAll(old(State()), events, fb.width, fb.height, console.font)
    {
      for i := 0 to |events|
        invariant Valid() && State() == AfterAll(old(State()), events[..i], fb.width, fb.height, console.font)
      {
        assert events[..i + 1][..i] == events[..i];
        match events[i]
        case MouseByte(b) => Interrupt(b);
        case Second(uptime) => ShowUptime(uptime);
      }
      assert events[..|events|] == events;
    }
  }
}
