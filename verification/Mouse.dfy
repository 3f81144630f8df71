/** The mouse driver: packets from interrupts, and a square drawn over whatever the screen shows. */
module MouseCode {
  import opened Machine
  import opened Display
  import opened PointerModel

  const CURSOR_COLOR: Color := 0x00FF0000

  predicate InSquare(px: int, py: int, x: int, y: int) {
    x <= px < x + CURSOR_SIZE && y <= py < y + CURSOR_SIZE
  }

  class Mouse {
    const fb: Framebuffer
    const packet: array<bv8>
    const saved: array<Color>
    var index: nat
    var x: int
    var y: int
    var oldX: int
    var oldY: int
    var screenWidth: u64
    var screenHeight: u64
    var visible: bool
    /** The picture under the square, from when it was drawn. */
    ghost var under: Picture

    constructor (fb: Framebuffer)
      ensures this.fb == fb && fresh(packet) && fresh(saved) && packet.Length == 3 && saved.Length == 16
      ensures !visible && index == 0
    {
      this.fb := fb;
      packet, saved := new bv8[3], new Color[16];
      index, x, y, oldX, oldY, screenWidth, screenHeight, visible, under := 0, 0, 0, 0, 0, 0, 0, false, [];
    }

    ghost predicate Shaped()
      reads this
    {
      && fb.Valid() && packet.Length == 3 && saved.Length == 16
      && screenWidth == fb.width && screenHeight == fb.height && Screen(screenWidth, screenHeight)
    }

    ghost function Position(): Pointer
      reads this, packet
    {
      Pointer(packet[..], index, x, y)
    }

    /** The pixels show picture `p` with the square over it at `(qx, qy)`. */
    ghost predicate Overlaid(p: Picture, qx: int, qy: int)
      requires fb.Valid()
      reads fb.pixels
    {
      && |p| == fb.height && (forall py | 0 <= py < fb.height :: |p[py]| == fb.stride)
      && forall px, py | fb.InMemory(px, py) ::
           fb.At(px, py) == if InSquare(px, py, qx, qy) && px < fb.width then CURSOR_COLOR else p[py][px]
    }

    /** Saved pixel `k`, read row by row, is the one of `p` at its place under the square, if that is on the screen. */
    ghost predicate SavedAt(p: Picture, qx: int, qy: int, k: nat)
      requires fb.Valid() && saved.Length == 16 && k < 16
      requires |p| == fb.height && forall py | 0 <= py < fb.height :: |p[py]| == fb.stride
      reads saved
    {
      var px, py := qx + k % CURSOR_SIZE, qy + k / CURSOR_SIZE;
      0 <= px < fb.width && 0 <= py < fb.height ==> saved[k] == p[py][px]
    }

    ghost predicate Saved(p: Picture, qx: int, qy: int, n: nat)
      requires fb.Valid() && saved.Length == 16 && n <= 16
      requires |p| == fb.height && forall py | 0 <= py < fb.height :: |p[py]| == fb.stride
      reads saved
    {
      forall k: nat | k < n :: SavedAt(p, qx, qy, k)
    }

    /** Position on the screen, square drawn there if visible. */
    ghost predicate Drawn()
      reads this, packet, saved, fb.pixels
    {
      && Shaped() && 0 <= x < screenWidth && 0 <= y < screenHeight
      && (visible ==> oldX == x && oldY == y && Overlaid(under, x, y) && Saved(under, x, y, 16))
    }

    ghost predicate Valid()
      reads this, packet, saved, fb.pixels
    {
      Drawn() && index < 3
    }

    /** The picture without the square. */
    ghost function Underlying(): Picture
      requires fb.Valid()
      reads this, fb.pixels
    {
      if visible then under else fb.Snapshot()
    }

    /** Copy the pixels under the square. */
    method SaveBackground(ghost p: Picture)
      requires Shaped() && 0 <= x < fb.width && 0 <= y < fb.height && p == fb.Snapshot()
      modifies saved
      ensures Saved(p, x, y, 16) && fb.Snapshot() == p
    {
      for row := 0 to CURSOR_SIZE
        invariant Saved(p, x, y, 4 * row) && fb.Snapshot() == p
      {
        for column := 0 to CURSOR_SIZE
          invariant Saved(p, x, y, 4 * row + column) && fb.Snapshot() == p
        {
          var color := fb.GetPixel(x + column, y + row);
          SaveOne(p, row, column, color);
        }
      }
    }

    method SaveOne(ghost p: Picture, row: nat, column: nat, color: Color)
      requires Shaped() && 0 <= x < fb.width && 0 <= y < fb.height && p == fb.Snapshot() && row < 4 && column < 4
      requires x + column < fb.width && y + row < fb.height ==> color == p[y + row][x + column]
      requires Saved(p, x, y, 4 * row + column)
      modifies saved
      ensures Saved(p, x, y, 4 * row + column + 1) && fb.Snapshot() == p
    {
      ghost var was := saved[..];
      saved[row * CURSOR_SIZE + column] := color;
      assert (4 * row + column) / CURSOR_SIZE == row && (4 * row + column) % CURSOR_SIZE == column;
      forall k: nat | k < 4 * row + column + 1 ensures SavedAt(p, x, y, k) {
        assert k < 4 * row + column ==> old(SavedAt(p, x, y, k)) && saved[k] == was[k];
      }
    }

    /** Put the saved pixels back. */
    method RestoreBackground()
      requires Shaped() && 0 <= oldX < fb.width && 0 <= oldY < fb.height
      requires Overlaid(under, oldX, oldY) && Saved(under, oldX, oldY, 16)
      modifies fb.pixels
      ensures fb.Snapshot() == under
    {
      for row := 0 to CURSOR_SIZE
        invariant forall px, py | fb.InMemory(px, py) ::
          fb.At(px, py) == if InSquare(px, py, oldX, oldY) && px < fb.width && py >= oldY + row
                           then CURSOR_COLOR else under[py][px]
      {
        for column := 0 to CURSOR_SIZE
          invariant forall px, py | fb.InMemory(px, py) ::
            fb.At(px, py) == if InSquare(px, py, oldX, oldY) && px < fb.width
                                && (py > oldY + row || (py == oldY + row && px >= oldX + column))
                             then CURSOR_COLOR else under[py][px]
        {
          var k := row * CURSOR_SIZE + column;
          assert k / CURSOR_SIZE == row && k % CURSOR_SIZE == column;
          assert SavedAt(under, oldX, oldY, k);
          fb.PutPixel(oldX + column, oldY + row, saved[k]);
        }
      }
      SamePicture(fb.Snapshot(), under, fb.stride);
    }

    /** Take the square off the screen; the picture under it comes back exactly. */
    method HideCursor()
      requires Drawn()
      modifies `visible, fb.pixels
      ensures Drawn() && !visible && fb.Snapshot() == old(Underlying())
    {
      if !visible {
        return;
      }
      RestoreBackground();
      visible := false;
    }

    /** Draw the square at the current position over the picture now on the screen. */
    method ShowCursor()
      requires Drawn()
      modifies this, saved, fb.pixels
      ensures Drawn() && visible && Underlying() == old(Underlying())
      ensures Position() == old(Position()) && screenWidth == old(screenWidth) && screenHeight == old(screenHeight)
    {
      if visible {
        return;
      }
      oldX := x;
      oldY := y;
      under := fb.Snapshot();
      SaveBackground(under);
      fb.DrawRect(x, y, CURSOR_SIZE, CURSOR_SIZE, CURSOR_COLOR);
      forall px, py | fb.InMemory(px, py)
        ensures InRect(px, py, x, y, CURSOR_SIZE, CURSOR_SIZE) <==> InSquare(px, py, x, y)
      {
        SpansPlain(px, x, CURSOR_SIZE);
        SpansPlain(py, y, CURSOR_SIZE);
      }
      visible := true;
    }

    /** Start in the middle of the screen and draw the square. */
    method Init()
      requires fb.Valid() && packet.Length == 3 && saved.Length == 16 && index < 3 && !visible
      requires Screen(fb.width, fb.height)
      modifies this, saved, fb.pixels
      ensures Valid() && visible && Underlying() == old(fb.Snapshot())
      ensures Position() == Start(packet[..], old(index), screenWidth, screenHeight)
    {
      screenWidth, screenHeight := fb.width, fb.height;
      x, y := screenWidth / 2, screenHeight / 2;
      oldX, oldY := x, y;
      ShowCursor();
    }

    /** Add the movement and keep the position on the screen; the comparison is unsigned. */
    method Move(xMovement: int, yMovement: int)
      modifies `x, `y
      ensures x == Moved(old(x), xMovement, screenWidth) && y == Moved(old(y), -yMovement, screenHeight)
    {
      x := x + xMovement;
      y := y - yMovement;
      if x < 0 {
        x := 0;
      }
      if y < 0 {
        y := 0;
      }
      if x > Wrap(screenWidth - CURSOR_SIZE) {
        x := screenWidth - CURSOR_SIZE;
      }
      if y > Wrap(screenHeight - CURSOR_SIZE) {
        y := screenHeight - CURSOR_SIZE;
      }
    }

    /** Lift the square, move and draw it again. */
    method MoveCursor(xMovement: int, yMovement: int)
      requires Drawn()
      modifies this, saved, fb.pixels
      ensures Drawn() && visible && Underlying() == old(Underlying())
      ensures Position() == Pointer(old(packet[..]), old(index),
                                    Moved(old(x), xMovement, screenWidth), Moved(old(y), -yMovement, screenHeight))
      ensures screenWidth == old(screenWidth) && screenHeight == old(screenHeight)
    {
      MovedStays(x, xMovement, screenWidth);
      MovedStays(y, -yMovement, screenHeight);
      hide Overlaid, Saved, Moved;
      HideCursor();
      Move(xMovement, yMovement);
      ShowCursor();
    }

    /** One byte from the mouse interrupt. */
    method Irq(b: bv8)
      requires Valid()
      modifies this, packet, saved, fb.pixels
      ensures Valid() && Position() == Feed(old(Position()), b, screenWidth, screenHeight)
      ensures Underlying() == old(Underlying()) && (old(visible) ==> visible)
      ensures screenWidth == old(screenWidth) && screenHeight == old(screenHeight)
    {
      hide Overlaid, Saved, Moved, Signed, Spans;
      if index == 0 && b == ACKNOWLEDGE {
        return;
      }
      if index == 0 && b & 0x08 == 0 {
        return;
      }
      packet[index] := b;
      index := index + 1;
      if index == 3 {
        if packet[0] & 0xC0 == 0 {
          MoveCursor(Signed(packet[1]), Signed(packet[2]));
        }
        index := 0;
      }
    }
  }
}
