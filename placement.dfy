/**
 * `place_window_near_cursor`: a window of `width` x `height` is put at the pointer plus an
 * offset, then pushed back inside the screen, keeping `screenMargin` from every edge where
 * the window fits. The pointer position and screen size, Tk queries in the program, are inputs.
 */
module Placement {

  function Min(a: int, b: int): int {
    if a <= b then a else b
  }

  function Max(a: int, b: int): int {
    if a >= b then a else b
  }

  /** The offset defaults to (12, 12) and the margin to 20; the ask window uses margin 300 and the main windows 100. */
  method PlaceWindowNearCursor(pointerX: int, pointerY: int, screenWidth: int, screenHeight: int,
                               width: int, height: int, dx: int := 12, dy: int := 12, screenMargin: int := 20)
    returns (winX: int, winY: int)
    ensures winX == Max(screenMargin, Min(pointerX + dx, screenWidth - width - screenMargin))
    ensures winY == Max(screenMargin, Min(pointerY + dy, screenHeight - height - screenMargin))
    ensures winX >= screenMargin && winY >= screenMargin
    ensures width + 2 * screenMargin <= screenWidth ==> winX + width <= screenWidth - screenMargin
    ensures height + 2 * screenMargin <= screenHeight ==> winY + height <= screenHeight - screenMargin
    ensures screenMargin <= pointerX + dx && pointerX + dx + width <= screenWidth - screenMargin ==> winX == pointerX + dx
    ensures screenMargin <= pointerY + dy && pointerY + dy + height <= screenHeight - screenMargin ==> winY == pointerY + dy
    ensures screenWidth < width + 2 * screenMargin ==> winX == screenMargin
    ensures screenHeight < height + 2 * screenMargin ==> winY == screenMargin
  {
    winX := pointerX + dx;
    winY := pointerY + dy;
    if winX + width > screenWidth - screenMargin {
      winX := screenWidth - width - screenMargin;
    }
    if winY + height > screenHeight - screenMargin {
      winY := screenHeight - height - screenMargin;
    }
    if winX < screenMargin {
      winX := screenMargin;
    }
    if winY < screenMargin {
      winY := screenMargin;
    }
  }

  /** The main window of the one-file mode, 500 x 530 with margin 100, near the bottom of a 1920 x 1080 screen. */
  method PlacementExample() returns (x: int, y: int)
    ensures x == 1012 && y == 450
  {
    x, y := PlaceWindowNearCursor(1000, 2000, 1920, 1080, 500, 530, screenMargin := 100);
  }
}
