/** The window layout the renderer uses: how large a cell is drawn and how
    far the grid is shifted so that it sits in the middle of the window.
    Both are recomputed whenever the window is resized. */
module Layout {

  function Min(a: int, b: int): int {
    if a <= b then a else b
  }

  /** Cell size and the offsets of the grid's top-left corner. */
  datatype Placement = Placement(cellSize: int, offsetX: int, offsetY: int)

  /** The resize arithmetic for a window of w by h pixels and an n-by-n
      grid. Python's floor division by a positive number agrees with
      Dafny's division, so the formulas carry over for any integers.
      For a window of non-negative size the grid fits, each cell is as large
      as fits, and the grid is centred: the margins on the two sides of
      each axis differ by at most one pixel. */
  function ComputePlacement(w: int, h: int, n: int): (p: Placement)
    requires n > 0
    ensures w >= 0 && h >= 0 ==> 0 <= p.cellSize
    ensures n * p.cellSize <= Min(w, h) < n * (p.cellSize + 1)
    ensures w >= 0 && h >= 0 ==> 0 <= p.offsetX && 0 <= p.offsetY
    ensures 2 * p.offsetX + n * p.cellSize <= w
    ensures 2 * p.offsetY + n * p.cellSize <= h
    ensures w - (2 * p.offsetX + n * p.cellSize) <= 1
    ensures h - (2 * p.offsetY + n * p.cellSize) <= 1
  {
    var cell := Min(w, h) / n;
    Placement(cell, (w - n * cell) / 2, (h - n * cell) / 2)
  }

  /** The layout part of the renderer's state. Colours, the frame rate and
      the drawing surface are left out. */
  class GraphicState {
    var cellSize: int
    var windowW: int
    var windowH: int
    var offsetX: int
    var offsetY: int

    function Placed(): Placement
      reads this
    {
      Placement(cellSize, offsetX, offsetY)
    }

    /** The defaults: 30-pixel cells in a 600 by 600 window, no offset. */
    constructor ()
      ensures cellSize == 30 && windowW == 600 && windowH == 600
      ensures offsetX == 0 && offsetY == 0
    {
      cellSize, windowW, windowH := 30, 600, 600;
      offsetX, offsetY := 0, 0;
    }

    /** A resize event: store the new window size and recompute the layout. */
    method Resize(w: int, h: int, n: int)
      requires n > 0
      modifies this
      ensures windowW == w && windowH == h
      ensures Placed() == ComputePlacement(w, h, n)
    {
      windowH := h;
      windowW := w;
      cellSize := Min(windowW, windowH) / n;
      offsetX := (windowW - n * cellSize) / 2;
      offsetY := (windowH - n * cellSize) / 2;
    }
  }
}
