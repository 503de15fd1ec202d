/** Grid-to-pixel placement of the sprites and its inverse, the pixel-to-cell
    computation of the mouse handlers. Pixels are exact reals; Python's
    `int()` on a float truncates toward zero. */
module Geometry {

  datatype Option<T> = None | Some(value: T)

  /** Python's `int(r)` for a float: truncation toward zero. */
  function Trunc(r: real): int
  {
    if r >= 0.0 then r.Floor else -((-r).Floor)
  }

  /** The geometry one canvas uses for its grid of sprites:
      - (dx, dy): the translation between raw canvas pixels and the drawing
        origin (`canvas.translate`, or the +50 the overlays add),
      - offsetX: how far right of that origin the sprite grid starts,
      - canvasX x canvasY: the pixel extent of the sprite grid,
      - sizeX x sizeY: its number of columns and rows. */
  datatype Frame = Frame(dx: int, dy: int, offsetX: int, canvasX: int, canvasY: int, sizeX: int, sizeY: int) {
    predicate Valid() {
      canvasX > 0 && canvasY > 0 && sizeX > 0 && sizeY > 0
    }

    /** Width and height of one cell in pixels. */
    function CellWidth(): real
      requires Valid()
    {
      canvasX as real / sizeX as real
    }

    function CellHeight(): real
      requires Valid()
    {
      canvasY as real / sizeY as real
    }
  }
  /** The sprite notebook: `translate(100, 100)`, sprites from x = 200 on an
      800 x 800 area of 30 x 30 cells; the handler undoes exactly that. */
  const SrcFrame := Frame(100, 100, 200, 800, 800, 30, 30)


  /** The placement formula: `pos_x = offsetX + canvas_size_x*x/size_x`. */
  function SpriteX(f: Frame, x: int): real
    requires f.Valid()
  {
    f.offsetX as real + f.canvasX as real * x as real / f.sizeX as real
  }

  /** `pos_y = canvas_size_y*y/size_y`. */
  function SpriteY(f: Frame, y: int): real
    requires f.Valid()
  {
    f.canvasY as real * y as real / f.sizeY as real
  }

  /** The raw canvas pixel at which the sprite of column x starts. */
  function ScreenX(f: Frame, x: int): real
    requires f.Valid()
  {
    f.dx as real + SpriteX(f, x)
  }

  function ScreenY(f: Frame, y: int): real
    requires f.Valid()
  {
    f.dy as real + SpriteY(f, y)
  }

  /** `int(size*u/canvas)`: the index of the cell a pixel distance u from
      the grid's edge falls in. */
  function CellIndex(size: int, canvas: int, u: real): int
    requires canvas > 0
  {
    Trunc(size as real * u / canvas as real)
  }

  /** The column the handler computes: `int(size_x*(x-offset)/canvas_size_x)`
      after `x = x - dx`. */
  function Column(f: Frame, px: real): int
    requires f.Valid()
  {
    CellIndex(f.sizeX, f.canvasX, px - f.dx as real - f.offsetX as real)
  }

  /** The row the handler computes: `int(size_y*y/canvas_size_y)` after
      `y = y - dy`. */
  function Row(f: Frame, py: real): int
    requires f.Valid()
  {
    CellIndex(f.sizeY, f.canvasY, py - f.dy as real)
  }

  /** `handle_mouse_down`'s hit test: a computed cell outside the grid is
      discarded (the handler returns without annotating). */
  function Locate(f: Frame, px: real, py: real): (cell: Option<(int, int)>)
    requires f.Valid()
    ensures cell.Some? ==> 0 <= cell.value.0 < f.sizeX && 0 <= cell.value.1 < f.sizeY
    ensures cell.Some? <==> 0 <= Column(f, px) < f.sizeX && 0 <= Row(f, py) < f.sizeY
  {
    var coordX := Column(f, px);
    var coordY := Row(f, py);
    if coordX > f.sizeX - 1 || coordY > f.sizeY - 1 || coordX < 0 || coordY < 0 then None
    else Some((coordX, coordY))
  }

  lemma MulStrict(a: real, b: real, w: real)
    requires a < b && w > 0.0
    ensures a * w < b * w
  {
  }

  lemma MulMono(a: real, b: real, w: real)
    requires a <= b && w > 0.0
    ensures a * w <= b * w
  {
  }

  lemma DivAssoc(c: real, x: real, s: real)
    requires s > 0.0
    ensures c * x / s == (c / s) * x
  {
  }

  lemma DivBack(u: real, w: real)
    requires w > 0.0
    ensures (u / w) * w == u
  {
  }

  lemma SwapDiv(s: real, u: real, c: real)
    requires s > 0.0 && c > 0.0
    ensures s * u / c == u / (c / s)
  {
  }

  /** Scaling a pixel distance u that lies inside the k-th cell back to
      cells gives a number in [k, k+1). */
  lemma ScaleBack(canvas: real, size: real, u: real, k: int)
    requires canvas > 0.0 && size > 0.0
    requires canvas * k as real / size <= u < canvas * (k + 1) as real / size
    ensures k as real <= size * u / canvas < k as real + 1.0
  {
    var w := canvas / size;
    DivAssoc(canvas, k as real, size);
    DivAssoc(canvas, (k + 1) as real, size);
    SwapDiv(size, u, canvas);
    var v := u / w;
    DivBack(u, w);
    if v < k as real {
      MulStrict(v, k as real, w);
    }
    if v >= k as real + 1.0 {
      MulMono(k as real + 1.0, v, w);
    }
  }

  lemma TruncInRange(r: real, k: int)
    requires 0 <= k && k as real <= r < k as real + 1.0
    ensures Trunc(r) == k
  {
  }

  /** The handler's truncation of a distance inside the k-th cell is k. */
  lemma TruncScaleBack(canvas: real, size: real, u: real, k: nat)
    requires canvas > 0.0 && size > 0.0
    requires canvas * k as real / size <= u < canvas * (k + 1) as real / size
    ensures Trunc(size * u / canvas) == k
  {
    ScaleBack(canvas, size, u, k);
    TruncInRange(size * u / canvas, k);
  }

  lemma CellIndexIsTrunc(size: int, canvas: int, u: real)
    requires canvas > 0
    ensures CellIndex(size, canvas, u) == Trunc(size as real * u / canvas as real)
  {
  }

  /** A pixel distance inside the k-th cell has cell index k. */
  lemma CellIndexInside(size: int, canvas: int, u: real, k: nat)
    requires canvas > 0 && size > 0
    requires canvas as real * k as real / size as real <= u < canvas as real * (k + 1) as real / size as real
    ensures CellIndex(size, canvas, u) == k
  {
    TruncScaleBack(canvas as real, size as real, u, k);
    CellIndexIsTrunc(size, canvas, u);
  }

  /** A click inside column x's strip of pixels computes column x. */
  lemma ColumnInsideCell(f: Frame, px: real, x: nat)
    requires f.Valid()
    requires ScreenX(f, x) <= px < ScreenX(f, x + 1)
    ensures Column(f, px) == x
  {
    CellIndexInside(f.sizeX, f.canvasX, px - f.dx as real - f.offsetX as real, x);
  }

  lemma RowInsideCell(f: Frame, py: real, y: nat)
    requires f.Valid()
    requires ScreenY(f, y) <= py < ScreenY(f, y + 1)
    ensures Row(f, py) == y
  {
    CellIndexInside(f.sizeY, f.canvasY, py - f.dy as real, y);
  }

  /** Every click inside the square of cell (x, y) selects (x, y). */
  lemma LocateInsideCell(f: Frame, px: real, py: real, x: int, y: int)
    requires f.Valid() && 0 <= x < f.sizeX && 0 <= y < f.sizeY
    requires ScreenX(f, x) <= px < ScreenX(f, x + 1)
    requires ScreenY(f, y) <= py < ScreenY(f, y + 1)
    ensures Locate(f, px, py) == Some((x, y))
  {
    ColumnInsideCell(f, px, x);
    RowInsideCell(f, py, y);
  }

  lemma CellIsNonEmpty(f: Frame, x: int)
    requires f.Valid()
    ensures ScreenX(f, x) < ScreenX(f, x + 1)
    ensures ScreenY(f, x) < ScreenY(f, x + 1)
  {
    DivAssoc(f.canvasX as real, x as real, f.sizeX as real);
    DivAssoc(f.canvasX as real, (x + 1) as real, f.sizeX as real);
    DivAssoc(f.canvasY as real, x as real, f.sizeY as real);
    DivAssoc(f.canvasY as real, (x + 1) as real, f.sizeY as real);
  }

  /** Round trip: a click exactly at the placement of (x, y), shifted by the
      canvas translation, maps back to (x, y). */
  lemma LocateInvertsPlacement(f: Frame, x: int, y: int)
    requires f.Valid() && 0 <= x < f.sizeX && 0 <= y < f.sizeY
    ensures Locate(f, ScreenX(f, x), ScreenY(f, y)) == Some((x, y))
  {
    CellIsNonEmpty(f, x);
    CellIsNonEmpty(f, y);
    LocateInsideCell(f, ScreenX(f, x), ScreenY(f, y), x, y);
  }

  /** Comparing a scaled distance with k is comparing the distance with k
      cells' worth of pixels. */
  lemma ScaleCompare(canvas: real, size: real, u: real, k: real)
    requires canvas > 0.0 && size > 0.0
    ensures size * u / canvas < k <==> u < canvas * k / size
    ensures size * u / canvas <= k <==> u <= canvas * k / size
  {
    var w := canvas / size;
    DivAssoc(canvas, k, size);
    SwapDiv(size, u, canvas);
    DivBack(u, w);
    var v := u / w;
    if v < k { MulStrict(v, k, w); }
    if v == k { }
    if k < v { MulStrict(k, v, w); }
  }

  lemma TruncOfOpenUnit(r: real)
    requires -1.0 < r < 1.0
    ensures Trunc(r) == 0
  {
  }

  lemma TruncBelow(r: real)
    requires r <= -1.0
    ensures Trunc(r) < 0
  {
  }

  lemma TruncAbove(r: real, n: int)
    requires 0 <= n && n as real <= r
    ensures Trunc(r) >= n
  {
  }

  lemma TruncLeftStrip(canvas: real, size: real, u: real)
    requires canvas > 0.0 && size > 0.0
    requires -(canvas / size) < u < 0.0
    ensures Trunc(size * u / canvas) == 0
  {
    ScaleCompare(canvas, size, u, -1.0);
    ScaleCompare(canvas, size, u, 0.0);
    assert canvas * -1.0 / size == -(canvas / size);
    assert canvas * 0.0 / size == 0.0;
    TruncOfOpenUnit(size * u / canvas);
  }

  /** Less than one cell before the edge, truncation still gives cell 0. */
  lemma CellIndexLeftStrip(size: int, canvas: int, u: real)
    requires canvas > 0 && size > 0
    requires -(canvas as real / size as real) < u < 0.0
    ensures CellIndex(size, canvas, u) == 0
  {
    TruncLeftStrip(canvas as real, size as real, u);
    CellIndexIsTrunc(size, canvas, u);
  }

  lemma TruncOutside(canvas: real, size: real, u: real, n: int)
    requires canvas > 0.0 && size > 0.0 && n as real == size
    requires u <= -(canvas / size) || canvas <= u
    ensures Trunc(size * u / canvas) < 0 || Trunc(size * u / canvas) >= n
  {
    ScaleCompare(canvas, size, u, -1.0);
    ScaleCompare(canvas, size, u, size);
    assert canvas * -1.0 / size == -(canvas / size);
    assert canvas * size / size == canvas;
    if u < 0.0 {
      TruncBelow(size * u / canvas);
    } else {
      TruncAbove(size * u / canvas, n);
    }
  }

  /** One cell or more before the edge, or past the far edge, the index is
      outside [0, size). */
  lemma CellIndexOutside(size: int, canvas: int, u: real)
    requires canvas > 0 && size > 0
    requires u <= -(canvas as real / size as real) || canvas as real <= u
    ensures CellIndex(size, canvas, u) < 0 || CellIndex(size, canvas, u) >= size
  {
    TruncOutside(canvas as real, size as real, u, size);
    CellIndexIsTrunc(size, canvas, u);
  }

  /** Because `int()` truncates toward zero, a click less than one cell to
      the left of the grid is accepted as column 0. */
  lemma LocateAcceptsStripLeftOfGrid(f: Frame, px: real, py: real, y: nat)
    requires f.Valid() && y < f.sizeY
    requires ScreenX(f, 0) - f.CellWidth() < px < ScreenX(f, 0)
    requires ScreenY(f, y) <= py < ScreenY(f, y + 1)
    ensures Locate(f, px, py) == Some((0, y as int))
  {
    CellIndexLeftStrip(f.sizeX, f.canvasX, px - f.dx as real - f.offsetX as real);
    RowInsideCell(f, py, y);
  }

  /** A click one cell or more to the left of the grid, or anywhere right of
      its last column, is discarded. */
  lemma LocateDiscardsOutsideColumns(f: Frame, px: real, py: real)
    requires f.Valid()
    requires px <= ScreenX(f, 0) - f.CellWidth() || ScreenX(f, f.sizeX) <= px
    ensures Locate(f, px, py) == None
  {
    assert f.canvasX as real * f.sizeX as real / f.sizeX as real == f.canvasX as real;
    CellIndexOutside(f.sizeX, f.canvasX, px - f.dx as real - f.offsetX as real);
  }

  /** Likewise, a click less than one cell above the grid is accepted as
      row 0. */
  lemma LocateAcceptsStripAboveGrid(f: Frame, px: real, py: real, x: nat)
    requires f.Valid() && x < f.sizeX
    requires ScreenX(f, x) <= px < ScreenX(f, x + 1)
    requires ScreenY(f, 0) - f.CellHeight() < py < ScreenY(f, 0)
    ensures Locate(f, px, py) == Some((x as int, 0))
  {
    CellIndexLeftStrip(f.sizeY, f.canvasY, py - f.dy as real);
    ColumnInsideCell(f, px, x);
  }

  /** A click one cell or more above the grid, or anywhere below its last
      row, is discarded. */
  lemma LocateDiscardsOutsideRows(f: Frame, px: real, py: real)
    requires f.Valid()
    requires py <= ScreenY(f, 0) - f.CellHeight() || ScreenY(f, f.sizeY) <= py
    ensures Locate(f, px, py) == None
  {
    assert f.canvasY as real * f.sizeY as real / f.sizeY as real == f.canvasY as real;
    CellIndexOutside(f.sizeY, f.canvasY, py - f.dy as real);
  }
}
