/** Geometry of the playing field: a 640 x 480 pixel screen cut into 20-pixel
    cells, the four movement directions, and the wrap-around step of the head.
    Cells are addressed by the pixel coordinates of their top-left corner. */
module Grid {

  const SCREEN_WIDTH: int := 640
  const SCREEN_HEIGHT: int := 480
  const GRID_SIZE: int := 20
  const GRID_WIDTH: int := SCREEN_WIDTH / GRID_SIZE
  const GRID_HEIGHT: int := SCREEN_HEIGHT / GRID_SIZE

  /** A position (x, y) in pixels. */
  type Cell = (int, int)

  /** The centre of the screen, where every snake starts. */
  const CENTER: Cell := (SCREEN_WIDTH / 2, SCREEN_HEIGHT / 2)

  /** A cell on the screen whose corner lies on the 20-pixel lattice. */
  predicate OnGrid(c: Cell) {
    0 <= c.0 < SCREEN_WIDTH && 0 <= c.1 < SCREEN_HEIGHT &&
    c.0 % GRID_SIZE == 0 && c.1 % GRID_SIZE == 0
  }

  /** The cell in column `col` and row `row` of the grid. */
  function CellAt(col: int, row: int): (c: Cell)
    requires 0 <= col < GRID_WIDTH && 0 <= row < GRID_HEIGHT
    ensures OnGrid(c) && c.0 / GRID_SIZE == col && c.1 / GRID_SIZE == row
  {
    (col * GRID_SIZE, row * GRID_SIZE)
  }

  /** Every cell on the grid is the cell of its own column and row. */
  lemma CellAtIndices(c: Cell)
    requires OnGrid(c)
    ensures 0 <= c.0 / GRID_SIZE < GRID_WIDTH && 0 <= c.1 / GRID_SIZE < GRID_HEIGHT
    ensures CellAt(c.0 / GRID_SIZE, c.1 / GRID_SIZE) == c
  {
  }

  datatype Direction = Up | Down | Left | Right

  /** The unit vector of a direction; y grows downwards on the screen. */
  function Delta(d: Direction): (r: (int, int))
    ensures -1 <= r.0 <= 1 && -1 <= r.1 <= 1 && (r.0 == 0 <==> r.1 != 0)
  {
    match d
    case Up => (0, -1)
    case Down => (0, 1)
    case Left => (-1, 0)
    case Right => (1, 0)
  }

  function Opposite(d: Direction): (o: Direction)
    ensures Delta(o) == (-Delta(d).0, -Delta(d).1)
    ensures o != d
  {
    match d
    case Up => Down
    case Down => Up
    case Left => Right
    case Right => Left
  }

  /** The head's next position: one cell in direction `d`, each axis taken
      modulo the screen size, so that leaving one edge enters at the other. */
  function NextHead(head: Cell, d: Direction): (h: Cell)
    ensures 0 <= h.0 < SCREEN_WIDTH && 0 <= h.1 < SCREEN_HEIGHT
  {
    ((head.0 + Delta(d).0 * GRID_SIZE) % SCREEN_WIDTH,
     (head.1 + Delta(d).1 * GRID_SIZE) % SCREEN_HEIGHT)
  }

  /** One step along an axis of `cells` cells, in pixels and taken modulo the
      screen size, is one step in cell units taken modulo the number of cells. */
  lemma AxisStep(x: int, dx: int, cells: int)
    requires cells == GRID_WIDTH || cells == GRID_HEIGHT
    requires 0 <= x < cells * GRID_SIZE && x % GRID_SIZE == 0 && -1 <= dx <= 1
    ensures 0 <= (x / GRID_SIZE + dx) % cells < cells
    ensures (x + dx * GRID_SIZE) % (cells * GRID_SIZE) == ((x / GRID_SIZE + dx) % cells) * GRID_SIZE
  {
    var i := x / GRID_SIZE;
    assert x == i * GRID_SIZE;
    if i + dx == -1 {
      assert x + dx * GRID_SIZE == -GRID_SIZE;
      assert (i + dx) % cells == cells - 1;
    } else if i + dx == cells {
      assert x + dx * GRID_SIZE == cells * GRID_SIZE;
      assert (i + dx) % cells == 0;
    } else {
      assert x + dx * GRID_SIZE == (i + dx) * GRID_SIZE;
      assert (i + dx) % cells == i + dx;
    }
  }

  /** The wrap-around in pixels is exact because the screen is a whole number
      of cells: the next head is the neighbouring cell on a 32 x 24 torus. */
  lemma NextHeadOnTorus(c: Cell, d: Direction)
    requires OnGrid(c)
    ensures OnGrid(NextHead(c, d))
    ensures NextHead(c, d) ==
            CellAt((c.0 / GRID_SIZE + Delta(d).0) % GRID_WIDTH,
                   (c.1 / GRID_SIZE + Delta(d).1) % GRID_HEIGHT)
  {
    AxisStep(c.0, Delta(d).0, GRID_WIDTH);
    AxisStep(c.1, Delta(d).1, GRID_HEIGHT);
  }

  /** Stepping back along an axis undoes a step, in cell units. */
  lemma AxisBack(i: int, dx: int, cells: int)
    requires cells == GRID_WIDTH || cells == GRID_HEIGHT
    requires 0 <= i < cells && -1 <= dx <= 1
    ensures ((i + dx) % cells - dx) % cells == i
  {
    // The screen is 32 x 24 cells; with the divisor known the solver settles
    // each case of the modulus.
    assert GRID_WIDTH == SCREEN_WIDTH / GRID_SIZE == 32;
    assert GRID_HEIGHT == SCREEN_HEIGHT / GRID_SIZE == 24;
  }

  /** A step followed by a step the opposite way returns to the start cell. */
  lemma StepBack(c: Cell, d: Direction)
    requires OnGrid(c)
    ensures NextHead(NextHead(c, d), Opposite(d)) == c
  {
    var col, row := c.0 / GRID_SIZE, c.1 / GRID_SIZE;
    var dx, dy := Delta(d).0, Delta(d).1;
    NextHeadOnTorus(c, d);
    var n := NextHead(c, d);
    NextHeadOnTorus(n, Opposite(d));
    var col', row' := (col + dx) % GRID_WIDTH, (row + dy) % GRID_HEIGHT;
    assert n.0 / GRID_SIZE == col' && n.1 / GRID_SIZE == row';
    AxisBack(col, dx, GRID_WIDTH);
    AxisBack(row, dy, GRID_HEIGHT);
    CellAtIndices(c);
  }

  /** The four edges: leaving the screen on one side enters it on the other. */
  lemma WrapEdges(x: int, y: int)
    requires 0 <= x < SCREEN_WIDTH && 0 <= y < SCREEN_HEIGHT
    ensures NextHead((SCREEN_WIDTH - GRID_SIZE, y), Right) == (0, y)
    ensures NextHead((0, y), Left) == (SCREEN_WIDTH - GRID_SIZE, y)
    ensures NextHead((x, 0), Up) == (x, SCREEN_HEIGHT - GRID_SIZE)
    ensures NextHead((x, SCREEN_HEIGHT - GRID_SIZE), Down) == (x, 0)
  {
  }
}
