/**
  A model of maze.py, a conceptual grid-based maze: cells with four walls and
  four optional neighbours, a square grid built row by row, and the row-major
  lookup `get_cell`.

  Cells are values here, not objects. Python's `make_grid` creates a distinct
  `Cell` object in every loop iteration; the model recovers that identity by
  recording, for every grid position, the loop iteration `(row, col)` that
  appended it (see `MakeGrid`'s ghost `birth` result).
 */
module Mazes {

  /** An optional value; stands for Python's `Optional[...]`. */
  datatype Option<T> = None | Some(value: T)

  /** A cell of the maze. A neighbour is `None` when there is no adjacent cell
      or a wall separates the two; a wall flag is true while the wall stands.
      The defaults are the ones a bare `Cell()` gets. */
  datatype Cell = Cell(
    northNeighbor: Option<Cell> := None,
    eastNeighbor: Option<Cell> := None,
    southNeighbor: Option<Cell> := None,
    westNeighbor: Option<Cell> := None,
    northWall: bool := true,
    eastWall: bool := true,
    southWall: bool := true,
    westWall: bool := true
  )

  /** The maze: a flat list of cells and the grid's dimensions in cells. */
  datatype Maze = Maze(grid: seq<Cell>, width: int, height: int)

  /** A two-dimensional grid position. */
  datatype Coord = Coord(row: int, col: int)

  /** All four walls stand. */
  predicate FullyWalled(c: Cell) {
    c.northWall && c.eastWall && c.southWall && c.westWall
  }

  /** No neighbour is linked. */
  predicate Unwired(c: Cell) {
    c.northNeighbor.None? && c.eastNeighbor.None? && c.southNeighbor.None? && c.westNeighbor.None?
  }

  /** The flat list holds exactly one cell per grid position. */
  predicate WellFormed(m: Maze) {
    |m.grid| == m.width * m.height
  }

  /** Row-major flat index of `(row, col)` in a grid `width` cells wide. */
  function Index(width: int, row: int, col: int): int {
    row * width + col
  }

  /** The position a flat index stands for: the inverse of `Index`. */
  function Position(width: int, i: int): Coord
    requires width > 0
  {
    Coord(i / width, i % width)
  }

  /** Number of rounds of `for _ in range(size)`: none at all when `size` is
      zero or negative. */
  function Span(size: int): nat {
    if size <= 0 then 0 else size
  }

  /** Number of cells `make_grid(size)` appends. */
  function CellCount(size: int): nat {
    Span(size) * Span(size)
  }

  /** `Maze.get_cell`: the cell at `(row, col)`, found by row-major arithmetic
      alone, with no check that `col` is inside the row. */
  function GetCell(m: Maze, row: int, col: int): (c: Cell)
    requires 0 <= Index(m.width, row, col) < |m.grid|
    ensures c in m.grid
  {
    m.grid[Index(m.width, row, col)]
  }

  /** The iterations `(row, col)` of the inner loop of `make_grid` for one
      row, in the order they run. */
  function RowOrder(row: int, size: int): seq<Coord> {
    seq(Span(size), col => Coord(row, col))
  }

  /** The iterations of the first `rows` rounds of the outer loop of
      `make_grid`, in the order they run. */
  function LoopOrder(size: int, rows: nat): seq<Coord> {
    if rows == 0 then [] else LoopOrder(size, rows - 1) + RowOrder(rows - 1, size)
  }

  /** Every iteration of `make_grid(size)`, in the order they run; one cell
      is appended per iteration. */
  function IterationOrder(size: int): seq<Coord> {
    LoopOrder(size, Span(size))
  }

  /** `make_grid`: a `size` x `size` maze whose cells are appended by two
      nested loops; the neighbour wiring is not performed. `birth[i]` is the
      loop iteration that appended `grid[i]`: the loop body appends to both
      together. */
  method MakeGrid(size: int) returns (m: Maze, ghost birth: seq<Coord>)
    ensures m.width == size && m.height == size
    ensures |m.grid| == CellCount(size)
    ensures WellFormed(m) <==> size >= 0
    ensures forall i | 0 <= i < |m.grid| :: FullyWalled(m.grid[i]) && Unwired(m.grid[i])
    ensures birth == IterationOrder(size) && |birth| == |m.grid|
    ensures forall r, c | 0 <= r < size && 0 <= c < size ::
              0 <= Index(size, r, c) < |birth| && birth[Index(size, r, c)] == Coord(r, c)
  {
    var grid: seq<Cell> := [];
    birth := [];
    var row: nat := 0;
    while row < size
      invariant row <= Span(size)
      invariant birth == LoopOrder(size, row) && |grid| == |birth|
      invariant forall i | 0 <= i < |grid| :: FullyWalled(grid[i]) && Unwired(grid[i])
    {
      var col := 0;
      while col < size
        invariant 0 <= col <= size
        invariant birth == LoopOrder(size, row) + RowOrder(row, size)[..col] && |grid| == |birth|
        invariant forall i | 0 <= i < |grid| :: FullyWalled(grid[i]) && Unwired(grid[i])
      {
        var cell := Cell();
        grid := grid + [cell];
        assert RowOrder(row, size)[..col + 1] == RowOrder(row, size)[..col] + [Coord(row, col)];
        birth := birth + [Coord(row, col)];
        col := col + 1;
      }
      assert RowOrder(row, size)[..col] == RowOrder(row, size);
      row := row + 1;
    }
    m := Maze(grid, size, size);
    LoopOrderLength(size, Span(size));
    if size < 0 {
      assert size * size > 0;
    }
    forall r, c | 0 <= r < size && 0 <= c < size
      ensures 0 <= Index(size, r, c) < |birth| && birth[Index(size, r, c)] == Coord(r, c)
    {
      LoopOrderAt(size, size, r, c);
    }
  }

  /** After `rows` rounds of the outer loop the grid holds `rows` full rows. */
  lemma {:induction false} LoopOrderLength(size: int, rows: nat)
    ensures |LoopOrder(size, rows)| == rows * Span(size)
  {
    if rows > 0 {
      LoopOrderLength(size, rows - 1);
    }
  }

  /** The iteration `(r, c)` of any of the first `rows` rounds appends its
      cell at the row-major index `r*size + c`. */
  lemma {:induction false} LoopOrderAt(size: int, rows: nat, r: int, c: int)
    requires 0 <= r < rows && 0 <= c < size
    ensures 0 <= Index(size, r, c) < |LoopOrder(size, rows)|
    ensures LoopOrder(size, rows)[Index(size, r, c)] == Coord(r, c)
  {
    LoopOrderLength(size, rows - 1);
    if r < rows - 1 {
      LoopOrderAt(size, rows - 1, r, c);
    }
  }

  /** Conversely, the slot at flat index `i` was filled by iteration
      `(i div size, i mod size)`. */
  lemma {:induction false} LoopOrderPosition(size: int, rows: nat, i: int)
    requires 0 <= i < |LoopOrder(size, rows)|
    ensures size > 0 && LoopOrder(size, rows)[i] == Position(size, i)
  {
    LoopOrderLength(size, rows);
    PositionInBounds(size, rows, i);
    LoopOrderAt(size, rows, Position(size, i).row, Position(size, i).col);
  }

  /** Euclidean division has unique quotient and remainder. */
  lemma DivModUnique(a: int, w: int, q: int, r: int)
    requires 0 <= r < w && a == q * w + r
    ensures a / w == q && a % w == r
  {
    var k := q - a / w;
    assert k * w == a % w - r;
    assert -w < k * w < w;
  }

  /** An in-bounds coordinate addresses a slot of a well-formed grid. */
  lemma IndexInRange(width: int, height: int, row: int, col: int)
    requires 0 <= row < height && 0 <= col < width
    ensures 0 <= Index(width, row, col) < width * height
  {
    assert (height - 1 - row) * width >= 0;
    assert row * width <= (height - 1) * width;
  }

  /** `Position` undoes `Index` whenever the column lies inside the row,
      whatever the row. */
  lemma PositionOfIndex(width: int, row: int, col: int)
    requires 0 <= col < width
    ensures Position(width, Index(width, row, col)) == Coord(row, col)
  {
    DivModUnique(Index(width, row, col), width, row, col);
  }

  /** `Index` undoes `Position`: every flat index is the row-major index of
      exactly one column inside the row. */
  lemma IndexOfPosition(width: int, i: int)
    requires width > 0
    ensures 0 <= Position(width, i).col < width
    ensures Index(width, Position(width, i).row, Position(width, i).col) == i
  {
  }

  /** Every slot of a well-formed grid is the row-major index of an in-bounds
      coordinate, so in-bounds coordinates and slots are in one-to-one
      correspondence (with `IndexInRange` and `IndexInjective`). */
  lemma PositionInBounds(width: int, height: int, i: int)
    requires 0 <= i < width * height
    requires width > 0
    ensures 0 <= Position(width, i).row < height && 0 <= Position(width, i).col < width
    ensures Index(width, Position(width, i).row, Position(width, i).col) == i
  {
    var q := i / width;
    if q >= height {
      assert q * width >= height * width;
    }
  }

  /** Row-major addressing is injective on columns inside the row. */
  lemma IndexInjective(width: int, row1: int, col1: int, row2: int, col2: int)
    requires 0 <= col1 < width && 0 <= col2 < width
    ensures Index(width, row1, col1) == Index(width, row2, col2) <==> row1 == row2 && col1 == col2
  {
    if Index(width, row1, col1) == Index(width, row2, col2) {
      PositionOfIndex(width, row1, col1);
      PositionOfIndex(width, row2, col2);
    }
  }

  /** `get_cell` does not check the column: one step past the end of a row
      is the first cell of the next row. */
  lemma ColumnOverflowAliases(m: Maze, row: int)
    requires WellFormed(m) && 0 <= row + 1 < m.height
    requires m.width > 0
    ensures 0 <= Index(m.width, row, m.width) < |m.grid|
    ensures GetCell(m, row, m.width) == GetCell(m, row + 1, 0)
  {
    IndexInRange(m.width, m.height, row + 1, 0);
    assert Index(m.width, row, m.width) == Index(m.width, row + 1, 0);
  }

  /** More generally, any column, even outside the row, reads the cell of the
      in-row column `col mod width` in row `row + col div width`. */
  lemma GetCellAliases(m: Maze, row: int, col: int)
    requires m.width > 0 && 0 <= Index(m.width, row, col) < |m.grid|
    ensures 0 <= col % m.width < m.width
    ensures Index(m.width, row + col / m.width, col % m.width) == Index(m.width, row, col)
    ensures GetCell(m, row, col) == GetCell(m, row + col / m.width, col % m.width)
  {
    assert (row + col / m.width) * m.width == row * m.width + (col / m.width) * m.width;
  }
}
