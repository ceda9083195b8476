# Maze grid construction and addressing

This project models `maze.py`, a conceptual grid-based maze, in Dafny. The
file defines three things:

- a `Cell` with four optional neighbours and four wall flags, which default
  to "no neighbour" and "wall present";
- a `Maze` holding a flat list of cells, a width and a height, with
  `get_cell(row, col)` reading the cell at flat index `row*width + col`;
- `make_grid(size)`, which appends `size*size` fresh cells in row-major order
  with two nested loops and returns a `size` x `size` maze. The code that would
  link neighbouring cells is commented out, so every cell stays fully walled and
  unlinked.

All of it lives in module `Mazes` (`maze.dfy`). Cells are immutable values,
and a neighbour is an `Option<Cell>` that is always `None` here. In Python each
loop iteration creates a distinct cell object. The model records that identity
in `MakeGrid`'s ghost result `birth`, which `make_grid` itself does not return:
`birth[i]` is the loop iteration `(row, col)` that appended `grid[i]`. That link
holds by construction: the loop body appends to `grid` and to `birth` together.
The contract states only that the two have the same length and that `birth`
follows the loop order.

Two reference definitions specify the operations:

- `IterationOrder(size)` is an independent, recursive definition of the order
  in which the nested loops run (`LoopOrder` rounds of the outer loop, each a
  `RowOrder` of the inner loop). `MakeGrid` is proved to append in exactly that
  order.
- `Index` is the row-major arithmetic of `get_cell`. `Position` (division and
  remainder by the width) is its inverse, and the two are proved to round-trip.

Quirks that follow the code:

- For a negative `size`, `range(size)` is empty, so the grid is empty while
  `width == height == size`. The shape invariant `|grid| == width*height`
  therefore holds exactly when `size >= 0`.
- `make_grid` does not reject `size <= 0`.
- `get_cell` checks no bounds at all: neither the row nor the column is
  compared with the grid's dimensions. A column past the end of a row reads a
  cell of a later row.

## Model

| member | source | states |
|---|---|---|
| `Mazes.MakeGrid` | maze.py:52-78 | The result has `width == height == size`. The grid has `size*size` cells, or none when `size <= 0`. It is well formed (`|grid| == width*height`) exactly when `size >= 0`. Every cell has all four walls up and all four neighbours `None`. Cells are appended in the order `IterationOrder(size)` of the two loops. For in-bounds `(row, col)`, the slot `row*size + col` that `get_cell(row, col)` reads exists and holds the cell appended in iteration `(row, col)`. |
| `Mazes.LoopOrderLength` | maze.py:62-66 | After `rows` rounds of the outer loop, `rows` full rows of `len(range(size))` cells each have been appended. |
| `Mazes.LoopOrderAt` | maze.py:62-66 | Every iteration `(row, col)` of a completed round has appended its cell at index `row*size + col`, and that index lies inside the list built so far. |
| `Mazes.LoopOrderPosition` | maze.py:62-66 | Conversely, the slot at index `i` of the list was filled by iteration `(i div size, i mod size)`. |
| `Mazes.GetCell` | maze.py:25-32 | The lookup returns one of the maze's own cells. It is defined whenever the row-major index falls inside the list, with no bounds check on the row or the column. |
| `Mazes.IndexInRange` | maze.py:32 | For `0 <= row < height` and `0 <= col < width`, the index `row*width + col` lies in `[0, width*height)`. |
| `Mazes.PositionOfIndex` | maze.py:32 | For a column inside the row, the division/remainder inverse recovers `(row, col)` from `row*width + col`. |
| `Mazes.IndexOfPosition` | maze.py:32 | Every flat index `i` equals `row*width + col` for `(row, col) = (i div width, i mod width)`, and that column lies inside the row. |
| `Mazes.PositionInBounds` | maze.py:32 | Every slot of a `width*height` list is `row*width + col` for an in-bounds `(row, col)`. With `IndexInjective`, that coordinate is unique. |
| `Mazes.IndexInjective` | maze.py:32 | Two coordinates whose columns are inside the row have the same index if and only if they are equal. |
| `Mazes.ColumnOverflowAliases` | maze.py:32 | In a well-formed maze with `0 <= row+1 < height`, `get_cell(row, width)` is the same cell as `get_cell(row+1, 0)`. |
| `Mazes.GetCellAliases` | maze.py:25-32 | Any column, even one outside the row, reads the cell at in-row column `col mod width` of row `row + col div width`. |

## Left out

- Maze carving and generation: the file contains none, and its `random` import is unused.
- Neighbour wiring between cells: that code is commented out, so neighbours are always `None`. Cyclic object references are not modelled.
- Python list semantics outside `[0, len(grid))`: negative-index wraparound and `IndexError`. `GetCell` requires the computed index to lie inside the list instead.
- Mutation through aliasing: Python builds `Maze(grid, size, size)` before the loops and fills the shared list afterwards. The model builds the list first and the maze at the end, which gives the same final value.
- Dataclass machinery (`__eq__`, `__repr__`) and the module docstring.
- Python's dynamic typing: `size`, `row` and `col` are modelled as mathematical integers. Non-integer arguments are not modelled.
