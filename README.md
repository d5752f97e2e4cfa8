# rust-gol in Dafny

A model of the simulation engine of `gol`, a terminal program for Conway's
Game of Life. The grid is a flat bit vector of `width * height` cells, and cell
`i` is at row `i / width`, column `i % width`. The model covers:

- `evolve`, the B3/S23 rule, as `Rule.Evolve`.
- `cell_neighbors`, as `Neighbors.CellNeighbors`. It adds eight fixed offsets
  to a cell's flat index and folds a count over the bits found there.
- The per-generation update loop in `main` and its buffer swap, as the class
  `Simulation.Life`. Its `Step` fills the spare buffer from the current one
  and then swaps the two. Its `Run` performs `generations + 1` steps and
  collects the text of each generation.
- `format_bitvec`, as `Render.FormatBitvec`. It prints `height` lines of
  `width` characters, each line ending in a newline.

The bit vector is a `seq<bool>`, or an `array<bool>` where it is written in
place. `BitVec::get(i).unwrap_or(false)` is `Bits.Get`: an index that is
negative or past the end reads as dead. The source computes indices with
wrapping `usize` arithmetic. The model uses mathematical integers instead, so
an index that underflowed is negative here. `Bits.WrappedReadAgrees` and
`Neighbors.UnderflowedIndicesAreDead` show that both read the same bit.

Neighbour counting follows the flat layout, not the two-dimensional grid.
The doc comment on `cell_neighbors` (src/gol.rs:93-95) says that with `wrap`
the first and last cells are neighbours, and that otherwise any neighbour
"out of bounds" is dead. The code differs from that comment:

- The `wrap` and `height` arguments are never read (`Neighbors.FlagsIgnored`),
  so there is no wrapping mode.
- Only indices that fall off either end of the vector are dead. Above the top
  row and below the bottom row, the offsets read nothing.
- A step left from column 0 reads the last cell of the previous row. A step
  right from the last column reads the first cell of the next row. The same
  holds for the diagonal offsets. So the top-right cell reads cell (0, 0), and
  the bottom-left cell reads the last cell of the grid.
  `Neighbors.FirstColumnReadsPreviousRow` and
  `Neighbors.LastColumnReadsNextRow` give the exact reads of those two
  columns. `Neighbors.LeftEdgeSeesPreviousRow` gives a concrete instance.
  `Neighbors.InteriorColumnsAgreeWithGrid` proves that every cell not in the
  first or last column gets the same count as on a grid with a dead border.
- The count is taken once per offset. With `width == 1`, two offsets land on
  the cell itself, so a live cell counts itself twice
  (`Neighbors.WidthOneCountsItself`).
- There is no check on the dimensions. A zero width or height just gives
  empty loops.

These are the code's behaviour, and the model keeps it.

## Model

| member | source | states |
|---|---|---|
| Bits.Get | src/gol.rs:110 | a read is live only at an index inside the vector, and there it is the stored bit; every other index reads as dead |
| Bits.Wrap | src/gol.rs:99-108 | the wrapped `usize` value is in `0 .. 2^64`, equals an in-range value, and is the value plus `2^64` for an underflow of at most `2^64` |
| Rule.Evolve | src/gol.rs:85-91 | the next state is live when there are exactly three live neighbours, or when the cell is live and has two; in every other case it is dead |
| Rule.EvolveIsB3S23 | src/gol.rs:82-91 | the rule is the member test of B/S notation: a live cell survives with a count in {2, 3}, and a dead cell is born with a count in {3} |
| Neighbors.NeighborIndices | src/gol.rs:98-108 | exactly eight indices are examined for each cell |
| Neighbors.FoldLive | src/gol.rs:109-110 | the fold adds between zero and one per index to its seed |
| Neighbors.FoldLiveCounts | src/gol.rs:109-110 | the fold adds exactly the number of positions that read live |
| Neighbors.CellNeighbors | src/gol.rs:96-115 | the count is at most 8, and it is 0 for a cell index past the end of the vector |
| Neighbors.CellNeighborsPerOffset | src/gol.rs:98-110 | the count is the sum over the eight offsets of one for each index inside the vector whose bit is set; an index outside the vector contributes nothing, and a cell reached by two offsets counts twice |
| Neighbors.FlagsIgnored | src/gol.rs:96 | the count does not depend on `wrap` or `height` |
| Bits.WrappedReadAgrees | src/gol.rs:99-108 | reading at the wrapped `usize` value of an index reads the same bit as reading at the integer index, for every index from `len - 2^64` up to `2^64` |
| Neighbors.UnderflowedIndicesAreDead | src/gol.rs:99-108 | for every cell and every offset, the wrapped `usize` index reads the same bit as the integer index; underflowed indices are dead |
| Neighbors.AllDeadHasNoNeighbors | src/gol.rs:97-110 | on a vector with no live cell every count is 0 |
| Neighbors.WidthOneCountsItself | src/gol.rs:99-110 | with width 1 the count is twice the cell itself plus twice each vertical neighbour plus the cells two away |
| Neighbors.ClampedNeighbors | src/gol.rs:93-95 | the reference count on the grid with a dead border, at most 8 |
| Neighbors.InteriorColumnsAgreeWithGrid | src/gol.rs:96-115 | for a well-sized vector, every cell not in the first or last column has the same flat count as on the grid with a dead border, on every row including the top and bottom ones |
| Neighbors.FirstColumnReadsPreviousRow | src/gol.rs:99-110 | for every first-column cell of a well-sized vector, the count reads the last column of the row two above, of the row above and of its own row in place of the three left neighbours; the other five reads are its grid neighbours |
| Neighbors.LastColumnReadsNextRow | src/gol.rs:99-110 | for every last-column cell of a well-sized vector, the count reads the first column of its own row, of the row below and of the row two below in place of the three right neighbours; the other five reads are its grid neighbours |
| Neighbors.AllLiveInteriorHasEight | src/gol.rs:99-110 | on a fully live grid every cell off all four edges has exactly 8 live neighbours |
| Neighbors.LeftEdgeSeesPreviousRow | src/gol.rs:103-106 | on a 3-by-3 grid whose only live cell is the top-right corner, the first cell of the middle row counts 1, while the grid count is 0 |
| Render.RowText | src/gol.rs:121-124 | a rendered row is `width` characters and then a newline |
| Render.Rendered | src/gol.rs:118-127 | the picture of `height` rows is `height * (width + 1)` characters long, each row being `width` cells and a newline |
| Render.RenderedAt | src/gol.rs:120-125 | character `row * (width + 1) + col` is `live` exactly when bit `width * row + col` is set, otherwise `dead`, and character `row * (width + 1) + width` is a newline |
| Render.FormatBitvec | src/gol.rs:118-127 | the nested loops that push characters build exactly that picture |
| Simulation.NextCells | src/gol.rs:72-75 | after `n` iterations of the update loop, `n` cells have been written |
| Simulation.NextCellsAt | src/gol.rs:72-75 | each cell written is `evolve` of that cell's old state and its neighbour count in the old vector |
| Simulation.NextGeneration | src/gol.rs:72-76 | the new generation has `width * height` cells |
| Simulation.NextGenerationAt | src/gol.rs:72-76 | cell `i` of the new generation is `evolve(world[i], cell_neighbors(i, world))` for every `i < width * height` |
| Simulation.Iterate | src/gol.rs:67-76 | after one or more generations the vector has `width * height` cells; with none it is the seed itself |
| Simulation.AllDeadStaysDead | src/gol.rs:72-91 | a grid with no live cell has none after one step |
| Simulation.AllDeadStaysDeadForever | src/gol.rs:67-91 | a grid with no live cell has none after any number of steps |
| Simulation.IsolatedCellDies | src/gol.rs:72-91 | a cell none of whose eight offset reads is live is dead after a step |
| Simulation.CrowdedInteriorDies | src/gol.rs:72-91 | on a fully live grid every cell off all four edges dies in the next step |
| Simulation.Frames | src/gol.rs:64-79 | the run shows one picture per generation |
| Simulation.FramesAt | src/gol.rs:64-79 | picture `k` is the rendering of generation `k` |
| Simulation.Life.constructor | src/gol.rs:57-62 | both buffers have `width * height` cells and are distinct; cell `i` of the world is `seed(i)` |
| Simulation.Life.Step | src/gol.rs:72-76 | the spare buffer is filled while the current one stays unchanged; after the swap, the world holds the next generation of the old world, the spare buffer holds the old world unchanged, and the two buffers have traded places |
| Simulation.Life.Run | src/gol.rs:64-79 | after the run the world is the seed after `generations + 1` steps; the run yields `generations + 2` pictures, the k-th one being generation k |

## Left out

- Command-line parsing (the `docopt!` macro and `Args`). It is a foreign
  macro and library. Width, height, generation count and the two display
  characters are parameters.
- The random initial state (`random::<f32>() < 0.5`). It uses floats and a
  random number generator. The constructor takes the seeding as a function
  parameter `seed`.
- Terminal output: `println!`, `print!`, and the ANSI cursor-movement escapes.
  `Run` returns the text of each generation instead of printing it. The
  "simulating ... cells" banner and the "generations:" counter lines are not
  modelled.
- The pause between generations (`sleep(1000 / flag_speed)`). This includes
  the panic when the speed is 0.
- `usize` width. Indices are mathematical integers. A computed index
  `cell_idx + width + 1` that passes `usize::MAX` would wrap back to a small
  index in the source. The model does not capture that; it needs a vector
  within `width + 1` of `2^64` cells. `width * height` overflowing is not
  modelled either.
- Simulation.Life.Run: does not capture the overflow of `generations + 1` at
  src/gol.rs:67 when `generations` is `usize::MAX`. The source then panics in
  a debug build, or wraps to an empty range in a release build and shows only
  the first picture. The model's `generations` is unbounded, so it always runs
  `generations + 1` steps.
- The internals of `BitVec`: bit packing, and the panic of `set` past the end.
  Here `set` writes an array element whose index the verifier proves in range.
