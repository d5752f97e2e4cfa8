/**
 * Neighbour counting on the flat cell vector. A cell's eight neighbours are
 * found by adding fixed offsets to its flat index, so the count follows the
 * flat layout rather than the two-dimensional grid: an index that falls off
 * either end of the vector is dead, but a step left from column 0 lands on the
 * last cell of the previous row, and a step right from the last column on the
 * first cell of the next row.
 */
module Neighbors {
  import opened Bits

  /**
   * The eight flat indices examined for cell `cellIdx`, in the order the
   * source lists them: the row above, the two horizontal neighbours, the row
   * below. Underflowed values are negative here.
   */
  function NeighborIndices(cellIdx: int, width: int): (idxs: seq<int>)
    ensures |idxs| == 8
  {
    [cellIdx - width - 1, cellIdx - width, cellIdx - width + 1,
     cellIdx - 1, cellIdx + 1,
     cellIdx + width - 1, cellIdx + width, cellIdx + width + 1]
  }

  /** The left fold that adds one to `sum` for every index that reads live. */
  function FoldLive(world: seq<bool>, idxs: seq<int>, sum: nat): (r: nat)
    ensures sum <= r <= sum + |idxs|
    decreases |idxs|
  {
    if idxs == [] then sum
    else FoldLive(world, idxs[1..], if Get(world, idxs[0]) then sum + 1 else sum)
  }

  /** How many of the positions of `idxs` read live, one per position. */
  function LiveCount(world: seq<bool>, idxs: seq<int>): nat
  {
    if idxs == [] then 0 else Bit(Get(world, idxs[0])) + LiveCount(world, idxs[1..])
  }

  /** The fold adds exactly the number of live positions to its seed. */
  lemma {:induction false} FoldLiveCounts(world: seq<bool>, idxs: seq<int>, sum: nat)
    ensures FoldLive(world, idxs, sum) == sum + LiveCount(world, idxs)
    decreases |idxs|
  {
    if idxs != [] {
      FoldLiveCounts(world, idxs[1..], if Get(world, idxs[0]) then sum + 1 else sum);
    }
  }

  /**
   * The number of live neighbours of cell `cellIdx`. A cell index past the end
   * of the vector has none. `height` and `wrap` are taken but not used: there
   * is no wrapping mode.
   */
  function CellNeighbors(cellIdx: nat, world: seq<bool>, width: nat, height: nat, wrap: bool): (n: nat)
    ensures n <= 8
    ensures cellIdx >= |world| ==> n == 0
  {
    if cellIdx < |world| then FoldLive(world, NeighborIndices(cellIdx, width), 0) else 0
  }

  /** The count over eight positions, written out term by term. */
  lemma LiveCountOfEight(world: seq<bool>, idxs: seq<int>)
    requires |idxs| == 8
    ensures LiveCount(world, idxs) ==
      Bit(Get(world, idxs[0])) + Bit(Get(world, idxs[1])) + Bit(Get(world, idxs[2])) + Bit(Get(world, idxs[3]))
      + Bit(Get(world, idxs[4])) + Bit(Get(world, idxs[5])) + Bit(Get(world, idxs[6])) + Bit(Get(world, idxs[7]))
  {
    var s := idxs;
    assert LiveCount(world, s) == Bit(Get(world, s[0])) + LiveCount(world, s[1..]);
    s := s[1..];
    assert LiveCount(world, s) == Bit(Get(world, s[0])) + LiveCount(world, s[1..]);
    s := s[1..];
    assert LiveCount(world, s) == Bit(Get(world, s[0])) + LiveCount(world, s[1..]);
    s := s[1..];
    assert LiveCount(world, s) == Bit(Get(world, s[0])) + LiveCount(world, s[1..]);
    s := s[1..];
    assert LiveCount(world, s) == Bit(Get(world, s[0])) + LiveCount(world, s[1..]);
    s := s[1..];
    assert LiveCount(world, s) == Bit(Get(world, s[0])) + LiveCount(world, s[1..]);
    s := s[1..];
    assert LiveCount(world, s) == Bit(Get(world, s[0])) + LiveCount(world, s[1..]);
    s := s[1..];
    assert LiveCount(world, s) == Bit(Get(world, s[0])) + LiveCount(world, s[1..]);
    assert s[1..] == [];
  }

  /**
   * The count is a sum over the eight offset positions, each contributing one
   * exactly when its index lies inside the vector and the bit there is set.
   * The same physical cell is counted once per offset that reaches it.
   */
  lemma CellNeighborsPerOffset(cellIdx: nat, world: seq<bool>, width: nat, height: nat, wrap: bool)
    requires cellIdx < |world|
    ensures CellNeighbors(cellIdx, world, width, height, wrap) ==
      Bit(Get(world, cellIdx - width - 1)) + Bit(Get(world, cellIdx - width)) + Bit(Get(world, cellIdx - width + 1))
      + Bit(Get(world, cellIdx - 1)) + Bit(Get(world, cellIdx + 1))
      + Bit(Get(world, cellIdx + width - 1)) + Bit(Get(world, cellIdx + width)) + Bit(Get(world, cellIdx + width + 1))
  {
    var idxs := NeighborIndices(cellIdx, width);
    FoldLiveCounts(world, idxs, 0);
    LiveCountOfEight(world, idxs);
  }

  /** The `wrap` flag and the height never change the count. */
  lemma FlagsIgnored(cellIdx: nat, world: seq<bool>, width: nat, height1: nat, height2: nat, wrap1: bool, wrap2: bool)
    ensures CellNeighbors(cellIdx, world, width, height1, wrap1) == CellNeighbors(cellIdx, world, width, height2, wrap2)
  {
  }

  /**
   * Each index the source computes with wrapping `usize` arithmetic reads the
   * same bit as the integer index used here, for any vector and width whose
   * sum stays below `usize::MAX`.
   */
  lemma UnderflowedIndicesAreDead(cellIdx: nat, world: seq<bool>, width: nat, k: nat)
    requires cellIdx < |world| && k < 8
    requires |world| + width + 1 <= USIZE_MODULUS
    ensures Get(world, Wrap(NeighborIndices(cellIdx, width)[k])) == Get(world, NeighborIndices(cellIdx, width)[k])
  {
    WrappedReadAgrees(world, NeighborIndices(cellIdx, width)[k]);
  }

  /** On a vector with no live cell, no cell has a live neighbour. */
  lemma {:induction false} AllDeadHasNoNeighbors(cellIdx: nat, world: seq<bool>, width: nat, height: nat, wrap: bool)
    requires forall i :: 0 <= i < |world| ==> !world[i]
    ensures CellNeighbors(cellIdx, world, width, height, wrap) == 0
  {
    if cellIdx < |world| {
      CellNeighborsPerOffset(cellIdx, world, width, height, wrap);
    }
  }

  /** With `width == 1`, the offsets `-width + 1` and `width - 1` both land on the cell itself. */
  lemma WidthOneCountsItself(cellIdx: nat, world: seq<bool>, height: nat, wrap: bool)
    requires cellIdx < |world|
    ensures CellNeighbors(cellIdx, world, 1, height, wrap) ==
      2 * Bit(world[cellIdx]) + 2 * Bit(Get(world, cellIdx - 1)) + 2 * Bit(Get(world, cellIdx + 1))
      + Bit(Get(world, cellIdx - 2)) + Bit(Get(world, cellIdx + 2))
  {
    CellNeighborsPerOffset(cellIdx, world, 1, height, wrap);
  }

  // ---- The two-dimensional reading of the flat vector ----

  /** The cell at (row, col) of a `width`-by-`height` grid; positions off the grid are dead. */
  function CellAt(world: seq<bool>, width: nat, height: nat, row: int, col: int): bool
  {
    0 <= row < height && 0 <= col < width && Get(world, row * width + col)
  }

  /**
   * A reference count on the grid with a dead border: the eight positions
   * around (row, col), each live only when it is on the grid and set.
   */
  function ClampedNeighbors(world: seq<bool>, width: nat, height: nat, row: int, col: int): (n: nat)
    ensures n <= 8
  {
    Bit(CellAt(world, width, height, row - 1, col - 1)) + Bit(CellAt(world, width, height, row - 1, col))
    + Bit(CellAt(world, width, height, row - 1, col + 1))
    + Bit(CellAt(world, width, height, row, col - 1)) + Bit(CellAt(world, width, height, row, col + 1))
    + Bit(CellAt(world, width, height, row + 1, col - 1)) + Bit(CellAt(world, width, height, row + 1, col))
    + Bit(CellAt(world, width, height, row + 1, col + 1))
  }

  /**
   * A flat index one row above, on or below a row of the grid reads the grid
   * cell it denotes, and the rows just outside the grid read as dead.
   */
  lemma FlatReadsGrid(world: seq<bool>, width: nat, height: nat, row: int, col: int)
    requires |world| == width * height
    requires -1 <= row <= height && 0 <= col < width
    ensures Get(world, row * width + col) == CellAt(world, width, height, row, col)
  {
  }

  /** Multiplying by the same natural number keeps the order. */
  lemma MulMonotone(a: nat, b: nat, c: nat)
    requires a <= b
    ensures a * c <= b * c
  {
  }

  /** On a fully live grid, every position on the grid reads live. */
  lemma LiveOnGrid(world: seq<bool>, width: nat, height: nat, row: nat, col: nat)
    requires |world| == width * height
    requires forall i :: 0 <= i < |world| ==> world[i]
    requires row < height && col < width
    ensures CellAt(world, width, height, row, col)
  {
    MulMonotone(row + 1, height, width);
  }

  /**
   * Away from the left and right columns the flat count is the grid count:
   * the top and bottom rows see their missing neighbours as dead.
   */
  lemma InteriorColumnsAgreeWithGrid(world: seq<bool>, width: nat, height: nat, row: nat, col: nat)
    requires |world| == width * height
    requires row < height && 1 <= col && col + 1 < width
    ensures row * width + col < |world|
    ensures CellNeighbors(row * width + col, world, width, height, false) == ClampedNeighbors(world, width, height, row, col)
  {
    var i := row * width + col;
    FlatReadsGrid(world, width, height, row, col);
    assert i < |world| by {
      MulMonotone(row + 1, height, width);
    }
    CellNeighborsPerOffset(i, world, width, height, false);
    assert (row - 1) * width == row * width - width;
    assert (row + 1) * width == row * width + width;
    FlatReadsGrid(world, width, height, row - 1, col - 1);
    FlatReadsGrid(world, width, height, row - 1, col);
    FlatReadsGrid(world, width, height, row - 1, col + 1);
    FlatReadsGrid(world, width, height, row, col - 1);
    FlatReadsGrid(world, width, height, row, col + 1);
    FlatReadsGrid(world, width, height, row + 1, col - 1);
    FlatReadsGrid(world, width, height, row + 1, col);
    FlatReadsGrid(world, width, height, row + 1, col + 1);
  }

  /** On a fully live grid, a cell off every edge has all eight neighbours live. */
  lemma AllLiveInteriorHasEight(world: seq<bool>, width: nat, height: nat, row: nat, col: nat)
    requires |world| == width * height
    requires forall i :: 0 <= i < |world| ==> world[i]
    requires 1 <= row && row + 1 < height && 1 <= col && col + 1 < width
    ensures row * width + col < |world|
    ensures CellNeighbors(row * width + col, world, width, height, false) == 8
  {
    InteriorColumnsAgreeWithGrid(world, width, height, row, col);
    LiveOnGrid(world, width, height, row - 1, col - 1);
    LiveOnGrid(world, width, height, row - 1, col);
    LiveOnGrid(world, width, height, row - 1, col + 1);
    LiveOnGrid(world, width, height, row, col - 1);
    LiveOnGrid(world, width, height, row, col + 1);
    LiveOnGrid(world, width, height, row + 1, col - 1);
    LiveOnGrid(world, width, height, row + 1, col);
    LiveOnGrid(world, width, height, row + 1, col + 1);
  }

  /**
   * The leak at the left edge: on a 3-by-3 grid whose only live cell is the
   * top-right corner, the first cell of the middle row counts it as a
   * neighbour, although on the grid the two are two columns apart.
   */
  lemma LeftEdgeSeesPreviousRow()
    ensures CellNeighbors(3, [false, false, true, false, false, false, false, false, false], 3, 3, false) == 1
    ensures ClampedNeighbors([false, false, true, false, false, false, false, false, false], 3, 3, 1, 0) == 0
  {
    CellNeighborsPerOffset(3, [false, false, true, false, false, false, false, false, false], 3, 3, false);
  }

  /**
   * The reads of a first-column cell: the three offsets that step left read
   * the last column of the row two above, of the row above, and of the cell's
   * own row; the other five read the grid cells they denote.
   */
  lemma FirstColumnReadsPreviousRow(world: seq<bool>, width: nat, height: nat, row: nat)
    requires |world| == width * height
    requires row < height && 2 <= width
    ensures row * width < |world|
    ensures CellNeighbors(row * width, world, width, height, false) ==
      Bit(CellAt(world, width, height, row - 2, width - 1))
      + Bit(CellAt(world, width, height, row - 1, 0)) + Bit(CellAt(world, width, height, row - 1, 1))
      + Bit(CellAt(world, width, height, row - 1, width - 1)) + Bit(CellAt(world, width, height, row, 1))
      + Bit(CellAt(world, width, height, row, width - 1))
      + Bit(CellAt(world, width, height, row + 1, 0)) + Bit(CellAt(world, width, height, row + 1, 1))
  {
    var i := row * width;
    assert i < |world| by {
      MulMonotone(row + 1, height, width);
    }
    CellNeighborsPerOffset(i, world, width, height, false);
    assert (row - 1) * width == i - width;
    assert (row + 1) * width == i + width;
    if row == 0 {
      assert i - width - 1 < 0;
    } else {
      assert (row - 2) * width + width - 1 == i - width - 1;
      FlatReadsGrid(world, width, height, row - 2, width - 1);
    }
    FlatReadsGrid(world, width, height, row - 1, 0);
    FlatReadsGrid(world, width, height, row - 1, 1);
    FlatReadsGrid(world, width, height, row - 1, width - 1);
    FlatReadsGrid(world, width, height, row, 1);
    FlatReadsGrid(world, width, height, row, width - 1);
    FlatReadsGrid(world, width, height, row + 1, 0);
    FlatReadsGrid(world, width, height, row + 1, 1);
  }

  /**
   * The reads of a last-column cell: the three offsets that step right read
   * the first column of the cell's own row, of the row below, and of the row
   * two below; the other five read the grid cells they denote.
   */
  lemma LastColumnReadsNextRow(world: seq<bool>, width: nat, height: nat, row: nat)
    requires |world| == width * height
    requires row < height && 2 <= width
    ensures row * width + width - 1 < |world|
    ensures CellNeighbors(row * width + width - 1, world, width, height, false) ==
      Bit(CellAt(world, width, height, row - 1, width - 2)) + Bit(CellAt(world, width, height, row - 1, width - 1))
      + Bit(CellAt(world, width, height, row, 0))
      + Bit(CellAt(world, width, height, row, width - 2)) + Bit(CellAt(world, width, height, row + 1, 0))
      + Bit(CellAt(world, width, height, row + 1, width - 2)) + Bit(CellAt(world, width, height, row + 1, width - 1))
      + Bit(CellAt(world, width, height, row + 2, 0))
  {
    var i := row * width + width - 1;
    assert i < |world| by {
      MulMonotone(row + 1, height, width);
    }
    CellNeighborsPerOffset(i, world, width, height, false);
    assert (row - 1) * width == row * width - width;
    assert (row + 1) * width == row * width + width;
    assert (row + 2) * width == row * width + 2 * width;
    if row + 1 == height {
      assert i + width + 1 >= |world|;
    } else {
      FlatReadsGrid(world, width, height, row + 2, 0);
    }
    FlatReadsGrid(world, width, height, row - 1, width - 2);
    FlatReadsGrid(world, width, height, row - 1, width - 1);
    FlatReadsGrid(world, width, height, row, 0);
    FlatReadsGrid(world, width, height, row, width - 2);
    FlatReadsGrid(world, width, height, row + 1, 0);
    FlatReadsGrid(world, width, height, row + 1, width - 2);
    FlatReadsGrid(world, width, height, row + 1, width - 1);
  }
}
