/** Text rendering of the cell vector: one line of characters per grid row. */
module Render {
  import opened Bits

  /** Row `row` of the picture: `width` cell characters and a newline. */
  function RowText(bv: seq<bool>, width: nat, row: nat, dead: char, live: char): (s: string)
    ensures |s| == width + 1 && s[width] == '\n'
  {
    seq(width, col requires 0 <= col < width => if Get(bv, width * row + col) then live else dead) + ['\n']
  }

  /**
   * Rows `0 .. height - 1` of the picture, top to bottom: `height` lines of
   * `width + 1` characters each.
   */
  function Rendered(bv: seq<bool>, width: nat, height: nat, dead: char, live: char): (s: string)
    ensures |s| == height * (width + 1)
    decreases height
  {
    if height == 0 then [] else Rendered(bv, width, height - 1, dead, live) + RowText(bv, width, height - 1, dead, live)
  }

  /**
   * Character `row * (width + 1) + col` of the picture shows bit
   * `width * row + col`: `live` when it is set, `dead` otherwise; the
   * character after the last column of each row is a newline.
   */
  lemma {:induction false} RenderedAt(bv: seq<bool>, width: nat, height: nat, dead: char, live: char, row: nat, col: nat)
    requires row < height && col <= width
    ensures row * (width + 1) + col < |Rendered(bv, width, height, dead, live)|
    ensures Rendered(bv, width, height, dead, live)[row * (width + 1) + col] ==
      if col == width then '\n' else if Get(bv, width * row + col) then live else dead
    decreases height
  {
    if row < height - 1 {
      RenderedAt(bv, width, height - 1, dead, live, row, col);
    } else {
      assert row * (width + 1) == |Rendered(bv, width, height - 1, dead, live)|;
    }
  }

  /**
   * `format_bitvec`: push, row by row, one character per cell and a newline
   * onto a growing string.
   */
  method FormatBitvec(bv: seq<bool>, width: nat, height: nat, dead: char, live: char) returns (res: string)
    ensures res == Rendered(bv, width, height, dead, live)
  {
    res := "";
    for row := 0 to height
      invariant res == Rendered(bv, width, row, dead, live)
    {
      ghost var done := res;
      ghost var line := RowText(bv, width, row, dead, live);
      for col := 0 to width
        invariant res == done + line[..col]
      {
        assert line[..col + 1] == line[..col] + [line[col]];
        res := res + [if Get(bv, width * row + col) then live else dead];
      }
      assert line == line[..width] + ['\n'];
      res := res + ['\n'];
    }
  }
}
