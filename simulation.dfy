/**
 * The simulation loop: two cell buffers of `width * height` bits; each
 * generation fills the spare buffer from the current one and then swaps the
 * two, so the current buffer is never written while it is being read.
 */
module Simulation {
  import opened Bits
  import opened Rule
  import opened Neighbors
  import opened Render

  /** Cells `0 .. n - 1` of the next generation, each from its own state and its neighbour count. */
  function NextCells(world: seq<bool>, width: nat, height: nat, n: nat): (cells: seq<bool>)
    ensures |cells| == n
    decreases n
  {
    if n == 0 then []
    else NextCells(world, width, height, n - 1) + [Evolve(Get(world, n - 1), CellNeighbors(n - 1, world, width, height, false))]
  }

  /** The generation that follows `world`: all `width * height` cells. */
  function NextGeneration(world: seq<bool>, width: nat, height: nat): (next: seq<bool>)
    ensures |next| == width * height
  {
    NextCells(world, width, height, width * height)
  }

  /** Cell `i` of the next generation evolves from cell `i` of `world` and its neighbour count. */
  lemma {:induction false} NextCellsAt(world: seq<bool>, width: nat, height: nat, n: nat, i: nat)
    requires i < n
    ensures NextCells(world, width, height, n)[i] == Evolve(Get(world, i), CellNeighbors(i, world, width, height, false))
    decreases n
  {
    if i < n - 1 {
      NextCellsAt(world, width, height, n - 1, i);
    }
  }

  /** Cell `i` of the next generation, as the update loop writes it. */
  lemma NextGenerationAt(world: seq<bool>, width: nat, height: nat, i: nat)
    requires i < width * height
    ensures NextGeneration(world, width, height)[i] == Evolve(Get(world, i), CellNeighbors(i, world, width, height, false))
  {
    NextCellsAt(world, width, height, width * height, i);
  }

  /** `world` after `n` generations; every generation after the first has `width * height` cells. */
  function Iterate(world: seq<bool>, width: nat, height: nat, n: nat): (r: seq<bool>)
    ensures |r| == if n == 0 then |world| else width * height
    decreases n
  {
    if n == 0 then world else NextGeneration(Iterate(world, width, height, n - 1), width, height)
  }

  /** A grid with no live cell has none in the next generation. */
  lemma AllDeadStaysDead(world: seq<bool>, width: nat, height: nat)
    requires forall i :: 0 <= i < |world| ==> !world[i]
    ensures forall i :: 0 <= i < width * height ==> !NextGeneration(world, width, height)[i]
  {
    forall i | 0 <= i < width * height
      ensures !NextGeneration(world, width, height)[i]
    {
      AllDeadHasNoNeighbors(i, world, width, height, false);
      NextGenerationAt(world, width, height, i);
    }
  }

  /** ... nor in any later generation. */
  lemma {:induction false} AllDeadStaysDeadForever(world: seq<bool>, width: nat, height: nat, n: nat)
    requires forall i :: 0 <= i < |world| ==> !world[i]
    ensures forall i :: 0 <= i < |Iterate(world, width, height, n)| ==> !Iterate(world, width, height, n)[i]
    decreases n
  {
    if n > 0 {
      AllDeadStaysDeadForever(world, width, height, n - 1);
      AllDeadStaysDead(Iterate(world, width, height, n - 1), width, height);
    }
  }

  /** A cell none of whose eight offset reads is live is dead in the next generation. */
  lemma IsolatedCellDies(world: seq<bool>, width: nat, height: nat, i: nat)
    requires i < width * height
    requires forall k :: 0 <= k < 8 ==> !Get(world, NeighborIndices(i, width)[k])
    ensures !NextGeneration(world, width, height)[i]
  {
    NextGenerationAt(world, width, height, i);
    if i < |world| {
      CellNeighborsPerOffset(i, world, width, height, false);
      var idxs := NeighborIndices(i, width);
      assert !Get(world, idxs[0]) && !Get(world, idxs[1]) && !Get(world, idxs[2]) && !Get(world, idxs[3]);
      assert !Get(world, idxs[4]) && !Get(world, idxs[5]) && !Get(world, idxs[6]) && !Get(world, idxs[7]);
    }
  }

  /** On a fully live grid every cell off the edges dies of overcrowding. */
  lemma CrowdedInteriorDies(world: seq<bool>, width: nat, height: nat, row: nat, col: nat)
    requires |world| == width * height
    requires forall i :: 0 <= i < |world| ==> world[i]
    requires 1 <= row && row + 1 < height && 1 <= col && col + 1 < width
    ensures row * width + col < width * height
    ensures !NextGeneration(world, width, height)[row * width + col]
  {
    AllLiveInteriorHasEight(world, width, height, row, col);
    NextGenerationAt(world, width, height, row * width + col);
  }

  /** The pictures of generations `0 .. n - 1` of `world`. */
  function Frames(world: seq<bool>, width: nat, height: nat, dead: char, live: char, n: nat): (frames: seq<string>)
    ensures |frames| == n
    decreases n
  {
    if n == 0 then []
    else Frames(world, width, height, dead, live, n - 1) + [Rendered(Iterate(world, width, height, n - 1), width, height, dead, live)]
  }

  /** Frame `k` is the picture of generation `k`. */
  lemma {:induction false} FramesAt(world: seq<bool>, width: nat, height: nat, dead: char, live: char, n: nat, k: nat)
    requires k < n
    ensures Frames(world, width, height, dead, live, n)[k] == Rendered(Iterate(world, width, height, k), width, height, dead, live)
    decreases n
  {
    if k < n - 1 {
      FramesAt(world, width, height, dead, live, n - 1, k);
    }
  }

  /** The state of `main`: the current generation and the spare buffer. */
  class Life {
    const width: nat
    const height: nat
    var world: array<bool>
    var next: array<bool>

    ghost predicate Valid()
      reads this
    {
      world != next && world.Length == width * height && next.Length == width * height
    }

    /**
     * Both buffers start all dead; then cell `i` of the world is set from
     * `seed(i)`, which stands for the random draw of the source.
     */
    constructor (width: nat, height: nat, seed: nat -> bool)
      ensures Valid() && fresh(world) && fresh(next)
      ensures this.width == width && this.height == height
      ensures world[..] == seq(width * height, i requires 0 <= i < width * height => seed(i))
    {
      this.width := width;
      this.height := height;
      var n := width * height;
      var w := new bool[n](_ => false);
      world := w;
      next := new bool[n](_ => false);
      for i := 0 to n
        invariant forall j :: 0 <= j < i ==> w[j] == seed(j)
      {
        w[i] := seed(i);
      }
    }

    /**
     * One generation: every cell of the spare buffer is computed from the
     * unchanged current buffer, then the two buffers trade places.
     */
    method Step()
      requires Valid()
      modifies this, world, next
      ensures Valid()
      ensures world == old(next) && next == old(world)
      ensures world[..] == NextGeneration(old(world[..]), width, height)
      ensures next[..] == old(world[..])
    {
      ghost var before := world[..];
      for i := 0 to width * height
        modifies next
        invariant world[..] == before
        invariant next[..i] == NextCells(before, width, height, i)
      {
        var state := CellNeighbors(i, world[..], width, height, false);
        next[i] := Evolve(world[i], state);
        assert next[..i + 1] == next[..i] + [next[i]];
      }
      assert next[..] == next[..width * height];
      world, next := next, world;
    }

    /**
     * The run: the rendering of the seeded world, then `generations + 1`
     * steps, each followed by the rendering of the new world.
     */
    method Run(generations: nat, dead: char, live: char) returns (frames: seq<string>)
      requires Valid()
      modifies this, world, next
      ensures Valid()
      ensures world[..] == Iterate(old(world[..]), width, height, generations + 1)
      ensures |frames| == generations + 2
      ensures forall k :: 0 <= k < |frames| ==>
        frames[k] == Rendered(Iterate(old(world[..]), width, height, k), width, height, dead, live)
    {
      ghost var start := world[..];
      var frame := FormatBitvec(world[..], width, height, dead, live);
      frames := [frame];
      for g := 0 to generations + 1
        invariant Valid()
        invariant (world == old(world) && next == old(next)) || (world == old(next) && next == old(world))
        invariant world[..] == Iterate(start, width, height, g)
        invariant |frames| == g + 1
        invariant frames == Frames(start, width, height, dead, live, g + 1)
      {
        ghost var current := world[..];
        Step();
        assert world[..] == Iterate(start, width, height, g + 1) by {
          assert world[..] == NextGeneration(current, width, height);
        }
        frame := FormatBitvec(world[..], width, height, dead, live);
        frames := frames + [frame];
      }
      forall k | 0 <= k < |frames|
        ensures frames[k] == Rendered(Iterate(start, width, height, k), width, height, dead, live)
      {
        FramesAt(start, width, height, dead, live, generations + 2, k);
      }
    }
  }
}
