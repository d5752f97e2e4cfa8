/** The B3/S23 rule of Conway's Game of Life. */
module Rule {

  /** Neighbour counts at which a dead cell is born. */
  const Birth: set<nat> := {3}

  /** Neighbour counts at which a live cell survives. */
  const Survival: set<nat> := {2, 3}

  /**
   * Whether a cell is live in the next generation, given whether it is live
   * now and how many of its neighbours are. Exactly three neighbours always
   * give a live cell, two keep a live one alive, and nothing else does.
   */
  function Evolve(live: bool, neighbors: nat): (next: bool)
    ensures neighbors == 3 ==> next
    ensures live && neighbors == 2 ==> next
    ensures next ==> neighbors == 3 || (live && neighbors == 2)
  {
    if live then 2 <= neighbors && neighbors <= 3 else neighbors == 3
  }

  /** The rule, read against the birth and survival sets of its B/S notation. */
  lemma EvolveIsB3S23(live: bool, neighbors: nat)
    ensures Evolve(live, neighbors) <==> neighbors in (if live then Survival else Birth)
  {
  }
}
