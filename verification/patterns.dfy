/**
 What one generation step does to particular boards: an empty grid stays
 empty, a lone cell dies and the grid is empty afterwards, and the glider
 the board is seeded with is not a fixed point, so seeding does not
 immediately trigger another reseed.
 */
module Patterns {
  import opened Grid
  import opened Collections
  import opened Neighbourhood
  import opened Engine

  /** No cell of the grid is alive (the bits above the rows may hold anything). */
  predicate DeadGrid(b: Board) {
    forall i: nat, j: nat | i < COLS && j < ROWS :: !Alive(b, i, j)
  }

  /** On an empty grid every cell has zero neighbours. */
  lemma DeadGridHasNoNeighbours(b: Board, i: nat, j: nat)
    requires DeadGrid(b) && i < COLS && j < ROWS
    ensures Neighbours(b, i, j) == 0
  {
    var ps := Probes(i, j);
    forall k | 0 <= k < |ps|
      ensures !Lit(b, ps[k])
    {
      assert InGrid(ps[k]);
    }
  }

  /** An empty grid is a fixed point: nothing flips and the next generation is empty too. */
  lemma DeadGridIsStill(src: Board, dst: Board)
    requires DeadGrid(src)
    ensures Flips(src) == {}
    ensures DeadGrid(Evolve(src, dst))
  {
    forall i: nat, j: nat | i < COLS && j < ROWS
      ensures !Successor(src, i, j)
    {
      DeadGridHasNoNeighbours(src, i, j);
    }
    forall i: nat, j: nat | i < COLS && j < ROWS
      ensures !Alive(Evolve(src, dst), i, j)
    {
      EvolveBit(src, dst, i, j);
    }
  }

  /** The empty board with cell (i, j) set alive. */
  function Lone(i: nat, j: nat): Board
    requires i < COLS && j < ROWS
  {
    SetAlive(Blank, i, j)
  }

  /** `Lone(i, j)` has exactly one live grid cell, (i, j). */
  lemma LoneLit(i: nat, j: nat)
    requires i < COLS && j < ROWS
    ensures forall c | InGrid(c) :: Lit(Lone(i, j), c) <==> c == (i, j)
  {
  }

  /** In the lone-cell board nobody has more than one neighbour, and the cell itself has none. */
  lemma LoneNeighbours(i: nat, j: nat, a: nat, b: nat)
    requires i < COLS && j < ROWS && a < COLS && b < ROWS
    ensures Neighbours(Lone(i, j), a, b) <= 1
    ensures (a, b) == (i, j) ==> Neighbours(Lone(i, j), a, b) == 0
  {
    var f := Lone(i, j);
    LoneLit(i, j);
    NeighboursCountsLiveRing(f, a, b);
    var live := LiveRing(f, a, b);
    assert live <= {(i, j)};
    SubsetCard(live, {(i, j)});
    if (a, b) == (i, j) {
      assert live == {};
    }
  }

  /** A lone cell dies of isolation and is the only change, so the step reports one change. */
  lemma LoneCellDies(i: nat, j: nat)
    requires i < COLS && j < ROWS
    ensures Flips(Lone(i, j)) == {(i, j)}
  {
    var f := Lone(i, j);
    forall a: nat, b: nat | a < COLS && b < ROWS
      ensures (a, b) in Flips(f) <==> (a, b) == (i, j)
    {
      LoneNeighbours(i, j, a, b);
      InFlips(f, a, b);
    }
  }

  /** One step after a lone cell the grid is empty, and the step after that reports no change. */
  lemma LoneCellLeavesDeadGrid(i: nat, j: nat, dst: Board)
    requires i < COLS && j < ROWS
    ensures DeadGrid(Evolve(Lone(i, j), dst))
    ensures Flips(Evolve(Lone(i, j), dst)) == {}
  {
    var f := Lone(i, j);
    var g := Evolve(f, dst);
    forall a: nat, b: nat | a < COLS && b < ROWS
      ensures !Alive(g, a, b)
    {
      LoneNeighbours(i, j, a, b);
      EvolveBit(f, dst, a, b);
    }
    DeadGridIsStill(g, dst);
  }

  /** The seeded glider is not a fixed point: its tail cell (0, 5) has one neighbour and dies. */
  lemma PreseedIsNotStill()
    ensures (0, 5) in Flips(Preseed)
  {
    var ps := Probes(0, 5);
    CountLitOfEight(Preseed, ps);
    assert Neighbours(Preseed, 0, 5) == 1;
    InFlips(Preseed, 0, 5);
  }
}
