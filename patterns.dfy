/**
 Worked boards for the rule engine: the wrap-around of the neighbourhood on a
 small board, the single cell that is its own neighbour, a still life and an
 oscillator. Each board is written out as a literal grid, and each cell of
 its next generation is checked against the rule with the neighbours counted
 by `RingCount`.
 */
module Patterns {
  import opened Board
  import opened Rules

  /**
   On a 3 x 3 board the neighbours of the corner (0, 0) include the opposite
   corner (2, 2), reached diagonally through both edges, and (0, 2), reached
   through the left edge.
   */
  lemma CornerNeighboursWrap()
    ensures (2, 2) in NeighbourPositions(3, 3, 0, 0)
    ensures (0, 2) in NeighbourPositions(3, 3, 0, 0)
  {
  }

  /** Cell (i, j) of `h` is what the rule makes of cell (i, j) of `g`. */
  predicate FollowsRuleAt(g: Grid, h: Grid, i: int, j: int)
    requires Valid(g) && HasShape(h, |g|, |g[0]|) && 0 <= i < |g| && 0 <= j < |g[0]|
  {
    h[i][j] == NextCell(g[i][j], RingCount(g, i, j))
  }

  /** When every cell of `h` follows the rule from `g`, `h` is the next generation of `g`. */
  lemma StepFrom(g: Grid, h: Grid)
    requires Valid(g) && HasShape(h, |g|, |g[0]|)
    requires forall i, j | 0 <= i < |g| && 0 <= j < |g[0]| :: FollowsRuleAt(g, h, i, j)
    ensures Step(g) == h
  {
    forall i, j | 0 <= i < |g| && 0 <= j < |g[0]| ensures Step(g)[i][j] == h[i][j] {
      CellFollowsRule(g, h, i, j);
    }
    SameCells(Step(g), h);
  }

  /** One cell of `StepFrom`. */
  lemma CellFollowsRule(g: Grid, h: Grid, i: int, j: int)
    requires Valid(g) && HasShape(h, |g|, |g[0]|) && 0 <= i < |g| && 0 <= j < |g[0]|
    requires FollowsRuleAt(g, h, i, j)
    ensures Step(g)[i][j] == h[i][j]
  {
    StepAt(g, i, j);
    LiveNeighboursIsRing(g, i, j);
  }

  /** On a 1 x 1 board a live cell is its own eight neighbours, so it dies of overcrowding. */
  lemma LoneCellOnUnitBoard()
    ensures LiveNeighbours([[true]], 0, 0) == 8
    ensures Step([[true]]) == [[false]]
  {
    LiveNeighboursIsBlockWithoutCentre([[true]], 0, 0);
    StepAt([[true]], 0, 0);
    SameCells(Step([[true]]), [[false]]);
  }

  /** A 2 x 2 block in the middle of a 4 x 4 board. */
  function Block(): Grid
  {
    [ [false, false, false, false],
      [false, true,  true,  false],
      [false, true,  true,  false],
      [false, false, false, false] ]
  }

  /** The block is a still life: one generation leaves it unchanged. */
  lemma BlockIsStill()
    ensures Step(Block()) == Block()
  {
    StepFrom(Block(), Block());
  }

  /** The horizontal phase of a blinker on a 5 x 5 board. */
  function BlinkerAcross(): Grid
  {
    [ [false, false, false, false, false],
      [true,  true,  true,  false, false],
      [false, false, false, false, false],
      [false, false, false, false, false],
      [false, false, false, false, false] ]
  }

  /** The vertical phase of the same blinker. */
  function BlinkerDown(): Grid
  {
    [ [false, true,  false, false, false],
      [false, true,  false, false, false],
      [false, true,  false, false, false],
      [false, false, false, false, false],
      [false, false, false, false, false] ]
  }

  /** The vertical phase is the horizontal one mirrored about the main diagonal. */
  lemma BlinkerPhasesAreTransposes()
    ensures Transpose(BlinkerAcross()) == BlinkerDown()
    ensures Transpose(BlinkerDown()) == BlinkerAcross()
  {
    SameCells(Transpose(BlinkerAcross()), BlinkerDown());
    SameCells(Transpose(BlinkerDown()), BlinkerAcross());
  }

  /**
   The blinker turns from horizontal to vertical and back: it is an
   oscillator of period 2.
   */
  lemma BlinkerOscillates()
    ensures Step(BlinkerAcross()) == BlinkerDown()
    ensures Step(BlinkerDown()) == BlinkerAcross()
    ensures Step(Step(BlinkerAcross())) == BlinkerAcross()
  {
    StepFrom(BlinkerAcross(), BlinkerDown());
    BlinkerPhasesAreTransposes();
    StepTranspose(BlinkerAcross());
  }
}
