/** The seed patterns of the program and what the transition does to them. */
module Patterns {
  import opened Grid
  import opened Transition

  /** The three cells `seed_test_grid` sets: a vertical blinker in column 1. */
  const Blinker: seq<(int, int)> := [(1, 1), (2, 1), (3, 1)]

  /** The same blinker turned horizontal, centred on (2, 1). */
  const BlinkerTurned: seq<(int, int)> := [(2, 0), (2, 1), (2, 2)]

  /** The glider of `seed_glider_grid`, as offsets from its anchor. */
  const Glider: seq<(int, int)> := [(0, 0), (0, 1), (0, 2), (1, 0), (2, 1)]

  /** The glider's offsets lie within a 3 × 3 box. */
  lemma GliderInBox()
    ensures forall m :: 0 <= m < |Glider| ==> 0 <= Glider[m].0 <= 2 && 0 <= Glider[m].1 <= 2
  {
  }

  /** The cells of a glider anchored at (row, col), in the order the program sets them. */
  function GliderAt(row: int, col: int): (cells: seq<(int, int)>)
    ensures cells == [(row, col), (row, col + 1), (row, col + 2), (row + 1, col), (row + 2, col + 1)]
  {
    seq(|Glider|, m requires 0 <= m < |Glider| => (row + Glider[m].0, col + Glider[m].1))
  }

  /** An otherwise empty grid on which exactly `cells` are alive. */
  function Seeded(rows: nat, cols: nat, cells: seq<(int, int)>): (g: seq<seq<int>>)
    ensures IsGrid(g, rows, cols)
  {
    Plant(Filled(rows, cols, Dead), rows, cols, cells)
  }

  /** On a seeded grid a position is alive exactly when it is one of the seeded cells. */
  lemma SeededAliveAt(rows: nat, cols: nat, cells: seq<(int, int)>, i: int, j: int)
    requires forall p :: p in cells ==> 0 <= p.0 < rows && 0 <= p.1 < cols
    ensures AliveAt(Seeded(rows, cols, cells), rows, cols, i, j) == In(i, j, cells)
  {
    if (i, j) in cells {
      assert 0 <= i < rows && 0 <= j < cols;
    }
  }

  /** 1 when (i, j) is one of `cells`. */
  function In(i: int, j: int, cells: seq<(int, int)>): (k: nat)
    ensures k == 1 <==> (i, j) in cells
    ensures k <= 1
  {
    if (i, j) in cells then 1 else 0
  }

  /** How many of the eight neighbours of (i, j) are among `cells`. */
  function InAround(i: int, j: int, cells: seq<(int, int)>): nat
  {
    In(i - 1, j - 1, cells) + In(i - 1, j, cells) + In(i - 1, j + 1, cells)
    + In(i, j - 1, cells) + In(i, j + 1, cells)
    + In(i + 1, j - 1, cells) + In(i + 1, j, cells) + In(i + 1, j + 1, cells)
  }

  /** Neighbour count of (i, j) on a seeded grid, as eight membership tests. */
  lemma SeededNeighbors(rows: nat, cols: nat, cells: seq<(int, int)>, i: int, j: int)
    requires forall p :: p in cells ==> 0 <= p.0 < rows && 0 <= p.1 < cols
    ensures LiveNeighbors(Seeded(rows, cols, cells), rows, cols, i, j) == InAround(i, j, cells)
  {
    var g := Seeded(rows, cols, cells);
    NeighborsUnrolled(g, rows, cols, i, j);
    SeededAliveAt(rows, cols, cells, i - 1, j - 1);
    SeededAliveAt(rows, cols, cells, i - 1, j);
    SeededAliveAt(rows, cols, cells, i - 1, j + 1);
    SeededAliveAt(rows, cols, cells, i, j - 1);
    SeededAliveAt(rows, cols, cells, i, j + 1);
    SeededAliveAt(rows, cols, cells, i + 1, j - 1);
    SeededAliveAt(rows, cols, cells, i + 1, j);
    SeededAliveAt(rows, cols, cells, i + 1, j + 1);
  }

  /** A cell of the generation after a seeded grid, in terms of the seeded cells. */
  lemma SeededStepAt(rows: nat, cols: nat, cells: seq<(int, int)>, i: int, j: int)
    requires forall p :: p in cells ==> 0 <= p.0 < rows && 0 <= p.1 < cols
    requires 0 <= i < rows && 0 <= j < cols
    ensures Seeded(rows, cols, cells)[i][j] == In(i, j, cells)
    ensures Step(Seeded(rows, cols, cells), rows, cols)[i][j] == NextState(In(i, j, cells), InAround(i, j, cells))
  {
    SeededNeighbors(rows, cols, cells, i, j);
  }

  /** Membership in the vertical blinker as arithmetic. */
  function InBlinker(i: int, j: int): (k: nat)
    ensures k == In(i, j, Blinker)
  {
    if j == 1 && 1 <= i <= 3 then 1 else 0
  }

  /** Membership in the horizontal blinker as arithmetic. */
  function InBlinkerTurned(i: int, j: int): (k: nat)
    ensures k == In(i, j, BlinkerTurned)
  {
    if i == 2 && 0 <= j <= 2 then 1 else 0
  }

  /** The B3/S23 rule turns the vertical blinker into the horizontal one, cell by cell. */
  lemma BlinkerRule(i: int, j: int)
    ensures NextState(In(i, j, Blinker), InAround(i, j, Blinker)) == In(i, j, BlinkerTurned)
  {
    assert InAround(i, j, Blinker) ==
      InBlinker(i - 1, j - 1) + InBlinker(i - 1, j) + InBlinker(i - 1, j + 1)
      + InBlinker(i, j - 1) + InBlinker(i, j + 1)
      + InBlinker(i + 1, j - 1) + InBlinker(i + 1, j) + InBlinker(i + 1, j + 1);
    assert In(i, j, Blinker) == InBlinker(i, j);
    assert In(i, j, BlinkerTurned) == InBlinkerTurned(i, j);
  }

  /** The B3/S23 rule turns the horizontal blinker back into the vertical one, cell by cell. */
  lemma BlinkerTurnedRule(i: int, j: int)
    ensures NextState(In(i, j, BlinkerTurned), InAround(i, j, BlinkerTurned)) == In(i, j, Blinker)
  {
    assert InAround(i, j, BlinkerTurned) ==
      InBlinkerTurned(i - 1, j - 1) + InBlinkerTurned(i - 1, j) + InBlinkerTurned(i - 1, j + 1)
      + InBlinkerTurned(i, j - 1) + InBlinkerTurned(i, j + 1)
      + InBlinkerTurned(i + 1, j - 1) + InBlinkerTurned(i + 1, j) + InBlinkerTurned(i + 1, j + 1);
    assert In(i, j, BlinkerTurned) == InBlinkerTurned(i, j);
    assert In(i, j, Blinker) == InBlinker(i, j);
  }

  /** Both blinkers lie on any grid of at least 4 rows and 3 columns. */
  lemma BlinkersOnGrid(rows: nat, cols: nat)
    requires 4 <= rows && 3 <= cols
    ensures forall p :: p in Blinker ==> 0 <= p.0 < rows && 0 <= p.1 < cols
    ensures forall p :: p in BlinkerTurned ==> 0 <= p.0 < rows && 0 <= p.1 < cols
  {
  }

  /** One generation turns the vertical blinker horizontal. */
  lemma BlinkerTurns(rows: nat, cols: nat)
    requires 4 <= rows && 3 <= cols
    ensures Step(Seeded(rows, cols, Blinker), rows, cols) == Seeded(rows, cols, BlinkerTurned)
  {
    var before, after := Seeded(rows, cols, Blinker), Seeded(rows, cols, BlinkerTurned);
    BlinkersOnGrid(rows, cols);
    forall i, j | 0 <= i < rows && 0 <= j < cols
      ensures Step(before, rows, cols)[i][j] == after[i][j]
    {
      SeededStepAt(rows, cols, Blinker, i, j);
      SeededStepAt(rows, cols, BlinkerTurned, i, j);
      BlinkerRule(i, j);
    }
    SameCells(Step(before, rows, cols), after, rows, cols);
  }

  /** One more generation turns it back: the blinker has period 2. */
  lemma BlinkerTurnsBack(rows: nat, cols: nat)
    requires 4 <= rows && 3 <= cols
    ensures Step(Seeded(rows, cols, BlinkerTurned), rows, cols) == Seeded(rows, cols, Blinker)
  {
    var before, after := Seeded(rows, cols, BlinkerTurned), Seeded(rows, cols, Blinker);
    BlinkersOnGrid(rows, cols);
    forall i, j | 0 <= i < rows && 0 <= j < cols
      ensures Step(before, rows, cols)[i][j] == after[i][j]
    {
      SeededStepAt(rows, cols, BlinkerTurned, i, j);
      SeededStepAt(rows, cols, Blinker, i, j);
      BlinkerTurnedRule(i, j);
    }
    SameCells(Step(before, rows, cols), after, rows, cols);
  }
}
