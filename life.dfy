/** The program's grid state: the current buffer `grid` and the write target
    `next_grid`, both rows × cols, and the operations that fill, seed and
    advance them. */
module GameOfLife {
  import opened Grid
  import opened Transition
  import opened Patterns

  /** The contents of a 2D array as a grid value. */
  ghost function Cells(a: array2<int>): (g: seq<seq<int>>)
    reads a
    ensures IsGrid(g, a.Length0, a.Length1)
    ensures forall i, j :: 0 <= i < a.Length0 && 0 <= j < a.Length1 ==> g[i][j] == a[i, j]
  {
    seq(a.Length0, i requires 0 <= i < a.Length0 reads a =>
      seq(a.Length1, j requires 0 <= j < a.Length1 reads a => a[i, j]))
  }

  /** An array that holds Alive on `cells` and `before` elsewhere holds `before` planted with `cells`. */
  lemma PlantedArray(a: array2<int>, before: seq<seq<int>>, rows: nat, cols: nat, cells: seq<(int, int)>)
    requires a.Length0 == rows && a.Length1 == cols && IsGrid(before, rows, cols)
    requires forall r, c :: 0 <= r < rows && 0 <= c < cols ==> a[r, c] == if (r, c) in cells then Alive else before[r][c]
    ensures Cells(a) == Plant(before, rows, cols, cells)
  {
    SameCells(Cells(a), Plant(before, rows, cols, cells), rows, cols);
  }

  class Life {
    const rows: nat
    const cols: nat
    /** The current generation. */
    const grid: array2<int>
    /** The buffer the rule writes the next generation into. */
    const next: array2<int>

    /** Both buffers are rows × cols and distinct. */
    ghost predicate Shaped()
    {
      0 < rows && 0 < cols
      && grid.Length0 == rows && grid.Length1 == cols
      && next.Length0 == rows && next.Length1 == cols
      && grid != next
    }

    ghost function Current(): (g: seq<seq<int>>)
      reads grid
      requires Shaped()
      ensures IsGrid(g, rows, cols)
    {
      Cells(grid)
    }

    ghost function Pending(): (g: seq<seq<int>>)
      reads next
      requires Shaped()
      ensures IsGrid(g, rows, cols)
    {
      Cells(next)
    }

    /** Between generations the next buffer is entirely dead. */
    ghost predicate Valid()
      reads next
    {
      Shaped() && Pending() == Filled(rows, cols, Dead)
    }

    /** `initialize_grids`: both buffers rows × cols, every cell dead. */
    constructor (rows: nat, cols: nat)
      requires 0 < rows && 0 < cols
      ensures this.rows == rows && this.cols == cols
      ensures fresh(grid) && fresh(next)
      ensures Valid() && Current() == Filled(rows, cols, Dead)
    {
      var g := new int[rows, cols];
      var n := new int[rows, cols];
      var i := 0;
      while i < rows
        invariant 0 <= i <= rows
        invariant forall r, c :: 0 <= r < i && 0 <= c < cols ==> g[r, c] == Dead && n[r, c] == Dead
      {
        var j := 0;
        while j < cols
          invariant 0 <= j <= cols
          invariant forall r, c :: 0 <= r < i && 0 <= c < cols ==> g[r, c] == Dead && n[r, c] == Dead
          invariant forall c :: 0 <= c < j ==> g[i, c] == Dead && n[i, c] == Dead
        {
          g[i, j] := Dead;
          n[i, j] := Dead;
          j := j + 1;
        }
        i := i + 1;
      }
      this.rows, this.cols := rows, cols;
      grid, next := g, n;
      new;
      SameCells(Cells(g), Filled(rows, cols, Dead), rows, cols);
      SameCells(Cells(n), Filled(rows, cols, Dead), rows, cols);
    }

    /** `copy_and_reset_grid`: the current buffer takes the next buffer's
        cells and the next buffer is cleared. */
    method CopyAndReset()
      requires Shaped()
      modifies grid, next
      ensures Current() == old(Pending())
      ensures Valid()
    {
      ghost var pending := Pending();
      var i := 0;
      while i < rows
        invariant 0 <= i <= rows
        invariant forall r, c :: 0 <= r < i && 0 <= c < cols ==> grid[r, c] == pending[r][c] && next[r, c] == Dead
        invariant forall r, c :: i <= r < rows && 0 <= c < cols ==> next[r, c] == pending[r][c]
      {
        var j := 0;
        while j < cols
          invariant 0 <= j <= cols
          invariant forall r, c :: 0 <= r < i && 0 <= c < cols ==> grid[r, c] == pending[r][c] && next[r, c] == Dead
          invariant forall c :: 0 <= c < j ==> grid[i, c] == pending[i][c] && next[i, c] == Dead
          invariant forall r, c :: i <= r < rows && 0 <= c < cols && (r > i || c >= j) ==> next[r, c] == pending[r][c]
        {
          grid[i, j] := next[i, j];
          next[i, j] := Dead;
          j := j + 1;
        }
        i := i + 1;
      }
      SameCells(Current(), pending, rows, cols);
      SameCells(Pending(), Filled(rows, cols, Dead), rows, cols);
    }

    /** `count_neighbors`: the eight guarded tests of the Moore neighbourhood,
        never indexing off the grid. */
    method CountNeighbors(row: nat, col: nat) returns (count: nat)
      requires Shaped() && row < rows && col < cols
      ensures count == LiveNeighbors(Current(), rows, cols, row, col)
    {
      ghost var g := Current();
      NeighborsUnrolled(g, rows, cols, row, col);
      count := 0;
      if row >= 1 && col >= 1 {
        if grid[row - 1, col - 1] == Alive { count := count + 1; }
      }
      assert count == AliveAt(g, rows, cols, row - 1, col - 1);
      ghost var sum := count;
      if row >= 1 {
        if grid[row - 1, col] == Alive { count := count + 1; }
      }
      assert count == sum + AliveAt(g, rows, cols, row - 1, col);
      sum := count;
      if row >= 1 && col + 1 < cols {
        if grid[row - 1, col + 1] == Alive { count := count + 1; }
      }
      assert count == sum + AliveAt(g, rows, cols, row - 1, col + 1);
      sum := count;
      if col >= 1 {
        if grid[row, col - 1] == Alive { count := count + 1; }
      }
      assert count == sum + AliveAt(g, rows, cols, row, col - 1);
      sum := count;
      if col + 1 < cols {
        if grid[row, col + 1] == Alive { count := count + 1; }
      }
      assert count == sum + AliveAt(g, rows, cols, row, col + 1);
      sum := count;
      if row + 1 < rows && col >= 1 {
        if grid[row + 1, col - 1] == Alive { count := count + 1; }
      }
      assert count == sum + AliveAt(g, rows, cols, row + 1, col - 1);
      sum := count;
      if row + 1 < rows {
        if grid[row + 1, col] == Alive { count := count + 1; }
      }
      assert count == sum + AliveAt(g, rows, cols, row + 1, col);
      sum := count;
      if row + 1 < rows && col + 1 < cols {
        if grid[row + 1, col + 1] == Alive { count := count + 1; }
      }
      assert count == sum + AliveAt(g, rows, cols, row + 1, col + 1);
    }

    /** `apply_rules`: writes the rule's outcome for (row, col) into the next
        buffer, or leaves that cell alone when the rule writes nothing; no
        other cell of either buffer changes. */
    method ApplyRules(row: nat, col: nat)
      requires Shaped() && row < rows && col < cols
      modifies next
      ensures next[row, col] ==
        match Written(grid[row, col], LiveNeighbors(Current(), rows, cols, row, col))
        case Some(w) => w
        case None => old(next[row, col])
      ensures forall i, j :: 0 <= i < rows && 0 <= j < cols && (i != row || j != col) ==> next[i, j] == old(next[i, j])
    {
      var n := CountNeighbors(row, col);
      if grid[row, col] == Alive {
        if n < 2 {
          next[row, col] := Dead;
        } else if n == 2 || n == 3 {
          next[row, col] := Alive;
        } else {  // n > 3
          next[row, col] := Dead;
        }
      } else if grid[row, col] == Dead {
        if n == 3 {
          next[row, col] := Alive;
        }
      }
    }

    /** `compute_next_gen`: the rule over every cell, then the commit. The
        current buffer becomes the rule pass over the old buffers, which is
        the next generation when the next buffer started out dead. */
    method ComputeNextGen()
      requires Shaped()
      modifies grid, next
      ensures Current() == RulePass(old(Current()), old(Pending()), rows, cols)
      ensures old(Valid()) ==> Current() == Step(old(Current()), rows, cols)
      ensures Valid()
    {
      ghost var current, pending := Current(), Pending();
      ghost var target := RulePass(current, pending, rows, cols);
      var i := 0;
      while i < rows
        invariant 0 <= i <= rows
        invariant Current() == current
        invariant forall r, c :: 0 <= r < i && 0 <= c < cols ==> next[r, c] == target[r][c]
        invariant forall r, c :: i <= r < rows && 0 <= c < cols ==> next[r, c] == pending[r][c]
      {
        var j := 0;
        while j < cols
          invariant 0 <= j <= cols
          invariant Current() == current
          invariant forall r, c :: 0 <= r < i && 0 <= c < cols ==> next[r, c] == target[r][c]
          invariant forall c :: 0 <= c < j ==> next[i, c] == target[i][c]
          invariant forall r, c :: i <= r < rows && 0 <= c < cols && (r > i || c >= j) ==> next[r, c] == pending[r][c]
        {
          ApplyRules(i, j);
          j := j + 1;
        }
        assert forall r, c :: 0 <= r <= i && 0 <= c < cols ==> next[r, c] == target[r][c] by {
          forall r, c | 0 <= r <= i && 0 <= c < cols
            ensures next[r, c] == target[r][c]
          {
            if r == i {
              assert 0 <= c < cols;
            }
          }
        }
        i := i + 1;
      }
      SameCells(Pending(), target, rows, cols);
      CopyAndReset();
      if old(Valid()) {
        RulePassFromDead(current, rows, cols);
      }
    }

    /** `seed_test_grid`: plants the vertical blinker at (1, 1), (2, 1), (3, 1). */
    method SeedTest()
      requires Shaped() && 4 <= rows && 2 <= cols
      modifies grid
      ensures Current() == Plant(old(Current()), rows, cols, Blinker)
    {
      ghost var before := Current();
      grid[1, 1] := Alive;
      grid[2, 1] := Alive;
      grid[3, 1] := Alive;
      assert forall r, c :: 0 <= r < rows && 0 <= c < cols ==>
        grid[r, c] == if (r, c) in Blinker then Alive else before[r][c];
      PlantedArray(grid, before, rows, cols, Blinker);
    }

    /** The placement step of `seed_glider_grid`: the glider's five cells
        set alive at the anchor (row, col). */
    method SeedGlider(row: nat, col: nat)
      requires Shaped() && row + 3 <= rows && col + 3 <= cols
      modifies grid
      ensures Current() == Plant(old(Current()), rows, cols, GliderAt(row, col))
    {
      ghost var before := Current();
      ghost var cells := GliderAt(row, col);
      GliderInBox();
      for k := 0 to |Glider|
        invariant forall r, c :: 0 <= r < rows && 0 <= c < cols ==>
          grid[r, c] == if Covers(cells, k, r, c) then Alive else before[r][c]
      {
        var r0, c0 := row + Glider[k].0, col + Glider[k].1;
        assert cells[k] == (r0, c0);
        grid[r0, c0] := Alive;
        forall r, c | 0 <= r < rows && 0 <= c < cols
          ensures grid[r, c] == if Covers(cells, k + 1, r, c) then Alive else before[r][c]
        {
          assert Covers(cells, k + 1, r, c) <==> (r, c) == (r0, c0) || Covers(cells, k, r, c);
        }
      }
      CoversAll(cells);
      PlantedArray(grid, before, rows, cols, cells);
    }
  }

  /** The program's test run: a fresh grid seeded with the blinker, advanced
      twice, shows it horizontal after one generation and vertical again after two. */
  method BlinkerRun(rows: nat, cols: nat) returns (life: Life)
    requires 4 <= rows && 3 <= cols
    ensures life.Shaped() && life.rows == rows && life.cols == cols
    ensures life.Valid() && life.Current() == Seeded(rows, cols, Blinker)
  {
    life := new Life(rows, cols);
    life.SeedTest();
    assert life.Current() == Seeded(rows, cols, Blinker);
    assert life.Valid();
    life.ComputeNextGen();
    BlinkerTurns(rows, cols);
    assert life.Current() == Seeded(rows, cols, BlinkerTurned);
    life.ComputeNextGen();
    BlinkerTurnsBack(rows, cols);
  }
}
