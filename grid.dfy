/** Grid values: a rectangular rows × cols table of cell states, as held by
    the `grid` and `next_grid` lists of lists of the Game of Life program. */
module Grid {

  /** The two cell states the program writes. */
  const Dead: int := 0
  const Alive: int := 1

  /** `g` has exactly `rows` rows, each of exactly `cols` cells. */
  ghost predicate IsGrid(g: seq<seq<int>>, rows: nat, cols: nat)
  {
    |g| == rows && forall i :: 0 <= i < rows ==> |g[i]| == cols
  }

  /** A grid whose every cell holds `v`. */
  function Filled(rows: nat, cols: nat, v: int): (g: seq<seq<int>>)
    ensures IsGrid(g, rows, cols)
    ensures forall i, j :: 0 <= i < rows && 0 <= j < cols ==> g[i][j] == v
  {
    seq(rows, i => seq(cols, j => v))
  }

  /** `g` with every position of `cells` set to Alive and every other cell as it was. */
  function Plant(g: seq<seq<int>>, rows: nat, cols: nat, cells: seq<(int, int)>): (h: seq<seq<int>>)
    requires IsGrid(g, rows, cols)
    ensures IsGrid(h, rows, cols)
    ensures forall i, j :: 0 <= i < rows && 0 <= j < cols ==> h[i][j] == (if (i, j) in cells then Alive else g[i][j])
  {
    seq(rows, i requires 0 <= i < rows =>
      seq(cols, j requires 0 <= j < cols => if (i, j) in cells then Alive else g[i][j]))
  }

  /** Two grids of the same shape that agree on every cell are equal. */
  lemma SameCells(g: seq<seq<int>>, h: seq<seq<int>>, rows: nat, cols: nat)
    requires IsGrid(g, rows, cols) && IsGrid(h, rows, cols)
    requires forall i, j :: 0 <= i < rows && 0 <= j < cols ==> g[i][j] == h[i][j]
    ensures g == h
  {
    forall i | 0 <= i < rows
      ensures g[i] == h[i]
    {
      assert forall j :: 0 <= j < cols ==> g[i][j] == h[i][j];
    }
  }

  /** (r, c) is among the first k positions of `cells`. */
  predicate Covers(cells: seq<(int, int)>, k: nat, r: int, c: int)
    requires k <= |cells|
  {
    k > 0 && (cells[k - 1] == (r, c) || Covers(cells, k - 1, r, c))
  }

  lemma {:induction false} CoversPrefix(cells: seq<(int, int)>, k: nat, r: int, c: int)
    requires k <= |cells|
    ensures Covers(cells, k, r, c) <==> (r, c) in cells[..k]
  {
    if k > 0 {
      CoversPrefix(cells, k - 1, r, c);
      assert cells[..k] == cells[..k - 1] + [cells[k - 1]];
    }
  }

  /** Covering all of `cells` is membership in `cells`. */
  lemma CoversAll(cells: seq<(int, int)>)
    ensures forall r, c :: Covers(cells, |cells|, r, c) <==> (r, c) in cells
  {
    forall r, c
      ensures Covers(cells, |cells|, r, c) <==> (r, c) in cells
    {
      CoversPrefix(cells, |cells|, r, c);
      assert cells[..|cells|] == cells;
    }
  }
}
