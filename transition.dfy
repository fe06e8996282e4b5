/** The Game of Life transition: bounded Moore-neighbourhood counting, the
    B3/S23 rule as `apply_rules` writes it, and the next generation as a pure
    function of the current one. */
module Transition {
  import opened Grid

  datatype Option<T> = None | Some(value: T)

  /** The eight offsets of the Moore neighbourhood, in the order the program
      tests them: the row above, the two sides, the row below. */
  const Moore: seq<(int, int)> :=
    [(-1, -1), (-1, 0), (-1, 1), (0, -1), (0, 1), (1, -1), (1, 0), (1, 1)]

  /** 1 when (i, j) lies on the grid and holds Alive; an off-grid position
      counts as dead and is never indexed. */
  function AliveAt(g: seq<seq<int>>, rows: nat, cols: nat, i: int, j: int): (k: nat)
    requires IsGrid(g, rows, cols)
    ensures k <= 1
    ensures k == 1 <==> 0 <= i < rows && 0 <= j < cols && g[i][j] == Alive
  {
    if 0 <= i < rows && 0 <= j < cols && g[i][j] == Alive then 1 else 0
  }

  /** Live cells among the positions (r, c) + offsets[m] for k <= m < |offsets|. */
  function CountAlive(g: seq<seq<int>>, rows: nat, cols: nat, r: int, c: int, offsets: seq<(int, int)>, k: nat): (n: nat)
    requires IsGrid(g, rows, cols) && k <= |offsets|
    ensures n <= |offsets| - k
    decreases |offsets| - k
  {
    if k == |offsets| then 0
    else AliveAt(g, rows, cols, r + offsets[k].0, c + offsets[k].1) + CountAlive(g, rows, cols, r, c, offsets, k + 1)
  }

  /** Live cells in the bounded Moore neighbourhood of (r, c). */
  function LiveNeighbors(g: seq<seq<int>>, rows: nat, cols: nat, r: int, c: int): (n: nat)
    requires IsGrid(g, rows, cols)
    ensures n <= 8
  {
    CountAlive(g, rows, cols, r, c, Moore, 0)
  }

  /** The neighbour count is the sum of the eight guarded tests of `count_neighbors`. */
  lemma NeighborsUnrolled(g: seq<seq<int>>, rows: nat, cols: nat, r: int, c: int)
    requires IsGrid(g, rows, cols)
    ensures LiveNeighbors(g, rows, cols, r, c) ==
      AliveAt(g, rows, cols, r - 1, c - 1) + AliveAt(g, rows, cols, r - 1, c) + AliveAt(g, rows, cols, r - 1, c + 1)
      + AliveAt(g, rows, cols, r, c - 1) + AliveAt(g, rows, cols, r, c + 1)
      + AliveAt(g, rows, cols, r + 1, c - 1) + AliveAt(g, rows, cols, r + 1, c) + AliveAt(g, rows, cols, r + 1, c + 1)
  {
    assert CountAlive(g, rows, cols, r, c, Moore, 8) == 0;
    assert CountAlive(g, rows, cols, r, c, Moore, 7) == AliveAt(g, rows, cols, r + 1, c + 1);
    assert CountAlive(g, rows, cols, r, c, Moore, 6) == AliveAt(g, rows, cols, r + 1, c) + CountAlive(g, rows, cols, r, c, Moore, 7);
    assert CountAlive(g, rows, cols, r, c, Moore, 5) == AliveAt(g, rows, cols, r + 1, c - 1) + CountAlive(g, rows, cols, r, c, Moore, 6);
    assert CountAlive(g, rows, cols, r, c, Moore, 4) == AliveAt(g, rows, cols, r, c + 1) + CountAlive(g, rows, cols, r, c, Moore, 5);
    assert CountAlive(g, rows, cols, r, c, Moore, 3) == AliveAt(g, rows, cols, r, c - 1) + CountAlive(g, rows, cols, r, c, Moore, 4);
    assert CountAlive(g, rows, cols, r, c, Moore, 2) == AliveAt(g, rows, cols, r - 1, c + 1) + CountAlive(g, rows, cols, r, c, Moore, 3);
    assert CountAlive(g, rows, cols, r, c, Moore, 1) == AliveAt(g, rows, cols, r - 1, c) + CountAlive(g, rows, cols, r, c, Moore, 2);
  }

  /** For an on-grid cell the one-sided guards of `count_neighbors` decide
      exactly the on-grid positions: each guarded test is the AliveAt term. */
  lemma GuardedTests(g: seq<seq<int>>, rows: nat, cols: nat, r: int, c: int)
    requires IsGrid(g, rows, cols) && 0 <= r < rows && 0 <= c < cols
    ensures AliveAt(g, rows, cols, r - 1, c - 1) == if r - 1 >= 0 && c - 1 >= 0 && g[r - 1][c - 1] == Alive then 1 else 0
    ensures AliveAt(g, rows, cols, r - 1, c) == if r - 1 >= 0 && g[r - 1][c] == Alive then 1 else 0
    ensures AliveAt(g, rows, cols, r - 1, c + 1) == if r - 1 >= 0 && c + 1 < cols && g[r - 1][c + 1] == Alive then 1 else 0
    ensures AliveAt(g, rows, cols, r, c - 1) == if c - 1 >= 0 && g[r][c - 1] == Alive then 1 else 0
    ensures AliveAt(g, rows, cols, r, c + 1) == if c + 1 < cols && g[r][c + 1] == Alive then 1 else 0
    ensures AliveAt(g, rows, cols, r + 1, c - 1) == if r + 1 < rows && c - 1 >= 0 && g[r + 1][c - 1] == Alive then 1 else 0
    ensures AliveAt(g, rows, cols, r + 1, c) == if r + 1 < rows && g[r + 1][c] == Alive then 1 else 0
    ensures AliveAt(g, rows, cols, r + 1, c + 1) == if r + 1 < rows && c + 1 < cols && g[r + 1][c + 1] == Alive then 1 else 0
  {
  }

  /** Number of indices among i - 1, i, i + 1 that lie in [0, n). */
  function Span(i: int, n: nat): (k: nat)
    requires 0 <= i < n
    ensures 1 <= k <= 3
    ensures k == 3 <==> 0 < i < n - 1
  {
    (if i - 1 >= 0 then 1 else 0) + 1 + (if i + 1 < n then 1 else 0)
  }

  /** Only on-grid neighbours are counted: at most Span(r) * Span(c) - 1 of them. */
  lemma NeighborBound(g: seq<seq<int>>, rows: nat, cols: nat, r: int, c: int)
    requires IsGrid(g, rows, cols) && 0 <= r < rows && 0 <= c < cols
    ensures LiveNeighbors(g, rows, cols, r, c) <= Span(r, rows) * Span(c, cols) - 1
  {
    NeighborsUnrolled(g, rows, cols, r, c);
    var up, down := (if r - 1 >= 0 then 1 else 0), (if r + 1 < rows then 1 else 0);
    var left, right := (if c - 1 >= 0 then 1 else 0), (if c + 1 < cols then 1 else 0);
    assert AliveAt(g, rows, cols, r - 1, c - 1) <= up * left;
    assert AliveAt(g, rows, cols, r - 1, c) <= up;
    assert AliveAt(g, rows, cols, r - 1, c + 1) <= up * right;
    assert AliveAt(g, rows, cols, r, c - 1) <= left;
    assert AliveAt(g, rows, cols, r, c + 1) <= right;
    assert AliveAt(g, rows, cols, r + 1, c - 1) <= down * left;
    assert AliveAt(g, rows, cols, r + 1, c) <= down;
    assert AliveAt(g, rows, cols, r + 1, c + 1) <= down * right;
    assert Span(r, rows) == up + 1 + down && Span(c, cols) == left + 1 + right;
    SpanProduct(up, down, left, right);
  }

  /** On a grid of live cells the bound is reached: every on-grid neighbour is counted. */
  lemma FullNeighborhood(rows: nat, cols: nat, r: int, c: int)
    requires 0 <= r < rows && 0 <= c < cols
    ensures LiveNeighbors(Filled(rows, cols, Alive), rows, cols, r, c) == Span(r, rows) * Span(c, cols) - 1
  {
    var g := Filled(rows, cols, Alive);
    NeighborsUnrolled(g, rows, cols, r, c);
    var up, down := (if r - 1 >= 0 then 1 else 0), (if r + 1 < rows then 1 else 0);
    var left, right := (if c - 1 >= 0 then 1 else 0), (if c + 1 < cols then 1 else 0);
    assert AliveAt(g, rows, cols, r - 1, c - 1) == up * left;
    assert AliveAt(g, rows, cols, r - 1, c) == up;
    assert AliveAt(g, rows, cols, r - 1, c + 1) == up * right;
    assert AliveAt(g, rows, cols, r, c - 1) == left;
    assert AliveAt(g, rows, cols, r, c + 1) == right;
    assert AliveAt(g, rows, cols, r + 1, c - 1) == down * left;
    assert AliveAt(g, rows, cols, r + 1, c) == down;
    assert AliveAt(g, rows, cols, r + 1, c + 1) == down * right;
    assert Span(r, rows) == up + 1 + down && Span(c, cols) == left + 1 + right;
    SpanProduct(up, down, left, right);
  }

  /** The product of two spans, expanded into the nine cells of the box. */
  lemma SpanProduct(up: int, down: int, left: int, right: int)
    ensures (up + 1 + down) * (left + 1 + right) - 1 ==
      up * left + up + up * right + left + right + down * left + down + down * right
  {
  }

  /** A corner cell has at most 3 live neighbours. */
  lemma CornerNeighbors(g: seq<seq<int>>, rows: nat, cols: nat, r: int, c: int)
    requires IsGrid(g, rows, cols) && 0 <= r < rows && 0 <= c < cols
    requires (r == 0 || r == rows - 1) && (c == 0 || c == cols - 1)
    ensures LiveNeighbors(g, rows, cols, r, c) <= 3
  {
    NeighborBound(g, rows, cols, r, c);
  }

  /** A cell on the border has at most 5 live neighbours. */
  lemma EdgeNeighbors(g: seq<seq<int>>, rows: nat, cols: nat, r: int, c: int)
    requires IsGrid(g, rows, cols) && 0 <= r < rows && 0 <= c < cols
    requires r == 0 || r == rows - 1 || c == 0 || c == cols - 1
    ensures LiveNeighbors(g, rows, cols, r, c) <= 5
  {
    NeighborBound(g, rows, cols, r, c);
  }

  /** What `apply_rules` stores into the next buffer for a cell holding `v`
      with `n` live neighbours, or None when it stores nothing there. */
  function Written(v: int, n: nat): (w: Option<int>)
    ensures w.None? <==> v != Alive && !(v == Dead && n == 3)
    ensures w.Some? ==> (w.value == Alive <==> n == 3 || (v == Alive && n == 2))
    ensures w.Some? ==> w.value == Dead || w.value == Alive
  {
    if v == Alive then
      if n < 2 then Some(Dead)
      else if n == 2 || n == 3 then Some(Alive)
      else Some(Dead)  // n > 3
    else if v == Dead then
      if n == 3 then Some(Alive) else None
    else None
  }

  /** The state of a cell in the next generation (B3/S23), the next buffer
      having started out dead. */
  function NextState(v: int, n: nat): (s: int)
    ensures s == Dead || s == Alive
    ensures s == Alive <==> (v == Alive && (n == 2 || n == 3)) || (v == Dead && n == 3)
  {
    match Written(v, n)
    case Some(w) => w
    case None => Dead
  }

  /** The next generation of `g`. */
  function Step(g: seq<seq<int>>, rows: nat, cols: nat): (h: seq<seq<int>>)
    requires IsGrid(g, rows, cols)
    ensures IsGrid(h, rows, cols)
    ensures forall i, j :: 0 <= i < rows && 0 <= j < cols ==> h[i][j] == Dead || h[i][j] == Alive
  {
    seq(rows, i requires 0 <= i < rows =>
      seq(cols, j requires 0 <= j < cols => NextState(g[i][j], LiveNeighbors(g, rows, cols, i, j))))
  }

  /** The next buffer after `apply_rules` has run on every cell of `g`, the
      buffer having held `pending` before: cells the rule does not write keep
      their old value. */
  function RulePass(g: seq<seq<int>>, pending: seq<seq<int>>, rows: nat, cols: nat): (h: seq<seq<int>>)
    requires IsGrid(g, rows, cols) && IsGrid(pending, rows, cols)
    ensures IsGrid(h, rows, cols)
  {
    seq(rows, i requires 0 <= i < rows =>
      seq(cols, j requires 0 <= j < cols =>
        match Written(g[i][j], LiveNeighbors(g, rows, cols, i, j))
        case Some(w) => w
        case None => pending[i][j]))
  }

  /** Starting from a dead next buffer, the rule pass computes exactly the next generation. */
  lemma RulePassFromDead(g: seq<seq<int>>, rows: nat, cols: nat)
    requires IsGrid(g, rows, cols)
    ensures RulePass(g, Filled(rows, cols, Dead), rows, cols) == Step(g, rows, cols)
  {
    SameCells(RulePass(g, Filled(rows, cols, Dead), rows, cols), Step(g, rows, cols), rows, cols);
  }

  /** A stale live cell in the next buffer survives the rule pass wherever the
      rule writes nothing, so the pass differs from the next generation there. */
  lemma StaleCellLeaks(g: seq<seq<int>>, pending: seq<seq<int>>, rows: nat, cols: nat, i: nat, j: nat)
    requires IsGrid(g, rows, cols) && IsGrid(pending, rows, cols) && i < rows && j < cols
    requires g[i][j] == Dead && LiveNeighbors(g, rows, cols, i, j) != 3 && pending[i][j] == Alive
    ensures RulePass(g, pending, rows, cols)[i][j] == Alive != Step(g, rows, cols)[i][j]
  {
  }

  /** The empty grid is stable. */
  lemma EmptyStaysEmpty(rows: nat, cols: nat)
    ensures Step(Filled(rows, cols, Dead), rows, cols) == Filled(rows, cols, Dead)
  {
    var e := Filled(rows, cols, Dead);
    forall i, j | 0 <= i < rows && 0 <= j < cols
      ensures Step(e, rows, cols)[i][j] == Dead
    {
      NeighborsUnrolled(e, rows, cols, i, j);
    }
    SameCells(Step(e, rows, cols), e, rows, cols);
  }
}
