/**
 The board of the Game of Life: a fixed-size grid of cells on a torus, and the
 editing operations that change single cells (toggle_cell, set_cell) or replace
 the whole board (clear_board).

 A board has two forms here. `Grid` is its value, a sequence of rows, used by
 the specification functions and lemmas. The live board that the program
 edits in place is an `array2<bool>`; `View` reads its value.
 */
module Board {

  /** A board's value: `g[r][c]` is true when the cell in row r, column c is alive. */
  type Grid = seq<seq<bool>>

  /** `g` has at least one row and one column, and all rows have the same length. */
  predicate Valid(g: Grid)
  {
    |g| > 0 && |g[0]| > 0 && forall r | 0 <= r < |g| :: |g[r]| == |g[0]|
  }

  /** `g` is a valid board of exactly `rows` x `cols` cells. */
  predicate HasShape(g: Grid, rows: int, cols: int)
  {
    Valid(g) && |g| == rows && |g[0]| == cols
  }

  /**
   Coordinate normalisation on the torus: a row (column) index is taken modulo
   the number of rows (columns). A positive modulus gives a result in [0, n),
   for negative `k` too, and leaves an index that is already in range alone.
   One step past either edge lands on the opposite edge.
   */
  function Wrap(k: int, n: int): (r: int)
    requires n > 0
    ensures 0 <= r < n
    ensures 0 <= k < n ==> r == k
    ensures k == n ==> r == 0
    ensures k == -1 ==> r == n - 1
  {
    k % n
  }

  /** Shifting an index by whole turns of the torus does not move it. */
  lemma WrapTurns(k: int, m: int, n: int)
    requires n > 0
    ensures Wrap(k + m * n, n) == Wrap(k, n)
  {
    var q, r := (k + m * n) / n, (k + m * n) % n;
    var q', r' := k / n, k % n;
    assert k + m * n == q * n + r;
    assert k == q' * n + r';
    assert (q - q' - m) * n == r' - r by {
      assert (q - q' - m) * n == q * n - q' * n - m * n;
    }
    MultipleInOpenInterval(q - q' - m, n, r' - r);
  }

  /** The only multiple of `n` strictly between `-n` and `n` is 0. */
  lemma MultipleInOpenInterval(d: int, n: int, x: int)
    requires n > 0 && d * n == x && -n < x < n
    ensures d == 0
  {
  }

  /**
   The value of the live board `a`: a grid with the same dimensions holding
   the same cells.
   */
  function View(a: array2<bool>): (g: Grid)
    reads a
    ensures |g| == a.Length0
    ensures forall r | 0 <= r < a.Length0 :: |g[r]| == a.Length1
    ensures forall r, c {:trigger g[r][c]} | 0 <= r < a.Length0 && 0 <= c < a.Length1 :: g[r][c] == a[r, c]
    ensures a.Length0 > 0 && a.Length1 > 0 ==> HasShape(g, a.Length0, a.Length1)
  {
    seq(a.Length0, r requires 0 <= r < a.Length0 reads a =>
      seq(a.Length1, c requires 0 <= c < a.Length1 reads a => a[r, c]))
  }

  /** clear_board: a fresh `rows` x `cols` board on which every cell is dead. */
  function ClearBoard(rows: nat, cols: nat): (g: Grid)
    ensures |g| == rows
    ensures forall r | 0 <= r < rows :: |g[r]| == cols
    ensures forall r, c {:trigger g[r][c]} | 0 <= r < rows && 0 <= c < cols :: !g[r][c]
    ensures rows > 0 && cols > 0 ==> HasShape(g, rows, cols)
  {
    seq(rows, _ => seq(cols, _ => false))
  }

  /**
   The board after toggle_cell(row, col): the one cell at the normalised
   coordinate is flipped and every other cell keeps its state.
   */
  function Toggled(g: Grid, row: int, col: int): (t: Grid)
    requires Valid(g)
    ensures HasShape(t, |g|, |g[0]|)
    ensures forall r, c {:trigger t[r][c]} | 0 <= r < |g| && 0 <= c < |g[0]| ::
      t[r][c] == if r == Wrap(row, |g|) && c == Wrap(col, |g[0]|) then !g[r][c] else g[r][c]
  {
    var i, j := Wrap(row, |g|), Wrap(col, |g[0]|);
    g[i := g[i][j := !g[i][j]]]
  }

  /**
   The board after set_cell(row, col, state): the cell at the normalised
   coordinate holds `state` and every other cell keeps its state.
   */
  function WithCell(g: Grid, row: int, col: int, state: bool): (t: Grid)
    requires Valid(g)
    ensures HasShape(t, |g|, |g[0]|)
    ensures forall r, c {:trigger t[r][c]} | 0 <= r < |g| && 0 <= c < |g[0]| ::
      t[r][c] == if r == Wrap(row, |g|) && c == Wrap(col, |g[0]|) then state else g[r][c]
  {
    var i, j := Wrap(row, |g|), Wrap(col, |g[0]|);
    g[i := g[i][j := state]]
  }

  /** Two boards of the same shape that agree on every cell are equal. */
  lemma {:induction false} SameCells(g: Grid, h: Grid)
    requires Valid(g) && HasShape(h, |g|, |g[0]|)
    requires forall r, c | 0 <= r < |g| && 0 <= c < |g[0]| :: g[r][c] == h[r][c]
    ensures g == h
  {
    forall r | 0 <= r < |g| ensures g[r] == h[r] {
      assert |g[r]| == |h[r]|;
    }
  }

  /** Toggling the same coordinate twice restores the board. */
  lemma ToggleTwice(g: Grid, row: int, col: int)
    requires Valid(g)
    ensures Toggled(Toggled(g, row, col), row, col) == g
  {
    SameCells(Toggled(Toggled(g, row, col), row, col), g);
  }

  /** Toggles at two coordinates can be applied in either order. */
  lemma ToggleCommutes(g: Grid, row1: int, col1: int, row2: int, col2: int)
    requires Valid(g)
    ensures Toggled(Toggled(g, row1, col1), row2, col2) == Toggled(Toggled(g, row2, col2), row1, col1)
  {
    SameCells(Toggled(Toggled(g, row1, col1), row2, col2), Toggled(Toggled(g, row2, col2), row1, col1));
  }

  /** A toggle is a set to the opposite of the cell's current state. */
  lemma ToggleIsSetToOpposite(g: Grid, row: int, col: int)
    requires Valid(g)
    ensures Toggled(g, row, col) == WithCell(g, row, col, !g[Wrap(row, |g|)][Wrap(col, |g[0]|)])
  {
  }

  /** Setting a cell a second time to the same state changes nothing. */
  lemma SetIdempotent(g: Grid, row: int, col: int, state: bool)
    requires Valid(g)
    ensures WithCell(WithCell(g, row, col, state), row, col, state) == WithCell(g, row, col, state)
  {
    SameCells(WithCell(WithCell(g, row, col, state), row, col, state), WithCell(g, row, col, state));
  }

  /** Setting a cell to the state it already has changes nothing. */
  lemma SetToCurrentIsIdentity(g: Grid, row: int, col: int)
    requires Valid(g)
    ensures WithCell(g, row, col, g[Wrap(row, |g|)][Wrap(col, |g[0]|)]) == g
  {
    SameCells(WithCell(g, row, col, g[Wrap(row, |g|)][Wrap(col, |g[0]|)]), g);
  }

  /**
   Coordinates that differ by whole turns of the torus, in either direction,
   have the same effect.
   */
  lemma SetCongruent(g: Grid, row: int, col: int, m: int, n: int, state: bool)
    requires Valid(g)
    ensures WithCell(g, row + m * |g|, col + n * |g[0]|, state) == WithCell(g, row, col, state)
  {
    WrapTurns(row, m, |g|);
    WrapTurns(col, n, |g[0]|);
  }

  /** The row index equal to the row count addresses row 0. */
  lemma SetAtRowCount(g: Grid, state: bool)
    requires Valid(g)
    ensures WithCell(g, |g|, 0, state) == WithCell(g, 0, 0, state)
  {
  }

  /** The same as `SetCongruent`, for toggling. */
  lemma ToggleCongruent(g: Grid, row: int, col: int, m: int, n: int)
    requires Valid(g)
    ensures Toggled(g, row + m * |g|, col + n * |g[0]|) == Toggled(g, row, col)
  {
    WrapTurns(row, m, |g|);
    WrapTurns(col, n, |g[0]|);
  }

  /** toggle_cell: flips, in place, the cell of `board` at the normalised coordinate. */
  method ToggleCell(board: array2<bool>, row: int, col: int)
    requires board.Length0 > 0 && board.Length1 > 0
    modifies board
    ensures View(board) == Toggled(old(View(board)), row, col)
  {
    var i := row % board.Length0;
    var j := col % board.Length1;
    board[i, j] := !board[i, j];
    SameCells(View(board), Toggled(old(View(board)), row, col));
  }

  /** set_cell: stores `state`, in place, in the cell of `board` at the normalised coordinate. */
  method SetCell(board: array2<bool>, row: int, col: int, state: bool)
    requires board.Length0 > 0 && board.Length1 > 0
    modifies board
    ensures View(board) == WithCell(old(View(board)), row, col, state)
  {
    var i := row % board.Length0;
    var j := col % board.Length1;
    board[i, j] := state;
    SameCells(View(board), WithCell(old(View(board)), row, col, state));
  }

  /** Toggling the same cell twice in place leaves the live board as it was. */
  method ToggleCellTwice(board: array2<bool>, row: int, col: int)
    requires board.Length0 > 0 && board.Length1 > 0
    modifies board
    ensures View(board) == old(View(board))
  {
    ToggleCell(board, row, col);
    ToggleCell(board, row, col);
    ToggleTwice(old(View(board)), row, col);
  }
}
