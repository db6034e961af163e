/**
 The rule engine of the Game of Life on a torus: the eight neighbours of a
 cell (get_neighbors), the standard B3/S23 rule, and one generation
 (update_board), both as a specification on board values and as the
 imperative pass over the live board that fills a fresh array.
 */
module Rules {
  import opened Board

  /**
   The (row, column) offsets of the eight neighbours, in the order in which
   get_neighbors lists them.
   */
  const Offsets: seq<(int, int)> :=
    [(-1, -1), (-1, 0), (-1, 1), (0, -1), (0, 1), (1, -1), (1, 0), (1, 1)]

  /**
   The offsets are exactly the cells of the 3 x 3 block around a cell other
   than the cell itself, each listed once.
   */
  lemma OffsetsAreTheNeighbourhood()
    ensures |Offsets| == 8
    ensures forall dr, dc :: (dr, dc) in Offsets <==> -1 <= dr <= 1 && -1 <= dc <= 1 && (dr, dc) != (0, 0)
    ensures forall k, l | 0 <= k < l < |Offsets| :: Offsets[k] != Offsets[l]
  {
  }

  /**
   The coordinates get_neighbors reads for cell (i, j) of a rows x cols board:
   each is the cell shifted by one offset, wrapped onto the torus. The source
   leaves the unshifted coordinate unwrapped, which is the same index since
   (i, j) is in range.
   */
  function NeighbourPositions(rows: int, cols: int, i: int, j: int): (p: seq<(int, int)>)
    requires rows > 0 && cols > 0 && 0 <= i < rows && 0 <= j < cols
    ensures |p| == |Offsets|
  {
    [ ((i - 1) % rows, (j - 1) % cols),
      ((i - 1) % rows, j),
      ((i - 1) % rows, (j + 1) % cols),
      (i, (j - 1) % cols),
      (i, (j + 1) % cols),
      ((i + 1) % rows, (j - 1) % cols),
      ((i + 1) % rows, j),
      ((i + 1) % rows, (j + 1) % cols) ]
  }

  /**
   Each coordinate get_neighbors reads is the cell shifted by the matching
   offset and wrapped onto the torus, so it is always on the board.
   */
  lemma NeighbourPositionsWrap(rows: int, cols: int, i: int, j: int)
    requires rows > 0 && cols > 0 && 0 <= i < rows && 0 <= j < cols
    ensures forall k | 0 <= k < |Offsets| ::
      NeighbourPositions(rows, cols, i, j)[k] == (Wrap(i + Offsets[k].0, rows), Wrap(j + Offsets[k].1, cols))
    ensures forall k | 0 <= k < |Offsets| ::
      0 <= NeighbourPositions(rows, cols, i, j)[k].0 < rows && 0 <= NeighbourPositions(rows, cols, i, j)[k].1 < cols
  {
  }

  /** get_neighbors: the states of the eight neighbours of cell (i, j), in offset order. */
  function Neighbours(g: Grid, i: int, j: int): (ns: seq<bool>)
    requires Valid(g) && 0 <= i < |g| && 0 <= j < |g[0]|
    ensures |ns| == |Offsets|
  {
    var p := NeighbourPositions(|g|, |g[0]|, i, j);
    NeighbourPositionsWrap(|g|, |g[0]|, i, j);
    seq(|p|, k requires 0 <= k < |p| => g[p[k].0][p[k].1])
  }

  /** Entry k of the neighbour list is the cell at offset k, wrapped onto the torus. */
  lemma NeighboursAt(g: Grid, i: int, j: int)
    requires Valid(g) && 0 <= i < |g| && 0 <= j < |g[0]|
    ensures forall k | 0 <= k < |Offsets| ::
      Neighbours(g, i, j)[k] == g[Wrap(i + Offsets[k].0, |g|)][Wrap(j + Offsets[k].1, |g[0]|)]
  {
  }

  /** The number of true entries of `s` (numpy's sum over a list of booleans). */
  function CountLive(s: seq<bool>): (n: nat)
    ensures n <= |s|
  {
    if s == [] then 0 else (if s[0] then 1 else 0) + CountLive(s[1..])
  }

  /** The count is 0 exactly when no entry is alive. */
  lemma {:induction false} CountLiveZero(s: seq<bool>)
    ensures CountLive(s) == 0 <==> forall k | 0 <= k < |s| :: !s[k]
  {
    if s != [] {
      CountLiveZero(s[1..]);
      assert forall k | 1 <= k < |s| :: s[k] == s[1..][k - 1];
    }
  }

  /** The count is the length exactly when every entry is alive. */
  lemma {:induction false} CountLiveFull(s: seq<bool>)
    ensures CountLive(s) == |s| <==> forall k | 0 <= k < |s| :: s[k]
  {
    if s != [] {
      CountLiveFull(s[1..]);
      assert forall k | 1 <= k < |s| :: s[k] == s[1..][k - 1];
    }
  }

  /** 1 for a live cell, 0 for a dead one. */
  function Alive(b: bool): nat
  {
    if b then 1 else 0
  }

  /** The count of an eight-entry list is the sum of its entries. */
  lemma {:induction false} CountLiveEight(s: seq<bool>)
    requires |s| == 8
    ensures CountLive(s) == Alive(s[0]) + Alive(s[1]) + Alive(s[2]) + Alive(s[3])
                          + Alive(s[4]) + Alive(s[5]) + Alive(s[6]) + Alive(s[7])
  {
    assert s[1..][1..] == s[2..] && s[2..][1..] == s[3..] && s[3..][1..] == s[4..];
    assert s[4..][1..] == s[5..] && s[5..][1..] == s[6..] && s[6..][1..] == s[7..];
    assert s[7..][1..] == [];
    assert CountLive(s[7..]) == Alive(s[7]);
    assert CountLive(s[6..]) == Alive(s[6]) + CountLive(s[7..]);
    assert CountLive(s[5..]) == Alive(s[5]) + CountLive(s[6..]);
    assert CountLive(s[4..]) == Alive(s[4]) + CountLive(s[5..]);
    assert CountLive(s[3..]) == Alive(s[3]) + CountLive(s[4..]);
    assert CountLive(s[2..]) == Alive(s[2]) + CountLive(s[3..]);
    assert CountLive(s[1..]) == Alive(s[1]) + CountLive(s[2..]);
  }

  /** The number of live cells among the eight neighbours of (i, j), from 0 to 8. */
  function LiveNeighbours(g: Grid, i: int, j: int): (n: nat)
    requires Valid(g) && 0 <= i < |g| && 0 <= j < |g[0]|
    ensures n <= 8
  {
    CountLive(Neighbours(g, i, j))
  }

  /** The state of the cell at (r, c) after wrapping onto the torus, as 0 or 1. */
  function AliveAt(g: Grid, r: int, c: int): nat
    requires Valid(g)
  {
    Alive(g[Wrap(r, |g|)][Wrap(c, |g[0]|)])
  }

  /**
   An independent reading of the neighbourhood: the live cells of the 3 x 3
   block centred on (i, j), wrapped onto the torus and counted per position.
   */
  function BlockCount(g: Grid, i: int, j: int): nat
    requires Valid(g)
  {
    AliveAt(g, i - 1, j - 1) + AliveAt(g, i - 1, j) + AliveAt(g, i - 1, j + 1)
    + AliveAt(g, i, j - 1) + AliveAt(g, i, j) + AliveAt(g, i, j + 1)
    + AliveAt(g, i + 1, j - 1) + AliveAt(g, i + 1, j) + AliveAt(g, i + 1, j + 1)
  }

  /**
   The neighbour count is the 3 x 3 block count without the cell itself. The
   block is counted by position, so on a board with fewer than three rows or
   columns a cell can be counted more than once, and on a 1 x 1 board the cell
   is its own eight neighbours.
   */
  lemma LiveNeighboursIsBlockWithoutCentre(g: Grid, i: int, j: int)
    requires Valid(g) && 0 <= i < |g| && 0 <= j < |g[0]|
    ensures LiveNeighbours(g, i, j) + Alive(g[i][j]) == BlockCount(g, i, j)
  {
    CountLiveEight(Neighbours(g, i, j));
    NeighboursAt(g, i, j);
  }

  /** The index before `k` on a cycle of `n` indices: stepping back from 0 lands on the last one. */
  function Before(k: int, n: int): (b: int)
    requires 0 <= k < n
    ensures 0 <= b < n
  {
    if k == 0 then n - 1 else k - 1
  }

  /** The index after `k` on a cycle of `n` indices: stepping on from the last one lands on 0. */
  function After(k: int, n: int): (a: int)
    requires 0 <= k < n
    ensures 0 <= a < n
  {
    if k == n - 1 then 0 else k + 1
  }

  /** For an index on the board, wrapping one step back or forward is `Before` or `After`. */
  lemma AdjacentWrap(k: int, n: int)
    requires 0 <= k < n
    ensures Wrap(k - 1, n) == Before(k, n)
    ensures Wrap(k + 1, n) == After(k, n)
  {
  }

  /**
   A second reading of the neighbourhood, without modular arithmetic: the
   eight cells adjacent to (i, j), where stepping over an edge of the board
   continues on the opposite edge.
   */
  function RingCount(g: Grid, i: int, j: int): nat
    requires Valid(g) && 0 <= i < |g| && 0 <= j < |g[0]|
  {
    var up, down, left, right := Before(i, |g|), After(i, |g|), Before(j, |g[0]|), After(j, |g[0]|);
    Alive(g[up][left]) + Alive(g[up][j]) + Alive(g[up][right])
    + Alive(g[i][left]) + Alive(g[i][right])
    + Alive(g[down][left]) + Alive(g[down][j]) + Alive(g[down][right])
  }

  /** get_neighbors' count is the count of the eight adjacent cells on the torus. */
  lemma LiveNeighboursIsRing(g: Grid, i: int, j: int)
    requires Valid(g) && 0 <= i < |g| && 0 <= j < |g[0]|
    ensures LiveNeighbours(g, i, j) == RingCount(g, i, j)
  {
    LiveNeighboursIsBlockWithoutCentre(g, i, j);
    AdjacentWrap(i, |g|);
    AdjacentWrap(j, |g[0]|);
  }

  /**
   The fate of one cell in update_board, given whether it is alive and its
   live-neighbour count: the new board starts as a copy, a live cell is
   cleared when it has fewer than 2 or more than 3 live neighbours, and a dead
   cell is set when it has exactly 3. This is the standard B3/S23 rule: born
   with 3 neighbours, survives with 2 or 3.
   */
  function NextCell(alive: bool, n: nat): (next: bool)
    ensures next <==> n == 3 || (alive && n == 2)
  {
    if alive then
      if n < 2 || n > 3 then false else alive
    else
      if n == 3 then true else alive
  }

  /**
   One generation (update_board) on board values: every cell of a board of
   the same shape gets the rule applied to its state and its live-neighbour
   count on the previous generation.
   */
  function Step(g: Grid): (h: Grid)
    requires Valid(g)
    ensures HasShape(h, |g|, |g[0]|)
  {
    seq(|g|, i requires 0 <= i < |g| =>
      seq(|g[0]|, j requires 0 <= j < |g[0]| => NextCell(g[i][j], LiveNeighbours(g, i, j))))
  }

  /** Each cell of the next generation is the rule applied to the cell and its count. */
  lemma StepAt(g: Grid, i: int, j: int)
    requires Valid(g) && 0 <= i < |g| && 0 <= j < |g[0]|
    ensures Step(g)[i][j] == NextCell(g[i][j], LiveNeighbours(g, i, j))
  {
  }

  /** Survival and death: a live cell stays alive exactly when it has 2 or 3 live neighbours. */
  lemma StepSurvival(g: Grid, i: int, j: int)
    requires Valid(g) && 0 <= i < |g| && 0 <= j < |g[0]| && g[i][j]
    ensures Step(g)[i][j] <==> LiveNeighbours(g, i, j) == 2 || LiveNeighbours(g, i, j) == 3
  {
  }

  /** Birth: a dead cell becomes alive exactly when it has 3 live neighbours. */
  lemma StepBirth(g: Grid, i: int, j: int)
    requires Valid(g) && 0 <= i < |g| && 0 <= j < |g[0]| && !g[i][j]
    ensures Step(g)[i][j] <==> LiveNeighbours(g, i, j) == 3
  {
  }

  /** The board mirrored about its main diagonal: row i, column j becomes row j, column i. */
  function Transpose(g: Grid): (t: Grid)
    requires Valid(g)
    ensures HasShape(t, |g[0]|, |g|)
    ensures forall i, j {:trigger t[j][i]} | 0 <= i < |g| && 0 <= j < |g[0]| :: t[j][i] == g[i][j]
  {
    seq(|g[0]|, j requires 0 <= j < |g[0]| => seq(|g|, i requires 0 <= i < |g| => g[i][j]))
  }

  /**
   The rule has no preferred direction: mirroring the board about its
   diagonal and then computing a generation gives the mirror of the
   generation.
   */
  lemma StepTranspose(g: Grid)
    requires Valid(g)
    ensures Step(Transpose(g)) == Transpose(Step(g))
  {
    var t := Transpose(g);
    forall j, i | 0 <= j < |g[0]| && 0 <= i < |g| ensures Step(t)[j][i] == Transpose(Step(g))[j][i] {
      StepTransposeAt(g, i, j);
    }
    SameCells(Step(t), Transpose(Step(g)));
  }

  /** One cell of `StepTranspose`. */
  lemma StepTransposeAt(g: Grid, i: int, j: int)
    requires Valid(g) && 0 <= i < |g| && 0 <= j < |g[0]|
    ensures Step(Transpose(g))[j][i] == Step(g)[i][j]
  {
    TransposeNeighbours(g, i, j);
    StepAt(g, i, j);
    StepAt(Transpose(g), j, i);
  }

  /** Cell (j, i) of the mirrored board has as many live neighbours as cell (i, j) of the board. */
  lemma TransposeNeighbours(g: Grid, i: int, j: int)
    requires Valid(g) && 0 <= i < |g| && 0 <= j < |g[0]|
    ensures LiveNeighbours(Transpose(g), j, i) == LiveNeighbours(g, i, j)
  {
    var t := Transpose(g);
    LiveNeighboursIsBlockWithoutCentre(g, i, j);
    LiveNeighboursIsBlockWithoutCentre(t, j, i);
    assert BlockCount(t, j, i) == BlockCount(g, i, j);
  }

  /** An all-dead board stays all dead. */
  lemma StepClear(rows: nat, cols: nat)
    requires rows > 0 && cols > 0
    ensures Step(ClearBoard(rows, cols)) == ClearBoard(rows, cols)
  {
    var g := ClearBoard(rows, cols);
    forall i, j | 0 <= i < rows && 0 <= j < cols
      ensures LiveNeighbours(g, i, j) == 0
    {
      NeighboursAt(g, i, j);
      CountLiveZero(Neighbours(g, i, j));
    }
    forall i, j | 0 <= i < rows && 0 <= j < cols ensures Step(g)[i][j] == g[i][j] {
      StepAt(g, i, j);
    }
    SameCells(Step(g), g);
  }

  /**
   update_board: computes the next generation of the live board into a fresh
   array. The array starts as a copy of `board`; every decision reads
   `board`, which is left unchanged, and writes go to the copy only.
   */
  method UpdateBoard(board: array2<bool>) returns (next: array2<bool>)
    ensures fresh(next)
    ensures next.Length0 == board.Length0 && next.Length1 == board.Length1
    ensures board.Length0 > 0 && board.Length1 > 0 ==> View(next) == Step(View(board))
    ensures board.Length0 == 0 || board.Length1 == 0 ==> View(next) == View(board)
  {
    var rows, cols := board.Length0, board.Length1;
    next := new bool[rows, cols]((r, c) requires 0 <= r < rows && 0 <= c < cols reads board => board[r, c]);
    for i := 0 to rows
      invariant forall r, c | 0 <= r < i && 0 <= c < cols :: next[r, c] == NextCell(View(board)[r][c], LiveNeighbours(View(board), r, c))
      invariant forall r, c | i <= r < rows && 0 <= c < cols :: next[r, c] == board[r, c]
    {
      UpdateRow(board, next, i);
    }
    if rows > 0 && cols > 0 {
      forall r, c | 0 <= r < rows && 0 <= c < cols ensures View(next)[r][c] == Step(View(board))[r][c] {
        StepAt(View(board), r, c);
      }
      SameCells(View(next), Step(View(board)));
    }
  }

  /**
   The inner loop of update_board for row i: each cell of the row of `next`
   still holds its copied state and is cleared or set according to the rule,
   with the state read from `board` and the count taken on `g`, the value of
   `board`, which the pass never writes. No other cell changes.
   */
  method UpdateRow(board: array2<bool>, next: array2<bool>, i: int)
    requires 0 <= i < board.Length0
    requires next != board && next.Length0 == board.Length0 && next.Length1 == board.Length1
    requires forall c | 0 <= c < board.Length1 :: next[i, c] == board[i, c]
    modifies next
    ensures forall c | 0 <= c < board.Length1 :: next[i, c] == NextCell(View(board)[i][c], LiveNeighbours(View(board), i, c))
    ensures forall r, c | 0 <= r < board.Length0 && r != i && 0 <= c < board.Length1 :: next[r, c] == old(next[r, c])
  {
    var g := View(board);
    for j := 0 to board.Length1
      invariant forall c | 0 <= c < j :: next[i, c] == NextCell(g[i][c], LiveNeighbours(g, i, c))
      invariant forall c | j <= c < board.Length1 :: next[i, c] == board[i, c]
      invariant forall r, c | 0 <= r < board.Length0 && r != i && 0 <= c < board.Length1 :: next[r, c] == old(next[r, c])
    {
      var live := LiveNeighbours(g, i, j);
      if board[i, j] {
        if live < 2 || live > 3 {
          next[i, j] := false;
        }
      } else {
        if live == 3 {
          next[i, j] := true;
        }
      }
    }
  }
}
