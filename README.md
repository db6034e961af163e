# Conway's Game of Life on a torus, modelled in Dafny

This project models the rule engine and the editing operations of an
interactive Game of Life written in Python, from `source/game.py`. The board is
a fixed grid of live and dead cells. Its edges wrap around, so the board is a
torus.

- `Board` (board.dfy) holds the board and the operations that edit it.
  - A board's value is a `Grid`, a sequence of equally long rows of `bool`.
  - The live board that the program edits in place is an `array2<bool>`. `View` reads its value.
  - `ClearBoard` is clear_board. It takes the row and column counts as parameters; the program reads them from its settings.
  - `ToggleCell` and `SetCell` are toggle_cell and set_cell. They are methods that change the array in place. Their postconditions tie the new board value to the functions `Toggled` and `WithCell`.
  - Every coordinate is normalised with `%`, as in the source. `Wrap` names this normalisation. Python's `%` with a positive modulus matches Dafny's `%` on `int`.
- `Rules` (rules.dfy) holds the rule engine.
  - `NeighbourPositions` and `Neighbours` are get_neighbors. They list the eight wrapped coordinates in the source's order.
  - `LiveNeighbours` is the count the update takes with `np.sum`.
  - `NextCell` is the fate of one cell.
  - `Step` is one generation on board values.
  - `UpdateBoard` and `UpdateRow` are the nested loops of update_board. They fill a fresh array that starts as a copy of the board.
  - The count is proved equal to two independent readings. `BlockCount` is the 3 x 3 block without its centre. `RingCount` is the eight adjacent cells with no modular arithmetic.
- `Patterns` (patterns.dfy) holds worked boards:
  - the wrap-around at a corner of a 3 x 3 board;
  - the 1 x 1 board;
  - the block still life;
  - the blinker oscillator.
- `Loop` (loop.dfy) holds the part of the main loop that decides when a generation happens:
  - the pause flag, flipped by the space bar;
  - the gate that lets a generation through only while the game runs and `DELAY_MS` has passed since the previous one.
  - The clock is given as the tick readings of each frame.

The neighbour count follows the code: it counts the eight positions, not
distinct cells. On a board with one or two rows or columns, the same cell can
be counted more than once. On a 1 x 1 board a cell is its own eight
neighbours (`Patterns.LoneCellOnUnitBoard`).

## Model

| member | source | states |
|---|---|---|
| Board.Wrap | source/game.py:93-94 | The normalised index lies in [0, n) for every integer, negative ones too. An index already in range is unchanged. An index of n wraps to 0, and -1 wraps to n - 1. |
| Board.WrapTurns | source/game.py:108-109 | Indices that differ by any whole multiple of n, of either sign, normalise to the same index. |
| Board.ClearBoard | source/game.py:80-81 | clear_board gives a board of exactly the requested rows and columns on which every cell is dead. |
| Board.Toggled | source/game.py:92-95 | toggle_cell flips exactly the cell at (row % rows, col % cols). Every other cell keeps its state, and the shape is unchanged. |
| Board.ToggleTwice | source/game.py:92-95 | Toggling the same coordinate twice restores the board. |
| Board.ToggleCommutes | source/game.py:92-95 | Toggles at two coordinates give the same board in either order. |
| Board.ToggleIsSetToOpposite | source/game.py:92-95 | A toggle equals set_cell at the same coordinate with the opposite of the cell's current state. |
| Board.ToggleCongruent | source/game.py:93-94 | Toggle coordinates that differ by whole turns of the torus have the same effect. |
| Board.ToggleCell | source/game.py:83-95 | In place, for any integer row and column, the array's new value is `Toggled` of its old value. |
| Board.ToggleCellTwice | source/game.py:92-95 | Two in-place toggles of the same coordinate leave the array as it was. |
| Board.WithCell | source/game.py:107-110 | set_cell makes the cell at (row % rows, col % cols) equal to `state`. Every other cell keeps its state, and the shape is unchanged. |
| Board.SetIdempotent | source/game.py:107-110 | Setting the same cell to the same state a second time changes nothing. |
| Board.SetToCurrentIsIdentity | source/game.py:107-110 | Setting a cell to the state it already has gives the same board. |
| Board.SetCongruent | source/game.py:108-109 | Coordinates congruent modulo (rows, cols), in either direction, have the same effect. |
| Board.SetAtRowCount | source/game.py:108-109 | Setting (rows, 0) has the same effect as setting (0, 0). |
| Board.SetCell | source/game.py:97-110 | In place, for any integer row and column, the array's new value is `WithCell` of its old value. |
| Rules.NeighbourPositions | source/game.py:38-48 | The coordinates get_neighbors reads, written as in the source: eight of them, one per offset. `NeighbourPositionsWrap` gives what each one is. |
| Rules.Neighbours | source/game.py:26-49 | get_neighbors returns eight states, one per offset, in the order of `Offsets`. `NeighboursAt` gives the state in each entry. |
| Rules.CountLive | source/game.py:67 | `np.sum` over a list of booleans: the count is at most the list's length. `CountLiveZero` and `CountLiveFull` give its two extremes. |
| Rules.OffsetsAreTheNeighbourhood | source/game.py:38-48 | The eight offsets are exactly the 3 x 3 block around a cell minus the cell itself, each listed once. |
| Rules.NeighbourPositionsWrap | source/game.py:38-48 | Entry k of the list get_neighbors reads is the cell shifted by offset k and wrapped onto the torus. Every entry is on the board. |
| Rules.NeighboursAt | source/game.py:26-49 | Entry k of get_neighbors' result is the state of the wrapped cell at offset k. |
| Rules.LiveNeighbours | source/game.py:66-67 | The live-neighbour count is between 0 and 8. |
| Rules.CountLiveZero | source/game.py:67 | The sum over the neighbour list is 0 exactly when every entry is dead. |
| Rules.CountLiveFull | source/game.py:67 | The sum equals the list's length exactly when every entry is alive. |
| Rules.LiveNeighboursIsBlockWithoutCentre | source/game.py:38-48 | The count plus the cell's own state is the live count of the wrapped 3 x 3 block centred on the cell. |
| Rules.LiveNeighboursIsRing | source/game.py:38-48 | The count equals the count of the eight adjacent cells, where stepping over an edge continues on the opposite edge. This reading uses no `%`. |
| Rules.NextCell | source/game.py:69-76 | The per-cell decision, written with the source's branches, is the standard rule: alive next exactly when the count is 3, or the cell is alive and the count is 2. |
| Rules.Step | source/game.py:52-78 | A generation has the same dimensions as its input. |
| Rules.StepSurvival | source/game.py:69-72 | A live cell is alive in the next generation exactly when it has 2 or 3 live neighbours. |
| Rules.StepBirth | source/game.py:73-76 | A dead cell is alive in the next generation exactly when it has 3 live neighbours. |
| Rules.TransposeNeighbours | source/game.py:38-48 | Mirroring the board about its diagonal moves each cell's count with the cell. |
| Rules.StepTranspose | source/game.py:64-76 | A generation commutes with mirroring about the diagonal, so the rule has no preferred direction. |
| Rules.StepClear | source/game.py:64-76 | An all-dead board, as clear_board makes it, stays all dead. |
| Rules.UpdateBoard | source/game.py:52-78 | update_board returns a fresh array of the same dimensions whose value is `Step` of the input's value. On a board with no rows or no columns it returns the empty copy. The method has no `modifies` clause, so the input board is unchanged. |
| Rules.UpdateRow | source/game.py:65-76 | One pass of the inner loop. Each cell of row i of the copy becomes the rule applied to the old board's state and count. Every other row is unchanged. |
| Patterns.CornerNeighboursWrap | source/game.py:38-48 | On a 3 x 3 board the neighbours of (0, 0) include (2, 2), reached diagonally through both edges, and (0, 2), reached through the left edge. |
| Patterns.LoneCellOnUnitBoard | source/game.py:38-48 | On a 1 x 1 board a live cell counts itself 8 times and dies. |
| Patterns.StepFrom | source/game.py:64-76 | A board on which every cell follows the rule from g is the next generation of g. |
| Patterns.BlockIsStill | source/game.py:64-76 | A 2 x 2 block on a 4 x 4 board is unchanged by a generation. |
| Patterns.BlinkerOscillates | source/game.py:64-76 | The horizontal blinker {(1,0),(1,1),(1,2)} on a 5 x 5 board becomes the vertical one {(0,1),(1,1),(2,1)} and then returns: period 2. |
| Loop.Pause | source/game.py:166-167 | The space bar flips the pause flag and leaves the board and the update time alone. |
| Loop.GateOpen | source/game.py:200 | The gate's test as written: the time since the last update is at least the delay, and the game is running. It has no contract of its own; `RunIsGeneration`, `PausedRunKeepsGame` and `StepsAreSpaced` state what it implies over a run. |
| Loop.PauseTwice | source/game.py:166-167 | Pressing the space bar twice restores the game state. |
| Loop.Tick | source/game.py:200-202 | A frame keeps the board's shape and never changes the pause flag. |
| Loop.Run | source/game.py:200-202 | Any number of frames keeps the board's shape and the pause flag. |
| Loop.RunIsGeneration | source/game.py:200-202 | After a run the board is the n-th generation of the initial board, where n is the number of frames whose gate was open. No frame skips or repeats a generation. |
| Loop.PausedRunKeepsGame | source/game.py:200-202 | While paused, no frame changes the board or the update time, however much time passes. |
| Loop.StepsAreSpaced | source/game.py:200-202 | The clock does not go back within a frame. So the recorded update time grows by at least DELAY_MS per generation taken, and generations are at least DELAY_MS apart. |

## Left out

- initialize_board (source/game.py:21-24): it draws a random board with a floating-point density. Any valid `Grid` or array can stand for its result.
- draw_board and the highlight rectangle (source/game.py:112-132, 155, 180-197, 206): these are pygame drawing with floating-point cell sizes.
- Settings loading (source/game.py:6-17): this is file I/O and process exit. `ROWS`, `COLS` and `DELAY_MS` are parameters.
- The rest of the main loop (source/game.py:134-210) is left out: event polling, quitting, the r key, the mouse, frame limiting. clear_board itself is `Board.ClearBoard`, and the mouse's set_cell calls are `Board.SetCell`.
- Mapping pixels to cells with float floor division (source/game.py:173-175) is left out. The editing operations take integer coordinates directly, and the `int(...)` conversion of the normalised index is then the identity.
- get_neighbors is modelled for centres on the board, which is how update_board calls it. Other centres are not modelled. For them numpy accepts a centre with -rows <= i <= -1 and -cols <= j <= -1 through negative indexing. It raises IndexError for i >= rows, which reads `board[i, ...]` unwrapped (source/game.py:43), and for j >= cols, which reads `board[..., j]` unwrapped (source/game.py:41).
- Board.ToggleCell, Board.SetCell: boards with 0 rows or 0 columns are excluded by preconditions. For them Python's `%` by 0 raises ZeroDivisionError (source/game.py:93-94, 108-109).
- Board.Toggled, Board.WithCell, Rules.Step, Rules.LiveNeighbours: these value-level functions require a board with at least one row and one column. `Rules.UpdateBoard` has no such precondition and, like the source, returns the empty copy for an empty board (source/game.py:61-78).
- Rules.UpdateBoard: Python's `board = update_board(board)` rebinds the name to the new array. The model returns the fresh array and leaves rebinding to the caller.
- Patterns.BlockIsStill: proved on the 4 x 4 board only, not for every board of at least 4 x 4.
- Loop.Run: the main loop is modelled as a function over the frames' tick readings, not as a `while` loop that reads a clock. Key presses between frames are left out.
- Loop.StepsAreSpaced: the source records the time after computing a generation, not the time the gate opened. The model follows the code, so generations are at least DELAY_MS apart but do not keep to a fixed cadence.
