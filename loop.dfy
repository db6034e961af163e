/**
 The timing of generations in the main loop: the pause flag toggled by the
 space bar and the gate that lets a generation happen only while the game is
 running and at least the configured delay has passed since the previous
 one. Everything else the loop does (events, mouse, drawing, frame limiting)
 is outside this model; the clock is given as the tick readings of each
 frame.
 */
module Loop {
  import opened Board
  import opened Rules

  /** The part of the loop's state that decides when the board advances. */
  datatype Game = Game(board: Grid, gameOn: bool, lastUpdate: int)

  /**
   The two clock readings of one frame: `gate`, read by the test of the
   gate, and `stamp`, read again when the generation has been computed.
   */
  datatype Ticks = Ticks(gate: int, stamp: int)

  /** The space bar: pauses a running game and resumes a paused one. */
  function Pause(s: Game): (t: Game)
    ensures t.gameOn == !s.gameOn
    ensures t.board == s.board && t.lastUpdate == s.lastUpdate
  {
    s.(gameOn := !s.gameOn)
  }

  /** The gate: the game is running and `delay` milliseconds have passed since the last generation. */
  predicate GateOpen(s: Game, now: int, delay: int)
  {
    now - s.lastUpdate >= delay && s.gameOn
  }

  /**
   The end of one frame: when the gate is open the board advances one
   generation and the time of the update is recorded; otherwise nothing
   changes.
   */
  function Tick(s: Game, t: Ticks, delay: int): (r: Game)
    requires Valid(s.board)
    ensures HasShape(r.board, |s.board|, |s.board[0]|)
    ensures r.gameOn == s.gameOn
  {
    if GateOpen(s, t.gate, delay) then Game(Step(s.board), s.gameOn, t.stamp) else s
  }

  /** A sequence of frames, one tick pair each, with no key presses in between. */
  function Run(s: Game, ts: seq<Ticks>, delay: int): (r: Game)
    requires Valid(s.board)
    ensures HasShape(r.board, |s.board|, |s.board[0]|)
    ensures r.gameOn == s.gameOn
    decreases |ts|
  {
    if ts == [] then s else Run(Tick(s, ts[0], delay), ts[1..], delay)
  }

  /** How many of the frames of a run open the gate. */
  function StepsTaken(s: Game, ts: seq<Ticks>, delay: int): (n: nat)
    requires Valid(s.board)
    ensures n <= |ts|
    decreases |ts|
  {
    if ts == [] then 0
    else (if GateOpen(s, ts[0].gate, delay) then 1 else 0) + StepsTaken(Tick(s, ts[0], delay), ts[1..], delay)
  }

  /** The board `n` generations after `g`. */
  function Generation(g: Grid, n: nat): (h: Grid)
    requires Valid(g)
    ensures HasShape(h, |g|, |g[0]|)
    decreases n
  {
    if n == 0 then g else Generation(Step(g), n - 1)
  }

  /** Pausing twice resumes the game exactly as it was. */
  lemma PauseTwice(s: Game)
    ensures Pause(Pause(s)) == s
  {
  }

  /**
   The board after a run is the generation reached by as many steps as
   frames that opened the gate: frames never skip or repeat a generation.
   */
  lemma {:induction false} RunIsGeneration(s: Game, ts: seq<Ticks>, delay: int)
    requires Valid(s.board)
    ensures Run(s, ts, delay).board == Generation(s.board, StepsTaken(s, ts, delay))
    decreases |ts|
  {
    if ts != [] {
      RunIsGeneration(Tick(s, ts[0], delay), ts[1..], delay);
    }
  }

  /** While the game is paused no frame changes anything, however much time passes. */
  lemma {:induction false} PausedRunKeepsGame(s: Game, ts: seq<Ticks>, delay: int)
    requires Valid(s.board) && !s.gameOn
    ensures Run(s, ts, delay) == s
    ensures StepsTaken(s, ts, delay) == 0
    decreases |ts|
  {
    if ts != [] {
      PausedRunKeepsGame(Tick(s, ts[0], delay), ts[1..], delay);
    }
  }

  /**
   Generations are at least `delay` apart: when the clock does not go back
   within a frame, the recorded update time grows by at least `delay` per
   generation taken.
   */
  lemma {:induction false} StepsAreSpaced(s: Game, ts: seq<Ticks>, delay: int)
    requires Valid(s.board)
    requires forall k | 0 <= k < |ts| :: ts[k].gate <= ts[k].stamp
    ensures Run(s, ts, delay).lastUpdate >= s.lastUpdate + StepsTaken(s, ts, delay) * delay
    decreases |ts|
  {
    if ts != [] {
      var s', n := Tick(s, ts[0], delay), StepsTaken(Tick(s, ts[0], delay), ts[1..], delay);
      StepsAreSpaced(s', ts[1..], delay);
      if GateOpen(s, ts[0].gate, delay) {
        assert (n + 1) * delay == n * delay + delay;
      }
    }
  }
}
