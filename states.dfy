/** The global game state and the requests that change it. Every place that
    asks for a new state overwrites one pending value, so within a frame the
    last request wins; a frame without requests keeps the current state. */
module States {

  datatype GameState = Exploring | AtTerminal | Combat | Win | GameOver

  /** The state the game starts in. */
  function InitialState(): (s: GameState)
    ensures s == Exploring
  {
    Exploring
  }

  /** The state after a frame whose requests were made in the given order. */
  function Apply(current: GameState, requests: seq<GameState>): (r: GameState)
    ensures requests == [] ==> r == current
    ensures requests != [] ==> r == requests[|requests| - 1]
    ensures r == current || r in requests
    decreases |requests|
  {
    if requests == [] then current else Apply(requests[0], requests[1..])
  }

  /** Requests made in two batches act as one batch. */
  lemma ApplyConcat(current: GameState, a: seq<GameState>, b: seq<GameState>)
    ensures Apply(current, a + b) == Apply(Apply(current, a), b)
  {
    if b != [] {
      assert (a + b)[|a + b| - 1] == b[|b| - 1];
    } else {
      assert a + b == a;
    }
  }

  /** The game-over screen: Enter asks to start exploring again. */
  function GameOverScreen(enterPressed: bool): (requests: seq<GameState>)
    ensures enterPressed ==> Apply(GameOver, requests) == Exploring
    ensures !enterPressed ==> requests == []
  {
    if enterPressed then [Exploring] else []
  }

  /** The win screen: Enter asks to play again. */
  function WinScreen(enterPressed: bool): (requests: seq<GameState>)
    ensures enterPressed ==> Apply(Win, requests) == Exploring
    ensures !enterPressed ==> requests == []
  {
    if enterPressed then [Exploring] else []
  }

  const TIMER_SECONDS: real := 60.0

  /** The countdown resource. */
  class GameTimer {
    var remaining: real
    var total: real

    constructor Default()
      ensures remaining == TIMER_SECONDS && total == TIMER_SECONDS
    {
      remaining := TIMER_SECONDS;
      total := TIMER_SECONDS;
    }

    /** Counts down by one frame's time. Reaching zero (or going past it)
        pins the remaining time at zero and asks for the game-over screen;
        once at zero, every later frame with a non-negative frame time does
        the same again. */
    method Tick(delta: real) returns (requests: seq<GameState>)
      modifies this
      ensures old(remaining) - delta <= 0.0 ==> remaining == 0.0 && requests == [GameOver]
      ensures old(remaining) - delta > 0.0 ==> remaining == old(remaining) - delta && requests == []
      ensures total == old(total)
    {
      remaining := remaining - delta;
      requests := [];
      if remaining <= 0.0 {
        remaining := 0.0;
        requests := [GameOver];
      }
    }
  }
}
