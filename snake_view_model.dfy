/** The game driver: one current-state slot that every command replaces wholesale with
    the engine's result, the tick interval, and one iteration of the game loop. */
module SnakeViewModel {
  import opened SnakeEngine

  const INITIAL_SPEED: int := 300
  const MIN_SPEED: int := 100
  const SPEED_STEP: int := 20

  /** The interval after one call of increaseSpeed. */
  function NextSpeed(speed: int): int
  {
    if speed > MIN_SPEED then speed - SPEED_STEP else speed
  }

  /** The interval after `n` calls of increaseSpeed. */
  function SpeedAfter(speed: int, n: nat): int
  {
    if n == 0 then speed else SpeedAfter(NextSpeed(speed), n - 1)
  }

  /** The intervals increaseSpeed can produce from 300: 300, 280, ..., 100. */
  predicate ReachableSpeed(speed: int)
  {
    MIN_SPEED <= speed <= INITIAL_SPEED && speed % SPEED_STEP == 0
  }

  lemma NextSpeedKeepsReachable(speed: int)
    requires ReachableSpeed(speed)
    ensures ReachableSpeed(NextSpeed(speed)) && NextSpeed(speed) <= speed
  {
  }

  /** From any interval increaseSpeed can reach, `n` more calls take off twenty per call
      until the floor of 100, and the interval then stays at 100. */
  lemma {:induction false} SpeedAfterCalls(speed: int, n: nat)
    requires ReachableSpeed(speed)
    ensures SpeedAfter(speed, n) == if speed - SPEED_STEP * n > MIN_SPEED then speed - SPEED_STEP * n else MIN_SPEED
  {
    if n > 0 {
      SpeedAfterCalls(NextSpeed(speed), n - 1);
    }
  }

  /** Starting from 300, ten calls reach 100 and no number of calls goes below it. */
  lemma SpeedFloor(n: nat)
    ensures SpeedAfter(INITIAL_SPEED, n) >= MIN_SPEED
    ensures n >= 10 ==> SpeedAfter(INITIAL_SPEED, n) == MIN_SPEED
  {
    SpeedAfterCalls(INITIAL_SPEED, n);
  }

  /** The source's `SnakeGameViewModel`. `loopRunning` is true while a game-loop coroutine
      started by startGame is alive; the delay between ticks is not modelled. */
  class GameViewModel {
    var state: GameState
    var gameSpeed: int
    var loopRunning: bool

    /** The slot holds a valid record of a 20 x 20 board and the interval is one that
        increaseSpeed can produce. */
    ghost predicate Valid()
      reads this
    {
      && Inv(state)
      && state.boardWidth == DEFAULT_WIDTH && state.boardHeight == DEFAULT_HEIGHT
      && ReachableSpeed(gameSpeed)
    }

    constructor ()
      ensures Valid()
      ensures state == DefaultState() && state.phase == Idle
      ensures gameSpeed == 300 && !loopRunning
    {
      state := DefaultState();
      gameSpeed := INITIAL_SPEED;
      loopRunning := false;
    }

    /** startGame: replace the slot by the engine's startGame and launch the loop (whose
        guard holds at once, since the new phase is PLAYING). */
    method StartGame()
      requires Valid()
      modifies this
      ensures Valid()
      ensures state == SnakeEngine.StartGame(old(state)) && state.phase == Playing
      ensures loopRunning && gameSpeed == old(gameSpeed)
    {
      StartGameInv(state);
      state := SnakeEngine.StartGame(state);
      loopRunning := true;
    }

    /** pauseGame: toggles the phase; it neither starts nor stops the loop. */
    method PauseGame()
      requires Valid()
      modifies this
      ensures Valid()
      ensures state == SnakeEngine.PauseGame(old(state))
      ensures loopRunning == old(loopRunning) && gameSpeed == old(gameSpeed)
    {
      PauseGamePreservesInv(state);
      state := SnakeEngine.PauseGame(state);
    }

    method ResetGame()
      requires Valid()
      modifies this
      ensures Valid()
      ensures state == DefaultState()
      ensures loopRunning == old(loopRunning) && gameSpeed == old(gameSpeed)
    {
      DefaultStateInv();
      state := SnakeEngine.ResetGame(state);
    }

    method ChangeDirection(direction: Direction)
      requires Valid()
      modifies this
      ensures Valid()
      ensures state == SnakeEngine.ChangeDirection(old(state), direction)
      ensures loopRunning == old(loopRunning) && gameSpeed == old(gameSpeed)
    {
      ChangeDirectionPreservesInv(state, direction);
      state := SnakeEngine.ChangeDirection(state, direction);
    }

    /** One iteration of the game loop, after its delay: move only if the phase is still
        PLAYING, then re-test the loop guard, which ends the loop once the phase has left
        PLAYING (a pause during the delay or a collision on this move). */
    method Tick()
      requires Valid() && loopRunning
      requires EatsNow(state) ==> HasFreeCell(state, [NextHead(state)] + state.snake)
      modifies this
      ensures Valid()
      ensures old(state).phase != Playing ==> state == old(state)
      ensures old(state).phase == Playing ==> state == Moved(old(state), state.food)
      ensures EatsNow(old(state)) ==> FreeCell(state, state.snake, state.food)
      ensures loopRunning == (state.phase == Playing) && gameSpeed == old(gameSpeed)
    {
      if state.phase == Playing {
        var next := MoveSnake(state);
        MovePreservesInv(state, next.food);
        state := next;
      }
      loopRunning := state.phase == Playing;
    }

    method IncreaseSpeed()
      requires Valid()
      modifies this
      ensures Valid()
      ensures gameSpeed == NextSpeed(old(gameSpeed)) && MIN_SPEED <= gameSpeed <= old(gameSpeed)
      ensures state == old(state) && loopRunning == old(loopRunning)
    {
      NextSpeedKeepsReachable(gameSpeed);
      if gameSpeed > MIN_SPEED {
        gameSpeed := gameSpeed - SPEED_STEP;
      }
    }

    method GetCurrentScore() returns (score: int)
      ensures score == state.score
    {
      score := state.score;
    }
  }

  /** Once a pause lands during the delay, the tick ends the loop, and resuming with
      pauseGame does not restart it: the game shows PLAYING but no tick can run until
      startGame is called again. */
  method PauseDuringDelayFreezes(vm: GameViewModel)
    requires vm.Valid() && vm.loopRunning && vm.state.phase == Playing
    modifies vm
    ensures vm.state.phase == Playing && !vm.loopRunning
  {
    vm.PauseGame();
    vm.Tick();
    vm.PauseGame();
  }
}
