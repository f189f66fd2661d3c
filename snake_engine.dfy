/** The rules engine of the snake game: an immutable game record and the total
    transitions moveSnake, changeDirection, startGame, pauseGame and resetGame, each of
    which returns a new record. */
module SnakeEngine {

  datatype Position = Position(x: int, y: int)

  datatype Direction = Up | Down | Left | Right

  /** The coarse phase of a session (the source calls this enum `GameState`). */
  datatype Phase = Idle | Playing | Paused | GameOver

  /** One frame of the game (the source's `SnakeGameState`); `snake` is head first. */
  datatype GameState = GameState(
    snake: seq<Position>,
    food: Position,
    direction: Direction,
    phase: Phase,
    score: int,
    boardWidth: int,
    boardHeight: int)

  const DEFAULT_WIDTH: int := 20
  const DEFAULT_HEIGHT: int := 20
  const START_CELL: Position := Position(10, 10)
  const START_FOOD: Position := Position(5, 5)
  const FOOD_POINTS: int := 10

  /** `SnakeGameState()` with every constructor default. */
  function DefaultState(): GameState
  {
    GameState([START_CELL], START_FOOD, Right, Idle, 0, DEFAULT_WIDTH, DEFAULT_HEIGHT)
  }

  function Opposite(d: Direction): (r: Direction)
    ensures r != d
  {
    match d
    case Up => Down
    case Down => Up
    case Left => Right
    case Right => Left
  }

  function Abs(n: int): nat
  {
    if n < 0 then -n else n
  }

  /** Two cells share a side. */
  predicate Adjacent(p: Position, q: Position)
  {
    Abs(p.x - q.x) + Abs(p.y - q.y) == 1
  }

  /** The cell one step from `p` in direction `d`; the y axis grows downwards. */
  function Step(p: Position, d: Direction): (q: Position)
    ensures Adjacent(p, q)
    ensures (d == Up || d == Down) <==> q.x == p.x
    ensures (d == Left || d == Up) <==> q.x + q.y < p.x + p.y
  {
    match d
    case Up => Position(p.x, p.y - 1)
    case Down => Position(p.x, p.y + 1)
    case Left => Position(p.x - 1, p.y)
    case Right => Position(p.x + 1, p.y)
  }

  /** Stepping back in the opposite direction returns to the start cell. */
  lemma StepUndo(p: Position, d: Direction)
    ensures Step(Step(p, d), Opposite(d)) == p
  {
  }

  predicate InBoard(s: GameState, p: Position)
  {
    0 <= p.x < s.boardWidth && 0 <= p.y < s.boardHeight
  }

  predicate NoDuplicates(body: seq<Position>)
  {
    forall i, j :: 0 <= i < j < |body| ==> body[i] != body[j]
  }

  /** Consecutive segments share a side. */
  predicate Contiguous(body: seq<Position>)
  {
    forall i :: 0 <= i < |body| - 1 ==> Adjacent(body[i], body[i + 1])
  }

  /** The invariant every state reachable from the default record keeps, in every phase:
      a non-empty, duplicate-free, connected snake on the board, food on a free cell of
      the board, and ten points per segment grown. */
  predicate Inv(s: GameState)
  {
    && |s.snake| > 0
    && (forall p :: p in s.snake ==> InBoard(s, p))
    && NoDuplicates(s.snake)
    && Contiguous(s.snake)
    && InBoard(s, s.food)
    && s.food !in s.snake
    && s.score == FOOD_POINTS * (|s.snake| - 1)
  }

  lemma DefaultStateInv()
    ensures Inv(DefaultState())
  {
  }

  // ---------------------------------------------------------------- moveSnake

  /** The cell the head enters on the next move. */
  function NextHead(s: GameState): Position
    requires |s.snake| > 0
  {
    Step(s.snake[0], s.direction)
  }

  /** The next move eats the food: the game runs and the head reaches the food without
      hitting a wall or the body. Only then does moveSnake draw a new food cell. */
  predicate EatsNow(s: GameState)
  {
    && s.phase == Playing
    && |s.snake| > 0
    && InBoard(s, NextHead(s))
    && NextHead(s) !in s.snake
    && NextHead(s) == s.food
  }

  /** `p` is a cell generateNewFood may return for a snake `body`. */
  predicate FreeCell(s: GameState, body: seq<Position>, p: Position)
  {
    InBoard(s, p) && p !in body
  }

  ghost predicate HasFreeCell(s: GameState, body: seq<Position>)
  {
    exists x: int, y: int :: FreeCell(s, body, Position(x, y))
  }

  /** `draw` is a value generateNewFood could have produced, where it is called at all. */
  predicate GoodDraw(s: GameState, draw: Position)
  {
    EatsNow(s) ==> FreeCell(s, [NextHead(s)] + s.snake, draw)
  }

  /** generateNewFood: rejection sampling of a uniformly random cell until one is off the
      snake, modelled as an arbitrary choice among the free cells. */
  method GenerateNewFood(s: GameState, body: seq<Position>) returns (food: Position)
    requires HasFreeCell(s, body)
    ensures FreeCell(s, body, food)
  {
    var x: int, y: int :| 0 <= x < s.boardWidth && 0 <= y < s.boardHeight && Position(x, y) !in body;
    food := Position(x, y);
  }

  /** The record moveSnake returns when generateNewFood, if it is called, returns `draw`. */
  function Moved(s: GameState, draw: Position): GameState
    requires s.phase == Playing ==> |s.snake| > 0
  {
    if s.phase != Playing then s
    else
      var newHead := Step(s.snake[0], s.direction);
      if !InBoard(s, newHead) then s.(phase := GameOver)
      else if newHead in s.snake then s.(phase := GameOver)
      else
        var newSnake := [newHead] + s.snake;
        if newHead == s.food then
          s.(snake := newSnake, food := draw, score := s.score + FOOD_POINTS)
        else
          s.(snake := newSnake[..|newSnake| - 1])
  }

  /** moveSnake. `snake.first()` needs a non-empty snake; the food draw needs a free cell
      left after growing (on a full board the source loops forever). A new cell is drawn
      only when the food is eaten. */
  method MoveSnake(s: GameState) returns (r: GameState)
    requires s.phase == Playing ==> |s.snake| > 0
    requires EatsNow(s) ==> HasFreeCell(s, [NextHead(s)] + s.snake)
    ensures !EatsNow(s) ==> r == Moved(s, s.food)
    ensures EatsNow(s) ==> r == Moved(s, r.food) && FreeCell(s, r.snake, r.food)
  {
    if s.phase != Playing {
      return s;
    }
    var head := s.snake[0];
    var newHead := Step(head, s.direction);
    if newHead.x < 0 || newHead.x >= s.boardWidth || newHead.y < 0 || newHead.y >= s.boardHeight {
      return s.(phase := GameOver);
    }
    if newHead in s.snake {
      return s.(phase := GameOver);
    }
    var newSnake := [newHead] + s.snake;
    if newHead == s.food {
      var food := GenerateNewFood(s, newSnake);
      r := s.(snake := newSnake, food := food, score := s.score + FOOD_POINTS);
    } else {
      r := s.(snake := newSnake[..|newSnake| - 1]);
    }
  }

  /** A move outside the PLAYING phase changes nothing. */
  lemma MoveWhenNotPlaying(s: GameState, draw: Position)
    requires s.phase != Playing
    ensures Moved(s, draw) == s
  {
  }

  /** The game ends on this move exactly when the head would leave the board or enter a
      cell of the current body (its tail cell included); then only the phase changes. */
  lemma MoveGameOver(s: GameState, draw: Position)
    requires s.phase == Playing && |s.snake| > 0
    ensures Moved(s, draw).phase == GameOver <==> !InBoard(s, NextHead(s)) || NextHead(s) in s.snake
    ensures Moved(s, draw).phase == GameOver ==> Moved(s, draw) == s.(phase := GameOver)
    ensures Moved(s, draw).phase != GameOver ==> Moved(s, draw).phase == Playing
  {
  }

  /** Eating: the head is prepended and nothing is dropped, the score rises by exactly ten,
      and the new food lies on the board off every cell of the grown snake. */
  lemma MoveEatsFood(s: GameState, draw: Position)
    requires EatsNow(s) && GoodDraw(s, draw)
    ensures Moved(s, draw).snake == [NextHead(s)] + s.snake
    ensures Moved(s, draw).score == s.score + 10
    ensures InBoard(s, Moved(s, draw).food) && Moved(s, draw).food !in Moved(s, draw).snake
    ensures Moved(s, draw) == s.(snake := Moved(s, draw).snake, food := draw, score := s.score + 10)
  {
  }

  /** An ordinary move: the head is prepended and the last segment dropped, so length,
      score and food stay as they were and the game goes on. */
  lemma MoveWithoutFood(s: GameState, draw: Position)
    requires s.phase == Playing && |s.snake| > 0
    requires InBoard(s, NextHead(s)) && NextHead(s) !in s.snake && NextHead(s) != s.food
    ensures Moved(s, draw).snake == [NextHead(s)] + s.snake[..|s.snake| - 1]
    ensures |Moved(s, draw).snake| == |s.snake|
    ensures Moved(s, draw) == s.(snake := Moved(s, draw).snake)
  {
    assert ([NextHead(s)] + s.snake)[..|s.snake|] == [NextHead(s)] + s.snake[..|s.snake| - 1];
  }

  /** Whenever the snake moves, its new head is next to the old one and the rest of the
      new body is a prefix of the old body: the snake slides, it never jumps. */
  lemma MoveSlides(s: GameState, draw: Position)
    requires s.phase == Playing && |s.snake| > 0
    requires Moved(s, draw).phase == Playing
    ensures var r := Moved(s, draw);
      && |r.snake| > 0
      && Adjacent(s.snake[0], r.snake[0])
      && r.snake[1..] <= s.snake
      && |s.snake| <= |r.snake| <= |s.snake| + 1
  {
    var r := Moved(s, draw);
    var newSnake := [NextHead(s)] + s.snake;
    assert newSnake[1..] == s.snake;
    if NextHead(s) != s.food {
      assert r.snake == newSnake[..|newSnake| - 1];
      assert r.snake[1..] == s.snake[..|s.snake| - 1];
    }
  }

  /** Prepending a free neighbouring cell on the board to a valid body keeps it valid. */
  lemma PrependHead(s: GameState, h: Position)
    requires |s.snake| > 0 && (forall p :: p in s.snake ==> InBoard(s, p))
    requires NoDuplicates(s.snake) && Contiguous(s.snake)
    requires InBoard(s, h) && h !in s.snake && Adjacent(h, s.snake[0])
    ensures var b := [h] + s.snake;
      (forall p :: p in b ==> InBoard(s, p)) && NoDuplicates(b) && Contiguous(b)
  {
    var b := [h] + s.snake;
    forall i, j | 0 <= i < j < |b| ensures b[i] != b[j] {
      if i == 0 { assert b[j] == s.snake[j - 1]; }
    }
    forall i | 0 <= i < |b| - 1 ensures Adjacent(b[i], b[i + 1]) {
      if i > 0 { assert b[i] == s.snake[i - 1] && b[i + 1] == s.snake[i]; }
    }
  }

  /** A prefix of a valid body is valid. */
  lemma PrefixKeeps(s: GameState, b: seq<Position>, n: nat)
    requires n <= |b|
    requires (forall p :: p in b ==> InBoard(s, p)) && NoDuplicates(b) && Contiguous(b)
    ensures var c := b[..n];
      (forall p :: p in c ==> InBoard(s, p)) && NoDuplicates(c) && Contiguous(c)
  {
    var c := b[..n];
    forall p | p in c ensures InBoard(s, p) {
      var i :| 0 <= i < |c| && c[i] == p;
      assert b[i] == p;
    }
  }

  /** moveSnake keeps the invariant, whatever free cell the food draw picks. */
  lemma MovePreservesInv(s: GameState, draw: Position)
    requires Inv(s) && GoodDraw(s, draw)
    ensures Inv(Moved(s, draw))
  {
    var r := Moved(s, draw);
    if s.phase == Playing && InBoard(s, NextHead(s)) && NextHead(s) !in s.snake {
      var h := NextHead(s);
      var b := [h] + s.snake;
      assert Adjacent(h, s.snake[0]) by {
        assert Adjacent(s.snake[0], h);
      }
      PrependHead(s, h);
      if h == s.food {
        assert r.snake == b;
      } else {
        PrefixKeeps(s, b, |b| - 1);
        assert r.snake == b[..|b| - 1];
        assert r.food !in r.snake by {
          forall i | 0 <= i < |r.snake| ensures r.snake[i] != s.food {
            if i > 0 { assert r.snake[i] == s.snake[i - 1]; }
          }
        }
      }
    }
  }

  /** The head entering the cell the tail is about to leave ends the game, although the
      body that dropping the tail first would give is a perfectly valid snake. */
  lemma TailCellCountsAsCollision(s: GameState, draw: Position)
    requires Inv(s) && s.phase == Playing && |s.snake| >= 2
    requires InBoard(s, NextHead(s)) && NextHead(s) == s.snake[|s.snake| - 1]
    ensures Moved(s, draw).phase == GameOver
    ensures var slid := [NextHead(s)] + s.snake[..|s.snake| - 1];
      NoDuplicates(slid) && (forall p :: p in slid ==> InBoard(s, p))
  {
    var n := |s.snake|;
    var h := NextHead(s);
    var slid := [h] + s.snake[..n - 1];
    assert s.snake[n - 1] in s.snake;
    forall i, j | 0 <= i < j < |slid| ensures slid[i] != slid[j] {
      if i == 0 {
        assert slid[j] == s.snake[j - 1];
      } else {
        assert slid[i] == s.snake[i - 1] && slid[j] == s.snake[j - 1];
      }
    }
    forall p | p in slid ensures InBoard(s, p) {
      if p != h {
        var i :| 0 <= i < |slid| && slid[i] == p;
        assert s.snake[i - 1] == p;
      }
    }
  }

  // ---------------------------------------------------------- changeDirection

  /** changeDirection: a turn into the exact opposite heading is ignored. */
  function ChangeDirection(s: GameState, newDirection: Direction): GameState
  {
    if newDirection != Opposite(s.direction) then s.(direction := newDirection) else s
  }

  /** The reversal is rejected with the identical record; any other heading is taken and
      nothing else changes. */
  lemma ChangeDirectionSpec(s: GameState, d: Direction)
    ensures d == Opposite(s.direction) ==> ChangeDirection(s, d) == s
    ensures d != Opposite(s.direction) ==> ChangeDirection(s, d) == s.(direction := d)
    ensures ChangeDirection(s, d).direction == d <==> d != Opposite(s.direction)
  {
  }

  lemma ChangeDirectionPreservesInv(s: GameState, d: Direction)
    requires Inv(s)
    ensures Inv(ChangeDirection(s, d))
  {
  }

  /** A heading at right angles to `d`. */
  function Perpendicular(d: Direction): (r: Direction)
    ensures r != d && r != Opposite(d)
  {
    match d
    case Up => Left
    case Down => Left
    case Left => Up
    case Right => Up
  }

  /** The reversal guard compares with the current heading only: two turns between ticks
      reverse the snake, and when its second segment lies behind the head the next move
      runs into it. */
  lemma {:induction false} TwoTurnsReverse(s: GameState, draw: Position)
    requires Inv(s) && s.phase == Playing && |s.snake| >= 2
    requires s.snake[1] == Step(s.snake[0], Opposite(s.direction))
    ensures var t := ChangeDirection(ChangeDirection(s, Perpendicular(s.direction)), Opposite(s.direction));
      t.direction == Opposite(s.direction) && Moved(t, draw).phase == GameOver
  {
    var t := ChangeDirection(ChangeDirection(s, Perpendicular(s.direction)), Opposite(s.direction));
    assert t.direction == Opposite(s.direction) by {
      match s.direction
      case Up =>
      case Down =>
      case Left =>
      case Right =>
    }
    assert NextHead(t) == s.snake[1];
  }

  // ------------------------------------------------- startGame, pauseGame, resetGame

  /** startGame: a fresh one-segment snake heading right, PLAYING, score 0; the board size
      is kept. */
  function StartGame(s: GameState): GameState
  {
    s.(snake := [START_CELL], food := START_FOOD, direction := Right, phase := Playing, score := 0)
  }

  lemma StartGameSpec(s: GameState)
    ensures var r := StartGame(s);
      && r.snake == [Position(10, 10)] && r.food == Position(5, 5)
      && r.direction == Right && r.phase == Playing && r.score == 0
      && r.boardWidth == s.boardWidth && r.boardHeight == s.boardHeight
  {
  }

  /** On a board larger than 10 x 10 in both directions startGame gives a valid game. */
  lemma StartGameInv(s: GameState)
    requires s.boardWidth > 10 && s.boardHeight > 10
    ensures Inv(StartGame(s))
  {
    assert StartGame(s).snake == [Position(10, 10)];
  }

  /** Because startGame keeps the board size but not the start cell, on a board at most
      11 cells wide the game it starts is lost on the first move. */
  lemma StartGameOnNarrowBoard(s: GameState, draw: Position)
    requires s.boardWidth <= 11
    ensures Moved(StartGame(s), draw).phase == GameOver
  {
  }

  /** pauseGame: PLAYING becomes PAUSED and every other phase, IDLE and GAME_OVER
      included, becomes PLAYING. */
  function PauseGame(s: GameState): GameState
  {
    s.(phase := if s.phase == Playing then Paused else Playing)
  }

  lemma PauseGameSpec(s: GameState)
    ensures PauseGame(s).phase == Paused <==> s.phase == Playing
    ensures PauseGame(s).phase == Playing <==> s.phase != Playing
    ensures PauseGame(s) == s.(phase := PauseGame(s).phase)
  {
  }

  /** pauseGame undoes itself on PLAYING and PAUSED, but not on IDLE or GAME_OVER, which
      it sends into PLAYING and then to PAUSED. */
  lemma PauseGameTwice(s: GameState)
    ensures s.phase == Playing || s.phase == Paused <==> PauseGame(PauseGame(s)) == s
  {
    if PauseGame(PauseGame(s)) == s {
      assert PauseGame(PauseGame(s)).phase == Paused || PauseGame(PauseGame(s)).phase == Playing;
    }
  }

  /** resetGame ignores its receiver. */
  function ResetGame(s: GameState): GameState
  {
    DefaultState()
  }

  lemma ResetGameSpec(s: GameState, t: GameState)
    ensures ResetGame(s) == ResetGame(t) == DefaultState()
    ensures ResetGame(s).phase == Idle && Inv(ResetGame(s))
  {
  }

  lemma PauseGamePreservesInv(s: GameState)
    requires Inv(s)
    ensures Inv(PauseGame(s))
  {
  }
}
