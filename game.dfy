/** The state machine of game.js: the module-level variables become the
    fields of one Game object, and the functions that update them become its
    methods. Timers, the canvas, the score label and the alert are not part of
    this model; a running interval timer is represented by `isGameRunning`
    and its period by `gameSpeed`. */
module SnakeGame {
  import opened SnakeRules

  class Game {
    /** Cells per side of the square board (canvas width / grid size). */
    const tileCount: int

    var snake: seq<Cell>        // head first
    var food: Option<Cell>      // None until the first game starts
    var direction: Direction
    var score: int
    var gameSpeed: int          // tick interval in milliseconds
    var isGameRunning: bool

    /** Meals eaten since the page loaded; the tick interval is never reset,
        so it depends on every game played so far. */
    ghost var meals: nat

    /** The invariant every reachable state keeps. */
    ghost predicate Valid()
      reads this
    {
      && tileCount >= 6
      && AllInBounds(snake, tileCount)
      && NoOverlap(snake)
      && (snake == [] ==> food == None && score == 0 && !isGameRunning)
      && (snake != [] ==>
            && |snake| >= 3
            && score == FoodReward * (|snake| - 3)
            && food.Some?
            && InBounds(food.value, tileCount)
            && food.value !in snake)
      && gameSpeed == SpeedAfter(StartSpeed, meals)
    }

    /** The page-load state of the module-level variables. */
    constructor (tileCount: int)
      requires tileCount >= 6
      ensures Valid()
      ensures this.tileCount == tileCount
      ensures snake == [] && food == None && direction == Right
      ensures score == 0 && gameSpeed == StartSpeed && !isGameRunning
    {
      this.tileCount := tileCount;
      snake := [];
      food := None;
      direction := Right;
      score := 0;
      gameSpeed := StartSpeed;
      isGameRunning := false;
      meals := 0;
    }

    /** Places the food on the first of the random draws that is off the
        snake, rejecting the ones on it. */
    method GenerateFood(draws: seq<Cell>)
      requires FoodDraws(draws, snake, tileCount)
      modifies this`food
      ensures food == Some(FirstFree(draws, snake))
    {
      var i := 0;
      food := Some(draws[0]);
      while draws[i] in snake
        invariant 0 <= i < |draws|
        invariant food == Some(draws[i])
        invariant exists c :: c in draws[i..] && c !in snake
        invariant FirstFree(draws[i..], snake) == FirstFree(draws, snake)
        decreases |draws| - i
      {
        assert draws[i..] == [draws[i]] + draws[i + 1..];
        i := i + 1;
        food := Some(draws[i]);
      }
    }

    /** Starts a fresh game: the fixed three-cell snake heading right, score
        0, new food. The tick interval and the running flag are left alone. */
    method InitGame(draws: seq<Cell>)
      requires Valid()
      requires FoodDraws(draws, InitialSnake, tileCount)
      modifies this
      ensures Valid()
      ensures snake == InitialSnake && score == 0 && direction == Right
      ensures food == Some(FirstFree(draws, InitialSnake))
      ensures gameSpeed == old(gameSpeed) && isGameRunning == old(isGameRunning)
      ensures meals == old(meals)
    {
      snake := InitialSnake;
      score := 0;
      direction := Right;
      GenerateFood(draws);
      InitialSnakeFits(tileCount);
      FoodPlacement(draws, InitialSnake, tileCount);
    }

    /** The collision test: the head leaves the board, or it lands on a
        segment of the current snake. */
    method CheckCollision(head: Cell) returns (hit: bool)
      ensures hit == Collides(head, snake, tileCount)
    {
      if head.x < 0 || head.x >= tileCount || head.y < 0 || head.y >= tileCount {
        return true;
      }
      for i := 0 to |snake|
        invariant forall j :: 0 <= j < i ==> snake[j] != head
      {
        if head == snake[i] {
          return true;
        }
      }
      return false;
    }

    /** Ends the run (the timer is stopped). */
    method GameOver()
      requires Valid()
      modifies this`isGameRunning
      ensures Valid()
      ensures !isGameRunning
    {
      isGameRunning := false;
    }

    /** One tick: move the head one step; on a collision the game is over and
        nothing else changes; otherwise the new head goes in front, and either
        the snake eats (score +10, new food, faster ticks) or its tail drops. */
    method MoveSnake(draws: seq<Cell>)
      requires Valid() && isGameRunning
      requires var head := Step(snake[0], direction);
               !Collides(head, snake, tileCount) && food == Some(head) ==>
                 FoodDraws(draws, [head] + snake, tileCount)
      modifies this
      ensures Valid()
      ensures direction == old(direction)
      ensures var head := Step(old(snake)[0], old(direction));
              if Collides(head, old(snake), tileCount) then
                && !isGameRunning
                && snake == old(snake) && score == old(score)
                && food == old(food) && gameSpeed == old(gameSpeed)
              else if old(food) == Some(head) then
                && isGameRunning
                && snake == [head] + old(snake)
                && score == old(score) + FoodReward
                && food == Some(FirstFree(draws, snake))
                && gameSpeed == Sped(old(gameSpeed))
              else
                && isGameRunning
                && snake == [head] + old(snake)[..|old(snake)| - 1]
                && score == old(score)
                && food == old(food) && gameSpeed == old(gameSpeed)
    {
      var head := Step(snake[0], direction);

      var hit := CheckCollision(head);
      if hit {
        GameOver();
        return;
      }

      ghost var before := snake;
      snake := [head] + snake;

      if food == Some(head) {
        AdvancedKeepsShape(before, head, true, tileCount);
        assert snake == Advanced(before, head, true);
        score := score + FoodReward;
        GenerateFood(draws);
        FoodPlacement(draws, snake, tileCount);
        meals := meals + 1;
        if gameSpeed > MinSpeed {
          gameSpeed := gameSpeed - SpeedStep;
        }
      } else {
        snake := snake[..|snake| - 1];
        AdvancedKeepsShape(before, head, false, tileCount);
        assert snake == Advanced(before, head, false);
        assert food.value !in snake by {
          forall i | 0 <= i < |snake|
            ensures snake[i] != food.value
          {
            if i > 0 {
              assert snake[i] == before[i - 1];
            }
          }
        }
      }
    }

    /** The start/pause button: pauses a running game, otherwise starts a
        fresh one. */
    method StartGame(draws: seq<Cell>)
      requires Valid()
      requires !isGameRunning ==> FoodDraws(draws, InitialSnake, tileCount)
      modifies this
      ensures Valid()
      ensures isGameRunning == !old(isGameRunning)
      ensures gameSpeed == old(gameSpeed)
      ensures old(isGameRunning) ==>
                snake == old(snake) && food == old(food) &&
                direction == old(direction) && score == old(score)
      ensures !old(isGameRunning) ==>
                snake == InitialSnake && score == 0 && direction == Right &&
                food == Some(FirstFree(draws, InitialSnake))
    {
      if isGameRunning {
        isGameRunning := false;
      } else {
        InitGame(draws);
        isGameRunning := true;
      }
    }

    /** The touch buttons: while running, take the named direction unless it
        reverses the current one; unknown names are ignored. */
    method SetDirection(dir: string)
      requires Valid()
      modifies this`direction
      ensures Valid()
      ensures direction ==
                if isGameRunning && ParseDirection(dir).Some?
                then Turn(old(direction), ParseDirection(dir).value)
                else old(direction)
    {
      if !isGameRunning {
        return;
      }
      if dir == "up" && direction != Down { direction := Up; }
      if dir == "down" && direction != Up { direction := Down; }
      if dir == "left" && direction != Right { direction := Left; }
      if dir == "right" && direction != Left { direction := Right; }
    }

    /** The keydown handler: while running, an arrow key turns the snake
        unless it asks for the reverse of the current direction; other keys
        are ignored. */
    method KeyDown(key: string)
      requires Valid()
      modifies this`direction
      ensures Valid()
      ensures direction ==
                if isGameRunning && ParseArrowKey(key).Some?
                then Turn(old(direction), ParseArrowKey(key).value)
                else old(direction)
    {
      if !isGameRunning {
        return;
      }
      if key == "ArrowUp" {
        if direction != Down { direction := Up; }
      } else if key == "ArrowDown" {
        if direction != Up { direction := Down; }
      } else if key == "ArrowLeft" {
        if direction != Right { direction := Left; }
      } else if key == "ArrowRight" {
        if direction != Left { direction := Right; }
      }
    }
  }

  /** Whatever the number of meals so far, the tick interval of a game in a
      valid state lies between 50 and 100 ms and is even. */
  lemma SpeedInRange(g: Game)
    requires g.Valid()
    ensures MinSpeed <= g.gameSpeed <= StartSpeed && g.gameSpeed % 2 == 0
  {
    SpeedFromStart(g.meals);
  }

  /** The collision test runs before the tail is dropped, so a tick whose
      new head is the current tail cell ends the game, even though that cell
      would have been vacated by the same tick. */
  method TailChaseEndsGame(g: Game, draws: seq<Cell>)
    requires g.Valid() && g.isGameRunning
    requires Step(g.snake[0], g.direction) == g.snake[|g.snake| - 1]
    modifies g
    ensures g.Valid() && !g.isGameRunning
    ensures g.snake == old(g.snake) && g.score == old(g.score)
  {
    TailCellCollides(g.snake, g.tileCount);
    g.MoveSnake(draws);
  }

  /** A first meal: the snake starts at (5,5) heading right with the food
      drawn at (6,5); one tick grows it to four cells and scores 10. */
  method FirstMealScenario()
  {
    var g := new Game(20);
    assert Cell(6, 5) in [Cell(4, 5), Cell(6, 5)] && Cell(6, 5) !in InitialSnake;
    g.StartGame([Cell(4, 5), Cell(6, 5)]);
    assert g.food == Some(Cell(6, 5));
    assert Cell(10, 10) in [Cell(6, 5), Cell(10, 10)] && Cell(10, 10) !in [Cell(6, 5)] + g.snake;
    g.MoveSnake([Cell(6, 5), Cell(10, 10)]);
    assert g.snake == [Cell(6, 5), Cell(5, 5), Cell(4, 5), Cell(3, 5)];
    assert g.score == 10 && g.isGameRunning;
    assert g.food == Some(Cell(10, 10));
    assert g.gameSpeed == 98;
  }

  /** Up then left within one tick turns a right-moving snake onto its own
      neck: the next tick is a collision and the game ends with score 0. */
  method QuickReversalScenario()
  {
    var g := new Game(20);
    assert Cell(10, 10) in [Cell(10, 10)] && Cell(10, 10) !in InitialSnake;
    g.StartGame([Cell(10, 10)]);
    g.SetDirection("up");
    g.KeyDown("ArrowLeft");
    assert g.direction == Left;
    assert g.snake[1] == Step(g.snake[0], g.direction);
    g.MoveSnake([]);
    assert !g.isGameRunning && g.score == 0;
    assert g.snake == InitialSnake;
  }
}
