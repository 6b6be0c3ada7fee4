# Snake game state machine in Dafny

This project models the game logic of a browser Snake game (`game.js`). A
snake of grid cells moves one cell per timer tick across a square board of
`tileCount` x `tileCount` cells. It grows by one cell and scores 10 points
when its head reaches the food, and the game ends when the head leaves the
board or lands on the snake. The arrow keys and the touch buttons turn the
snake. A start/pause button starts a fresh game or pauses a running one.

Two modules:

- `SnakeRules` (`rules.dfy`) holds the pure rules: cells and directions, one
  step of the head, the collision test, the turn rule, the food draw and the
  speed ramp, with lemmas about them.
- `SnakeGame` (`game.dfy`) holds class `Game`. Its fields are the module-level
  variables of `game.js` (`snake`, `food`, `direction`, `score`, `gameSpeed`,
  `isGameRunning`, and `tileCount` as a constant). Its methods are `initGame`,
  `generateFood`, `moveSnake`, `checkCollision`, `gameOver`, `startGame`,
  `setDirection` and the keydown handler. `Valid()` is the invariant every
  reachable state keeps:
  - the snake is on the board and never overlaps itself;
  - once a game has started, the snake has at least 3 cells;
  - the score is 10 times the number of cells grown beyond 3;
  - the food is on the board and off the snake;
  - `gameSpeed` is the interval after all meals eaten since the page loaded.
  Two client methods, `FirstMealScenario` and `QuickReversalScenario`, replay a
  first meal and a reversal made of two inputs within one tick, using only the
  methods' contracts.

Modelling choices:

- `Math.random()` is replaced by the sequence of cells it would draw
  (`draws`). Every draw lies on the board, and at least one draw must be off
  the snake. The food goes to the first such draw, as the retry recursion in
  `generateFood` does. A meal that fills the whole board is therefore outside
  the model (see "## Left out").
- `food` starts as the empty object `{}` in the source; the model uses `None`
  until the first game starts.
- `tileCount` is a constructor parameter of at least 6. The fixed starting
  snake (5,5), (4,5), (3,5) fits on such a board.
- The collision test runs against the snake before its tail is dropped. So
  moving into the cell the tail is about to leave ends the game
  (`TailCellCollides`, `TailChaseEndsGame`). The model keeps this behaviour
  as written.
- A turn request is checked against the current `direction` and written to it
  at once; there is no staged direction. So "up" then "left" within one tick
  reverses a right-moving snake onto its own neck (`TwoTurnsReverse`,
  `QuickReversalScenario`).
- `initGame` never resets `gameSpeed`, so the tick interval keeps its value
  from one game to the next.
- The run state is the single flag `isGameRunning`: paused and game over are
  the same state.

## Model

| member | source | states |
|---|---|---|
| SnakeRules.Step | game.js:71-86 | the new head is one cell away from the old head, along the y axis for up/down and along the x axis for left/right |
| SnakeRules.StepBack | game.js:73-86 | a step in the opposite direction undoes a step |
| SnakeRules.ParseDirection | game.js:160-163 | a recognised `setDirection` argument is exactly the name of the direction it gives |
| SnakeRules.ParseArrowKey | game.js:184-196 | a recognised key is exactly the arrow key of the direction it gives; other keys give none |
| SnakeRules.ParseNames | game.js:160-163 | every direction name and arrow key is recognised as its own direction |
| SnakeRules.Turn | game.js:158-164 | the result is never the reverse of the current direction; it is the request exactly when the request is not that reverse, and otherwise the current direction |
| SnakeRules.TwoTurnsReverse | game.js:181-198 | from every direction, some request followed by the reverse request ends on the reverse direction, because each request is checked only against the current direction |
| SnakeRules.TailCellCollides | game.js:119-124 | stepping onto the current tail cell counts as a collision |
| SnakeRules.Advanced | game.js:94-109 | after a tick without collision the snake is the new head followed by the old segments in order; its length grows by 1 on a meal and is unchanged otherwise |
| SnakeRules.AdvancedKeepsShape | game.js:89-127 | a tick that passes the collision test keeps a snake that is on the board and free of overlap in that state, with or without a meal |
| SnakeRules.FirstFree | game.js:31-44 | the food cell is off the snake and is the first draw that is off the snake; every earlier draw is on it |
| SnakeRules.FoodPlacement | game.js:31-44 | with draws on the board and one of them free, the food lands on the board and off the snake |
| SnakeRules.Sped | game.js:102-106 | a meal never lengthens the interval, and an even interval at or above 50 ms stays even and at or above 50 ms |
| SnakeRules.SpeedAfterClosedForm | game.js:102-106 | from an even interval of at least 50 ms, after k meals the interval is the larger of 50 and the start minus 2k |
| SnakeRules.SpeedFromStart | game.js:14 | from the initial 100 ms, the interval stays even, never rises and never drops below 50 ms |
| SnakeRules.InitialSnakeFits | game.js:19-23 | the three-cell starting snake is on any board of at least 6 x 6 cells and does not overlap itself |
| SnakeGame.Game.constructor | game.js:9-15 | the page-load state: empty snake, no food, direction right, score 0, interval 100 ms, not running |
| SnakeGame.Game.GenerateFood | game.js:31-44 | the retry loop leaves the food on the first draw that is off the snake |
| SnakeGame.Game.InitGame | game.js:18-28 | fixed three-cell snake, score 0, direction right, new food off the snake; the interval and the running flag are unchanged; the invariant holds |
| SnakeGame.Game.CheckCollision | game.js:113-127 | the wall test and the early-return scan give exactly `Collides`: true when the head is outside the board or equals some segment of the current snake |
| SnakeGame.Game.GameOver | game.js:130-132 | the game stops running |
| SnakeGame.Game.MoveSnake | game.js:70-110 | on a collision only the running flag changes, to false; on a meal the new head is put in front of all old segments, the score grows by 10, new food is placed off the longer snake and the interval is sped up; otherwise the head goes in front and the last segment drops, with score, food and interval unchanged; the invariant (on the board, no overlap, score tied to length, food off the snake, interval floor) is preserved |
| SnakeGame.Game.StartGame | game.js:144-155 | a running game is paused with its state kept; otherwise a fresh game starts and runs; the interval is unchanged either way |
| SnakeGame.Game.SetDirection | game.js:158-164 | not running or an unknown name: the direction is unchanged; otherwise the direction becomes the turn rule's result for the request |
| SnakeGame.Game.KeyDown | game.js:181-198 | not running or a key other than an arrow: the direction is unchanged; otherwise the direction becomes the turn rule's result for the arrow |
| SnakeGame.SpeedInRange | game.js:102-106 | in every valid state, whatever the meals eaten since page load, the interval is even and between 50 and 100 ms |
| SnakeGame.TailChaseEndsGame | game.js:89-92 | a running game whose next head is the current tail cell is over after the tick, with snake and score unchanged |

## Left out

- `draw` (game.js:47-67): canvas painting and colours.
- `gameLoop` (game.js:138-141) is `moveSnake` followed by `draw`. The model has
  no separate member for it.
- The score label, the button labels and the game-over `alert`: user-facing
  output.
- `setInterval` and `clearInterval`: the running timer is the flag
  `isGameRunning` and its period is `gameSpeed`. `MoveSnake` requires a
  running game, because the timer only calls it then.
- The touch-button listeners and `showTouchControlsIfMobile`: page wiring.
  Their effect is `SetDirection`, which is modelled.
- `Math.random()`: replaced by the `draws` parameter.
- A meal that leaves no free cell. In the source, `generateFood` then calls
  itself at game.js:40 without end. That call is not a tail call, so the
  stack overflows and a `RangeError` leaves `moveSnake` at game.js:100. By
  then the snake has already grown (game.js:94) and the score has risen by
  10 (game.js:98). The speed change (game.js:102-106) never happens, `draw`
  is skipped, and the interval keeps firing. `MoveSnake` and `GenerateFood`
  require `FoodDraws`, which asks for a draw off the snake, so they exclude
  this full-board meal.
- Reading `tileCount` from the canvas width: it is a parameter. Boards smaller
  than 6 cells, or a width that is not a multiple of the grid size, are not
  modelled.
