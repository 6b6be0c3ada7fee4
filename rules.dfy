/** The pure rules of the Snake game in game.js: grid cells, the four
    directions, one step of the head, the collision test, the food draw and
    the speed ramp, with the facts the game loop relies on. */
module SnakeRules {

  datatype Option<T> = None | Some(value: T)

  /** A grid cell; game.js keeps these as `{ x, y }` objects. The y axis
      points down the canvas, so 'up' decreases y. */
  datatype Cell = Cell(x: int, y: int)

  /** The four values of the `direction` variable. */
  datatype Direction = Up | Down | Left | Right

  /** Milliseconds per tick when the page loads. */
  const StartSpeed: int := 100
  /** The speed-up stops once the tick interval is no longer above this. */
  const MinSpeed: int := 50
  /** How much each meal shortens the tick interval. */
  const SpeedStep: int := 2
  /** Points per food eaten. */
  const FoodReward: int := 10

  /** The fixed three-cell snake a new game starts with, head first. */
  const InitialSnake: seq<Cell> := [Cell(5, 5), Cell(4, 5), Cell(3, 5)]

  function Opposite(d: Direction): (r: Direction)
    ensures r != d
  {
    match d
    case Up => Down
    case Down => Up
    case Left => Right
    case Right => Left
  }

  /** The lower-case name game.js uses for a direction. */
  function DirectionName(d: Direction): string
  {
    match d
    case Up => "up"
    case Down => "down"
    case Left => "left"
    case Right => "right"
  }

  /** The value of `event.key` for the arrow key of a direction. */
  function ArrowKeyName(d: Direction): string
  {
    match d
    case Up => "ArrowUp"
    case Down => "ArrowDown"
    case Left => "ArrowLeft"
    case Right => "ArrowRight"
  }

  /** The direction a `setDirection` argument names, if any. */
  function ParseDirection(s: string): (r: Option<Direction>)
    ensures r.Some? ==> DirectionName(r.value) == s
  {
    if s == "up" then Some(Up)
    else if s == "down" then Some(Down)
    else if s == "left" then Some(Left)
    else if s == "right" then Some(Right)
    else None
  }

  /** The direction an arrow key asks for; every other key asks for none. */
  function ParseArrowKey(key: string): (r: Option<Direction>)
    ensures r.Some? ==> ArrowKeyName(r.value) == key
  {
    if key == "ArrowUp" then Some(Up)
    else if key == "ArrowDown" then Some(Down)
    else if key == "ArrowLeft" then Some(Left)
    else if key == "ArrowRight" then Some(Right)
    else None
  }

  /** Every direction name and every arrow key is recognised as itself. */
  lemma ParseNames(d: Direction)
    ensures ParseDirection(DirectionName(d)) == Some(d)
    ensures ParseArrowKey(ArrowKeyName(d)) == Some(d)
  {
  }

  /** The direction after a request while the game runs: a request for the
      exact reverse of the current direction is ignored, any other request
      is taken as it is. */
  function Turn(current: Direction, requested: Direction): (r: Direction)
    ensures r != Opposite(current)
    ensures r == requested <==> requested != Opposite(current)
    ensures r != requested ==> r == current
  {
    if requested == Opposite(current) then current else requested
  }

  /** Because the guard compares a request with the current direction only,
      two requests between ticks can reverse the snake: from any direction,
      a quarter turn followed by the reverse lands on the reverse. */
  lemma TwoTurnsReverse(d: Direction)
    ensures exists m :: Turn(Turn(d, m), Opposite(d)) == Opposite(d)
  {
    var m := if d == Up || d == Down then Left else Up;
    assert Turn(Turn(d, m), Opposite(d)) == Opposite(d);
  }

  /** The cell one step from `c` in direction `d`. */
  function Step(c: Cell, d: Direction): (r: Cell)
    ensures (d == Up || d == Down) ==> r.x == c.x && (r.y - c.y) * (r.y - c.y) == 1
    ensures (d == Left || d == Right) ==> r.y == c.y && (r.x - c.x) * (r.x - c.x) == 1
  {
    match d
    case Up => Cell(c.x, c.y - 1)
    case Down => Cell(c.x, c.y + 1)
    case Left => Cell(c.x - 1, c.y)
    case Right => Cell(c.x + 1, c.y)
  }

  /** A step in the reverse direction undoes a step. */
  lemma StepBack(c: Cell, d: Direction)
    ensures Step(Step(c, d), Opposite(d)) == c
  {
  }

  predicate InBounds(c: Cell, tileCount: int)
  {
    0 <= c.x < tileCount && 0 <= c.y < tileCount
  }

  predicate AllInBounds(body: seq<Cell>, tileCount: int)
  {
    forall i :: 0 <= i < |body| ==> InBounds(body[i], tileCount)
  }

  /** No two segments of the snake share a cell. */
  predicate NoOverlap(body: seq<Cell>)
  {
    forall i, j :: 0 <= i < j < |body| ==> body[i] != body[j]
  }

  /** The collision test of game.js: the new head hits a wall (leaves the
      square [0, tileCount) x [0, tileCount)) or lands on a segment of the
      snake as it is before the move, its tail included. */
  predicate Collides(head: Cell, body: seq<Cell>, tileCount: int)
  {
    !InBounds(head, tileCount) || exists i :: 0 <= i < |body| && body[i] == head
  }

  /** The tail is still part of the body when the test runs, so stepping
      into the cell the tail is about to leave counts as a collision. */
  lemma TailCellCollides(body: seq<Cell>, tileCount: int)
    requires |body| > 0
    ensures Collides(body[|body| - 1], body, tileCount)
  {
  }

  /** The snake after a tick that did not collide: the new head in front,
      then every old segment (on a meal) or every old segment but the last. */
  function Advanced(body: seq<Cell>, head: Cell, grow: bool): (r: seq<Cell>)
    requires |body| > 0
    ensures |r| == if grow then |body| + 1 else |body|
    ensures r[0] == head
    ensures forall i :: 1 <= i < |r| ==> r[i] == body[i - 1]
  {
    if grow then [head] + body else [head] + body[..|body| - 1]
  }

  /** A tick that passes the collision test keeps the snake on the board and
      free of self-overlap, whether or not it eats. */
  lemma AdvancedKeepsShape(body: seq<Cell>, head: Cell, grow: bool, tileCount: int)
    requires |body| > 0
    requires AllInBounds(body, tileCount) && NoOverlap(body)
    requires !Collides(head, body, tileCount)
    ensures AllInBounds(Advanced(body, head, grow), tileCount)
    ensures NoOverlap(Advanced(body, head, grow))
  {
  }

  /** What the food draw asks of the random draws it will see: each lies on
      the board, and at least one lies off the snake. */
  predicate FoodDraws(draws: seq<Cell>, body: seq<Cell>, tileCount: int)
  {
    (forall c :: c in draws ==> InBounds(c, tileCount)) &&
    exists c :: c in draws && c !in body
  }

  /** The cell the food lands on: the first draw that is not on the snake. */
  function FirstFree(draws: seq<Cell>, body: seq<Cell>): (c: Cell)
    requires exists c :: c in draws && c !in body
    ensures c !in body
    ensures exists i :: 0 <= i < |draws| && draws[i] == c &&
                        forall j :: 0 <= j < i ==> draws[j] in body
    decreases |draws|
  {
    if draws[0] !in body then draws[0]
    else
      assert draws == [draws[0]] + draws[1..];
      var rest := FirstFree(draws[1..], body);
      assert forall j :: 1 <= j < |draws| ==> draws[j] == draws[1..][j - 1];
      rest
  }

  /** Where the food draw leaves the food: on the board and off the snake. */
  lemma FoodPlacement(draws: seq<Cell>, body: seq<Cell>, tileCount: int)
    requires FoodDraws(draws, body, tileCount)
    ensures InBounds(FirstFree(draws, body), tileCount)
    ensures FirstFree(draws, body) !in body
  {
  }

  /** The tick interval after one meal: it never grows, and an even
      interval at or above the floor stays even and at or above the floor. */
  function Sped(speed: int): (r: int)
    ensures r <= speed
    ensures speed >= MinSpeed && speed % 2 == 0 ==> r >= MinSpeed && r % 2 == 0
  {
    if speed > MinSpeed then speed - SpeedStep else speed
  }

  /** The tick interval after `meals` meals, starting from `speed`. */
  function SpeedAfter(speed: int, meals: nat): int
  {
    if meals == 0 then speed else Sped(SpeedAfter(speed, meals - 1))
  }

  /** From an even interval at or above the floor, each meal takes 2 off
      until the interval reaches the floor, where it stays. */
  lemma {:induction false} SpeedAfterClosedForm(speed: int, meals: nat)
    requires speed >= MinSpeed && speed % 2 == 0
    ensures SpeedAfter(speed, meals) ==
            if speed - SpeedStep * meals > MinSpeed then speed - SpeedStep * meals else MinSpeed
  {
    if meals > 0 {
      SpeedAfterClosedForm(speed, meals - 1);
    }
  }

  /** From the initial 100 ms the interval never drops below 50 ms, never
      rises, and stays even. */
  lemma SpeedFromStart(meals: nat)
    ensures MinSpeed <= SpeedAfter(StartSpeed, meals) <= StartSpeed
    ensures SpeedAfter(StartSpeed, meals) % 2 == 0
  {
    SpeedAfterClosedForm(StartSpeed, meals);
  }

  /** The starting snake is on the board and free of overlap whenever the
      board is at least six cells wide. */
  lemma InitialSnakeFits(tileCount: int)
    requires tileCount >= 6
    ensures AllInBounds(InitialSnake, tileCount) && NoOverlap(InitialSnake)
  {
  }
}
