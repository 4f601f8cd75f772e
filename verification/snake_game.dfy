/**
  The Tkinter snake game (class SnakeGame in project/snake.py) as a pure state
  machine. Canvas items are replaced by the coordinates they hold: every snake
  segment and the food are squares SpaceSize pixels wide, identified by their
  top-left corner in exact integer pixels. Timer scheduling is folded into the
  `started` flag: a next tick is pending exactly while the game is started.
 */
module SnakeGame {
  import opened GameBasics

  const GameWidth: int := 600
  const GameHeight: int := 400
  const SpaceSize: int := 20
  const BodySize: int := 3
  const InitialSpeed: int := 150
  const MinSpeed: int := 50
  const SpeedStep: int := 10
  const FoodScore: int := 10
  /** The speed-up fires whenever the new score is a multiple of this. */
  const SpeedUpEvery: int := 50

  /** Top-left pixel corner of a SpaceSize-wide square on the canvas. */
  type Point = (int, int)

  /** The food item: absent until the first game starts. */
  datatype Food = NoFood | FoodAt(at: Point)

  datatype Game = Game(
    started: bool,       // game_started
    over: bool,          // game_over_state
    direction: Direction,
    score: int,
    speed: int,          // SPEED, the tick delay in milliseconds
    snake: seq<Point>,   // head first, tail last
    food: Food)

  /** The state right after construction: welcome screen, empty body, no food. */
  function Init(): (g: Game)
    ensures !g.started && !g.over && g.score == 0 && g.speed == InitialSpeed
    ensures g.direction == Right && |g.snake| == 0 && g.food == NoFood
  {
    Game(false, false, Right, 0, InitialSpeed, [], NoFood)
  }

  /** Started and not yet over: the only state in which start_game does nothing. */
  predicate Playing(g: Game) {
    g.started && !g.over
  }

  /** The body laid out by create_snake: BodySize squares in a row, head rightmost. */
  function CreateSnake(): (body: seq<Point>)
    ensures body == [(150, 200), (130, 200), (110, 200)]
  {
    seq(BodySize, i => (GameWidth / 4 - i * SpaceSize, GameHeight / 2))
  }

  /** A point create_food can draw: both coordinates are randint(0, cells - 1) * SpaceSize. */
  predicate FoodCandidate(p: Point) {
    && 0 <= p.0 <= GameWidth - SpaceSize && p.0 % SpaceSize == 0
    && 0 <= p.1 <= GameHeight - SpaceSize && p.1 % SpaceSize == 0
  }

  /** A point create_food can settle on: a candidate overlapping no segment of `body`. */
  predicate Spawnable(p: Point, body: seq<Point>) {
    FoodCandidate(p) && p !in body
  }

  /** The overlap scan inside create_food's rejection loop. */
  method Overlaps(body: seq<Point>, p: Point) returns (overlap: bool)
    ensures overlap <==> p in body
    ensures !overlap && FoodCandidate(p) ==> Spawnable(p, body)
  {
    var i := 0;
    while i < |body|
      invariant 0 <= i <= |body|
      invariant forall j :: 0 <= j < i ==> body[j] != p
    {
      if body[i] == p {
        return true;
      }
      i := i + 1;
    }
    return false;
  }

  /** The square one SpaceSize step from `p` in direction `d`. */
  function Advance(p: Point, d: Direction): (q: Point)
    ensures q.0 == p.0 || q.1 == p.1
    ensures q.0 - p.0 + q.1 - p.1 == SpaceSize || q.0 - p.0 + q.1 - p.1 == -SpaceSize
    ensures (d == Left || d == Right) <==> q.1 == p.1
    ensures (d == Left || d == Up) <==> q.0 + q.1 < p.0 + p.1
  {
    match d
    case Left => (p.0 - SpaceSize, p.1)
    case Right => (p.0 + SpaceSize, p.1)
    case Up => (p.0, p.1 - SpaceSize)
    case Down => (p.0, p.1 + SpaceSize)
  }

  /** Stepping back in the opposite direction undoes a step. */
  lemma AdvanceOppositeUndoes(p: Point, d: Direction)
    ensures Advance(Advance(p, d), Opposite(d)) == p
    ensures Advance(p, d) != p
  {
  }

  /** A square lies on the canvas when its corner is inside [0, 600) x [0, 400). */
  predicate OnCanvas(p: Point) {
    0 <= p.0 < GameWidth && 0 <= p.1 < GameHeight
  }

  /** The game-over condition on a body whose head is at index 0. */
  predicate Fatal(snake: seq<Point>)
    requires |snake| > 0
  {
    !OnCanvas(snake[0]) || snake[0] in snake[1..]
  }

  /** check_game_over: the wall test, then the scan of every segment behind the head. */
  method CheckGameOver(snake: seq<Point>) returns (over: bool)
    requires |snake| > 0
    ensures over <==> Fatal(snake)
  {
    var head := snake[0];
    if head.0 < 0 || head.0 >= GameWidth || head.1 < 0 || head.1 >= GameHeight {
      return true;
    }
    var i := 1;
    while i < |snake|
      invariant 1 <= i <= |snake|
      invariant forall j :: 1 <= j < i ==> snake[j] != head
    {
      if snake[i] == head {
        assert snake[1..][i - 1] == head;
        return true;
      }
      i := i + 1;
    }
    return false;
  }

  /** The square the head moves to on the next tick. */
  function NextHead(g: Game): (head: Point)
    requires |g.snake| > 0
  {
    Advance(g.snake[0], g.direction)
  }

  /**
    check_food_collision on the tick about to happen: the new head covers the
    food, which happens exactly when the food lies one step ahead of the
    current head, never under it.
   */
  predicate Eats(g: Game)
    requires |g.snake| > 0
    ensures Eats(g) <==> g.food.FoodAt? && Advance(g.food.at, Opposite(g.direction)) == g.snake[0]
    ensures Eats(g) ==> g.food.at != g.snake[0]
  {
    g.food == FoodAt(NextHead(g))
  }

  /**
    What the food point supplied to a tick must satisfy: if the tick eats,
    create_food runs against the grown body and may return only a spawnable point.
   */
  predicate RefillOk(g: Game, refill: Point) {
    g.started && |g.snake| > 0 && Eats(g) ==> Spawnable(refill, [NextHead(g)] + g.snake)
  }

  /** game_over, flag updates only: no further tick is scheduled. */
  function GameOver(g: Game): (r: Game)
    ensures !r.started && r.over
    ensures r == g.(started := false, over := true)
  {
    g.(started := false, over := true)
  }

  /**
    One call of next_turn. The head advances, the food is eaten (score, new
    food, possible speed-up) or the tail is dropped, and only then is the game
    over check made on the resulting body.
   */
  function NextTurn(g: Game, refill: Point): (r: Game)
    requires g.started ==> |g.snake| > 0
    requires RefillOk(g, refill)
    ensures !g.started ==> r == g
    ensures g.started ==> |r.snake| == |g.snake| + 1 || |r.snake| == |g.snake|
    ensures g.started ==> (|r.snake| == |g.snake| + 1 <==> Eats(g))
    ensures g.started ==> r.snake[0] == NextHead(g)
    ensures g.started ==> r.snake[1..] == g.snake[..|r.snake| - 1]
    ensures g.started && Eats(g) ==> r.score == g.score + FoodScore && r.food == FoodAt(refill)
    ensures g.started && !Eats(g) ==> r.score == g.score && r.food == g.food
    ensures r.speed != g.speed ==> Eats(g) && r.score % SpeedUpEvery == 0
    ensures r.speed != g.speed ==> r.speed == Max(MinSpeed, g.speed - SpeedStep)
    ensures g.started && Eats(g) && r.score % SpeedUpEvery == 0 ==> r.speed == Max(MinSpeed, g.speed - SpeedStep)
    ensures g.speed >= MinSpeed ==> MinSpeed <= r.speed <= g.speed
    ensures g.started && Fatal(r.snake) ==> !r.started && r.over
    ensures g.started && !Fatal(r.snake) ==> r.started && r.over == g.over
    ensures r.direction == g.direction
  {
    if !g.started then g
    else
      var head := NextHead(g);
      var eaten := Eats(g);
      var score := if eaten then g.score + FoodScore else g.score;
      var speed := if eaten && score % SpeedUpEvery == 0 then Max(MinSpeed, g.speed - SpeedStep) else g.speed;
      var kept := if eaten then g.snake else g.snake[..|g.snake| - 1];
      var body := [head] + kept;
      assert body[0] == head && body[1..] == kept;
      var food := if eaten then FoodAt(refill) else g.food;
      var moved := g.(score := score, speed := speed, snake := body, food := food);
      if Fatal(body) then GameOver(moved) else moved
  }

  /** The resets start_game makes, with a given new body and food: SPEED is kept. */
  function ResetWith(g: Game, body: seq<Point>, food: Point): (r: Game) {
    Game(true, false, Right, 0, g.speed, body, FoodAt(food))
  }

  /** The resets start_game makes before its first tick. */
  function Reset(g: Game, food: Point): (r: Game)
    ensures Playing(r) && r.score == 0 && r.direction == Right
    ensures r.snake == [(150, 200), (130, 200), (110, 200)] && r.food == FoodAt(food)
    ensures r.speed == g.speed
  {
    ResetWith(g, CreateSnake(), food)
  }

  /**
    start_game: ignored while playing; otherwise a full reset (except SPEED),
    a fresh food point, and the immediate first next_turn. That first tick can
    never eat, because the new head's x is 170 and food x is a multiple of 20.
   */
  function StartGame(g: Game, food: Point): (r: Game)
    requires !Playing(g) ==> Spawnable(food, CreateSnake())
    ensures Playing(g) ==> r == g
    ensures !Playing(g) ==> Playing(r) && r.score == 0 && r.direction == Right
    ensures !Playing(g) ==> r.snake == [(170, 200), (150, 200), (130, 200)]
    ensures !Playing(g) ==> r.food == FoodAt(food) && r.speed == g.speed
  {
    if Playing(g) then g
    else
      var restarted := Reset(g, food);
      assert !Eats(restarted);
      NextTurn(restarted, food)
  }

  /**
    change_direction, written as snake.py writes it (a four-way test); the contract
    states it as the reversal rule: any heading but the exact opposite.
   */
  function ChangeDirection(g: Game, d: Direction): (r: Game)
    ensures r == g.(direction := r.direction)
    ensures !g.started ==> r.direction == g.direction
    ensures g.started && d != Opposite(g.direction) ==> r.direction == d
    ensures d == Opposite(g.direction) ==> r.direction == g.direction
  {
    if !g.started then g
    else if || (d == Left && g.direction != Right)
            || (d == Right && g.direction != Left)
            || (d == Up && g.direction != Down)
            || (d == Down && g.direction != Up)
    then g.(direction := d)
    else g
  }

  /**
    create_snake with starting_x rounded down to a multiple of SpaceSize
    (x = 140), so that the body shares the food grid.
   */
  function CreateAlignedSnake(): (body: seq<Point>)
    ensures body == [(140, 200), (120, 200), (100, 200)]
    ensures forall i :: 0 <= i < |body| ==> FoodCandidate(body[i])
  {
    seq(BodySize, i => (GameWidth / 4 / SpaceSize * SpaceSize - i * SpaceSize, GameHeight / 2))
  }

  /**
    start_game on the aligned body. Its first tick eats exactly when the food
    was placed on the square in front of the head.
   */
  function StartGameAligned(g: Game, food: Point, refill: Point): (r: Game)
    requires !Playing(g) ==> Spawnable(food, CreateAlignedSnake())
    requires !Playing(g) ==> RefillOk(ResetWith(g, CreateAlignedSnake(), food), refill)
    ensures Playing(g) ==> r == g
    ensures !Playing(g) ==> Playing(r) && r.direction == Right
    ensures !Playing(g) ==> (r.score == FoodScore <==> food == (160, 200))
    ensures !Playing(g) ==> (r.score == 0 <==> food != (160, 200))
    ensures !Playing(g) ==> |r.snake| == BodySize + r.score / FoodScore
  {
    if Playing(g) then g
    else NextTurn(ResetWith(g, CreateAlignedSnake(), food), refill)
  }
}
