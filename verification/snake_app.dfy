/**
  The React snake game (component App in project/src/App.tsx) as a pure
  state machine. The component's state hooks become one record, and each
  handler call (moveSnake from the interval, handleKeyPress from the keyboard)
  is one atomic transition on it. Math.random is replaced by a food cell the
  caller supplies within generateFood's range.
 */
module SnakeApp {
  import opened GameBasics

  const GridSize: int := 20
  const InitialSpeed: int := 150
  const SpeedIncrease: int := 5
  const MinSpeed: int := 50
  const FoodScore: int := 10

  /** A grid cell: column x and row y, counted from the top-left corner. */
  datatype Position = Position(x: int, y: int)

  datatype AppState = AppState(
    snake: seq<Position>,   // head first, tail last
    food: Position,
    direction: Direction,
    gameOver: bool,
    score: int,
    highScore: int,
    speed: int,             // interval delay in milliseconds
    isPaused: bool)

  /** A key event as handleKeyPress distinguishes it. */
  datatype Key = Space | ArrowKey(d: Direction) | OtherKey

  /** The initial values of the component's state hooks. */
  function Init(): (a: AppState)
    ensures a.snake == [Position(10, 10)] && a.food == Position(15, 15)
    ensures a.direction == Right && !a.gameOver && !a.isPaused
    ensures a.score == 0 && a.highScore == 0 && a.speed == InitialSpeed
  {
    AppState([Position(10, 10)], Position(15, 15), Right, false, 0, 0, InitialSpeed, false)
  }

  /**
    Inside the board. This is also the range of generateFood, which floors
    Math.random() * GRID_SIZE on each axis and excludes no body cell.
   */
  predicate InGrid(p: Position) {
    0 <= p.x < GridSize && 0 <= p.y < GridSize
  }

  /**
    generateFood, with the two Math.random() draws as inputs in [0, 1): each
    coordinate is the draw times GRID_SIZE, rounded down.
   */
  function GenerateFood(u: real, v: real): (p: Position)
    requires 0.0 <= u < 1.0 && 0.0 <= v < 1.0
    ensures InGrid(p)
  {
    Position((u * GridSize as real).Floor, (v * GridSize as real).Floor)
  }

  /** Every cell of the board, the body's cells included, is a possible food cell. */
  lemma GenerateFoodCoversGrid(p: Position)
    requires InGrid(p)
    ensures GenerateFood(p.x as real / GridSize as real, p.y as real / GridSize as real) == p
  {
  }

  /** resetGame: a fresh one-cell snake and food; highScore is left alone. */
  function ResetGame(a: AppState, food: Position): (r: AppState)
    requires InGrid(food)
    ensures r.snake == [Position(10, 10)] && r.food == food
    ensures r.direction == Right && !r.gameOver && !r.isPaused
    ensures r.score == 0 && r.speed == InitialSpeed
    ensures r.highScore == a.highScore
  {
    AppState([Position(10, 10)], food, Right, false, 0, a.highScore, InitialSpeed, false)
  }

  /** The cell next to `p` in direction `d`, as moveSnake's switch computes it. */
  function MoveHead(p: Position, d: Direction): (q: Position)
    ensures q.x == p.x || q.y == p.y
    ensures q.x - p.x + q.y - p.y == 1 || q.x - p.x + q.y - p.y == -1
    ensures (d == Left || d == Right) <==> q.y == p.y
    ensures (d == Left || d == Up) <==> q.x + q.y < p.x + p.y
  {
    match d
    case Up => Position(p.x, p.y - 1)
    case Down => Position(p.x, p.y + 1)
    case Left => Position(p.x - 1, p.y)
    case Right => Position(p.x + 1, p.y)
  }

  /** Moving back in the opposite direction returns to the start. */
  lemma MoveHeadOppositeUndoes(p: Position, d: Direction)
    ensures MoveHead(MoveHead(p, d), Opposite(d)) == p
    ensures MoveHead(p, d) != p
  {
  }

  /** The candidate head leaves the board or meets a segment of the old body other than its head. */
  predicate Collides(snake: seq<Position>, head: Position) {
    !InGrid(head) || exists i :: 1 <= i < |snake| && snake[i] == head
  }

  /** checkCollision: the wall test, then the scan of snake[1..] of the current body. */
  method CheckCollision(snake: seq<Position>, head: Position) returns (hit: bool)
    ensures hit <==> Collides(snake, head)
  {
    if head.x < 0 || head.x >= GridSize || head.y < 0 || head.y >= GridSize {
      return true;
    }
    var i := 1;
    while i < |snake|
      invariant 1 <= i
      invariant forall j :: 1 <= j < |snake| && j < i ==> snake[j] != head
    {
      if snake[i] == head {
        return true;
      }
      i := i + 1;
    }
    return false;
  }

  /** The cell moveSnake would move the head to. */
  function NextHead(a: AppState): (head: Position)
    requires |a.snake| > 0
  {
    MoveHead(a.snake[0], a.direction)
  }

  /**
    moveSnake: nothing while over or paused; a collision with the wall or the
    current body (its tail included) ends the game without moving; otherwise
    the head advances and either eats (score, speed, new food) or drops the tail.
   */
  function MoveSnake(a: AppState, food: Position): (r: AppState)
    requires |a.snake| > 0 && InGrid(food)
    ensures a.gameOver || a.isPaused ==> r == a
    ensures !a.gameOver && !a.isPaused && Collides(a.snake, NextHead(a)) ==>
              r == a.(gameOver := true, highScore := Max(a.highScore, a.score))
    ensures !a.gameOver && !a.isPaused && !Collides(a.snake, NextHead(a)) ==>
              && !r.gameOver && r.highScore == a.highScore
              && (|r.snake| == |a.snake| + 1 || |r.snake| == |a.snake|)
              && (|r.snake| == |a.snake| + 1 <==> NextHead(a) == a.food)
              && r.snake[0] == NextHead(a)
              && r.snake[1..] == a.snake[..|r.snake| - 1]
    ensures r.score != a.score ==> r.score == a.score + FoodScore && r.food == food
    ensures r.score != a.score ==> r.speed == Max(a.speed - SpeedIncrease, MinSpeed)
    ensures r.score == a.score ==> r.speed == a.speed && r.food == a.food
    ensures !a.gameOver && !a.isPaused && !Collides(a.snake, NextHead(a)) ==>
              (r.score != a.score <==> NextHead(a) == a.food)
    ensures r.highScore >= a.highScore
    ensures r.direction == a.direction && r.isPaused == a.isPaused
    ensures |r.snake| > 0
  {
    if a.gameOver || a.isPaused then a
    else
      var head := NextHead(a);
      if Collides(a.snake, head) then
        a.(gameOver := true, highScore := if a.score > a.highScore then a.score else a.highScore)
      else
        var newSnake := [head] + a.snake;
        if head == a.food then
          a.(snake := newSnake, food := food, score := a.score + FoodScore,
             speed := Max(a.speed - SpeedIncrease, MinSpeed))
        else
          a.(snake := newSnake[..|newSnake| - 1])
  }

  /**
    handleKeyPress, written as App.tsx writes it (a switch). Space toggles pause in
    every state; any other key after game over resets; otherwise an arrow
    turns the snake unless it asks for the exact opposite heading. Pause
    does not block turning.
   */
  function HandleKey(a: AppState, k: Key, food: Position): (r: AppState)
    requires InGrid(food)
    ensures k == Space ==> r == a.(isPaused := !a.isPaused)
    ensures k != Space && a.gameOver ==> r == ResetGame(a, food)
    ensures k != Space && !a.gameOver ==> r == a.(direction := r.direction)
    ensures k.ArrowKey? && !a.gameOver && k.d != Opposite(a.direction) ==> r.direction == k.d
    ensures k.ArrowKey? && !a.gameOver && k.d == Opposite(a.direction) ==> r == a
    ensures k == OtherKey && !a.gameOver ==> r == a
    ensures r.highScore == a.highScore
  {
    match k
    case Space => a.(isPaused := !a.isPaused)
    case _ =>
      if a.gameOver then ResetGame(a, food)
      else
        match k
        case ArrowKey(d) =>
          (match d
           case Up => if a.direction != Down then a.(direction := Up) else a
           case Down => if a.direction != Up then a.(direction := Down) else a
           case Left => if a.direction != Right then a.(direction := Left) else a
           case Right => if a.direction != Left then a.(direction := Right) else a)
        case OtherKey => a
  }
}
