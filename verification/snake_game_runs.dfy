/**
  Runs of the Tkinter snake game: the key bindings and the tick timer as
  events, their composition into runs from the freshly constructed game, and
  the invariants every run keeps.
 */
module SnakeGameRuns {
  import opened GameBasics
  import opened SnakeGame

  /** What the game reacts to, each carrying the food point it may need. */
  datatype Event =
    | Arrow(d: Direction)      // <Left>, <Right>, <Up>, <Down>: change_direction
    | StartKey(food: Point)    // <space> or <Return>: start_game, with create_food's pick
    | Timer(refill: Point)     // the pending master.after callback: next_turn

  /** The body is there whenever a tick can read its head. */
  predicate WellFormed(g: Game) {
    g.started ==> |g.snake| > 0
  }

  /** The food points an event supplies are ones create_food could return. */
  predicate Admissible(g: Game, e: Event) {
    match e
    case Arrow(_) => true
    case StartKey(food) => !Playing(g) ==> Spawnable(food, CreateSnake())
    case Timer(refill) => RefillOk(g, refill)
  }

  /** One handler call, run to completion. */
  function Step(g: Game, e: Event): (r: Game)
    requires WellFormed(g) && Admissible(g, e)
    ensures WellFormed(r)
  {
    match e
    case Arrow(d) => ChangeDirection(g, d)
    case StartKey(food) => StartGame(g, food)
    case Timer(refill) => NextTurn(g, refill)
  }

  /** Every event of `evs`, applied in order from `g`, is admissible where it happens. */
  predicate ValidRun(g: Game, evs: seq<Event>)
    requires WellFormed(g)
    decreases |evs|
  {
    |evs| == 0 || (Admissible(g, evs[0]) && ValidRun(Step(g, evs[0]), evs[1..]))
  }

  /** The state after handling `evs` in order, starting from `g`. */
  function Run(g: Game, evs: seq<Event>): (r: Game)
    requires WellFormed(g) && ValidRun(g, evs)
    ensures WellFormed(r)
    decreases |evs|
  {
    if |evs| == 0 then g else Run(Step(g, evs[0]), evs[1..])
  }

  // ---------------------------------------------------------------------------
  // The general invariant: score, speed, length and food placement.
  // ---------------------------------------------------------------------------

  /**
    Score is a non-negative multiple of 10, SPEED is at least 50, the two
    flags are never both set, the body has one extra segment per food eaten,
    and while a game runs no square holds two segments and the food sits on
    the food grid, off the body.
   */
  predicate Sane(g: Game) {
    && g.score >= 0 && g.score % FoodScore == 0
    && g.speed >= MinSpeed
    && !(g.started && g.over)
    && (g.started || g.over ==> |g.snake| == BodySize + g.score / FoodScore)
    && (g.started ==> g.food.FoodAt? && Spawnable(g.food.at, g.snake))
    && (g.started ==> Distinct(g.snake))
  }

  lemma InitSane()
    ensures Sane(Init()) && WellFormed(Init())
  {
  }

  /** Every admissible event keeps Sane, from any state at all. */
  lemma StepKeepsSane(g: Game, e: Event)
    requires Sane(g) && Admissible(g, e)
    ensures WellFormed(g)
    ensures Sane(Step(g, e))
  {
    var r := Step(g, e);
    match e
    case Arrow(d) =>
    case StartKey(food) =>
      if !Playing(g) {
        assert r.snake == [(170, 200), (150, 200), (130, 200)];
        assert food !in r.snake;
      }
    case Timer(refill) =>
      if g.started {
        var n := |g.snake|;
        var kept := if Eats(g) then n else n - 1;
        assert r.snake == [NextHead(g)] + g.snake[..kept];
        if !Eats(g) {
          assert g.food.at !in g.snake[..n - 1];
        }
        if r.started {
          assert NextHead(g) !in r.snake[1..];
          PrependKeepsDistinct(NextHead(g), g.snake, kept);
        }
      }
  }

  lemma {:induction false} RunKeepsSane(g: Game, evs: seq<Event>)
    requires Sane(g) && ValidRun(g, evs)
    ensures WellFormed(g)
    ensures Sane(Run(g, evs))
    decreases |evs|
  {
    if |evs| > 0 {
      StepKeepsSane(g, evs[0]);
      RunKeepsSane(Step(g, evs[0]), evs[1..]);
    }
  }

  /**
    Every run from the constructed game keeps Sane: in particular, while a
    game runs, no square holds two segments and the food is off the body.
   */
  lemma ReachableSane(evs: seq<Event>)
    requires ValidRun(Init(), evs)
    ensures Sane(Run(Init(), evs))
    ensures Run(Init(), evs).started ==> Distinct(Run(Init(), evs).snake)
  {
    InitSane();
    RunKeepsSane(Init(), evs);
  }

  /**
    With the food off the body and on the canvas, a tick that eats is never
    fatal: eating and game over cannot fall on the same tick, even though the
    score is updated before the game-over check.
   */
  lemma EatingTickNeverFatal(g: Game, refill: Point)
    requires Sane(g) && Playing(g) && Eats(g) && RefillOk(g, refill)
    ensures Playing(NextTurn(g, refill))
    ensures NextTurn(g, refill).score == g.score + FoodScore
  {
    var r := NextTurn(g, refill);
    assert r.snake == [NextHead(g)] + g.snake;
    assert r.snake[1..] == g.snake;
  }

  /** The corrected start keeps Sane too, including when its first tick eats. */
  lemma AlignedStartSane(g: Game, food: Point, refill: Point)
    requires Sane(g) && !Playing(g)
    requires Spawnable(food, CreateAlignedSnake())
    requires RefillOk(ResetWith(g, CreateAlignedSnake(), food), refill)
    ensures Sane(StartGameAligned(g, food, refill))
  {
    var restarted := ResetWith(g, CreateAlignedSnake(), food);
    assert Sane(restarted);
    StepKeepsSane(restarted, Timer(refill));
    assert Step(restarted, Timer(refill)) == StartGameAligned(g, food, refill);
  }

  /**
    Entering the square the tail is just leaving is not fatal, because the
    tail is popped before check_game_over runs.
   */
  lemma TailChaseNotFatal(g: Game, refill: Point)
    requires Sane(g) && Playing(g) && |g.snake| >= 2 && !Eats(g)
    requires NextHead(g) == g.snake[|g.snake| - 1] && OnCanvas(NextHead(g))
    ensures Playing(NextTurn(g, refill))
  {
    var r := NextTurn(g, refill);
    var n := |g.snake|;
    forall i | 0 <= i < n - 1
      ensures g.snake[i] != NextHead(g)
    {
      assert g.snake[i] != g.snake[n - 1];
    }
    assert r.snake[1..] == g.snake[..n - 1];
  }

  /**
    The reversal rule compares with the last accepted heading, not the last
    heading moved: while moving right, Up then Left before the next tick is
    accepted, and on that tick the head runs into the segment behind it.
   */
  lemma QuickReversalIsFatal(g: Game, refill: Point)
    requires Playing(g) && |g.snake| >= 3 && g.direction == Right
    requires g.snake[1] == Advance(g.snake[0], Left)
    ensures ChangeDirection(ChangeDirection(g, Up), Left).direction == Left
    ensures RefillOk(ChangeDirection(ChangeDirection(g, Up), Left), refill) ==>
              NextTurn(ChangeDirection(ChangeDirection(g, Up), Left), refill).over
  {
    var h := ChangeDirection(ChangeDirection(g, Up), Left);
    if RefillOk(h, refill) {
      var r := NextTurn(h, refill);
      assert r.snake[0] == g.snake[1];
      assert r.snake[1..][0] == g.snake[0];
      assert r.snake[1..][1] == g.snake[1];
    }
  }

  // ---------------------------------------------------------------------------
  // The parity invariant of reachable states.
  // ---------------------------------------------------------------------------

  /** A column that is an odd multiple of SpaceSize / 2, as every segment's is. */
  predicate HalfStepColumn(p: Point) {
    p.0 % SpaceSize == SpaceSize / 2
  }

  /**
    Every segment's x is 10 (mod 20), the food is on the food grid (x a
    multiple of 20), nothing has ever been eaten, and the body is either not
    yet created or exactly BodySize long.
   */
  predicate Misaligned(g: Game) {
    && (forall i :: 0 <= i < |g.snake| ==> HalfStepColumn(g.snake[i]))
    && (g.food.FoodAt? ==> FoodCandidate(g.food.at))
    && g.score == 0 && g.speed == InitialSpeed
    && (|g.snake| == 0 || |g.snake| == BodySize)
    && (g.started ==> |g.snake| == BodySize)
    && !(g.started && g.over)
  }

  /** A head on a half-step column can never land on the food grid. */
  lemma MisalignedHeadMissesFood(g: Game)
    requires Misaligned(g) && g.started
    ensures !Eats(g)
  {
    var h := g.snake[0];
    assert HalfStepColumn(h);
    var n := NextHead(g);
    assert n.0 == h.0 || n.0 == h.0 + SpaceSize || n.0 == h.0 - SpaceSize;
    assert HalfStepColumn(n);
  }

  lemma StepKeepsMisaligned(g: Game, e: Event)
    requires Misaligned(g) && Admissible(g, e)
    ensures WellFormed(g)
    ensures Misaligned(Step(g, e))
  {
    var r := Step(g, e);
    match e
    case Arrow(d) =>
    case StartKey(food) =>
      if !Playing(g) {
        assert r.snake == [(170, 200), (150, 200), (130, 200)];
      }
    case Timer(refill) =>
      if g.started {
        TickKeepsMisaligned(g, refill);
      }
  }

  /** The tick case: nothing is eaten, so the body only shifts by one half-step column. */
  lemma TickKeepsMisaligned(g: Game, refill: Point)
    requires Misaligned(g) && g.started && RefillOk(g, refill)
    ensures Misaligned(NextTurn(g, refill))
  {
    MisalignedHeadMissesFood(g);
    var r := NextTurn(g, refill);
    var h := g.snake[0];
    var n := NextHead(g);
    assert n.0 == h.0 || n.0 == h.0 + SpaceSize || n.0 == h.0 - SpaceSize;
    assert HalfStepColumn(n);
    assert r.snake == [n] + g.snake[..|g.snake| - 1];
    assert r.score == g.score && r.speed == g.speed && r.food == g.food;
    forall i | 0 <= i < |r.snake|
      ensures HalfStepColumn(r.snake[i])
    {
      if i > 0 {
        assert r.snake[i] == g.snake[i - 1];
      }
    }
  }

  lemma {:induction false} RunKeepsMisaligned(g: Game, evs: seq<Event>)
    requires Misaligned(g) && ValidRun(g, evs)
    ensures WellFormed(g)
    ensures Misaligned(Run(g, evs))
    decreases |evs|
  {
    if |evs| > 0 {
      StepKeepsMisaligned(g, evs[0]);
      RunKeepsMisaligned(Step(g, evs[0]), evs[1..]);
    }
  }

  /**
    In every run from the constructed game, check_food_collision never
    succeeds: the score stays 0, SPEED stays 150, and every created body
    keeps exactly BodySize segments.
   */
  lemma ReachableNeverEats(evs: seq<Event>)
    requires ValidRun(Init(), evs)
    ensures Run(Init(), evs).score == 0
    ensures Run(Init(), evs).speed == InitialSpeed
    ensures |Run(Init(), evs).snake| in {0, BodySize}
    ensures Run(Init(), evs).started ==> !Eats(Run(Init(), evs))
  {
    RunKeepsMisaligned(Init(), evs);
    var g := Run(Init(), evs);
    if g.started {
      MisalignedHeadMissesFood(g);
    }
  }
}
