/**
  Runs of the React snake game: key presses and interval ticks as events,
  their composition into runs from the initial hook values, and the
  invariants every run keeps.
 */
module SnakeAppRuns {
  import opened GameBasics
  import opened SnakeApp

  /** What the component reacts to, each carrying the cell generateFood would return. */
  datatype Event =
    | Press(key: Key, food: Position)   // keydown: handleKeyPress
    | Interval(food: Position)          // the setInterval callback: moveSnake

  /** The body has a head for moveSnake to read. */
  predicate WellFormed(a: AppState) {
    |a.snake| > 0
  }

  /** The supplied food cell is one generateFood can produce. */
  predicate Admissible(e: Event) {
    InGrid(e.food)
  }

  /** One handler call, run to completion. */
  function Step(a: AppState, e: Event): (r: AppState)
    requires WellFormed(a) && Admissible(e)
    ensures WellFormed(r)
    ensures r.highScore >= a.highScore
  {
    match e
    case Press(k, food) => HandleKey(a, k, food)
    case Interval(food) => MoveSnake(a, food)
  }

  /** Every event of `evs` supplies a cell in generateFood's range. */
  predicate ValidRun(evs: seq<Event>) {
    forall i :: 0 <= i < |evs| ==> Admissible(evs[i])
  }

  /** The state after handling `evs` in order, starting from `a`. */
  function Run(a: AppState, evs: seq<Event>): (r: AppState)
    requires WellFormed(a) && ValidRun(evs)
    ensures WellFormed(r)
    decreases |evs|
  {
    if |evs| == 0 then a else Run(Step(a, evs[0]), evs[1..])
  }

  /** highScore never decreases over a whole run. */
  lemma {:induction false} RunNeverLowersHighScore(a: AppState, evs: seq<Event>)
    requires WellFormed(a) && ValidRun(evs)
    ensures Run(a, evs).highScore >= a.highScore
    decreases |evs|
  {
    if |evs| > 0 {
      assert ValidRun(evs[1..]) by {
        forall i | 0 <= i < |evs[1..]|
          ensures Admissible(evs[1..][i])
        {
          assert evs[1..][i] == evs[i + 1];
        }
      }
      RunNeverLowersHighScore(Step(a, evs[0]), evs[1..]);
    }
  }

  /**
    The reachable-state invariant: one segment per 10 points plus the head,
    no cell covered twice, every segment and the food on the board, speed a multiple of 5 between 50
    and 150, and after game over the high score covers the final score.
   */
  predicate Healthy(a: AppState) {
    && a.score >= 0 && a.score % FoodScore == 0
    && |a.snake| == 1 + a.score / FoodScore
    && Distinct(a.snake)
    && (forall i :: 0 <= i < |a.snake| ==> InGrid(a.snake[i]))
    && InGrid(a.food)
    && MinSpeed <= a.speed <= InitialSpeed && a.speed % SpeedIncrease == 0
    && a.highScore >= 0 && a.highScore % FoodScore == 0
    && (a.gameOver ==> a.highScore >= a.score)
  }

  lemma InitHealthy()
    ensures Healthy(Init())
  {
  }

  lemma StepKeepsHealthy(a: AppState, e: Event)
    requires Healthy(a) && Admissible(e)
    ensures WellFormed(a)
    ensures Healthy(Step(a, e))
  {
    var r := Step(a, e);
    if e.Interval? && !a.gameOver && !a.isPaused && !Collides(a.snake, NextHead(a)) {
      forall i | 0 <= i < |r.snake|
        ensures InGrid(r.snake[i])
      {
        if i > 0 {
          assert r.snake[i] == r.snake[1..][i - 1] == a.snake[i - 1];
        }
      }
      var head := NextHead(a);
      var kept := |r.snake| - 1;
      assert r.snake == [head] + a.snake[..kept];
      MoveHeadOppositeUndoes(a.snake[0], a.direction);
      assert head !in a.snake[..kept] by {
        forall i | 0 <= i < kept
          ensures a.snake[..kept][i] != head
        {
          if i > 0 {
            assert !(1 <= i < |a.snake| && a.snake[i] == head);
          }
        }
      }
      PrependKeepsDistinct(head, a.snake, kept);
    }
  }

  lemma {:induction false} RunKeepsHealthy(a: AppState, evs: seq<Event>)
    requires Healthy(a) && ValidRun(evs)
    ensures WellFormed(a)
    ensures Healthy(Run(a, evs))
    decreases |evs|
  {
    if |evs| > 0 {
      StepKeepsHealthy(a, evs[0]);
      assert ValidRun(evs[1..]) by {
        forall i | 0 <= i < |evs[1..]|
          ensures Admissible(evs[1..][i])
        {
          assert evs[1..][i] == evs[i + 1];
        }
      }
      RunKeepsHealthy(Step(a, evs[0]), evs[1..]);
    }
  }

  /** Every run from the initial hook values ends in a Healthy state. */
  lemma ReachableHealthy(evs: seq<Event>)
    requires ValidRun(evs)
    ensures Healthy(Run(Init(), evs))
    ensures Run(Init(), evs).speed >= MinSpeed
    ensures |Run(Init(), evs).snake| * FoodScore == Run(Init(), evs).score + FoodScore
  {
    InitHealthy();
    RunKeepsHealthy(Init(), evs);
  }

  /**
    The collision test runs on the body before the move, tail included, so
    stepping into the cell the tail occupies ends the game, and the tick
    leaves body, food, score and speed as they were.
   */
  lemma TailEntryIsFatal(a: AppState, food: Position)
    requires InGrid(food) && !a.gameOver && !a.isPaused && |a.snake| >= 2
    requires NextHead(a) == a.snake[|a.snake| - 1]
    ensures MoveSnake(a, food).gameOver
    ensures MoveSnake(a, food).snake == a.snake && MoveSnake(a, food).score == a.score
  {
    assert Collides(a.snake, NextHead(a));
  }

  /** Food is not kept off the body: a reset may put it right under the head. */
  lemma FoodMayCoverBody(a: AppState)
    ensures GenerateFood(0.5, 0.5) == Position(10, 10)
    ensures ResetGame(a, GenerateFood(0.5, 0.5)).food == ResetGame(a, GenerateFood(0.5, 0.5)).snake[0]
  {
  }
}
