# Snake game, modelled in Dafny

The repository holds two independent implementations of the same Snake game.
Once drawing, timers and randomness are taken out, each is a small
deterministic state machine. Both are modelled here as immutable state records
with pure transition functions. Invariants are proved by induction over
sequences of events.

- `project/snake.py`, the Tkinter class `SnakeGame` (modules `SnakeGame`, `SnakeGameRuns`).
  - State: `game_started`, `game_over_state`, `direction`, `score`, `SPEED`,
    the body as an ordered list of segments, and the food.
  - Coordinates: every canvas item is a 20-pixel square. It is identified by
    its top-left corner in exact integer pixels, as the canvas stores it.
    Comparing two `canvas.coords` lists is therefore comparing corners.
  - Transitions: `start_game`, `change_direction`, and one tick of `next_turn`
    with `check_food_collision` and `check_game_over`.
  - Timer: a next tick is pending exactly while `game_started` holds. The
    `Timer` event is that tick.
- `project/src/App.tsx`, the React component `App` (modules `SnakeApp`, `SnakeAppRuns`).
  - State: the state hooks become one `AppState` record.
  - Transitions: each handler call is one atomic transition. These are
    `moveSnake` (with `checkCollision`), the `handleKeyPress` logic, and `resetGame`.
- `GameBasics` holds what both share: the four headings, `Opposite`, `Max`,
  the no-repeats predicate `Distinct`, and `PrependKeepsDistinct`.

Food placement is random in both programs. It is modelled as a point the
caller supplies. That point must meet the placement constraints:
- `snake.py`: on the 30×20 food grid and off the current body. This is only
  required when the point is actually used.
- `App.tsx`: inside generateFood's range `[0,20)×[0,20)`.

Main results:
- In `snake.py`, the body starts at x = 150, 130, 110, and food x is always a
  multiple of 20. So every segment keeps x ≡ 10 (mod 20), and the head can
  never land on the food. In every run the score stays 0, SPEED stays 150 and
  the body is empty before the first start and 3 long after it
  (`SnakeGameRuns.ReachableNeverEats`). See "## Findings".
- Apart from that, the general invariant (`SnakeGameRuns.Sane`) is preserved
  by every admissible event, from any state that satisfies it:
  - score is a non-negative multiple of 10;
  - SPEED is at least 50;
  - there is one extra segment per food eaten;
  - while a game runs, no square holds two segments and the food is off the body.
- With the food off the body, a tick that eats is never fatal
  (`SnakeGameRuns.EatingTickNeverFatal`). This holds even though `next_turn`
  adds the score before it checks for game over.
- In `App.tsx` every reachable state satisfies `SnakeAppRuns.Healthy`:
  - |snake| = 1 + score/10;
  - no cell holds two segments;
  - every cell and the food are on the board;
  - speed is in [50,150];
  - after game over, highScore ≥ score.
- highScore never decreases over a run.

Behaviour of the code worth noting:
- `start_game` does not reset SPEED.
- `start_game` runs the first `next_turn` at once. So the state right after a
  start already has the body `(170,200),(150,200),(130,200)`.
- In `snake.py` the food stays off the body in every reachable state while a
  game runs, so an eating tick is never also fatal. This holds even though the score is added
  before the game-over check.
- `App.tsx` does not keep food off the body.
- `App.tsx` checks collisions before the move, against the old body including
  its tail.

## Model

| member | source | states |
|---|---|---|
| GameBasics.Opposite | project/snake.py:228-231 | the reversal partner of each heading is a different heading on the same axis |
| GameBasics.OppositeInvolutive | project/src/App.tsx:111-122 | the reversal pairs are symmetric: reversing twice is the identity, and only Opposite(d) reverses to d |
| GameBasics.Max | project/snake.py:164 | the larger of the two arguments: at least both and equal to one of them (Python's `max` here, `Math.max` at project/src/App.tsx:90) |
| GameBasics.PrependKeepsDistinct | project/snake.py:155-167 | a new head in front of a prefix of a repeat-free body gives a repeat-free body when the head is not in that prefix |
| SnakeGame.Init | project/snake.py:11-50 | before any start: not started, not over, score 0, SPEED 150, heading right, no body and no food |
| SnakeGame.CreateSnake | project/snake.py:90-95 | the created body is exactly (150,200),(130,200),(110,200), head first |
| SnakeGame.Overlaps | project/snake.py:110-116 | the overlap scan reports a hit iff the candidate corner equals some segment's corner; no hit on a grid candidate means the point can be placed |
| SnakeGame.Advance | project/snake.py:136-147 | the new head differs from the old one on exactly one axis, by exactly 20 pixels: Left and Right keep y, Up and Down keep x, and Left and Up decrease a coordinate while Right and Down increase one |
| SnakeGame.AdvanceOppositeUndoes | project/snake.py:136-147 | a step followed by a step in the opposite heading returns to the start, and no step stays in place |
| SnakeGame.CheckGameOver | project/snake.py:180-195 | the result is true iff the head's corner is outside [0,600)×[0,400) or equals the corner of some later segment |
| SnakeGame.Eats | project/snake.py:175-178 | the tick about to happen eats iff the food's corner is one step ahead of the head's, i.e. the new head's corner equals the food's; the food is then never under the current head |
| SnakeGame.GameOver | project/snake.py:197-199 | game over clears game_started, sets game_over_state, and changes nothing else |
| SnakeGame.NextTurn | project/snake.py:129-173 | no-op unless started. Otherwise: the new head is one step ahead and the rest of the body is a prefix of the old one; length grows by one iff the head meets the food; score +10 and new food only then; SPEED becomes max(50, SPEED-10) exactly on eating ticks whose new score is a multiple of 50 and is unchanged otherwise; game over iff the resulting body is fatal |
| SnakeGame.Reset | project/snake.py:78-87 | start_game's resets: started, not over, score 0, heading right, the created body, the new food; SPEED kept |
| SnakeGame.StartGame | project/snake.py:77-88 | no-op while playing. Otherwise, after the immediate first tick: playing, score 0, heading right, body (170,200),(150,200),(130,200), the new food, SPEED unchanged |
| SnakeGame.ChangeDirection | project/snake.py:224-232 | only the heading can change; not at all when not started; when started, the new heading is taken iff it is not the exact opposite of the current one |
| SnakeGame.CreateAlignedSnake | project/snake.py:91-95 | the corrected body (140,200),(120,200),(100,200) lies on the food grid |
| SnakeGame.StartGameAligned | project/snake.py:77-95 | with the corrected body, the first tick eats (score 10, one extra segment) iff the food was placed at (160,200) |
| SnakeGameRuns.Step | project/snake.py:53-58 | every key handler and tick keeps a body in place whenever a tick can read the head |
| SnakeGameRuns.Run | project/snake.py:129-134 | a run of admissible events never reaches a started state without a body |
| SnakeGameRuns.InitSane | project/snake.py:11-50 | the constructed game satisfies the score, SPEED, length and food invariant |
| SnakeGameRuns.StepKeepsSane | project/snake.py:157-167 | every admissible event keeps: score a non-negative multiple of 10, SPEED ≥ 50, flags not both set, length 3 + score/10, food on the grid and off the body and no repeated square while started |
| SnakeGameRuns.RunKeepsSane | project/snake.py:157-171 | the same invariant holds after any admissible run |
| SnakeGameRuns.ReachableSane | project/snake.py:169-193 | every run from the constructed game keeps the invariant; while a game runs no square holds two segments |
| SnakeGameRuns.AlignedStartSane | project/snake.py:77-95 | the corrected start also establishes the invariant, including when its first tick eats |
| SnakeGameRuns.EatingTickNeverFatal | project/snake.py:157-171 | with food on the grid and off the body, an eating tick adds 10 and never ends the game |
| SnakeGameRuns.TailChaseNotFatal | project/snake.py:165-193 | in any state with the invariant (so no square holds two segments), moving onto the square the tail is leaving is not fatal, because the tail is popped before the check |
| SnakeGameRuns.QuickReversalIsFatal | project/snake.py:228-232 | reversal is judged against the last accepted heading: Up then Left while moving right is accepted, and the next tick runs the head into the segment behind it |
| SnakeGameRuns.MisalignedHeadMissesFood | project/snake.py:175-178 | a head with x ≡ 10 (mod 20) can never step onto food whose x is a multiple of 20 |
| SnakeGameRuns.StepKeepsMisaligned | project/snake.py:91-108 | every admissible event keeps: all segments at x ≡ 10 (mod 20), food on the grid, score 0, SPEED 150, length 0 or 3 |
| SnakeGameRuns.TickKeepsMisaligned | project/snake.py:133-167 | a tick from a parity state eats nothing, keeps score and SPEED, and keeps every segment at x ≡ 10 (mod 20) |
| SnakeGameRuns.RunKeepsMisaligned | project/snake.py:129-167 | the parity invariant holds after any admissible run |
| SnakeGameRuns.ReachableNeverEats | project/snake.py:157-164 | in every run from the constructed game: score 0, SPEED 150, length 0 or 3, and the next tick never eats |
| SnakeApp.Init | project/src/App.tsx:13-20 | the initial hook values: snake [(10,10)], food (15,15), RIGHT, not over, not paused, scores 0, speed 150 |
| SnakeApp.InGrid | project/src/App.tsx:22-28 | the board [0,20)×[0,20): the range of generateFood, and the cells checkCollision's wall test accepts |
| SnakeApp.GenerateFood | project/src/App.tsx:22-28 | with both draws in [0,1), the food cell lies on the board |
| SnakeApp.GenerateFoodCoversGrid | project/src/App.tsx:22-28 | conversely, every board cell, body cells included, is the food for some pair of draws |
| SnakeApp.ResetGame | project/src/App.tsx:30-38 | reset gives snake [(10,10)], the new food, RIGHT, not over, not paused, score 0, speed 150, and keeps highScore |
| SnakeApp.MoveHead | project/src/App.tsx:62-76 | the candidate head differs from the head on exactly one axis, by exactly 1: LEFT and RIGHT keep y, UP and DOWN keep x, and LEFT and UP decrease a coordinate while RIGHT and DOWN increase one |
| SnakeApp.MoveHeadOppositeUndoes | project/src/App.tsx:62-76 | a move followed by a move in the opposite heading returns to the start |
| SnakeApp.CheckCollision | project/src/App.tsx:40-57 | true iff the head is outside [0,20)×[0,20) or equals snake[i] for some i ≥ 1 of the current body |
| SnakeApp.MoveSnake | project/src/App.tsx:59-96 | no-op when over or paused. A colliding tick changes only gameOver and highScore = max(highScore, score). Otherwise: head one step ahead, rest a prefix of the old body, length +1 iff the head meets the food, and then score +10, new food, speed max(speed-5, 50); highScore never drops |
| SnakeApp.HandleKey | project/src/App.tsx:99-124 | Space toggles pause in every state. Any other key after game over resets. Otherwise only the heading changes: an arrow is taken iff it is not the exact opposite, even while paused; other keys do nothing |
| SnakeAppRuns.Step | project/src/App.tsx:98-133 | every handler call keeps a non-empty body and never lowers highScore |
| SnakeAppRuns.Run | project/src/App.tsx:59-62 | a run keeps a head for moveSnake to read |
| SnakeAppRuns.RunNeverLowersHighScore | project/src/App.tsx:80-82 | highScore after any run is at least its value before |
| SnakeAppRuns.InitHealthy | project/src/App.tsx:13-20 | the initial hook values satisfy the reachable-state invariant |
| SnakeAppRuns.StepKeepsHealthy | project/src/App.tsx:22-95 | every handler call keeps: score a non-negative multiple of 10, length 1 + score/10, no repeated cell, all cells and food on the board, speed a multiple of 5 in [50,150], highScore ≥ score after game over |
| SnakeAppRuns.RunKeepsHealthy | project/src/App.tsx:59-124 | the same invariant holds after any run |
| SnakeAppRuns.ReachableHealthy | project/src/App.tsx:13-38 | every run from the initial values ends in a state with the reachable-state invariant (no repeated cell included), speed ≥ 50 and 10·length = score + 10 |
| SnakeAppRuns.TailEntryIsFatal | project/src/App.tsx:50-57 | stepping into the cell the tail occupies ends the game and leaves body and score unchanged |
| SnakeAppRuns.FoodMayCoverBody | project/src/App.tsx:22-32 | food is not kept off the body: the draws (0.5, 0.5) give (10,10), and a reset with them places the food under the head |

## Left out

- Tkinter widgets and drawing are left out: labels, canvas, colours, fonts, the welcome and game-over texts, and item handles. Canvas items are replaced by the corners they hold.
- Timer scheduling is left out: `master.after`, `setInterval`, effect lifetimes and stale React closures. A pending tick is the `started` flag in `snake.py`. In `App.tsx` each interval callback is one `Interval` event on the current state.
- Randomness is left out: `random.randint`, the rejection loop in `create_food` (which need not terminate), and `Math.random`. A placed food point is an input that meets the placement constraints. The overlap scan inside the loop is modelled (`SnakeGame.Overlaps`).
- `Math.random()` draws are modelled as exact reals in [0,1). Rounding of the floating-point product `Math.random() * GRID_SIZE` is not modelled.
- JSX rendering is left out, including the "Play Again" button. That button calls the same `resetGame`.
- Floating-point coordinates are not modelled: Tkinter returns coordinates as floats, but every value is an integer that is only added or compared, so exact integers are faithful.
- SnakeGame.NextTurn: the food point it may use is constrained only when the tick eats. That is the only time `create_food` runs.
- SnakeApp.MoveSnake: requires the supplied food cell to be in generateFood's range, which every value generateFood returns is.

## Findings

| source | as written | input that shows it | evidently intended | confidence | as-written member | corrected member |
|---|---|---|---|---|---|---|
| project/snake.py:91-95 | `starting_x = GAME_WIDTH // 4` is 150, not a multiple of `SPACE_SIZE`, while food x is `randint(...) * 20` (line 107) | any run: after start the head is at x = 170, and every step moves it by 0 or ±20, so x ≡ 10 (mod 20), while food x ≡ 0 (mod 20); the food is never eaten and the score stays 0 | a starting column on the food grid (e.g. 140), so the head can reach the food | high; not executed | SnakeGameRuns.ReachableNeverEats | SnakeGame.StartGameAligned |
