# Snake game simulation core, in Dafny

A model of the simulation core of a browser snake game on a 25 × 19 grid. The game state is
one record (`GameState`). Every change to it is a partial record (a *patch*) that is
dispatched to a reducer. The reducer merges each patch over the current state, in order.

The model has these parts:

- `Constants` (`constants.dfy`): the canvas and grid sizes, the speed band and the initial head.
- `State` (`state.dfy`): the state record, the initial state, and patches. Every field of a
  patch is an `Option`.
- `Reducer` (`reducer.dfy`): `Apply` (the object spread `{ ...state, ...payload }`), the
  reducer, the left fold `ApplyAll` over dispatched patches, and the `Store` class that holds
  the reduced state.
- `Rules` (`rules.dfy`): the patches the controller dispatches, as functions of the
  controller's snapshot. This covers game over, start, key presses and the tick (wall hit,
  eating, trail cut, self hit, move). It also holds the lemmas that fold a tick's patches
  into the post-tick state.
- `Controller` (`controller.dfy`): the `GameController` class. Its `state` field is its
  snapshot. It changes the store only through `Dispatch`, so every check in a tick reads
  the pre-tick snapshot. Apple placement is a loop over candidate draws, and the trail cut
  is a loop that drops the front cell.
- `Lifecycle` (`lifecycle.dfy`): the hook's rules. These are the arming conditions of the
  game and countdown intervals, the countdown step, the score-driven speed effect, the events
  of a game with their effect `Step`, and the four phases: idle, counting down, playing and
  lost.
- `Hook` (`hook.dfy`): the `SnakeGame` class, which owns the store and the controller. Each
  event handler keeps the controller's snapshot equal to the store's state, and each is
  proved to produce `Step` of the old state.

Behaviour of the code that the model keeps on purpose:

- A wall hit dispatches game over, but the move is still dispatched after it. The
  out-of-grid head is committed.
- On a tick that both eats and collides, both patches take effect. The score still rises.
- The trail is cut to the pre-tick `score + 2` cells.
- Game over compares the pre-tick score with the record.
- The start apple is drawn against the previous game's snake, so it can land on the new head.
- The apple drawn on an eating tick is checked against the pre-tick snake only, so it can land
  on the new head, the cell just eaten.

Two behaviours of the code differ from what one might expect:

- One might expect a collision on an eating tick to cancel the score increment. The code
  dispatches the score patch and the game-over patch one after the other, and both apply
  (`Rules.TickEatAndDie`).
- One might expect a game over without a record to set `newHighScore` to false. The code
  leaves that field out of the patch, so it keeps its value, which a start has already set to
  false (`Rules.GameOverEffect`).

## Model

| member | source | states |
|---|---|---|
| `Constants.GridWidth` | src/constants/game.ts:2-4 | 500 / 20 is exact: 25 columns |
| `Constants.GridHeight` | src/constants/game.ts:3-4 | 380 / 20 is exact: 19 rows |
| `Constants.SpeedBandIsElevenToFifteen` | src/constants/game.ts:7-8 | the minimum speed 10 is below the maximum 15, so the band is scores 11..15 |
| `Constants.InitialDelay` | src/constants/game.ts:7 | 1000 / MIN_GAME_SPEED is exactly 100 ms |
| `State.SnakeHead` | src/constants/game.ts:11 | the initial head (12, 9) lies on the grid |
| `State.InitState` | src/controllers/GameController.ts:18-30 | initial state: countdown 4, not running, not lost, score 0, record 0, empty trail, apple off the grid, delay 100 |
| `Reducer.ApplyCharacterized` | src/hooks/useSnakeGame.ts:11-13 | the merged state is the one and only state that holds every value the payload carries and keeps every other field (both directions) |
| `Reducer.ApplyField` | src/hooks/useSnakeGame.ts:11-13 | field by field: a present field takes the payload's value, an absent one keeps the old value |
| `Reducer.ApplyIdempotent` | src/hooks/useSnakeGame.ts:11-13 | applying the same update twice equals applying it once |
| `Reducer.ReduceOtherIsIdentity` | src/hooks/useSnakeGame.ts:11-14 | an action that is not an update, or an empty update, returns the state unchanged |
| `Reducer.ApplyAllAppend` | src/hooks/useSnakeGame.ts:7-15 | folding two batches of dispatches is folding the first, then the second |
| `Reducer.ApplyAllUntouched` | src/hooks/useSnakeGame.ts:7-15 | a field that no dispatched patch carries keeps its value through the fold |
| `Reducer.Store.Dispatch` | src/hooks/useSnakeGame.ts:18 | the held state becomes the reducer's result |
| `Rules.DrawCell` | src/controllers/GameController.ts:70-71 | a candidate (two numbers in [0, 1), scaled and floored) is always a grid cell |
| `Rules.FirstFree` | src/controllers/GameController.ts:69-80 | rejection sampling gives a cell iff some candidate misses the snake; that cell is on the grid, is not the head or a trail cell, and is one of the candidates |
| `Rules.GameOverEffect` | src/controllers/GameController.ts:99-114 | game over always sets lost, not running, velocity (0,0), countdown 4; it sets record := score and newHighScore only when score > record (strict), and otherwise both fields stay untouched; nothing else changes |
| `Rules.GameOverRecord` | src/controllers/GameController.ts:106-109 | on its own snapshot, game over never lowers the record and ends at the larger of score and record |
| `Rules.StartEffect` | src/controllers/GameController.ts:82-97 | start sets score 0, head (12, 9), empty trail, velocity (0,-1), running, countdown 3, not lost, no new record, delay 100 and the drawn apple; exactly the record and the previous velocity stay untouched |
| `Rules.StartAppleCanCoverNewHead` | src/controllers/GameController.ts:90 | the start apple is checked against the previous game's snake, so a draw can put it on the new head (12, 9) |
| `Rules.KeyVelocityRecognised` | src/controllers/GameController.ts:266-308 | exactly the eight listed keys give a velocity, always a unit step along one axis, and w/a/s/d agree with the arrows |
| `Rules.KeyPatchEffect` | src/controllers/GameController.ts:266-321 | a key press changes only the velocity; it dispatches iff the key is recognised and its velocity plus the previous velocity is not (0,0), and then installs exactly that key's velocity; otherwise the state is unchanged |
| `Rules.TickTrailShape` | src/controllers/GameController.ts:228-230 | the kept trail is a non-empty suffix of old trail + old head, ends in the old head, and has length min(length + 1, score + 2) |
| `Rules.TickSteps` | src/controllers/GameController.ts:202-253 | folding a tick's dispatches is: game over on a wall hit, then the eat update, then game over on a self hit, then the move |
| `Rules.TickOutcome` | src/controllers/GameController.ts:202-253 | the post-tick state field by field, for any store state: lost iff a wall or trail hit, score + 1 iff eating, head = head + velocity, previous velocity = the pre-tick velocity, record judged on the pre-tick score, delay unchanged |
| `Rules.TickCommitsMove` | src/controllers/GameController.ts:243-252 | the last of at most four patches is the move: head := head + velocity (no wrap-around), trail as cut, previous velocity := velocity; the move carries no other field |
| `Rules.TickWallHit` | src/controllers/GameController.ts:208-215 | a next head off the grid dispatches game over first and the move after it, so the off-grid head is committed to a lost game |
| `Rules.TickScore` | src/controllers/GameController.ts:218-226 | the score rises by exactly 1 iff the next head is the apple, and the new apple is a grid cell off the pre-tick snake (it can be the new head); otherwise score and apple are untouched |
| `Rules.TickEatAndDie` | src/controllers/GameController.ts:208-239 | eating and colliding in one tick both take effect; with score equal to the record, the final score then exceeds the record |
| `Rules.TickSelfHit` | src/controllers/GameController.ts:232-239 | a next head on the cut trail ends the game |
| `Rules.TickLostIff` | src/controllers/GameController.ts:208-239 | a tick loses iff it hits a wall or the trail, stops running in the same case, never lowers record or score, and keeps the delay |
| `Rules.TickAppleCanCoverNewHead` | src/controllers/GameController.ts:218-226 | the eating tick's apple is checked against the pre-tick snake, so with head (5,5), velocity (1,0) and apple (6,5) a draw puts the new apple on the new head |
| `Rules.StillIsFatal` | src/controllers/GameController.ts:228-239 | with velocity (0,0) the next head is the old head, the last kept trail cell, so the tick is fatal |
| `Controller.GameController.constructor` | src/controllers/GameController.ts:40-59 | the controller dispatches into the given store and starts from the initial state |
| `Controller.GameController.UpdateState` | src/controllers/GameController.ts:61-63 | the snapshot is replaced |
| `Controller.GameController.GenerateApplePosition` | src/controllers/GameController.ts:69-80 | the loop returns the first candidate off the snapshot's snake, which is on the grid; none only when every candidate is covered |
| `Controller.GameController.StartGame` | src/controllers/GameController.ts:82-97 | dispatches the start patch with an apple drawn against the snapshot's snake |
| `Controller.GameController.GameOver` | src/controllers/GameController.ts:99-114 | dispatches the game-over patch judged on the snapshot |
| `Controller.GameController.UpdateSnake` | src/controllers/GameController.ts:202-253 | the store ends in the fold of the tick's patches over its old state, all judged on the unchanged snapshot |
| `Controller.GameController.TrimTrail` | src/controllers/GameController.ts:228-230 | dropping front cells until at most `bound` remain leaves the last `bound` cells |
| `Controller.GameController.OnKeyDown` | src/controllers/GameController.ts:266-323 | dispatches the velocity patch exactly when the key is recognised and does not reverse the previous velocity |
| `Lifecycle.SpeedPatchEffect` | src/hooks/useSnakeGame.ts:74-83 | the speed effect sets only the delay, to 1000 / score, and exactly for scores in (10, 15]; that delay is below 100 |
| `Lifecycle.ScoreUpNeverSlows` | src/hooks/useSnakeGame.ts:74-83 | with the effect after each score change, a score increase keeps the delay at its scaled value and never lengthens it |
| `Lifecycle.InitIsIdle` | src/hooks/useSnakeGame.ts:18-40 | the mounted state, with any loaded record, is coherent and idle |
| `Lifecycle.GatesMatchPhases` | src/hooks/useSnakeGame.ts:52-72 | the tick runs (running, countdown 0, not lost) exactly in the playing phase; the countdown fires exactly in the counting-down phase |
| `Lifecycle.StepPhases` | src/hooks/useSnakeGame.ts:52-72 | every event keeps the state coherent; phases move only idle/lost -> counting down -> playing -> lost, and a start always leads to counting down |
| `Lifecycle.StepKeepsRecord` | src/hooks/useSnakeGame.ts:52-83 | no event lowers the record |
| `Lifecycle.StepScore` | src/hooks/useSnakeGame.ts:52-83 | only a start resets the score (to 0); a tick raises it by at most one; other events leave it |
| `Lifecycle.CountdownStaysAtZero` | src/hooks/useSnakeGame.ts:61-72 | at countdown 0 the countdown interval changes nothing |
| `Lifecycle.CountdownFromThree` | src/hooks/useSnakeGame.ts:61-72 | each firing lowers the countdown by 1; from 3 it reaches 0 after three firings, the game is playing, and the countdown stops |
| `Hook.SnakeGame.constructor` | src/hooks/useSnakeGame.ts:18-41 | mounting: initial state, controller on the store, then the loaded record; snapshot equals the store |
| `Hook.SnakeGame.Refresh` | src/hooks/useSnakeGame.ts:43-45 | the controller's snapshot is set to the store's state |
| `Hook.SnakeGame.Start` | src/hooks/useSnakeGame.ts:92 | a start produces `Step` of the old state |
| `Hook.SnakeGame.OnGameInterval` | src/hooks/useSnakeGame.ts:52-59 | the tick runs only while running with countdown 0 and not lost; otherwise nothing changes |
| `Hook.SnakeGame.OnCountdownInterval` | src/hooks/useSnakeGame.ts:61-72 | the countdown lowers by one only while it is 1, 2 or 3 |
| `Hook.SnakeGame.OnScoreChange` | src/hooks/useSnakeGame.ts:74-83 | the speed effect produces `Step` of the old state |
| `Hook.SnakeGame.OnKey` | src/hooks/useSnakeGame.ts:85-90 | a key press produces `Step` of the old state |

## Left out

- Canvas drawing is not modelled: `clearCanvas`, `fillRect`, `strokeRect`, `drawSnake`, `drawApple` and `onSnakeChange`. These are browser 2D-context calls with half-pixel offsets. The `!isLost` guard on redrawing is not modelled either.
- Persistence is not modelled: the `localStorage` write on a new record and the read plus `parseInt` at mount. The loaded record is the `storedHighScore` parameter of `Hook.SnakeGame.constructor`.
- `Math.random` is replaced by caller-supplied draws. Each draw is two reals in [0, 1).
- Controller.GameController.StartGame: requires a free cell among the draws. The source retries without bound, and on a fully covered grid it recurses until the stack overflows.
- Controller.GameController.UpdateSnake: requires a free cell among the draws when the snake eats, for the same reason as `StartGame`.
- Time is not modelled: the 800 ms countdown period, the `gameDelay` tick period, and the re-arming of intervals when the delay changes. Each interval firing and each effect is an event (`Lifecycle.Event`). The speed effect that React runs after a score change is the explicit `ScoreChanged` event.
- React plumbing is not modelled: `useRef`, the binding of methods in the controller's constructor, the `this?.` optional call, and adding and removing the keydown listener.
- `gameDelay` is an exact `real`. IEEE rounding of `1000 / score` is not modelled.
- `score` is a `nat`. The source only ever sets it to 0 or to the old score + 1.
- `startGame` writes the literal head `{ x: 12, y: 9 }`. It equals `SNAKE_HEAD`, and the model uses `State.SnakeHead` for both.
- src/app/page.tsx, the buttons, score text and overlay, is not part of this model.
