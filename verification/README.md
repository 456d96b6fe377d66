# rx-snake game logic in Dafny

A model of the game logic of rx-snake, a browser Snake game wired together
from RxJS streams. The stream graph is replaced by pure folds over a finite
trace. A trace lists key releases (`Key(code)`) and movement-timer firings
(`Tick`) in the order they arrive. From a trace and a fixed list of eggs the
model computes what each stream of `src/index.js` emits:

- `manualMove$`: the arrow keys let through by the start gate and the reversal filter;
- `nextStep$`: the manual moves merged in arrival order with the timer's re-emissions of the latest manual move, as unit steps;
- `snakeMove$`: the initial snake, then one moved snake per step;
- `snakeEatEgg$`: the index of the egg under each snake's head, when there is one;
- `score$`: 0, then 100 more per collision event.

The modules follow the source's structure:

| file | module | contents |
|---|---|---|
| `wrappers.dfy` | `Wrappers` | `Option`, standing in for `null` / `undefined` |
| `vectors.dfy` | `Vectors` | integer `[x, y]` vectors, sums, unit steps |
| `keys.dfy` | `Keys` | arrow-key codes, the offset table, the reverse table |
| `direction.dfy` | `Direction` | trace events and the start gate, reversal filter and tick merge as one fold (`Replay`) |
| `snake.dfy` | `Snakes` | the snake record, `INIT_SNAKE`, one move, the move scan (`Trail`), the delta-chain walk (`Positions`) |
| `scoring.dfy` | `Scoring` | the collision check, the collision-event stream and the score scan |
| `game.dfy` | `Game` | the whole pipeline from trace and eggs to snakes, hits and scores |

Key codes are kept as strings, as in the source. Coordinates are unbounded
integers. The source's JavaScript numbers stay small exact integers here,
and the game never wraps coordinates at the grid edge, so none is modelled.

## Model

| member | source | states |
|---|---|---|
| Keys.IsArrowKey | src/index.js:173-175 | a code is an arrow exactly when it has a position in the list of the four arrow codes; the start key is not one |
| Keys.Offset | src/index.js:162-175 | a code has an offset exactly when it is one of the four arrow codes, and every such offset is a unit step along one axis |
| Keys.OffsetTable | src/index.js:162-171 | Up is (0, -1), Down (0, 1), Left (-1, 0) and Right (1, 0), so y grows downwards |
| Keys.Reverse | src/index.js:177-186 | a code has an opposite exactly when it is an arrow code; the opposite is again an arrow code and differs from the code |
| Keys.IsReversed | src/index.js:177-186 | the comparer holds only for two different arrow codes, and then the second one's opposite is the first |
| Keys.ReverseIsInvolution | src/index.js:177-186 | the opposite of an arrow's opposite is the arrow itself |
| Keys.ReversedIsSymmetric | src/index.js:177-186 | `one` is the reverse of `two` exactly when `two` is the reverse of `one` |
| Keys.ReversedIsIrreflexive | src/index.js:177-186 | no code is its own reverse, so a repeated arrow is never treated as a reversal |
| Keys.ReverseNegatesOffset | src/index.js:162-186 | the offset of an arrow's opposite is the negated offset of the arrow |
| Keys.ReversedIffOppositeSteps | src/index.js:162-186 | two arrows are reverses of each other exactly when their offsets cancel |
| Direction.Feed | src/index.js:36-51 | one event: the gate opens exactly on the start key; a tick changes neither the gate nor the manual stream; the manual stream grows only by the released code, exactly when the filter accepts it, and that code becomes the remembered arrow; the merged stream grows by at most the released code or, on a tick, the remembered arrow |
| Direction.FeedKeepsConsistent | src/index.js:36-51 | one event keeps the fold's invariant; the gate is open afterwards exactly when it was open before or the event is the start key |
| Direction.Replay | src/index.js:36-51 | after any trace: the gate is open exactly when the start key occurs in it; nothing is emitted while it is closed; the filter's remembered arrow is the last manual move and also the last merged trigger; every emitted code is an arrow code; no two adjacent manual moves, and no two adjacent merged triggers, are reverses |
| Direction.Steps | src/index.js:49-51 | the steps are the offsets of the merged triggers, one for one and in order |
| Direction.Offsets | src/index.js:51 | mapping arrow codes to steps keeps the length and gives each code its table offset |
| Direction.KeyStep | src/index.js:36-44 | a key release is appended to both streams exactly when the game has started, the code is an arrow and it is not the reverse of the last accepted arrow; otherwise neither stream changes |
| Direction.TickStep | src/index.js:46-51 | a timer firing leaves the manual stream alone and appends the latest accepted arrow to the merged stream, or nothing before any arrow has been accepted |
| Direction.FirstArrowAccepted | src/index.js:42-44 | the first arrow after the start key is accepted, whatever it is |
| Direction.RepeatAccepted | src/index.js:42-44 | releasing the last accepted arrow again is accepted |
| Direction.BeforeStartIgnored | src/index.js:36-44 | a trace prefix without the start key has no effect on anything emitted later |
| Direction.GatingExample | src/index.js:36-44 | Right, Right, Space, Up gives exactly one accepted direction, Up |
| Direction.StepNeverReverses | src/index.js:42-51 | every step is a unit step and no step is the negation of the step before it |
| Snakes.DropLast | src/index.js:59 | `slice(0, -1)` keeps every element but the last, in place, and gives an empty result for an empty body |
| Snakes.Move | src/index.js:53-61 | the head moves by the step; the first body offset leads back to the old head; the other offsets are the old ones shifted by one; a non-empty body keeps its length |
| Snakes.MoveExample | src/index.js:18-61 | the initial snake at (20, 20) moved by (1, 0) has head (21, 20) and body (-1, 0) followed by seven (0, 1) |
| Snakes.Walk | src/index.js:141-148 | the walk records one point per delta; the first point is the start plus the first delta; each later point is the previous point plus its delta |
| Snakes.Positions | src/index.js:138-148 | a snake has one cell more than its body has offsets; the first cell is the head; each next cell is the previous cell plus the next body offset |
| Snakes.PositionIsPrefixSum | src/index.js:141-148 | cell `i` is the head plus the sum of the first `i` body offsets |
| Snakes.PositionsAfterMove | src/index.js:53-61 | after a move the cells are the new head followed by the old cells without the last, so the second cell is the old head |
| Snakes.Trail | src/index.js:53-62 | the move scan emits the start snake first, then one snake per step, each the previous one moved by that step |
| Snakes.TrailNeverTurnsBack | src/index.js:53-62 | each head is the previous head plus the step; unless a step negates the one before it, the head never returns to the cell it held two steps earlier |
| Snakes.TrailKeepsLength | src/index.js:18-62 | every snake of the scan has the start snake's body length when that length is not zero |
| Snakes.TrailHead | src/index.js:53-62 | the head after `i` steps is the start head plus the sum of the first `i` steps |
| Snakes.BodyIsWindow | src/index.js:53-62 | after `i` steps body offset `j` is the negated step `i - 1 - j`, or the start body's offset `j - i` when fewer than `j + 1` steps were taken |
| Scoring.EatenEgg | src/index.js:70-82 | the result is the largest index whose egg is at the head, and it is none exactly when no egg is at the head |
| Scoring.FindEatenEgg | src/index.js:72-80 | the forward scan over the eggs, where a later match overwrites an earlier one, finds the last match and agrees with `EatenEgg` |
| Scoring.Hits | src/index.js:70-82 | the collision events are at most one per snake and each is a valid egg index |
| Scoring.HitOfOneSnake | src/index.js:70-82 | a single snake gives one event, the last egg index under its head, when its head is on an egg, and none otherwise |
| Scoring.HitsCountOnEgg | src/index.js:70-82 | there are exactly as many events as snakes whose head is on an egg cell |
| Scoring.HitsAppend | src/index.js:70-82 | the collision events of two consecutive runs of snakes are the events of the first run followed by those of the second |
| Scoring.HitsEmptyIff | src/index.js:70-82 | there is no collision event exactly when no snake's head is on an egg |
| Scoring.RevisitCountsAgain | src/index.js:64-82 | eggs are never consumed: two snakes with their heads on egg cells give at least two events, even for the same egg |
| Scoring.Scores | src/index.js:84-86 | the score stream starts with 0 and has one more entry per event, each 100 above the one before |
| Scoring.ScoreIsRewardTimesHits | src/index.js:84-86 | after `i` collision events the score is exactly 100 times `i` |
| Scoring.ScoresNonDecreasing | src/index.js:84-86 | the score is never negative and never decreases |
| Scoring.ScoreIgnoresEggIndex | src/index.js:84-86 | the score depends only on how many events occurred, not on which egg was hit |
| Game.SnakeStream | src/index.js:49-62 | the snake stream has one snake more than there are merged triggers, and its first snake is the initial one |
| Game.Play | src/index.js:46-86 | a session's snakes are the snake stream; every collision event indexes an egg; there is one score more than there are events |
| Game.HeadMovesOneCell | src/index.js:42-61 | each trigger moves the head by its step, which is a unit step along one axis, and the head never goes straight back to the cell it just left |
| Game.BodyAlwaysEight | src/index.js:18-62 | every snake of a session has a body of 8 offsets and so 9 cells |
| Game.FinalScore | src/index.js:84-86 | the latest score is 100 times the number of collision events |
| Game.IdleWithoutDirection | src/index.js:42-62 | when no arrow has been accepted, including when the start key never came, the only snake is the initial one |
| Game.TraceMoveExample | src/index.js:36-62 | the trace Space, ArrowRight gives the initial snake followed by the initial snake moved one cell right |
| Game.RevisitScoresAgain | src/index.js:64-86 | when the head is on an egg cell at two different moments, the latest score is at least 200 |

## Left out

- Reading key codes from `keyup` DOM events (src/index.js:33-34): the trace carries the codes directly.
- Timing. The 300 ms movement period and real-time scheduling (src/index.js:10, 46) are reduced to the position of `Tick` events in the trace.
- The animation-frame driver `updateScene$` and its sampling of the latest snake, eggs and score (src/index.js:88-99). The model has no frames. Under the single-timer assumption below, a frame would show the last element of each sequence `Play` returns for the events handled so far.
- RxJS subscription multiplicity. The streams are cold, so `updateScene$` (src/index.js:96-97) and the `score$` chain (src/index.js:70, 84) each run their own copy of `snakeMove$`, each with its own 300 ms `Observable.interval` (src/index.js:46). The model has one `Tick` stream: it assumes every copy's timer fires at the same point relative to every key release. When a key release falls between the two copies' timer callbacks, one copy sees the tick first and the other the key. From then on the drawn snake and the scored snake can differ, and the model does not describe that.
- Egg generation with `Math.random` (src/index.js:64-68, 188-190): it is floating point and nondeterministic. Eggs are a parameter. No bound on their coordinates is needed.
- Rendering: canvas set-up, menu and scene clearing, drawing of eggs, joints and score, and colours (src/index.js:101-160). Only the position arithmetic of `drawSnake` is modelled, as `Positions`.
- The code has no wall or self collision, no growth and no egg relocation, so the model has none.
- Keys.Offset, Keys.Reverse: a JavaScript object lookup with a non-arrow string such as `"toString"` can return an inherited prototype member instead of `undefined`. The model returns `None` for every non-arrow code. The pipeline calls both tables with arrow codes only, so no emitted value depends on this.
- Scoring.Hits: the initial snake is checked for a collision like every other emitted snake. In the running program, whether the first `snakeMove$` value meets the eggs in `withLatestFrom` depends on RxJS scheduling at subscription time. The model does not decide this and treats that value as checked.
