# Christmas Snake — a verified model of the game logic

This project models the game logic of a browser snake game in Dafny and
proves properties of it.

The snake moves on a 40 × 30 grid whose edges wrap around (a torus). It
moves one cell per logical tick. Ticks run at a fixed rate, independent of
the display frame rate. When the head reaches the pickup, the tail grows by
one cell and the pickup moves to a random cell. When the head lands on its
own tail, the game is over.

Four modules follow the program's files:

- `Wrappers` (`wrappers.dfy`): an `Option` datatype.
- `Constants` (`constants.dfy`, from `constants.js`):
  - the four direction codes `UP = 1`, `RIGHT = 2`, `DOWN = 3`, `LEFT = 4`;
  - the canvas size of 800 × 600 pixels and the cell size of 20 pixels;
  - the grid dimensions derived from these: 40 × 30 cells, 1200 in all.
- `SnakeEntity` (`snake.dfy`, from `snake.js`):
  - `IsOppositeDir`;
  - the class `Snake`, whose methods update its fields in place: `pos`,
    `prevPos`, `dir`, `lastDir`, `tailSize`, and the fixed 1200-slot `tail`
    array.
- `ChristmasSnake` (`game.dfy`, from `index.js`):
  - the class `GameState`, which holds the snake, the frame clock,
    `framesPerUpdate`, the pickup position and the game-over flag;
  - its per-frame step `UpdateRender`;
  - `calcFramesPerUpdate` and `calcRandomPosition`;
  - the start-up state built by `initGame`.

Each class has a ghost `Model()`, which is its abstract value
(`SnakeValue`, `GameValue`). Each method that changes state promises
`Model() == AfterX(old(Model()))` for a function `AfterX` on those values.
The properties the game relies on are proved as lemmas about those
functions:

- the heading rule;
- the toroidal step;
- the in-place tail shift;
- growth;
- the tick schedule;
- pickup handling;
- game over;
- the list of rectangles drawn.

Three further facts are proved:

- Every coordinate of the game state stays on the grid.
- The pending heading is never the reverse of the last applied one.
- The body stays a connected chain. Consecutive live tail cells are equal
  or neighbours on the torus. The newest tail cell is the previous head
  position, and that cell neighbours the head.

Growth past capacity is modelled as the game behaves. `addToTail` writes
`tail[tailSize]`. At `tailSize == 1200` that slot does not exist, so
`vec3.copy` throws. The throw leaves the frame function before anything is
drawn, and since the host loop re-registers itself only after the frame
returns, no further frames run. `UpdateRender` gives this the outcome
`Faulted`. `TickPickup` states exactly when it happens: the head reaches
the pickup while the tail already holds 1200 cells.

The game's wraparound is an `else if` chain, so it repairs at most one
coordinate per move. The model keeps the chain. `MovedPosIsTorusStep`
proves it equal to independent per-axis wraparound on every cell of the
grid. `WrapRepairsOneAxisOnly` gives one position off the grid, (−1, 30),
from which a step left stays off the grid. The game never leaves the grid
(`MovePreservesInvariants`), so no correction is needed.

## Model

| member | source | states |
|---|---|---|
| `Constants.DirectionCode` | constants.js:3-8 | every heading has a code in 1..4 |
| `Constants.DirectionOfCode` | constants.js:3-8 | exactly the codes 1..4 name a heading |
| `Constants.DirectionCodeRoundTrip` | constants.js:3-8 | decoding the code of a heading gives that heading back |
| `Constants.DirectionCodeRoundTripFromCode` | constants.js:3-8 | encoding the heading decoded from a code 1..4 gives the code back |
| `Constants.DirectionCodeInjective` | constants.js:3-8 | the four codes are distinct |
| `Constants.GridDimensions` | constants.js:9-18 | 800 / 20 and 600 / 20 divide exactly, giving a 40 × 30 grid of 1200 cells |
| `SnakeEntity.IsOppositeDir` | snake.js:3-10 | two opposite headings are distinct, and their unit steps cancel on both axes |
| `SnakeEntity.IsOppositeDirIsReverse` | snake.js:3-10 | the four Up/Down and Left/Right pairs are exactly "b is the reverse of a" |
| `SnakeEntity.IsOppositeDirSymmetric` | snake.js:3-10 | the opposite relation is symmetric |
| `SnakeEntity.Step` | snake.js:35-48 | the `switch` changes exactly one coordinate, by one |
| `SnakeEntity.Wrap` | snake.js:50-58 | the chain leaves a grid cell alone and changes at most one coordinate |
| `SnakeEntity.MovedPos` | snake.js:35-58 | from a grid cell, the moved head is again a grid cell |
| `SnakeEntity.MovedPosIsTorusStep` | snake.js:35-58 | from a grid cell, the step plus the `else if` chain equals one step taken modulo 40 and 30 per axis, and stays on the grid |
| `SnakeEntity.MovedPosLeavesCell` | snake.js:35-58 | a move always changes the head's cell |
| `SnakeEntity.WrapRepairsOneAxisOnly` | snake.js:50-58 | from the off-grid position (−1, 30), a step left stays off the grid: the chain repairs only the column |
| `SnakeEntity.ShiftTail` | snake.js:60-66 | the tail shift keeps the array length |
| `SnakeEntity.ShiftTailAt` | snake.js:61-66 | cell by cell: live cell i takes cell i+1, the newest takes the vacated head position, unused slots stay |
| `SnakeEntity.Initial` | snake.js:12-23 | a new snake's value is well formed and has no live tail |
| `SnakeEntity.AfterSetDir` | snake.js:25-29 | only the pending heading may change, and well-formedness is kept |
| `SnakeEntity.AfterMove` | snake.js:31-67 | the live length, the capacity and the pending heading stay; the last applied heading is no reversal of the pending one; well-formedness is kept |
| `SnakeEntity.AfterAddToTail` | snake.js:69-72 | the live cells stay, `prevPos` becomes live cell `tailSize`, the count grows by one, head and headings stay, and well-formedness is kept |
| `SnakeEntity.HeadOnTail` | snake.js:74-81 | the head matches some live tail cell iff it is a member of the live prefix `tail[..tailSize]` |
| `SnakeEntity.InitialWellFormed` | snake.js:12-23 | a new snake has full capacity, no live tail, no pending reversal; in bounds if started in bounds; head not on tail |
| `SnakeEntity.SetDirAcceptsIffNotReverse` | snake.js:25-29 | the heading becomes `newDir` iff `newDir` is not the reverse of `lastDir`; otherwise the snake is unchanged; nothing but the heading ever changes |
| `SnakeEntity.SetDirPreservesInvariants` | snake.js:25-29 | a heading request keeps the snake well formed and on the grid |
| `SnakeEntity.MoveClearsReversal` | snake.js:34 | after a move the last applied heading is the pending one, so no reversal is pending |
| `SnakeEntity.MoveHead` | snake.js:33-58 | after a move, `prevPos` is the old head and the head is one toroidal step away in the old heading, in a different cell |
| `SnakeEntity.MoveTail` | snake.js:60-66 | with no live tail the tail is untouched; otherwise live cells shift toward index 0, the newest becomes `prevPos`, and later slots and `tailSize` are unchanged |
| `SnakeEntity.MovePreservesInvariants` | snake.js:31-67 | a move keeps the snake well formed and every coordinate on the grid |
| `SnakeEntity.AddToTailEffect` | snake.js:69-72 | growth writes `prevPos` at index `tailSize`, adds one to `tailSize`, and changes nothing else |
| `SnakeEntity.AddToTailPreservesInvariants` | snake.js:69-72 | growth below capacity keeps the snake well formed and on the grid |
| `SnakeEntity.GrowthAfterMoveDuplicates` | snake.js:60-72 | growth right after a move with n ≥ 1 live cells leaves `tail[n-1] == tail[n] == prevPos` |
| `SnakeEntity.MovePreservesConnected` | snake.js:31-67 | a move keeps the body a chain of equal-or-neighbouring cells ending next to the head |
| `SnakeEntity.GrowthAfterMovePreservesConnected` | snake.js:60-72 | a move followed by growth keeps the body chain |
| `SnakeEntity.SetDirPreservesConnected` | snake.js:25-29 | a heading request keeps the body chain |
| `SnakeEntity.FourCellStep` | snake.js:25-66 | with four live cells, an accepted turn and move makes the live window the old one without its oldest cell, plus the old head |
| `SnakeEntity.UTurnCollides` | snake.js:31-81 | a snake with four live tail cells turning right, down and left lands on its own tail on the third move, and not before |
| `SnakeEntity.Snake.constructor` | snake.js:12-23 | head at (x, y), `prevPos` and every tail slot (0, 0), `lastDir == dir`, no live tail, 1200 slots |
| `SnakeEntity.Snake.SetDir` | snake.js:25-29 | the new state is `AfterSetDir` of the old one, and the invariant holds |
| `SnakeEntity.Snake.Move` | snake.js:31-67 | the new state is `AfterMove` of the old one, with the tail shifted in place by `ShiftTailInPlace` |
| `SnakeEntity.Snake.ShiftTailInPlace` | snake.js:60-66 | the in-place copy loop leaves the array equal to `ShiftTail` of its old contents |
| `SnakeEntity.Snake.AddToTail` | snake.js:69-72 | below capacity, the new state is `AfterAddToTail` of the old one |
| `SnakeEntity.Snake.SelfIntersects` | snake.js:74-81 | true iff the head equals one of the first `tailSize` tail cells |
| `ChristmasSnake.CalcFramesPerUpdate` | index.js:46-48 | the result times the update rate is the frame rate |
| `ChristmasSnake.DefaultFramesPerUpdate` | index.js:21-22 | 60 frames per second at 10 updates per second gives 6 frames per update |
| `ChristmasSnake.AdvanceClock` | index.js:81-83 | a tick fires exactly when the counter is left at 0, and the counter always agrees with the frame count modulo `framesPerUpdate` |
| `ChristmasSnake.AdvanceClockInRange` | index.js:81-83 | a counter below `framesPerUpdate` stays below it, fires exactly when it reaches it, and otherwise counts up by one |
| `ChristmasSnake.ClockFromReset` | index.js:81-83 | from 0, after k frames the counter is k mod `framesPerUpdate` and k / `framesPerUpdate` ticks have fired |
| `ChristmasSnake.GetRandomInt` | index.js:55-59 | for min < max the result lies in [min, max) |
| `ChristmasSnake.GetRandomIntIsFloor` | index.js:55-59 | the result is the floor of the draw times (max − min), plus min, so each value gets an equal share of [0, 1) |
| `ChristmasSnake.CalcRandomPosition` | index.js:50-64 | the new pickup is a cell of the 40 × 30 grid |
| `ChristmasSnake.CalcRandomPositionReachesEveryCell` | index.js:50-64 | every grid cell is produced by some pair of draws |
| `ChristmasSnake.CellRect` | index.js:97-105 | a cell's square has size 19, is centred at cell·20 + 10, and lies strictly inside the cell |
| `ChristmasSnake.CellOfCellRect` | index.js:97-105 | the cell can be recovered from its square's centre |
| `ChristmasSnake.CellRectOnCanvas` | index.js:97-111 | a grid cell's square lies inside the 800 × 600 canvas |
| `ChristmasSnake.DrawList` | index.js:97-112 | a frame draws 2 + (live cells) squares: the first green, all others red |
| `ChristmasSnake.Render` | index.js:97-112 | a state draws 2 + `tailSize` squares |
| `ChristmasSnake.DrawListAppend` | index.js:107-112 | each pass of the tail loop appends one red square for that tail cell |
| `ChristmasSnake.InitialGame` | index.js:19-24 | the start-up state is running, with clock 0, no live tail, and head and pickup on the grid |
| `ChristmasSnake.InitialGameInvariant` | index.js:19-24 | the start-up state satisfies the frame invariant and has 6 frames per update |
| `ChristmasSnake.AfterTick` | index.js:83-94 | a tick moves the head, leaves clock and rate alone, and faults exactly when the head reaches the pickup with a full tail |
| `ChristmasSnake.UpdateRenderSpec` | index.js:74-114 | a frame is `Frozen` exactly when the game is over, and then changes nothing; the rate never changes; a fault needs a full tail and the head on the pickup |
| `ChristmasSnake.UpdateRenderPreservesInvariant` | index.js:74-114 | every frame keeps the invariant: snake well formed, on the grid and connected; clock below `framesPerUpdate`; pickup on the grid |
| `ChristmasSnake.SteerPreservesInvariant` | index.js:26-41 | heading requests between frames keep the invariant and change only the pending heading |
| `ChristmasSnake.GameOverFreezes` | index.js:77-79 | once the game is over, a frame changes nothing and draws nothing |
| `ChristmasSnake.UpdateRenderClock` | index.js:81-83 | in a running game the clock stays in [0, `framesPerUpdate`); a tick fires iff the clock reaches `framesPerUpdate`; a frame without a tick only counts and draws |
| `ChristmasSnake.TickPickup` | index.js:84-90 | on a tick the head moves; on the pickup the tail grows by exactly 1, the pickup moves to the drawn cell and the jingle plays; otherwise length and pickup stay; the frame fails only when growing a full tail |
| `ChristmasSnake.UpdateRenderGameOver` | index.js:92-94 | a tick sets game over iff the head lies on a live tail cell after move and pickup; a frame without a tick leaves it clear; it is never reset |
| `ChristmasSnake.RenderShape` | index.js:97-112 | a valid state draws exactly 2 + `tailSize` squares: pickup, head, then `tail[0..tailSize)` in order, each strictly inside the 800 × 600 canvas on all four sides |
| `ChristmasSnake.UpdateRenderDraws` | index.js:74-112 | a frame that draws lists the squares of its own new state, which is valid: 2 + the new `tailSize` of them, the pickup, the new head, then the new live tail in order, each on the canvas |
| `ChristmasSnake.OpeningTicks` | index.js:74-95 | from start-up, five frames leave the snake at (20, 15); the sixth fires one tick and moves it to (20, 16) without ending the game |
| `ChristmasSnake.FrameWithoutTick` | index.js:81-82 | a frame before the counter reaches `framesPerUpdate` only adds one to the counter |
| `ChristmasSnake.GameState.constructor` | index.js:19-24 | snake at (20, 15) heading up, clock 0, 10 updates per second, 6 frames per update, pickup from the draws, game not over |
| `ChristmasSnake.GameState.Draws` | index.js:97-112 | the frame's squares are pickup, head and live tail in order |
| `ChristmasSnake.GameState.Tick` | index.js:83-94 | the new state and the fault flag are `AfterTick` of the old state; `ate` says the head reached the pickup |
| `ChristmasSnake.GameState.UpdateRender` | index.js:74-114 | the new state and outcome are `UpdateRenderSpec` of the old state |
| `ChristmasSnake.OpeningFrames` | index.js:19-95 | a fresh game object has its head at (20, 15) after five frames and at (20, 16) after six |

## Left out

- The WebGL renderer (`renderer.js`) is not part of this model. It covers shader compilation and linking, buffer upload, and the floating-point matrix transforms. The model stops at the integer list of rectangles handed to `drawRect`.
- Sound (`soundManager.js`) is not modelled. The pickup jingle is only the `jingle` flag of a drawn frame. The background music at start-up is left out.
- `runLoop` and `requestAnimationFrame` are host plumbing. Each call of `UpdateRender` is one frame.
- The keydown listener is host I/O. Input is modelled as `SetDir` calls between frames (`SteerPreservesInvariant`). Keys other than the four arrows do nothing in the JavaScript game either.
- `Math.random()` is not modelled. Each draw is a parameter `Draw(num, den)` standing for the exact fraction num/den in [0, 1). Floating-point rounding of the product is not modelled.
- Positions are integer pairs. The game's `vec3` third component is always 0 and is dropped. `vec3.equals` is an epsilon comparison, which on small integers means exact equality.
- Colours are a two-value datatype. Their floating-point RGB values are left out.
- Directions are a four-constructor datatype, so a numeric code outside 1..4 cannot reach `setDir` or `move` in the model. In the JavaScript game such a code would leave the head where it is. `move` would still copy `pos` into `prevPos`, set `lastDir` and shift the tail. With a live tail the newest tail cell would then equal the head, `selfIntersects` would hold, and the frame would end the game. Only the keydown handler calls `setDir`, and only with the four constants, so no such code arises.
- `GameState.gameOver` starts as `false`. In the JavaScript game it is first `undefined`, which tests the same.
- CalcFramesPerUpdate: models only ratios that divide exactly. The JavaScript game divides in floating point. A fractional ratio with an exact binary value still fires: with 60 / 8 = 7.5, 15 % 7.5 == 0, so a tick comes every 15 frames. A ratio with no exact binary value, such as 60 / 7, makes `clock % framesPerUpdate == 0` practically never true. The game itself uses 60 / 10 = 6.
- GetRandomInt: `Math.ceil`/`Math.floor` of `min` and `max` are left out. They are the identity on the integer bounds the game passes.
- Snake.AddToTail: requires a free slot. The JavaScript game throws when there is none, and `UpdateRender` models that throw as the `Faulted` outcome.
- Snake.Move: the head update is written as the function `MovedPos`. That function follows the game's `switch` and its `else if` chain branch for branch. The copy loop of the tail is the method `ShiftTailInPlace`.
