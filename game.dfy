/**
  The per-frame step of the game. Each call advances a frame counter; on
  every `framesPerUpdate`-th call it runs one logical tick (move, pickup,
  self-collision) and then, every call, it lists the rectangles to draw:
  the pickup, the head and each live tail cell. A finished game draws
  nothing and changes nothing. `GameState` is the mutable object;
  `GameValue` is its abstract value and `UpdateRenderSpec` the meaning of
  one call.
 */
module ChristmasSnake {
  import opened Constants
  import opened SnakeEntity

  // ----- Timing -----

  /** Display frames per second assumed by default. */
  const DEFAULT_FPS: nat := 60

  /** Logical ticks per second chosen at start-up. */
  const UPDATES_PER_SECOND: nat := 10

  /** Frames between logical ticks; only whole ratios are modelled. */
  function CalcFramesPerUpdate(updatesPerSecond: nat, fps: nat): (r: nat)
    requires 0 < updatesPerSecond && fps % updatesPerSecond == 0
    ensures r * updatesPerSecond == fps
  {
    fps / updatesPerSecond
  }

  lemma DefaultFramesPerUpdate()
    ensures CalcFramesPerUpdate(UPDATES_PER_SECOND, DEFAULT_FPS) == 6
  {
  }

  /**
    One frame of the counter: count the frame, and when the count is a
    multiple of `framesPerUpdate` reset it and fire a tick.
   */
  function AdvanceClock(clock: nat, framesPerUpdate: nat): (r: (nat, bool))
    requires 0 < framesPerUpdate
    ensures r.1 <==> r.0 == 0
    ensures r.0 % framesPerUpdate == (clock + 1) % framesPerUpdate
  {
    var c := clock + 1;
    if c % framesPerUpdate == 0 then (0, true) else (c, false)
  }

  /**
    Kept below `framesPerUpdate`, the counter fires exactly when it
    reaches `framesPerUpdate` and otherwise just counts.
   */
  lemma AdvanceClockInRange(clock: nat, framesPerUpdate: nat)
    requires clock < framesPerUpdate
    ensures AdvanceClock(clock, framesPerUpdate).0 < framesPerUpdate
    ensures AdvanceClock(clock, framesPerUpdate).1 <==> clock + 1 == framesPerUpdate
    ensures !AdvanceClock(clock, framesPerUpdate).1 ==> AdvanceClock(clock, framesPerUpdate).0 == clock + 1
  {
    if clock + 1 < framesPerUpdate {
      assert clock + 1 == 0 * framesPerUpdate + (clock + 1);
    } else {
      assert clock + 1 == 1 * framesPerUpdate + 0;
    }
  }

  /** The counter after `k` frames from `clock`, and how many ticks fired meanwhile. */
  function ClockAfter(clock: nat, framesPerUpdate: nat, k: nat): (nat, nat)
    requires 0 < framesPerUpdate
  {
    if k == 0 then (clock, 0)
    else
      var (c, ticks) := ClockAfter(clock, framesPerUpdate, k - 1);
      var (c', fired) := AdvanceClock(c, framesPerUpdate);
      (c', if fired then ticks + 1 else ticks)
  }

  lemma MulMonotone(a: int, b: int, d: int)
    requires 0 < d
    ensures a >= b ==> a * d >= b * d
  {
    if a >= b {
      assert a * d - b * d == (a - b) * d;
    }
  }

  /** Quotient and remainder of Euclidean division are determined by `a == q * d + r`. */
  lemma DivModUnique(a: int, d: int, q: int, r: int)
    requires 0 < d && 0 <= r < d && a == q * d + r
    ensures a / d == q && a % d == r
  {
    var q', r' := a / d, a % d;
    assert a == q' * d + r';
    MulMonotone(q', q + 1, d);
    MulMonotone(q, q' + 1, d);
    assert (q + 1) * d == q * d + d;
    assert (q' + 1) * d == q' * d + d;
  }

  /**
    From a reset counter, after `k` frames the counter is `k` modulo
    `framesPerUpdate` and exactly `k / framesPerUpdate` ticks have fired:
    one tick on every `framesPerUpdate`-th frame.
   */
  lemma {:induction false} ClockFromReset(framesPerUpdate: nat, k: nat)
    requires 0 < framesPerUpdate
    ensures ClockAfter(0, framesPerUpdate, k) == (k % framesPerUpdate, k / framesPerUpdate)
  {
    if k == 0 {
    } else {
      ClockFromReset(framesPerUpdate, k - 1);
      var q, r := (k - 1) / framesPerUpdate, (k - 1) % framesPerUpdate;
      AdvanceClockInRange(r, framesPerUpdate);
      if r + 1 == framesPerUpdate {
        DivModUnique(k, framesPerUpdate, q + 1, 0);
      } else {
        DivModUnique(k, framesPerUpdate, q, r + 1);
      }
    }
  }

  // ----- Random pickup placement -----

  /** A value of the host's random source in [0, 1), written as the fraction num / den. */
  datatype Draw = Draw(num: nat, den: nat)

  predicate IsUnitDraw(r: Draw) {
    0 < r.den && r.num < r.den
  }

  /**
    An integer in [min, max) from one draw: the floor of the draw scaled
    by the width of the range, offset by `min`.
   */
  function GetRandomInt(min: int, max: int, r: Draw): (n: int)
    requires IsUnitDraw(r)
    ensures min < max ==> min <= n < max
  {
    ScaledDrawBelow(r, max - min);
    (r.num * (max - min)) / r.den + min
  }

  lemma ScaledDrawBelow(r: Draw, k: int)
    requires IsUnitDraw(r)
    ensures 0 < k ==> 0 <= (r.num * k) / r.den < k
  {
    if 0 < k {
      var q := (r.num * k) / r.den;
      MulMonotone(r.den, r.num + 1, k);
      assert r.num * k < r.den * k;
      assert q * r.den <= r.num * k;
      MulMonotone(q, k, r.den);
    }
  }

  /**
    The result is the floor: draws in [j / width, (j + 1) / width) give
    `min + j`, so every value of the range owns an equal share of [0, 1).
   */
  lemma GetRandomIntIsFloor(min: int, max: int, r: Draw)
    requires IsUnitDraw(r)
    ensures (GetRandomInt(min, max, r) - min) * r.den <= r.num * (max - min)
    ensures r.num * (max - min) < (GetRandomInt(min, max, r) - min + 1) * r.den
  {
  }

  /** The new pickup cell, one draw per axis. */
  function CalcRandomPosition(rx: Draw, ry: Draw): (p: Pos)
    requires IsUnitDraw(rx) && IsUnitDraw(ry)
    ensures InBounds(p)
  {
    Pos(GetRandomInt(0, GRID_WIDTH_MAX, rx), GetRandomInt(0, GRID_HEIGHT_MAX, ry))
  }

  /** Every cell of the grid can be chosen. */
  lemma CalcRandomPositionReachesEveryCell(p: Pos)
    requires InBounds(p)
    ensures CalcRandomPosition(Draw(p.x, GRID_WIDTH_MAX), Draw(p.y, GRID_HEIGHT_MAX)) == p
  {
    DivModUnique(p.x * GRID_WIDTH_MAX, GRID_WIDTH_MAX, p.x, 0);
    DivModUnique(p.y * GRID_HEIGHT_MAX, GRID_HEIGHT_MAX, p.y, 0);
  }

  // ----- Drawing -----

  datatype Color = Green | Red

  /** A rectangle handed to the renderer: colour, centre and size in pixels. */
  datatype Rect = Rect(color: Color, cx: int, cy: int, w: int, h: int)

  /**
    The square drawn for a cell: centred in the cell, one pixel narrower
    than it, so it lies strictly inside the cell.
   */
  function CellRect(color: Color, p: Pos): (r: Rect)
    ensures r.color == color && r.w == GRID_SCALE - 1 && r.h == GRID_SCALE - 1
    ensures 2 * GRID_SCALE * p.x < 2 * r.cx - r.w && 2 * r.cx + r.w < 2 * GRID_SCALE * (p.x + 1)
    ensures 2 * GRID_SCALE * p.y < 2 * r.cy - r.h && 2 * r.cy + r.h < 2 * GRID_SCALE * (p.y + 1)
  {
    Rect(color, p.x * GRID_SCALE + GRID_SCALE / 2, p.y * GRID_SCALE + GRID_SCALE / 2,
         GRID_SCALE - 1, GRID_SCALE - 1)
  }

  /** The cell whose square has the given centre. */
  function CellOf(r: Rect): Pos {
    Pos(r.cx / GRID_SCALE, r.cy / GRID_SCALE)
  }

  lemma CellOfCellRect(color: Color, p: Pos)
    ensures CellOf(CellRect(color, p)) == p
  {
    var r := CellRect(color, p);
    DivModUnique(r.cx, GRID_SCALE, p.x, GRID_SCALE / 2);
    DivModUnique(r.cy, GRID_SCALE, p.y, GRID_SCALE / 2);
  }

  /** A cell of the grid is drawn inside the canvas. */
  lemma CellRectOnCanvas(color: Color, p: Pos)
    requires InBounds(p)
    ensures 0 < 2 * CellRect(color, p).cx - CellRect(color, p).w
    ensures 2 * CellRect(color, p).cx + CellRect(color, p).w < 2 * WIDTH
    ensures 0 < 2 * CellRect(color, p).cy - CellRect(color, p).h
    ensures 2 * CellRect(color, p).cy + CellRect(color, p).h < 2 * HEIGHT
  {
  }

  /** A square lies strictly inside the WIDTH x HEIGHT canvas (doubled to stay in integers). */
  predicate OnCanvas(r: Rect) {
    0 < 2 * r.cx - r.w && 2 * r.cx + r.w < 2 * WIDTH &&
    0 < 2 * r.cy - r.h && 2 * r.cy + r.h < 2 * HEIGHT
  }

  /** What one frame draws: the pickup in green, then the head and each live tail cell in red. */
  function DrawList(pickup: Pos, head: Pos, live: seq<Pos>): (r: seq<Rect>)
    ensures |r| == 2 + |live|
    ensures r[0].color == Green && forall i :: 1 <= i < |r| ==> r[i].color == Red
  {
    [CellRect(Green, pickup), CellRect(Red, head)] +
    seq(|live|, i requires 0 <= i < |live| => CellRect(Red, live[i]))
  }

  lemma DrawListAppend(pickup: Pos, head: Pos, live: seq<Pos>, p: Pos)
    ensures DrawList(pickup, head, live + [p]) == DrawList(pickup, head, live) + [CellRect(Red, p)]
  {
    assert seq(|live + [p]|, i requires 0 <= i < |live + [p]| => CellRect(Red, (live + [p])[i]))
        == seq(|live|, i requires 0 <= i < |live| => CellRect(Red, live[i])) + [CellRect(Red, p)];
  }

  // ----- Abstract game state -----

  datatype GameValue = GameValue(
    snake: SnakeValue,
    clock: nat,
    framesPerUpdate: nat,
    pickup: Pos,
    gameOver: bool)

  /** What holds before and after every frame. */
  predicate GameInvariant(g: GameValue) {
    WellFormed(g.snake) && OnGrid(g.snake) && Connected(g.snake) &&
    0 < g.framesPerUpdate && g.clock < g.framesPerUpdate &&
    InBounds(g.pickup)
  }

  /**
    The result of one frame: a finished game returns before drawing; a
    growth step past the tail's capacity fails inside the frame (the
    game writes through a missing array slot) before anything is drawn;
    otherwise the frame's rectangles, and whether the pickup jingle was
    played.
   */
  datatype Outcome = Frozen | Faulted | Drawn(draws: seq<Rect>, jingle: bool)

  /** The game at start-up: snake at (20, 15) heading up, counter at zero, a random pickup. */
  function InitialGame(rx: Draw, ry: Draw): (r: GameValue)
    requires IsUnitDraw(rx) && IsUnitDraw(ry)
    ensures !r.gameOver && r.clock == 0 && r.snake.tailSize == 0
    ensures InBounds(r.snake.pos) && InBounds(r.pickup)
  {
    GameValue(Initial(20, 15, Up), 0, CalcFramesPerUpdate(UPDATES_PER_SECOND, DEFAULT_FPS),
              CalcRandomPosition(rx, ry), false)
  }

  lemma InitialGameInvariant(rx: Draw, ry: Draw)
    requires IsUnitDraw(rx) && IsUnitDraw(ry)
    ensures GameInvariant(InitialGame(rx, ry))
    ensures InitialGame(rx, ry).framesPerUpdate == 6
  {
    InitialWellFormed(20, 15, Up);
  }

  /** The rectangles of one frame of `g`. */
  function Render(g: GameValue): (r: seq<Rect>)
    requires g.snake.tailSize <= |g.snake.tail|
    ensures |r| == 2 + g.snake.tailSize
  {
    DrawList(g.pickup, g.snake.pos, g.snake.tail[..g.snake.tailSize])
  }

  /** A logical tick fires on this frame. */
  predicate TickFires(g: GameValue)
    requires 0 < g.framesPerUpdate
  {
    !g.gameOver && AdvanceClock(g.clock, g.framesPerUpdate).1
  }

  /** The head lands on the pickup in this tick. */
  predicate EatsPickup(g: GameValue)
    requires g.snake.tailSize <= |g.snake.tail|
  {
    AfterMove(g.snake).pos == g.pickup
  }

  /**
    One logical tick, the clock already reset: move, then on the pickup
    grow and relocate it, then test for a collision. The flag says the
    growth step faulted on a full tail; the state is then the one left
    behind by the move.
   */
  function AfterTick(g: GameValue, rx: Draw, ry: Draw): (r: (GameValue, bool))
    requires WellFormed(g.snake) && IsUnitDraw(rx) && IsUnitDraw(ry)
    ensures r.0.clock == g.clock && r.0.framesPerUpdate == g.framesPerUpdate
    ensures r.1 <==> EatsPickup(g) && g.snake.tailSize == GRID_SIZE_MAX
    ensures r.0.snake.pos == MovedPos(g.snake.pos, g.snake.dir)
  {
    var moved := AfterMove(g.snake);
    var ate := moved.pos == g.pickup;
    if ate && moved.tailSize == GRID_SIZE_MAX then
      (g.(snake := moved), true)
    else
      var grown := if ate then AfterAddToTail(moved) else moved;
      (g.(snake := grown,
          pickup := if ate then CalcRandomPosition(rx, ry) else g.pickup,
          gameOver := HeadOnTail(grown)), false)
  }

  /** One call of the per-frame step; `rx`, `ry` are the draws used if the pickup is relocated. */
  function UpdateRenderSpec(g: GameValue, rx: Draw, ry: Draw): (r: (GameValue, Outcome))
    requires GameInvariant(g) && IsUnitDraw(rx) && IsUnitDraw(ry)
    ensures r.1.Frozen? <==> g.gameOver
    ensures g.gameOver ==> r.0 == g
    ensures r.0.framesPerUpdate == g.framesPerUpdate
    ensures r.1.Faulted? ==> g.snake.tailSize == GRID_SIZE_MAX && r.0.snake.pos == g.pickup
  {
    if g.gameOver then (g, Frozen)
    else
      var (clock, fires) := AdvanceClock(g.clock, g.framesPerUpdate);
      if !fires then
        var g' := g.(clock := clock);
        (g', Drawn(Render(g'), false))
      else
        var (g', faulted) := AfterTick(g.(clock := 0), rx, ry);
        if faulted then (g', Faulted)
        else (g', Drawn(Render(g'), EatsPickup(g)))
  }

  // ----- Properties of one frame -----

  lemma UpdateRenderPreservesInvariant(g: GameValue, rx: Draw, ry: Draw)
    requires GameInvariant(g) && IsUnitDraw(rx) && IsUnitDraw(ry)
    ensures GameInvariant(UpdateRenderSpec(g, rx, ry).0)
  {
    if !g.gameOver {
      AdvanceClockInRange(g.clock, g.framesPerUpdate);
      MovePreservesInvariants(g.snake);
      MovePreservesConnected(g.snake);
      MoveTail(g.snake);
      var moved := AfterMove(g.snake);
      if moved.pos == g.pickup && moved.tailSize < GRID_SIZE_MAX {
        AddToTailPreservesInvariants(moved);
        GrowthAfterMovePreservesConnected(g.snake);
      }
    }
  }

  /**
    Input arrives between frames as heading requests to the snake; any
    number of them keeps the state a valid frame state, changing only the
    snake's pending heading.
   */
  lemma SteerPreservesInvariant(g: GameValue, newDir: Direction)
    requires GameInvariant(g)
    ensures GameInvariant(g.(snake := AfterSetDir(g.snake, newDir)))
    ensures AfterSetDir(g.snake, newDir).(dir := g.snake.dir) == g.snake
  {
    SetDirPreservesInvariants(g.snake, newDir);
    SetDirPreservesConnected(g.snake, newDir);
    SetDirAcceptsIffNotReverse(g.snake, newDir);
  }

  /** A finished game stays exactly as it is and draws nothing. */
  lemma GameOverFreezes(g: GameValue, rx: Draw, ry: Draw)
    requires GameInvariant(g) && IsUnitDraw(rx) && IsUnitDraw(ry) && g.gameOver
    ensures UpdateRenderSpec(g, rx, ry) == (g, Frozen)
  {
  }

  /**
    In a running game the counter stays below `framesPerUpdate`; a tick
    fires exactly when it reaches `framesPerUpdate`; a frame without a
    tick changes nothing but the counter and draws the current state.
   */
  lemma UpdateRenderClock(g: GameValue, rx: Draw, ry: Draw)
    requires GameInvariant(g) && IsUnitDraw(rx) && IsUnitDraw(ry) && !g.gameOver
    ensures UpdateRenderSpec(g, rx, ry).0.clock < g.framesPerUpdate
    ensures TickFires(g) <==> g.clock + 1 == g.framesPerUpdate
    ensures !TickFires(g) ==>
      UpdateRenderSpec(g, rx, ry) == (g.(clock := g.clock + 1), Drawn(Render(g), false))
  {
    AdvanceClockInRange(g.clock, g.framesPerUpdate);
  }

  /**
    On a tick the snake moves; if the head lands on the pickup the tail
    grows by exactly one, the pickup is relocated to the drawn cell of the
    grid and the jingle is played; otherwise length and pickup stay. The
    frame fails only when growth would exceed the tail's capacity.
   */
  lemma TickPickup(g: GameValue, rx: Draw, ry: Draw)
    requires GameInvariant(g) && IsUnitDraw(rx) && IsUnitDraw(ry) && TickFires(g)
    ensures UpdateRenderSpec(g, rx, ry).1 == Faulted <==> EatsPickup(g) && g.snake.tailSize == GRID_SIZE_MAX
    ensures UpdateRenderSpec(g, rx, ry).1 != Faulted ==>
      var (g', out) := UpdateRenderSpec(g, rx, ry);
      g'.clock == 0 &&
      g'.snake.pos == AfterMove(g.snake).pos &&
      g'.snake.tailSize == g.snake.tailSize + (if EatsPickup(g) then 1 else 0) &&
      g'.pickup == (if EatsPickup(g) then CalcRandomPosition(rx, ry) else g.pickup) &&
      InBounds(g'.pickup) &&
      out.jingle == EatsPickup(g)
  {
  }

  /**
    A tick ends the game exactly when the head, after the move and the
    pickup handling, lies on a live tail cell. A frame without a tick
    leaves the flag cleared, and once set it is never cleared.
   */
  lemma UpdateRenderGameOver(g: GameValue, rx: Draw, ry: Draw)
    requires GameInvariant(g) && IsUnitDraw(rx) && IsUnitDraw(ry)
    ensures g.gameOver ==> UpdateRenderSpec(g, rx, ry).0.gameOver
    ensures !g.gameOver && !TickFires(g) ==> !UpdateRenderSpec(g, rx, ry).0.gameOver
    ensures TickFires(g) && UpdateRenderSpec(g, rx, ry).1 != Faulted ==>
      var g' := UpdateRenderSpec(g, rx, ry).0;
      g'.snake.tailSize <= |g'.snake.tail| && (g'.gameOver <==> HeadOnTail(g'.snake))
  {
    if TickFires(g) {
      MoveTail(g.snake);
    }
  }

  /**
    The squares of a valid state: 2 + tailSize of them, the pickup, the
    head, then the live tail cells in order, each on the canvas.
   */
  lemma RenderShape(g: GameValue)
    requires GameInvariant(g)
    ensures
      var draws, n := Render(g), g.snake.tailSize;
      |draws| == 2 + n &&
      draws[0] == CellRect(Green, g.pickup) &&
      draws[1] == CellRect(Red, g.snake.pos) &&
      (forall i :: 0 <= i < n ==> draws[2 + i] == CellRect(Red, g.snake.tail[i])) &&
      (forall i :: 0 <= i < |draws| ==> OnCanvas(draws[i]))
  {
    var draws, n := Render(g), g.snake.tailSize;
    forall i | 0 <= i < |draws|
      ensures OnCanvas(draws[i])
    {
      if i >= 2 {
        assert draws[i] == CellRect(Red, g.snake.tail[i - 2]);
        CellRectOnCanvas(Red, g.snake.tail[i - 2]);
      } else {
        CellRectOnCanvas(draws[i].color, if i == 0 then g.pickup else g.snake.pos);
      }
    }
  }

  /**
    A frame that draws lists the squares of its new state: 2 + tailSize of
    them, the pickup, the new head, then the new live tail in order, each
    on the canvas.
   */
  lemma UpdateRenderDraws(g: GameValue, rx: Draw, ry: Draw)
    requires GameInvariant(g) && IsUnitDraw(rx) && IsUnitDraw(ry)
    requires UpdateRenderSpec(g, rx, ry).1.Drawn?
    ensures GameInvariant(UpdateRenderSpec(g, rx, ry).0)
    ensures UpdateRenderSpec(g, rx, ry).1.draws == Render(UpdateRenderSpec(g, rx, ry).0)
    ensures
      var g', draws := UpdateRenderSpec(g, rx, ry).0, UpdateRenderSpec(g, rx, ry).1.draws;
      |draws| == 2 + g'.snake.tailSize &&
      draws[0] == CellRect(Green, g'.pickup) &&
      draws[1] == CellRect(Red, g'.snake.pos) &&
      (forall i :: 0 <= i < g'.snake.tailSize ==> draws[2 + i] == CellRect(Red, g'.snake.tail[i])) &&
      (forall i :: 0 <= i < |draws| ==> OnCanvas(draws[i]))
  {
    UpdateRenderPreservesInvariant(g, rx, ry);
    RenderShape(UpdateRenderSpec(g, rx, ry).0);
  }

  /**
    The opening of a game without input: five frames leave the head at
    (20, 15); the sixth fires the first tick and moves it up to (20, 16).
   */
  lemma OpeningTicks(rx: Draw, ry: Draw)
    requires IsUnitDraw(rx) && IsUnitDraw(ry)
    ensures
      var g0 := InitialGame(rx, ry);
      var g1 := UpdateRenderSpec(g0, rx, ry).0;
      var g2 := UpdateRenderSpec(g1, rx, ry).0;
      var g3 := UpdateRenderSpec(g2, rx, ry).0;
      var g4 := UpdateRenderSpec(g3, rx, ry).0;
      var g5 := UpdateRenderSpec(g4, rx, ry).0;
      var g6 := UpdateRenderSpec(g5, rx, ry).0;
      g5.snake == g0.snake && g5.clock == 5 && g6.snake.pos == Pos(20, 16) && g6.clock == 0 && !g6.gameOver
  {
    var g0 := InitialGame(rx, ry);
    InitialGameInvariant(rx, ry);
    FrameWithoutTick(g0, rx, ry);
    FrameWithoutTick(g0.(clock := 1), rx, ry);
    FrameWithoutTick(g0.(clock := 2), rx, ry);
    FrameWithoutTick(g0.(clock := 3), rx, ry);
    FrameWithoutTick(g0.(clock := 4), rx, ry);
    var g5 := g0.(clock := 5);
    AdvanceClockInRange(g5.clock, g5.framesPerUpdate);
    TickPickup(g5, rx, ry);
    MoveHead(g5.snake);
    UpdateRenderGameOver(g5, rx, ry);
    var g6 := UpdateRenderSpec(g5, rx, ry).0;
    if EatsPickup(g5) {
      assert g6.snake.tail[0] == Pos(20, 15);
    }
    assert !HeadOnTail(g6.snake);
  }

  /** One frame that does not fire a tick, for the step-by-step opening. */
  lemma FrameWithoutTick(g: GameValue, rx: Draw, ry: Draw)
    requires GameInvariant(g) && IsUnitDraw(rx) && IsUnitDraw(ry) && !g.gameOver
    requires g.clock + 1 < g.framesPerUpdate
    ensures UpdateRenderSpec(g, rx, ry).0 == g.(clock := g.clock + 1)
    ensures GameInvariant(g.(clock := g.clock + 1))
  {
    UpdateRenderClock(g, rx, ry);
    UpdateRenderPreservesInvariant(g, rx, ry);
  }

  // ----- The object -----

  class GameState {
    const snake: Snake
    var clock: nat
    const updatesPerSecond: nat
    const framesPerUpdate: nat
    var pickupPosition: Pos
    var gameOver: bool

    ghost function Model(): GameValue
      reads this, snake, snake.tail
    {
      GameValue(snake.Model(), clock, framesPerUpdate, pickupPosition, gameOver)
    }

    ghost predicate Valid()
      reads this, snake, snake.tail
    {
      GameInvariant(Model())
    }

    /** The start-up state; `rx`, `ry` place the first pickup. */
    constructor (rx: Draw, ry: Draw)
      requires IsUnitDraw(rx) && IsUnitDraw(ry)
      ensures Valid() && fresh(snake) && fresh(snake.tail)
      ensures Model() == InitialGame(rx, ry)
      ensures updatesPerSecond == UPDATES_PER_SECOND
    {
      snake := new Snake(20, 15, Up);
      clock := 0;
      updatesPerSecond := UPDATES_PER_SECOND;
      framesPerUpdate := CalcFramesPerUpdate(UPDATES_PER_SECOND, DEFAULT_FPS);
      pickupPosition := CalcRandomPosition(rx, ry);
      gameOver := false;
      new;
      InitialGameInvariant(rx, ry);
    }

    /** The squares of the current frame: pickup, head, then the live tail in order. */
    method Draws() returns (draws: seq<Rect>)
      requires Valid()
      ensures draws == Render(Model())
    {
      draws := [CellRect(Green, pickupPosition), CellRect(Red, snake.pos)];
      assert snake.tail[..0] == [];
      for i := 0 to snake.tailSize
        invariant draws == DrawList(pickupPosition, snake.pos, snake.tail[..i])
      {
        DrawListAppend(pickupPosition, snake.pos, snake.tail[..i], snake.tail[i]);
        assert snake.tail[..i + 1] == snake.tail[..i] + [snake.tail[i]];
        draws := draws + [CellRect(Red, snake.tail[i])];
      }
    }

    /** One logical tick of a running game; the clock is left alone. */
    method Tick(rx: Draw, ry: Draw) returns (ate: bool, faulted: bool)
      requires Valid() && IsUnitDraw(rx) && IsUnitDraw(ry) && !gameOver
      modifies this, snake, snake.tail
      ensures (Model(), faulted) == AfterTick(old(Model()), rx, ry)
      ensures ate == EatsPickup(old(Model()))
    {
      ghost var g := Model();
      snake.Move();
      ghost var moved := snake.Model();
      assert moved == AfterMove(g.snake);
      ate := snake.pos == pickupPosition;
      faulted := false;

      if ate {
        if snake.tailSize == GRID_SIZE_MAX {
          faulted := true;
          return;
        }
        snake.AddToTail();
        pickupPosition := CalcRandomPosition(rx, ry);
      }

      var hit := snake.SelfIntersects();
      if hit {
        gameOver := true;
      }
    }

    /** One display frame. */
    method UpdateRender(rx: Draw, ry: Draw) returns (outcome: Outcome)
      requires Valid() && IsUnitDraw(rx) && IsUnitDraw(ry)
      modifies this, snake, snake.tail
      ensures Valid()
      ensures (Model(), outcome) == UpdateRenderSpec(old(Model()), rx, ry)
    {
      ghost var g := Model();
      UpdateRenderPreservesInvariant(g, rx, ry);
      if gameOver {
        return Frozen;
      }

      clock := clock + 1;
      var jingle := false;
      if clock % framesPerUpdate == 0 {
        clock := 0;
        var ate, faulted := Tick(rx, ry);
        if faulted {
          return Faulted;
        }
        jingle := ate;
      }

      var draws := Draws();
      outcome := Drawn(draws, jingle);
    }
  }

  /**
    A client of the object: a fresh game run for six frames without input
    has its head at (20, 15) after the fifth and at (20, 16) after the sixth.
   */
  method OpeningFrames(rx: Draw, ry: Draw) returns (after5: Pos, after6: Pos)
    requires IsUnitDraw(rx) && IsUnitDraw(ry)
    ensures after5 == Pos(20, 15) && after6 == Pos(20, 16)
  {
    var game := new GameState(rx, ry);
    OpeningTicks(rx, ry);
    var outcome := game.UpdateRender(rx, ry);
    outcome := game.UpdateRender(rx, ry);
    outcome := game.UpdateRender(rx, ry);
    outcome := game.UpdateRender(rx, ry);
    outcome := game.UpdateRender(rx, ry);
    after5 := game.snake.pos;
    outcome := game.UpdateRender(rx, ry);
    after6 := game.snake.pos;
  }
}
