/**
  The frozen constants of the game: the four direction codes, the logical
  canvas size, the size of one grid cell in pixels, and the grid dimensions
  derived from these.
 */
module Constants {
  import opened Wrappers

  /** The four headings. The JavaScript game encodes them as the numbers 1 to 4. */
  datatype Direction = Up | Right | Down | Left

  /** The numeric code the JavaScript game uses for each heading. */
  function DirectionCode(d: Direction): (c: int)
    ensures 1 <= c <= 4
  {
    match d
    case Up => 1
    case Right => 2
    case Down => 3
    case Left => 4
  }

  /** Decodes a numeric heading; only the four codes name a heading. */
  function DirectionOfCode(c: int): (r: Option<Direction>)
    ensures r.Some? <==> 1 <= c <= 4
  {
    if c == 1 then Some(Up)
    else if c == 2 then Some(Right)
    else if c == 3 then Some(Down)
    else if c == 4 then Some(Left)
    else None
  }

  lemma DirectionCodeRoundTrip(d: Direction)
    ensures DirectionOfCode(DirectionCode(d)) == Some(d)
  {
  }

  lemma DirectionCodeRoundTripFromCode(c: int)
    requires 1 <= c <= 4
    ensures DirectionCode(DirectionOfCode(c).value) == c
  {
  }

  /** The four codes are distinct. */
  lemma DirectionCodeInjective(a: Direction, b: Direction)
    ensures DirectionCode(a) == DirectionCode(b) <==> a == b
  {
  }

  /** Logical canvas size in pixels. */
  const WIDTH: int := 800
  const HEIGHT: int := 600

  /** Side of one grid cell in pixels. */
  const GRID_SCALE: int := 20

  /** Grid dimensions in cells. */
  const GRID_WIDTH_MAX: int := WIDTH / GRID_SCALE
  const GRID_HEIGHT_MAX: int := HEIGHT / GRID_SCALE

  /** Number of cells of the grid, which is the capacity of the snake's tail. */
  const GRID_SIZE_MAX: int := GRID_WIDTH_MAX * GRID_HEIGHT_MAX

  /**
    The JavaScript game divides with floating-point division; both divisions are
    exact, so the integer quotients above are the same numbers.
   */
  lemma GridDimensions()
    ensures GRID_WIDTH_MAX * GRID_SCALE == WIDTH && GRID_HEIGHT_MAX * GRID_SCALE == HEIGHT
    ensures GRID_WIDTH_MAX == 40 && GRID_HEIGHT_MAX == 30 && GRID_SIZE_MAX == 1200
  {
  }

  /** A grid cell. The JavaScript game stores it in a 3-vector whose third component is always 0. */
  datatype Pos = Pos(x: int, y: int)

  predicate InBounds(p: Pos) {
    0 <= p.x < GRID_WIDTH_MAX && 0 <= p.y < GRID_HEIGHT_MAX
  }
}
