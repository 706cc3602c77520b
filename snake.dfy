/**
  The snake: a head position on the toroidal grid, the position it held
  before its last move, the requested and the last applied heading, and a
  fixed-capacity tail array whose first `tailSize` cells are live, oldest
  first. `Snake` is the object the game mutates; `SnakeValue` is its
  abstract value, and the functions `AfterSetDir`, `AfterMove` and
  `AfterAddToTail` say what each method makes of that value.
 */
module SnakeEntity {
  import opened Constants

  // ----- Headings -----

  /** True when the two headings point in exactly opposite directions. */
  predicate IsOppositeDir(dirA: Direction, dirB: Direction)
    ensures IsOppositeDir(dirA, dirB) ==> dirA != dirB
    ensures IsOppositeDir(dirA, dirB) ==> DeltaX(dirA) + DeltaX(dirB) == 0 && DeltaY(dirA) + DeltaY(dirB) == 0
  {
    (dirA == Up && dirB == Down) ||
    (dirA == Down && dirB == Up) ||
    (dirA == Left && dirB == Right) ||
    (dirA == Right && dirB == Left)
  }

  /** Reference definition: the heading that points the other way. */
  function Reverse(d: Direction): (r: Direction)
    ensures r != d
  {
    match d
    case Up => Down
    case Down => Up
    case Left => Right
    case Right => Left
  }

  lemma ReverseInvolutive(d: Direction)
    ensures Reverse(Reverse(d)) == d
  {
  }

  /** The disjunction of four pairs is exactly "b is the reverse of a". */
  lemma IsOppositeDirIsReverse(a: Direction, b: Direction)
    ensures IsOppositeDir(a, b) <==> b == Reverse(a)
  {
  }

  lemma IsOppositeDirSymmetric(a: Direction, b: Direction)
    ensures IsOppositeDir(a, b) <==> IsOppositeDir(b, a)
  {
  }

  // ----- Movement of the head -----

  /** Column change of one step: Right adds one, Left subtracts one. */
  function DeltaX(d: Direction): int {
    match d
    case Right => 1
    case Left => -1
    case Up => 0
    case Down => 0
  }

  /** Row change of one step: Up adds one (rows grow upwards on screen), Down subtracts one. */
  function DeltaY(d: Direction): int {
    match d
    case Up => 1
    case Down => -1
    case Right => 0
    case Left => 0
  }

  /** The one-unit step of `move`, before wraparound: exactly one coordinate changes, by one. */
  function Step(p: Pos, d: Direction): (r: Pos)
    ensures r != p && (r.x == p.x || r.y == p.y)
    ensures -1 <= r.x - p.x <= 1 && -1 <= r.y - p.y <= 1
  {
    Pos(p.x + DeltaX(d), p.y + DeltaY(d))
  }

  /**
    The wraparound of `move` as written: one `else if` chain, so at most
    one coordinate is repaired.
   */
  function Wrap(p: Pos): (r: Pos)
    ensures InBounds(p) ==> r == p
    ensures r.x == p.x || r.y == p.y
  {
    if p.x < 0 then p.(x := GRID_WIDTH_MAX - 1)
    else if p.x >= GRID_WIDTH_MAX then p.(x := 0)
    else if p.y < 0 then p.(y := GRID_HEIGHT_MAX - 1)
    else if p.y >= GRID_HEIGHT_MAX then p.(y := 0)
    else p
  }

  /** Where `move` puts the head; from a cell of the grid it is again a cell of the grid. */
  function MovedPos(p: Pos, d: Direction): (r: Pos)
    ensures InBounds(p) ==> InBounds(r)
  {
    Wrap(Step(p, d))
  }

  /** Reference definition: one step on the torus, each axis taken modulo its size. */
  function TorusStep(p: Pos, d: Direction): (q: Pos)
    ensures InBounds(q)
  {
    Pos((p.x + DeltaX(d)) % GRID_WIDTH_MAX, (p.y + DeltaY(d)) % GRID_HEIGHT_MAX)
  }

  /**
    From a cell of the grid, the single `else if` chain agrees with
    independent per-axis wraparound: a step changes only one coordinate.
   */
  lemma MovedPosIsTorusStep(p: Pos, d: Direction)
    requires InBounds(p)
    ensures MovedPos(p, d) == TorusStep(p, d)
    ensures InBounds(MovedPos(p, d))
  {
    GridDimensions();
    match d
    case Up => ModOfSuccessor(p.y, GRID_HEIGHT_MAX);
    case Down => ModOfPredecessor(p.y, GRID_HEIGHT_MAX);
    case Right => ModOfSuccessor(p.x, GRID_WIDTH_MAX);
    case Left => ModOfPredecessor(p.x, GRID_WIDTH_MAX);
  }

  lemma ModOfSuccessor(v: int, m: int)
    requires 0 <= v < m
    ensures (v + 1) % m == if v + 1 == m then 0 else v + 1
  {
    if v + 1 == m {
      assert v + 1 == 1 * m + 0;
    } else {
      assert v + 1 == 0 * m + (v + 1);
    }
  }

  lemma ModOfPredecessor(v: int, m: int)
    requires 0 <= v < m
    ensures (v - 1) % m == if v == 0 then m - 1 else v - 1
  {
    if v == 0 {
      assert v - 1 == -1 * m + (m - 1);
    } else {
      assert v - 1 == 0 * m + (v - 1);
    }
  }

  /** A move always leaves the cell: the grid is wider and taller than one cell. */
  lemma MovedPosLeavesCell(p: Pos, d: Direction)
    requires InBounds(p)
    ensures MovedPos(p, d) != p
  {
    MovedPosIsTorusStep(p, d);
  }

  /**
    Off the grid the chain is not enough: from a cell outside both ranges
    only the column is repaired. No reachable position is like this.
   */
  lemma WrapRepairsOneAxisOnly()
    ensures !InBounds(MovedPos(Pos(-1, GRID_HEIGHT_MAX), Left))
  {
  }

  // ----- The tail -----

  /**
    The tail after a move: with `n` live cells the oldest is dropped and
    the vacated head position `prev` becomes the newest; cells from `n` on
    are unused and stay as they were.
   */
  function ShiftTail(t: seq<Pos>, n: nat, prev: Pos): (r: seq<Pos>)
    requires n <= |t|
    ensures |r| == |t|
  {
    if n == 0 then t else t[1..n] + [prev] + t[n..]
  }

  /** Cell by cell, the shifted tail is what the JavaScript game's copy loop produces. */
  lemma ShiftTailAt(t: seq<Pos>, n: nat, prev: Pos, i: int)
    requires 1 <= n <= |t| && 0 <= i < |t|
    ensures ShiftTail(t, n, prev)[i] == if i < n - 1 then t[i + 1] else if i == n - 1 then prev else t[i]
  {
  }

  // ----- Abstract value of a snake -----

  datatype SnakeValue = SnakeValue(
    pos: Pos,
    prevPos: Pos,
    dir: Direction,
    lastDir: Direction,
    tail: seq<Pos>,
    tailSize: nat)

  /** The object invariant: full capacity, live length within it, and no pending reversal. */
  predicate WellFormed(s: SnakeValue) {
    |s.tail| == GRID_SIZE_MAX && s.tailSize <= GRID_SIZE_MAX && !IsOppositeDir(s.lastDir, s.dir)
  }

  /** Every coordinate the snake holds is a cell of the grid. */
  predicate OnGrid(s: SnakeValue) {
    InBounds(s.pos) && InBounds(s.prevPos) && forall i :: 0 <= i < |s.tail| ==> InBounds(s.tail[i])
  }

  /** A new snake: head at (x, y), previous position and every tail slot at the origin, no live tail. */
  function Initial(x: int, y: int, d: Direction): (r: SnakeValue)
    ensures WellFormed(r) && r.tailSize == 0
  {
    SnakeValue(Pos(x, y), Pos(0, 0), d, d, seq(GRID_SIZE_MAX, _ => Pos(0, 0)), 0)
  }

  /** A heading request: only the requested heading may change, and the object invariant is kept. */
  function AfterSetDir(s: SnakeValue, newDir: Direction): (r: SnakeValue)
    ensures r.(dir := s.dir) == s
    ensures WellFormed(s) ==> WellFormed(r)
  {
    if !IsOppositeDir(s.lastDir, newDir) then s.(dir := newDir) else s
  }

  /** One move: the live length, the capacity and the heading stay, and the object invariant is kept. */
  function AfterMove(s: SnakeValue): (r: SnakeValue)
    requires s.tailSize <= |s.tail|
    ensures r.tailSize == s.tailSize && |r.tail| == |s.tail| && r.dir == s.dir
    ensures !IsOppositeDir(r.lastDir, r.dir)
    ensures WellFormed(s) ==> WellFormed(r)
  {
    s.(pos := MovedPos(s.pos, s.dir), prevPos := s.pos, lastDir := s.dir,
       tail := ShiftTail(s.tail, s.tailSize, s.pos))
  }

  /**
    Growth by one cell: the live cells stay, the vacated position becomes
    the newest live cell, the head and headings stay, and the object
    invariant is kept.
   */
  function AfterAddToTail(s: SnakeValue): (r: SnakeValue)
    requires s.tailSize < |s.tail|
    ensures r.tailSize == s.tailSize + 1 && |r.tail| == |s.tail|
    ensures r.tail[..s.tailSize] == s.tail[..s.tailSize] && r.tail[s.tailSize] == s.prevPos
    ensures r.pos == s.pos && r.dir == s.dir && r.lastDir == s.lastDir
    ensures WellFormed(s) ==> WellFormed(r)
  {
    s.(tail := s.tail[s.tailSize := s.prevPos], tailSize := s.tailSize + 1)
  }

  /** The head lies on one of the live tail cells. */
  predicate HeadOnTail(s: SnakeValue)
    requires s.tailSize <= |s.tail|
    ensures HeadOnTail(s) <==> s.pos in s.tail[..s.tailSize]
  {
    exists i :: 0 <= i < s.tailSize && s.tail[i] == s.pos
  }

  // ----- Properties of the operations -----

  lemma InitialWellFormed(x: int, y: int, d: Direction)
    ensures WellFormed(Initial(x, y, d))
    ensures InBounds(Pos(x, y)) ==> OnGrid(Initial(x, y, d))
    ensures !HeadOnTail(Initial(x, y, d))
  {
  }

  /**
    On a well-formed snake a heading request takes effect exactly when it
    is not the reverse of the last applied heading; otherwise nothing
    changes, and in no case does anything but the heading change.
   */
  lemma SetDirAcceptsIffNotReverse(s: SnakeValue, newDir: Direction)
    requires WellFormed(s)
    ensures AfterSetDir(s, newDir).dir == newDir <==> !IsOppositeDir(s.lastDir, newDir)
    ensures IsOppositeDir(s.lastDir, newDir) ==> AfterSetDir(s, newDir) == s
    ensures AfterSetDir(s, newDir).(dir := s.dir) == s
  {
  }

  lemma SetDirPreservesInvariants(s: SnakeValue, newDir: Direction)
    ensures WellFormed(s) ==> WellFormed(AfterSetDir(s, newDir))
    ensures OnGrid(s) ==> OnGrid(AfterSetDir(s, newDir))
  {
  }

  /** After a move the pending heading is the applied one, so it cannot be a reversal. */
  lemma MoveClearsReversal(s: SnakeValue)
    requires s.tailSize <= |s.tail|
    ensures AfterMove(s).lastDir == AfterMove(s).dir == s.dir
    ensures !IsOppositeDir(AfterMove(s).lastDir, AfterMove(s).dir)
  {
  }

  /**
    The head takes one toroidal step in the old heading and the previous
    position records where it was: the two are distinct neighbours.
   */
  lemma MoveHead(s: SnakeValue)
    requires s.tailSize <= |s.tail| && InBounds(s.pos)
    ensures AfterMove(s).prevPos == s.pos
    ensures AfterMove(s).pos == TorusStep(s.pos, s.dir)
    ensures AfterMove(s).pos != AfterMove(s).prevPos
  {
    MovedPosIsTorusStep(s.pos, s.dir);
  }

  /**
    The tail after a move: untouched without live cells; otherwise every
    live cell takes its successor's value, the newest takes the vacated
    head position, and the unused slots and the length are unchanged.
   */
  lemma MoveTail(s: SnakeValue)
    requires s.tailSize <= |s.tail|
    ensures AfterMove(s).tailSize == s.tailSize && |AfterMove(s).tail| == |s.tail|
    ensures s.tailSize == 0 ==> AfterMove(s).tail == s.tail
    ensures s.tailSize >= 1 ==>
      (forall i :: 0 <= i < s.tailSize - 1 ==> AfterMove(s).tail[i] == s.tail[i + 1]) &&
      AfterMove(s).tail[s.tailSize - 1] == AfterMove(s).prevPos
    ensures forall i :: s.tailSize <= i < |s.tail| ==> AfterMove(s).tail[i] == s.tail[i]
  {
    var r := AfterMove(s);
    forall i | 0 <= i < |s.tail| && 1 <= s.tailSize
      ensures r.tail[i] == if i < s.tailSize - 1 then s.tail[i + 1] else if i == s.tailSize - 1 then s.pos else s.tail[i]
    {
      ShiftTailAt(s.tail, s.tailSize, s.pos, i);
    }
  }

  lemma MovePreservesInvariants(s: SnakeValue)
    requires s.tailSize <= |s.tail|
    ensures WellFormed(s) ==> WellFormed(AfterMove(s))
    ensures OnGrid(s) ==> OnGrid(AfterMove(s))
  {
    if OnGrid(s) {
      MovedPosIsTorusStep(s.pos, s.dir);
      var r := AfterMove(s);
      forall i | 0 <= i < |r.tail|
        ensures InBounds(r.tail[i])
      {
        if 1 <= s.tailSize {
          ShiftTailAt(s.tail, s.tailSize, s.pos, i);
        }
      }
    }
  }

  /**
    Growth writes the previous position into the first unused slot and
    lengthens the live tail by one; nothing else changes.
   */
  lemma AddToTailEffect(s: SnakeValue)
    requires s.tailSize < |s.tail|
    ensures AfterAddToTail(s).tailSize == s.tailSize + 1
    ensures AfterAddToTail(s).tail[s.tailSize] == s.prevPos
    ensures forall i :: 0 <= i < |s.tail| && i != s.tailSize ==> AfterAddToTail(s).tail[i] == s.tail[i]
    ensures AfterAddToTail(s).(tail := s.tail, tailSize := s.tailSize) == s
  {
  }

  lemma AddToTailPreservesInvariants(s: SnakeValue)
    requires s.tailSize < |s.tail|
    ensures WellFormed(s) && s.tailSize < GRID_SIZE_MAX ==> WellFormed(AfterAddToTail(s))
    ensures OnGrid(s) ==> OnGrid(AfterAddToTail(s))
  {
  }

  /**
    Growing right after a move with a live tail duplicates one cell: the
    newest live cell and the new one both hold the previous position.
   */
  lemma GrowthAfterMoveDuplicates(s: SnakeValue)
    requires 1 <= s.tailSize < |s.tail|
    ensures AfterAddToTail(AfterMove(s)).tail[s.tailSize - 1] == s.pos
    ensures AfterAddToTail(AfterMove(s)).tail[s.tailSize] == s.pos
    ensures AfterAddToTail(AfterMove(s)).prevPos == s.pos
  {
    MoveTail(s);
  }

  // ----- The body is a chain of neighbouring cells -----

  /** `q` is one toroidal step away from `p`. */
  predicate Neighbour(p: Pos, q: Pos) {
    exists d :: q == TorusStep(p, d)
  }

  /** Equal cells, or neighbours: growth repeats a cell once. */
  predicate Near(p: Pos, q: Pos) {
    p == q || Neighbour(p, q)
  }

  /**
    The live tail, oldest first, then the head form a chain: consecutive
    tail cells are equal or neighbours, the newest tail cell is the
    previous position, and that neighbours the head.
   */
  predicate Connected(s: SnakeValue)
    requires s.tailSize <= |s.tail|
  {
    1 <= s.tailSize ==>
      s.tail[s.tailSize - 1] == s.prevPos && Neighbour(s.prevPos, s.pos) &&
      forall i :: 0 <= i < s.tailSize - 1 ==> Near(s.tail[i], s.tail[i + 1])
  }

  /** A move keeps the chain, and afterwards the previous position neighbours the head. */
  lemma MovePreservesConnected(s: SnakeValue)
    requires s.tailSize <= |s.tail| && InBounds(s.pos) && Connected(s)
    ensures Connected(AfterMove(s))
    ensures Neighbour(AfterMove(s).prevPos, AfterMove(s).pos)
  {
    var r := AfterMove(s);
    var n := s.tailSize;
    MoveHead(s);
    assert r.pos == TorusStep(s.pos, s.dir);
    MoveTail(s);
    if 1 <= n {
      forall i | 0 <= i < n - 1
        ensures Near(r.tail[i], r.tail[i + 1])
      {
        if i < n - 2 {
          assert Near(s.tail[i + 1], s.tail[i + 2]);
        } else {
          assert r.tail[i] == s.tail[n - 1] == s.prevPos;
        }
      }
    }
  }

  /** Growth right after a move keeps the chain: the new cell repeats the newest one. */
  lemma GrowthAfterMovePreservesConnected(s: SnakeValue)
    requires s.tailSize < |s.tail| && InBounds(s.pos) && Connected(s)
    ensures Connected(AfterAddToTail(AfterMove(s)))
  {
    var m := AfterMove(s);
    MovePreservesConnected(s);
    MoveTail(s);
    var r := AfterAddToTail(m);
    var n := s.tailSize;
    if 1 <= n {
      forall i | 0 <= i < n
        ensures Near(r.tail[i], r.tail[i + 1])
      {
        if i < n - 1 {
          assert Near(m.tail[i], m.tail[i + 1]);
        }
      }
    }
  }

  lemma SetDirPreservesConnected(s: SnakeValue, newDir: Direction)
    requires s.tailSize <= |s.tail| && Connected(s)
    ensures Connected(AfterSetDir(s, newDir))
  {
  }

  /** One accepted turn and move of a snake with four live tail cells, on the live window. */
  lemma FourCellStep(s: SnakeValue, d: Direction)
    requires s.tailSize == 4 && |s.tail| == GRID_SIZE_MAX && !IsOppositeDir(s.lastDir, d)
    ensures
      var r := AfterMove(AfterSetDir(s, d));
      r.tailSize == 4 && |r.tail| == GRID_SIZE_MAX && r.pos == MovedPos(s.pos, d) && r.lastDir == d &&
      r.tail[..4] == s.tail[1..4] + [s.pos]
  {
    var t := AfterSetDir(s, d);
    MoveTail(t);
    var r := AfterMove(t);
    assert r.tail[..4] == [r.tail[0], r.tail[1], r.tail[2], r.tail[3]];
    assert s.tail[1..4] + [s.pos] == [s.tail[1], s.tail[2], s.tail[3], s.pos];
  }

  /**
    A U-turn of a snake with four live tail cells: from (5, 5) heading up
    with the tail at (5, 1) .. (5, 4), turning right, down and left brings
    the head back onto (5, 4), the oldest live cell by then. `rest` is the
    content of the unused slots.
   */
  lemma UTurnCollides(rest: seq<Pos>)
    requires |rest| == GRID_SIZE_MAX - 4
    ensures
      var s0 := SnakeValue(Pos(5, 5), Pos(5, 4), Up, Up, [Pos(5, 1), Pos(5, 2), Pos(5, 3), Pos(5, 4)] + rest, 4);
      var s1 := AfterMove(AfterSetDir(s0, Right));
      var s2 := AfterMove(AfterSetDir(s1, Down));
      var s3 := AfterMove(AfterSetDir(s2, Left));
      WellFormed(s0) && !HeadOnTail(s1) && !HeadOnTail(s2) &&
      s3.pos == Pos(5, 4) && HeadOnTail(s3)
  {
    var s0 := SnakeValue(Pos(5, 5), Pos(5, 4), Up, Up, [Pos(5, 1), Pos(5, 2), Pos(5, 3), Pos(5, 4)] + rest, 4);
    assert s0.tail[1..4] == [Pos(5, 2), Pos(5, 3), Pos(5, 4)];
    FourCellStep(s0, Right);
    var s1 := AfterMove(AfterSetDir(s0, Right));
    assert s1.pos == Pos(6, 5);
    assert s1.tail[..4] == [Pos(5, 2), Pos(5, 3), Pos(5, 4), Pos(5, 5)];
    assert s1.tail[1..4] == s1.tail[..4][1..];
    FourCellStep(s1, Down);
    var s2 := AfterMove(AfterSetDir(s1, Down));
    assert s2.pos == Pos(6, 4);
    assert s2.tail[..4] == [Pos(5, 3), Pos(5, 4), Pos(5, 5), Pos(6, 5)];
    assert s2.tail[1..4] == s2.tail[..4][1..];
    FourCellStep(s2, Left);
    var s3 := AfterMove(AfterSetDir(s2, Left));
    assert s3.pos == Pos(5, 4);
    assert s3.tail[..4] == [Pos(5, 4), Pos(5, 5), Pos(6, 5), Pos(6, 4)];
  }

  // ----- The object -----

  class Snake {
    var pos: Pos
    var prevPos: Pos
    var dir: Direction
    var lastDir: Direction
    const tail: array<Pos>
    var tailSize: nat

    ghost function Model(): SnakeValue
      reads this, tail
    {
      SnakeValue(pos, prevPos, dir, lastDir, tail[..], tailSize)
    }

    ghost predicate Valid()
      reads this, tail
    {
      WellFormed(Model())
    }

    constructor (x: int, y: int, d: Direction)
      ensures Valid() && fresh(tail)
      ensures Model() == Initial(x, y, d)
    {
      pos := Pos(x, y);
      prevPos := Pos(0, 0);
      dir := d;
      lastDir := d;
      var cells := new Pos[GRID_SIZE_MAX];
      for i := 0 to GRID_SIZE_MAX
        invariant forall k :: 0 <= k < i ==> cells[k] == Pos(0, 0)
      {
        cells[i] := Pos(0, 0);
      }
      assert cells[..] == seq(GRID_SIZE_MAX, _ => Pos(0, 0));
      tail := cells;
      tailSize := 0;
    }

    /** Accepts the heading unless it reverses the last applied one. */
    method SetDir(newDir: Direction)
      requires Valid()
      modifies this
      ensures Valid()
      ensures Model() == AfterSetDir(old(Model()), newDir)
    {
      if !IsOppositeDir(lastDir, newDir) {
        dir := newDir;
      }
    }

    /** One step: record the head, apply the heading, wrap, then shift the tail in place. */
    method Move()
      requires Valid()
      modifies this, tail
      ensures Valid()
      ensures Model() == AfterMove(old(Model()))
    {
      prevPos := pos;
      lastDir := dir;
      pos := MovedPos(pos, dir);
      ShiftTailInPlace(tailSize, prevPos);
    }

    /**
      The copy loop of `move`: each of the first n - 1 slots takes its
      successor's cell, slot n - 1 takes `prev`, and later slots stay.
     */
    method ShiftTailInPlace(n: nat, prev: Pos)
      requires n <= tail.Length
      modifies tail
      ensures tail[..] == ShiftTail(old(tail[..]), n, prev)
    {
      if n > 0 {
        for i := 0 to n - 1
          invariant forall k :: 0 <= k < i ==> tail[k] == old(tail[k + 1])
          invariant forall k :: i <= k < tail.Length ==> tail[k] == old(tail[k])
        {
          tail[i] := tail[i + 1];
        }
        tail[n - 1] := prev;
      }

      ghost var was := old(tail[..]);
      forall k | 0 <= k < tail.Length
        ensures tail[k] == ShiftTail(was, n, prev)[k]
      {
        if n > 0 {
          ShiftTailAt(was, n, prev, k);
        }
      }
      assert tail[..] == ShiftTail(was, n, prev);
    }

    /** Appends the previous position to the live tail. */
    method AddToTail()
      requires Valid() && tailSize < GRID_SIZE_MAX
      modifies this, tail
      ensures Valid()
      ensures Model() == AfterAddToTail(old(Model()))
    {
      tail[tailSize] := prevPos;
      tailSize := tailSize + 1;
    }

    /** Scans the live tail for the head, stopping at the first match. */
    method SelfIntersects() returns (hit: bool)
      requires Valid()
      ensures hit <==> exists i :: 0 <= i < tailSize && tail[i] == pos
      ensures hit == HeadOnTail(Model())
    {
      for i := 0 to tailSize
        invariant forall k :: 0 <= k < i ==> tail[k] != pos
      {
        if tail[i] == pos {
          return true;
        }
      }
      return false;
    }
  }
}
