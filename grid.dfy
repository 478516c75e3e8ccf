/** The toroidal playing field: cells, the four directions and the wrap-around move. */
module Grid {

  /** Window size in pixels and the side of one cell; the grid is 30 by 20 cells. */
  const ScreenWidth: int := 600
  const ScreenHeight: int := 400
  const CellSize: int := 20
  const Width: int := ScreenWidth / CellSize
  const Height: int := ScreenHeight / CellSize

  datatype Cell = Cell(x: int, y: int)

  predicate InBounds(c: Cell) {
    0 <= c.x < Width && 0 <= c.y < Height
  }

  /** A cell the random generator can produce: each coordinate drawn from [0, side - 1]. */
  type GridCell = c: Cell | InBounds(c) witness Cell(0, 0)

  datatype Direction = Up | Down | Left | Right

  /** The unit delta of a direction; y grows downwards, as on the screen. */
  function DeltaX(d: Direction): int {
    match d
    case Left => -1
    case Right => 1
    case _ => 0
  }

  function DeltaY(d: Direction): int {
    match d
    case Up => -1
    case Down => 1
    case _ => 0
  }

  /** The opposite direction. */
  function Reverse(d: Direction): (r: Direction)
    ensures DeltaX(r) == -DeltaX(d) && DeltaY(r) == -DeltaY(d)
    ensures r != d
  {
    match d
    case Up => Down
    case Down => Up
    case Left => Right
    case Right => Left
  }

  /** The guard of the direction buffer, written on deltas as the game does: the negated
      delta of `requested` is the delta of `current`. It holds exactly for the reverse. */
  predicate IsReversal(requested: Direction, current: Direction): (r: bool)
    ensures r <==> current == Reverse(requested)
  {
    -DeltaX(requested) == DeltaX(current) && -DeltaY(requested) == DeltaY(current)
  }

  /** One step in direction d with wrap-around on both axes. Dafny's `%` agrees with the
      game's floored modulo because the divisor is positive. */
  function Move(c: Cell, d: Direction): (r: Cell)
    ensures InBounds(r)
    ensures InBounds(c) ==> r != c
  {
    Cell((c.x + DeltaX(d)) % Width, (c.y + DeltaY(d)) % Height)
  }

  /** An independent description of one coordinate step on a ring of `side` cells:
      leaving at either edge re-enters at the opposite one. */
  function Step(v: int, delta: int, side: int): int {
    if v + delta == side then 0
    else if v + delta == -1 then side - 1
    else v + delta
  }

  lemma {:induction false} MoveIsStep(c: Cell, d: Direction)
    requires InBounds(c)
    ensures Move(c, d) == Cell(Step(c.x, DeltaX(d), Width), Step(c.y, DeltaY(d), Height))
  {
    assert Width == 30 && Height == 20;
    var r := Move(c, d);
    if c.x + DeltaX(d) == Width {
      assert r.x == 0;
    } else if c.x + DeltaX(d) == -1 {
      assert r.x == Width - 1;
    } else {
      assert r.x == c.x + DeltaX(d);
    }
    if c.y + DeltaY(d) == Height {
      assert r.y == 0;
    } else if c.y + DeltaY(d) == -1 {
      assert r.y == Height - 1;
    } else {
      assert r.y == c.y + DeltaY(d);
    }
  }

  /** Moving back in the reverse direction returns to the starting cell. */
  lemma {:induction false} MoveThenReverse(c: Cell, d: Direction)
    requires InBounds(c)
    ensures Move(Move(c, d), Reverse(d)) == c
  {
    MoveIsStep(c, d);
    MoveIsStep(Move(c, d), Reverse(d));
  }
}
