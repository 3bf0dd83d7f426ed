/** Cells of the 4x4 board and the mutable Location object that a path state moves around. */
module Locations {
  import opened Actions

  /** The board is Size cells wide and Size cells high. */
  const Size: int := 4

  /** A cell, compared by its coordinate pair. */
  datatype Cell = Cell(x: int, y: int)

  predicate InBounds(c: Cell)
  {
    0 <= c.x < Size && 0 <= c.y < Size
  }

  /** Two different cells that touch, orthogonally or diagonally. */
  predicate IsNeighbour(c: Cell, d: Cell)
  {
    c != d && -1 <= d.x - c.x <= 1 && -1 <= d.y - c.y <= 1
  }

  /** The cell reached from c by one step in direction a. */
  function Step(c: Cell, a: Action): (d: Cell)
    ensures IsNeighbour(c, d)
  {
    DeltaInjective(a, a);
    Cell(c.x + DeltaX(a), c.y + DeltaY(a))
  }

  /** Stepping back along the complement returns to the start. */
  lemma StepComplement(c: Cell, a: Action)
    ensures Step(Step(c, a), Complement(a)) == c
  {
  }

  /** The direction that leads from c to a neighbour d. */
  function ActionTo(c: Cell, d: Cell): (a: Action)
    requires IsNeighbour(c, d)
    ensures Step(c, a) == d
  {
    var dx, dy := d.x - c.x, d.y - c.y;
    if dx == 0 then (if dy == 1 then North else South)
    else if dx == 1 then (if dy == 1 then NorthEast else if dy == 0 then East else SouthEast)
    else (if dy == 1 then NorthWest else if dy == 0 then West else SouthWest)
  }

  /** A board position whose coordinates the search updates in place. */
  class Location {
    var x: int
    var y: int

    function Pos(): Cell
      reads this
    {
      Cell(x, y)
    }

    ghost predicate Valid()
      reads this
    {
      InBounds(Pos())
    }

    /** A location is only ever built inside the board. */
    constructor (x0: int, y0: int)
      requires InBounds(Cell(x0, y0))
      ensures Pos() == Cell(x0, y0) && Valid()
    {
      x, y := x0, y0;
    }

    /** Copy constructor. */
    constructor Copy(rhs: Location)
      ensures Pos() == rhs.Pos()
    {
      x, y := rhs.x, rhs.y;
    }

    /** Moves this location one step; stepping off the board fails an assertion,
        so the target must be on the board. */
    method Advance(a: Action)
      requires InBounds(Step(Pos(), a))
      modifies this
      ensures Pos() == Step(old(Pos()), a) && Valid()
    {
      x := x + DeltaX(a);
      y := y + DeltaY(a);
    }

    /** A new location one step away; the target must be on the board. */
    method Adjacent(a: Action) returns (l: Location)
      requires InBounds(Step(Pos(), a))
      ensures fresh(l) && l.Pos() == Step(Pos(), a) && l.Valid()
    {
      l := new Location(x + DeltaX(a), y + DeltaY(a));
    }
  }
}
