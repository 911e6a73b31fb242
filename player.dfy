/** The player: a fixed-direction walker that consults the live map only (player.cpp). */
module Players {
  import opened Basic
  import opened Grid

  /** The cell the player occupies after one step from `p` facing `d` on a grid: the neighbour unless it is a wall. */
  function Stepped(width: int, height: int, data: seq<char>, p: Position, d: Direction): Position
    requires |data| == width * height && Interior(width, height, p)
  {
    var next := Move(p, d);
    if At(width, height, data, next) != '#' then next else p
  }

  /** A step lands on a neighbour exactly when it is not a wall, and from inside a walled grid it stays inside. */
  lemma SteppedStaysInside(width: int, height: int, data: seq<char>, p: Position, d: Direction)
    requires |data| == width * height && (width == 0 <==> height == 0)
    requires Interior(width, height, p) && Walled(width, height, data)
    ensures Stepped(width, height, data, p, d) == Move(p, d) <==> At(width, height, data, Move(p, d)) != '#'
    ensures Stepped(width, height, data, p, d) != Move(p, d) ==> Stepped(width, height, data, p, d) == p
    ensures Interior(width, height, Stepped(width, height, data, p, d))
  {
    var next := Move(p, d);
    MoveIsUnitStep(p, d);
    if At(width, height, data, next) != '#' {
      WalledInterior(width, height, data, next);
    }
  }

  class Player {
    var startPosition: Position
    var position: Position
    var direction: Direction

    /** A default-constructed player; `Init` gives it its real state. */
    constructor ()
      ensures startPosition == Position(0, 0) && position == Position(0, 0) && direction == Down
    {
      startPosition, position, direction := Position(0, 0), Position(0, 0), Down;
    }

    /** `Player::init`: start and current position at `pos`, facing down; the program text is not read. */
    method Init(pos: Position, program: seq<string>)
      modifies this
      ensures startPosition == pos && position == pos && direction == Down
    {
      startPosition := pos;
      position := pos;
      direction := Down;
    }

    /** `Player::step`: one cell in the current direction unless the destination is a wall. */
    method Step(grid: Map)
      requires grid.Valid() && Interior(grid.width, grid.height, position)
      modifies this
      ensures position == Stepped(grid.width, grid.height, grid.data, old(position), old(direction))
      ensures direction == old(direction) && startPosition == old(startPosition)
    {
      var newPos := Move(position, direction);
      if grid.Get(newPos) != '#' {
        position := newPos;
      }
    }

    /** `Player::reset`: back to the start position. */
    method Reset()
      modifies this
      ensures position == startPosition
      ensures startPosition == old(startPosition) && direction == old(direction)
    {
      position := startPosition;
    }
  }
}
