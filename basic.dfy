/** Directions and positions shared by every entity on the maze (basic.hpp). */
module Basic {

  /** The four stepping directions, in declaration order. */
  datatype Direction = Up | Right | Down | Left

  /** The enumerator value of a direction: UP=0, RIGHT=1, DOWN=2, LEFT=3. */
  function Ordinal(d: Direction): (n: nat)
    ensures n < 4
    ensures n == 0 <==> d == Up
    ensures n == 1 <==> d == Right
    ensures n == 2 <==> d == Down
  {
    match d
    case Up => 0
    case Right => 1
    case Down => 2
    case Left => 3
  }

  /** The direction whose enumerator value is `n` (the cast `(Direction)n`). */
  function FromOrdinal(n: nat): (d: Direction)
    requires n < 4
    ensures Ordinal(d) == n
  {
    if n == 0 then Up else if n == 1 then Right else if n == 2 then Down else Left
  }

  lemma OrdinalRoundTrip(d: Direction)
    ensures FromOrdinal(Ordinal(d)) == d
  {
  }

  /** An integer cell coordinate; x grows to the right, y grows downwards. */
  datatype Position = Position(x: int, y: int)

  /** `Position::move`: the neighbouring cell in direction `d`. */
  function Move(p: Position, d: Direction): (q: Position)
  {
    match d
    case Up => Position(p.x, p.y - 1)
    case Right => Position(p.x + 1, p.y)
    case Down => Position(p.x, p.y + 1)
    case Left => Position(p.x - 1, p.y)
  }

  /** The direction that undoes `d`. */
  function Opposite(d: Direction): Direction
  {
    match d
    case Up => Down
    case Right => Left
    case Down => Up
    case Left => Right
  }

  /** `operator==` on positions: both components equal. */
  predicate Same(a: Position, b: Position)
  {
    a.x == b.x && a.y == b.y
  }

  /** `operator!=` on positions: some component differs. */
  predicate Differs(a: Position, b: Position)
  {
    a.x != b.x || a.y != b.y
  }

  /** Moving changes exactly one coordinate, and that one by exactly one. */
  lemma MoveIsUnitStep(p: Position, d: Direction)
    ensures var q := Move(p, d);
      (q.x == p.x && (q.y == p.y - 1 || q.y == p.y + 1)) ||
      (q.y == p.y && (q.x == p.x - 1 || q.x == p.x + 1))
    ensures Move(p, d) != p
    ensures (d == Up || d == Down) <==> Move(p, d).x == p.x
  {
  }

  /** Stepping back in the opposite direction returns to the starting cell. */
  lemma MoveOpposite(p: Position, d: Direction)
    ensures Move(Move(p, d), Opposite(d)) == p
    ensures Opposite(Opposite(d)) == d
  {
  }

  /** The four directions lead to four different cells. */
  lemma MoveInjective(p: Position, d: Direction, e: Direction)
    ensures Move(p, d) == Move(p, e) <==> d == e
  {
  }

  /** Component-wise equality is exactly value equality of positions. */
  lemma SameIsEquality(a: Position, b: Position)
    ensures Same(a, b) <==> a == b
  {
  }

  /** `!=` is the negation of `==`. */
  lemma DiffersIsNegation(a: Position, b: Position)
    ensures Differs(a, b) <==> !Same(a, b)
    ensures Differs(a, b) <==> a != b
  {
  }
}
