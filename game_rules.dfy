/** The rules of the game as values: scoring, move delays, glyph counts and the collision rule (game.cpp). */
module GameRules {
  import opened Basic
  import opened Grid
  import opened GhostCpu
  import opened Events

  const PillValue := 10
  const PowerPillValue := 50
  const FirstGhostValue := 200
  const MaxGhostValue := 1600

  // ---------------------------------------------------------------
  // Scoring

  /** `getFruitValue`: the points a fruit is worth on a level. */
  function FruitValue(level: int): int
  {
    if level <= 1 then 100
    else if level <= 2 then 300
    else if level <= 4 then 500
    else if level <= 6 then 700
    else if level <= 8 then 1000
    else if level <= 10 then 2000
    else if level <= 12 then 3000
    else 5000
  }

  /** Fruit is worth between 100 and 5000 points, and never less on a higher level. */
  lemma FruitValueMonotone(a: int, b: int)
    requires a <= b
    ensures 100 <= FruitValue(a) <= FruitValue(b) <= 5000
    ensures a <= 1 ==> FruitValue(a) == 100
    ensures b >= 13 ==> FruitValue(b) == 5000
  {
  }

  /** `Game::level`: one level per started hundred cells of the map. */
  function Level(width: int, height: int): int
    requires 0 <= width && 0 <= height
  {
    width * height / 100 + 1
  }

  /** The level is the number of the hundred-cell block the map's area falls into, counting from 1. */
  lemma LevelBounds(width: int, height: int)
    requires 0 <= width && 0 <= height
    ensures 1 <= Level(width, height)
    ensures (Level(width, height) - 1) * 100 <= width * height < Level(width, height) * 100
  {
  }

  /** What the next eaten ghost is worth: double the last, capped at 1600. */
  function NextBounty(value: int): int
  {
    if value * 2 < MaxGhostValue then value * 2 else MaxGhostValue
  }

  /** The values a ghost can be worth. */
  predicate Bounty(value: int)
  {
    value == 200 || value == 400 || value == 800 || value == 1600
  }

  /** The bounty after `n` more ghosts are eaten. */
  function BountyAfter(value: int, n: nat): int
    decreases n
  {
    if n == 0 then value else BountyAfter(NextBounty(value), n - 1)
  }

  /** The points for eating `n` ghosts in a row starting at bounty `value`. */
  function BountyTotal(value: int, n: nat): int
    decreases n
  {
    if n == 0 then 0 else value + BountyTotal(NextBounty(value), n - 1)
  }

  /** The bounty climbs 200, 400, 800, 1600 and stays at 1600. */
  lemma {:induction false} BountyLadder(n: nat)
    ensures BountyAfter(FirstGhostValue, n) == if n >= 3 then MaxGhostValue else FirstGhostValue * Pow2(n)
    ensures Bounty(BountyAfter(FirstGhostValue, n))
  {
    if n >= 3 {
      assert BountyAfter(FirstGhostValue, 3) == MaxGhostValue;
      CappedBounty(n - 3);
      assert BountyAfter(FirstGhostValue, n) == BountyAfter(MaxGhostValue, n - 3) by {
        BountyAfterSplit(FirstGhostValue, 3, n - 3);
      }
    }
  }

  lemma {:induction false} CappedBounty(n: nat)
    ensures BountyAfter(MaxGhostValue, n) == MaxGhostValue
  {
    if n > 0 {
      CappedBounty(n - 1);
    }
  }

  lemma {:induction false} BountyAfterSplit(value: int, m: nat, n: nat)
    ensures BountyAfter(value, m + n) == BountyAfter(BountyAfter(value, m), n)
    decreases m
  {
    if m > 0 {
      BountyAfterSplit(NextBounty(value), m - 1, n);
    }
  }

  /** Each ghost eaten from a valid bounty stays on the ladder and is worth at most 1600. */
  lemma {:induction false} BountyTotalBound(value: int, n: nat)
    requires Bounty(value)
    ensures Bounty(BountyAfter(value, n))
    ensures n * value <= BountyTotal(value, n) <= n * MaxGhostValue
    decreases n
  {
    if n > 0 {
      BountyTotalBound(NextBounty(value), n - 1);
    }
  }

  /** `queuePlayerMove`'s delay: 127 ticks, 10 more while the player stands on something to eat. */
  function PlayerDelay(eating: bool): int
  {
    127 + (if eating then 10 else 0)
  }

  /** The remainder of C++ integer division, which truncates toward zero. */
  function TruncRem(a: int, n: int): int
    requires n > 0
  {
    if a >= 0 then a % n else -((-a) % n)
  }

  /** `queueGhostMove`'s delay: slower when frightened, and staggered by ghost number modulo 4. */
  function GhostDelay(fright: bool, ghostNum: int): int
  {
    if fright then 195 + TruncRem(ghostNum, 4) * 3 else 130 + TruncRem(ghostNum, 4) * 2
  }

  /** Every move takes time; frightened ghosts move slower than normal ones, and the player is slower while eating. */
  lemma DelaysPositive(fright: bool, ghostNum: int, eating: bool)
    ensures PlayerDelay(eating) == (if eating then 137 else 127)
    ensures 0 <= ghostNum ==> 130 <= GhostDelay(false, ghostNum) <= 136 && 195 <= GhostDelay(true, ghostNum) <= 204
    ensures GhostDelay(false, ghostNum) < GhostDelay(true, ghostNum)
    ensures 0 < GhostDelay(fright, ghostNum) && 0 < PlayerDelay(eating)
    ensures 0 <= ghostNum ==> GhostDelay(fright, ghostNum) == GhostDelay(fright, ghostNum + 4)
  {
  }

  /** The clock of the END_OF_LIVES event: 16 player moves per cell of the map. */
  function EndClock(width: int, height: int): int
  {
    127 * width * height * 16
  }

  /** The event that ends the game when the time runs out. */
  function EndOfLivesEvent(width: int, height: int): Event
  {
    Event(EndOfLives, Clock(EndClock(width, height)), 0)
  }

  /** The fruit timers queued at start: fruit at ticks 127*200 and 127*400, each gone 80 moves later. */
  function FruitTimers(): seq<Event>
  {
    [ Event(FruitAppears, Clock(127 * 200), 0), Event(FruitAppears, Clock(127 * 400), 0),
      Event(FruitExpires, Clock(127 * 280), 0), Event(FruitExpires, Clock(127 * 480), 0) ]
  }

  // ---------------------------------------------------------------
  // Counting glyphs

  /** How many characters of `s` are `c`. */
  function Occurrences(s: seq<char>, c: char): nat
  {
    if s == [] then 0 else Occurrences(s[..|s| - 1], c) + (if s[|s| - 1] == c then 1 else 0)
  }

  /** The pills (normal and power) among the characters of `s`. */
  function PillCount(s: seq<char>): nat
  {
    if s == [] then 0 else PillCount(s[..|s| - 1]) + (if s[|s| - 1] == '.' || s[|s| - 1] == 'o' then 1 else 0)
  }

  lemma PillCountAppend(s: seq<char>, c: char)
    ensures PillCount(s + [c]) == PillCount(s) + (if c == '.' || c == 'o' then 1 else 0)
  {
    assert (s + [c])[..|s|] == s;
  }

  /** No pills are left exactly when no character is a pill. */
  lemma {:induction false} PillCountZero(s: seq<char>)
    ensures PillCount(s) == 0 <==> forall i :: 0 <= i < |s| ==> s[i] != '.' && s[i] != 'o'
  {
    if s != [] {
      PillCountZero(s[..|s| - 1]);
      assert forall i :: 0 <= i < |s| - 1 ==> s[..|s| - 1][i] == s[i];
    }
  }

  /** The power pills left: the measure that a power pill's fright event is paid for by. */
  function PowerPills(s: seq<char>): nat
  {
    multiset(s)['o']
  }

  /** Overwriting a cell with anything but a power pill never adds one, and removes one exactly when the cell held one. */
  lemma PowerPillsPut(width: int, height: int, data: seq<char>, p: Position, c: char)
    requires |data| == width * height && InBounds(width, height, p) && c != 'o'
    ensures PowerPills(Put(width, height, data, p, c)) ==
      PowerPills(data) - (if At(width, height, data, p) == 'o' then 1 else 0)
  {
    IndexInRange(width, height, p);
    var i := Index(width, p);
    assert data == data[..i] + [data[i]] + data[i + 1..];
    assert Put(width, height, data, p, c) == data[..i] + [c] + data[i + 1..];
  }

  /** Writing inside the wall ring leaves the ring intact. */
  lemma WalledPut(width: int, height: int, data: seq<char>, p: Position, c: char)
    requires |data| == width * height && (width == 0 <==> height == 0)
    requires Walled(width, height, data) && Interior(width, height, p)
    ensures Walled(width, height, Put(width, height, data, p, c))
  {
    var d := Put(width, height, data, p, c);
    forall x | 0 <= x < width ensures WalledColumn(width, height, d, x) {
      assert WalledColumn(width, height, data, x);
      AtUpdate(width, height, data, p, c, Position(x, 0));
      AtUpdate(width, height, data, p, c, Position(x, height - 1));
    }
    forall y | 0 <= y < height ensures WalledRow(width, height, d, y) {
      assert WalledRow(width, height, data, y);
      AtUpdate(width, height, data, p, c, Position(0, y));
      AtUpdate(width, height, data, p, c, Position(width - 1, y));
    }
  }

  // ---------------------------------------------------------------
  // What eating a cell does

  /** The points for eating glyph `c` on level `level`: pill 10, power pill 50, fruit by level, else nothing. */
  function Reward(c: char, level: int): int
  {
    if c == '.' then PillValue
    else if c == 'o' then PowerPillValue
    else if c == '%' then FruitValue(level)
    else 0
  }

  /** What the cell holds once eaten: pills and fruit become floor, anything else stays. */
  function Eaten(c: char): char
  {
    if c == '.' || c == 'o' || c == '%' then ' ' else c
  }

  /** Eating scores only on pills and fruit, always something there, and eating twice scores once. */
  lemma EatenOnce(c: char, level: int)
    ensures Reward(c, level) > 0 <==> Eaten(c) != c
    ensures Eaten(Eaten(c)) == Eaten(c) && Reward(Eaten(c), level) == 0
    ensures Eaten(c) != 'o' && (c != 'o' ==> Eaten(c) == c || Eaten(c) == ' ')
  {
    if c == '%' {
      FruitValueMonotone(level, level);
    }
  }

  // ---------------------------------------------------------------
  // The collision rule, on values

  /** What collisions depend on and change about a ghost. */
  datatype Sprite = Sprite(start: Position, position: Position, invisible: bool)

  /** What collisions depend on and change about the game. */
  datatype Board = Board(sprites: seq<Sprite>, playerStart: Position, player: Position,
                         lives: int, score: int, bounty: int)

  /** Ghost j meets the player: it is visible and on the player's cell. */
  predicate Hit(b: Board, j: int)
    requires 0 <= j < |b.sprites|
  {
    !b.sprites[j].invisible && b.sprites[j].position == b.player
  }

  /** Every ghost back on its spawn and visible. */
  function Respawned(sprites: seq<Sprite>): (r: seq<Sprite>)
    ensures |r| == |sprites|
    ensures forall j :: 0 <= j < |r| ==> r[j] == Sprite(sprites[j].start, sprites[j].start, false)
  {
    if sprites == [] then []
    else
      var last := sprites[|sprites| - 1];
      Respawned(sprites[..|sprites| - 1]) + [Sprite(last.start, last.start, false)]
  }

  /** Every ghost visible again where it stands. */
  function Revealed(sprites: seq<Sprite>): (r: seq<Sprite>)
    ensures |r| == |sprites|
    ensures forall j :: 0 <= j < |r| ==> r[j] == sprites[j].(invisible := false)
  {
    if sprites == [] then []
    else Revealed(sprites[..|sprites| - 1]) + [sprites[|sprites| - 1].(invisible := false)]
  }

  /** Ghost j is eaten: hidden, sent home, its bounty scored and the next one doubled. */
  function Eat(b: Board, j: nat): (r: Board)
    requires j < |b.sprites|
    ensures |r.sprites| == |b.sprites|
  {
    var s := b.sprites[j];
    b.(sprites := b.sprites[j := Sprite(s.start, s.start, true)], score := b.score + b.bounty,
       bounty := NextBounty(b.bounty))
  }

  /** The player is caught: player and ghosts back to their spawns, all ghosts visible, one life less. */
  function Catch(b: Board): (r: Board)
    ensures |r.sprites| == |b.sprites|
  {
    b.(sprites := Respawned(b.sprites), player := b.playerStart, lives := b.lives - 1)
  }

  /** `Game::collide` from ghost i on: each ghost in turn, eaten under fright mode, otherwise catching the player. */
  function CollideFrom(b: Board, fright: bool, i: nat): Board
    requires i <= |b.sprites|
    decreases |b.sprites| - i
  {
    if i == |b.sprites| then b
    else if !Hit(b, i) then CollideFrom(b, fright, i + 1)
    else if fright then CollideFrom(Eat(b, i), fright, i + 1)
    else CollideFrom(Catch(b), fright, i + 1)
  }

  /** One ghost of the collision check: nothing, an eaten ghost, or a caught player. */
  lemma CollideFromStep(b: Board, fright: bool, i: nat)
    requires i < |b.sprites|
    ensures CollideFrom(b, fright, i) ==
      CollideFrom(if !Hit(b, i) then b else if fright then Eat(b, i) else Catch(b), fright, i + 1)
  {
  }

  function Collision(b: Board, fright: bool): Board
  {
    CollideFrom(b, fright, 0)
  }

  /** The board once the player has eaten `cell` on level `level`: its reward scored, and a power pill resets the bounty. */
  function Fed(b: Board, cell: char, level: int): Board
  {
    b.(score := b.score + Reward(cell, level), bounty := if cell == 'o' then FirstGhostValue else b.bounty)
  }

  /** The board once cleared: the score multiplied by the lives left plus one. */
  function Bonus(b: Board): Board
  {
    b.(score := b.score * (b.lives + 1))
  }

  /** How many of the ghosts from i on meet the player. */
  function HitsFrom(b: Board, i: nat): nat
    requires i <= |b.sprites|
    decreases |b.sprites| - i
  {
    if i == |b.sprites| then 0 else (if Hit(b, i) then 1 else 0) + HitsFrom(b, i + 1)
  }

  lemma {:induction false} HitsFromFrame(b: Board, c: Board, i: nat)
    requires i <= |b.sprites| == |c.sprites| && b.player == c.player
    requires forall j :: i <= j < |b.sprites| ==> b.sprites[j] == c.sprites[j]
    ensures HitsFrom(b, i) == HitsFrom(c, i)
    decreases |b.sprites| - i
  {
    if i < |b.sprites| {
      HitsFromFrame(b, c, i + 1);
    }
  }

  lemma {:induction false} HitsFromZero(b: Board, i: nat)
    requires i <= |b.sprites|
    ensures HitsFrom(b, i) == 0 <==> forall j :: i <= j < |b.sprites| ==> !Hit(b, j)
    decreases |b.sprites| - i
  {
    if i < |b.sprites| {
      HitsFromZero(b, i + 1);
    }
  }

  lemma {:induction false} FrightFrom(b: Board, i: nat)
    requires i <= |b.sprites|
    ensures var r := CollideFrom(b, true, i);
      && |r.sprites| == |b.sprites| && r.playerStart == b.playerStart && r.player == b.player && r.lives == b.lives
      && r.score == b.score + BountyTotal(b.bounty, HitsFrom(b, i))
      && r.bounty == BountyAfter(b.bounty, HitsFrom(b, i))
      && forall j :: 0 <= j < |b.sprites| ==>
           r.sprites[j] == if i <= j && Hit(b, j) then Sprite(b.sprites[j].start, b.sprites[j].start, true) else b.sprites[j]
    decreases |b.sprites| - i
  {
    if i < |b.sprites| {
      if !Hit(b, i) {
        FrightFrom(b, i + 1);
      } else {
        var c := Eat(b, i);
        FrightFrom(c, i + 1);
        HitsFromFrame(b, c, i + 1);
        assert forall j :: i < j < |b.sprites| ==> c.sprites[j] == b.sprites[j];
      }
    }
  }

  /**
   * Under fright mode, exactly the visible ghosts on the player's cell are eaten: each is hidden
   * and sent home and scores the current bounty, which doubles up to 1600 after each; the player
   * and the lives are untouched, and every other ghost stays as it is.
   */
  lemma CollisionUnderFright(b: Board)
    ensures var r := Collision(b, true);
      && |r.sprites| == |b.sprites| && r.playerStart == b.playerStart && r.player == b.player && r.lives == b.lives
      && r.score == b.score + BountyTotal(b.bounty, HitsFrom(b, 0))
      && r.bounty == BountyAfter(b.bounty, HitsFrom(b, 0))
      && forall j :: 0 <= j < |b.sprites| ==>
           r.sprites[j] == if Hit(b, j) then Sprite(b.sprites[j].start, b.sprites[j].start, true) else b.sprites[j]
    ensures HitsFrom(b, 0) == 0 <==> forall j :: 0 <= j < |b.sprites| ==> !Hit(b, j)
  {
    FrightFrom(b, 0);
    HitsFromZero(b, 0);
  }

  lemma {:induction false} NoHitsFrom(b: Board, fright: bool, i: nat)
    requires i <= |b.sprites|
    requires forall j :: i <= j < |b.sprites| ==> !Hit(b, j)
    ensures CollideFrom(b, fright, i) == b
    decreases |b.sprites| - i
  {
    if i < |b.sprites| {
      NoHitsFrom(b, fright, i + 1);
    }
  }

  lemma {:induction false} CaughtFrom(b: Board, i: nat)
    requires i <= |b.sprites|
    requires forall j :: 0 <= j < |b.sprites| ==> b.sprites[j].start != b.playerStart
    requires exists j :: i <= j < |b.sprites| && Hit(b, j)
    ensures CollideFrom(b, false, i) == Catch(b)
    decreases |b.sprites| - i
  {
    if Hit(b, i) {
      var c := Catch(b);
      assert forall j :: 0 <= j < |c.sprites| ==> !Hit(c, j);
      NoHitsFrom(c, false, i + 1);
    } else {
      CaughtFrom(b, i + 1);
    }
  }

  /**
   * Outside fright mode, a visible ghost on the player's cell catches the player: one life is
   * lost and everyone goes home, after which no ghost can be on the player's cell (no spawn is the
   * player's), so it happens at most once per collision check. With no such ghost nothing changes.
   */
  lemma CollisionWithoutFright(b: Board)
    requires forall j :: 0 <= j < |b.sprites| ==> b.sprites[j].start != b.playerStart
    ensures (exists j :: 0 <= j < |b.sprites| && Hit(b, j)) ==> Collision(b, false) == Catch(b)
    ensures (forall j :: 0 <= j < |b.sprites| ==> !Hit(b, j)) ==> Collision(b, false) == b
    ensures Collision(b, false).lives == b.lives || Collision(b, false).lives == b.lives - 1
  {
    if exists j :: 0 <= j < |b.sprites| && Hit(b, j) {
      CaughtFrom(b, 0);
    } else {
      NoHitsFrom(b, false, 0);
    }
  }
}
