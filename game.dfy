/** The game object: its maps, player, ghosts and event queue, and the main loop (game.cpp). */
module Games {
  import opened Wrappers
  import opened Basic
  import opened Grid
  import opened Players
  import opened GhostProgram
  import opened GhostCpu
  import opened Ghosts
  import opened Events
  import opened GameRules

  /** Why `Game::init` gives up: the map or a ghost program does not load. */
  datatype GameError = MapFailed(mapError: MapError) | ProgramFailed(loadError: LoadError)

  /** How `Game::run` ends: no lives (or no time) left, every pill eaten, or a ghost program faulting. */
  datatype Ending = OutOfLives | Cleared | Faulted(fault: VmError)

  /** The collision-relevant view of each ghost. */
  ghost function SpritesOf(gs: seq<Ghost>): (r: seq<Sprite>)
    reads gs
    ensures |r| == |gs|
    ensures forall j {:trigger r[j]} :: 0 <= j < |gs| ==> r[j] == Sprite(gs[j].startPosition, gs[j].position, gs[j].invisible)
  {
    if gs == [] then []
    else
      var g := gs[|gs| - 1];
      SpritesOf(gs[..|gs| - 1]) + [Sprite(g.startPosition, g.position, g.invisible)]
  }

  /** What the game's own code never changes about a ghost: its number, spawn, liveness, program and machine. */
  ghost function Kept(g: Ghost): (int, Position, bool, seq<Instruction>, Machine)
    reads g
  {
    (g.index, g.startPosition, g.dead, g.code, g.State())
  }

  /**
   * Ghost number i as the game needs it: numbered i, with a well-formed machine and program,
   * standing and spawning inside the wall ring, and never spawning on the player's spawn.
   */
  ghost predicate GhostOk(g: Ghost, i: int, width: int, height: int, playerStart: Position)
    reads g
  {
    && g.index == i && g.Valid()
    && Interior(width, height, g.position) && Interior(width, height, g.startPosition)
    && g.startPosition != playerStart
  }

  /**
   * The tick boundary of `Game::run` on map `data` and board `b`, with fright mode `fright`
   * before it: the player eats the cell it stands on, which the map then holds eaten; collisions
   * are resolved, in fright mode if it was on or the cell was a power pill; then the game stops
   * when no lives are left, stops with the clearing bonus when no pills are left, or goes on.
   * `data'` and `b'` are the map and board it leaves, `stop` how it ends.
   */
  ghost predicate Ticked(width: int, height: int, data: seq<char>, b: GameRules.Board, fright: bool,
                         data': seq<char>, b': GameRules.Board, stop: Option<Ending>)
    requires |data| == width * height && Interior(width, height, b.player)
  {
    var cell := At(width, height, data, b.player);
    var after := Collision(Fed(b, cell, GameRules.Level(width, height)), fright || cell == 'o');
    && data' == Put(width, height, data, b.player, Eaten(cell))
    && (stop == Some(OutOfLives) <==> after.lives == 0)
    && (stop == Some(Cleared) <==> after.lives != 0 && PillCount(data') == 0)
    && (stop == None <==> after.lives != 0 && PillCount(data') != 0)
    && b' == if stop == Some(Cleared) then Bonus(after) else after
  }

  /**
   * What firing `e` queues: a player move queues the player's next move after its delay, a
   * ghost move its ghost's next move after the delay in fright mode `fright`, and no other event
   * queues anything. `eating` is whether the player stands on something once it has stepped.
   */
  function FollowUp(e: Event, fright: bool, eating: bool): (r: seq<Event>)
    ensures r != [] <==> e.kind == PlayerMoves || e.kind == GhostMoves
    ensures |r| <= 1 && (r != [] ==> r[0].kind == e.kind && r[0].clock.value > e.clock.value)
  {
    DelaysPositive(fright, e.arg, eating);
    match e.kind
    case PlayerMoves => [Event(PlayerMoves, Clock(e.clock.value + PlayerDelay(eating)), 0)]
    case GhostMoves => [Event(GhostMoves, Clock(e.clock.value + GhostDelay(fright, e.arg)), e.arg)]
    case _ => []
  }

  /** The events in `after` are those of `before`, plus at most one event later than `e`. */
  predicate Rescheduled(before: seq<Event>, after: seq<Event>, e: Event)
  {
    after == before ||
    (|after| == |before| + 1 && after[..|before|] == before && after[|before|].clock.value > e.clock.value)
  }

  /**
   * Rescheduling after popping an event within the horizon keeps every pending event pending and
   * adds less urgency than the popped event took away.
   */
  lemma RescheduledWeight(before: seq<Event>, after: seq<Event>, e: Event, horizon: int, x: Event)
    requires Rescheduled(before, after, e) && e.clock.value <= horizon
    ensures Weight(after, horizon) < Weight(before, horizon) + Urgency(e.clock, horizon)
    ensures x in before ==> x in after
  {
    if after != before {
      var next := after[|before|];
      assert after == before + [next];
      WeightAppend(before, next, horizon);
      UrgencyDecreases(e.clock, next.clock, horizon);
      if x in before {
        var i :| 0 <= i < |before| && before[i] == x;
        assert after[i] == x;
      }
    }
  }

  /** Row y of a width-w grid ends at (y+1)*w, within the grid. */
  lemma RowEnd(y: int, w: int, h: int)
    requires 0 <= y < h && 0 <= w
    ensures (y + 1) * w == y * w + w && (y + 1) * w <= h * w
  {
    assert (y + 1) * w <= h * w by {
      if y + 1 < h {
        RowGap(y + 1, h, w);
      }
    }
  }

  /** The position of an event of `queue` that no other fires before: what the heap's front holds. */
  method EarliestIndex(queue: seq<Event>) returns (k: nat)
    requires |queue| > 0
    ensures k < |queue| && Earliest(queue[k], queue)
  {
    k := 0;
    var i := 1;
    while i < |queue|
      invariant 1 <= i <= |queue| && 0 <= k < i
      invariant forall j :: 0 <= j < i ==> !Later(queue[k], queue[j])
    {
      if Later(queue[k], queue[i]) {
        forall j | 0 <= j < i ensures !Later(queue[i], queue[j]) {
          LaterStrictTotal(queue[k], queue[i], queue[j]);
        }
        LaterStrictTotal(queue[i], queue[i], queue[i]);
        k := i;
      }
      i := i + 1;
    }
  }


  // ---------------------------------------------------------------
  // What the scan of `Game::init` produces

  /** The glyphs the scan of `Game::init` consumes: player, ghost and fruit spawns become floor. */
  function Blanked(c: char): char
  {
    if c == '\\' || c == '=' || c == '%' then ' ' else c
  }

  /** The cells with every spawn glyph turned to floor. */
  function Blank(cells: seq<char>): (r: seq<char>)
    ensures |r| == |cells|
    ensures forall i :: 0 <= i < |cells| ==> r[i] == Blanked(cells[i])
  {
    if cells == [] then [] else Blank(cells[..|cells| - 1]) + [Blanked(cells[|cells| - 1])]
  }

  lemma AtBlank(width: int, height: int, cells: seq<char>, p: Position)
    requires |cells| == width * height && InBounds(width, height, p)
    ensures At(width, height, Blank(cells), p) == Blanked(At(width, height, cells, p))
  {
    IndexInRange(width, height, p);
  }

  lemma BlankColumn(width: int, height: int, cells: seq<char>, x: int)
    requires |cells| == width * height && 0 <= x < width && 0 < height
    requires WalledColumn(width, height, cells, x)
    ensures WalledColumn(width, height, Blank(cells), x)
  {
    AtBlank(width, height, cells, Position(x, 0));
    AtBlank(width, height, cells, Position(x, height - 1));
  }

  lemma BlankRow(width: int, height: int, cells: seq<char>, y: int)
    requires |cells| == width * height && 0 < width && 0 <= y < height
    requires WalledRow(width, height, cells, y)
    ensures WalledRow(width, height, Blank(cells), y)
  {
    AtBlank(width, height, cells, Position(0, y));
    AtBlank(width, height, cells, Position(width - 1, y));
  }

  /** Blanking the spawns keeps the wall ring, since a wall is not a spawn. */
  lemma WalledBlank(width: int, height: int, cells: seq<char>)
    requires |cells| == width * height && (width == 0 <==> height == 0)
    requires Walled(width, height, cells)
    ensures Walled(width, height, Blank(cells))
  {
    var blank := Blank(cells);
    assert |blank| == width * height;
    forall x | 0 <= x < width ensures WalledColumn(width, height, blank, x) {
      BlankColumn(width, height, cells, x);
    }
    forall y | 0 <= y < height ensures WalledRow(width, height, blank, y) {
      BlankRow(width, height, cells, y);
    }
  }

  /**
   * The move the scan of `Game::init` queues for glyph c when n ghosts exist: the player's after
   * 137 ticks (it stands on its spawn glyph, not on floor, when the delay is taken), a new ghost's
   * after its delay outside fright mode; nothing for other glyphs.
   */
  function Queued(c: char, n: int): seq<Event>
  {
    if c == '\\' then [Event(PlayerMoves, Clock(PlayerDelay(true)), 0)]
    else if c == '=' then [Event(GhostMoves, Clock(GhostDelay(false, n)), n)]
    else []
  }

  /** The moves `Game::init` queues while scanning `cells` in row-major order, ghosts numbered in scan order. */
  function SpawnEvents(cells: seq<char>): seq<Event>
  {
    if cells == [] then []
    else
      var prefix := cells[..|cells| - 1];
      SpawnEvents(prefix) + Queued(cells[|cells| - 1], Occurrences(prefix, '='))
  }

  /** The scan queues only moves, each ghost move naming a ghost the scan has created, and no fright expiry. */
  lemma {:induction false} SpawnEventsShape(cells: seq<char>)
    ensures forall i :: 0 <= i < |SpawnEvents(cells)| ==>
      || SpawnEvents(cells)[i] == Event(PlayerMoves, Clock(137), 0)
      || (var n := SpawnEvents(cells)[i].arg;
          SpawnEvents(cells)[i] == Event(GhostMoves, Clock(GhostDelay(false, n)), n) && 0 <= n < Occurrences(cells, '='))
    ensures !FrightPending(SpawnEvents(cells))
  {
    if cells != [] {
      SpawnEventsShape(cells[..|cells| - 1]);
    }
  }

  /** The spawn glyphs of a well-formed map: unique player and fruit cells, and walls all round. */
  ghost predicate Spawns(width: int, height: int, cells: seq<char>, lambda: Position, fruit: Position)
  {
    && |cells| == width * height && (width == 0 <==> height == 0) && Walled(width, height, cells)
    && InBounds(width, height, lambda) && At(width, height, cells, lambda) == '\\'
    && (forall q :: InBounds(width, height, q) && At(width, height, cells, q) == '\\' ==> q == lambda)
    && InBounds(width, height, fruit) && At(width, height, cells, fruit) == '%'
    && (forall q :: InBounds(width, height, q) && At(width, height, cells, q) == '%' ==> q == fruit)
  }

  /**
   * What the scan of `Game::init` has done before the cell with address `cursor`, as values: the
   * live map is the original with the cells before it blanked, the moves of the spawns before it
   * are queued, one ghost exists per ghost glyph before it, and the player and the fruit are
   * placed once their cells are passed.
   */
  ghost predicate Passed(cells: seq<char>, lambda: Position, fruit: Position, cursor: int, width: int, height: int,
                         data: seq<char>, events: seq<Event>, count: int, playerAt: Position, playerStart: Position,
                         fruitPos: Position)
  {
    && Spawns(width, height, cells, lambda, fruit) && 0 <= cursor <= |cells|
    && data == Blank(cells[..cursor]) + cells[cursor..]
    && events == SpawnEvents(cells[..cursor])
    && count == Occurrences(cells[..cursor], '=')
    && (Index(width, lambda) < cursor ==> playerAt == lambda && playerStart == lambda)
    && (Index(width, fruit) < cursor ==> fruitPos == fruit)
  }

  /** The cell at the scan's cursor still holds its original glyph. */
  lemma PassedAt(cells: seq<char>, lambda: Position, fruit: Position, width: int, height: int, pos: Position,
                 data: seq<char>, events: seq<Event>, count: int, playerAt: Position, playerStart: Position,
                 fruitPos: Position)
    requires InBounds(width, height, pos)
    requires Passed(cells, lambda, fruit, Index(width, pos), width, height, data, events, count, playerAt, playerStart, fruitPos)
    ensures |data| == width * height && At(width, height, data, pos) == At(width, height, cells, pos)
  {
    IndexInRange(width, height, pos);
  }

  /** One more cell of the scan: its glyph is blanked, its moves are queued and its ghost glyph counted. */
  lemma PrefixStep(cells: seq<char>, cursor: int)
    requires 0 <= cursor < |cells|
    ensures Blank(cells[..cursor + 1]) + cells[cursor + 1..] ==
      (Blank(cells[..cursor]) + cells[cursor..])[cursor := Blanked(cells[cursor])]
    ensures SpawnEvents(cells[..cursor + 1]) ==
      SpawnEvents(cells[..cursor]) + Queued(cells[cursor], Occurrences(cells[..cursor], '='))
    ensures Occurrences(cells[..cursor + 1], '=') == Occurrences(cells[..cursor], '=') + (if cells[cursor] == '=' then 1 else 0)
  {
    var prefix := cells[..cursor + 1];
    assert prefix[..cursor] == cells[..cursor] && prefix[cursor] == cells[cursor];
  }

  /** Scanning one more cell: what its glyph adds to the values the scan has produced. */
  lemma PassedStep(cells: seq<char>, lambda: Position, fruit: Position, width: int, height: int, pos: Position,
                   data: seq<char>, events: seq<Event>, count: int, playerAt: Position, playerStart: Position,
                   fruitPos: Position, data': seq<char>, events': seq<Event>, count': int, playerAt': Position,
                   playerStart': Position, fruitPos': Position)
    requires InBounds(width, height, pos)
    requires Passed(cells, lambda, fruit, Index(width, pos), width, height, data, events, count, playerAt, playerStart, fruitPos)
    requires var c := At(width, height, cells, pos);
      && data' == (if Blanked(c) == c then data else Put(width, height, data, pos, Blanked(c)))
      && events' == events + Queued(c, count)
      && count' == count + (if c == '=' then 1 else 0)
      && playerAt' == (if c == '\\' then pos else playerAt) && playerStart' == (if c == '\\' then pos else playerStart)
      && fruitPos' == if c == '%' then pos else fruitPos
    ensures Passed(cells, lambda, fruit, Index(width, pos) + 1, width, height, data', events', count', playerAt',
                   playerStart', fruitPos')
  {
    var cursor := Index(width, pos);
    IndexInRange(width, height, pos);
    var c := cells[cursor];
    PrefixStep(cells, cursor);
    assert data' == Blank(cells[..cursor + 1]) + cells[cursor + 1..] by {
      if Blanked(c) == c {
        assert data == data[cursor := c];
      }
    }
    assert c == '\\' ==> pos == lambda;
    assert c == '%' ==> pos == fruit;
    assert Index(width, lambda) == cursor ==> lambda == pos by {
      if Index(width, lambda) == cursor {
        IndexInjective(width, lambda, pos);
      }
    }
    assert Index(width, fruit) == cursor ==> fruit == pos by {
      if Index(width, fruit) == cursor {
        IndexInjective(width, fruit, pos);
      }
    }
  }

  /**
   * Ghost number i as the scan of `Game::init` leaves it: usable by the game, alive, visible and
   * on its spawn, which is the i-th ghost glyph in scan order (from 0); its program is the i-th
   * in turn, assembled.
   */
  ghost predicate Spawned(g: Ghost, i: int, width: int, height: int, cells: seq<char>, lambda: Position,
                          ghostPrograms: seq<seq<string>>)
    reads g
    requires |cells| == width * height
  {
    && GhostOk(g, i, width, height, lambda) && !g.dead && !g.invisible && g.position == g.startPosition
    && InBounds(width, height, g.startPosition) && 0 <= Index(width, g.startPosition) < |cells|
    && cells[Index(width, g.startPosition)] == '=' && Occurrences(cells[..Index(width, g.startPosition)], '=') == i
    && 0 <= i && (|ghostPrograms| > 0 ==>
         Assemble(ghostPrograms[i % |ghostPrograms|]).Ok? && g.code == Assemble(ghostPrograms[i % |ghostPrograms|]).value)
  }

  /** The ghosts the scan has created, numbered in scan order. */
  ghost predicate Cast(width: int, height: int, cells: seq<char>, lambda: Position, ghosts: seq<Ghost>,
                       ghostPrograms: seq<seq<string>>)
    reads ghosts
    requires |cells| == width * height
  {
    forall i :: 0 <= i < |ghosts| ==> Spawned(ghosts[i], i, width, height, cells, lambda, ghostPrograms)
  }

  /** A new ghost spawned after the last one extends the cast. */
  lemma CastAppend(width: int, height: int, cells: seq<char>, lambda: Position, ghosts: seq<Ghost>,
                   ghostPrograms: seq<seq<string>>, g: Ghost)
    requires |cells| == width * height
    requires Cast(width, height, cells, lambda, ghosts, ghostPrograms)
    requires Spawned(g, |ghosts|, width, height, cells, lambda, ghostPrograms)
    ensures Cast(width, height, cells, lambda, ghosts + [g], ghostPrograms)
  {
    var gs := ghosts + [g];
    assert forall i :: 0 <= i < |ghosts| ==> gs[i] == ghosts[i];
  }

  /** The state of the scan of `Game::init` before the cell with address `cursor`. */
  ghost predicate Scanning(cells: seq<char>, lambda: Position, fruit: Position, cursor: int, live: Map, player: Player,
                           ghosts: seq<Ghost>, events: seq<Event>, fruitPos: Position, ghostPrograms: seq<seq<string>>)
    reads live, player, ghosts
  {
    && live.Valid()
    && Passed(cells, lambda, fruit, cursor, live.width, live.height, live.data, events, |ghosts|,
              player.position, player.startPosition, fruitPos)
    && Cast(live.width, live.height, cells, lambda, ghosts, ghostPrograms)
  }

  /**
   * The player-spawn branch of the scan of `Game::init`: the player starts here facing down, its
   * first move is queued while it still stands on its glyph, and the cell becomes floor.
   */
  method SpawnPlayer(pos: Position, live: Map, player: Player, playerProgram: seq<string>) returns (e: Event)
    requires live.Valid() && InBounds(live.width, live.height, pos) && live.Get(pos) != ' '
    modifies live, player
    ensures live.Valid() && live.width == old(live.width) && live.height == old(live.height)
    ensures live.data == Put(live.width, live.height, old(live.data), pos, ' ')
    ensures player.position == pos && player.startPosition == pos && player.direction == Down
    ensures e == Event(PlayerMoves, Clock(PlayerDelay(true)), 0)
  {
    player.Init(pos, playerProgram);
    var moveTicks := 127 + (if live.Get(player.position) != ' ' then 10 else 0);
    e := Event(PlayerMoves, Clock(0 + moveTicks), 0);
    live.Set(pos, ' ');
  }

  /**
   * The ghost-spawn branch of the scan of `Game::init`: a new ghost numbered `ghostNum` starts
   * here with its program; if the program assembles, its first move is queued and the cell
   * becomes floor.
   */
  method SpawnGhost(ghostNum: int, pos: Position, live: Map, program: seq<string>, fright: bool)
    returns (g: Ghost, e: Event, err: Option<LoadError>)
    requires live.Valid() && InBounds(live.width, live.height, pos)
    modifies live
    ensures fresh(g) && live.Valid() && live.width == old(live.width) && live.height == old(live.height)
    ensures g.index == ghostNum && g.startPosition == pos && g.position == pos && !g.dead && !g.invisible
    ensures err == (if Assemble(program).Ok? then None else Some(Assemble(program).error))
    ensures err.None? ==> g.Valid() && g.code == Assemble(program).value
    ensures err.None? ==> live.data == Put(live.width, live.height, old(live.data), pos, ' ')
    ensures err.None? ==> e == Event(GhostMoves, Clock(GhostDelay(fright, ghostNum)), ghostNum)
  {
    g := new Ghost();
    var r := g.Init(ghostNum, pos, program);
    e := Event(GhostMoves, Clock(0), ghostNum);
    if r.Fail? {
      return g, e, Some(r.error);
    }
    err := None;
    var moveTicks := if fright then 195 + TruncRem(ghostNum, 4) * 3 else 130 + TruncRem(ghostNum, 4) * 2;
    e := Event(GhostMoves, Clock(0 + moveTicks), ghostNum);
    live.Set(pos, ' ');
  }

  /** The scan's state depends on the cursor's value only. */
  lemma ScanningAt(cells: seq<char>, lambda: Position, fruit: Position, cursor: int, cursor': int, live: Map,
                   player: Player, ghosts: seq<Ghost>, events: seq<Event>, fruitPos: Position,
                   ghostPrograms: seq<seq<string>>)
    requires Scanning(cells, lambda, fruit, cursor, live, player, ghosts, events, fruitPos, ghostPrograms)
    requires cursor == cursor'
    ensures Scanning(cells, lambda, fruit, cursor', live, player, ghosts, events, fruitPos, ghostPrograms)
  {
  }

  /** The player-spawn cell of the scan of `Game::init`. */
  method ScanPlayerCell(pos: Position, live: Map, player: Player, ghosts: seq<Ghost>, events: seq<Event>,
                        fruitPos: Position, playerProgram: seq<string>, ghostPrograms: seq<seq<string>>,
                        ghost cells: seq<char>, ghost lambda: Position, ghost fruit: Position)
    returns (events': seq<Event>)
    requires InBounds(live.width, live.height, pos)
    requires Scanning(cells, lambda, fruit, Index(live.width, pos), live, player, ghosts, events, fruitPos, ghostPrograms)
    requires At(live.width, live.height, cells, pos) == '\\'
    modifies live, player
    ensures live.width == old(live.width) && live.height == old(live.height)
    ensures Scanning(cells, lambda, fruit, Index(live.width, pos) + 1, live, player, ghosts, events', fruitPos, ghostPrograms)
  {
    var w, h := live.width, live.height;
    ghost var data, at, start := live.data, player.position, player.startPosition;
    PassedAt(cells, lambda, fruit, w, h, pos, data, events, |ghosts|, at, start, fruitPos);
    var e := SpawnPlayer(pos, live, player, playerProgram);
    events' := events + [e];
    PassedStep(cells, lambda, fruit, w, h, pos, data, events, |ghosts|, at, start, fruitPos,
               live.data, events', |ghosts|, player.position, player.startPosition, fruitPos);
  }

  /** A ghost-spawn cell of the scan of `Game::init`; a ghost program that does not assemble stops the scan. */
  method ScanGhostCell(pos: Position, live: Map, player: Player, ghosts: seq<Ghost>, events: seq<Event>,
                       fruitPos: Position, ghostPrograms: seq<seq<string>>, ghost cells: seq<char>,
                       ghost lambda: Position, ghost fruit: Position)
    returns (ghosts': seq<Ghost>, events': seq<Event>, err: Option<LoadError>)
    requires |ghostPrograms| > 0 && InBounds(live.width, live.height, pos)
    requires Scanning(cells, lambda, fruit, Index(live.width, pos), live, player, ghosts, events, fruitPos, ghostPrograms)
    requires At(live.width, live.height, cells, pos) == '='
    modifies live
    ensures live.width == old(live.width) && live.height == old(live.height)
    ensures err == (var a := Assemble(ghostPrograms[|ghosts| % |ghostPrograms|]); if a.Ok? then None else Some(a.error))
    ensures err.Some? ==>
      FirstFailure(ghostPrograms, Occurrences(cells, '='), err.value)
    ensures err.None? ==>
      Scanning(cells, lambda, fruit, Index(live.width, pos) + 1, live, player, ghosts', events', fruitPos, ghostPrograms)
  {
    ghosts', events' := ghosts, events;
    var w, h := live.width, live.height;
    ghost var data := live.data;
    PassedAt(cells, lambda, fruit, w, h, pos, data, events, |ghosts|, player.position, player.startPosition, fruitPos);
    IndexInRange(w, h, pos);
    var ghostNum := |ghosts|;
    ghost var assembled := Assemble(ghostPrograms[ghostNum % |ghostPrograms|]);
    if assembled.Err? {
      ScanFailure(w, h, cells, lambda, ghosts, ghostPrograms, Index(w, pos), assembled.error);
    }
    var fright := FrightPending(events);
    SpawnEventsShape(cells[..Index(w, pos)]);
    var g, e;
    g, e, err := SpawnGhost(ghostNum, pos, live, ghostPrograms[ghostNum % |ghostPrograms|], fright);
    if err.Some? {
      return;
    }
    WalledInterior(w, h, cells, pos);
    assert GhostOk(g, |ghosts|, w, h, lambda);
    assert Spawned(g, |ghosts|, w, h, cells, lambda, ghostPrograms);
    CastAppend(w, h, cells, lambda, ghosts, ghostPrograms, g);
    ghosts' := ghosts + [g];
    events' := events + [e];
    PassedStep(cells, lambda, fruit, w, h, pos, data, events, |ghosts|, player.position, player.startPosition,
               fruitPos, live.data, events', |ghosts'|, player.position, player.startPosition, fruitPos);
  }

  /** The fruit cell, or any other cell, of the scan of `Game::init`. */
  method ScanOtherCell(pos: Position, live: Map, player: Player, ghosts: seq<Ghost>, events: seq<Event>,
                       fruitPos: Position, ghostPrograms: seq<seq<string>>, ghost cells: seq<char>,
                       ghost lambda: Position, ghost fruit: Position)
    returns (fruitPos': Position)
    requires InBounds(live.width, live.height, pos)
    requires Scanning(cells, lambda, fruit, Index(live.width, pos), live, player, ghosts, events, fruitPos, ghostPrograms)
    requires At(live.width, live.height, cells, pos) != '\\' && At(live.width, live.height, cells, pos) != '='
    modifies live
    ensures live.width == old(live.width) && live.height == old(live.height)
    ensures Scanning(cells, lambda, fruit, Index(live.width, pos) + 1, live, player, ghosts, events, fruitPos', ghostPrograms)
  {
    fruitPos' := fruitPos;
    var w, h := live.width, live.height;
    ghost var data := live.data;
    PassedAt(cells, lambda, fruit, w, h, pos, data, events, |ghosts|, player.position, player.startPosition, fruitPos);
    if live.Get(pos) == '%' {
      fruitPos' := pos;
      live.Set(pos, ' ');
    }
    PassedStep(cells, lambda, fruit, w, h, pos, data, events, |ghosts|, player.position, player.startPosition,
               fruitPos, live.data, events, |ghosts|, player.position, player.startPosition, fruitPos');
  }

  /** One cell of the scan of `Game::init`; a ghost program that does not assemble stops it. */
  method SpawnCell(pos: Position, live: Map, player: Player, ghosts: seq<Ghost>, events: seq<Event>, fruitPos: Position,
                   playerProgram: seq<string>, ghostPrograms: seq<seq<string>>, ghost cells: seq<char>,
                   ghost lambda: Position, ghost fruit: Position, ghost cursor: int)
    returns (ghosts': seq<Ghost>, events': seq<Event>, fruitPos': Position, err: Option<LoadError>)
    requires |ghostPrograms| > 0 && InBounds(live.width, live.height, pos) && cursor == Index(live.width, pos)
    requires Scanning(cells, lambda, fruit, cursor, live, player, ghosts, events, fruitPos, ghostPrograms)
    modifies live, player
    ensures live.width == old(live.width) && live.height == old(live.height)
    ensures err.None? ==>
      Scanning(cells, lambda, fruit, cursor + 1, live, player, ghosts', events', fruitPos', ghostPrograms)
    ensures err.Some? ==>
      FirstFailure(ghostPrograms, Occurrences(cells, '='), err.value)
  {
    ghosts', events', fruitPos', err := ghosts, events, fruitPos, None;
    ScanningAt(cells, lambda, fruit, cursor, Index(live.width, pos), live, player, ghosts, events, fruitPos, ghostPrograms);
    PassedAt(cells, lambda, fruit, live.width, live.height, pos, live.data, events, |ghosts|, player.position,
             player.startPosition, fruitPos);
    var ch := live.Get(pos);
    if ch == '\\' {
      events' := ScanPlayerCell(pos, live, player, ghosts, events, fruitPos, playerProgram, ghostPrograms, cells, lambda, fruit);
    } else if ch == '=' {
      ghosts', events', err := ScanGhostCell(pos, live, player, ghosts, events, fruitPos, ghostPrograms, cells, lambda, fruit);
    } else {
      fruitPos' := ScanOtherCell(pos, live, player, ghosts, events, fruitPos, ghostPrograms, cells, lambda, fruit);
    }
    if err.None? {
      ScanningAt(cells, lambda, fruit, Index(live.width, pos) + 1, cursor + 1, live, player, ghosts', events', fruitPos',
                 ghostPrograms);
    }
  }

  class Game {
    const originalMap: Map
    /** The live map (`_map`): pills and fruit disappear from it as they are eaten. */
    const currentMap: Map
    const player: Player
    const ghosts: seq<Ghost>
    const fruitPos: Position
    /** The map's shape, fixed once it is loaded. */
    const width: int
    const height: int
    /** The pending events, as a bag: the heap's order is modelled by taking the earliest on each pop. */
    var events: seq<Event>
    var lives: int
    var score: int
    /** The bounty for the next ghost eaten in fright mode. */
    var ghostValue: int

    /** Two distinct maps of the game's shape; the live one keeps its wall ring and the fruit spawn inside it. */
    ghost predicate MapsValid()
      reads originalMap, currentMap
    {
      && originalMap != currentMap
      && originalMap.Valid() && currentMap.Valid()
      && originalMap.width == width && originalMap.height == height
      && currentMap.width == width && currentMap.height == height
      && Walled(width, height, currentMap.data)
      && Interior(width, height, fruitPos)
    }

    /** Player and ghosts stand and spawn inside the wall ring, and ghost i is ghost number i. */
    ghost predicate SpritesValid()
      reads player, ghosts
    {
      && Interior(width, height, player.position) && Interior(width, height, player.startPosition)
      && forall i :: 0 <= i < |ghosts| ==> GhostOk(ghosts[i], i, width, height, player.startPosition)
    }

    /** Ghost moves name existing ghosts, lives are not negative, and fright mode has a bounty on the ladder. */
    ghost predicate EventsValid()
      reads this
    {
      && (forall i :: 0 <= i < |events| && events[i].kind == GhostMoves ==> 0 <= events[i].arg < |ghosts|)
      && 0 <= lives
      && (FrightPending(events) ==> Bounty(ghostValue))
    }

    ghost predicate Valid()
      reads this, originalMap, currentMap, player, ghosts
    {
      MapsValid() && SpritesValid() && EventsValid()
    }

    /**
     * What a move of ghost `i` did: its program ran from `m` seeing `view` and either failed with
     * `r`'s error or finished, after which the ghost moved from `p` on the live map.
     */
    ghost predicate GhostStepped(i: nat, m: Machine, view: Env, p: Position, r: Outcome<VmError>)
      requires i < |ghosts| && |currentMap.data| == width * height && Interior(width, height, p)
      requires Shaped(m) && WellFormedCode(ghosts[i].code) && EnvValid(view)
      reads ghosts[i], currentMap
    {
      var s := GhostCpu.Run(m, ghosts[i].code, view, MaxInstrCount);
      if s.Err? then r == Fail(s.error) else r == Pass && ghosts[i].Moved(p, s.value, width, height, currentMap.data)
    }

    /**
     * The game as firing `e`, with outcome `r`, leaves one whose map was `data`, whose board was
     * `b` and whose queue was `queue`: END_OF_LIVES takes every life; the fruit timers put the
     * fruit or floor on the fruit's cell, and no other event touches the map; only a player move
     * moves the player, one `step` on the live map; FRIGHT_MODE_EXPIRES makes every ghost visible
     * where it stands, a ghost move changes only its own ghost's cell, and no other event
     * touches the ghosts; only a ghost move can fault; a successful event queues its `FollowUp`
     * and a fault nothing; score and bounty stay.
     */
    ghost predicate Fired(e: Event, r: Outcome<VmError>, data: seq<char>, b: GameRules.Board, queue: seq<Event>)
      reads this, currentMap, player, ghosts
    {
      && currentMap.Valid() && currentMap.width == width && currentMap.height == height
      && |data| == width * height && InBounds(width, height, fruitPos)
      && Interior(width, height, b.player) && InBounds(width, height, player.position)
      && lives == (if e.kind == EndOfLives then 0 else b.lives) && score == b.score && ghostValue == b.bounty
      && currentMap.data == (
           if e.kind == FruitAppears then Put(width, height, data, fruitPos, '%')
           else if e.kind == FruitExpires then Put(width, height, data, fruitPos, ' ')
           else data)
      && player.position ==
           (if e.kind == PlayerMoves then Stepped(width, height, currentMap.data, b.player, player.direction) else b.player)
      && (r.Fail? ==> e.kind == GhostMoves)
      && events == queue + (if r.Pass? then FollowUp(e, FrightPending(queue), Eating()) else [])
      && |b.sprites| == |ghosts|
      && (e.kind == FrightModeExpires ==> SpritesOf(ghosts) == Revealed(b.sprites))
      && (e.kind == GhostMoves ==>
            0 <= e.arg < |ghosts| &&
            SpritesOf(ghosts) == b.sprites[e.arg := b.sprites[e.arg].(position := ghosts[e.arg].position)])
      && (e.kind != FrightModeExpires && e.kind != GhostMoves ==> SpritesOf(ghosts) == b.sprites)
    }

    /** While lives remain, the end-of-lives timer is pending. */
    ghost predicate Clocked()
      reads this
    {
      lives > 0 ==> EndOfLivesEvent(width, height) in events
    }

    /** What the collision rule sees of the game. */
    ghost function Board(): GameRules.Board
      reads this, player, ghosts
    {
      GameRules.Board(SpritesOf(ghosts), player.startPosition, player.position, lives, score, ghostValue)
    }

    /**
     * The game as `Game::init` leaves it for the grid `cells`: consistent and timed, the pristine
     * map kept, every spawn on the live map turned to floor, the player on the player spawn, the
     * fruit's place on the fruit spawn, one ghost per ghost spawn, three lives, no score, and the
     * opening queue.
     */
    ghost predicate Opening(cells: seq<char>, ghostPrograms: seq<seq<string>>)
      reads this, originalMap, currentMap, player, ghosts
    {
      && Valid() && Clocked() && |cells| == width * height
      && originalMap.data == cells && currentMap.data == Blank(cells)
      && events == OpeningEvents(cells, width, height)
      && lives == 3 && score == 0 && ghostValue == 0
      && player.position == player.startPosition
      && At(width, height, cells, player.startPosition) == '\\'
      && At(width, height, cells, fruitPos) == '%'
      && |ghosts| == Occurrences(cells, '=')
      && Cast(width, height, cells, player.startPosition, ghosts, ghostPrograms)
    }

    /** A game over maps, player and ghosts already set up, with its opening events; `Setup` builds one. */
    constructor (originalMap: Map, currentMap: Map, player: Player, ghosts: seq<Ghost>, fruitPos: Position,
                 events: seq<Event>)
      ensures this.originalMap == originalMap && this.currentMap == currentMap && this.player == player
      ensures this.ghosts == ghosts && this.fruitPos == fruitPos
      ensures width == currentMap.width && height == currentMap.height
      ensures this.events == events && lives == 3 && score == 0 && ghostValue == 0
    {
      this.originalMap, this.currentMap, this.player := originalMap, currentMap, player;
      this.ghosts, this.fruitPos := ghosts, fruitPos;
      width, height := currentMap.width, currentMap.height;
      this.events := events;
      lives, score, ghostValue := 3, 0, 0;
    }

    // -------------------------------------------------------------
    // Queries

    /** `Game::eating`: the player stands on something other than floor. */
    function Eating(): bool
      reads currentMap, player
      requires currentMap.Valid() && InBounds(currentMap.width, currentMap.height, player.position)
    {
      currentMap.Get(player.position) != ' '
    }

    /** `Game::frightMode`: scans the queue for a fright expiry. */
    method FrightMode() returns (b: bool)
      ensures b == FrightPending(events)
    {
      var i := 0;
      while i < |events|
        invariant 0 <= i <= |events|
        invariant forall j :: 0 <= j < i ==> events[j].kind != FrightModeExpires
      {
        if events[i].kind == FrightModeExpires {
          return true;
        }
        i := i + 1;
      }
      return false;
    }

    /** `Game::level`: one level per hundred cells of map, from 1. */
    function Level(): (n: int)
      requires 0 <= width && 0 <= height
      ensures n == GameRules.Level(width, height) && 1 <= n
    {
      LevelBounds(width, height);
      width * height / 100 + 1
    }

    /** `Game::remainingPills`: counts pills and power pills on the live map, row by row. */
    method RemainingPills() returns (n: int)
      requires currentMap.Valid()
      ensures n == PillCount(currentMap.data)
    {
      var w, h := currentMap.width, currentMap.height;
      ghost var d := currentMap.data;
      n := 0;
      var y := 0;
      while y < h
        invariant 0 <= y <= h && y * w <= |d|
        invariant n == PillCount(d[..y * w])
      {
        RowEnd(y, w, h);
        var x := 0;
        while x < w
          invariant 0 <= x <= w
          invariant n == PillCount(d[..y * w + x])
        {
          var ch := currentMap.Get(Position(x, y));
          assert d[..y * w + x + 1] == d[..y * w + x] + [ch];
          PillCountAppend(d[..y * w + x], ch);
          if ch == '.' || ch == 'o' {
            n := n + 1;
          }
          x := x + 1;
        }
        y := y + 1;
      }
      assert d[..y * w] == d;
    }

    // -------------------------------------------------------------
    // The event queue

    /** `Game::queueEvent`: adds one event; nothing else changes. */
    method QueueEvent(e: Event)
      modifies this
      ensures events == old(events) + [e]
      ensures lives == old(lives) && score == old(score) && ghostValue == old(ghostValue)
    {
      events := events + [e];
    }

    /** `Game::queuePlayerMove`: the player's next move, later by the player's delay. */
    method QueuePlayerMove(thisClock: Clock)
      requires currentMap.Valid() && InBounds(currentMap.width, currentMap.height, player.position)
      modifies this
      ensures lives == old(lives) && score == old(score) && ghostValue == old(ghostValue)
      ensures events == old(events) + [Event(PlayerMoves, Clock(thisClock.value + PlayerDelay(Eating())), 0)]
    {
      var moveTicks := 127 + (if Eating() then 10 else 0);
      var nextClock := Clock(thisClock.value + moveTicks);
      QueueEvent(Event(PlayerMoves, nextClock, 0));
    }

    /** `Game::queueGhostMove`: ghost `ghostNum`'s next move, later by its delay in the current mode. */
    method QueueGhostMove(thisClock: Clock, ghostNum: int)
      modifies this
      ensures events == old(events) +
        [Event(GhostMoves, Clock(thisClock.value + GhostDelay(FrightPending(old(events)), ghostNum)), ghostNum)]
      ensures lives == old(lives) && score == old(score) && ghostValue == old(ghostValue)
    {
      var moveTicks := 0;
      var fright := FrightMode();
      if fright {
        moveTicks := 195 + TruncRem(ghostNum, 4) * 3;
      } else {
        moveTicks := 130 + TruncRem(ghostNum, 4) * 2;
      }
      var nextClock := Clock(thisClock.value + moveTicks);
      QueueEvent(Event(GhostMoves, nextClock, ghostNum));
    }

    /** The heap's front and `pop_heap`: takes out an event no other pending event fires before. */
    method PopEvent() returns (e: Event)
      requires |events| > 0
      modifies this
      ensures exists k :: 0 <= k < |old(events)| && e == old(events)[k] && events == Without(old(events), k)
      ensures Earliest(e, old(events))
      ensures lives == old(lives) && score == old(score) && ghostValue == old(ghostValue)
    {
      var k := EarliestIndex(events);
      e := events[k];
      events := Without(events, k);
    }

    // -------------------------------------------------------------
    // Eating and collisions

    /** `Game::consume`: the player eats what is on its cell; a power pill starts fright mode. */
    method Consume(thisClock: Clock)
      requires Valid()
      modifies this, currentMap
      ensures Valid() && lives == old(lives)
      ensures var cell := old(At(width, height, currentMap.data, player.position));
        && currentMap.data == Put(width, height, old(currentMap.data), player.position, Eaten(cell))
        && score == old(score) + Reward(cell, GameRules.Level(width, height))
        && ghostValue == (if cell == 'o' then FirstGhostValue else old(ghostValue))
        && events == old(events) + (if cell == 'o' then [Event(FrightModeExpires, thisClock, 0)] else [])
    {
      var pos := player.position;
      ghost var d := currentMap.data;
      var ch := currentMap.Get(pos);
      WalledPut(width, height, d, pos, ' ');
      if ch == '.' {
        currentMap.Set(pos, ' ');
        score := score + PillValue;
      } else if ch == 'o' {
        currentMap.Set(pos, ' ');
        score := score + PowerPillValue;
        ghostValue := FirstGhostValue;
        QueueEvent(Event(FrightModeExpires, thisClock, 0));
      } else if ch == '%' {
        currentMap.Set(pos, ' ');
        score := score + FruitValue(Level());
      } else {
        IndexInRange(width, height, pos);
        assert Put(width, height, d, pos, ch) == d;
      }
    }

    /** Ghost i is ghost number i, so no ghost object appears twice. */
    ghost predicate Numbered()
      reads ghosts
    {
      forall i :: 0 <= i < |ghosts| ==> ghosts[i].index == i
    }

    /** The inner loop of a catch: every ghost visible again and back on its spawn; nothing else about them changes. */
    method ResetGhosts()
      requires Numbered()
      modifies ghosts
      ensures forall j :: 0 <= j < |ghosts| ==>
        && Kept(ghosts[j]) == old(Kept(ghosts[j]))
        && ghosts[j].position == ghosts[j].startPosition && !ghosts[j].invisible
    {
      var i := 0;
      while i < |ghosts|
        invariant 0 <= i <= |ghosts|
        invariant forall j :: 0 <= j < |ghosts| ==>
          && Kept(ghosts[j]) == old(Kept(ghosts[j]))
          && if j < i then ghosts[j].position == ghosts[j].startPosition && !ghosts[j].invisible
             else ghosts[j].position == old(ghosts[j].position) && ghosts[j].invisible == old(ghosts[j].invisible)
      {
        ghosts[i].SetInvisible(false);
        ghosts[i].Reset();
        i := i + 1;
      }
    }

    /** The FRIGHT_MODE_EXPIRES case: every ghost visible again where it stands. */
    method RevealGhosts()
      requires Numbered()
      modifies ghosts
      ensures forall j :: 0 <= j < |ghosts| ==>
        && Kept(ghosts[j]) == old(Kept(ghosts[j]))
        && ghosts[j].position == old(ghosts[j].position) && !ghosts[j].invisible
    {
      var i := 0;
      while i < |ghosts|
        invariant 0 <= i <= |ghosts|
        invariant forall j :: 0 <= j < |ghosts| ==>
          && Kept(ghosts[j]) == old(Kept(ghosts[j])) && ghosts[j].position == old(ghosts[j].position)
          && ghosts[j].invisible == (if j < i then false else old(ghosts[j].invisible))
      {
        ghosts[i].SetInvisible(false);
        i := i + 1;
      }
      assert SpritesOf(ghosts) == Revealed(old(SpritesOf(ghosts)));
    }

    /** The fright-mode branch of `Game::collide` for ghost i: hide it, send it home, score and double the bounty. */
    method EatGhost(i: nat)
      requires SpritesValid() && EventsValid() && i < |ghosts| && FrightPending(events)
      modifies this, ghosts[i]
      ensures SpritesValid() && EventsValid()
      ensures events == old(events) && lives == old(lives)
      ensures Board() == Eat(old(Board()), i)
      ensures forall j :: 0 <= j < |ghosts| ==> Kept(ghosts[j]) == old(Kept(ghosts[j]))
    {
      var g := ghosts[i];
      g.SetInvisible(true);
      g.Reset();
      score := score + ghostValue;
      ghostValue := NextBounty(ghostValue);
      assert SpritesOf(ghosts) == old(SpritesOf(ghosts))[i := Sprite(g.startPosition, g.startPosition, true)];
      forall j | 0 <= j < |ghosts| ensures Kept(ghosts[j]) == old(Kept(ghosts[j])) {
        if j != i {
          assert ghosts[j].index != g.index;
        }
      }
    }

    /** The other branch of `Game::collide`: the player and every ghost go home, all visible, and a life is lost. */
    method CatchPlayer()
      requires SpritesValid() && EventsValid() && lives > 0
      modifies this, player, ghosts
      ensures SpritesValid() && EventsValid()
      ensures events == old(events)
      ensures Board() == Catch(old(Board()))
      ensures forall j :: 0 <= j < |ghosts| ==> !Hit(Board(), j)
      ensures forall j :: 0 <= j < |ghosts| ==> Kept(ghosts[j]) == old(Kept(ghosts[j]))
    {
      ghost var before := SpritesOf(ghosts);
      player.Reset();
      ResetGhosts();
      lives := lives - 1;
      assert events == old(events) && ghostValue == old(ghostValue);
      ghost var after := SpritesOf(ghosts);
      forall j | 0 <= j < |ghosts|
        ensures after[j] == Respawned(before)[j] && GhostOk(ghosts[j], j, width, height, player.startPosition)
        ensures Kept(ghosts[j]) == old(Kept(ghosts[j]))
      {
        assert Kept(ghosts[j]) == old(Kept(ghosts[j]));
        assert old(GhostOk(ghosts[j], j, width, height, player.startPosition));
      }
      assert after == Respawned(before);
    }

    /** Lives remain, or else no ghost is left on the player's cell to catch it again. */
    ghost predicate Alive()
      reads this, player, ghosts
    {
      lives > 0 || forall j :: 0 <= j < |ghosts| ==> !Hit(Board(), j)
    }

    /** The body of the loop of `Game::collide` for ghost i: what meeting it does, if it meets the player. */
    method CollideWith(i: nat)
      requires SpritesValid() && EventsValid() && i < |ghosts|
      requires Alive()
      modifies this, player, ghosts
      ensures SpritesValid() && EventsValid() && events == old(events)
      ensures Board() ==
        if !Hit(old(Board()), i) then old(Board())
        else if FrightPending(events) then Eat(old(Board()), i)
        else Catch(old(Board()))
      ensures Alive()
      ensures forall j :: 0 <= j < |ghosts| ==> Kept(ghosts[j]) == old(Kept(ghosts[j]))
    {
      var g := ghosts[i];
      if g.invisible || g.position != player.position {
        return;
      }
      assert Hit(Board(), i);
      var frightNow := FrightMode();
      if frightNow {
        EatGhost(i);
      } else {
        CatchPlayer();
      }
    }

    /** The loop of `Game::collide` before ghost i: what is left of the check leads to `target`. */
    ghost predicate Colliding(i: nat, fright: bool, target: GameRules.Board)
      reads this, player, ghosts
    {
      && SpritesValid() && EventsValid() && Alive() && i <= |ghosts|
      && CollideFrom(Board(), fright, i) == target
    }

    /** `Game::collide`: each visible ghost on the player's cell is eaten in fright mode and catches the player otherwise. */
    method Collide()
      requires SpritesValid() && EventsValid() && lives > 0
      modifies this, player, ghosts
      ensures SpritesValid() && EventsValid() && events == old(events)
      ensures Board() == Collision(old(Board()), FrightPending(events))
      ensures forall j :: 0 <= j < |ghosts| ==> Kept(ghosts[j]) == old(Kept(ghosts[j]))
    {
      ghost var fright := FrightPending(events);
      ghost var target := Collision(Board(), fright);
      ghost var pending := events;
      var i := 0;
      while i < |ghosts|
        invariant 0 <= i <= |ghosts| && events == pending && fright == FrightPending(events)
        invariant Colliding(i, fright, target)
        invariant forall j :: 0 <= j < |ghosts| ==> Kept(ghosts[j]) == old(Kept(ghosts[j]))
      {
        CollideNext(i, fright, target);
        i := i + 1;
      }
    }

    /** One pass of the loop of `Game::collide`: after ghost i, what is left of the check still leads to `target`. */
    method CollideNext(i: nat, ghost fright: bool, ghost target: GameRules.Board)
      requires i < |ghosts| && fright == FrightPending(events) && Colliding(i, fright, target)
      modifies this, player, ghosts
      ensures events == old(events) && Colliding(i + 1, fright, target)
      ensures forall j :: 0 <= j < |ghosts| ==> Kept(ghosts[j]) == old(Kept(ghosts[j]))
    {
      CollideFromStep(Board(), fright, i);
      CollideWith(i);
    }

    // -------------------------------------------------------------
    // Events and the main loop

    /** The PLAYER_MOVES case: one step on the live map, and the next move queued. */
    method MovePlayer(thisClock: Clock)
      requires Valid()
      modifies this, player
      ensures Valid() && lives == old(lives) && score == old(score) && ghostValue == old(ghostValue)
      ensures player.position == Stepped(width, height, currentMap.data, old(player.position), player.direction)
      ensures player.direction == old(player.direction) && player.startPosition == old(player.startPosition)
      ensures events == old(events) + [Event(PlayerMoves, Clock(thisClock.value + PlayerDelay(Eating())), 0)]
    {
      SteppedStaysInside(width, height, currentMap.data, player.position, player.direction);
      player.Step(currentMap);
      QueuePlayerMove(thisClock);
      assert FrightPending(events) <==> FrightPending(old(events)) by {
        assert events[..|old(events)|] == old(events);
      }
    }

    /**
     * The GHOST_MOVES case: ghost i runs its program and steps, and its next move is queued; a
     * program that faults stops the game with nothing queued.
     */
    method MoveGhost(i: nat, thisClock: Clock) returns (r: Outcome<VmError>)
      requires Valid() && i < |ghosts|
      modifies this, ghosts[i]
      ensures Valid() && lives == old(lives) && score == old(score) && ghostValue == old(ghostValue)
      ensures ghosts[i].startPosition == old(ghosts[i].startPosition) && ghosts[i].invisible == old(ghosts[i].invisible)
      ensures GhostStepped(i, old(ghosts[i].State()), old(ghosts[i].View(player.position, originalMap)), old(ghosts[i].position), r)
      ensures r.Fail? ==> events == old(events)
      ensures r.Pass? ==>
        events == old(events) + [Event(GhostMoves, Clock(thisClock.value + GhostDelay(FrightPending(old(events)), i)), i)]
    {
      var g := ghosts[i];
      r := g.Step(player.position, originalMap, currentMap);
      if r.Fail? {
        return;
      }
      QueueGhostMove(thisClock, i);
      assert FrightPending(events) <==> FrightPending(old(events)) by {
        assert events[..|old(events)|] == old(events);
      }
    }

    /** The `switch` of `Game::run`: what one event does. */
    method Fire(e: Event) returns (r: Outcome<VmError>)
      requires Valid() && (e.kind == GhostMoves ==> 0 <= e.arg < |ghosts|)
      modifies this, currentMap, player, ghosts
      ensures Valid() && score == old(score) && ghostValue == old(ghostValue)
      ensures lives == if e.kind == EndOfLives then 0 else old(lives)
      ensures r.Fail? ==> e.kind == GhostMoves
      ensures r.Pass? ==> Rescheduled(old(events), events, e)
      ensures PowerPills(currentMap.data) <= old(PowerPills(currentMap.data))
      ensures e.kind == FruitAppears ==> currentMap.data == Put(width, height, old(currentMap.data), fruitPos, '%')
      ensures e.kind == FruitExpires ==> currentMap.data == Put(width, height, old(currentMap.data), fruitPos, ' ')
      ensures e.kind != FruitAppears && e.kind != FruitExpires ==> currentMap.data == old(currentMap.data)
      ensures e.kind != PlayerMoves ==> player.position == old(player.position)
      ensures r.Fail? ==> events == old(events)
      ensures r.Pass? ==> events == old(events) + FollowUp(e, old(FrightPending(events)), Eating())
      ensures e.kind == FrightModeExpires ==>
        forall j :: 0 <= j < |ghosts| ==>
          && !ghosts[j].invisible && ghosts[j].position == old(ghosts[j].position)
          && Kept(ghosts[j]) == old(Kept(ghosts[j]))
      ensures e.kind != GhostMoves && e.kind != FrightModeExpires ==> unchanged(ghosts)
      ensures e.kind == GhostMoves ==> forall j :: 0 <= j < |ghosts| && j != e.arg ==> unchanged(ghosts[j])
      ensures e.kind == GhostMoves ==>
        GhostStepped(e.arg, old(ghosts[e.arg].State()), old(ghosts[e.arg].View(player.position, originalMap)),
          old(ghosts[e.arg].position), r)
      ensures e.kind == PlayerMoves ==>
        player.position == Stepped(width, height, currentMap.data, old(player.position), player.direction)
      ensures Fired(e, r, old(currentMap.data), old(Board()), old(events))
    {
      if e.kind == PlayerMoves || e.kind == GhostMoves {
        r := FireMove(e);
      } else {
        FireTimer(e);
        r := Pass;
      }
    }

    /** The timer events of the `switch`: the end of lives, the fruit's timers and the end of fright mode. */
    method FireTimer(e: Event)
      requires Valid() && e.kind != PlayerMoves && e.kind != GhostMoves
      modifies this, currentMap, ghosts
      ensures Valid() && score == old(score) && ghostValue == old(ghostValue) && events == old(events)
      ensures lives == if e.kind == EndOfLives then 0 else old(lives)
      ensures PowerPills(currentMap.data) <= old(PowerPills(currentMap.data))
      ensures e.kind == FruitAppears ==> currentMap.data == Put(width, height, old(currentMap.data), fruitPos, '%')
      ensures e.kind == FruitExpires ==> currentMap.data == Put(width, height, old(currentMap.data), fruitPos, ' ')
      ensures e.kind != FruitAppears && e.kind != FruitExpires ==> currentMap.data == old(currentMap.data)
      ensures e.kind == FrightModeExpires ==>
        forall j :: 0 <= j < |ghosts| ==>
          && !ghosts[j].invisible && ghosts[j].position == old(ghosts[j].position)
          && Kept(ghosts[j]) == old(Kept(ghosts[j]))
      ensures e.kind != FrightModeExpires ==> unchanged(ghosts)
      ensures Fired(e, Pass, old(currentMap.data), old(Board()), old(events))
    {
      match e.kind
      case EndOfLives =>
        EndLives(e);
      case FruitAppears =>
        PlaceFruit(e, '%');
      case FruitExpires =>
        PlaceFruit(e, ' ');
      case FrightModeExpires =>
        EndFright(e);
    }

    /** The END_OF_LIVES case: no lives are left. */
    method EndLives(e: Event)
      requires Valid() && e.kind == EndOfLives
      modifies this
      ensures Valid() && lives == 0 && score == old(score) && ghostValue == old(ghostValue) && events == old(events)
      ensures Fired(e, Pass, old(currentMap.data), old(Board()), old(events))
    {
      lives := 0;
    }

    /** The fruit timers: `c` is the fruit when it appears and floor when it expires. */
    method PlaceFruit(e: Event, c: char)
      requires Valid() && (e.kind == FruitAppears || e.kind == FruitExpires)
      requires c == if e.kind == FruitAppears then '%' else ' '
      modifies currentMap
      ensures Valid() && currentMap.data == Put(width, height, old(currentMap.data), fruitPos, c)
      ensures PowerPills(currentMap.data) <= old(PowerPills(currentMap.data))
      ensures Fired(e, Pass, old(currentMap.data), old(Board()), old(events))
    {
      WalledPut(width, height, currentMap.data, fruitPos, c);
      PowerPillsPut(width, height, currentMap.data, fruitPos, c);
      currentMap.Set(fruitPos, c);
    }

    /** The FRIGHT_MODE_EXPIRES case: every ghost visible again where it stands. */
    method EndFright(e: Event)
      requires Valid() && e.kind == FrightModeExpires
      modifies ghosts
      ensures Valid()
      ensures forall j :: 0 <= j < |ghosts| ==>
        && !ghosts[j].invisible && ghosts[j].position == old(ghosts[j].position)
        && Kept(ghosts[j]) == old(Kept(ghosts[j]))
      ensures Fired(e, Pass, old(currentMap.data), old(Board()), old(events))
    {
      RevealGhosts();
    }

    /** The mover events of the `switch`: the player's or one ghost's step, and its next move queued. */
    method FireMove(e: Event) returns (r: Outcome<VmError>)
      requires Valid() && (e.kind == PlayerMoves || e.kind == GhostMoves)
      requires e.kind == GhostMoves ==> 0 <= e.arg < |ghosts|
      modifies this, player, ghosts
      ensures Valid() && lives == old(lives) && score == old(score) && ghostValue == old(ghostValue)
      ensures r.Fail? ==> e.kind == GhostMoves && events == old(events)
      ensures r.Pass? ==> events == old(events) + FollowUp(e, old(FrightPending(events)), Eating())
      ensures e.kind == PlayerMoves ==>
        && player.position == Stepped(width, height, currentMap.data, old(player.position), player.direction)
        && unchanged(ghosts)
      ensures e.kind == GhostMoves ==>
        && player.position == old(player.position)
        && (forall j :: 0 <= j < |ghosts| && j != e.arg ==> unchanged(ghosts[j]))
        && GhostStepped(e.arg, old(ghosts[e.arg].State()), old(ghosts[e.arg].View(player.position, originalMap)),
             old(ghosts[e.arg].position), r)
      ensures Fired(e, r, old(currentMap.data), old(Board()), old(events))
    {
      if e.kind == PlayerMoves {
        MovePlayer(e.clock);
        r := Pass;
      } else {
        r := MoveGhost(e.arg, e.clock);
      }
    }

    /** The bonus for clearing the board: the score is multiplied by the lives left plus one. */
    method Award()
      modifies this
      ensures score == old(score) * (lives + 1)
      ensures events == old(events) && lives == old(lives) && ghostValue == old(ghostValue)
    {
      score := score * (lives + 1);
    }

    /** The first two steps of a tick boundary: the player eats its cell, then collisions are resolved. */
    method Tick(thisClock: Clock)
      requires Valid() && lives > 0
      modifies this, currentMap, player, ghosts
      ensures Valid()
      ensures var cell := old(At(width, height, currentMap.data, player.position));
        && currentMap.data == Put(width, height, old(currentMap.data), old(player.position), Eaten(cell))
        && Board() == Collision(Fed(old(Board()), cell, GameRules.Level(width, height)), old(FrightPending(events)) || cell == 'o')
        && events == old(events) + (if cell == 'o' then [Event(FrightModeExpires, thisClock, 0)] else [])
      ensures forall j :: 0 <= j < |ghosts| ==> Kept(ghosts[j]) == old(Kept(ghosts[j]))
    {
      ghost var cell := At(width, height, currentMap.data, player.position);
      ghost var board, fright := Board(), FrightPending(events);
      Consume(thisClock);
      assert Board() == Fed(board, cell, GameRules.Level(width, height));
      assert FrightPending(events) == (fright || cell == 'o') by {
        assert events[..|old(events)|] == old(events);
        if cell == 'o' {
          assert events[|old(events)|].kind == FrightModeExpires;
        }
      }
      Collide();
    }

    /**
     * What `Game::run` does before an event on a new clock: the player eats, collisions are
     * resolved, and the game ends when no lives are left or, with the score multiplied by the
     * lives left plus one, when no pills remain. Only a power pill queues anything, and it also
     * removes a power pill from the map.
     */
    method Settle(thisClock: Clock) returns (stop: Option<Ending>)
      requires Valid() && lives > 0
      modifies this, currentMap, player, ghosts
      ensures Valid()
      ensures stop == None ==> lives > 0
      ensures stop == Some(OutOfLives) ==> lives == 0
      ensures stop == Some(Cleared) ==> PillCount(currentMap.data) == 0 && lives > 0
      ensures stop.None? || stop == Some(OutOfLives) || stop == Some(Cleared)
      ensures (events == old(events) && PowerPills(currentMap.data) == old(PowerPills(currentMap.data))) ||
        (events == old(events) + [Event(FrightModeExpires, thisClock, 0)] &&
         PowerPills(currentMap.data) < old(PowerPills(currentMap.data)))
      ensures Ticked(width, height, old(currentMap.data), old(Board()), old(FrightPending(events)),
        currentMap.data, Board(), stop)
      ensures events == old(events) + (if old(At(width, height, currentMap.data, player.position)) == 'o' then [Event(FrightModeExpires, thisClock, 0)] else [])
      ensures forall j :: 0 <= j < |ghosts| ==> Kept(ghosts[j]) == old(Kept(ghosts[j]))
    {
      ghost var cell := At(width, height, currentMap.data, player.position);
      PowerPillsPut(width, height, currentMap.data, player.position, Eaten(cell));
      EatenOnce(cell, 1);
      Tick(thisClock);
      stop := Conclude();
    }

    /** The last step of a tick boundary: stop when no lives are left, or with the clearing bonus when no pills are left. */
    method Conclude() returns (stop: Option<Ending>)
      requires Valid()
      modifies this
      ensures Valid() && events == old(events) && lives == old(lives)
      ensures stop == Some(OutOfLives) <==> lives == 0
      ensures stop == Some(Cleared) <==> lives != 0 && PillCount(currentMap.data) == 0
      ensures stop == None <==> lives != 0 && PillCount(currentMap.data) != 0
      ensures Board() == if stop == Some(Cleared) then Bonus(old(Board())) else old(Board())
    {
      if lives == 0 {
        return Some(OutOfLives);
      }
      var pills := RemainingPills();
      if pills == 0 {
        Award();
        return Some(Cleared);
      }
      return None;
    }

    /** The tick boundary when `due`, or nothing at all; `data` and `board` are the map and board it leaves. */
    method Boundary(due: bool, thisClock: Clock)
      returns (stop: Option<Ending>, ghost data: seq<char>, ghost board: GameRules.Board)
      requires Valid() && lives > 0
      modifies this, currentMap, player, ghosts
      ensures Valid() && currentMap.data == data && Board() == board
      ensures !due ==> stop == None && data == old(currentMap.data) && board == old(Board()) && events == old(events)
      ensures due ==> Ticked(width, height, old(currentMap.data), old(Board()), old(FrightPending(events)), data, board, stop)
      ensures events == old(events) + (if due && old(At(width, height, currentMap.data, player.position)) == 'o' then [Event(FrightModeExpires, thisClock, 0)] else [])
      ensures forall j :: 0 <= j < |ghosts| ==> Kept(ghosts[j]) == old(Kept(ghosts[j]))
      ensures stop == None ==> lives > 0
      ensures stop == Some(OutOfLives) ==> lives == 0
      ensures stop == Some(Cleared) ==> PillCount(currentMap.data) == 0 && lives > 0
      ensures stop.None? || stop == Some(OutOfLives) || stop == Some(Cleared)
      ensures (events == old(events) && PowerPills(currentMap.data) == old(PowerPills(currentMap.data))) ||
        (events == old(events) + [Event(FrightModeExpires, thisClock, 0)] &&
         PowerPills(currentMap.data) < old(PowerPills(currentMap.data)))
    {
      stop := None;
      if due {
        stop := Settle(thisClock);
      }
      data, board := currentMap.data, Board();
    }

    /**
     * `PopEvent` while lives remain: the end-of-lives timer is pending, so the event popped fires
     * no later than it, and it stays pending unless it is the one popped.
     */
    method PopDue() returns (e: Event, ghost k: nat)
      requires Valid() && Clocked() && lives > 0
      modifies this
      ensures Valid() && lives == old(lives) && score == old(score) && ghostValue == old(ghostValue)
      ensures e.clock.value <= EndClock(width, height)
      ensures e.kind == GhostMoves ==> 0 <= e.arg < |ghosts|
      ensures old(Weight(events, EndClock(width, height))) ==
        Weight(events, EndClock(width, height)) + Urgency(e.clock, EndClock(width, height))
      ensures e == EndOfLivesEvent(width, height) || EndOfLivesEvent(width, height) in events
      ensures k < |old(events)| && e == old(events)[k] && events == Without(old(events), k)
      ensures Earliest(e, old(events))
    {
      ghost var pending := events;
      e := PopEvent();
      k :| 0 <= k < |pending| && e == pending[k] && events == Without(pending, k);
      WeightWithout(pending, k, EndClock(width, height));
      WithoutContents(pending, k);
      assert e.clock.value <= EndClock(width, height) by {
        var j :| 0 <= j < |pending| && pending[j] == EndOfLivesEvent(width, height);
        assert !Later(e, pending[j]);
      }
      assert e.kind == GhostMoves ==> 0 <= e.arg < |ghosts| by {
        assert pending[k] == e;
      }
      assert FrightPending(events) ==> FrightPending(pending) by {
        if FrightPending(events) {
          var j :| 0 <= j < |events| && events[j].kind == FrightModeExpires;
          assert events[j] in multiset(pending);
        }
      }
      assert forall j :: 0 <= j < |events| ==> events[j] in multiset(pending);
    }

    /**
     * One pass of the loop of `Game::run`: pop the earliest pending event `e` (the one at `k`),
     * run the tick boundary when its clock differs from `lastClock`, leaving the map `tickData`
     * and the board `tickBoard`, and unless that stops the game, fire `e`.
     */
    method Round(lastClock: Clock)
      returns (e: Event, stop: Option<Ending>, ghost k: nat, ghost tickData: seq<char>, ghost tickBoard: GameRules.Board)
      requires Valid() && Clocked() && lives > 0
      modifies this, currentMap, player, ghosts
      ensures Valid()
      ensures k < |old(events)| && e == old(events)[k] && Earliest(e, old(events))
      ensures e.clock == lastClock ==>
        tickData == old(currentMap.data) && tickBoard == old(Board()) && (stop.None? || stop.value.Faulted?)
      ensures e.clock != lastClock ==>
        Ticked(width, height, old(currentMap.data), old(Board()), FrightPending(Without(old(events), k)),
          tickData, tickBoard, if stop.Some? && stop.value.Faulted? then None else stop)
      ensures stop == Some(OutOfLives) || stop == Some(Cleared) ==> currentMap.data == tickData && Board() == tickBoard
      ensures e.kind == GhostMoves ==> 0 <= e.arg < |ghosts|
      ensures stop.None? || stop.value.Faulted? ==>
        Fired(e, if stop.None? then Pass else Fail(stop.value.fault), tickData, tickBoard,
          Without(old(events), k) +
          if e.clock != lastClock && old(At(width, height, currentMap.data, player.position)) == 'o'
          then [Event(FrightModeExpires, lastClock, 0)] else [])
      ensures (stop.None? || stop.value.Faulted?) && e.kind == GhostMoves ==>
        && |tickBoard.sprites| == |ghosts| && Interior(width, height, tickBoard.sprites[e.arg].position)
        && GhostStepped(e.arg, old(ghosts[e.arg].State()),
             old(ghosts[e.arg].View(tickBoard.player, originalMap)).(position := tickBoard.sprites[e.arg].position),
             tickBoard.sprites[e.arg].position, if stop.None? then Pass else Fail(stop.value.fault))
      ensures forall j :: 0 <= j < |ghosts| && !(e.kind == GhostMoves && j == e.arg) ==>
        Kept(ghosts[j]) == old(Kept(ghosts[j]))
      ensures stop == Some(OutOfLives) ==> lives == 0
      ensures stop == Some(Cleared) ==> PillCount(currentMap.data) == 0 && lives > 0
      ensures stop == None ==> Clocked()
      ensures stop == None ==>
        || PowerPills(currentMap.data) < old(PowerPills(currentMap.data))
        || (PowerPills(currentMap.data) == old(PowerPills(currentMap.data)) &&
            Weight(events, EndClock(width, height)) < old(Weight(events, EndClock(width, height))))
    {
      e, k := PopDue();
      assert Board() == old(Board()) && currentMap.data == old(currentMap.data);
      assert player.position == old(player.position);
      assert unchanged(ghosts);
      stop, tickData, tickBoard := Advance(e, lastClock);
    }

    /** The pass after the pop: the tick boundary when `e` is on a new clock, then, unless that stops the game, `e` fires. */
    method Advance(e: Event, lastClock: Clock) returns (stop: Option<Ending>, ghost tickData: seq<char>, ghost tickBoard: GameRules.Board)
      requires Valid() && lives > 0 && (e.kind == GhostMoves ==> 0 <= e.arg < |ghosts|) && e.clock.value <= EndClock(width, height)
      modifies this, currentMap, player, ghosts
      ensures Valid()
      ensures e.clock == lastClock ==>
        tickData == old(currentMap.data) && tickBoard == old(Board()) && (stop.None? || stop.value.Faulted?)
      ensures e.clock != lastClock ==>
        Ticked(width, height, old(currentMap.data), old(Board()), old(FrightPending(events)),
          tickData, tickBoard, if stop.Some? && stop.value.Faulted? then None else stop)
      ensures stop == Some(OutOfLives) || stop == Some(Cleared) ==> currentMap.data == tickData && Board() == tickBoard
      ensures stop.None? || stop.value.Faulted? ==>
        Fired(e, if stop.None? then Pass else Fail(stop.value.fault), tickData, tickBoard,
          old(events) +
          if e.clock != lastClock && old(At(width, height, currentMap.data, player.position)) == 'o'
          then [Event(FrightModeExpires, lastClock, 0)] else [])
      ensures (stop.None? || stop.value.Faulted?) && e.kind == GhostMoves ==>
        && |tickBoard.sprites| == |ghosts| && Interior(width, height, tickBoard.sprites[e.arg].position)
        && GhostStepped(e.arg, old(ghosts[e.arg].State()),
             old(ghosts[e.arg].View(tickBoard.player, originalMap)).(position := tickBoard.sprites[e.arg].position),
             tickBoard.sprites[e.arg].position, if stop.None? then Pass else Fail(stop.value.fault))
      ensures forall j :: 0 <= j < |ghosts| && !(e.kind == GhostMoves && j == e.arg) ==>
        Kept(ghosts[j]) == old(Kept(ghosts[j]))
      ensures stop == Some(OutOfLives) ==> lives == 0
      ensures stop == Some(Cleared) ==> PillCount(currentMap.data) == 0 && lives > 0
      ensures stop == None && EndOfLivesEvent(width, height) in old(events) ==> EndOfLivesEvent(width, height) in events
      ensures stop == None ==>
        || PowerPills(currentMap.data) < old(PowerPills(currentMap.data))
        || (PowerPills(currentMap.data) == old(PowerPills(currentMap.data)) &&
            Weight(events, EndClock(width, height)) < old(Weight(events, EndClock(width, height))) + Urgency(e.clock, EndClock(width, height)))
    {
      stop, tickData, tickBoard := Boundary(e.clock != lastClock, lastClock);
      if stop.Some? {
        return;
      }
      var r := Handle(e);
      if r.Fail? {
        return Some(Faulted(r.error)), tickData, tickBoard;
      }
    }

    /** `Fire` of an event due no later than the end-of-lives timer, with what it means for the pending events' weight. */
    method Handle(e: Event) returns (r: Outcome<VmError>)
      requires Valid() && (e.kind == GhostMoves ==> 0 <= e.arg < |ghosts|) && e.clock.value <= EndClock(width, height)
      modifies this, currentMap, player, ghosts
      ensures Valid() && score == old(score) && ghostValue == old(ghostValue)
      ensures lives == if e.kind == EndOfLives then 0 else old(lives)
      ensures r.Pass? ==> PowerPills(currentMap.data) <= old(PowerPills(currentMap.data))
      ensures r.Pass? ==>
        Weight(events, EndClock(width, height)) < old(Weight(events, EndClock(width, height))) + Urgency(e.clock, EndClock(width, height))
      ensures r.Pass? && EndOfLivesEvent(width, height) in old(events) ==> EndOfLivesEvent(width, height) in events
      ensures Fired(e, r, old(currentMap.data), old(Board()), old(events))
      ensures e.kind == GhostMoves ==>
        GhostStepped(e.arg, old(ghosts[e.arg].State()), old(ghosts[e.arg].View(player.position, originalMap)),
          old(ghosts[e.arg].position), r)
      ensures forall j :: 0 <= j < |ghosts| && !(e.kind == GhostMoves && j == e.arg) ==>
        Kept(ghosts[j]) == old(Kept(ghosts[j]))
    {
      ghost var before := events;
      r := Fire(e);
      if r.Pass? {
        RescheduledWeight(before, events, e, EndClock(width, height), EndOfLivesEvent(width, height));
      }
    }

    /**
     * `Game::run`: pops events earliest first until no lives are left, the pills are all eaten,
     * or a ghost program faults. It always ends: each pass either eats a power pill or, since
     * every event it queues is later than the one it popped and the end-of-lives timer bounds the
     * clock, lowers the total distance of the pending events to that timer.
     */
    method Run() returns (ending: Ending)
      requires Valid() && Clocked()
      modifies this, currentMap, player, ghosts
      ensures Valid()
      ensures ending == OutOfLives ==> lives == 0
      ensures ending == Cleared ==> PillCount(currentMap.data) == 0 && lives > 0
    {
      var lastClock := Clock(0);
      while lives != 0
        invariant Valid() && Clocked()
        decreases PowerPills(currentMap.data), Weight(events, EndClock(width, height))
      {
        var e, stop, _, _, _ := Round(lastClock);
        if stop.Some? {
          return stop.value;
        }
      }
      return OutOfLives;
    }
  }

  // ---------------------------------------------------------------
  // Game::init

  /** A ghost glyph at address k has fewer ghost glyphs before it than the whole grid holds. */
  lemma {:induction false} OccurrencesBefore(s: seq<char>, k: int, c: char)
    requires 0 <= k < |s| && s[k] == c
    ensures Occurrences(s[..k], c) < Occurrences(s, c)
    decreases |s|
  {
    var prefix := s[..|s| - 1];
    if k == |s| - 1 {
      assert s[..k] == prefix;
    } else {
      assert prefix[..k] == s[..k] && prefix[k] == c;
      OccurrencesBefore(prefix, k, c);
    }
  }

  /** The timers `Game::init` queues after the scan: neither ghost moves nor fright expiries. */
  function Timers(width: int, height: int): (r: seq<Event>)
    ensures |r| == 5 && r[0] == EndOfLivesEvent(width, height)
    ensures forall k :: 0 <= k < |r| ==> r[k].kind != GhostMoves && r[k].kind != FrightModeExpires
  {
    [EndOfLivesEvent(width, height)] + FruitTimers()
  }

  /** The opening queue: the spawns' moves, then the end-of-lives timer, then the fruit timers. */
  function OpeningEvents(cells: seq<char>, width: int, height: int): seq<Event>
  {
    SpawnEvents(cells) + Timers(width, height)
  }

  /** The opening queue holds the end-of-lives timer, names only ghosts the scan created, and no fright expiry. */
  lemma OpeningEventsShape(cells: seq<char>, width: int, height: int)
    ensures EndOfLivesEvent(width, height) in OpeningEvents(cells, width, height)
    ensures forall i :: 0 <= i < |OpeningEvents(cells, width, height)| ==>
      (OpeningEvents(cells, width, height)[i].kind == GhostMoves ==>
         0 <= OpeningEvents(cells, width, height)[i].arg < Occurrences(cells, '='))
    ensures !FrightPending(OpeningEvents(cells, width, height))
  {
    var spawn, timers := SpawnEvents(cells), Timers(width, height);
    var all := OpeningEvents(cells, width, height);
    SpawnEventsShape(cells);
    assert all[|spawn|] == timers[0];
    forall i | 0 <= i < |all|
      ensures all[i].kind != FrightModeExpires
      ensures all[i].kind == GhostMoves ==> 0 <= all[i].arg < Occurrences(cells, '=')
    {
      if i < |spawn| {
        assert all[i] == spawn[i];
      } else {
        assert all[i] == timers[i - |spawn|];
      }
    }
  }

  /** Among the first n ghosts, some ghost's program fails with `error`, and every earlier one assembles. */
  ghost predicate FirstFailure(ghostPrograms: seq<seq<string>>, n: int, error: LoadError)
    requires |ghostPrograms| > 0
  {
    exists i :: 0 <= i < n && Assemble(ghostPrograms[i % |ghostPrograms|]) == Err(error) &&
      forall j :: 0 <= j < i ==> Assemble(ghostPrograms[j % |ghostPrograms|]).Ok?
  }

  /** A first failure is a failure: not every one of the n programs assembles. */
  lemma FirstFailureFails(ghostPrograms: seq<seq<string>>, n: int, error: LoadError)
    requires |ghostPrograms| > 0 && FirstFailure(ghostPrograms, n, error)
    ensures !forall i :: 0 <= i < n ==> Assemble(ghostPrograms[i % |ghostPrograms|]).Ok?
  {
  }

  /** A ghost program failing at the scan's ghost glyph k is the first failure among all the grid's ghosts. */
  lemma ScanFailure(width: int, height: int, cells: seq<char>, lambda: Position, ghosts: seq<Ghost>,
                    ghostPrograms: seq<seq<string>>, k: int, error: LoadError)
    requires |ghostPrograms| > 0 && |cells| == width * height && 0 <= k < |cells| && cells[k] == '='
    requires |ghosts| == Occurrences(cells[..k], '=') && Cast(width, height, cells, lambda, ghosts, ghostPrograms)
    requires Assemble(ghostPrograms[|ghosts| % |ghostPrograms|]) == Err(error)
    ensures FirstFailure(ghostPrograms, Occurrences(cells, '='), error)
    ensures !forall i :: 0 <= i < Occurrences(cells, '=') ==> Assemble(ghostPrograms[i % |ghostPrograms|]).Ok?
  {
    OccurrencesBefore(cells, k, '=');
    forall j | 0 <= j < |ghosts| ensures Assemble(ghostPrograms[j % |ghostPrograms|]).Ok? {
      assert Spawned(ghosts[j], j, width, height, cells, lambda, ghostPrograms);
    }
  }

  /**
   * The end of `Game::init`, once the scan has passed every cell: the timers are queued and the
   * game holds the pristine map, the scanned one, the player, the ghosts and the fruit's place.
   */
  method Open(orig: Map, live: Map, player: Player, ghosts: seq<Ghost>, events: seq<Event>, fruitPos: Position,
              ghostPrograms: seq<seq<string>>, ghost cells: seq<char>, ghost lambda: Position, ghost fruit: Position)
    returns (g: Game)
    requires orig != live && orig.Valid() && orig.width == live.width && orig.height == live.height && orig.data == cells
    requires |ghostPrograms| > 0 && |cells| == live.width * live.height
    requires Scanning(cells, lambda, fruit, |cells|, live, player, ghosts, events, fruitPos, ghostPrograms)
    requires Interior(live.width, live.height, lambda) && Interior(live.width, live.height, fruit)
    ensures fresh(g) && g.width == live.width && g.height == live.height && g.Opening(cells, ghostPrograms)
    ensures forall i :: 0 <= i < Occurrences(cells, '=') ==> Assemble(ghostPrograms[i % |ghostPrograms|]).Ok?
  {
    var w, h := live.width, live.height;
    assert cells[..|cells|] == cells && cells[|cells|..] == [];
    IndexInRange(w, h, lambda);
    IndexInRange(w, h, fruit);
    WalledBlank(w, h, cells);
    OpeningEventsShape(cells, w, h);
    forall i | 0 <= i < |ghosts|
      ensures GhostOk(ghosts[i], i, w, h, player.startPosition)
      ensures Assemble(ghostPrograms[i % |ghostPrograms|]).Ok?
    {
      assert Spawned(ghosts[i], i, w, h, cells, lambda, ghostPrograms);
    }
    assert live.data == Blank(cells) && events == SpawnEvents(cells) && |ghosts| == Occurrences(cells, '=');
    g := new Game(orig, live, player, ghosts, fruitPos, events + Timers(w, h));
    assert g.MapsValid();
    assert g.SpritesValid();
    assert g.EventsValid();
  }

  /** Row y of the scan of `Game::init`, cell by cell from the left; `start` is the address of its first cell. */
  method ScanRow(y: int, live: Map, player: Player, ghosts: seq<Ghost>, events: seq<Event>, fruitPos: Position,
                 playerProgram: seq<string>, ghostPrograms: seq<seq<string>>, ghost cells: seq<char>,
                 ghost lambda: Position, ghost fruit: Position, ghost start: int)
    returns (ghosts': seq<Ghost>, events': seq<Event>, fruitPos': Position, err: Option<LoadError>)
    requires |ghostPrograms| > 0 && 0 <= y < live.height && start == y * live.width
    requires Scanning(cells, lambda, fruit, start, live, player, ghosts, events, fruitPos, ghostPrograms)
    modifies live, player
    ensures live.width == old(live.width) && live.height == old(live.height)
    ensures err.None? ==>
      Scanning(cells, lambda, fruit, start + live.width, live, player, ghosts', events', fruitPos', ghostPrograms)
    ensures err.Some? ==>
      FirstFailure(ghostPrograms, Occurrences(cells, '='), err.value)
  {
    var w, h := live.width, live.height;
    ghosts', events', fruitPos', err := ghosts, events, fruitPos, None;
    ghost var cursor := start;
    var x := 0;
    while x < w
      invariant 0 <= x <= w && live.width == w && live.height == h && err.None? && cursor == start + x
      invariant Scanning(cells, lambda, fruit, cursor, live, player, ghosts', events', fruitPos', ghostPrograms)
    {
      var pos := Position(x, y);
      assert Index(w, pos) == cursor;
      ghosts', events', fruitPos', err :=
        SpawnCell(pos, live, player, ghosts', events', fruitPos', playerProgram, ghostPrograms, cells, lambda, fruit, cursor);
      if err.Some? {
        return;
      }
      cursor := cursor + 1;
      x := x + 1;
    }
  }

  /** Before the scan of an accepted grid, nothing is passed: its spawns are where the grid has them. */
  lemma ScanStart(width: int, height: int, cells: seq<char>, playerAt: Position, playerStart: Position)
    returns (lambda: Position, fruit: Position)
    requires |cells| == width * height && 0 <= width && 0 <= height && (width == 0 <==> height == 0)
    requires WellFormed(width, height, cells)
    ensures Interior(width, height, lambda) && Interior(width, height, fruit)
    ensures Passed(cells, lambda, fruit, 0, width, height, cells, [], 0, playerAt, playerStart, Position(0, 0))
  {
    lambda, fruit := WellFormedShape(width, height, cells);
    assert Walled(width, height, cells);
    assert cells[..0] == [] && cells[0..] == cells;
  }

  /** The scan of `Game::init`, row by row from the top, from a fresh player and no ghosts or events. */
  method Scan(live: Map, player: Player, playerProgram: seq<string>, ghostPrograms: seq<seq<string>>,
              ghost cells: seq<char>, ghost lambda: Position, ghost fruit: Position)
    returns (ghosts: seq<Ghost>, events: seq<Event>, fruitPos: Position, err: Option<LoadError>)
    requires |ghostPrograms| > 0
    requires Scanning(cells, lambda, fruit, 0, live, player, [], [], Position(0, 0), ghostPrograms)
    modifies live, player
    ensures live.width == old(live.width) && live.height == old(live.height)
    ensures err.None? ==> Scanning(cells, lambda, fruit, |cells|, live, player, ghosts, events, fruitPos, ghostPrograms)
    ensures err.Some? ==> FirstFailure(ghostPrograms, Occurrences(cells, '='), err.value)
  {
    var w, h := live.width, live.height;
    ghosts, events, fruitPos, err := [], [], Position(0, 0), None;
    ghost var cursor := 0;
    var y := 0;
    while y < h
      invariant 0 <= y <= h && live.width == w && live.height == h && err.None? && cursor == y * w
      invariant Scanning(cells, lambda, fruit, cursor, live, player, ghosts, events, fruitPos, ghostPrograms)
    {
      ghosts, events, fruitPos, err :=
        ScanRow(y, live, player, ghosts, events, fruitPos, playerProgram, ghostPrograms, cells, lambda, fruit, cursor);
      if err.Some? {
        return;
      }
      RowEnd(y, w, h);
      cursor := cursor + w;
      y := y + 1;
    }
    assert cursor == |cells|;
  }

  /**
   * `Game::init`: loads the map and keeps a pristine copy, then scans it row by row; the player
   * spawn places the player, each ghost spawn creates the next ghost with the next program in
   * turn, the fruit spawn fixes the fruit's place, and each spawn becomes floor. The end-of-lives
   * timer and the fruit timers are queued last. It fails when the map does not load or a ghost
   * program does not assemble, with the error of the first ghost whose program fails.
   */
  method Setup(mapLines: seq<string>, playerProgram: seq<string>, ghostPrograms: seq<seq<string>>)
    returns (r: Result<Game, GameError>)
    requires |ghostPrograms| > 0
    ensures LoadResult(mapLines, true).Fail? ==> r == Err(MapFailed(LoadResult(mapLines, true).error))
    ensures LoadResult(mapLines, true) == Pass ==>
      var cells := Concat(Rows(mapLines));
      && (r.Ok? <==>
            forall i :: 0 <= i < Occurrences(cells, '=') ==> Assemble(ghostPrograms[i % |ghostPrograms|]).Ok?)
      && (r.Err? ==> r.error.ProgramFailed? && FirstFailure(ghostPrograms, Occurrences(cells, '='), r.error.loadError))
    ensures r.Ok? ==>
      && LoadResult(mapLines, true) == Pass && fresh(r.value)
      && r.value.width == RowWidth(Rows(mapLines)) && r.value.height == |Rows(mapLines)|
      && r.value.Opening(Concat(Rows(mapLines)), ghostPrograms)
  {
    var live := new Map();
    var loaded := live.Init(mapLines, true);
    if loaded.Fail? {
      return Err(MapFailed(loaded.error));
    }
    LoadShape(mapLines);
    r := Build(live, playerProgram, ghostPrograms);
  }

  /**
   * The part of `Game::init` after the map has loaded and passed validation: the original map is
   * copied, then the grid is scanned.
   */
  method Build(live: Map, playerProgram: seq<string>, ghostPrograms: seq<seq<string>>)
    returns (r: Result<Game, GameError>)
    requires |ghostPrograms| > 0 && live.Valid() && WellFormed(live.width, live.height, live.data)
    modifies live
    ensures r.Ok? <==> forall i :: 0 <= i < Occurrences(old(live.data), '=') ==> Assemble(ghostPrograms[i % |ghostPrograms|]).Ok?
    ensures r.Err? ==> r.error.ProgramFailed? && FirstFailure(ghostPrograms, Occurrences(old(live.data), '='), r.error.loadError)
    ensures r.Ok? ==>
      && fresh(r.value) && r.value.width == old(live.width) && r.value.height == old(live.height)
      && r.value.Opening(old(live.data), ghostPrograms)
  {
    var orig := new Map();
    orig.CopyFrom(live);
    var player := new Player();
    var w, h := live.width, live.height;
    ghost var cells := live.data;
    ghost var lambda, fruit := ScanStart(w, h, cells, player.position, player.startPosition);
    assert Scanning(cells, lambda, fruit, 0, live, player, [], [], Position(0, 0), ghostPrograms);
    var ghosts, events, fruitPos, err := Scan(live, player, playerProgram, ghostPrograms, cells, lambda, fruit);
    if err.Some? {
      FirstFailureFails(ghostPrograms, Occurrences(cells, '='), err.value);
      return Err(ProgramFailed(err.value));
    }
    var game := Open(orig, live, player, ghosts, events, fruitPos, ghostPrograms, cells, lambda, fruit);
    return Ok(game);
  }
}
