# lamco game core in Dafny

This project models the core of lamco, a maze game in which a lambda-man (the player) eats
pills while ghosts driven by small bytecode programs chase it. It covers three connected pieces:

- **The grid** (`map.dfy`, module `Grid`; `basic.dfy`, module `Basic`; `player.dfy`, module `Players`).
  - A row-major character map, with `Get` and `Set`.
  - The line-based loader, and the validator, check by check in source order.
  - Four-direction stepping.
  - The fixed-direction player.
- **The ghost virtual machine** (`ghost_program.dfy`, `ghost_cpu.dfy`, `ghosts.dfy`).
  - The assembler: comments, lowercasing, commas, opcodes and operands.
  - The interpreter: 9 byte registers (PC, A..H) and 255 bytes of data memory.
  - Loads, stores and interrupts, with at most 1024 instructions per run.
  - The ghost's fallback movement rule.
  - `GhostProgram` and `GhostCpu` state the semantics as pure functions. The class `Ghosts.Ghost` holds the state in fields, and its methods are proved to agree with those functions.
- **The game** (`events.dfy`, `game_rules.dfy`, `game.dfy`).
  - The event queue and its release order.
  - Scoring, collisions and fright mode.
  - Move rescheduling.
  - `Game::init`, and the main loop `Game::run`.
  - `GameRules` states the rules as values. The class `Games.Game` holds the objects and is proved against those rules.

`wrappers.dfy` holds the `Option`, `Result` and `Outcome` types used for the source's exceptions and undefined behaviour.

Some decisions that shape the model:

- **Exceptions are results.** Each `runtime_error` the source throws is an error value: `MapError`, `LoadError` or `VmError`.
- **Undefined behaviour is an error too.** These cases are `VmError`s:
  - a PC past the end of the program;
  - data address 255 against a 255-byte memory;
  - division by zero.
- **Byte arithmetic is written out.** Registers, data cells and operand values are `uint8_t`. Every value stored into them is reduced modulo 256 (`GhostProgram.Wrap`), as C++ conversion to `uint8_t` does. Jumps compare the unsigned bytes.
- **The event heap is a sequence.** Pushing appends. Popping removes an event that no pending event precedes in the comparer's order. The comparer is proved to be a strict total order, so that event is the unique earliest one, the one the heap's front holds.
- **The ghost's invisible flag is its own field.** `game.cpp` reads and sets it, but `ghost.hpp` does not declare it. It is kept apart from `dead`, which only `kill` sets.
- **The game is modelled as written** in these places:
  - `lastClock` in `Game::run` is never reassigned, so it stays at clock 0.
  - So every event whose clock is not 0 first triggers the tick boundary (consume, collide, end checks).
  - A power pill queues its fright expiry at clock 0, which makes it the next event popped.
- **Termination of `Game::run` is proved.** The measure is lexicographic:
  - first, the power pills left on the map;
  - second, the total distance of the pending events' clocks to the `END_OF_LIVES` clock.
  - While lives remain that timer is pending, every rescheduled move is later than the event that queued it, and only eating a power pill queues an event that is not.

## Model

| member | source | states |
|---|---|---|
| Basic.Ordinal | source/basic.hpp:4-10 | The enumerator values are UP=0, RIGHT=1, DOWN=2, LEFT=3, each value naming one direction. |
| Basic.FromOrdinal | source/ghost.cpp:254-257 | The cast of a register value below 4 gives the direction whose enumerator value it is. |
| Basic.OrdinalRoundTrip | source/ghost.cpp:252-283 | Reporting a direction's code (interrupt 6) and casting it back (interrupt 0) gives the same direction. |
| Basic.Move | source/basic.hpp:17-32 | `Position::move`: the neighbouring cell in a direction, with y growing downwards; its laws are `MoveIsUnitStep`, `MoveOpposite` and `MoveInjective`. |
| Basic.MoveIsUnitStep | source/basic.hpp:17-32 | A move changes exactly one coordinate, by exactly 1, and never stays in place; the vertical directions keep x. |
| Basic.MoveOpposite | source/basic.hpp:17-32 | Moving back in the opposite direction returns to the starting cell. |
| Basic.MoveInjective | source/basic.hpp:17-32 | The four directions lead from a cell to four different cells. |
| Basic.SameIsEquality | source/basic.hpp:35-38 | `==` holds exactly when both components are equal, that is, for equal positions. |
| Basic.DiffersIsNegation | source/basic.hpp:40-43 | `!=` is the negation of `==`. |
| Grid.IndexInRange | source/map.cpp:43-47 | An in-bounds cell's address x + y*width lies inside the data. |
| Grid.IndexInjective | source/map.cpp:43-53 | Two in-bounds cells with the same address are the same cell. |
| Grid.Map.Get | source/map.cpp:43-47 | `Map::get`: the glyph at a cell of the row-major grid, the same as `Grid.At` on the map's shape and cells, which `AtUpdate` relates to `Set`. |
| Grid.AtUpdate | source/map.cpp:49-53 | After a write to one cell, that cell reads back the new glyph and every other cell its old one. |
| Grid.Map.Set | source/map.cpp:49-53 | `set` replaces exactly the glyph of the given in-bounds cell; width and height stay. |
| Grid.Rows | source/map.cpp:16-24 | The loader skips empty lines, so none of the rows it keeps is empty. |
| Grid.ConcatLength | source/map.cpp:33-35 | Rows of one width w concatenate to height*w characters. |
| Grid.ConcatAt | source/map.cpp:16-36 | Cell (x, y) of the loaded grid is character x of the y-th non-empty line. |
| Grid.RowsPrefix | source/map.cpp:29-32 | A width mismatch among the lines read so far is a mismatch of the whole input, so failing at once is the loader's final verdict. |
| Grid.LoadShape | source/map.cpp:5-36 | Without validation, loading succeeds exactly when all non-empty lines have one width; then the grid is width*height cells, and width 0 means height 0. |
| Grid.Map.Init | source/map.cpp:5-41 | The loader's outcome is the mismatch error or else the validator's verdict (or success when unchecked); width is the first non-empty line's length, height the count of non-empty lines, data their concatenation. |
| Grid.Map.CopyFrom | source/game.cpp:78 | The snapshot `_originalMap = _map` has the live map's width, height and cells. |
| Grid.Map.CheckGlyphs | source/map.cpp:77-92 | The character check passes exactly when every cell is one of `# . o \ = %` or space. |
| Grid.Map.CheckEdges | source/map.cpp:94-111 | `missingEdge` ends true exactly when some cell of the first or last row or column is not a wall. |
| Grid.Map.HasOpenArea | source/map.cpp:113-123 | It finds an open area exactly when some 2x2 block with its corner at x in [1, width-2), y in [1, height-2) is four spaces. |
| Grid.Map.CountSpawns | source/map.cpp:125-146 | The three counters end as the number of `\`, `=` and `%` cells of the whole grid. |
| Grid.Map.Validate | source/map.cpp:65-162 | The validator's verdict is the first failing check in source order: width, height, glyphs, edges, open area, one lambda-man, at most 256 ghosts, one fruit. |
| Grid.UniqueGlyph | source/map.cpp:148-161 | A glyph counted exactly once occupies exactly one cell. |
| Grid.WalledInterior | source/map.cpp:94-111 | On a map that passes the edge check, every cell that is not a wall is strictly inside the ring. |
| Grid.WellFormedShape | source/map.cpp:65-162 | An accepted map is between 3x3 and 256x256, with a unique lambda-man cell and a unique fruit cell, both inside the wall ring. |
| Players.Stepped | source/player.cpp:13-23 | Where a player step from a cell in a direction ends: the neighbour unless it is a wall, else the same cell; `SteppedStaysInside` states both cases and that it never leaves a walled map. |
| Players.SteppedStaysInside | source/player.cpp:13-23 | A step lands on the neighbour exactly when it is not a wall and otherwise stays put; from inside a walled map it stays inside. |
| Players.Player.Init | source/player.cpp:3-11 | Start and current position become the spawn and the direction DOWN; the program is not read. |
| Players.Player.Step | source/player.cpp:13-23 | One step in the current direction unless the destination is a wall; direction and start position are unchanged. |
| Players.Player.Reset | source/player.cpp:25-28 | The player is back on its start position, which itself is unchanged. |
| GhostProgram.Wrap | source/ghost.cpp:62 | Conversion to `uint8_t` is congruent to the value modulo 256 and lies in 0..255. |
| GhostProgram.ParseOpcode | source/ghost.cpp:7-26 | `parseOpcode`: a mnemonic to its opcode, or `InvalidOpcode`; `ParseOpcodeExact` and `ParseOpcodeSound` give the exact set it accepts. |
| GhostProgram.ParseOpcodeExact | source/ghost.cpp:7-26 | `parseOpcode` accepts exactly the fifteen lowercase mnemonics, each for its own opcode, and fails on every other word. |
| GhostProgram.ParseMnemonic | source/ghost.cpp:9-23 | Each opcode's mnemonic parses to that opcode. |
| GhostProgram.ParseOpcodeSound | source/ghost.cpp:7-26 | A word the opcode parser accepts is the mnemonic of what it returns; its only error is the unknown opcode. |
| GhostProgram.ParseArgument | source/ghost.cpp:28-66 | `parseArgument`: an operand token to an operand, or `InvalidArgument` for a lone `[`; `ParseArgumentWellFormed` bounds its results and `ArgumentRoundTrip` inverts it. |
| GhostProgram.ParseArgumentWellFormed | source/ghost.cpp:28-66 | Parsed operands name one of the nine registers; an empty token is the constant 0; parsing fails exactly on a lone `[`, and a leading `[` is exactly what makes an operand indirect. |
| GhostProgram.AtoIDecimal | source/ghost.cpp:62 | `atoi` reads a decimal spelling back, whatever non-digit follows it. |
| GhostProgram.ArgumentRoundTrip | source/ghost.cpp:28-66 | Every well-formed operand's text parses back to that operand. |
| GhostProgram.StripComment | source/ghost.cpp:92-98 | The prepared line is the text before the first `;`, and no `;` is left in it. |
| GhostProgram.Normalize | source/ghost.cpp:100-109 | Every character is lowercased, and a comma becomes a space, position by position. |
| GhostProgram.Word | source/ghost.cpp:115 | A word taken by `>>` is the maximal run of non-space characters at the start. |
| GhostProgram.ParseLine | source/ghost.cpp:89-127 | One line of `compileProgram`: comment stripped, lower-cased, split at spaces and commas, then no instruction, one instruction, or the first parse error; `ParseLineRoundTrip` inverts it. |
| GhostProgram.Assemble | source/ghost.cpp:87-128 | `compileProgram`: the instructions of the lines in order, or the first line's error; `AssembleCount` and `AssembleListing` state what it keeps and that it inverts the listing. |
| GhostProgram.AssembleCount | source/ghost.cpp:87-128 | A line with no mnemonic adds no instruction and every other line adds exactly one well-formed instruction. |
| GhostProgram.ParseWordsRoundTrip | source/ghost.cpp:111-127 | A mnemonic and three operand texts are read as the instruction they spell. |
| GhostProgram.ParseLineRoundTrip | source/ghost.cpp:89-127 | The assembler reads any well-formed instruction's text line back as that instruction. |
| GhostProgram.AssembleListing | source/ghost.cpp:87-128 | Assembling the listing of any well-formed program gives that program back. |
| GhostCpu.Initial | source/ghost.cpp:73-84 | A loaded ghost has 9 zero registers, 255 zero data cells, and faces DOWN. |
| GhostCpu.Store | source/ghost.cpp:357-381 | A successful store keeps the register file and memory sizes and the direction. |
| GhostCpu.StoreFails | source/ghost.cpp:357-381 | A store fails exactly on a direct constant (rejected) or a data address of 255; it works exactly when the operand can be loaded and is not a constant. |
| GhostCpu.Load | source/ghost.cpp:340-355 | `Ghost::load`: a register, a data cell addressed by a register or a constant, or a literal; `LoadAfterStore` relates it to `Store`. |
| GhostCpu.LoadAfterStore | source/ghost.cpp:340-381 | Loading an operand right after storing to it gives the stored byte. |
| GhostCpu.StoreFrame | source/ghost.cpp:357-381 | An indirect store writes `data[reg[v]]` or `data[v]` and nothing else; a direct store writes one register and nothing else. |
| GhostCpu.Arith | source/ghost.cpp:188-217 | The arithmetic of `Ghost::execute` on bytes, wrapping modulo 256, with division by zero an error; `IncDecLaws`, `AddSubLaw`, `BitLaws` and `DivLaw` state it operation by operation. |
| GhostCpu.IncDecLaws | source/ghost.cpp:191-196 | INC and DEC are modulo 256: DEC undoes INC, 255+1 is 0 and 0-1 is 255. |
| GhostCpu.AddSubLaw | source/ghost.cpp:197-202 | SUB undoes ADD of the same operand, modulo 256. |
| GhostCpu.BitLaws | source/ghost.cpp:209-217 | XOR twice with the same operand gives the original byte; AND lies below both operands and below OR. |
| GhostCpu.DivLaw | source/ghost.cpp:206-208 | DIV is the unsigned quotient and is an error only on a zero divisor. |
| GhostCpu.Compute | source/ghost.cpp:188-217 | An arithmetic or move instruction keeps the machine's shape and never turns the ghost. |
| GhostCpu.GlyphCodeInjective | source/ghost.cpp:298-321 | Interrupt 7 gives the seven glyphs seven different codes. |
| GhostCpu.Interrupt | source/ghost.cpp:248-338 | An interrupt keeps the register file and memory sizes. |
| GhostCpu.InterruptFrame | source/ghost.cpp:248-338 | Only interrupts 0..8 exist; none writes PC, data memory or registers C..H, only interrupt 0 turns the ghost, and interrupts 2 (the absent second player) and 8 (the trace) change nothing. |
| GhostCpu.InterruptPositions | source/ghost.cpp:259-280 | Interrupts 1, 4 and 5 leave the x coordinate of the player, the spawn point or the ghost itself in A and its y in B whenever these are below 256, and change no other register, the data memory or the direction. |
| GhostCpu.InterruptTurn | source/ghost.cpp:252-258 | Interrupt 0 changes only the direction: to the one A codes when A < 4, and not at all otherwise. |
| GhostCpu.InterruptQueries | source/ghost.cpp:252-285 | Interrupt 6 reports the direction interrupt 0 set from A < 4 and the dead flag; interrupt 3 reports the ghost's number. |
| GhostCpu.SquareQuery | source/ghost.cpp:286-325 | Interrupt 7 writes the original map's glyph code at (A, B) into A, and 0 (wall) beyond the map. |
| GhostCpu.Exec | source/ghost.cpp:183-244 | One fetched instruction keeps the machine's shape. |
| GhostCpu.Run | source/ghost.cpp:177-246 | A run keeps the machine's shape. |
| GhostCpu.ExecHalts | source/ghost.cpp:239-240 | Exactly an HLT at PC halts. |
| GhostCpu.ExecNextPc | source/ghost.cpp:183-243 | After any instruction but HLT, PC is the first operand of a taken jump, otherwise PC+1 modulo 256, so a store into PC is overwritten. |
| GhostCpu.ExecArith | source/ghost.cpp:188-243 | An arithmetic instruction into a register other than PC leaves its result there and changes no register but it and PC, no memory and no direction. |
| GhostCpu.ComputeIntoRegister | source/ghost.cpp:188-217 | An arithmetic instruction with a register destination writes exactly that register. |
| GhostCpu.HaltIsSticky | source/ghost.cpp:239-240 | PC stays on an HLT, so every later run, whatever its budget, leaves the machine unchanged. |
| GhostCpu.FixedPointRun | source/ghost.cpp:181-245 | An instruction that leads back to the same machine spins out the whole budget without changing anything. |
| Ghosts.Candidates | source/ghost.cpp:135-142 | The step tries five directions, the current one first. |
| Ghosts.FirstOpen | source/ghost.cpp:144-154 | The loop over candidate directions in `Ghost::step`: the first whose neighbour is not a wall; `FirstOpenIsFirst` characterises it. |
| Ghosts.FirstOpenIsFirst | source/ghost.cpp:144-154 | The chosen direction is the first candidate whose destination is not a wall; there is none exactly when every candidate is blocked. |
| Ghosts.TurnChoice | source/ghost.cpp:135-154 | On a walled map, a ghost keeps its direction when that way is open, finds a way unless all four are walls, and never leaves the interior. |
| Ghosts.AssembleLines | source/ghost.cpp:87-128 | The loading loop gives the pure assembler's result, stopping at the first failing line. |
| Ghosts.ReadLine | source/ghost.cpp:89-127 | The line body drops the comment, normalizes in place, splits off the words and parses, as `ParseLine` specifies. |
| Ghosts.ResumeStep | source/ghost.cpp:117-127 | Each line fails the load with its error, is skipped when it has no mnemonic, or appends its one instruction. |
| Ghosts.Ghost.constructor | source/game.cpp:105 | A value-initialised ghost is visible and not dead, with nothing loaded. |
| Ghosts.Ghost.Init | source/ghost.cpp:68-129 | Number and spawn are set, facing DOWN and alive, with a zeroed machine; the program is the assembled one, or loading fails with the assembler's error. |
| Ghosts.Ghost.Store | source/ghost.cpp:357-381 | The ghost's machine becomes what `GhostCpu.Store` gives, or is unchanged on failure; no other field changes. |
| Ghosts.Ghost.HandleInterrupt | source/ghost.cpp:248-338 | The machine becomes what `GhostCpu.Interrupt` gives, or the error for an unknown interrupt; position and the rest stay. |
| Ghosts.Ghost.Run | source/ghost.cpp:177-246 | The resulting machine is `GhostCpu.Run` with 1024 steps of budget, or its error; no other field changes. |
| Ghosts.Ghost.Cycle | source/ghost.cpp:183-244 | One loop iteration does what `GhostCpu.Exec` says: error, halt with nothing changed, or the next machine. |
| Ghosts.Ghost.Execute | source/ghost.cpp:188-217 | The arithmetic and move cases load, compute and store as `GhostCpu.Compute` does. |
| Ghosts.Ghost.Moved | source/ghost.cpp:133-154 | Where a step leaves a ghost after its program: the run's registers and memory, then the move towards the first open candidate, or staying put. |
| Ghosts.Ghost.Step | source/ghost.cpp:131-155 | The program runs from the ghost's machine and view; on an error that error is the result, otherwise the ghost ends `Moved`: with the run's registers and memory, facing and one cell along the first candidate of the run's direction whose neighbour on the live map is not a wall, or facing the run's direction where it stood when all five are walls; spawn, number, flags and code stay, and inside a walled map it stays inside. |
| Ghosts.Ghost.Turn | source/ghost.cpp:135-154 | The movement loop adopts the first candidate that is not a wall, position and direction together, or changes nothing. |
| Ghosts.Ghost.Reset | source/ghost.cpp:157-160 | Only the position changes, back to the spawn. |
| Ghosts.Ghost.Kill | source/ghost.cpp:162-165 | Only the dead flag changes, to true. |
| Ghosts.Ghost.SetInvisible | source/game.cpp:243-258 | Only the invisible flag changes. |
| Events.Rank | source/game.hpp:15-24 | Event kinds have the enumerator values 0..5 in declaration order. |
| Events.RankInjective | source/game.hpp:15-24 | Different event kinds have different ranks. |
| Events.Later | source/game.cpp:5-31 | `EventComparer`: whether an event pops after another; `LaterIsReversedPrecedes` and `LaterStrictTotal` make it a strict total order. |
| Events.LaterIsReversedPrecedes | source/game.cpp:5-31 | `EventComparer` orders events exactly as the lexicographic order on (clock, kind, argument), reversed. |
| Events.LaterStrictTotal | source/game.cpp:5-31 | The comparer is irreflexive, asymmetric, transitive and total on different events. |
| Events.WithoutContents | source/game.cpp:132-134 | Popping removes exactly one copy of the popped event and keeps every other pending event. |
| GameRules.FruitValue | source/game.cpp:43-67 | `getFruitValue`: the fruit's points by level; `FruitValueMonotone` bounds it and orders it by level. |
| GameRules.FruitValueMonotone | source/game.cpp:43-67 | Fruit is worth 100 to 5000 points, 100 up to level 1 and 5000 from level 13, and never less on a higher level. |
| GameRules.LevelBounds | source/game.cpp:317-320 | The level is 1 plus the number of whole hundreds in the map's area. |
| GameRules.BountyLadder | source/game.cpp:219-248 | From 200 the bounty climbs 200, 400, 800, 1600 and stays at 1600. |
| GameRules.BountyTotalBound | source/game.cpp:247-248 | From a bounty on the ladder it stays on the ladder, and n ghosts score between n times the bounty and n*1600. |
| GameRules.PlayerDelay | source/game.cpp:266-273 | The ticks before the player's next move: 127, plus 10 while eating; bounded by `DelaysPositive`. |
| GameRules.GhostDelay | source/game.cpp:275-291 | The ticks before ghost i's next move: 130 + 2(i mod 4), or 195 + 3(i mod 4) in fright mode; bounded by `DelaysPositive`. |
| GameRules.DelaysPositive | source/game.cpp:266-291 | The player's delay is 127, or 137 while eating; a ghost's is 130..136, or 195..204 under fright, always slower under fright, and periodic in the ghost number by 4. |
| GameRules.PillCountZero | source/game.cpp:322-340 | No pills remain exactly when no cell is `.` or `o`. |
| GameRules.PowerPillsPut | source/game.cpp:210-226 | Blanking a cell removes a power pill exactly when the cell held one. |
| GameRules.WalledPut | source/game.cpp:162-167 | Writing an interior cell keeps the wall ring. |
| GameRules.EatenOnce | source/game.cpp:206-227 | Eating scores exactly when the cell holds a pill, power pill or fruit, the cell then becomes floor, and eating it again scores nothing. |
| GameRules.Respawned | source/game.cpp:253-259 | Every ghost is put back on its spawn, visible. |
| GameRules.Revealed | source/game.cpp:168-173 | Every ghost is visible again where it stands. |
| GameRules.CollideFrom | source/game.cpp:231-263 | The loop of `Game::collide` from ghost i onwards, on values; `Games.Game.CollideNext` ties each step to the method. |
| GameRules.Collision | source/game.cpp:229-264 | `Game::collide` on values, over all ghosts; `CollisionUnderFright` and `CollisionWithoutFright` state its outcome. |
| GameRules.CollisionUnderFright | source/game.cpp:229-249 | Under fright, exactly the visible ghosts on the player's cell are hidden and sent home; the score grows by the bounty ladder's total over them and the bounty advances once per ghost; player and lives are untouched, and nothing is eaten exactly when no ghost meets the player. |
| GameRules.CollisionWithoutFright | source/game.cpp:229-264 | Without fright, when no ghost spawns on the player's start: if a visible ghost is on the player's cell the result is one catch (player and every ghost home, all visible, one life less), otherwise nothing changes. |
| Games.EarliestIndex | source/game.cpp:132-134 | The index found holds an event that no pending event precedes: the heap's front. |
| Games.RescheduledWeight | source/game.cpp:174-181 | Rescheduling keeps every pending event and adds less distance to the end timer than the popped event took away. |
| Games.Blank | source/game.cpp:85-117 | The scan turns every spawn glyph to floor and leaves every other cell alone. |
| Games.WalledBlank | source/game.cpp:85-117 | Blanking the spawns keeps the wall ring. |
| Games.SpawnEventsShape | source/game.cpp:92-110 | The scan queues only the player's move at 137 and, for ghost n of those it created, its move at its delay outside fright mode, 130 + 2*(n%4); no fright expiry. |
| Games.PassedStep | source/game.cpp:89-115 | Each scanned cell blanks its spawn glyph, queues its move, counts its ghost and places the player or fruit. |
| Games.SpawnPlayer | source/game.cpp:92-99 | The player starts on its spawn facing DOWN, its first move is queued at 137 because the spawn glyph is still there, and then the cell becomes floor. |
| Games.SpawnGhost | source/game.cpp:100-110 | A new ghost with the next number starts on its spawn with its program; if that assembles, its first move is queued and the cell becomes floor. |
| Games.ScanPlayerCell | source/game.cpp:92-99 | The lambda-man cell advances the scan's state by one cell. |
| Games.ScanGhostCell | source/game.cpp:100-110 | A ghost cell advances the scan, or stops it with the first failing program's error. |
| Games.ScanOtherCell | source/game.cpp:111-115 | The fruit cell records the fruit's place and becomes floor; any other cell is left alone. |
| Games.SpawnCell | source/game.cpp:89-115 | One cell of the scan, dispatched on its glyph. |
| Games.ScanRow | source/game.cpp:87-116 | One row of the scan, cell by cell from the left. |
| Games.ScanStart | source/game.cpp:85 | Before the scan nothing is passed, and the spawns are where the accepted grid has them. |
| Games.Scan | source/game.cpp:85-117 | The scan ends with every cell passed, or with the first failing ghost program's error. |
| Games.Timers | source/game.cpp:119-123 | After the scan, END_OF_LIVES at 127*w*h*16 and the four fruit timers are queued, none a ghost move or fright expiry. |
| Games.OpeningEventsShape | source/game.cpp:85-123 | The opening queue holds the end timer, names only existing ghosts, and has no fright expiry. |
| Games.ScanFailure | source/game.cpp:100-110 | A program failing at a ghost cell is the first failure among all the grid's ghosts in scan order. |
| Games.Open | source/game.cpp:78-123 | The game holds the snapshot, the blanked map, the placed player and fruit, one ghost per ghost cell, and the opening queue. |
| Games.Build | source/game.cpp:78-123 | After an accepted load, it succeeds exactly when every ghost's program (assigned cyclically) assembles, and then opens the game. |
| Games.Setup | source/game.cpp:69-124 | `Game::init` fails with the map error, or with the first failing ghost program's error; otherwise it opens with 3 lives, score 0, spawns blanked, and the opening queue. |
| Events.FrightPending | source/game.cpp:304-315 | Fright mode as a property of the pending events: some fright expiry is queued; `Games.Game.FrightMode` computes it. |
| Games.Game.FrightMode | source/game.cpp:304-315 | Fright mode is on exactly when a fright expiry is pending. |
| Games.Game.Eating | source/game.cpp:299-302 | `Game::eating`: the player stands on a cell that is not floor; it chooses between the two player delays of `GameRules.PlayerDelay`. |
| Games.Game.Level | source/game.cpp:317-320 | `level()` is `GameRules.Level` of the map's shape, at least 1. |
| Games.Game.RemainingPills | source/game.cpp:322-340 | The row-by-row count equals the number of `.` and `o` cells on the live map. |
| Games.Game.QueueEvent | source/game.cpp:293-297 | Exactly one event is added and nothing else changes. |
| Games.Game.QueuePlayerMove | source/game.cpp:266-273 | The next player move is queued 127 ticks later, 10 more while the player's cell is not floor. |
| Games.Game.QueueGhostMove | source/game.cpp:275-291 | The ghost's next move is queued after its delay in the current mode. |
| Games.Game.PopEvent | source/game.cpp:132-134 | One earliest pending event is removed and returned, and nothing else changes. |
| Games.Game.Consume | source/game.cpp:206-227 | The player's cell is eaten and scored; a power pill also sets the bounty to 200 and queues one fright expiry at the given clock. |
| Games.Game.ResetGhosts | source/game.cpp:255-259 | Every ghost is visible and on its spawn; nothing else about them changes. |
| Games.Game.RevealGhosts | source/game.cpp:168-173 | Every ghost is visible, where it stands; nothing else about them changes. |
| Games.Game.EatGhost | source/game.cpp:243-249 | The game's board becomes `GameRules.Eat` of the old board for that ghost. Every ghost keeps its number, spawn, liveness, program and machine. |
| Games.Game.CatchPlayer | source/game.cpp:250-262 | The board becomes `GameRules.Catch` of the old board, and no ghost is left on the player's cell. Every ghost keeps its number, spawn, liveness, program and machine. |
| Games.Game.CollideWith | source/game.cpp:233-262 | One ghost of the loop: skipped unless visible and on the player's cell, else eaten under fright or catching the player. Every ghost keeps its number, spawn, liveness, program and machine. |
| Games.Game.CollideNext | source/game.cpp:231-263 | After one more ghost, the rest of the loop still leads to the collision rule's result. |
| Games.Game.Collide | source/game.cpp:229-264 | `collide` leaves the board `GameRules.Collision` gives for the current fright mode, and no event changes. Every ghost keeps its number, spawn, liveness, program and machine. |
| Games.Game.MovePlayer | source/game.cpp:174-177 | The player steps on the live map, and its next move is queued after the delay of the cell it reached. |
| Games.Game.MoveGhost | source/game.cpp:178-181 | The ghost takes the step `Ghost.Step` describes (`GhostStepped`: the program's error, or its machine and the move from the old position on the live map); after a success exactly its next move is queued after its delay in the current mode; a faulting program queues nothing; the ghost keeps its spawn and visibility and the game stays consistent. |
| Games.FollowUp | source/game.cpp:174-181 | What firing an event queues: something exactly for a player or ghost move, then one event of the same kind, later than the fired one; no other kind queues anything. |
| Games.Game.Fired | source/game.cpp:157-182 | The `switch` of `Game::run` as a relation between the game after an event and its map, board and queue before it, case by case. |
| Games.Game.Fire | source/game.cpp:157-182 | END_OF_LIVES sets lives to 0. FRUIT_APPEARS and FRUIT_EXPIRES put `%` and floor on the fruit cell; no other event changes the map. FRIGHT_MODE_EXPIRES makes every ghost visible where it stands. PLAYER_MOVES takes one `step` and queues exactly the next player move at `PlayerDelay(eating())`. GHOST_MOVES takes its ghost's step (`GhostStepped`) and, unless the program faults, queues exactly that ghost's next move at `GhostDelay` in the fright mode before the event; every other kind queues nothing. The player moves only on PLAYER_MOVES; the ghosts are untouched except by FRIGHT_MODE_EXPIRES and by a ghost move, which leaves every other ghost untouched. Only a ghost move can fault; score and bounty stay; all of it is `Fired`. |
| Games.Game.FireTimer | source/game.cpp:159-172 | The four timer kinds: the lives, fruit-cell and visibility changes of `Fire`, no queued event, and `Fired`. |
| Games.Game.EndLives | source/game.cpp:159-161 | END_OF_LIVES: lives become 0 and nothing else changes (`Fired`). |
| Games.Game.PlaceFruit | source/game.cpp:162-167 | The fruit timers: the fruit's cell gets `%` or floor, no power pill appears and nothing else changes (`Fired`). |
| Games.Game.EndFright | source/game.cpp:168-173 | FRIGHT_MODE_EXPIRES: every ghost visible where it stands, with its machine kept, and nothing else changes (`Fired`). |
| Games.Game.FireMove | source/game.cpp:174-181 | The two mover kinds: the player's step or `GhostStepped`, exactly the `FollowUp` move queued on success, nothing on a fault, the other movers untouched, and `Fired`. |
| Games.Game.Award | source/game.cpp:148-153 | Clearing the board multiplies the score by the lives left plus one; lives, events and bounty stay. |
| Games.Ticked | source/game.cpp:136-155 | The tick boundary on values: eat the player's cell, collide in the resulting fright mode, then stop without lives, stop with the clearing bonus without pills, or go on. |
| Games.Game.Tick | source/game.cpp:136-139 | `consume` then `collide`: the map gets the player's cell eaten, the board becomes the collision of the fed board in the fright mode after eating, and only a power pill queues an event. Every ghost keeps its number, spawn, liveness, program and machine. |
| Games.Game.Conclude | source/game.cpp:143-154 | OutOfLives exactly when no lives are left, Cleared exactly when lives are left and no pills, with the score multiplied by the lives left plus one; nothing otherwise, and nothing else changes. |
| Games.Game.Settle | source/game.cpp:136-155 | The tick boundary as `Ticked` states it: the map gets the player's cell eaten; the board becomes `GameRules.Collision` of the board with the cell's reward scored (and the bounty reset by a power pill), in fright mode if it was on or the cell was a power pill; the result is OutOfLives exactly when no lives are left, Cleared exactly when lives are left and no pills, and then the score is multiplied by the lives left plus one, and nothing otherwise; only a power pill, which leaves the map, queues anything: one fright expiry at the given clock. The queue gains exactly one fright expiry when the player's cell held a power pill and nothing otherwise. Every ghost keeps its number, spawn, liveness, program and machine. |
| Games.Game.PopDue | source/game.cpp:132-134 | The popped event is the pending event at some index k, earliest of all pending ones, and the queue loses exactly it; while lives remain it fires no later than the end timer, which stays pending unless popped. |
| Games.Game.Boundary | source/game.cpp:136-155 | When the event's clock is new, exactly the tick boundary of `Settle`; otherwise nothing changes and the game goes on. The queue gains exactly one fright expiry when the player's cell held a power pill and nothing otherwise. Every ghost keeps its number, spawn, liveness, program and machine. |
| Games.Game.Handle | source/game.cpp:157-182 | Exactly `Fire`'s effect (`Fired`, `GhostStepped`, every ghost but the mover keeping its machine), for an event no later than the end timer; a success keeps the end timer pending, never adds a power pill, and leaves the pending events' distance to the end timer below its old value plus the fired event's. |
| Games.Game.Advance | source/game.cpp:136-182 | The pass after the pop: `Boundary`, then `Handle` unless the boundary stops the game, with the effect of both stated on the state after the pop. |
| Games.Game.Round | source/game.cpp:130-183 | The event handled is the earliest pending one, at index k. The tick boundary runs, with `Ticked`'s effect on map and board, exactly when its clock differs from `lastClock`, in the fright mode of the queue after the pop. A stop at the boundary leaves its map and board. Otherwise the event fires on the boundary's state (`Fired`): from its map and board, and from the queue without the popped event plus the boundary's fright expiry when a power pill was eaten. A ghost move runs that ghost's program from its machine at the start of the pass, seeing its position and the player's after the boundary. Every other ghost keeps its machine. Unless the game stops, it stays timed and the termination measure falls. |
| Games.Game.Run | source/game.cpp:126-184 | The loop always ends: with no lives, or with no pills left and lives remaining, or at a program fault. |

## Left out

- Stream and file I/O: the map, the player program and the ghost programs are given as sequences of lines. The `bad input stream` checks of `Map::init` and `Ghost::init` are not modelled.
- `main.cpp` is not part of this model: argument parsing and the mapping from exceptions to exit codes. The requirement of at least one ghost program, which it enforces, becomes a precondition of `Games.Setup`.
- `Game::dump`, `getchar()` and the register dump of interrupt 8 are console output; interrupt 8 is a no-op here.
- Games.Game.Run: does not model 32-bit `int` overflow of clocks or the score; clocks, score and lives are unbounded integers (the end timer of a 256x256 map is under 2^31, but nothing else bounds the score).
- Games.Game.PopEvent: the heap is a sequence, and the event popped is the earliest by the comparer; the heap's internal layout is not modelled.
- Games.Setup: `Game::init` throws midway and leaves a half-built game; here it is a factory that returns an error and no game.
- Games.Setup: models the build without NDEBUG, where the validator runs (`Map.Init(lines, true)`); `Grid.Map.Init` itself models both builds.
- Games.Setup: does not state the player's direction, which is DOWN from `Players.Player.Init`.
- `_ghostValue` is uninitialised in the C++; the model starts it at 0, and `Games.Game.EventsValid` shows it is on the bounty ladder whenever fright mode can read it.
- The game owns its maps, player and ghosts; the model keeps references to objects that only the game changes, and the ghosts' activations receive the player's position and the original map.
- The player's program text is not read, as in player.cpp.
- The getters `width()`, `height()`, `position()`, `dead()`, `originalMap()`, `map()`, `player()` and `ghost()` are field reads.
- `Map::get` and `Map::set` guard their bounds only by `assert`; here this is a precondition, which every caller meets.
- Undefined behaviour of the ghost machine is an error result and stops the game (`Faulted`): a PC past the program, data address 255, and division by zero. The exceptions for a constant store destination and an unknown interrupt stop it the same way.
- `atoi` on a literal too large for `int` is undefined in C; the model reads any number of digits.
- Every value the VM computes is stored into a `uint8_t` in the source and so wraps modulo 256; the model writes that wrap out as `Wrap`.
- Map and program lines are read as byte strings in the source, so `Map::init`'s width check counts bytes and `tolower` sees bytes. The model takes each line as a sequence of characters, one per byte, and so assumes every character is a single byte below 256. A line holding a multi-byte character, with the same number of characters as the first row but more bytes, fails as `mismatched map width` in the source and as `InvalidCharacter` here.
