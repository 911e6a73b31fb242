/** A ghost: its program, its virtual machine state and its movement rule (ghost.cpp). */
module Ghosts {
  import opened Wrappers
  import opened Basic
  import opened Grid
  import opened GhostProgram
  import opened GhostCpu

  /** The order in which `Ghost::step` tries directions: the current one first, then up, right, down, left. */
  function Candidates(d: Direction): (ds: seq<Direction>)
    ensures |ds| == 5 && ds[0] == d
  {
    [d, Up, Right, Down, Left]
  }

  /** Whether the neighbour of `p` in direction `d` is free of walls. */
  predicate Open(width: int, height: int, data: seq<char>, p: Position, d: Direction)
    requires |data| == width * height && Interior(width, height, p)
  {
    At(width, height, data, Move(p, d)) != '#'
  }

  /** The first candidate direction whose neighbouring cell is not a wall. */
  function FirstOpen(width: int, height: int, data: seq<char>, p: Position, ds: seq<Direction>): Option<Direction>
    requires |data| == width * height && Interior(width, height, p)
  {
    if ds == [] then None
    else if Open(width, height, data, p, ds[0]) then Some(ds[0])
    else FirstOpen(width, height, data, p, ds[1..])
  }

  /**
   * The chosen direction is the candidate at the first index whose cell is open: every earlier
   * candidate is blocked; no choice means every candidate is blocked.
   */
  lemma {:induction false} FirstOpenIsFirst(width: int, height: int, data: seq<char>, p: Position, ds: seq<Direction>)
    requires |data| == width * height && Interior(width, height, p)
    ensures FirstOpen(width, height, data, p, ds).None? <==>
      forall i :: 0 <= i < |ds| ==> !Open(width, height, data, p, ds[i])
    ensures FirstOpen(width, height, data, p, ds).Some? ==>
      exists k :: 0 <= k < |ds| && ds[k] == FirstOpen(width, height, data, p, ds).value &&
        Open(width, height, data, p, ds[k]) &&
        forall i :: 0 <= i < k ==> !Open(width, height, data, p, ds[i])
  {
    if ds != [] && !Open(width, height, data, p, ds[0]) {
      FirstOpenIsFirst(width, height, data, p, ds[1..]);
      var r := FirstOpen(width, height, data, p, ds[1..]);
      if r.Some? {
        var k :| 0 <= k < |ds[1..]| && ds[1..][k] == r.value && Open(width, height, data, p, ds[1..][k]) &&
          forall i :: 0 <= i < k ==> !Open(width, height, data, p, ds[1..][i]);
        assert ds[k + 1] == r.value;
        assert forall i :: 1 <= i < k + 1 ==> ds[i] == ds[1..][i - 1];
      } else {
        assert forall i :: 1 <= i < |ds| ==> ds[i] == ds[1..][i - 1];
      }
    }
  }

  /** A ghost in a corridor always finds a way, keeps going straight when it can, and never enters a wall. */
  lemma TurnChoice(width: int, height: int, data: seq<char>, p: Position, d: Direction)
    requires |data| == width * height && (width == 0 <==> height == 0)
    requires Interior(width, height, p) && Walled(width, height, data)
    ensures Open(width, height, data, p, d) ==> FirstOpen(width, height, data, p, Candidates(d)) == Some(d)
    ensures FirstOpen(width, height, data, p, Candidates(d)).None? <==>
      forall e: Direction :: !Open(width, height, data, p, e)
    ensures FirstOpen(width, height, data, p, Candidates(d)).Some? ==>
      var e := FirstOpen(width, height, data, p, Candidates(d)).value;
      Open(width, height, data, p, e) && Interior(width, height, Move(p, e))
  {
    var ds := Candidates(d);
    FirstOpenIsFirst(width, height, data, p, ds);
    if FirstOpen(width, height, data, p, ds).None? {
      forall e: Direction ensures !Open(width, height, data, p, e) {
        assert e == ds[1] || e == ds[2] || e == ds[3] || e == ds[4];
      }
    } else {
      var e := FirstOpen(width, height, data, p, ds).value;
      InteriorNeighbour(width, height, p, e);
      WalledInterior(width, height, data, Move(p, e));
    }
  }

  class Ghost {
    var index: int
    var startPosition: Position
    var position: Position
    var direction: Direction
    var dead: bool
    /** Hidden after being eaten under fright mode; set and cleared by the game. */
    var invisible: bool
    var registers: seq<Byte>
    var data: seq<Byte>
    var code: seq<Instruction>

    ghost predicate Valid()
      reads this
    {
      |registers| == RegisterCount && |data| == DataSize && WellFormedCode(code)
    }

    /** The part of the ghost its program changes. */
    function State(): Machine
      reads this
    {
      GhostCpu.Machine(registers, data, direction)
    }

    /** The part of the ghost a run of its program leaves alone. */
    function Frame(): (int, Position, Position, bool, bool, seq<Instruction>)
      reads this
    {
      (index, startPosition, position, dead, invisible, code)
    }

    /** What the program can read: this ghost's facts, the player's position and the original map. */
    function View(player: Position, original: Map): Env
      reads this, original
    {
      Env(index, startPosition, position, dead, player, original.width, original.height, original.data)
    }

    /**
     * Where `Ghost::step` leaves a ghost that stood at `p` and whose program finished in `n`: with
     * the program's registers and memory, facing and one cell along the first candidate of `n`'s
     * direction open on the live map `live`, or facing `n`'s direction at `p` when all are blocked.
     */
    ghost predicate Moved(p: Position, n: Machine, width: int, height: int, live: seq<char>)
      requires |live| == width * height && Interior(width, height, p)
      reads this
    {
      && registers == n.registers && data == n.data
      && match FirstOpen(width, height, live, p, Candidates(n.direction))
        case Some(d) => direction == d && position == Move(p, d)
        case None => direction == n.direction && position == p
    }

    /** A value-initialised ghost (`emplace_back()`): everything zero or empty, visible. */
    constructor ()
      ensures index == 0 && !dead && !invisible && registers == [] && data == [] && code == []
    {
      index, startPosition, position, direction := 0, Position(0, 0), Position(0, 0), Up;
      dead, invisible := false, false;
      registers, data, code := [], [], [];
    }

    /**
     * `Ghost::init`: the ghost's number and spawn, facing down and alive, zeroed registers and
     * memory, and the program assembled line by line.
     */
    method Init(ghostNum: int, pos: Position, program: seq<string>) returns (r: Outcome<LoadError>)
      modifies this
      ensures index == ghostNum && startPosition == pos && position == pos && direction == Down && !dead
      ensures invisible == old(invisible)
      ensures State() == Initial()
      ensures r == (if Assemble(program).Ok? then Pass else Fail(Assemble(program).error))
      ensures r.Pass? ==> Valid() && code == Assemble(program).value
    {
      index, startPosition, position, direction, dead := ghostNum, pos, pos, Down, false;
      registers := Initial().registers;
      data := Initial().data;
      code := [];
      var assembled := AssembleLines(program);
      if assembled.Err? {
        return Fail(assembled.error);
      }
      AssembleCount(program);
      code := assembled.value;
      return Pass;
    }

    /**
     * `Ghost::store`: the machine after `GhostCpu.Store`; on failure (a constant destination or
     * address 255) nothing changes.
     */
    method Store(a: Argument, v: Byte) returns (r: Outcome<VmError>)
      requires Valid() && WellFormedArgument(a)
      modifies this
      ensures Valid() && Frame() == old(Frame())
      ensures var s := GhostCpu.Store(old(State()), a, v);
        if s.Ok? then r == Pass && State() == s.value else r == Fail(s.error) && State() == old(State())
    {
      if a.isIndirect {
        var address := if a.isRegister then registers[a.value] else a.value;
        if address >= DataSize {
          return Fail(BadDataAddress);
        }
        data := data[address := v];
      } else {
        if a.isRegister {
          registers := registers[a.value := v];
        } else {
          return Fail(StoreToConstant);
        }
      }
      return Pass;
    }

    /** `Ghost::handleInterrupt`: the machine after `GhostCpu.Interrupt`. */
    method HandleInterrupt(player: Position, original: Map, num: Byte) returns (r: Outcome<VmError>)
      requires Valid() && original.Valid()
      modifies this
      ensures Valid() && Frame() == old(Frame())
      ensures var s := Interrupt(old(State()), num, View(player, original));
        if s.Ok? then r == Pass && State() == s.value else r == Fail(s.error) && State() == old(State())
    {
      if num == 0 {
        if registers[1] < 4 {
          direction := FromOrdinal(registers[1]);
        }
      } else if num == 1 {
        registers := registers[1 := Wrap(player.x)][2 := Wrap(player.y)];
      } else if num == 2 {
      } else if num == 3 {
        registers := registers[1 := Wrap(index)];
      } else if num == 4 {
        registers := registers[1 := Wrap(startPosition.x)][2 := Wrap(startPosition.y)];
      } else if num == 5 {
        registers := registers[1 := Wrap(position.x)][2 := Wrap(position.y)];
      } else if num == 6 {
        registers := registers[1 := Ordinal(direction)][2 := if dead then 1 else 0];
      } else if num == 7 {
        var pos := Position(registers[1], registers[2]);
        var ch := '#';
        if pos.x < original.width && pos.y < original.height {
          ch := original.Get(pos);
        }
        registers := registers[1 := GlyphCode(ch)];
      } else if num == 8 {
      } else {
        return Fail(UnknownInterrupt(num));
      }
      return Pass;
    }

    /**
     * `Ghost::run`: at most 1024 instructions, stopping early at HLT; the resulting machine is
     * the one `GhostCpu.Run` computes, or the error it reports.
     */
    method Run(player: Position, original: Map) returns (r: Outcome<VmError>)
      requires Valid() && original.Valid()
      modifies this
      ensures Valid() && Frame() == old(Frame())
      ensures var s := GhostCpu.Run(old(State()), code, View(player, original), MaxInstrCount);
        if s.Ok? then r == Pass && State() == s.value else r == Fail(s.error)
    {
      ghost var env := View(player, original);
      var stepCount := 0;
      while stepCount < MaxInstrCount
        invariant 0 <= stepCount <= MaxInstrCount
        invariant Valid() && Frame() == old(Frame()) && View(player, original) == env
        invariant GhostCpu.Run(old(State()), code, env, MaxInstrCount) ==
          GhostCpu.Run(State(), code, env, MaxInstrCount - stepCount)
      {
        var t := Cycle(player, original);
        if t.Err? {
          return Fail(t.error);
        }
        if t.value {
          return Pass;
        }
        stepCount := stepCount + 1;
      }
      return Pass;
    }

    /**
     * One iteration of `Ghost::run`'s loop: fetch, decode and execute the instruction at PC, then
     * write the next PC; the result says whether it was HLT.
     */
    method Cycle(player: Position, original: Map) returns (r: Result<bool, VmError>)
      requires Valid() && original.Valid()
      modifies this
      ensures Valid() && Frame() == old(Frame())
      ensures var x := Exec(old(State()), code, View(player, original));
        match x
        case Err(e) => r == Err(e)
        case Ok(Halt) => r == Ok(true) && State() == old(State())
        case Ok(Continue(n)) => r == Ok(false) && State() == n
    {
      ghost var m, env := State(), View(player, original);
      var nextPc := registers[0];
      if nextPc as int >= |code| {
        return Err(PcOutOfRange);
      }
      var instr := code[nextPc];
      nextPc := Wrap(nextPc as int + 1);
      assert WellFormedInstruction(instr);
      if instr.opcode == HLT {
        return Ok(true);
      } else if IsJump(instr.opcode) {
        var x := Load(State(), instr.arg2);
        var y := Load(State(), instr.arg3);
        if x.Err? {
          return Err(x.error);
        }
        if y.Err? {
          return Err(y.error);
        }
        if Taken(instr.opcode, x.value, y.value) {
          var target := Load(State(), instr.arg1);
          if target.Err? {
            return Err(target.error);
          }
          nextPc := target.value;
        }
      } else if instr.opcode == INT {
        var num := Load(State(), instr.arg1);
        if num.Err? {
          return Err(num.error);
        }
        var s := HandleInterrupt(player, original, num.value);
        if s.Fail? {
          return Err(s.error);
        }
        assert Interrupt(m, num.value, env) == Ok(State());
      } else {
        var s := Execute(instr);
        if s.Fail? {
          return Err(s.error);
        }
        assert Compute(m, instr) == Ok(State());
      }
      registers := registers[0 := nextPc];
      assert Exec(m, code, env) == Ok(Continue(State()));
      return Ok(false);
    }

    /** The arithmetic and move cases of `Ghost::run`'s switch: load the operands, store the result. */
    method Execute(instr: Instruction) returns (r: Outcome<VmError>)
      requires Valid() && WellFormedInstruction(instr) && IsArith(instr.opcode)
      modifies this
      ensures Valid() && Frame() == old(Frame())
      ensures var s := Compute(old(State()), instr);
        if s.Ok? then r == Pass && State() == s.value else r == Fail(s.error)
    {
      var x := Load(State(), instr.arg1);
      var y := Load(State(), instr.arg2);
      var v: Byte;
      if instr.opcode == MOV {
        if y.Err? {
          return Fail(y.error);
        }
        v := y.value;
      } else {
        if x.Err? {
          return Fail(x.error);
        }
        if instr.opcode == INC || instr.opcode == DEC {
          v := Arith(instr.opcode, x.value, 0).value;
        } else {
          if y.Err? {
            return Fail(y.error);
          }
          var result := Arith(instr.opcode, x.value, y.value);
          if result.Err? {
            return Fail(result.error);
          }
          v := result.value;
        }
      }
      r := Store(instr.arg1, v);
    }

    /**
     * `Ghost::step`: run the program, then move to the first candidate neighbour that is not a
     * wall of the live map and face that way; when every candidate is blocked, stay put.
     */
    method Step(player: Position, original: Map, live: Map) returns (r: Outcome<VmError>)
      requires Valid() && original.Valid() && live.Valid()
      requires Interior(live.width, live.height, position)
      modifies this
      ensures Valid() && index == old(index) && startPosition == old(startPosition)
      ensures dead == old(dead) && invisible == old(invisible) && code == old(code)
      ensures var s := GhostCpu.Run(old(State()), code, old(View(player, original)), MaxInstrCount);
        if s.Err? then r == Fail(s.error)
        else r == Pass && Moved(old(position), s.value, live.width, live.height, live.data)
      ensures Walled(live.width, live.height, live.data) ==> Interior(live.width, live.height, position)
    {
      r := Run(player, original);
      if r.Fail? {
        return;
      }
      Turn(live);
    }

    /**
     * The movement half of `Ghost::step`: face and move towards the first open candidate
     * direction, or stay put when there is none; the machine is untouched.
     */
    method Turn(live: Map)
      requires Valid() && live.Valid()
      requires Interior(live.width, live.height, position)
      modifies this
      ensures Valid() && index == old(index) && startPosition == old(startPosition)
      ensures dead == old(dead) && invisible == old(invisible) && code == old(code)
      ensures registers == old(registers) && data == old(data)
      ensures match FirstOpen(live.width, live.height, live.data, old(position), Candidates(old(direction)))
        case Some(d) => direction == d && position == Move(old(position), d)
        case None => direction == old(direction) && position == old(position)
      ensures Walled(live.width, live.height, live.data) ==> Interior(live.width, live.height, position)
    {
      if Walled(live.width, live.height, live.data) {
        TurnChoice(live.width, live.height, live.data, position, direction);
      }
      var directions := Candidates(direction);
      ghost var p := position;
      var i := 0;
      while i < |directions|
        invariant 0 <= i <= |directions|
        invariant State() == old(State()) && Frame() == old(Frame()) && position == p
        invariant FirstOpen(live.width, live.height, live.data, p, directions) ==
          FirstOpen(live.width, live.height, live.data, p, directions[i..])
      {
        var newPos := Move(position, directions[i]);
        InteriorNeighbour(live.width, live.height, position, directions[i]);
        if live.Get(newPos) != '#' {
          direction := directions[i];
          position := newPos;
          return;
        }
        i := i + 1;
      }
    }

    /** `Ghost::reset`: back to the spawn cell; nothing else changes. */
    method Reset()
      modifies this
      ensures position == startPosition
      ensures index == old(index) && startPosition == old(startPosition) && direction == old(direction)
      ensures dead == old(dead) && invisible == old(invisible) && State() == old(State()) && code == old(code)
    {
      position := startPosition;
    }

    /** `Ghost::kill`: marks the ghost dead, which interrupt 6 reports; nothing else changes. */
    method Kill()
      modifies this
      ensures dead
      ensures index == old(index) && startPosition == old(startPosition) && position == old(position)
        && invisible == old(invisible) && code == old(code) && State() == old(State())
    {
      dead := true;
    }

    /** The visibility flag the game sets when the ghost is eaten and clears on a death or a fright expiry. */
    method SetInvisible(value: bool)
      modifies this
      ensures invisible == value
      ensures index == old(index) && startPosition == old(startPosition) && position == old(position)
        && dead == old(dead) && code == old(code) && State() == old(State())
    {
      invisible := value;
    }
  }

  /** The line loop of `Ghost::init`: read the lines in order, stopping at the first that fails. */
  method AssembleLines(program: seq<string>) returns (r: Result<seq<Instruction>, LoadError>)
    ensures r == Assemble(program)
  {
    var code: seq<Instruction> := [];
    var i := 0;
    assert program[0..] == program;
    assert Assemble(program).Ok? ==> [] + Assemble(program).value == Assemble(program).value;
    while i < |program|
      invariant 0 <= i <= |program|
      invariant Assemble(program) == Resume(code, program[i..])
    {
      ResumeStep(code, program, i);
      var line := ReadLine(program[i]);
      i := i + 1;
      if line.Err? {
        return Err(line.error);
      }
      if line.value.Some? {
        code := code + [line.value.value];
      }
    }
    assert program[|program|..] == [];
    assert code + [] == code;
    return Ok(code);
  }

  /** The result of assembling `rest` with the instructions `code` already in front. */
  function Resume(code: seq<Instruction>, rest: seq<string>): Result<seq<Instruction>, LoadError>
  {
    var tail :- Assemble(rest);
    Ok(code + tail)
  }

  /**
   * The body of `Ghost::init`'s line loop: drop the comment, lowercase the line in place while
   * turning commas into spaces, split it into words, and parse the opcode and three operands.
   */
  method ReadLine(text: string) returns (r: Result<Option<Instruction>, LoadError>)
    ensures r == ParseLine(text)
  {
    var str := StripComment(text);
    ghost var stripped := str;
    var j := 0;
    while j < |str|
      invariant 0 <= j <= |str| && |str| == |stripped|
      invariant forall k :: 0 <= k < j ==> str[k] == NormalizeChar(stripped[k])
      invariant forall k :: j <= k < |str| ==> str[k] == stripped[k]
    {
      str := str[j := NormalizeChar(str[j])];
      j := j + 1;
    }
    assert str == Normalize(stripped);
    var words := Words(str);
    if words == [] {
      return Ok(None);
    }
    var op := ParseOpcode(words[0]);
    if op.Err? {
      return Err(op.error);
    }
    var arg1 := ParseArgument(Field(words, 1));
    if arg1.Err? {
      return Err(arg1.error);
    }
    var arg2 := ParseArgument(Field(words, 2));
    if arg2.Err? {
      return Err(arg2.error);
    }
    var arg3 := ParseArgument(Field(words, 3));
    if arg3.Err? {
      return Err(arg3.error);
    }
    return Ok(Some(Instruction(op.value, arg1.value, arg2.value, arg3.value)));
  }

  /** Resuming the assembly at line i: fail with its error, skip it, or append its instruction. */
  lemma ResumeStep(code: seq<Instruction>, lines: seq<string>, i: nat)
    requires i < |lines|
    ensures ParseLine(lines[i]).Err? ==> Resume(code, lines[i..]) == Err(ParseLine(lines[i]).error)
    ensures ParseLine(lines[i]) == Ok(None) ==> Resume(code, lines[i..]) == Resume(code, lines[i + 1..])
    ensures ParseLine(lines[i]).Ok? && ParseLine(lines[i]).value.Some? ==>
      Resume(code, lines[i..]) == Resume(code + [ParseLine(lines[i]).value.value], lines[i + 1..])
  {
    assert lines[i..][0] == lines[i];
    assert lines[i..][1..] == lines[i + 1..];
    var first := ParseLine(lines[i]);
    var rest := Assemble(lines[i + 1..]);
    if first.Ok? && rest.Ok? {
      if first.value.Some? {
        assert code + ([first.value.value] + rest.value) == (code + [first.value.value]) + rest.value;
      } else {
        assert [] + rest.value == rest.value;
      }
    }
  }
}
