/**
 * The ghost CPU of ghost.cpp as a state-transition function: operand loads and stores,
 * the effect of one instruction, the interrupts, and a run of at most 1024 instructions.
 * Undefined behaviour of the source (a PC past the program, data address 255, division by
 * zero) and its exceptions (storing to a constant, an unknown interrupt) are `VmError`s.
 */
module GhostCpu {
  import opened Wrappers
  import opened Basic
  import opened Grid
  import opened GhostProgram

  /** The number of instructions one run may execute. */
  const MaxInstrCount: nat := 1024
  /** PC and A..H. */
  const RegisterCount: nat := 9
  /** Data memory has 255 cells, so address 255 is outside it. */
  const DataSize: nat := 255

  datatype VmError = PcOutOfRange | BadDataAddress | DivideByZero | StoreToConstant | UnknownInterrupt(number: Byte)

  /** The state a ghost program can change: the registers, data memory and the ghost's direction. */
  datatype Machine = Machine(registers: seq<Byte>, data: seq<Byte>, direction: Direction)

  predicate Shaped(m: Machine)
  {
    |m.registers| == RegisterCount && |m.data| == DataSize
  }

  /** What a ghost program can read but not change: its ghost's facts, the player and the original map. */
  datatype Env = Env(index: int, start: Position, position: Position, dead: bool,
                     player: Position, width: int, height: int, layout: seq<char>)

  predicate EnvValid(e: Env)
  {
    0 <= e.width && 0 <= e.height && |e.layout| == e.width * e.height
  }

  /** After `Ghost::init`: every register and data cell zero, facing down. */
  function Initial(): (m: Machine)
    ensures Shaped(m) && m.direction == Down
    ensures forall r :: 0 <= r < RegisterCount ==> m.registers[r] == 0
    ensures forall a :: 0 <= a < DataSize ==> m.data[a] == 0
  {
    Machine(seq(RegisterCount, _ => 0), seq(DataSize, _ => 0), Down)
  }

  // ---------------------------------------------------------------
  // Operands

  /** `Ghost::load`: the literal or the register, then through data memory when indirect. */
  function Load(m: Machine, a: Argument): Result<Byte, VmError>
    requires Shaped(m) && WellFormedArgument(a)
  {
    var v := if a.isRegister then m.registers[a.value] else a.value;
    if !a.isIndirect then Ok(v)
    else if v < DataSize then Ok(m.data[v])
    else Err(BadDataAddress)
  }

  /** `Ghost::store`: into data memory when indirect, into a register when direct; a direct constant is rejected. */
  function Store(m: Machine, a: Argument, v: Byte): (r: Result<Machine, VmError>)
    requires Shaped(m) && WellFormedArgument(a)
    ensures r.Ok? ==> Shaped(r.value) && r.value.direction == m.direction
  {
    if a.isIndirect then
      var address := if a.isRegister then m.registers[a.value] else a.value;
      if address < DataSize then Ok(m.(data := m.data[address := v])) else Err(BadDataAddress)
    else if a.isRegister then Ok(m.(registers := m.registers[a.value := v]))
    else Err(StoreToConstant)
  }

  /** A store fails exactly on a direct constant or on data address 255. */
  lemma StoreFails(m: Machine, a: Argument, v: Byte)
    requires Shaped(m) && WellFormedArgument(a)
    ensures Store(m, a, v) == Err(StoreToConstant) <==> !a.isIndirect && !a.isRegister
    ensures Store(m, a, v) == Err(BadDataAddress) <==>
      a.isIndirect && (if a.isRegister then m.registers[a.value] else a.value) == DataSize
    ensures Store(m, a, v).Ok? <==> Load(m, a).Ok? && (a.isIndirect || a.isRegister)
  {
  }

  /** Loading an operand right after storing to it yields the stored value. */
  lemma LoadAfterStore(m: Machine, a: Argument, v: Byte)
    requires Shaped(m) && WellFormedArgument(a) && Store(m, a, v).Ok?
    ensures Load(Store(m, a, v).value, a) == Ok(v)
  {
  }

  /**
   * A store to a register leaves data memory and the other registers alone; a store to memory
   * leaves the registers and the other cells alone.
   */
  lemma StoreFrame(m: Machine, a: Argument, v: Byte)
    requires Shaped(m) && WellFormedArgument(a) && Store(m, a, v).Ok?
    ensures var n := Store(m, a, v).value;
      if a.isIndirect then
        var address := if a.isRegister then m.registers[a.value] else a.value;
        n.registers == m.registers &&
        forall k :: 0 <= k < DataSize && k != address ==> n.data[k] == m.data[k]
      else
        n.data == m.data &&
        forall k :: 0 <= k < RegisterCount && k != a.value ==> n.registers[k] == m.registers[k]
  {
  }

  // ---------------------------------------------------------------
  // Instructions

  /** The bitwise operators of the instruction set. */
  datatype BitOp = BitAnd | BitOr | BitXor

  function Pow2(n: nat): (p: nat)
    ensures p >= 1
  {
    if n == 0 then 1 else 2 * Pow2(n - 1)
  }

  /** `op` applied to the lowest `width` bits of `x` and `y`, bit by bit from the lowest. */
  function Bitwise(op: BitOp, x: nat, y: nat, width: nat): (r: nat)
    ensures r < Pow2(width)
    decreases width
  {
    if width == 0 then 0
    else
      var a, b := x % 2, y % 2;
      var bit := match op
        case BitAnd => if a == 1 && b == 1 then 1 else 0
        case BitOr => if a == 1 || b == 1 then 1 else 0
        case BitXor => if a != b then 1 else 0;
      2 * Bitwise(op, x / 2, y / 2, width - 1) + bit
  }

  /** The number of bits in a byte. */
  const ByteWidth: nat := 8

  /** A byte has eight bits. */
  lemma ByteOpWidth(op: BitOp, x: Byte, y: Byte)
    ensures Pow2(ByteWidth) == 256 && ByteOp(op, x, y) == Bitwise(op, x, y, ByteWidth)
  {
  }

  /** A bitwise operator on two bytes (the source applies it to the bytes promoted to `int`). */
  function ByteOp(op: BitOp, x: Byte, y: Byte): Byte
  {
    assert Pow2(ByteWidth) == 256;
    Bitwise(op, x, y, ByteWidth)
  }

  /** The byte an arithmetic or logic instruction stores, computed on `int` and truncated to `uint8_t`. */
  function Arith(op: Opcode, x: Byte, y: Byte): Result<Byte, VmError>
  {
    match op
    case MOV => Ok(y)
    case INC => Ok(Wrap(x + 1))
    case DEC => Ok(Wrap(x - 1))
    case ADD => Ok(Wrap(x + y))
    case SUB => Ok(Wrap(x - y))
    case MUL => Ok(Wrap(x * y))
    case DIV => if y == 0 then Err(DivideByZero) else Ok(x / y)
    case AND => Ok(ByteOp(BitAnd, x, y))
    case OR => Ok(ByteOp(BitOr, x, y))
    case XOR => Ok(ByteOp(BitXor, x, y))
    case _ => Ok(x)
  }

  /** XOR with the same operand twice gives back the original bits. */
  lemma {:induction false} XorTwice(x: nat, y: nat, width: nat)
    requires x < Pow2(width)
    ensures Bitwise(BitXor, Bitwise(BitXor, x, y, width), y, width) == x
    decreases width
  {
    if width > 0 {
      var z := Bitwise(BitXor, x, y, width);
      var z' := Bitwise(BitXor, x / 2, y / 2, width - 1);
      assert z / 2 == z' && z % 2 == (if x % 2 != y % 2 then 1 else 0);
      XorTwice(x / 2, y / 2, width - 1);
    }
  }

  /** The bits AND keeps are bits of both operands, and OR keeps at least those. */
  lemma {:induction false} AndOrOrder(x: nat, y: nat, width: nat)
    ensures Bitwise(BitAnd, x, y, width) <= x && Bitwise(BitAnd, x, y, width) <= y
    ensures Bitwise(BitAnd, x, y, width) <= Bitwise(BitOr, x, y, width)
    decreases width
  {
    if width > 0 {
      AndOrOrder(x / 2, y / 2, width - 1);
    }
  }

  /** Arithmetic is modulo 256: an increment is undone by a decrement, and both wrap around. */
  lemma IncDecLaws(x: Byte)
    ensures Arith(DEC, Arith(INC, x, 0).value, 0) == Ok(x)
    ensures Arith(INC, 255, 0) == Ok(0) && Arith(DEC, 0, 0) == Ok(255)
  {
    if x == 255 {
      assert Wrap(x + 1) == 0;
    } else {
      assert Wrap(x + 1) == x + 1;
    }
  }

  /** An addition is undone by a subtraction of the same operand, modulo 256. */
  lemma AddSubLaw(x: Byte, y: Byte)
    ensures Arith(SUB, Arith(ADD, x, y).value, y) == Ok(x)
  {
    if x + y < 256 {
      assert Wrap(x + y) == x + y;
    } else {
      assert Wrap(x + y) == x + y - 256;
      assert Wrap(x + y - 256 - y) == x;
    }
  }

  /** XOR undoes itself; AND lies below both operands and below OR. */
  lemma BitLaws(x: Byte, y: Byte)
    ensures Arith(XOR, Arith(XOR, x, y).value, y) == Ok(x)
    ensures Arith(AND, x, y).value <= x && Arith(AND, x, y).value <= y
    ensures Arith(AND, x, y).value <= Arith(OR, x, y).value
  {
    ByteOpWidth(BitXor, x, y);
    ByteOpWidth(BitXor, ByteOp(BitXor, x, y), y);
    ByteOpWidth(BitAnd, x, y);
    ByteOpWidth(BitOr, x, y);
    XorTwice(x, y, ByteWidth);
    AndOrOrder(x, y, ByteWidth);
  }

  /** DIV is the unsigned quotient and fails only on a zero divisor. */
  lemma DivLaw(x: Byte, y: Byte)
    ensures Arith(DIV, x, y).Err? <==> y == 0
    ensures y != 0 ==> Arith(DIV, x, y).value * y <= x < (Arith(DIV, x, y).value + 1) * y
  {
  }

  predicate IsArith(op: Opcode)
  {
    match op
    case JLT | JEQ | JGT | INT | HLT => false
    case _ => true
  }

  predicate IsJump(op: Opcode)
  {
    match op
    case JLT | JEQ | JGT => true
    case _ => false
  }

  /** The jump condition, on unsigned bytes. */
  predicate Taken(op: Opcode, x: Byte, y: Byte)
  {
    match op
    case JLT => x < y
    case JEQ => x == y
    case JGT => x > y
    case _ => false
  }

  /** An arithmetic instruction: the operands it reads (only the first for INC/DEC, only the second for MOV) and the store. */
  function Compute(m: Machine, ins: Instruction): (r: Result<Machine, VmError>)
    requires Shaped(m) && WellFormedInstruction(ins) && IsArith(ins.opcode)
    ensures r.Ok? ==> Shaped(r.value) && r.value.direction == m.direction
  {
    if ins.opcode == MOV then
      var y :- Load(m, ins.arg2);
      Store(m, ins.arg1, y)
    else if ins.opcode == INC || ins.opcode == DEC then
      var x :- Load(m, ins.arg1);
      Store(m, ins.arg1, Arith(ins.opcode, x, 0).value)
    else
      var x :- Load(m, ins.arg1);
      var y :- Load(m, ins.arg2);
      var v :- Arith(ins.opcode, x, y);
      Store(m, ins.arg1, v)
  }

  /** The value interrupt 7 reports for a map glyph; a glyph outside the switch reads as 0. */
  function GlyphCode(c: char): Byte
  {
    if c == '#' then 0
    else if c == ' ' then 1
    else if c == '.' then 2
    else if c == 'o' then 3
    else if c == '%' then 4
    else if c == '\\' then 5
    else if c == '=' then 6
    else 0
  }

  /** The seven glyphs have seven different codes. */
  lemma GlyphCodeInjective(c: char, d: char)
    requires c in "# .o%\\=" && d in "# .o%\\="
    ensures GlyphCode(c) == GlyphCode(d) <==> c == d
  {
  }

  /** The cell interrupt 7 inspects: the original map's glyph, or a wall beyond its width or height. */
  function Square(e: Env, x: Byte, y: Byte): char
    requires EnvValid(e)
  {
    if x < e.width && y < e.height then At(e.width, e.height, e.layout, Position(x, y)) else '#'
  }

  /** `Ghost::handleInterrupt`. */
  function Interrupt(m: Machine, n: Byte, e: Env): (r: Result<Machine, VmError>)
    requires Shaped(m) && EnvValid(e)
    ensures r.Ok? ==> Shaped(r.value)
  {
    var regs := m.registers;
    if n == 0 then Ok(if regs[1] < 4 then m.(direction := FromOrdinal(regs[1])) else m)
    else if n == 1 then Ok(m.(registers := regs[1 := Wrap(e.player.x)][2 := Wrap(e.player.y)]))
    else if n == 2 then Ok(m)
    else if n == 3 then Ok(m.(registers := regs[1 := Wrap(e.index)]))
    else if n == 4 then Ok(m.(registers := regs[1 := Wrap(e.start.x)][2 := Wrap(e.start.y)]))
    else if n == 5 then Ok(m.(registers := regs[1 := Wrap(e.position.x)][2 := Wrap(e.position.y)]))
    else if n == 6 then Ok(m.(registers := regs[1 := Ordinal(m.direction)][2 := if e.dead then 1 else 0]))
    else if n == 7 then Ok(m.(registers := regs[1 := GlyphCode(Square(e, regs[1], regs[2]))]))
    else if n == 8 then Ok(m)
    else Err(UnknownInterrupt(n))
  }

  /** Only interrupt 0 turns the ghost, only interrupts 0..8 exist, and none touches PC or data memory. */
  lemma InterruptFrame(m: Machine, n: Byte, e: Env)
    requires Shaped(m) && EnvValid(e)
    ensures Interrupt(m, n, e).Ok? <==> n <= 8
    ensures Interrupt(m, n, e).Ok? ==>
      var k := Interrupt(m, n, e).value;
      k.data == m.data && k.registers[0] == m.registers[0] &&
      (forall r :: 3 <= r < RegisterCount ==> k.registers[r] == m.registers[r]) &&
      (k.direction != m.direction ==> n == 0)
    ensures n == 2 || n == 8 ==> Interrupt(m, n, e) == Ok(m)
  {
  }

  /** Interrupt 6 reports the direction interrupt 0 just set, and interrupt 3 the ghost's index. */
  lemma InterruptQueries(m: Machine, e: Env)
    requires Shaped(m) && EnvValid(e) && m.registers[1] < 4 && 0 <= e.index < 256
    ensures var turned := Interrupt(m, 0, e).value;
      Interrupt(turned, 6, e).value.registers[1] == m.registers[1] &&
      Interrupt(turned, 6, e).value.registers[2] == (if e.dead then 1 else 0)
    ensures Interrupt(m, 3, e).value.registers[1] == e.index
  {
  }

  /**
   * The position queries: interrupts 1, 4 and 5 report the player's, the spawn's and the ghost's
   * own cell, x in A and y in B, whenever its coordinates are bytes (as on any map the validator
   * accepts), and change nothing else.
   */
  lemma InterruptPositions(m: Machine, e: Env, n: Byte, p: Position)
    requires Shaped(m) && EnvValid(e)
    requires (n == 1 && p == e.player) || (n == 4 && p == e.start) || (n == 5 && p == e.position)
    requires 0 <= p.x < 256 && 0 <= p.y < 256
    ensures Interrupt(m, n, e).Ok?
    ensures var k := Interrupt(m, n, e).value;
      && k.registers[1] == p.x && k.registers[2] == p.y
      && k.data == m.data && k.direction == m.direction
      && forall r :: 0 <= r < RegisterCount && r != 1 && r != 2 ==> k.registers[r] == m.registers[r]
  {
  }

  /** Interrupt 0 turns the ghost to the direction A codes, and leaves it be when A codes none. */
  lemma InterruptTurn(m: Machine, e: Env)
    requires Shaped(m) && EnvValid(e)
    ensures Interrupt(m, 0, e).Ok?
    ensures var k := Interrupt(m, 0, e).value;
      && k.registers == m.registers && k.data == m.data
      && (m.registers[1] < 4 ==> Ordinal(k.direction) == m.registers[1])
      && (m.registers[1] >= 4 ==> k.direction == m.direction)
  {
  }

  /** Interrupt 7 reads the original map, and a wall anywhere past its right or bottom edge. */
  lemma SquareQuery(m: Machine, e: Env)
    requires Shaped(m) && EnvValid(e)
    ensures var x, y := m.registers[1], m.registers[2];
      Interrupt(m, 7, e).value.registers[1] ==
        if InBounds(e.width, e.height, Position(x, y)) then GlyphCode(At(e.width, e.height, e.layout, Position(x, y))) else 0
  {
  }

  /** What one fetched instruction leads to: the next machine, or a halt. */
  datatype Effect = Continue(next: Machine) | Halt

  function SetPc(m: Machine, pc: Byte): (n: Machine)
    requires Shaped(m)
    ensures Shaped(n)
  {
    m.(registers := m.registers[0 := pc])
  }

  /**
   * One iteration of `Ghost::run`: fetch the instruction at PC and compute the next PC; HLT halts
   * without writing PC; a taken jump loads its target from the first operand; every other
   * instruction ends by writing the next PC, so a store into PC is overwritten.
   */
  function Exec(m: Machine, code: seq<Instruction>, e: Env): (r: Result<Effect, VmError>)
    requires Shaped(m) && WellFormedCode(code) && EnvValid(e)
    ensures r.Ok? && r.value.Continue? ==> Shaped(r.value.next)
  {
    var pc := m.registers[0];
    if pc >= |code| then Err(PcOutOfRange)
    else
      var ins := code[pc];
      var next := Wrap(pc as int + 1);
      if ins.opcode == HLT then Ok(Halt)
      else if IsJump(ins.opcode) then
        var x :- Load(m, ins.arg2);
        var y :- Load(m, ins.arg3);
        if Taken(ins.opcode, x, y) then
          var target :- Load(m, ins.arg1);
          Ok(Continue(SetPc(m, target)))
        else Ok(Continue(SetPc(m, next)))
      else if ins.opcode == INT then
        var n :- Load(m, ins.arg1);
        var k :- Interrupt(m, n, e);
        Ok(Continue(SetPc(k, next)))
      else
        var k :- Compute(m, ins);
        Ok(Continue(SetPc(k, next)))
  }

  /** `Ghost::run` with `steps` instructions of budget left: stop at the budget, at HLT, or at an error. */
  function Run(m: Machine, code: seq<Instruction>, e: Env, steps: nat): (r: Result<Machine, VmError>)
    requires Shaped(m) && WellFormedCode(code) && EnvValid(e)
    ensures r.Ok? ==> Shaped(r.value)
    decreases steps
  {
    if steps == 0 then Ok(m)
    else
      var effect :- Exec(m, code, e);
      match effect
      case Halt => Ok(m)
      case Continue(n) => Run(n, code, e, steps - 1)
  }

  /** Exactly HLT halts, and a halted machine is unchanged. */
  lemma ExecHalts(m: Machine, code: seq<Instruction>, e: Env)
    requires Shaped(m) && WellFormedCode(code) && EnvValid(e)
    ensures Exec(m, code, e) == Ok(Halt) <==> m.registers[0] < |code| && code[m.registers[0]].opcode == HLT
  {
  }

  /**
   * The PC after an instruction: the first operand of a taken jump, otherwise the address that
   * follows, modulo 256.
   */
  lemma ExecNextPc(m: Machine, code: seq<Instruction>, e: Env)
    requires Shaped(m) && WellFormedCode(code) && EnvValid(e)
    requires Exec(m, code, e).Ok? && Exec(m, code, e).value.Continue?
    ensures var pc := m.registers[0]; var ins := code[pc];
      var n := Exec(m, code, e).value.next;
      ins.opcode != HLT &&
      if IsJump(ins.opcode) && Taken(ins.opcode, Load(m, ins.arg2).value, Load(m, ins.arg3).value)
      then Load(m, ins.arg1).Ok? && n.registers[0] == Load(m, ins.arg1).value
      else n.registers[0] == Wrap(pc as int + 1)
  {
  }

  /** An arithmetic instruction into a register other than PC leaves the result there and only there. */
  lemma ExecArith(m: Machine, code: seq<Instruction>, e: Env)
    requires Shaped(m) && WellFormedCode(code) && EnvValid(e)
    requires m.registers[0] < |code|
    requires var ins := code[m.registers[0]];
      IsArith(ins.opcode) && !ins.arg1.isIndirect && ins.arg1.isRegister && ins.arg1.value != 0
    requires Exec(m, code, e).Ok?
    ensures var ins := code[m.registers[0]]; var r := ins.arg1.value;
      var x := m.registers[r];
      var n := Exec(m, code, e).value.next;
      Exec(m, code, e).value.Continue? &&
      n.registers[r] == (if ins.opcode in {INC, DEC} then Arith(ins.opcode, x, 0).value
                         else Arith(ins.opcode, x, Load(m, ins.arg2).value).value) &&
      n.data == m.data && n.direction == m.direction &&
      forall k :: 1 <= k < RegisterCount && k != r ==> n.registers[k] == m.registers[k]
  {
    var ins := code[m.registers[0]];
    ComputeIntoRegister(m, ins);
  }

  /** An arithmetic instruction whose destination is a register writes that register and nothing else. */
  lemma ComputeIntoRegister(m: Machine, ins: Instruction)
    requires Shaped(m) && WellFormedInstruction(ins) && IsArith(ins.opcode)
    requires !ins.arg1.isIndirect && ins.arg1.isRegister && Compute(m, ins).Ok?
    ensures var x := m.registers[ins.arg1.value];
      Compute(m, ins).value == m.(registers := m.registers[ins.arg1.value :=
        if ins.opcode in {INC, DEC} then Arith(ins.opcode, x, 0).value
        else Arith(ins.opcode, x, Load(m, ins.arg2).value).value])
  {
  }

  /** A machine that stops at HLT stays there: every later run, whatever its budget, leaves it unchanged. */
  lemma {:induction false} HaltIsSticky(m: Machine, code: seq<Instruction>, e: Env, steps: nat)
    requires Shaped(m) && WellFormedCode(code) && EnvValid(e)
    requires m.registers[0] < |code| && code[m.registers[0]].opcode == HLT
    ensures Run(m, code, e, steps) == Ok(m)
  {
    ExecHalts(m, code, e);
  }

  /** An instruction that leads back to the same machine spins out the whole budget without changing anything. */
  lemma {:induction false} FixedPointRun(m: Machine, code: seq<Instruction>, e: Env, steps: nat)
    requires Shaped(m) && WellFormedCode(code) && EnvValid(e)
    requires Exec(m, code, e) == Ok(Continue(m))
    ensures Run(m, code, e, steps) == Ok(m)
    decreases steps
  {
    if steps > 0 {
      FixedPointRun(m, code, e, steps - 1);
    }
  }
}
