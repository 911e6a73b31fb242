/**
 * Ghost programs: the instruction types of ghost.hpp and the assembler of ghost.cpp
 * (opcode and operand parsing, comment stripping, lowercasing, operand separation).
 */
module GhostProgram {
  import opened Wrappers

  /** A `uint8_t`. */
  type Byte = b: int | 0 <= b < 256

  /** Conversion of an `int` to `uint8_t`: reduction modulo 256. */
  function Wrap(v: int): (b: Byte)
    ensures (b - v) % 256 == 0
  {
    v % 256
  }

  datatype Opcode = MOV | INC | DEC | ADD | SUB | MUL | DIV | AND | OR | XOR | JLT | JEQ | JGT | INT | HLT

  /** An operand: a literal or a register number (0 is PC, 1..8 are A..H), optionally dereferenced through data memory. */
  datatype Argument = Argument(isIndirect: bool, isRegister: bool, value: Byte)

  datatype Instruction = Instruction(opcode: Opcode, arg1: Argument, arg2: Argument, arg3: Argument)

  /** The errors the assembler throws. */
  datatype LoadError = UnknownOpcode | ArgumentTooShort

  /** A register operand names one of the nine registers. */
  predicate WellFormedArgument(a: Argument)
  {
    a.isRegister ==> a.value < 9
  }

  predicate WellFormedInstruction(i: Instruction)
  {
    WellFormedArgument(i.arg1) && WellFormedArgument(i.arg2) && WellFormedArgument(i.arg3)
  }

  predicate WellFormedCode(code: seq<Instruction>)
  {
    forall i :: 0 <= i < |code| ==> WellFormedInstruction(code[i])
  }

  // ---------------------------------------------------------------
  // Opcodes

  /** The lowercase mnemonic of each opcode. */
  function Mnemonic(op: Opcode): string
  {
    match op
    case MOV => "mov"
    case INC => "inc"
    case DEC => "dec"
    case ADD => "add"
    case SUB => "sub"
    case MUL => "mul"
    case DIV => "div"
    case AND => "and"
    case OR => "or"
    case XOR => "xor"
    case JLT => "jlt"
    case JEQ => "jeq"
    case JGT => "jgt"
    case INT => "int"
    case HLT => "hlt"
  }

  /** `parseOpcode`. */
  function ParseOpcode(s: string): Result<Opcode, LoadError>
  {
    if s == "mov" then Ok(MOV)
    else if s == "inc" then Ok(INC)
    else if s == "dec" then Ok(DEC)
    else if s == "add" then Ok(ADD)
    else if s == "sub" then Ok(SUB)
    else if s == "mul" then Ok(MUL)
    else if s == "div" then Ok(DIV)
    else if s == "and" then Ok(AND)
    else if s == "or" then Ok(OR)
    else if s == "xor" then Ok(XOR)
    else if s == "jlt" then Ok(JLT)
    else if s == "jeq" then Ok(JEQ)
    else if s == "jgt" then Ok(JGT)
    else if s == "int" then Ok(INT)
    else if s == "hlt" then Ok(HLT)
    else Err(UnknownOpcode)
  }

  /** The opcode parser accepts exactly the fifteen lowercase mnemonics, each for its own opcode. */
  lemma ParseOpcodeExact(s: string, op: Opcode)
    ensures ParseOpcode(s) == Ok(op) <==> s == Mnemonic(op)
    ensures ParseOpcode(s) == Err(UnknownOpcode) <==> forall o: Opcode :: s != Mnemonic(o)
  {
    ParseMnemonic(op);
    ParseOpcodeSound(s);
    forall o: Opcode ensures s == Mnemonic(o) ==> ParseOpcode(s) == Ok(o) {
      ParseMnemonic(o);
    }
  }

  /** Each opcode's mnemonic parses back to that opcode. */
  lemma ParseMnemonic(op: Opcode)
    ensures ParseOpcode(Mnemonic(op)) == Ok(op)
  {
    match op
    case MOV =>
    case INC =>
    case DEC =>
    case ADD =>
    case SUB =>
    case MUL =>
    case DIV =>
    case AND =>
    case OR =>
    case XOR =>
    case JLT =>
    case JEQ =>
    case JGT =>
    case INT =>
    case HLT =>
  }

  /** Whatever the opcode parser accepts is the mnemonic of the opcode it returns, and it fails only one way. */
  lemma ParseOpcodeSound(s: string)
    ensures ParseOpcode(s).Ok? ==> s == Mnemonic(ParseOpcode(s).value)
    ensures ParseOpcode(s).Err? ==> ParseOpcode(s) == Err(UnknownOpcode)
  {
  }

  // ---------------------------------------------------------------
  // Operands

  predicate IsDigit(c: char)
  {
    '0' <= c <= '9'
  }

  /** `isspace` in the C locale. */
  predicate IsSpace(c: char)
  {
    c == ' ' || c == '\t' || c == '\n' || c == '\U{000B}' || c == '\U{000C}' || c == '\r'
  }

  /** The longest prefix of decimal digits. */
  function LeadingDigits(s: string): (d: string)
    ensures |d| <= |s| && d == s[..|d|]
    ensures forall i :: 0 <= i < |d| ==> IsDigit(d[i])
    ensures |d| < |s| ==> !IsDigit(s[|d|])
  {
    if s != [] && IsDigit(s[0]) then [s[0]] + LeadingDigits(s[1..]) else []
  }

  /** The value of a string of decimal digits. */
  function DigitsValue(d: string): nat
    requires forall i :: 0 <= i < |d| ==> IsDigit(d[i])
  {
    if d == [] then 0
    else
      assert IsDigit(d[|d| - 1]);
      DigitsValue(d[..|d| - 1]) * 10 + (d[|d| - 1] as int - '0' as int)
  }

  function SkipSpace(s: string): (t: string)
    ensures |t| <= |s| && t == s[|s| - |t|..]
    ensures t != [] ==> !IsSpace(t[0])
  {
    if s != [] && IsSpace(s[0]) then SkipSpace(s[1..]) else s
  }

  /** C's `atoi`: leading white space, an optional sign, then as many decimal digits as follow. */
  function AtoI(s: string): int
  {
    var t := SkipSpace(s);
    if t != [] && t[0] == '-' then 0 - DigitsValue(LeadingDigits(t[1..]))
    else if t != [] && t[0] == '+' then DigitsValue(LeadingDigits(t[1..]))
    else DigitsValue(LeadingDigits(t))
  }

  /** `parseArgument`. */
  function ParseArgument(s: string): Result<Argument, LoadError>
  {
    if |s| == 0 then Ok(Argument(false, false, 0))
    else
      var indirect := s[0] == '[';
      var rest := if indirect then s[1..] else s;
      if |rest| == 0 then Err(ArgumentTooShort)
      else if 'a' <= rest[0] <= 'h' then Ok(Argument(indirect, true, rest[0] as int - 'a' as int + 1))
      else if rest[0] == 'p' then Ok(Argument(indirect, true, 0))
      else Ok(Argument(indirect, false, Wrap(AtoI(rest))))
  }

  /** Every operand the parser produces names a register that exists, and only a lone `[` fails. */
  lemma ParseArgumentWellFormed(s: string)
    ensures ParseArgument(s).Ok? ==> WellFormedArgument(ParseArgument(s).value)
    ensures ParseArgument(s).Err? <==> s == "["
    ensures s == [] ==> ParseArgument(s) == Ok(Argument(false, false, 0))
    ensures ParseArgument(s).Ok? ==> (ParseArgument(s).value.isIndirect <==> s != [] && s[0] == '[')
  {
  }

  // ---------------------------------------------------------------
  // Lines

  /** `tolower` in the C locale, then a comma becomes a separator. */
  function NormalizeChar(c: char): char
  {
    var l := if 'A' <= c <= 'Z' then (c as int - 'A' as int + 'a' as int) as char else c;
    if l == ',' then ' ' else l
  }

  /** The line with every character normalized. */
  function Normalize(s: string): (t: string)
    ensures |t| == |s| && forall i :: 0 <= i < |s| ==> t[i] == NormalizeChar(s[i])
  {
    if s == [] then [] else [NormalizeChar(s[0])] + Normalize(s[1..])
  }

  /** The line up to its first `;`. */
  function StripComment(s: string): (t: string)
    ensures |t| <= |s| && t == s[..|t|] && ';' !in t
    ensures |t| < |s| ==> s[|t|] == ';'
  {
    if s == [] || s[0] == ';' then [] else [s[0]] + StripComment(s[1..])
  }

  /** The maximal run of non-space characters at the start. */
  function Word(s: string): (w: string)
    ensures |w| <= |s| && w == s[..|w|]
    ensures forall i :: 0 <= i < |w| ==> !IsSpace(w[i])
    ensures |w| < |s| ==> IsSpace(s[|w|])
  {
    if s == [] || IsSpace(s[0]) then [] else [s[0]] + Word(s[1..])
  }

  /** What successive `>>` extractions of strings yield: the white-space separated words. */
  function Words(s: string): seq<string>
    decreases |s|
  {
    var t := SkipSpace(s);
    if t == [] then []
    else
      var w := Word(t);
      [w] + Words(t[|w|..])
  }

  /** The k-th word, or the empty string when the line has fewer. */
  function Field(ws: seq<string>, k: nat): string
  {
    if k < |ws| then ws[k] else []
  }

  /**
   * One program line: no instruction when it has no mnemonic, otherwise the instruction made
   * of the opcode and the first three operands, parsed in that order.
   */
  function ParseLine(line: string): Result<Option<Instruction>, LoadError>
  {
    ParseWords(Words(Normalize(StripComment(line))))
  }

  function ParseWords(ws: seq<string>): Result<Option<Instruction>, LoadError>
  {
    if ws == [] then Ok(None)
    else
      var op :- ParseOpcode(ws[0]);
      var a1 :- ParseArgument(Field(ws, 1));
      var a2 :- ParseArgument(Field(ws, 2));
      var a3 :- ParseArgument(Field(ws, 3));
      Ok(Some(Instruction(op, a1, a2, a3)))
  }

  /** The whole program: the instructions of the lines in order, or the first line's error. */
  function Assemble(lines: seq<string>): Result<seq<Instruction>, LoadError>
  {
    if lines == [] then Ok([])
    else
      var first :- ParseLine(lines[0]);
      var rest :- Assemble(lines[1..]);
      Ok((if first.Some? then [first.value] else []) + rest)
  }

  /** The number of lines that carry a mnemonic. */
  function InstructionLines(lines: seq<string>): nat
  {
    if lines == [] then 0
    else (if Words(Normalize(StripComment(lines[0]))) == [] then 0 else 1) + InstructionLines(lines[1..])
  }

  /** Lines without a mnemonic add no instruction and every other line adds exactly one, always well formed. */
  lemma {:induction false} AssembleCount(lines: seq<string>)
    requires Assemble(lines).Ok?
    ensures |Assemble(lines).value| == InstructionLines(lines)
    ensures WellFormedCode(Assemble(lines).value)
  {
    if lines != [] {
      AssembleCount(lines[1..]);
      var ws := Words(Normalize(StripComment(lines[0])));
      if ws != [] {
        ParseArgumentWellFormed(Field(ws, 1));
        ParseArgumentWellFormed(Field(ws, 2));
        ParseArgumentWellFormed(Field(ws, 3));
      }
    }
  }

  // ---------------------------------------------------------------
  // Listing: the text form of an instruction, which the assembler reads back unchanged

  /** The register letter: `p` for PC, then `a`..`h`. */
  function RegisterName(r: nat): char
    requires r < 9
  {
    if r == 0 then 'p' else ('a' as int + r - 1) as char
  }

  /** The decimal spelling of `n`, without leading zeros. */
  function Decimal(n: nat): (s: string)
    ensures s != [] && forall i :: 0 <= i < |s| ==> IsDigit(s[i])
  {
    if n < 10 then [('0' as int + n) as char] else Decimal(n / 10) + [('0' as int + n % 10) as char]
  }

  function ArgumentText(a: Argument): string
    requires WellFormedArgument(a)
  {
    var body := if a.isRegister then [RegisterName(a.value)] else Decimal(a.value);
    if a.isIndirect then "[" + body + "]" else body
  }

  function InstructionText(i: Instruction): string
    requires WellFormedInstruction(i)
  {
    Mnemonic(i.opcode) + " " + ArgumentText(i.arg1) + " " + ArgumentText(i.arg2) + " " + ArgumentText(i.arg3)
  }

  /** One line per instruction. */
  function Listing(code: seq<Instruction>): (lines: seq<string>)
    requires WellFormedCode(code)
    ensures |lines| == |code|
  {
    if code == [] then [] else [InstructionText(code[0])] + Listing(code[1..])
  }

  lemma {:induction false} DecimalValue(n: nat)
    ensures DigitsValue(Decimal(n)) == n
  {
    if n >= 10 {
      DecimalValue(n / 10);
      var s := Decimal(n);
      assert s[..|s| - 1] == Decimal(n / 10);
    }
  }

  lemma {:induction false} LeadingDigitsOf(d: string, rest: string)
    requires forall i :: 0 <= i < |d| ==> IsDigit(d[i])
    requires rest == [] || !IsDigit(rest[0])
    ensures LeadingDigits(d + rest) == d
  {
    if d == [] {
      assert d + rest == rest;
    } else {
      assert (d + rest)[1..] == d[1..] + rest;
      LeadingDigitsOf(d[1..], rest);
    }
  }

  /** `atoi` reads a decimal spelling back, whatever non-digit follows it. */
  lemma AtoIDecimal(n: nat, suffix: string)
    requires suffix == [] || !IsDigit(suffix[0])
    ensures AtoI(Decimal(n) + suffix) == n
  {
    var d := Decimal(n);
    var t := d + suffix;
    assert t[0] == d[0] && IsDigit(d[0]);
    assert !IsSpace(t[0]) && t[0] != '-' && t[0] != '+';
    assert SkipSpace(t) == t;
    LeadingDigitsOf(d, suffix);
    DecimalValue(n);
    assert AtoI(t) == DigitsValue(LeadingDigits(t));
  }

  /** The text an operand has after its optional `[`: the register letter or the decimal literal, and the closing `]`. */
  function OperandRest(a: Argument): string
    requires WellFormedArgument(a)
  {
    var body := if a.isRegister then [RegisterName(a.value)] else Decimal(a.value);
    if a.isIndirect then body + "]" else body
  }

  lemma ArgumentTextSplit(a: Argument)
    requires WellFormedArgument(a)
    ensures OperandRest(a) != []
    ensures a.isIndirect ==> ArgumentText(a) == "[" + OperandRest(a)
    ensures !a.isIndirect ==> ArgumentText(a) == OperandRest(a)
    ensures a.isRegister ==> OperandRest(a)[0] == RegisterName(a.value)
    ensures !a.isRegister ==> AtoI(OperandRest(a)) == a.value && IsDigit(OperandRest(a)[0])
  {
    var body := if a.isRegister then [RegisterName(a.value)] else Decimal(a.value);
    assert OperandRest(a)[0] == body[0];
    if !a.isRegister {
      assert IsDigit(body[0]);
      if a.isIndirect {
        AtoIDecimal(a.value, "]");
      } else {
        AtoIDecimal(a.value, []);
        assert body + [] == body;
      }
    }
  }

  /** What the operand parser does once the optional `[` is consumed. */
  lemma ParseArgumentRest(s: string, rest: string)
    requires rest != [] && (s == rest || s == "[" + rest) && rest[0] != '['
    ensures ParseArgument(s) == Ok(Argument(s != rest,
      ('a' <= rest[0] <= 'h') || rest[0] == 'p',
      if 'a' <= rest[0] <= 'h' then rest[0] as int - 'a' as int + 1
      else if rest[0] == 'p' then 0
      else Wrap(AtoI(rest))))
  {
    if s != rest {
      assert s[0] == '[' && s[1..] == rest;
    }
  }

  /** Reading an operand's text gives the operand back. */
  lemma ArgumentRoundTrip(a: Argument)
    requires WellFormedArgument(a)
    ensures ParseArgument(ArgumentText(a)) == Ok(a)
  {
    ArgumentTextSplit(a);
    var rest := OperandRest(a);
    if a.isRegister {
      assert rest[0] == RegisterName(a.value);
    } else {
      assert IsDigit(rest[0]);
    }
    ParseArgumentRest(ArgumentText(a), rest);
  }

  /** A character the line preparation leaves alone and that does not start a comment. */
  predicate Tame(c: char)
  {
    !('A' <= c <= 'Z') && c != ',' && c != ';'
  }

  predicate TameText(s: string)
  {
    forall i :: 0 <= i < |s| ==> Tame(s[i])
  }

  predicate PlainWord(w: string)
  {
    w != [] && forall i :: 0 <= i < |w| ==> !IsSpace(w[i])
  }

  lemma {:induction false} StripCommentNone(s: string)
    requires ';' !in s
    ensures StripComment(s) == s
  {
    if s != [] {
      assert s[1..] == s[1..];
      assert ';' !in s[1..] by {
        forall k | 0 <= k < |s[1..]| ensures s[1..][k] != ';' {
          assert s[1..][k] == s[k + 1];
        }
      }
      StripCommentNone(s[1..]);
    }
  }

  lemma NormalizeTame(s: string)
    requires TameText(s)
    ensures Normalize(s) == s
  {
  }

  lemma {:induction false} WordOf(w: string, rest: string)
    requires forall i :: 0 <= i < |w| ==> !IsSpace(w[i])
    requires rest == [] || IsSpace(rest[0])
    ensures Word(w + rest) == w
  {
    if w == [] {
      assert w + rest == rest;
    } else {
      assert (w + rest)[1..] == w[1..] + rest;
      WordOf(w[1..], rest);
    }
  }

  /** A plain word followed by a separator is the first of the words. */
  lemma WordsCons(w: string, rest: string)
    requires PlainWord(w)
    ensures Words(w + " " + rest) == [w] + Words(rest)
  {
    var s := w + " " + rest;
    assert s[0] == w[0];
    assert SkipSpace(s) == s;
    assert s == w + (" " + rest);
    WordOf(w, " " + rest);
    assert Word(s) == w;
    assert s[|w|..] == " " + rest;
    assert Words(s) == [w] + Words(" " + rest);
    assert (" " + rest)[1..] == rest;
    assert SkipSpace(" " + rest) == SkipSpace(rest);
  }

  lemma WordsSingle(w: string)
    requires PlainWord(w)
    ensures Words(w) == [w]
  {
    WordOf(w, []);
    assert w + [] == w;
    assert w[|w|..] == [];
  }

  lemma ArgumentTextPlain(a: Argument)
    requires WellFormedArgument(a)
    ensures PlainWord(ArgumentText(a)) && TameText(ArgumentText(a))
  {
    var body := if a.isRegister then [RegisterName(a.value)] else Decimal(a.value);
    assert forall i :: 0 <= i < |body| ==> !IsSpace(body[i]) && Tame(body[i]);
    if a.isIndirect {
      var t := "[" + body + "]";
      assert forall i :: 1 <= i < |t| - 1 ==> t[i] == body[i - 1];
    }
  }

  lemma MnemonicPlain(op: Opcode)
    ensures PlainWord(Mnemonic(op)) && TameText(Mnemonic(op))
  {
  }

  lemma TameConcat(a: string, b: string)
    requires TameText(a) && TameText(b)
    ensures TameText(a + b)
  {
    forall k | 0 <= k < |a + b| ensures Tame((a + b)[k]) {
      if k < |a| {
        assert (a + b)[k] == a[k];
      } else {
        assert (a + b)[k] == b[k - |a|];
      }
    }
  }

  /** Four words are parsed as the mnemonic and the three operands. */
  lemma ParseWordsRoundTrip(i: Instruction)
    requires WellFormedInstruction(i)
    ensures ParseWords([Mnemonic(i.opcode), ArgumentText(i.arg1), ArgumentText(i.arg2), ArgumentText(i.arg3)]) == Ok(Some(i))
  {
    ParseOpcodeExact(Mnemonic(i.opcode), i.opcode);
    ArgumentRoundTrip(i.arg1);
    ArgumentRoundTrip(i.arg2);
    ArgumentRoundTrip(i.arg3);
  }

  /** Line preparation leaves tame text unchanged. */
  lemma PrepareTame(s: string)
    requires TameText(s)
    ensures Normalize(StripComment(s)) == s
  {
    assert ';' !in s by {
      forall k | 0 <= k < |s| ensures s[k] != ';' {
        assert Tame(s[k]);
      }
    }
    StripCommentNone(s);
    NormalizeTame(s);
  }

  lemma TameLine(m: string, t1: string, t2: string, t3: string)
    requires TameText(m) && TameText(t1) && TameText(t2) && TameText(t3)
    ensures TameText(m + " " + (t1 + " " + (t2 + " " + t3)))
  {
    assert TameText(" ");
    TameConcat(t2, " ");
    TameConcat(t2 + " ", t3);
    TameConcat(t1, " ");
    TameConcat(t1 + " ", t2 + " " + t3);
    TameConcat(m, " ");
    TameConcat(m + " ", t1 + " " + (t2 + " " + t3));
  }

  lemma WordsLine(m: string, t1: string, t2: string, t3: string)
    requires PlainWord(m) && PlainWord(t1) && PlainWord(t2) && PlainWord(t3)
    ensures Words(m + " " + (t1 + " " + (t2 + " " + t3))) == [m, t1, t2, t3]
  {
    var x3 := t2 + " " + t3;
    var x2 := t1 + " " + x3;
    WordsCons(m, x2);
    WordsCons(t1, x3);
    WordsCons(t2, t3);
    WordsSingle(t3);
    assert Words(x3) == [t2] + [t3];
    assert Words(x2) == [t1] + ([t2] + [t3]);
    assert Words(m + " " + x2) == [m] + ([t1] + ([t2] + [t3]));
    ConsFour(m, t1, t2, t3);
  }

  lemma ConsFour<T>(a: T, b: T, c: T, d: T)
    ensures [a] + ([b] + ([c] + [d])) == [a, b, c, d]
  {
  }

  /** The assembler reads an instruction's text back as that instruction. */
  lemma ParseLineRoundTrip(i: Instruction)
    requires WellFormedInstruction(i)
    ensures ParseLine(InstructionText(i)) == Ok(Some(i))
  {
    var m, t1, t2, t3 := Mnemonic(i.opcode), ArgumentText(i.arg1), ArgumentText(i.arg2), ArgumentText(i.arg3);
    MnemonicPlain(i.opcode);
    ArgumentTextPlain(i.arg1);
    ArgumentTextPlain(i.arg2);
    ArgumentTextPlain(i.arg3);
    var text := m + " " + (t1 + " " + (t2 + " " + t3));
    assert InstructionText(i) == text;
    TameLine(m, t1, t2, t3);
    PrepareTame(text);
    WordsLine(m, t1, t2, t3);
    ParseWordsRoundTrip(i);
  }

  /** Assembling the listing of any well-formed program gives back that program. */
  lemma {:induction false} AssembleListing(code: seq<Instruction>)
    requires WellFormedCode(code)
    ensures Assemble(Listing(code)) == Ok(code)
  {
    if code != [] {
      ParseLineRoundTrip(code[0]);
      AssembleListing(code[1..]);
      var lines := Listing(code);
      assert lines[0] == InstructionText(code[0]);
      assert lines[1..] == Listing(code[1..]);
      assert [code[0]] + code[1..] == code;
    }
  }
}
