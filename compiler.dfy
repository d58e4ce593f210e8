/**
 * The assembler: cleaning the source text, turning each instruction line into
 * a 32-character machine word of '0'/'1' characters, and the two whole-program
 * passes that produce the binary and the hexadecimal listings.
 *
 * The label table is an input: a map from label name to byte address. Errors
 * the JavaScript code throws are `Err` results; the first one ends the pass.
 */
module Compiler {
  import opened Results
  import opened Bits
  import opened Tokens
  import opened Parser

  // ---------------------------------------------------------------------
  // JavaScript `parseInt` and `toString(2)`
  // ---------------------------------------------------------------------

  /** The length of the longest prefix of `s` made of radix-`radix` digits. */
  function DigitSpan(radix: nat, s: string): (n: nat)
    ensures n <= |s|
  {
    if |s| > 0 && DigitValue(s[0]) < radix then 1 + DigitSpan(radix, s[1..]) else 0
  }

  lemma {:induction false} DigitSpanAll(radix: nat, s: string)
    requires forall i :: 0 <= i < |s| ==> DigitValue(s[i]) < radix
    ensures DigitSpan(radix, s) == |s|
  {
    if s != [] { DigitSpanAll(radix, s[1..]); }
  }

  /**
   * `parseInt(s, radix)` on integers, with `radix == 0` standing for an absent
   * radix and `None` for NaN: leading white space and one sign are skipped, and
   * the digits that follow are read by `ParseDigits`.
   */
  function ParseInt(s: string, radix: nat): (r: Option<int>)
    requires radix == 0 || 2 <= radix <= 36
  {
    var t := SkipLeadingSpace(s);
    if |t| > 0 && t[0] == '-' then
      var v := ParseDigits(t[1..], radix);
      if v.None? then None else Some(-(v.value as int))
    else if |t| > 0 && t[0] == '+' then ParseDigits(t[1..], radix)
    else ParseDigits(t, radix)
  }

  /** A `0x`/`0X` prefix switches an absent or 16 radix to hexadecimal; an absent radix is otherwise 10. */
  function ParseDigits(u: string, radix: nat): (r: Option<nat>)
    requires radix == 0 || 2 <= radix <= 36
  {
    if (radix == 0 || radix == 16) && |u| >= 2 && u[0] == '0' && (u[1] == 'x' || u[1] == 'X') then
      DigitRun(u[2..], 16)
    else
      DigitRun(u, if radix == 0 then 10 else radix)
  }

  /** The value of the longest run of radix-`radix` digits at the start of `d`, or NaN when there is none. */
  function DigitRun(d: string, radix: nat): (r: Option<nat>)
  {
    var n := DigitSpan(radix, d);
    if n == 0 then None else Some(DigitsValue(d[..n], radix))
  }

  lemma DigitRunAll(d: string, radix: nat)
    requires |d| > 0 && forall i :: 0 <= i < |d| ==> DigitValue(d[i]) < radix
    ensures DigitRun(d, radix) == Some(DigitsValue(d, radix))
  {
    DigitSpanAll(radix, d);
    assert d[..|d|] == d;
  }

  /** `s` without its leading white space. */
  function SkipLeadingSpace(s: string): string
  {
    if |s| > 0 && IsSpace(s[0]) then SkipLeadingSpace(s[1..]) else s
  }

  lemma NoLeadingSpace(s: string)
    requires |s| > 0 && IsNonSpace(s[0])
    ensures SkipLeadingSpace(s) == s
  {
  }

  /** `x.toString(2)` for an integer `x`. */
  function NumberToBinary(x: int): string
  {
    if x < 0 then "-" + ToBinary(-x) else ToBinary(x)
  }

  /** `x.toString(2)` where `x` may be NaN. */
  function ParsedToBinary(x: Option<int>): string
  {
    if x.None? then "NaN" else NumberToBinary(x.value)
  }

  /** `x.toString(16)` where `x` may be NaN. */
  function ParsedToHex(x: Option<int>): string
  {
    if x.None? then "NaN" else if x.value < 0 then "-" + ToHex(-x.value) else ToHex(x.value)
  }

  // ---------------------------------------------------------------------
  // Literal operands
  // ---------------------------------------------------------------------

  /** The digits `convertImmediateToBinary` checks against the field width, before padding. */
  function ImmediateDigits(immediate: string, length: nat): string
  {
    if |immediate| > 0 && immediate[0] == '-' then
      var v := ParseInt(immediate, 0);
      if v.None? then "NaN" else NumberToBinary(Pow2(length) + v.value)
    else if |immediate| >= 2 && immediate[0] == '0' && immediate[1] == 'x' then
      ParsedToBinary(ParseInt(immediate[2..], 16))
    else if |immediate| >= 2 && immediate[0] == '0' && immediate[1] == 'b' then
      immediate[2..]
    else
      ParsedToBinary(ParseInt(immediate, 0))
  }

  /**
   * `convertImmediateToBinary`: the literal's digits left-padded with '0' to
   * `length`, or `None` (the source's `null`) when they do not fit.
   */
  function ConvertImmediateToBinary(immediate: string, length: nat): (r: Option<string>)
    ensures r.None? <==> |ImmediateDigits(immediate, length)| > length
    ensures r.Some? ==> |r.value| == length
  {
    var binary := ImmediateDigits(immediate, length);
    if |binary| > length then None else Some(PadStart(binary, length, '0'))
  }

  /** The integer a literal operand of the grammars denotes. */
  function LiteralValue(s: string): int
  {
    if IsNegativeLiteral(s) then -(DigitsValue(s[1..], 10) as int)
    else if IsHexLiteral(s) then DigitsValue(s[2..], 16)
    else if IsBinaryLiteral(s) then BinToNat(s[2..])
    else DigitsValue(s, 10)
  }

  lemma DecimalDigits(s: string)
    requires All(IsDigit, s)
    ensures forall i :: 0 <= i < |s| ==> DigitValue(s[i]) < 10
  {
  }

  lemma HexDigits(s: string)
    requires All(IsHexDigit, s)
    ensures forall i :: 0 <= i < |s| ==> DigitValue(s[i]) < 16
  {
  }

  /** `parseInt` reads a decimal literal as its value. */
  lemma ParseIntDecimal(s: string)
    requires IsDecimalLiteral(s)
    ensures ParseInt(s, 0) == Some(DigitsValue(s, 10))
  {
    NoLeadingSpace(s);
    DecimalDigits(s);
    DigitRunAll(s, 10);
  }

  /** `parseInt` reads `-` and a decimal literal as the negated value. */
  lemma ParseIntNegative(s: string)
    requires IsNegativeLiteral(s)
    ensures ParseInt(s, 0) == Some(-(DigitsValue(s[1..], 10) as int))
  {
    NoLeadingSpace(s);
    DecimalDigits(s[1..]);
    DigitRunAll(s[1..], 10);
  }

  /** The digits of a hexadecimal literal read in radix 16 give its value. */
  lemma ParseIntHexDigits(d: string)
    requires |d| > 0 && All(IsHexDigit, d)
    ensures ParseInt(d, 16) == Some(DigitsValue(d, 16))
  {
    NoLeadingSpace(d);
    HexDigits(d);
    DigitRunAll(d, 16);
  }

  /** With no radix, `parseInt` reads a `0x`/`0X` literal as hexadecimal. */
  lemma ParseIntHex(s: string)
    requires IsHexLiteral(s)
    ensures ParseInt(s, 0) == Some(DigitsValue(s[2..], 16))
  {
    NoLeadingSpace(s);
    HexDigits(s[2..]);
    DigitRunAll(s[2..], 16);
  }

  /** With no radix, `parseInt` stops at the `B` of a `0B` literal and gives 0. */
  lemma ParseIntUpperBinary(s: string)
    requires IsBinaryLiteral(s) && s[1] == 'B'
    ensures ParseInt(s, 0) == Some(0)
  {
    NoLeadingSpace(s);
    assert DigitSpan(10, s[1..]) == 0;
    assert DigitSpan(10, s) == 1;
    assert s[..1] == "0";
    assert DigitsValue(s[..1], 10) == 0;
    assert ParseDigits(s, 0) == DigitRun(s, 10);
  }

  /** A value's binary digits fit in `length` places exactly when the value is below 2^length. */
  lemma PaddedValue(n: nat, length: nat)
    requires length >= 1
    ensures |NumberToBinary(n)| <= length <==> n < Pow2(length)
    ensures n < Pow2(length) ==> PadStart(NumberToBinary(n), length, '0') == NatToBits(n, length)
  {
    ToBinaryLength(n, length);
    if n < Pow2(length) { PaddedBinary(n, length); }
  }

  /** A decimal literal becomes its `length`-bit encoding, or `None` when it does not fit. */
  lemma ConvertDecimal(s: string, length: nat)
    requires IsDecimalLiteral(s) && length >= 1
    ensures var v := DigitsValue(s, 10);
      ConvertImmediateToBinary(s, length) == if v < Pow2(length) then Some(NatToBits(v, length)) else None
  {
    ParseIntDecimal(s);
    PaddedValue(DigitsValue(s, 10), length);
  }

  /**
   * `-v` becomes the encoding of 2^length - v when 0 < v <= 2^length, which is
   * `-v` in two's complement when v <= 2^(length-1).
   */
  lemma ConvertNegative(s: string, length: nat)
    requires IsNegativeLiteral(s) && length >= 1
    requires 0 < DigitsValue(s[1..], 10) <= Pow2(length)
    ensures ConvertImmediateToBinary(s, length) == Some(NatToBits(Pow2(length) - DigitsValue(s[1..], 10), length))
  {
    ParseIntNegative(s);
    PaddedValue(Pow2(length) - DigitsValue(s[1..], 10), length);
  }

  /** `-0` does not fit: 2^length has `length + 1` binary digits. */
  lemma ConvertNegativeZero(s: string, length: nat)
    requires IsNegativeLiteral(s) && length >= 1 && DigitsValue(s[1..], 10) == 0
    ensures ConvertImmediateToBinary(s, length).None?
  {
    assert ImmediateDigits(s, length) == NumberToBinary(Pow2(length)) by { ParseIntNegative(s); }
    PaddedValue(Pow2(length), length);
  }

  /** A `0x` or `0X` literal becomes its `length`-bit encoding, or `None` when it does not fit. */
  lemma ConvertHex(s: string, length: nat)
    requires IsHexLiteral(s) && length >= 1
    ensures var v := DigitsValue(s[2..], 16);
      ConvertImmediateToBinary(s, length) == if v < Pow2(length) then Some(NatToBits(v, length)) else None
  {
    ParseIntHex(s);
    ParseIntHexDigits(s[2..]);
    PaddedValue(DigitsValue(s[2..], 16), length);
  }

  /** The digits of a `0b` literal are padded as written, or `None` when there are more than `length`. */
  lemma ConvertBinary(s: string, length: nat)
    requires IsBinaryLiteral(s) && s[1] == 'b'
    ensures ConvertImmediateToBinary(s, length) ==
      if |s| - 2 <= length then Some(NatToBits(BinToNat(s[2..]), length)) else None
  {
    if |s| - 2 <= length { PaddedBits(s[2..], length); }
  }

  /** A `0B` literal, which the case-insensitive grammars accept, is converted as zero. */
  lemma ConvertUpperBinary(s: string, length: nat)
    requires IsBinaryLiteral(s) && s[1] == 'B' && length >= 1
    ensures ConvertImmediateToBinary(s, length) == Some(NatToBits(0, length))
  {
    ParseIntUpperBinary(s);
    PaddedValue(0, length);
  }

  // ---------------------------------------------------------------------
  // Cleaning the source
  // ---------------------------------------------------------------------

  predicate NotHash(c: char) { c != '#' }

  /** A line up to its first `#`. */
  function BeforeComment(line: string): (s: string)
    ensures All(NotHash, s)
  {
    SpanFacts(NotHash, line);
    line[..Span(NotHash, line)]
  }

  /** A line with its comment cut off and its white space trimmed. */
  function CleanLine(line: string): (s: string)
    ensures All(NotHash, s)
    ensures Trim(s) == s
  {
    var t := Trim(BeforeComment(line));
    TrimIsIdempotent(BeforeComment(line));
    t
  }

  /** `/^\w+:/` matches the line: a label definition, with or without an instruction after it. */
  predicate IsLabelLine(line: string) {
    var n := Span(IsWordChar, line);
    0 < n < |line| && line[n] == ':'
  }

  /** What every line `processLabels` passes on satisfies. */
  predicate IsProcessedLine(line: string) {
    |line| > 0 && All(NotHash, line) && Trim(line) == line && !IsLabelLine(line)
  }

  lemma TrimIsIdempotent(s: string)
    ensures Trim(Trim(s)) == Trim(s)
  {
    var t := Trim(s);
    if |t| > 0 {
      assert Span(IsSpace, t) == 0;
      assert TrailingSpan(IsSpace, t) == 0;
      assert t[0..] == t && t[..|t|] == t;
    }
  }

  /**
   * `processLabels`: each line is cut at `#` and trimmed, empty lines are
   * dropped and so are label lines, whole. What is left has no comment, no
   * surrounding white space and no label definition.
   */
  function ProcessLabels(assemblyCode: seq<string>): (code: seq<string>)
    ensures |code| <= |assemblyCode|
  {
    if assemblyCode == [] then []
    else Kept(CleanLine(assemblyCode[0])) + ProcessLabels(assemblyCode[1..])
  }

  /** Every line `processLabels` passes on is non-empty, comment-free, trimmed and no label definition. */
  lemma {:induction false} ProcessedLines(assemblyCode: seq<string>)
    ensures forall i :: 0 <= i < |ProcessLabels(assemblyCode)| ==> IsProcessedLine(ProcessLabels(assemblyCode)[i])
  {
    if assemblyCode != [] {
      var first, rest := Kept(CleanLine(assemblyCode[0])), ProcessLabels(assemblyCode[1..]);
      ProcessedLines(assemblyCode[1..]);
      assert forall i :: 0 <= i < |first| ==> IsProcessedLine(first[i]);
      ProcessedConcat(first, rest);
    }
  }

  lemma ProcessedConcat(x: seq<string>, y: seq<string>)
    requires forall i :: 0 <= i < |x| ==> IsProcessedLine(x[i])
    requires forall i :: 0 <= i < |y| ==> IsProcessedLine(y[i])
    ensures forall i :: 0 <= i < |x + y| ==> IsProcessedLine((x + y)[i])
  {
    forall i | 0 <= i < |x + y| ensures IsProcessedLine((x + y)[i]) {
      if i < |x| { assert (x + y)[i] == x[i]; } else { assert (x + y)[i] == y[i - |x|]; }
    }
  }

  /** A cleaned line survives both filters unless it is empty or a label definition. */
  function Kept(line: string): seq<string>
  {
    if line != "" && !IsLabelLine(line) then [line] else []
  }

  lemma ConcatAssociative<T>(x: seq<T>, y: seq<T>, z: seq<T>)
    ensures x + (y + z) == (x + y) + z
  {
  }

  /** Lines are processed one at a time, in order. */
  lemma {:induction false} ProcessLabelsAppend(a: seq<string>, b: seq<string>)
    ensures ProcessLabels(a + b) == ProcessLabels(a) + ProcessLabels(b)
  {
    if a == [] {
      assert a + b == b;
    } else {
      var k := Kept(CleanLine(a[0]));
      calc {
        ProcessLabels(a + b);
        { assert a + b != []; }
        Kept(CleanLine((a + b)[0])) + ProcessLabels((a + b)[1..]);
        { assert (a + b)[0] == a[0]; assert (a + b)[1..] == a[1..] + b; }
        k + ProcessLabels(a[1..] + b);
        { ProcessLabelsAppend(a[1..], b); }
        k + (ProcessLabels(a[1..]) + ProcessLabels(b));
        { ConcatAssociative(k, ProcessLabels(a[1..]), ProcessLabels(b)); }
        (k + ProcessLabels(a[1..])) + ProcessLabels(b);
      }
    }
  }

  /** A label definition line is dropped whole, whatever follows the colon. */
  lemma LabelLineDropped(a: seq<string>, line: string)
    requires IsLabelLine(CleanLine(line))
    ensures ProcessLabels(a + [line]) == ProcessLabels(a)
  {
    ProcessLabelsAppend(a, [line]);
  }

  /** A line that is empty once its comment is cut and it is trimmed is dropped. */
  lemma BlankLineDropped(a: seq<string>, line: string)
    requires CleanLine(line) == ""
    ensures ProcessLabels(a + [line]) == ProcessLabels(a)
  {
    ProcessLabelsAppend(a, [line]);
  }

  /** Any other line is kept, cleaned. */
  lemma InstructionLineKept(a: seq<string>, line: string)
    requires CleanLine(line) != "" && !IsLabelLine(CleanLine(line))
    ensures ProcessLabels(a + [line]) == ProcessLabels(a) + [CleanLine(line)]
  {
    ProcessLabelsAppend(a, [line]);
  }

  /** `removeCommentsAndWhitespace`: the cleaned line, or `None` (the source's `null`) when nothing is left. */
  function RemoveCommentsAndWhitespace(instruction: string): (r: Option<string>)
    ensures r.Some? ==> |r.value| > 0 && All(NotHash, r.value) && Trim(r.value) == r.value
  {
    var t := CleanLine(instruction);
    if |t| > 0 then Some(t) else None
  }

  /** On a line `processLabels` passed on there is nothing left to remove. */
  lemma RemoveCommentsOfProcessed(line: string)
    requires IsProcessedLine(line)
    ensures RemoveCommentsAndWhitespace(line) == Some(line)
  {
    SpanExact(NotHash, line, |line|);
    assert BeforeComment(line) == line;
  }

  // ---------------------------------------------------------------------
  // One instruction
  // ---------------------------------------------------------------------

  /** `tokens.registers[name]`: the register's 5-bit code, or the text "undefined" for any other name. */
  function RegisterBits(name: string): string
  {
    if name in Registers then Registers[name] else "undefined"
  }

  /** Every register code is five binary digits. */
  lemma RegisterCodeIsBits(name: string)
    requires name in Registers
    ensures IsBits(RegisterBits(name), 5)
  {
    var n := RegisterNumber(name);
  }

  /** A converted literal in a word: `null` results are concatenated as the text "null". */
  function OrNull(s: Option<string>): string
  {
    if s.None? then "null" else s.value
  }

  /**
   * `compileRTypeInstruction`, for a line whose mnemonic is an R-type one (its
   * only caller checks that): the parser's error, or the fields of the
   * descriptor laid out as `opcode|rs|rt|rd|00000|funct`,
   * `opcode|00000|rt|rd|shamt|funct` or `opcode|rs|000000000000000|funct`.
   */
  function CompileRTypeInstruction(instruction: string): (r: Result<string, AssemblyError>)
    requires FirstToken(instruction) in RTypeInstructions
    ensures r.Err? <==> ParseInstruction(instruction).Err?
    ensures r.Err? ==> r.error == InvalidInstruction(instruction)
  {
    var parts := ParseInstruction(instruction);
    if parts.Err? then Err(parts.error)
    else
      ParsedCategoryIffTable(instruction);
      match parts.value
      case Register(opcode, rd, rs, rt) => Ok(RegisterWord(opcode, rd, rs, rt))
      case Shift(opcode, rd, rt, shamt) => Ok(ShiftWord(opcode, rd, rt, shamt))
      case RJump(opcode, rs) => Ok(JumpRegisterWord(opcode, rs))
      case _ => assert false; Err(InvalidInstruction(instruction))
  }

  /**
   * `compileITypeInstruction`, for a line whose mnemonic is an I-type one: the
   * parser's error, or `opcode|rs|rt|imm16` with the literal converted to 16
   * bits. The parser never marks an operand as a label, so neither the label
   * table nor the instruction's address is consulted (see `BranchImmediate`).
   */
  function CompileITypeInstruction(instruction: string, labels: map<string, int>, currentPC: int): (r: Result<string, AssemblyError>)
    requires FirstToken(instruction) in ITypeInstructions
    ensures r.Err? <==> ParseInstruction(instruction).Err?
    ensures r.Err? ==> r.error == InvalidInstruction(instruction)
  {
    var parts := ParseInstruction(instruction);
    if parts.Err? then Err(parts.error)
    else
      ParsedCategoryIffTable(instruction);
      match parts.value
      case Immediate(opcode, rt, rs, immediate) => Ok(ITypeWord(opcode, rs, rt, immediate))
      case LoadStore(opcode, rt, rs, immediate) => Ok(ITypeWord(opcode, rs, rt, immediate))
      case _ => assert false; Err(InvalidInstruction(instruction))
  }

  /** `opcode|rs|rt|rd|00000|funct` */
  function RegisterWord(opcode: string, rd: string, rs: string, rt: string): string
    requires opcode in RTypeInstructions
  {
    var entry := RTypeInstructions[opcode];
    entry.opcode + (RegisterBits(rs) + (RegisterBits(rt) + (RegisterBits(rd) + ("00000" + entry.funct))))
  }

  /** `opcode|00000|rt|rd|shamt|funct`, the shift amount converted to 5 digits. */
  function ShiftWord(opcode: string, rd: string, rt: string, shamt: string): string
    requires opcode in RTypeInstructions
  {
    var entry := RTypeInstructions[opcode];
    entry.opcode + ("00000" + (RegisterBits(rt) + (RegisterBits(rd) + (OrNull(ConvertImmediateToBinary(shamt, 5)) + entry.funct))))
  }

  /** `opcode|rs|00000|00000|00000|funct` */
  function JumpRegisterWord(opcode: string, rs: string): string
    requires opcode in RTypeInstructions
  {
    var entry := RTypeInstructions[opcode];
    entry.opcode + (RegisterBits(rs) + ("00000" + ("00000" + ("00000" + entry.funct))))
  }

  /** `opcode|rs|rt|imm16`, the literal converted to 16 digits. */
  function ITypeWord(opcode: string, rs: string, rt: string, immediate: string): string
    requires opcode in ITypeInstructions
  {
    ITypeInstructions[opcode].opcode + (RegisterBits(rs) + (RegisterBits(rt) + OrNull(ConvertImmediateToBinary(immediate, 16))))
  }

  predicate IsSeparator(c: char) { IsSpace(c) || c == ',' }

  predicate NotSeparator(c: char) { !IsSeparator(c) }

  /** `parts[0]` of `instruction.split(/[\s,]+/)`. */
  function FirstField(instruction: string): string
  {
    instruction[..Span(NotSeparator, instruction)]
  }

  /** `parts[1]` of `instruction.split(/[\s,]+/)`, or the text "undefined" when there is no second part. */
  function SecondField(instruction: string): string
  {
    var n := Span(NotSeparator, instruction);
    if n == |instruction| then "undefined"
    else
      var rest := instruction[n..];
      var field := rest[Span(IsSeparator, rest)..];
      field[..Span(NotSeparator, field)]
  }

  /** On a trimmed J-type line the first field of the split is the mnemonic. */
  lemma FirstFieldIsMnemonic(instruction: string)
    requires Trim(instruction) == instruction && FirstToken(instruction) in JTypeInstructions
    ensures FirstField(instruction) == FirstToken(instruction)
  {
    MnemonicsAreWords();
    var k := Span(IsNonSpace, instruction);
    SpanFacts(IsNonSpace, instruction);
    assert FirstToken(instruction) == instruction[..k];
    WordThenSpace(instruction, k);
  }

  /** A `\w+` word followed by white space or the end is the first field of the split. */
  lemma WordThenSpace(s: string, k: nat)
    requires k <= |s| && IsWord(s[..k]) && (k < |s| ==> IsSpace(s[k]))
    ensures Span(NotSeparator, s) == k
  {
    forall i | 0 <= i < k ensures NotSeparator(s[i]) {
      assert IsWordChar(s[..k][i]);
    }
    SpanExact(NotSeparator, s, k);
  }

  /**
   * `compileJTypeInstruction`, for a trimmed line whose mnemonic is a J-type
   * one: an undefined label error unless the second field of the line is a
   * label, else the opcode followed by the label's byte address `>>> 2` in
   * binary, padded to 26 digits.
   */
  function CompileJTypeInstruction(instruction: string, labels: map<string, int>): (r: Result<string, AssemblyError>)
    requires Trim(instruction) == instruction && FirstToken(instruction) in JTypeInstructions
    ensures r.Err? <==> SecondField(instruction) !in labels
    ensures r.Err? ==> r.error == UndefinedLabel(SecondField(instruction))
  {
    var name := SecondField(instruction);
    if name !in labels then Err(UndefinedLabel(name))
    else
      FirstFieldIsMnemonic(instruction);
      Ok(JTypeWord(FirstField(instruction), labels[name]))
  }

  /** The opcode followed by `address >>> 2` in binary, padded to 26 digits. */
  function JTypeWord(opcode: string, address: int): string
    requires opcode in JTypeInstructions
  {
    JTypeInstructions[opcode].opcode + PadStart(ToBinary(ToUint32(address) / 4), 26, '0')
  }

  /**
   * `compileInstruction` on a cleaned line: the table that holds the mnemonic
   * decides how the line is compiled, and a mnemonic in none of them is an
   * unknown instruction. Each error kind arises exactly in its own case.
   */
  function CompileInstruction(instruction: string, labels: map<string, int>, currentPC: int): (r: Result<string, AssemblyError>)
    requires Trim(instruction) == instruction
    ensures var op := FirstToken(instruction);
      r.Err? && r.error.UnknownInstruction? <==>
        op !in RTypeInstructions && op !in ITypeInstructions && op !in JTypeInstructions
    ensures var op := FirstToken(instruction);
      r.Err? && r.error.InvalidInstruction? <==>
        (op in RTypeInstructions || op in ITypeInstructions) && ParseInstruction(instruction).Err?
    ensures r.Err? && r.error.UndefinedLabel? <==>
      FirstToken(instruction) in JTypeInstructions && SecondField(instruction) !in labels
    ensures r.Err? ==> r.error in {UnknownInstruction(instruction), InvalidInstruction(instruction), UndefinedLabel(SecondField(instruction))}
  {
    TablesDisjoint();
    var opcode := FirstToken(instruction);
    if opcode in RTypeInstructions then CompileRTypeInstruction(instruction)
    else if opcode in ITypeInstructions then CompileITypeInstruction(instruction, labels, currentPC)
    else if opcode in JTypeInstructions then CompileJTypeInstruction(instruction, labels)
    else Err(UnknownInstruction(instruction))
  }

  // ---------------------------------------------------------------------
  // Word layouts
  // ---------------------------------------------------------------------

  /** A 32-bit R-type word with fields of 6, 5, 5, 5, 5 and 6 bits. */
  predicate IsRTypeWord(w: string, opcode: string, rs: string, rt: string, rd: string, shamt: string, funct: string) {
    IsBits(w, 32) && w[..6] == opcode && w[6..11] == rs && w[11..16] == rt && w[16..21] == rd && w[21..26] == shamt && w[26..] == funct
  }

  /** A 32-bit I-type word with fields of 6, 5, 5 and 16 bits. */
  predicate IsITypeWord(w: string, opcode: string, rs: string, rt: string, immediate: string) {
    IsBits(w, 32) && w[..6] == opcode && w[6..11] == rs && w[11..16] == rt && w[16..] == immediate
  }

  /** A 32-bit J-type word with fields of 6 and 26 bits. */
  predicate IsJTypeWord(w: string, opcode: string, target: string) {
    IsBits(w, 32) && w[..6] == opcode && w[6..] == target
  }

  lemma RTypeFields(opcode: string, rs: string, rt: string, rd: string, shamt: string, funct: string)
    requires IsBits(opcode, 6) && IsBits(rs, 5) && IsBits(rt, 5) && IsBits(rd, 5) && IsBits(shamt, 5) && IsBits(funct, 6)
    ensures IsRTypeWord(opcode + (rs + (rt + (rd + (shamt + funct)))), opcode, rs, rt, rd, shamt, funct)
  {
    var w := opcode + (rs + (rt + (rd + (shamt + funct))));
    assert w[6..] == rs + (rt + (rd + (shamt + funct)));
    assert w[11..] == rt + (rd + (shamt + funct));
    assert w[16..] == rd + (shamt + funct);
    assert w[21..] == shamt + funct;
  }

  lemma ITypeFields(opcode: string, rs: string, rt: string, immediate: string)
    requires IsBits(opcode, 6) && IsBits(rs, 5) && IsBits(rt, 5) && IsBits(immediate, 16)
    ensures IsITypeWord(opcode + (rs + (rt + immediate)), opcode, rs, rt, immediate)
  {
    var w := opcode + (rs + (rt + immediate));
    assert w[6..] == rs + (rt + immediate);
    assert w[11..] == rt + immediate;
  }

  /** With known registers, a register word is `000000|rs|rt|rd|00000|funct`. */
  lemma RegisterWordLayout(opcode: string, rd: string, rs: string, rt: string)
    requires opcode in RTypeInstructions && rd in Registers && rs in Registers && rt in Registers
    ensures IsRTypeWord(RegisterWord(opcode, rd, rs, rt), "000000", Registers[rs], Registers[rt], Registers[rd], "00000", RTypeInstructions[opcode].funct)
  {
    RTypeEntry(opcode);
    RegisterCodeIsBits(rs);
    RegisterCodeIsBits(rt);
    RegisterCodeIsBits(rd);
    RTypeFields("000000", Registers[rs], Registers[rt], Registers[rd], "00000", RTypeInstructions[opcode].funct);
  }

  /** With known registers and a shift amount below 32, a shift word is `000000|00000|rt|rd|shamt|funct`. */
  lemma ShiftWordLayout(opcode: string, rd: string, rt: string, shamt: string)
    requires opcode in RTypeInstructions && rd in Registers && rt in Registers
    requires IsShiftAmountLiteral(shamt) && LiteralValue(shamt) < 32
    ensures IsRTypeWord(ShiftWord(opcode, rd, rt, shamt), "000000", "00000", Registers[rt], Registers[rd], NatToBits(LiteralValue(shamt), 5), RTypeInstructions[opcode].funct)
  {
    RTypeEntry(opcode);
    RegisterCodeIsBits(rt);
    RegisterCodeIsBits(rd);
    ShiftAmount(shamt);
    RTypeFields("000000", "00000", Registers[rt], Registers[rd], NatToBits(LiteralValue(shamt), 5), RTypeInstructions[opcode].funct);
  }

  /** A shift amount converts to its 5-bit encoding when it is below 32, and to `null` otherwise. */
  lemma ShiftAmount(shamt: string)
    requires IsShiftAmountLiteral(shamt)
    ensures LiteralValue(shamt) >= 0
    ensures ConvertImmediateToBinary(shamt, 5) == if LiteralValue(shamt) < 32 then Some(NatToBits(LiteralValue(shamt), 5)) else None
  {
    Pow2Values();
    if IsDecimalLiteral(shamt) {
      assert !IsNegativeLiteral(shamt) && !IsHexLiteral(shamt) && !IsBinaryLiteral(shamt);
      ConvertDecimal(shamt, 5);
    } else {
      assert !IsNegativeLiteral(shamt) && !IsBinaryLiteral(shamt);
      ConvertHex(shamt, 5);
    }
  }

  /** A shift amount of 32 or more is not range-checked: the text "null" takes the place of the field. */
  lemma ShiftWordTooLarge(opcode: string, rd: string, rt: string, shamt: string)
    requires opcode in RTypeInstructions && rd in Registers && rt in Registers
    requires IsShiftAmountLiteral(shamt) && LiteralValue(shamt) >= 32
    ensures var w := ShiftWord(opcode, rd, rt, shamt); |w| == 31 && w[21..25] == "null"
  {
    RTypeEntry(opcode);
    RegisterCodeIsBits(rt);
    RegisterCodeIsBits(rd);
    ShiftAmount(shamt);
    var tail := "null" + RTypeInstructions[opcode].funct;
    var w := "000000" + ("00000" + (Registers[rt] + (Registers[rd] + tail)));
    assert w[21..] == tail;
  }

  /** With a known register, a `jr` word is `000000|rs|00000|00000|00000|001000`. */
  lemma JumpRegisterWordLayout(opcode: string, rs: string)
    requires opcode in RTypeInstructions && rs in Registers
    ensures IsRTypeWord(JumpRegisterWord(opcode, rs), "000000", Registers[rs], "00000", "00000", "00000", RTypeInstructions[opcode].funct)
  {
    RTypeEntry(opcode);
    RegisterCodeIsBits(rs);
    RTypeFields("000000", Registers[rs], "00000", "00000", "00000", RTypeInstructions[opcode].funct);
  }

  /**
   * A literal whose 16-bit conversion gives back its value: in the signed
   * 16-bit range, not `-0` (which does not fit), and for a `0b` literal
   * spelled with a lower-case `b` and at most 16 digits.
   */
  predicate IsEncodableImmediate(s: string) {
    IsImmediateLiteral(s) && -0x8000 <= LiteralValue(s) < 0x8000
    && (IsNegativeLiteral(s) ==> LiteralValue(s) < 0)
    && (IsBinaryLiteral(s) ==> s[1] == 'b' && |s| <= 18)
  }

  /** The 16-bit pattern the literal's value has in two's complement. */
  function Unsigned16(v: int): nat
    requires -0x8000 <= v < 0x8000
  {
    if v < 0 then 0x1_0000 + v else v
  }

  /** An encodable literal converts to the two's-complement encoding of its value, and reads back as that value. */
  lemma ConvertImmediateRoundTrip(s: string)
    requires IsEncodableImmediate(s)
    ensures ConvertImmediateToBinary(s, 16) == Some(NatToBits(Unsigned16(LiteralValue(s)), 16))
    ensures TwosComplement(NatToBits(Unsigned16(LiteralValue(s)), 16)) == LiteralValue(s)
  {
    if IsNegativeLiteral(s) {
      NegativeLiteralRoundTrip(s);
    } else {
      NonNegativeLiteralConverts(s);
    }
    Unsigned16Bits(LiteralValue(s));
  }

  lemma NonNegativeLiteralConverts(s: string)
    requires IsEncodableImmediate(s) && !IsNegativeLiteral(s)
    ensures ConvertImmediateToBinary(s, 16) == Some(NatToBits(Unsigned16(LiteralValue(s)), 16))
  {
    Pow2Values();
    if IsHexLiteral(s) {
      ConvertHex(s, 16);
    } else if IsBinaryLiteral(s) {
      ConvertBinary(s, 16);
    } else {
      ConvertDecimal(s, 16);
    }
  }

  /** The two's-complement pattern of a 16-bit value reads back as that value. */
  lemma Unsigned16Bits(v: int)
    requires -0x8000 <= v < 0x8000
    ensures IsBits(NatToBits(Unsigned16(v), 16), 16) && TwosComplement(NatToBits(Unsigned16(v), 16)) == v
  {
    assert Unsigned16(v) < Pow2(16) && Pow2(15) == 0x8000 by { Pow2Values(); }
    TwosComplementOfNatToBits(Unsigned16(v), 16);
  }

  lemma NegativeLiteralRoundTrip(s: string)
    requires IsNegativeLiteral(s) && -0x8000 <= LiteralValue(s) < 0
    ensures ConvertImmediateToBinary(s, 16) == Some(NatToBits(Unsigned16(LiteralValue(s)), 16))
  {
    Pow2Values();
    assert LiteralValue(s) == -(DigitsValue(s[1..], 10) as int);
    ConvertNegative(s, 16);
  }

  /** With known registers and an encodable literal, an I-type word is `opcode|rs|rt|imm16`, the last field reading back as the literal. */
  lemma ITypeWordLayout(opcode: string, rs: string, rt: string, immediate: string)
    requires opcode in ITypeInstructions && rs in Registers && rt in Registers && IsEncodableImmediate(immediate)
    ensures var w := ITypeWord(opcode, rs, rt, immediate);
      && IsITypeWord(w, ITypeInstructions[opcode].opcode, Registers[rs], Registers[rt], NatToBits(Unsigned16(LiteralValue(immediate)), 16))
      && TwosComplement(w[16..]) == LiteralValue(immediate)
  {
    ITypeEntry(opcode);
    RegisterCodeIsBits(rs);
    RegisterCodeIsBits(rt);
    ConvertImmediateRoundTrip(immediate);
    ITypeFields(ITypeInstructions[opcode].opcode, Registers[rs], Registers[rt], NatToBits(Unsigned16(LiteralValue(immediate)), 16));
  }

  /**
   * For a byte address below 2^28 a J-type word is the opcode and
   * `address >>> 2` in 26 bits; for an aligned address four times the field
   * is the address.
   */
  lemma JTypeWordLayout(opcode: string, address: int)
    requires opcode in JTypeInstructions && 0 <= address < 0x1000_0000
    ensures var w := JTypeWord(opcode, address);
      && IsJTypeWord(w, JTypeInstructions[opcode].opcode, NatToBits(address / 4, 26))
      && (address % 4 == 0 ==> 4 * BinToNat(w[6..]) == address)
  {
    var n, op := address / 4, JTypeInstructions[opcode].opcode;
    var field := NatToBits(n, 26);
    assert n < Pow2(26) by { Pow2Values(); }
    assert PadStart(ToBinary(n), 26, '0') == field by { PaddedBinary(n, 26); }
    assert JTypeWord(opcode, address) == op + field;
    assert IsBits(op, 6) by { JTypeEntry(opcode); }
    assert (op + field)[6..] == field;
    assert BinToNat(field) == n by {
      BinToNatOfNatToBits(n, 26);
      ModUnique(n, Pow2(26), 0, n);
    }
  }

  // ---------------------------------------------------------------------
  // What each kind of line compiles to
  // ---------------------------------------------------------------------

  /** A line the parser reads as an R-type descriptor compiles to that descriptor's word. */
  lemma CompilesRType(instruction: string, labels: map<string, int>, currentPC: int)
    requires Trim(instruction) == instruction
    requires ParseInstruction(instruction).Ok? && ParseInstruction(instruction).value.IsRType()
    ensures var d := ParseInstruction(instruction).value;
      && d.opcode in RTypeInstructions
      && CompileInstruction(instruction, labels, currentPC) == Ok(
           match d
           case Register(opcode, rd, rs, rt) => RegisterWord(opcode, rd, rs, rt)
           case Shift(opcode, rd, rt, shamt) => ShiftWord(opcode, rd, rt, shamt)
           case RJump(opcode, rs) => JumpRegisterWord(opcode, rs)
           case _ => "")
  {
    ParsedCategoryIffTable(instruction);
  }

  /** A line the parser reads as an `Immediate` or `LoadStore` descriptor compiles to `ITypeWord`. */
  lemma CompilesIType(instruction: string, labels: map<string, int>, currentPC: int)
    requires Trim(instruction) == instruction
    requires ParseInstruction(instruction).Ok?
    requires ParseInstruction(instruction).value.Immediate? || ParseInstruction(instruction).value.LoadStore?
    ensures var d := ParseInstruction(instruction).value;
      && d.opcode in ITypeInstructions
      && CompileInstruction(instruction, labels, currentPC) == Ok(ITypeWord(d.opcode, d.rs, d.rt, d.immediate))
  {
    ParsedCategoryIffTable(instruction);
  }

  /** A trimmed J-type line whose second field is a label compiles to `JTypeWord` of the label's address. */
  lemma CompilesJType(instruction: string, labels: map<string, int>, currentPC: int)
    requires Trim(instruction) == instruction && FirstToken(instruction) in JTypeInstructions
    requires SecondField(instruction) in labels
    ensures CompileInstruction(instruction, labels, currentPC) ==
      Ok(JTypeWord(FirstToken(instruction), labels[SecondField(instruction)]))
  {
    TablesDisjoint();
    FirstFieldIsMnemonic(instruction);
  }

  // ---------------------------------------------------------------------
  // Branches to labels
  // ---------------------------------------------------------------------

  /**
   * The 16-bit field the branch-to-label path of `compileITypeInstruction`
   * computes for `beq`/`bne`: the distance from the next instruction to the
   * label, a 32-bit arithmetic shift right by two, negatives as 2^16 + v,
   * then `toString(2)` padded to 16 digits.
   */
  function BranchImmediate(targetAddress: int, currentPC: int): string
  {
    var offset := ToInt32(targetAddress - (currentPC + 4)) / 4;
    var value := if offset < 0 then 0x1_0000 + offset else offset;
    PadStart(NumberToBinary(value), 16, '0')
  }

  /**
   * For a word-aligned label within reach of a 16-bit word offset, the field
   * is 16 bits, and the next instruction's address plus four times its
   * two's-complement value is the label's address.
   */
  lemma BranchImmediateLands(targetAddress: int, currentPC: int)
    requires targetAddress % 4 == 0 && currentPC % 4 == 0
    requires -0x8000 <= (targetAddress - (currentPC + 4)) / 4 < 0x8000
    ensures var field := BranchImmediate(targetAddress, currentPC);
      IsBits(field, 16) && currentPC + 4 + 4 * TwosComplement(field) == targetAddress
  {
    var d := targetAddress - (currentPC + 4);
    assert 4 * (d / 4) == d && ToInt32(d) == d by { Pow2Values(); }
    assert BranchImmediate(targetAddress, currentPC) == PadStart(NumberToBinary(Unsigned16(d / 4)), 16, '0');
    SixteenBitField(d / 4);
  }

  /** A 16-bit value written as its two's-complement pattern in 16 binary digits reads back as itself. */
  lemma SixteenBitField(v: int)
    requires -0x8000 <= v < 0x8000
    ensures var field := PadStart(NumberToBinary(Unsigned16(v)), 16, '0');
      IsBits(field, 16) && TwosComplement(field) == v
  {
    assert Unsigned16(v) < Pow2(16) by { Pow2Values(); }
    PaddedValue(Unsigned16(v), 16);
    Unsigned16Bits(v);
  }

  // ---------------------------------------------------------------------
  // The two passes
  // ---------------------------------------------------------------------

  /** `parseInt(word, 2).toString(16).padStart(8, "0")`. */
  function HexWord(word: string): string
  {
    PadStart(ParsedToHex(ParseInt(word, 2)), 8, '0')
  }

  /** A 32-bit word becomes eight lower-case hexadecimal digits with the same value. */
  lemma HexWordOfBits(word: string)
    requires IsBits(word, 32)
    ensures var h := HexWord(word);
      && |h| == 8
      && (forall i :: 0 <= i < 8 ==> DigitValue(h[i]) < 16 && !('A' <= h[i] <= 'Z'))
      && DigitsValue(h, 16) == BinToNat(word)
  {
    ParseIntOfBits(word);
    BinToNatBound(word);
    PaddedHex(BinToNat(word), 8);
  }

  /** `parseInt(word, 2)` reads a binary word as its value. */
  lemma ParseIntOfBits(word: string)
    requires |word| > 0 && IsBits(word, |word|)
    ensures ParseInt(word, 2) == Some(BinToNat(word))
  {
    NoLeadingSpace(word);
    assert word[0] != '-' && word[0] != '+';
    DigitRunAll(word, 2);
    DigitsValueOfBits(word);
  }

  /**
   * What the `forEach` callback does with each line of `code`: `None` when
   * nothing is left once comments and white space are removed (the line is
   * skipped), otherwise `compileInstruction` on the cleaned line at byte
   * address `4 * i`.
   */
  function LineResults(code: seq<string>, labels: map<string, int>): (rs: seq<Option<Result<string, AssemblyError>>>)
    ensures |rs| == |code|
  {
    seq(|code|, i requires 0 <= i < |code| =>
      var cleaned := RemoveCommentsAndWhitespace(code[i]);
      if cleaned.None? then None else Some(CompileInstruction(cleaned.value, labels, 4 * i)))
  }

  /** No line `processLabels` passes on is skipped, and none changes on the second cleaning. */
  lemma ProcessedLinesCompiled(assemblyCode: seq<string>, labels: map<string, int>)
    ensures var code := ProcessLabels(assemblyCode);
      forall i :: 0 <= i < |code| ==>
        IsProcessedLine(code[i]) && LineResults(code, labels)[i] == Some(CompileInstruction(code[i], labels, 4 * i))
  {
    var code := ProcessLabels(assemblyCode);
    ProcessedLines(assemblyCode);
    forall i | 0 <= i < |code|
      ensures IsProcessedLine(code[i]) && LineResults(code, labels)[i] == Some(CompileInstruction(code[i], labels, 4 * i))
    {
      RemoveCommentsOfProcessed(code[i]);
    }
  }

  /**
   * The outcome of the lines' results taken one after another, when the
   * first failure ends the pass: the first error, or every word in order.
   */
  function CollectResults<T, E>(rs: seq<Option<Result<T, E>>>): Result<seq<T>, E>
  {
    if rs == [] then Ok([])
    else
      match CollectResults(rs[..|rs| - 1])
      case Err(e) => Err(e)
      case Ok(ws) =>
        match rs[|rs| - 1]
        case None => Ok(ws)
        case Some(Err(e)) => Err(e)
        case Some(Ok(w)) => Ok(ws + [w])
  }

  /** `k` is the first line whose compilation fails. */
  predicate FirstFailureAt<T, E>(rs: seq<Option<Result<T, E>>>, k: int) {
    && 0 <= k < |rs| && rs[k].Some? && rs[k].value.Err?
    && forall j :: 0 <= j < k ==> rs[j].None? || rs[j].value.Ok?
  }

  /** A pass succeeds exactly when no line fails. */
  lemma {:induction false} CollectResultsOk<T, E>(rs: seq<Option<Result<T, E>>>)
    ensures CollectResults(rs).Ok? <==> forall i :: 0 <= i < |rs| ==> rs[i].None? || rs[i].value.Ok?
  {
    if rs != [] {
      var init := rs[..|rs| - 1];
      CollectResultsOk(init);
      assert forall i :: 0 <= i < |init| ==> init[i] == rs[i];
    }
  }

  /** When no line is skipped, a successful pass has one word per line, in order. */
  lemma {:induction false} CollectResultsWords<T, E>(rs: seq<Option<Result<T, E>>>)
    requires forall i :: 0 <= i < |rs| ==> rs[i].Some?
    ensures CollectResults(rs).Ok? ==>
      |CollectResults(rs).value| == |rs| && forall i :: 0 <= i < |rs| ==> rs[i] == Some(Ok(CollectResults(rs).value[i]))
  {
    if rs != [] {
      var init := rs[..|rs| - 1];
      assert forall i :: 0 <= i < |init| ==> init[i] == rs[i];
      CollectResultsWords(init);
    }
  }

  /** A failing pass reports the error of the first line that fails. */
  lemma {:induction false} CollectResultsFirstFailure<T, E>(rs: seq<Option<Result<T, E>>>, k: int)
    requires FirstFailureAt(rs, k)
    ensures CollectResults(rs) == Err(rs[k].value.error)
  {
    var init := rs[..|rs| - 1];
    if k < |rs| - 1 {
      assert FirstFailureAt(init, k) by {
        assert forall j :: 0 <= j <= k ==> init[j] == rs[j];
      }
      CollectResultsFirstFailure(init, k);
    } else {
      CollectResultsOk(init);
      assert forall i :: 0 <= i < |init| ==> init[i] == rs[i];
    }
  }

  /** One step of the pass: a skipped line adds nothing, a word is appended, an error ends the pass. */
  lemma CollectResultsStep<T, E>(rs: seq<Option<Result<T, E>>>, k: int, ws: seq<T>)
    requires 0 <= k < |rs| && CollectResults(rs[..k]) == Ok(ws)
    ensures rs[k].None? ==> CollectResults(rs[..k + 1]) == Ok(ws)
    ensures rs[k].Some? && rs[k].value.Ok? ==> CollectResults(rs[..k + 1]) == Ok(ws + [rs[k].value.value])
    ensures rs[k].Some? && rs[k].value.Err? ==> CollectResults(rs) == Err(rs[k].value.error)
  {
    assert rs[..k + 1][..k] == rs[..k];
    if rs[k].Some? && rs[k].value.Err? {
      CollectResultsOk(rs[..k]);
      assert FirstFailureAt(rs, k) by {
        forall j | 0 <= j < k ensures rs[j].None? || rs[j].value.Ok? { assert rs[..k][j] == rs[j]; }
      }
      CollectResultsFirstFailure(rs, k);
    }
  }

  /** Each word of a listing written as `HexWord`. */
  function HexWords(ws: seq<string>): (hs: seq<string>)
    ensures |hs| == |ws|
  {
    if ws == [] then [] else HexWords(ws[..|ws| - 1]) + [HexWord(ws[|ws| - 1])]
  }

  /** The hexadecimal listing has one entry per word: the `HexWord` of the word at the same position. */
  lemma {:induction false} HexWordsAt(ws: seq<string>, i: int)
    requires 0 <= i < |ws|
    ensures HexWords(ws)[i] == HexWord(ws[i])
  {
    var init := ws[..|ws| - 1];
    if i < |ws| - 1 {
      HexWordsAt(init, i);
      assert init[i] == ws[i];
    }
  }

  /** Appending a word appends its hexadecimal form. */
  lemma HexWordsAppend(ws: seq<string>, w: string)
    ensures HexWords(ws + [w]) == HexWords(ws) + [HexWord(w)]
  {
    assert (ws + [w])[..|ws|] == ws;
  }

  /** The `forEach` callback on line `index`: skip the line, or compile it at byte address `4 * index`. */
  method CompileLine(code: seq<string>, labels: map<string, int>, index: int) returns (compiled: Option<Result<string, AssemblyError>>)
    requires 0 <= index < |code|
    ensures compiled == LineResults(code, labels)[index]
  {
    var cleaned := RemoveCommentsAndWhitespace(code[index]);
    if cleaned.None? {
      return None;
    }
    var c := CompileInstruction(cleaned.value, labels, index * 4);
    return Some(c);
  }

  /**
   * `compileToBin`: the processed lines compiled in order, the i-th at byte
   * address 4*i; the first line that fails ends the pass with its error.
   */
  method CompileToBin(assemblyCode: seq<string>, labels: map<string, int>) returns (r: Result<seq<string>, AssemblyError>)
    ensures r == CollectResults(LineResults(ProcessLabels(assemblyCode), labels))
  {
    var code := ProcessLabels(assemblyCode);
    ghost var results := LineResults(code, labels);
    var machineCode: seq<string> := [];
    var index := 0;
    while index < |code|
      invariant index <= |code| && CollectResults(results[..index]) == Ok(machineCode)
    {
      var compiled := CompileLine(code, labels, index);
      CollectResultsStep(results, index, machineCode);
      match compiled {
        case None =>
        case Some(Err(e)) => return Err(e);
        case Some(Ok(w)) => machineCode := machineCode + [w];
      }
      index := index + 1;
    }
    assert results[..index] == results;
    return Ok(machineCode);
  }

  /**
   * `compileToHex`: the same pass, each word written as `HexWord` of it; for
   * 32-bit words that is eight hexadecimal digits of the same value.
   */
  method CompileToHex(assemblyCode: seq<string>, labels: map<string, int>) returns (r: Result<seq<string>, AssemblyError>)
    ensures var binary := CollectResults(LineResults(ProcessLabels(assemblyCode), labels));
      r == if binary.Ok? then Ok(HexWords(binary.value)) else Err(binary.error)
  {
    var code := ProcessLabels(assemblyCode);
    ghost var results := LineResults(code, labels);
    ghost var words: seq<string> := [];
    var machineCode: seq<string> := [];
    var index := 0;
    while index < |code|
      invariant index <= |code| && CollectResults(results[..index]) == Ok(words) && machineCode == HexWords(words)
    {
      var compiled := CompileLine(code, labels, index);
      CollectResultsStep(results, index, words);
      match compiled {
        case None =>
        case Some(Err(e)) => return Err(e);
        case Some(Ok(w)) =>
          var hexCode := HexWord(w);
          HexWordsAppend(words, w);
          words := words + [w];
          machineCode := machineCode + [hexCode];
      }
      index := index + 1;
    }
    assert results[..index] == results;
    return Ok(machineCode);
  }
}
