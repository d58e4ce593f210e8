/**
 * The instruction parser: one assembly line against the seven line grammars
 * (three R-type, three I-type, one J-type), then the category-and-table gate
 * that picks which grammar's reading is the answer.
 *
 * Each regular expression of the parser is written out as a deterministic
 * recognizer over the characters of the line; `\w` is [A-Za-z0-9_], `\d` the
 * ASCII digits and `\s` the ECMAScript white-space set. The patterns carry the
 * case-insensitive flag, which lets `0X`/`0B` prefixes through and matches the
 * literal mnemonics `jr` and `lui` in any case.
 */
module Parser {
  import opened Results
  import opened Bits
  import opened Tokens

  // ---------------------------------------------------------------------
  // Character classes
  // ---------------------------------------------------------------------

  /** `\w` */
  predicate IsWordChar(c: char) {
    ('a' <= c <= 'z') || ('A' <= c <= 'Z') || ('0' <= c <= '9') || c == '_'
  }

  /** `\d` */
  predicate IsDigit(c: char) { '0' <= c <= '9' }

  /** `[\da-fA-F]` */
  predicate IsHexDigit(c: char) { IsDigit(c) || ('a' <= c <= 'f') || ('A' <= c <= 'F') }

  /** `\s`, which is also the set `String.prototype.trim` removes. */
  predicate IsSpace(c: char) {
    var n := c as int;
    (9 <= n <= 13) || n == 32 || n == 0xA0 || n == 0x1680 || (0x2000 <= n <= 0x200A)
    || n == 0x2028 || n == 0x2029 || n == 0x202F || n == 0x205F || n == 0x3000 || n == 0xFEFF
  }

  predicate IsNonSpace(c: char) { !IsSpace(c) }

  predicate NotOpenParen(c: char) { c != '(' }

  predicate All(p: char -> bool, s: string) { forall i :: 0 <= i < |s| ==> p(s[i]) }

  /** `\w+` matches all of `s`. */
  predicate IsWord(s: string) { |s| > 0 && All(IsWordChar, s) }

  // ---------------------------------------------------------------------
  // Spans, trimming and the first token
  // ---------------------------------------------------------------------

  /** The length of the longest prefix of `s` whose characters satisfy `p`. */
  function Span(p: char -> bool, s: string): (n: nat)
    ensures n <= |s|
  {
    if |s| > 0 && p(s[0]) then 1 + Span(p, s[1..]) else 0
  }

  /** Every character of the span satisfies `p`, and the one after it, if any, does not. */
  lemma {:induction false} SpanFacts(p: char -> bool, s: string)
    ensures forall i :: 0 <= i < Span(p, s) ==> p(s[i])
    ensures Span(p, s) < |s| ==> !p(s[Span(p, s)])
  {
    if |s| > 0 && p(s[0]) {
      SpanFacts(p, s[1..]);
      forall i | 0 <= i < Span(p, s) ensures p(s[i]) {
        if i > 0 { assert s[i] == s[1..][i - 1]; }
      }
    }
  }

  /** The length of the longest suffix of `s` whose characters satisfy `p`. */
  function TrailingSpan(p: char -> bool, s: string): (n: nat)
    ensures n <= |s|
  {
    if |s| > 0 && p(s[|s| - 1]) then 1 + TrailingSpan(p, s[..|s| - 1]) else 0
  }

  /** Every character of the trailing span satisfies `p`, and the one before it, if any, does not. */
  lemma {:induction false} TrailingSpanFacts(p: char -> bool, s: string)
    ensures forall i :: |s| - TrailingSpan(p, s) <= i < |s| ==> p(s[i])
    ensures TrailingSpan(p, s) < |s| ==> !p(s[|s| - TrailingSpan(p, s) - 1])
  {
    if |s| > 0 && p(s[|s| - 1]) {
      var init := s[..|s| - 1];
      TrailingSpanFacts(p, init);
      forall i | |s| - TrailingSpan(p, s) <= i < |s| ensures p(s[i]) {
        if i < |s| - 1 { assert s[i] == init[i]; }
      }
    }
  }

  /** A span is determined by where the run of `p` characters stops. */
  lemma {:induction false} SpanExact(p: char -> bool, s: string, n: nat)
    requires n <= |s|
    requires forall i :: 0 <= i < n ==> p(s[i])
    requires n < |s| ==> !p(s[n])
    ensures Span(p, s) == n
  {
    if n > 0 {
      SpanExact(p, s[1..], n - 1);
    }
  }

  /** `String.prototype.trim`. */
  function Trim(s: string): (t: string)
    ensures |t| <= |s|
    ensures |t| > 0 ==> IsNonSpace(t[0]) && IsNonSpace(t[|t| - 1])
    ensures Span(IsSpace, s) + |t| <= |s|
  {
    var a := Span(IsSpace, s);
    var rest := s[a..];
    SpanFacts(IsSpace, s);
    TrailingSpanFacts(IsSpace, rest);
    rest[..|rest| - TrailingSpan(IsSpace, rest)]
  }

  /** The mnemonic `parseInstruction` reads: the first field of the trimmed line split at white space. */
  function FirstToken(line: string): (token: string)
    ensures All(IsNonSpace, token)
  {
    var t := Trim(line);
    SpanFacts(IsNonSpace, t);
    t[..Span(IsNonSpace, t)]
  }

  // ---------------------------------------------------------------------
  // Literal operands
  // ---------------------------------------------------------------------

  /** `\d+` */
  predicate IsDecimalLiteral(s: string) { |s| > 0 && All(IsDigit, s) }

  /** `0x[\da-fA-F]+`, case-insensitively. */
  predicate IsHexLiteral(s: string) {
    |s| > 2 && s[0] == '0' && (s[1] == 'x' || s[1] == 'X') && All(IsHexDigit, s[2..])
  }

  /** `0b[01]+`, case-insensitively. */
  predicate IsBinaryLiteral(s: string) {
    |s| > 2 && s[0] == '0' && (s[1] == 'b' || s[1] == 'B') && All(IsBit, s[2..])
  }

  /** `-?\d+` with the sign present. */
  predicate IsNegativeLiteral(s: string) { |s| > 1 && s[0] == '-' && IsDecimalLiteral(s[1..]) }

  /** The shift amount of a shift instruction: `\d+|0x[\da-fA-F]+`. */
  predicate IsShiftAmountLiteral(s: string) { IsDecimalLiteral(s) || IsHexLiteral(s) }

  /** The immediate of an I-type instruction: `-?\d+|0x[\da-fA-F]+|0b[01]+`. */
  predicate IsImmediateLiteral(s: string) {
    IsDecimalLiteral(s) || IsNegativeLiteral(s) || IsHexLiteral(s) || IsBinaryLiteral(s)
  }

  /** The target of a J-type instruction: `\d+|0x[\da-fA-F]+|0b[01]+`. */
  predicate IsTargetLiteral(s: string) {
    IsDecimalLiteral(s) || IsHexLiteral(s) || IsBinaryLiteral(s)
  }

  // ---------------------------------------------------------------------
  // Descriptors
  // ---------------------------------------------------------------------

  /**
   * What the parser returns for a line, one constructor per category. Register
   * operands carry their `$`; literals are kept as written.
   */
  datatype Descriptor =
    | Register(opcode: string, rd: string, rs: string, rt: string)
    | Shift(opcode: string, rd: string, rt: string, shamt: string)
    | RJump(opcode: string, rs: string)
    | Immediate(opcode: string, rt: string, rs: string, immediate: string)
    | LoadStore(opcode: string, rt: string, rs: string, immediate: string)
    | LoadUpperImmediate(opcode: string, rt: string, immediate: string)
    | Jump(opcode: string, target: string)
  {
    predicate IsRType() { Register? || Shift? || RJump? }
    predicate IsIType() { Immediate? || LoadStore? || LoadUpperImmediate? }
    predicate IsJType() { Jump? }

    /** What the grammars guarantee of the operands of a descriptor they return. */
    predicate WellFormed() {
      match this
      case Register(_, rd, rs, rt) => IsRegisterOperand(rd) && IsRegisterOperand(rs) && IsRegisterOperand(rt)
      case Shift(_, rd, rt, shamt) => IsRegisterOperand(rd) && IsRegisterOperand(rt) && IsShiftAmountLiteral(shamt)
      case RJump(_, rs) => IsRegisterOperand(rs)
      case Immediate(_, rt, rs, immediate) => IsRegisterOperand(rt) && IsRegisterOperand(rs) && IsImmediateLiteral(immediate)
      case LoadStore(_, rt, rs, immediate) => IsRegisterOperand(rt) && IsRegisterOperand(rs) && IsImmediateLiteral(immediate)
      case LoadUpperImmediate(_, rt, immediate) => IsRegisterOperand(rt) && IsImmediateLiteral(immediate)
      case Jump(_, target) => IsTargetLiteral(target)
    }
  }

  /** The errors the assembler raises; the parser raises the first, the compiler the other two. */
  datatype AssemblyError =
    | InvalidInstruction(line: string)
    | UnknownInstruction(line: string)
    | UndefinedLabel(name: string)

  /** A register operand as the grammars capture it: `$` and a word. */
  predicate IsRegisterOperand(s: string) { |s| > 1 && s[0] == '$' && IsWord(s[1..]) }

  // ---------------------------------------------------------------------
  // Recognizers for the pieces of a line
  // ---------------------------------------------------------------------

  /** A captured token and the text after it. */
  datatype Scan = Scan(token: string, rest: string)

  /** `\s*` */
  function SkipSpaces(s: string): (r: string)
    ensures |r| <= |s| && (|r| > 0 ==> IsNonSpace(r[0]))
  {
    SpanFacts(IsSpace, s);
    s[Span(IsSpace, s)..]
  }

  /** `\s+` */
  function Spaces1(s: string): (r: Option<string>)
    ensures r.Some? ==> |r.value| < |s| && (|r.value| > 0 ==> IsNonSpace(r.value[0]))
  {
    var n := Span(IsSpace, s);
    SpanFacts(IsSpace, s);
    if n == 0 then None else Some(s[n..])
  }

  /** `^(\w+)\s+`: the mnemonic and the operands after the gap. */
  function HeadWord(s: string): (r: Option<Scan>)
    ensures r.Some? ==> IsWord(r.value.token) && (|r.value.rest| > 0 ==> IsNonSpace(r.value.rest[0]))
  {
    var n := Span(IsWordChar, s);
    SpanFacts(IsWordChar, s);
    if n == 0 || Spaces1(s[n..]).None? then None
    else Some(Scan(s[..n], Spaces1(s[n..]).value))
  }

  /** `\$(\w+),\s*`: a register word, its comma and the gap after it. */
  function RegisterComma(s: string): (r: Option<Scan>)
    ensures r.Some? ==> IsWord(r.value.token) && |r.value.rest| < |s|
    ensures r.Some? ==> |r.value.rest| > 0 ==> IsNonSpace(r.value.rest[0])
  {
    if |s| == 0 || s[0] != '$' then None
    else
      var n := Span(IsWordChar, s[1..]);
      SpanFacts(IsWordChar, s[1..]);
      if n == 0 || 1 + n >= |s| || s[1 + n] != ',' then None
      else Some(Scan(s[1..1 + n], SkipSpaces(s[2 + n..])))
  }

  /** `\$(\w+)$`: a register word that ends the line. */
  function RegisterEnd(s: string): (r: Option<string>)
    ensures r.Some? <==> IsRegisterOperand(s)
    ensures r.Some? ==> s == "$" + r.value
  {
    if IsRegisterOperand(s) then Some(s[1..]) else None
  }

  // ---------------------------------------------------------------------
  // The seven line grammars
  // ---------------------------------------------------------------------

  /** `<opcode> $rd, $rs, $rt` */
  function RegisterForm(line: string): (r: Option<Descriptor>)
    ensures r.Some? ==> r.value.Register? && r.value.opcode == FirstToken(line) && IsWord(r.value.opcode)
    ensures r.Some? ==> IsRegisterOperand(r.value.rd) && IsRegisterOperand(r.value.rs) && IsRegisterOperand(r.value.rt)
  {
    var head := HeadWord(line);
    if head.None? then None
    else
      var rd := RegisterComma(head.value.rest);
      if rd.None? then None
      else
        var rs := RegisterComma(rd.value.rest);
        if rs.None? || RegisterEnd(rs.value.rest).None? then None
        else
          HeadWordIsFirstToken(line);
          Some(Register(head.value.token, "$" + rd.value.token, "$" + rs.value.token, rs.value.rest))
  }

  /** `<opcode> $rd, $rt, <shamt>` */
  function ShiftForm(line: string): (r: Option<Descriptor>)
    ensures r.Some? ==> r.value.Shift? && r.value.opcode == FirstToken(line) && IsWord(r.value.opcode)
    ensures r.Some? ==> IsRegisterOperand(r.value.rd) && IsRegisterOperand(r.value.rt) && IsShiftAmountLiteral(r.value.shamt)
  {
    var head := HeadWord(line);
    if head.None? then None
    else
      var rd := RegisterComma(head.value.rest);
      if rd.None? then None
      else
        var rt := RegisterComma(rd.value.rest);
        if rt.None? || !IsShiftAmountLiteral(rt.value.rest) then None
        else
          HeadWordIsFirstToken(line);
          Some(Shift(head.value.token, "$" + rd.value.token, "$" + rt.value.token, rt.value.rest))
  }

  /** `jr` in any mix of letter cases. */
  predicate SpellsJr(t: string) {
    |t| == 2 && (t[0] == 'j' || t[0] == 'J') && (t[1] == 'r' || t[1] == 'R')
  }

  /** `lui` in any mix of letter cases. */
  predicate SpellsLui(t: string) {
    |t| == 3 && (t[0] == 'l' || t[0] == 'L') && (t[1] == 'u' || t[1] == 'U') && (t[2] == 'i' || t[2] == 'I')
  }

  /** `jr $rs`, the mnemonic in any case; the descriptor always says `jr`. */
  function JumpRegisterForm(line: string): (r: Option<Descriptor>)
    ensures r.Some? ==> r.value.RJump? && r.value.opcode == "jr" && SpellsJr(FirstToken(line))
    ensures r.Some? ==> IsRegisterOperand(r.value.rs)
  {
    if |line| < 2 || !SpellsJr(line[..2]) || Spaces1(line[2..]).None? then None
    else if !IsRegisterOperand(Spaces1(line[2..]).value) then None
    else
      JrIsFirstToken(line);
      Some(RJump("jr", Spaces1(line[2..]).value))
  }

  lemma JrIsFirstToken(line: string)
    requires |line| >= 2 && SpellsJr(line[..2]) && Spaces1(line[2..]).Some? && |Spaces1(line[2..]).value| > 0
    ensures SpellsJr(FirstToken(line))
  {
    MnemonicIsFirstToken(line, 2);
  }

  /** `<opcode> $rt, $rs, <immediate>` */
  function ImmediateForm(line: string): (r: Option<Descriptor>)
    ensures r.Some? ==> r.value.Immediate? && r.value.opcode == FirstToken(line) && IsWord(r.value.opcode)
    ensures r.Some? ==> IsRegisterOperand(r.value.rt) && IsRegisterOperand(r.value.rs) && IsImmediateLiteral(r.value.immediate)
  {
    var head := HeadWord(line);
    if head.None? then None
    else
      var rt := RegisterComma(head.value.rest);
      if rt.None? then None
      else
        var rs := RegisterComma(rt.value.rest);
        if rs.None? || !IsImmediateLiteral(rs.value.rest) then None
        else
          HeadWordIsFirstToken(line);
          Some(Immediate(head.value.token, "$" + rt.value.token, "$" + rs.value.token, rs.value.rest))
  }

  /** `<immediate>($rs)` ending the line: the literal and the register, `$` included. */
  function OffsetBase(s: string): (r: Option<Scan>)
    ensures r.Some? ==> s == r.value.token + "(" + r.value.rest + ")"
    ensures r.Some? ==> IsImmediateLiteral(r.value.token) && IsRegisterOperand(r.value.rest)
  {
    var k := Span(NotOpenParen, s);
    SpanFacts(NotOpenParen, s);
    if k == |s| || !IsImmediateLiteral(s[..k]) then None
    else
      var base := s[k + 1..];
      if |base| == 0 || base[|base| - 1] != ')' then None
      else if !IsRegisterOperand(base[..|base| - 1]) then None
      else
        assert s == s[..k] + "(" + base[..|base| - 1] + ")";
        Some(Scan(s[..k], base[..|base| - 1]))
  }

  /** `<opcode> $rt, <offset>($rs)` */
  function LoadStoreForm(line: string): (r: Option<Descriptor>)
    ensures r.Some? ==> r.value.LoadStore? && r.value.opcode == FirstToken(line) && IsWord(r.value.opcode)
    ensures r.Some? ==> IsRegisterOperand(r.value.rt) && IsRegisterOperand(r.value.rs) && IsImmediateLiteral(r.value.immediate)
  {
    var head := HeadWord(line);
    if head.None? then None
    else
      var rt := RegisterComma(head.value.rest);
      if rt.None? then None
      else
        var address := OffsetBase(rt.value.rest);
        if address.None? then None
        else
          HeadWordIsFirstToken(line);
          Some(LoadStore(head.value.token, "$" + rt.value.token, address.value.rest, address.value.token))
  }

  /** `lui $rt, <immediate>`, the mnemonic in any case; the descriptor always says `lui`. */
  function LuiForm(line: string): (r: Option<Descriptor>)
    ensures r.Some? ==> r.value.LoadUpperImmediate? && r.value.opcode == "lui" && SpellsLui(FirstToken(line))
    ensures r.Some? ==> IsRegisterOperand(r.value.rt) && IsImmediateLiteral(r.value.immediate)
  {
    if |line| < 3 || !SpellsLui(line[..3]) || Spaces1(line[3..]).None? then None
    else
      var rt := RegisterComma(Spaces1(line[3..]).value);
      if rt.None? || !IsImmediateLiteral(rt.value.rest) then None
      else
        LuiIsFirstToken(line);
        Some(LoadUpperImmediate("lui", "$" + rt.value.token, rt.value.rest))
  }

  lemma LuiIsFirstToken(line: string)
    requires |line| >= 3 && SpellsLui(line[..3]) && Spaces1(line[3..]).Some? && |Spaces1(line[3..]).value| > 0
    ensures SpellsLui(FirstToken(line))
  {
    MnemonicIsFirstToken(line, 3);
  }

  /** `<opcode> <target>` */
  function JumpForm(line: string): (r: Option<Descriptor>)
    ensures r.Some? ==> r.value.Jump? && r.value.opcode == FirstToken(line) && IsWord(r.value.opcode)
    ensures r.Some? ==> IsTargetLiteral(r.value.target)
  {
    var head := HeadWord(line);
    if head.None? || !IsTargetLiteral(head.value.rest) then None
    else
      HeadWordIsFirstToken(line);
      Some(Jump(head.value.token, head.value.rest))
  }

  // ---------------------------------------------------------------------
  // The parser
  // ---------------------------------------------------------------------

  /** The R-type grammars in the order the parser tries them. */
  function ParseRtype(line: string): (r: Option<Descriptor>)
    ensures r.Some? ==> r.value.WellFormed()
    ensures r.Some? ==> r.value.IsRType()
    ensures r.Some? ==> r.value.opcode == FirstToken(line) || (r.value.opcode == "jr" && SpellsJr(FirstToken(line)))
  {
    if RegisterForm(line).Some? then RegisterForm(line)
    else if ShiftForm(line).Some? then ShiftForm(line)
    else JumpRegisterForm(line)
  }

  /** The I-type grammars in the order the parser tries them. */
  function ParseItype(line: string): (r: Option<Descriptor>)
    ensures r.Some? ==> r.value.WellFormed()
    ensures r.Some? ==> r.value.IsIType()
    ensures r.Some? ==> if r.value.LoadUpperImmediate? then SpellsLui(FirstToken(line)) else r.value.opcode == FirstToken(line)
  {
    if ImmediateForm(line).Some? then ImmediateForm(line)
    else if LoadStoreForm(line).Some? then LoadStoreForm(line)
    else LuiForm(line)
  }

  /** The J-type grammar. */
  function ParseJtype(line: string): (r: Option<Descriptor>)
    ensures r.Some? ==> r.value.WellFormed()
    ensures r.Some? ==> r.value.IsJType() && r.value.opcode == FirstToken(line)
  {
    JumpForm(line)
  }

  /** The mnemonic is a key of the table for the descriptor's category. */
  predicate InTableOfCategory(d: Descriptor, mnemonic: string) {
    if d.IsRType() then mnemonic in RTypeInstructions
    else if d.IsIType() then mnemonic in ITypeInstructions
    else mnemonic in JTypeInstructions
  }

  /**
   * The choice among the three readings of a line: the R-type reading when the
   * mnemonic is an R-type one and an R-type grammar matched, else likewise
   * for I and then J; otherwise the line is invalid.
   */
  function Gate(line: string, inR: bool, inI: bool, inJ: bool,
                rType: Option<Descriptor>, iType: Option<Descriptor>, jType: Option<Descriptor>): (r: Result<Descriptor, AssemblyError>)
    ensures r.Err? <==> !(inR && rType.Some?) && !(inI && iType.Some?) && !(inJ && jType.Some?)
    ensures r.Err? ==> r.error == InvalidInstruction(line)
    ensures r.Ok? && inR && rType.Some? ==> r.value == rType.value
    ensures r.Ok? ==> (inR && rType == Some(r.value)) || (inI && iType == Some(r.value)) || (inJ && jType == Some(r.value))
  {
    if inR && rType.Some? then Ok(rType.value)
    else if inI && iType.Some? then Ok(iType.value)
    else if inJ && jType.Some? then Ok(jType.value)
    else Err(InvalidInstruction(line))
  }

  /**
   * A line is read by the grammar of the table its mnemonic belongs to, with
   * R before I before J; a line no table-and-grammar pair accepts is invalid.
   * The returned descriptor's opcode is the line's mnemonic, and it belongs to
   * the category of the table that holds the mnemonic; `lui` has no table
   * entry, so a `LoadUpperImmediate` descriptor is never returned.
   */
  function ParseInstruction(line: string): (r: Result<Descriptor, AssemblyError>)
    ensures r.Err? ==> r.error == InvalidInstruction(line)
    ensures r.Ok? ==> r.value.opcode == FirstToken(line)
    ensures r.Ok? ==> InTableOfCategory(r.value, FirstToken(line))
    ensures r.Ok? ==> !r.value.LoadUpperImmediate?
    ensures r.Ok? ==> r.value.WellFormed()
  {
    var opcode := FirstToken(line);
    OnlyLowerCaseJr(opcode);
    LuiIsNoMnemonic(opcode);
    Gate(line, opcode in RTypeInstructions, opcode in ITypeInstructions, opcode in JTypeInstructions,
         ParseRtype(line), ParseItype(line), ParseJtype(line))
  }

  /** Since the three tables share no mnemonic, the category is exactly the one whose table holds the mnemonic. */
  lemma ParsedCategoryIffTable(line: string)
    requires ParseInstruction(line).Ok?
    ensures ParseInstruction(line).value.IsRType() <==> FirstToken(line) in RTypeInstructions
    ensures ParseInstruction(line).value.IsIType() <==> FirstToken(line) in ITypeInstructions
    ensures ParseInstruction(line).value.IsJType() <==> FirstToken(line) in JTypeInstructions
  {
    TablesDisjoint();
  }

  // ---------------------------------------------------------------------
  // The grammars capture the mnemonic `parseInstruction` splits off
  // ---------------------------------------------------------------------

  /** When a line opens with `\w+\s+` and something follows, that word is its first token. */
  lemma HeadWordIsFirstToken(line: string)
    requires HeadWord(line).Some? && |HeadWord(line).value.rest| > 0
    ensures FirstToken(line) == HeadWord(line).value.token
  {
    SpanFacts(IsWordChar, line);
    MnemonicIsFirstToken(line, Span(IsWordChar, line));
  }

  /** A line that opens with `n` word characters, a gap and then more text has those `n` characters as first token. */
  lemma MnemonicIsFirstToken(line: string, n: nat)
    requires 0 < n < |line| && forall i :: 0 <= i < n ==> IsWordChar(line[i])
    requires Spaces1(line[n..]).Some? && |Spaces1(line[n..]).value| > 0
    ensures FirstToken(line) == line[..n]
  {
    var m := Span(IsSpace, line[n..]);
    SpanFacts(IsSpace, line[n..]);
    SpanExact(IsSpace, line, 0);
    assert IsNonSpace(line[n + m]) by {
      assert line[n + m] == Spaces1(line[n..]).value[0];
    }
    FirstSpaceStays(line, n, m);
    SpanExact(IsNonSpace, Trim(line), n);
  }

  /** Characters up to the first non-space after the mnemonic survive trimming. */
  lemma FirstSpaceStays(line: string, n: nat, m: nat)
    requires Span(IsSpace, line) == 0 && 0 < n && 0 < m && n + m < |line|
    requires forall i :: 0 <= i < n ==> IsWordChar(line[i])
    requires forall i :: n <= i < n + m ==> IsSpace(line[i])
    requires IsNonSpace(line[n + m])
    ensures |Trim(line)| > n + m && Trim(line)[..n + m] == line[..n + m]
    ensures forall i :: 0 <= i < n ==> IsNonSpace(Trim(line)[i])
    ensures IsSpace(Trim(line)[n])
  {
    var k := TrailingSpan(IsSpace, line);
    TrailingSpanFacts(IsSpace, line);
    assert k < |line| - (n + m);
  }

  /** Of the spellings of `jr` in upper and lower case, only the lower-case one is an R-type mnemonic. */
  lemma OnlyLowerCaseJr(t: string)
    ensures SpellsJr(t) && t in RTypeInstructions ==> t == "jr"
  {
  }

  /** No spelling of `lui` is an I-type mnemonic. */
  lemma LuiIsNoMnemonic(t: string)
    ensures SpellsLui(t) ==> t !in ITypeInstructions
  {
  }

  // ---------------------------------------------------------------------
  // Lines of each shape parse to the expected descriptor
  // ---------------------------------------------------------------------

  /** White space that may be empty (`\s*`) and that may not (`\s+`). */
  predicate IsSpaces(g: string) { All(IsSpace, g) }
  predicate IsGap(g: string) { |g| > 0 && IsSpaces(g) }

  lemma SpaceIsNoWordChar(c: char)
    ensures IsSpace(c) ==> !IsWordChar(c)
  {
  }

  /** Every mnemonic in the three tables is a `\w+` word. */
  lemma MnemonicsAreWords()
    ensures forall m :: m in RTypeInstructions ==> IsWord(m)
    ensures forall m :: m in ITypeInstructions ==> IsWord(m)
    ensures forall m :: m in JTypeInstructions ==> IsWord(m)
  {
  }

  /** A literal operand opens with a digit or a minus sign. */
  lemma LiteralStart(lit: string)
    requires IsImmediateLiteral(lit)
    ensures |lit| > 0 && lit[0] != '$' && IsNonSpace(lit[0]) && lit[0] != '('
  {
  }

  /** Text that does not open with `$` is no register operand. */
  lemma NoRegisterAt(s: string)
    requires |s| > 0 && s[0] != '$'
    ensures RegisterComma(s).None? && RegisterEnd(s).None?
  {
  }

  /** `w`, a gap and then `rest`, as a line opens. */
  lemma HeadWordOf(w: string, gap: string, rest: string)
    requires IsWord(w) && IsGap(gap) && |rest| > 0 && IsNonSpace(rest[0])
    ensures HeadWord(w + (gap + rest)) == Some(Scan(w, rest))
  {
    var s := w + (gap + rest);
    SpaceIsNoWordChar(gap[0]);
    SpanExact(IsWordChar, s, |w|);
    assert s[|w|..] == gap + rest;
    SpanExact(IsSpace, gap + rest, |gap|);
  }

  /** A register operand `$w`, its comma, a gap that may be empty, and then `rest`. */
  function RegisterThen(w: string, gap: string, rest: string): string {
    "$" + (w + ("," + (gap + rest)))
  }

  lemma RegisterCommaOf(w: string, gap: string, rest: string)
    requires IsWord(w) && IsSpaces(gap) && (|rest| > 0 ==> IsNonSpace(rest[0]))
    ensures RegisterComma(RegisterThen(w, gap, rest)) == Some(Scan(w, rest))
  {
    var s := RegisterThen(w, gap, rest);
    var t := w + ("," + (gap + rest));
    assert s[1..] == t;
    assert t[|w|] == ',';
    SpanExact(IsWordChar, t, |w|);
    assert s[1..1 + |w|] == w;
    assert s[1 + |w|] == ',';
    assert s[2 + |w|..] == gap + rest;
    SpanExact(IsSpace, gap + rest, |gap|);
    assert SkipSpaces(gap + rest) == rest;
  }

  /** `$w` alone is a register operand that ends the line, and no register followed by a comma. */
  lemma RegisterEndOf(w: string)
    requires IsWord(w)
    ensures RegisterEnd("$" + w) == Some(w) && RegisterComma("$" + w).None?
  {
    assert ("$" + w)[1..] == w;
    SpanExact(IsWordChar, w, |w|);
  }

  /** A register operand, its comma and gap, followed by text without `(`, has no `(` in it. */
  lemma NoParenInRegisterThen(w: string, gap: string, rest: string)
    requires IsWord(w) && IsSpaces(gap) && All(NotOpenParen, rest)
    ensures All(NotOpenParen, RegisterThen(w, gap, rest))
  {
    var t := gap + rest;
    assert All(NotOpenParen, t);
    var u := "," + t;
    assert All(NotOpenParen, u);
    var v := w + u;
    assert All(NotOpenParen, v);
  }

  /** The reading the gate picks, for a line whose mnemonic is in the R-type table. */
  lemma RTypeReadingWins(line: string)
    requires FirstToken(line) in RTypeInstructions && ParseRtype(line).Some?
    ensures ParseInstruction(line) == Ok(ParseRtype(line).value)
  {
  }

  /** The reading the gate picks, for a line whose mnemonic is in the I-type table. */
  lemma ITypeReading(line: string)
    requires FirstToken(line) in ITypeInstructions
    ensures ParseItype(line).Some? ==> ParseInstruction(line) == Ok(ParseItype(line).value)
    ensures ParseItype(line).None? ==> ParseInstruction(line) == Err(InvalidInstruction(line))
  {
    TablesDisjoint();
  }

  /** The reading the gate picks, for a line whose mnemonic is in the J-type table. */
  lemma JTypeReading(line: string)
    requires FirstToken(line) in JTypeInstructions
    ensures ParseJtype(line).Some? ==> ParseInstruction(line) == Ok(ParseJtype(line).value)
    ensures ParseJtype(line).None? ==> ParseInstruction(line) == Err(InvalidInstruction(line))
  {
    TablesDisjoint();
  }

  /** `<op> $a, $b, <last>` with the given gaps. */
  function ThreeOperandLine(op: string, a: string, b: string, last: string, g1: string, g2: string, g3: string): string {
    op + (g1 + RegisterThen(a, g2, RegisterThen(b, g3, last)))
  }

  /** `<op> $rd, $rs, $rt` with the given gaps. */
  function RegisterLine(op: string, rd: string, rs: string, rt: string, g1: string, g2: string, g3: string): string {
    ThreeOperandLine(op, rd, rs, "$" + rt, g1, g2, g3)
  }

  /** `<op> $rt, <imm>($rs)` with the given gaps. */
  function LoadStoreLine(op: string, rt: string, imm: string, rs: string, g1: string, g2: string): string {
    op + (g1 + RegisterThen(rt, g2, imm + ("(" + (("$" + rs) + ")"))))
  }

  /** How the pieces of a three-operand line are scanned. */
  lemma ThreeOperandPieces(op: string, a: string, b: string, last: string, g1: string, g2: string, g3: string)
    requires IsWord(op) && IsWord(a) && IsWord(b) && |last| > 0 && IsNonSpace(last[0])
    requires IsGap(g1) && IsSpaces(g2) && IsSpaces(g3)
    ensures HeadWord(ThreeOperandLine(op, a, b, last, g1, g2, g3)) == Some(Scan(op, RegisterThen(a, g2, RegisterThen(b, g3, last))))
    ensures RegisterComma(RegisterThen(a, g2, RegisterThen(b, g3, last))) == Some(Scan(a, RegisterThen(b, g3, last)))
    ensures RegisterComma(RegisterThen(b, g3, last)) == Some(Scan(b, last))
  {
    HeadWordOf(op, g1, RegisterThen(a, g2, RegisterThen(b, g3, last)));
    RegisterCommaOf(a, g2, RegisterThen(b, g3, last));
    RegisterCommaOf(b, g3, last);
  }

  lemma RegisterFormOf(op: string, rd: string, rs: string, rt: string, g1: string, g2: string, g3: string)
    requires IsWord(op) && IsWord(rd) && IsWord(rs) && IsWord(rt)
    requires IsGap(g1) && IsSpaces(g2) && IsSpaces(g3)
    ensures RegisterForm(RegisterLine(op, rd, rs, rt, g1, g2, g3)) == Some(Register(op, "$" + rd, "$" + rs, "$" + rt))
  {
    ThreeOperandPieces(op, rd, rs, "$" + rt, g1, g2, g3);
    RegisterEndOf(rt);
  }

  lemma ShiftFormOf(op: string, rd: string, rt: string, shamt: string, g1: string, g2: string, g3: string)
    requires IsWord(op) && IsWord(rd) && IsWord(rt) && IsShiftAmountLiteral(shamt)
    requires IsGap(g1) && IsSpaces(g2) && IsSpaces(g3)
    ensures RegisterForm(ThreeOperandLine(op, rd, rt, shamt, g1, g2, g3)).None?
    ensures ShiftForm(ThreeOperandLine(op, rd, rt, shamt, g1, g2, g3)) == Some(Shift(op, "$" + rd, "$" + rt, shamt))
  {
    LiteralStart(shamt);
    ThreeOperandPieces(op, rd, rt, shamt, g1, g2, g3);
    NoRegisterAt(shamt);
  }

  lemma ImmediateFormOf(op: string, rt: string, rs: string, imm: string, g1: string, g2: string, g3: string)
    requires IsWord(op) && IsWord(rt) && IsWord(rs) && IsImmediateLiteral(imm)
    requires IsGap(g1) && IsSpaces(g2) && IsSpaces(g3)
    ensures ImmediateForm(ThreeOperandLine(op, rt, rs, imm, g1, g2, g3)) == Some(Immediate(op, "$" + rt, "$" + rs, imm))
  {
    LiteralStart(imm);
    ThreeOperandPieces(op, rt, rs, imm, g1, g2, g3);
  }

  /** The literal of a load or store runs up to its opening parenthesis. */
  lemma OffsetBaseOf(imm: string, rs: string)
    requires IsImmediateLiteral(imm) && IsWord(rs)
    ensures OffsetBase(imm + ("(" + (("$" + rs) + ")"))) == Some(Scan(imm, "$" + rs))
  {
    var s := imm + ("(" + (("$" + rs) + ")"));
    SpanExact(NotOpenParen, s, |imm|);
    var base := s[|imm| + 1..];
    assert base == ("$" + rs) + ")";
    assert base[..|base| - 1] == "$" + rs;
  }

  lemma LoadStoreFormOf(op: string, rt: string, imm: string, rs: string, g1: string, g2: string)
    requires IsWord(op) && IsWord(rt) && IsImmediateLiteral(imm) && IsWord(rs)
    requires IsGap(g1) && IsSpaces(g2)
    ensures ImmediateForm(LoadStoreLine(op, rt, imm, rs, g1, g2)).None?
    ensures LoadStoreForm(LoadStoreLine(op, rt, imm, rs, g1, g2)) == Some(LoadStore(op, "$" + rt, "$" + rs, imm))
  {
    var address := imm + ("(" + (("$" + rs) + ")"));
    LiteralStart(imm);
    HeadWordOf(op, g1, RegisterThen(rt, g2, address));
    RegisterCommaOf(rt, g2, address);
    NoRegisterAt(address);
    OffsetBaseOf(imm, rs);
  }

  /** `add $t0, $t1, $t2` and its kin. */
  lemma ParsesRegisterLine(op: string, rd: string, rs: string, rt: string, g1: string, g2: string, g3: string)
    requires op in RTypeInstructions && IsWord(rd) && IsWord(rs) && IsWord(rt)
    requires IsGap(g1) && IsSpaces(g2) && IsSpaces(g3)
    ensures ParseInstruction(RegisterLine(op, rd, rs, rt, g1, g2, g3)) == Ok(Register(op, "$" + rd, "$" + rs, "$" + rt))
  {
    MnemonicsAreWords();
    RegisterFormOf(op, rd, rs, rt, g1, g2, g3);
    RTypeReadingWins(RegisterLine(op, rd, rs, rt, g1, g2, g3));
  }

  /** `sll $t0, $t1, 4` and its kin. */
  lemma ParsesShiftLine(op: string, rd: string, rt: string, shamt: string, g1: string, g2: string, g3: string)
    requires op in RTypeInstructions && IsWord(rd) && IsWord(rt) && IsShiftAmountLiteral(shamt)
    requires IsGap(g1) && IsSpaces(g2) && IsSpaces(g3)
    ensures ParseInstruction(ThreeOperandLine(op, rd, rt, shamt, g1, g2, g3)) == Ok(Shift(op, "$" + rd, "$" + rt, shamt))
  {
    MnemonicsAreWords();
    ShiftFormOf(op, rd, rt, shamt, g1, g2, g3);
    RTypeReadingWins(ThreeOperandLine(op, rd, rt, shamt, g1, g2, g3));
  }

  /** `jr $ra`. */
  lemma ParsesJumpRegisterLine(rs: string, g1: string)
    requires IsWord(rs) && IsGap(g1)
    ensures ParseInstruction("jr" + (g1 + ("$" + rs))) == Ok(RJump("jr", "$" + rs))
  {
    var line := "jr" + (g1 + ("$" + rs));
    JumpRegisterFormOf(rs, g1);
    RTypeReadingWins(line);
  }

  lemma JumpRegisterFormOf(rs: string, g1: string)
    requires IsWord(rs) && IsGap(g1)
    ensures RegisterForm("jr" + (g1 + ("$" + rs))).None? && ShiftForm("jr" + (g1 + ("$" + rs))).None?
    ensures JumpRegisterForm("jr" + (g1 + ("$" + rs))) == Some(RJump("jr", "$" + rs))
    ensures FirstToken("jr" + (g1 + ("$" + rs))) == "jr"
  {
    var line := "jr" + (g1 + ("$" + rs));
    assert IsWord("jr");
    HeadWordOf("jr", g1, "$" + rs);
    RegisterEndOf(rs);
    assert line[..2] == "jr" && line[2..] == g1 + ("$" + rs);
    SpanExact(IsSpace, g1 + ("$" + rs), |g1|);
    HeadWordIsFirstToken(line);
  }

  /** `addi $t0, $t1, -5` and its kin. */
  lemma ParsesImmediateLine(op: string, rt: string, rs: string, imm: string, g1: string, g2: string, g3: string)
    requires op in ITypeInstructions && IsWord(rt) && IsWord(rs) && IsImmediateLiteral(imm)
    requires IsGap(g1) && IsSpaces(g2) && IsSpaces(g3)
    ensures ParseInstruction(ThreeOperandLine(op, rt, rs, imm, g1, g2, g3)) == Ok(Immediate(op, "$" + rt, "$" + rs, imm))
  {
    MnemonicsAreWords();
    ImmediateFormOf(op, rt, rs, imm, g1, g2, g3);
    ITypeReading(ThreeOperandLine(op, rt, rs, imm, g1, g2, g3));
  }

  /**
   * `lui $t0, 0x1234`: no other I-type grammar matches, and the `lui` grammar
   * yields the line's register and literal (the mnemonic is in no table, so
   * only `parseItype` reaches this reading).
   */
  lemma ParsesLuiLine(rt: string, imm: string, g1: string, g2: string)
    requires IsWord(rt) && IsImmediateLiteral(imm) && IsGap(g1) && IsSpaces(g2)
    ensures ParseItype("lui" + (g1 + RegisterThen(rt, g2, imm))) == Some(LoadUpperImmediate("lui", "$" + rt, imm))
  {
    var line := "lui" + (g1 + RegisterThen(rt, g2, imm));
    LuiOperandsOf(rt, imm, g1, g2);
    LuiFormOf(rt, imm, g1, g2);
    assert ParseItype(line) == LuiForm(line);
  }

  /** The `lui` line, read by the two-register grammars, matches neither. */
  lemma LuiOperandsOf(rt: string, imm: string, g1: string, g2: string)
    requires IsWord(rt) && IsImmediateLiteral(imm) && IsGap(g1) && IsSpaces(g2)
    ensures ImmediateForm("lui" + (g1 + RegisterThen(rt, g2, imm))).None?
    ensures LoadStoreForm("lui" + (g1 + RegisterThen(rt, g2, imm))).None?
  {
    var operands := RegisterThen(rt, g2, imm);
    LiteralStart(imm);
    HeadWordOf("lui", g1, operands);
    RegisterCommaOf(rt, g2, imm);
    NoRegisterAt(imm);
    LiteralHasNoParen(imm);
    SpanExact(NotOpenParen, imm, |imm|);
  }

  /** The `lui` grammar gives back the line's register and literal. */
  lemma LuiFormOf(rt: string, imm: string, g1: string, g2: string)
    requires IsWord(rt) && IsImmediateLiteral(imm) && IsGap(g1) && IsSpaces(g2)
    ensures LuiForm("lui" + (g1 + RegisterThen(rt, g2, imm))) == Some(LoadUpperImmediate("lui", "$" + rt, imm))
  {
    var operands := RegisterThen(rt, g2, imm);
    var line := "lui" + (g1 + operands);
    LiteralStart(imm);
    RegisterCommaOf(rt, g2, imm);
    assert line[..3] == "lui" && line[3..] == g1 + operands;
    assert operands[0] == '$';
    Spaces1Of(g1, operands);
    LuiFormOfParts(line, operands, rt, imm);
  }

  /** The `lui` grammar, given how its three scans of the line come out. */
  lemma LuiFormOfParts(line: string, operands: string, rt: string, imm: string)
    requires |line| >= 3 && SpellsLui(line[..3]) && Spaces1(line[3..]) == Some(operands)
    requires RegisterComma(operands) == Some(Scan(rt, imm)) && IsImmediateLiteral(imm)
    ensures LuiForm(line) == Some(LoadUpperImmediate("lui", "$" + rt, imm))
  {
  }

  /** `\s+` consumes exactly the gap before text that opens with a non-space. */
  lemma Spaces1Of(gap: string, rest: string)
    requires IsGap(gap) && |rest| > 0 && IsNonSpace(rest[0])
    ensures Spaces1(gap + rest) == Some(rest)
  {
    var s := gap + rest;
    assert s[|gap|] == rest[0];
    SpanExact(IsSpace, s, |gap|);
    assert s[|gap|..] == rest;
  }

  /** An immediate literal holds no opening parenthesis. */
  lemma LiteralHasNoParen(lit: string)
    requires IsImmediateLiteral(lit)
    ensures All(NotOpenParen, lit)
  {
  }

  /** `lw $t0, 8($sp)` and its kin. */
  lemma ParsesLoadStoreLine(op: string, rt: string, imm: string, rs: string, g1: string, g2: string)
    requires op in ITypeInstructions && IsWord(rt) && IsImmediateLiteral(imm) && IsWord(rs)
    requires IsGap(g1) && IsSpaces(g2)
    ensures ParseInstruction(LoadStoreLine(op, rt, imm, rs, g1, g2)) == Ok(LoadStore(op, "$" + rt, "$" + rs, imm))
  {
    MnemonicsAreWords();
    LoadStoreFormOf(op, rt, imm, rs, g1, g2);
    ITypeReading(LoadStoreLine(op, rt, imm, rs, g1, g2));
  }

  /** `j 1024` and its kin. */
  lemma ParsesJumpLine(op: string, target: string, g1: string)
    requires op in JTypeInstructions && IsTargetLiteral(target) && IsGap(g1)
    ensures ParseInstruction(op + (g1 + target)) == Ok(Jump(op, target))
  {
    MnemonicsAreWords();
    HeadWordOf(op, g1, target);
    assert JumpForm(op + (g1 + target)) == Some(Jump(op, target));
    JTypeReading(op + (g1 + target));
  }

  lemma BranchToLabelForms(op: string, rt: string, rs: string, name: string, g1: string, g2: string, g3: string)
    requires IsWord(op) && IsWord(rt) && IsWord(rs) && IsWord(name) && !IsImmediateLiteral(name)
    requires IsGap(g1) && IsSpaces(g2) && IsSpaces(g3)
    ensures ImmediateForm(ThreeOperandLine(op, rt, rs, name, g1, g2, g3)).None?
    ensures LoadStoreForm(ThreeOperandLine(op, rt, rs, name, g1, g2, g3)).None?
  {
    ThreeOperandPieces(op, rt, rs, name, g1, g2, g3);
    var r2 := RegisterThen(rs, g3, name);
    assert All(NotOpenParen, name);
    NoParenInRegisterThen(rs, g3, name);
    SpanExact(NotOpenParen, r2, |r2|);
    assert OffsetBase(r2).None?;
  }

  /**
   * A branch whose last operand is a label rather than a literal matches no
   * grammar: the line is rejected as invalid.
   */
  lemma BranchToLabelIsInvalid(op: string, rt: string, rs: string, name: string, g1: string, g2: string, g3: string)
    requires op in ITypeInstructions && IsWord(rt) && IsWord(rs) && IsWord(name) && !IsImmediateLiteral(name)
    requires IsGap(g1) && IsSpaces(g2) && IsSpaces(g3)
    ensures var line := ThreeOperandLine(op, rt, rs, name, g1, g2, g3);
      ParseInstruction(line) == Err(InvalidInstruction(line))
  {
    MnemonicsAreWords();
    var line := ThreeOperandLine(op, rt, rs, name, g1, g2, g3);
    BranchToLabelForms(op, rt, rs, name, g1, g2, g3);
    ThreeOperandPieces(op, rt, rs, name, g1, g2, g3);
    HeadWordIsFirstToken(line);
    LuiIsNoMnemonic(op);
    assert LuiForm(line).None?;
    ITypeReading(line);
  }

  /** A jump whose operand is a label rather than a literal is rejected as invalid. */
  lemma JumpToLabelIsInvalid(op: string, name: string, g1: string)
    requires op in JTypeInstructions && IsWord(name) && !IsTargetLiteral(name) && IsGap(g1)
    ensures ParseInstruction(op + (g1 + name)) == Err(InvalidInstruction(op + (g1 + name)))
  {
    MnemonicsAreWords();
    HeadWordOf(op, g1, name);
    HeadWordIsFirstToken(op + (g1 + name));
    assert JumpForm(op + (g1 + name)).None?;
    JTypeReading(op + (g1 + name));
  }
}
