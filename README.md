# MIPS assembler and simulator, modelled in Dafny

This project models the core of an educational assembler and simulator for a
subset of the MIPS32 instruction set: ADD, SUB, AND, OR, SLT, JR, SLL, SRL, BEQ,
BNE, ADDI, LW, SW, J and JAL. The model has four parts.

- **Constant tables** (`tokens.dfy`, module `Tokens`). These map register names
  to 5-bit codes, and mnemonics to a 6-bit opcode plus, for R-type, a 6-bit
  function code. The codes are `'0'`/`'1'` strings, as in the source.
- **Line parser** (`parser.dfy`, module `Parser`). Each regular expression of
  the parser is written out as a recognizer over the characters of the line.
  Seven grammars are covered: Register, Shift, RJump, Immediate, LoadStore,
  LoadUpperImmediate and Jump. Next comes the gate that checks the category
  against the mnemonic's table. A line either yields a descriptor or is
  rejected with `Invalid instruction`.
- **Assembler** (`compiler.dfy`, module `Compiler`). It cleans the source
  lines, converts immediates, and builds the 32-character words. Its two
  passes give the binary listing and the hexadecimal listing.
  - The label table is an input: a map from label name to byte address.
  - Thrown errors are `Err` results.
  - The `forEach`/`push` passes are methods with loops, proved against
    specification functions.
- **Simulator** (`mips.dfy`, module `Mips`, class `MIPS`; `helpers.dfy`, module
  `Helpers`). The machine is a class.
  - Registers and data memory are `array<int>` fields holding JavaScript
    `Int32Array` values, so every store wraps to 32 bits.
  - Instruction memory, the program counter and the decode fields are the
    object's other fields.
  - `setIM`, `fetch`, `parseMachineCode`, `execute`, the ALU and memory helpers,
    `step` and `runUntilEnd` are methods that update those fields in place.
  - Each method is proved against a function on a `Machine` value
    (`FetchState`, `ParseState`, `Exec`/`ExecuteState`, `StepState`,
    `RunState`).
  - `Helpers` holds the object's pure helpers: `signedInt`, `parseInt32`,
    `signExtend`, `toBinString` and `toHexString`.

Two more modules prove properties across these parts:
- `semantics.dfy` (module `Semantics`) states the effect of each instruction,
  what a step reports, and how the bounded run behaves as its bound grows.
- `roundtrip.dfy` (module `RoundTrip`) relates the assembler to the simulator:
  - every table mnemonic reaches its `execute` case;
  - decoding an assembled word gives back its registers and literal;
  - executing an assembled branch or jump word lands on its label.

`bits.dfy` (module `Bits`) holds bit strings, `Pow2` and digit values. It also
models the JavaScript number operations the source relies on: `toString(2)`,
`toString(16)`, `padStart`, ToInt32 and ToUint32 (`>>> 0`), and `&`/`|` on
32-bit patterns. `results.dfy` holds `Option` and `Result`.

In these places the code differs from textbook MIPS or from what its own
comments suggest, and the model follows the code:
- **Labels are byte addresses, not word indices.** The code divides by 4 with
  `>>> 2` for jumps (js/compiler.js:193) and subtracts `currentPC + 4` for
  branches (js/compiler.js:157-159).
- **A label line is dropped whole**, including any instruction after the
  colon (js/compiler.js:19).
- **A branch cannot name a label.** The parser never produces `isLabel`, and
  the I-type grammars accept only numeric immediates. So `beq $t0, $t1, loop`
  is rejected as `Invalid instruction` (`Parser.BranchToLabelIsInvalid`). The
  label-offset computation of js/compiler.js:155-170 is modelled on its own
  (`Compiler.BranchImmediate`, `RoundTrip.BranchWordLands`).
- **`lui` is in no table**, so the assembler rejects it as
  `Unknown instruction` (js/compiler.js:74-76).
- **Jumps differ.** `jal` stores `currentPC + 8`, not `pc + 4`. `j` and `jal`
  keep the top four bits of `currentPC + 4` (js/MIPS.js:197-204).
- **`setIM` does not reset** `pc`, the registers or the memory
  (js/MIPS.js:26-35).

## Model

| member | source | states |
|---|---|---|
| Tokens.RegistersInListedOrder | js/tokens.js:1-34 | The register table has exactly the 32 listed names, all distinct, and the i-th listed name's code is i written in five bits, so the codes are 00000…11111 in listed order |
| Tokens.RegisterNamesAreKeys | js/tokens.js:1-34 | A name is a key of the register table exactly when it is one of the listed names |
| Tokens.RegisterCodesAreIndices | js/tokens.js:1-34 | Every listed name is a key, and its code is its position written in five bits; the proof checks the 32 entries in groups of two to four lines (the `Codes…` lemmas, from $zero/$at to $gp…$ra) |
| Tokens.SpelledCodeIsNatToBits | js/tokens.js:2-33 | A code literal that spells i digit by digit is the 5-bit encoding of i |
| Tokens.RegisterNumber | js/tokens.js:1-34 | A register name's number is below 32, the name is listed at that position, and its code is that number in five bits |
| Tokens.RTypeTableWellFormed | js/tokens.js:37-70 | Every R-type entry has opcode 000000 and a 6-bit funct, and no two R-type mnemonics share a funct |
| Tokens.RTypeEntry | js/tokens.js:37-70 | One R-type entry has opcode 000000 and a 6-bit funct |
| Tokens.IJTypeOpcodesWellFormed | js/tokens.js:72-99 | Every I-type and J-type opcode is a 6-bit string other than 000000 |
| Tokens.ITypeOpcodesDistinct | js/tokens.js:72-90 | No two I-type mnemonics share an opcode |
| Tokens.JTypeOpcodesDistinct | js/tokens.js:72-99 | The J-type table holds exactly j and jal; their opcodes differ from each other and from every I-type opcode |
| Tokens.TablesDisjoint | js/tokens.js:37-99 | The three mnemonic key sets are pairwise disjoint, so the assembler's dispatch picks at most one branch |
| Tokens.ITypeEntry | js/tokens.js:72-90 | One I-type entry has a 6-bit opcode |
| Tokens.JTypeEntry | js/tokens.js:92-99 | One J-type entry has a 6-bit opcode |
| Parser.Trim | js/parser.js:6 | Trimming never lengthens; a non-empty result starts and ends with a non-space character and lies after the leading white space |
| Parser.FirstToken | js/parser.js:6 | The mnemonic split off the trimmed line contains no white space |
| Parser.RegisterForm | js/parser.js:39-59 | A match of the three-register grammar is a Register descriptor whose opcode is the line's first token and a word, with three `$`-prefixed register operands |
| Parser.ShiftForm | js/parser.js:41-63 | A match of the shift grammar is a Shift descriptor whose opcode is the first token, with registers rd and rt and a decimal or 0x shift amount |
| Parser.JumpRegisterForm | js/parser.js:43-68 | A match of the jr grammar is an RJump descriptor with opcode jr; the line's first token spells jr in some letter case, and rs is a register operand |
| Parser.ImmediateForm | js/parser.js:78-101 | A match of the immediate grammar is an Immediate descriptor whose opcode is the first token, with registers rt and rs and a literal in the -?decimal, 0x or 0b forms |
| Parser.OffsetBase | js/parser.js:81-82 | An `<imm>($rs)` tail splits into the literal and the register, `$` included, and the parts rebuild the tail |
| Parser.LoadStoreForm | js/parser.js:81-105 | A match of the load/store grammar is a LoadStore descriptor whose opcode is the first token, with register rt, an immediate literal and the base register |
| Parser.LuiForm | js/parser.js:84-114 | A match of the lui grammar is a LoadUpperImmediate descriptor with opcode lui; the first token spells lui in some case, with register rt and an immediate literal |
| Parser.JumpForm | js/parser.js:124-130 | A match of the J-type grammar is a Jump descriptor whose opcode is the first token and whose target is a decimal, 0x or 0b literal |
| Parser.ParseRtype | js/parser.js:37-74 | The R-type parse returns a well-formed R-category descriptor whose opcode is the first token, or jr when the first token spells jr |
| Parser.ParseItype | js/parser.js:76-120 | The I-type parse returns a well-formed I-category descriptor whose opcode is the first token, or lui when the first token spells lui |
| Parser.ParseJtype | js/parser.js:122-136 | The J-type parse returns a well-formed Jump descriptor whose opcode is the first token |
| Parser.Gate | js/parser.js:14-34 | The gate's decision: it fails, with Invalid instruction and the line, exactly when no category holds both the mnemonic and a grammar match; R wins when it applies; any success is one of the gated readings |
| Parser.ParseInstruction | js/parser.js:4-35 | On failure the error is Invalid instruction with the line; on success the descriptor is well formed, its opcode is the first token, that token is a key of its category's table, and it is never lui |
| Parser.ParsedCategoryIffTable | js/parser.js:14-34 | A parsed line is R-type, I-type or J-type exactly when its mnemonic is in the R, I or J table |
| Parser.RTypeReadingWins | js/parser.js:14-16 | With an R-table mnemonic and an R-grammar match, the R reading is returned |
| Parser.ITypeReading | js/parser.js:18-23 | With an I-table mnemonic, the I reading is returned, or Invalid instruction when no I grammar matches |
| Parser.JTypeReading | js/parser.js:25-29 | With a J-table mnemonic, the J reading is returned, or Invalid instruction when the J grammar does not match |
| Parser.OnlyLowerCaseJr | js/parser.js:43 | Of the case variants the jr grammar accepts, only `jr` is an R-table mnemonic |
| Parser.LuiIsNoMnemonic | js/parser.js:84 | No case variant of lui is an I-table mnemonic, so the lui reading is never returned |
| Parser.MnemonicsAreWords | js/tokens.js:37-99 | Every mnemonic of the three tables matches `\w+` |
| Parser.ShiftFormOf | js/parser.js:39-63 | `op $a, $b, <shamt>` does not match the three-register grammar and matches the shift grammar with rd $a, rt $b and the literal text |
| Parser.LoadStoreFormOf | js/parser.js:78-105 | `op $a, <imm>($b)` does not match the immediate grammar and matches the load/store grammar with rt $a, rs $b and the literal |
| Parser.ParsesRegisterLine | js/parser.js:51-59 | `op $a, $b, $c` with an R-table op and any gaps parses to Register(op, $a, $b, $c): rd, rs, rt in that order |
| Parser.ParsesShiftLine | js/parser.js:61-63 | `op $a, $b, <decimal or 0x>` with an R-table op parses to Shift with rd $a, rt $b and the literal text |
| Parser.ParsesJumpRegisterLine | js/parser.js:66-68 | `jr $a` parses to RJump(jr, $a) |
| Parser.JumpRegisterFormOf | js/parser.js:39-68 | `jr $a` matches neither the register nor the shift grammar, matches the jr grammar, and has first token jr |
| Parser.ParsesImmediateLine | js/parser.js:93-101 | `op $a, $b, <literal>` with an I-table op parses to Immediate with rt $a, rs $b and the literal |
| Parser.ParsesLuiLine | js/parser.js:84-114 | `lui $a, <literal>` matches neither two-register I-type grammar, and parseItype returns LoadUpperImmediate with opcode lui, rt $a and the literal as written |
| Parser.ParsesLoadStoreLine | js/parser.js:103-105 | `op $a, <literal>($b)` with an I-table op parses to LoadStore with rt $a, rs $b and the literal |
| Parser.ParsesJumpLine | js/parser.js:128-130 | `op <literal>` with a J-table op parses to Jump with that target |
| Parser.BranchToLabelForms | js/parser.js:78-82 | A third operand that is a word but not a literal matches neither I-type grammar |
| Parser.BranchToLabelIsInvalid | js/parser.js:116-119 | `op $a, $b, name`, with an I-table op and a non-literal name, is rejected with Invalid instruction |
| Parser.JumpToLabelIsInvalid | js/parser.js:132-135 | A J-table mnemonic followed by a non-literal word is rejected by the parser with Invalid instruction |
| Compiler.ParseInt | js/compiler.js:204-210 | Definition of JavaScript `parseInt` on integers (leading white space and one sign skipped, a 0x/0X prefix when the radix is absent or 16, the longest run of digits, NaN as None); its properties are in Compiler.ParseIntDecimal, ParseIntNegative, ParseIntHex, ParseIntHexDigits, ParseIntUpperBinary and ParseIntOfBits |
| Compiler.ParseIntDecimal | js/compiler.js:210 | `parseInt` reads a decimal literal as its value |
| Compiler.ParseIntNegative | js/compiler.js:204 | `parseInt` reads `-` and a decimal literal as the negated value |
| Compiler.ParseIntHex | js/compiler.js:204-210 | With no radix, `parseInt` reads a 0x or 0X literal as hexadecimal |
| Compiler.ParseIntHexDigits | js/compiler.js:206 | The digits after 0x, read in radix 16, give their value |
| Compiler.ParseIntUpperBinary | js/compiler.js:210 | With no radix, `parseInt` of a 0B literal stops at the B and gives 0 |
| Compiler.PaddedValue | js/compiler.js:213-218 | A value's binary digits fit in `length` places exactly when it is below 2^length; padded, they are its fixed-width encoding |
| Compiler.ConvertImmediateToBinary | js/compiler.js:200-223 | The result is null exactly when the unpadded binary is longer than `length`; otherwise it is exactly `length` characters long |
| Compiler.ConvertDecimal | js/compiler.js:209-218 | A decimal literal becomes its length-bit encoding when below 2^length, and null otherwise |
| Compiler.ConvertNegative | js/compiler.js:203-204 | `-v` with 0 < v <= 2^length becomes the length-bit encoding of 2^length - v |
| Compiler.ConvertNegativeZero | js/compiler.js:203-215 | `-0` gives null, since 2^length has length + 1 binary digits |
| Compiler.ConvertHex | js/compiler.js:205-206 | A 0x literal becomes its length-bit encoding when its value is below 2^length, and null otherwise |
| Compiler.ConvertBinary | js/compiler.js:207-208 | The digits of a 0b literal are zero-padded as written, or give null when there are more than `length` |
| Compiler.ConvertUpperBinary | js/compiler.js:207-210 | A 0B literal, which the case-insensitive grammars accept, misses the 0b test and is converted as zero |
| Compiler.BeforeComment | js/compiler.js:8-10 | The text before the first `#` contains no `#` |
| Compiler.CleanLine | js/compiler.js:8-11 | A cleaned line contains no `#` and is already trimmed |
| Compiler.ProcessLabels | js/compiler.js:4-25 | Processing never adds lines |
| Compiler.ProcessedLines | js/compiler.js:6-19 | Every output line is non-empty, has no `#`, is trimmed and does not start with `\w+:` |
| Compiler.ProcessLabelsAppend | js/compiler.js:6-19 | Lines are processed one at a time and in order: processing a + b gives the processed a followed by the processed b |
| Compiler.LabelLineDropped | js/compiler.js:19 | A line whose cleaned form starts with `\w+:` is dropped whole, whatever follows the colon |
| Compiler.BlankLineDropped | js/compiler.js:13 | A line that is empty once the comment is cut and it is trimmed is dropped |
| Compiler.InstructionLineKept | js/compiler.js:6-19 | Any other line is kept, in cleaned form, at the end of the output |
| Compiler.RemoveCommentsAndWhitespace | js/compiler.js:225-228 | A returned line is non-empty, has no `#` and is trimmed |
| Compiler.RemoveCommentsOfProcessed | js/compiler.js:31-33 | On a line processLabels passed on, the second cleaning returns the line unchanged, so no line is skipped |
| Compiler.RegisterCodeIsBits | js/compiler.js:85-87 | A known register contributes five binary digits |
| Compiler.CompileRTypeInstruction | js/compiler.js:79-132 | For an R-table mnemonic, compilation fails exactly when the parser rejects the line, and then with Invalid instruction |
| Compiler.CompileITypeInstruction | js/compiler.js:134-182 | For an I-table mnemonic, compilation fails exactly when the parser rejects the line, and then with Invalid instruction; no label error can arise |
| Compiler.FirstFieldIsMnemonic | js/compiler.js:185-186 | On a trimmed J-type line, the first field of the split on white space and commas is the mnemonic |
| Compiler.CompileJTypeInstruction | js/compiler.js:184-198 | A J-type line fails exactly when its second field is not in the label table, and then with Undefined label naming that field |
| Compiler.CompileInstruction | js/compiler.js:65-77 | Unknown instruction exactly when the mnemonic is in no table; Invalid instruction exactly when an R or I mnemonic's line does not parse; Undefined label exactly when a J mnemonic's label is missing; no other error |
| Compiler.RegisterWord | js/compiler.js:81-90 | Definition of the Register concatenation (opcode, rs, rt, rd, 00000, funct, with `undefined` for an unknown register); its layout is proved in Compiler.RegisterWordLayout |
| Compiler.RegisterWordLayout | js/compiler.js:81-90 | With known registers, a register word is 32 bits laid out as 000000, rs, rt, rd, 00000, funct |
| Compiler.ShiftWord | js/compiler.js:91-100 | Definition of the Shift concatenation (opcode, 00000, rt, rd, the converted shift amount or `null`, funct); its layout is proved in Compiler.ShiftWordLayout, ShiftAmount and ShiftWordTooLarge |
| Compiler.ShiftWordLayout | js/compiler.js:91-100 | With known registers and a shift amount below 32, a shift word is 32 bits laid out as 000000, 00000, rt, rd, the 5-bit amount, funct |
| Compiler.ShiftAmount | js/compiler.js:98 | A shift amount converts to its 5-bit encoding when below 32, and to null otherwise |
| Compiler.ShiftWordTooLarge | js/compiler.js:98 | A shift amount of 32 or more is not range-checked: the text "null" takes the place of the field and the word is 31 characters |
| Compiler.JumpRegisterWord | js/compiler.js:121-131 | Definition of the RJump concatenation (opcode, rs, three 00000 fields, funct); its layout is proved in Compiler.JumpRegisterWordLayout |
| Compiler.JumpRegisterWordLayout | js/compiler.js:121-131 | With a known register, a jr word is 32 bits laid out as 000000, rs, three 00000 fields, funct |
| Compiler.ConvertImmediateRoundTrip | js/compiler.js:200-218 | A literal whose value is in [-32768, 32767] becomes the 16-bit two's-complement pattern of that value, which reads back as the value |
| Compiler.NonNegativeLiteralConverts | js/compiler.js:205-218 | A non-negative encodable literal becomes the 16-bit pattern of its value |
| Compiler.NegativeLiteralRoundTrip | js/compiler.js:203-204 | A negative decimal literal down to -32768 becomes the 16-bit two's-complement pattern of its value |
| Compiler.ITypeWord | js/compiler.js:175-180 | Definition of the I-type concatenation (opcode, rs, rt, the converted immediate or `null`); its layout and read-back are proved in Compiler.ITypeWordLayout and ConvertImmediateRoundTrip |
| Compiler.ITypeWordLayout | js/compiler.js:175-180 | With known registers and an encodable literal, an I-type word is 32 bits laid out as opcode, rs, rt, imm16, and its last 16 bits read back as the literal |
| Compiler.JTypeWord | js/compiler.js:193-197 | Definition of the J-type concatenation (opcode, then `address >>> 2` padded to 26 digits); its layout is proved in Compiler.JTypeWordLayout |
| Compiler.JTypeWordLayout | js/compiler.js:193-197 | For a label address below 2^28, the J-type word is the opcode and address / 4 in 26 bits; for an aligned address, those bits times 4 give the address back |
| Compiler.CompilesRType | js/compiler.js:79-131 | A line that parses as Register, Shift or RJump compiles to the matching word layout of its descriptor |
| Compiler.CompilesIType | js/compiler.js:145-181 | A line that parses as Immediate or LoadStore compiles to opcode, rs, rt, and the converted immediate |
| Compiler.CompilesJType | js/compiler.js:184-198 | A J-type line whose label is defined compiles to the opcode and the label address as a word address |
| Compiler.BranchImmediate | js/compiler.js:155-170 | Definition of the label-offset immediate of beq/bne (`(target - (currentPC + 4)) >> 2`, `(1 << 16) +` for a negative offset, padded to 16 digits); its properties are in Compiler.BranchImmediateLands, SixteenBitField and RoundTrip.BranchWordLands |
| Compiler.BranchImmediateLands | js/compiler.js:155-170 | With aligned addresses and an offset that fits, the 16-bit branch field satisfies currentPC + 4 + 4 * field == label address |
| Compiler.SixteenBitField | js/compiler.js:165-170 | A value in [-32768, 32767], shifted by 2^16 when negative and padded to 16 digits, reads back as itself in two's complement |
| Compiler.HexWord | js/compiler.js:39-41 | Definition of `parseInt(word, 2).toString(16).padStart(8, "0")`; its properties are in Compiler.HexWordOfBits and HexWords |
| Compiler.HexWordOfBits | js/compiler.js:39-41 | A 32-bit word becomes exactly eight lower-case hexadecimal digits with the same value |
| Compiler.ParseIntOfBits | js/compiler.js:39 | `parseInt(word, 2)` reads a binary word as its value |
| Compiler.LineResults | js/compiler.js:31-44 | The per-line results of a pass have one entry per processed line |
| Compiler.ProcessedLinesCompiled | js/compiler.js:28-38 | Line i of the processed code is never skipped and is compiled as it stands at byte address 4 * i |
| Compiler.CollectResults | js/compiler.js:49-63 | Definition of the `forEach`/`push` pass over the per-line results (skipped lines, pushed words, the first throw); its properties are in Compiler.CollectResultsOk, CollectResultsWords, CollectResultsFirstFailure and CollectResultsStep |
| Compiler.CollectResultsOk | js/compiler.js:31-46 | A pass succeeds exactly when no line's compilation fails |
| Compiler.CollectResultsWords | js/compiler.js:53-62 | When no line is skipped, a successful pass has one word per line, the i-th being line i's word |
| Compiler.CollectResultsFirstFailure | js/compiler.js:53-62 | A failing pass reports the error of the first line that fails |
| Compiler.CollectResultsStep | js/compiler.js:53-60 | One callback: a skipped line adds nothing, a word is appended, an error ends the pass |
| Compiler.HexWords | js/compiler.js:39-42 | The hexadecimal listing has as many entries as there are words |
| Compiler.HexWordsAt | js/compiler.js:39-42 | Entry i of the hexadecimal listing is the hexadecimal form of word i |
| Compiler.HexWordsAppend | js/compiler.js:42 | Appending a word appends its hexadecimal form |
| Compiler.CompileLine | js/compiler.js:53-60 | The callback on line `index` gives that line's per-line result |
| Compiler.CompileToBin | js/compiler.js:49-63 | The binary pass returns the lines' collected per-line results; with CollectResultsOk, CollectResultsWords, CollectResultsFirstFailure and ProcessedLinesCompiled, that is one word per processed line, in order, or the first line's error |
| Compiler.CompileToHex | js/compiler.js:27-47 | The hexadecimal pass fails exactly as the binary pass does, and otherwise gives the hexadecimal form of each binary word at the same position |
| Helpers.SignedInt | js/MIPS.js:350-359 | The result is a 32-bit signed value congruent to the input modulo 2^32; for an unsigned 32-bit input it is the input or the input minus 2^32 |
| Helpers.ParseInt32 | js/MIPS.js:342-348 | The result is a 32-bit signed value: 0 when `parseInt` gives NaN, otherwise the parsed value reinterpreted as signed |
| Helpers.ParseInt32OfWord | js/MIPS.js:342-359 | `parseInt32` of a 32-bit word in radix 2 is its two's-complement value |
| Helpers.SignExtend | js/MIPS.js:361-375 | The result is undefined exactly when initialLen > finalLen (the negative `repeat` throws); otherwise it is the input with finalLen - initialLen sign characters in front |
| Helpers.SignExtendKeepsValue | js/MIPS.js:361-375 | Sign-extending a bit string keeps its two's-complement value and adds finalLen - initialLen bits |
| Helpers.BinString | js/MIPS.js:392-402 | Definition of `num.toString(2).padStart(binLen, "0")`; the loop method Helpers.ToBinString is proved equal to it |
| Helpers.ToBinString | js/MIPS.js:392-402 | The loop's result is `num.toString(2)` left-padded with zeros to `binLen` |
| Helpers.HexString | js/MIPS.js:377-390 | Definition of the as-written `toHexString`; its properties are in Helpers.ToHexString, HexStringOfNat, NegativeShownAsZeros, NegativeReadsAsZero and HexStringOfUint32 |
| Helpers.ToHexString | js/MIPS.js:377-390 | The result is the padded binary read back in radix 2, printed in radix 16 and padded to `hexLen` |
| Helpers.HexStringOfNat | js/MIPS.js:377-390 | A non-negative value that fits in hexLen hexadecimal digits is shown as its own padded digits |
| Helpers.NegativeShownAsZeros | js/MIPS.js:377-402 | Every negative value above -2^30 is shown as 00000000 by the as-written toHexString |
| Helpers.NegativeReadsAsZero | js/MIPS.js:380-383 | The 32-digit padding of a negative value above -2^30 reads back in radix 2 as 0 |
| Helpers.Int32Hex | js/MIPS.js:315-318 | Definition of the corrected rendering `(num >>> 0).toString(16).padStart(8, "0")`; its properties are in Helpers.Int32HexDigits and HexStringOfUint32 |
| Helpers.Int32HexDigits | js/MIPS.js:377-390 | The corrected rendering gives eight lower-case hexadecimal digits worth the value modulo 2^32, that is, the two's-complement pattern of a 32-bit value |
| Helpers.HexStringOfUint32 | js/MIPS.js:377-390 | On unsigned 32-bit values, such as the program counter, the as-written toHexString agrees with the corrected rendering |
| Mips.Decode | js/MIPS.js:109-130 | Decoding slices the opcode and funct, gives five fields below 32, clears imm for R-type, reads a target below 2^26 for 000010/000011 and keeps the old imm, and otherwise keeps the old target and reads imm as the 16-bit two's-complement value of bits 16-31 |
| Mips.Store | js/MIPS.js:5-9 | An Int32Array store keeps the length, makes the written element a 32-bit value, and keeps an all-32-bit array all-32-bit |
| Mips.JumpAddressRegion | js/MIPS.js:197-204 | As an unsigned value, the jump address is the top four bits of currentPC + 4 followed by target * 4 |
| Mips.FetchState | js/MIPS.js:37-45 | Definition of `fetch`; the method Mips.MIPS.Fetch is proved against it, and Mips.StepState composes it |
| Mips.ParseState | js/MIPS.js:109-130 | Decoding keeps the machine well formed |
| Mips.OperationOf | js/MIPS.js:134-208 | Definition of the opcode/funct switch of `execute`; RoundTrip.RTypeMnemonicHasACase, ITypeMnemonicHasACase, JTypeMnemonicHasACase and OnlyTableMnemonicsHaveACase prove that its cases are exactly the table entries |
| Mips.Exec | js/MIPS.js:131-209 | Definition of one `execute` on the decoded fields; its properties are in Mips.ExecKeepsInt32, Semantics.ThrowsOnlyOnUnknownFunct, WritesOnlyDestination and the per-instruction Semantics …Outcome lemmas |
| Mips.ExecuteState | js/MIPS.js:131-209 | Executing keeps the machine well formed, and a throw leaves it unchanged |
| Mips.ExecKeepsInt32 | js/MIPS.js:212-283 | Every store of execute keeps 32 registers, the memory size, and 32-bit values throughout |
| Mips.ChangesExactly | js/MIPS.js:69-87 | The change report holds an index exactly when the old and new values there differ, with both values |
| Mips.Snapshot | js/MIPS.js:285-293 | Definition of the corrected record (registers, memory, hi and lo through Int32Hex; pc through PcHex) that the model's getState returns; Mips.MIPS.GetState is proved to return it, and Helpers.Int32HexDigits gives what its texts hold |
| Mips.StepState | js/MIPS.js:47-93 | A step returns null exactly when pc >= 4 * IM_len, and then changes nothing; it keeps the machine well formed |
| Mips.RunWith | js/MIPS.js:95-106 | Definition of the `runUntilEnd` loop with a fuel bound; its properties are in Mips.RunWithKeeps, RunWithStepped, RunWithEnded, Semantics.RunWithMoreFuel and RunWithHaltsAtEnd |
| Mips.RunWithKeeps | js/MIPS.js:95-105 | A property every step keeps holds wherever the run loop stops |
| Mips.StepOfKeepsWellFormed | js/MIPS.js:47-93 | Every step of a program keeps a machine well formed |
| Mips.RunState | js/MIPS.js:95-107 | The bounded run keeps the machine well formed |
| Mips.RunWithStepped | js/MIPS.js:97-105 | A run whose first cycle goes through continues from the stepped machine with one cycle less |
| Mips.RunWithEnded | js/MIPS.js:98-101 | A run whose first cycle halts or throws ends there, whatever fuel is left |
| Mips.Overwritten | js/MIPS.js:29-34 | The copy loop's result is as long as the longer of the array and the input; slot i holds input i when i is in range of the input, and the old slot otherwise |
| Mips.PutOverwritten | js/MIPS.js:29-31 | One more loop iteration extends the overwritten prefix by one element |
| Mips.ChangedCells | js/MIPS.js:69-87 | The diff loop returns exactly the change report of the snapshot against the array |
| Mips.MIPS.constructor | js/MIPS.js:4-24 | 32 zeroed registers, 256 zeroed memory words, 256 empty instruction slots, IM_len and pc 0, an empty label table |
| Mips.MIPS.SetIM | js/MIPS.js:26-35 | IM_len is the number of words; the labels are the given table; IM_asm and IM are overwritten from index 0 by the lines and the words; pc, registers and memory are untouched |
| Mips.MIPS.OverwriteAsm | js/MIPS.js:29-31 | The first copy loop writes IM_asm[i] = assemblyCode[i] for every line, in order |
| Mips.MIPS.OverwriteWords | js/MIPS.js:32-34 | The second copy loop writes IM[i] = binMachineCode[i] for every word, in order |
| Mips.MIPS.Fetch | js/MIPS.js:37-45 | Fetch returns false and changes nothing once pc >= 4 * IM_len; otherwise it loads the slots at pc / 4, undefined for a missing slot |
| Mips.MIPS.ParseMachineCode | js/MIPS.js:109-130 | The decode fields become those of the fetched word; an empty slot throws and changes nothing |
| Mips.MIPS.Add | js/MIPS.js:212-214 | Only reg[rd] changes, to reg[rs] + reg[rt] wrapped to 32 bits |
| Mips.MIPS.Sub | js/MIPS.js:251-253 | Only reg[rd] changes, to reg[rs] - reg[rt] wrapped to 32 bits |
| Mips.MIPS.And | js/MIPS.js:255-257 | Only reg[rd] changes, to the bitwise and of the two 32-bit patterns |
| Mips.MIPS.Or | js/MIPS.js:259-261 | Only reg[rd] changes, to the bitwise or of the two 32-bit patterns |
| Mips.MIPS.Slt | js/MIPS.js:263-265 | Only reg[rd] changes, to 1 when reg[rs] < reg[rt] and 0 otherwise |
| Mips.MIPS.Sll | js/MIPS.js:267-269 | Only reg[rd] changes, to reg[rt] << shamt |
| Mips.MIPS.Srl | js/MIPS.js:271-273 | Only reg[rd] changes, to reg[rt] >>> shamt stored as a 32-bit value |
| Mips.MIPS.Addi | js/MIPS.js:216-218 | Only reg[rt] changes, to reg[rs] + imm wrapped to 32 bits |
| Mips.MIPS.Lw | js/MIPS.js:275-278 | Only reg[rt] changes, to the memory word at (reg[rs] + imm) >> 2, or to 0 when there is none |
| Mips.MIPS.Sw | js/MIPS.js:280-283 | Only the memory word at (reg[rs] + imm) >> 2 changes, to reg[rt]; a store outside memory changes nothing |
| Mips.MIPS.ExecuteFunct | js/MIPS.js:135-165 | The R-type switch has the effect Exec gives, and a funct with no case throws and leaves the registers as they were |
| Mips.MIPS.ExecuteBranch | js/MIPS.js:166-177 | beq and bne change nothing and return the nextPC Exec gives |
| Mips.MIPS.ExecuteRegisterWrite | js/MIPS.js:185-191 | addi and lw have the effect Exec gives and continue at currentPC + 4 |
| Mips.MIPS.ExecuteStore | js/MIPS.js:193-195 | sw has the effect Exec gives and continues at currentPC + 4 |
| Mips.MIPS.ExecuteJump | js/MIPS.js:197-204 | j and jal have the effect Exec gives and return the jump address |
| Mips.MIPS.ExecuteOpcode | js/MIPS.js:166-204 | The non-R-type cases, and an opcode with no case, have the effect Exec gives |
| Mips.MIPS.Execute | js/MIPS.js:131-209 | execute moves the machine as ExecuteState does: the selected case, then pc := nextPC >>> 0 and nextPC returned, or a throw that changes nothing |
| Mips.MIPS.PcToHex | js/MIPS.js:329-331 | The text is "0x" followed by the as-written toHexString of pc, which for the unsigned pc is its eight hexadecimal digits |
| Mips.MIPS.GetState | js/MIPS.js:285-293 | The state is the snapshot of the machine: registers, memory, hi and lo as "0x" and the eight hexadecimal digits of their 32-bit patterns, and pc as pcToHex gives it |
| Mips.MIPS.Step | js/MIPS.js:47-93 | step moves the machine and reports as StepState does; with StepState's contract and Semantics.StepReportIsExact, it returns null and changes nothing exactly when pc is past the program, and otherwise reports exactly the changed registers and memory words |
| Mips.MIPS.RunCycle | js/MIPS.js:97-105 | One loop iteration is one step; it ends the run, with the outcome of a one-cycle run, exactly when the step halts or throws |
| Mips.MIPS.RunUntilEnd | js/MIPS.js:95-107 | The loop leaves the machine where the fuel-bounded RunState stops, and returns the corresponding outcome: getState after a failed fetch, or the error of a throw |
| Semantics.ThrowsOnlyOnUnknownFunct | js/MIPS.js:161-162 | execute throws exactly for opcode 000000 with a funct that has no case, and the error names that funct |
| Semantics.ThrowChangesNothing | js/MIPS.js:161-162 | A throw leaves registers, memory and pc unchanged |
| Semantics.SequentialNext | js/MIPS.js:132 | Every non-control instruction, and an opcode with no case, continues at currentPC + 4 |
| Semantics.SequentialAdvances | js/MIPS.js:207 | After such an instruction, pc becomes (currentPC + 4) modulo 2^32 |
| Semantics.BranchOutcome | js/MIPS.js:166-177 | beq (bne) continues at currentPC + 4 + 4 * imm when the registers are equal (different), and at currentPC + 4 otherwise; no register or memory word changes |
| Semantics.JumpOutcome | js/MIPS.js:197-204 | j and jal continue at the top four bits of currentPC + 4 followed by target * 4; jal also writes currentPC + 8, wrapped, to register 31; memory is unchanged |
| Semantics.JumpRegisterOutcome | js/MIPS.js:152-154 | jr returns reg[rs] as nextPC and the new machine differs from the old one only in pc, which becomes reg[rs] >>> 0: reg[rs] itself when it is non-negative, reg[rs] + 2^32 otherwise |
| Semantics.WritesOnlyDestination | js/MIPS.js:212-283 | Every instruction changes at most its destination register (rd, rt, or 31 for jal) and the memory word sw addresses |
| Semantics.ArithmeticOutcome | js/MIPS.js:212-253 | add, sub and addi write the exact result when it fits in 32 bits, and otherwise that result plus or minus 2^32 |
| Semantics.SetLessThanOutcome | js/MIPS.js:263-265 | slt writes 1 or 0, and 1 exactly when reg[rs] < reg[rt] as signed 32-bit values |
| Semantics.ShiftRightOutcome | js/MIPS.js:271-273 | srl by a positive amount writes the unsigned pattern divided by 2^shamt, a non-negative value; srl by 0 keeps the value |
| Semantics.ShiftLeftOutcome | js/MIPS.js:267-269 | sll writes reg[rt] * 2^shamt wrapped to 32 bits |
| Semantics.LogicOutcome | js/MIPS.js:255-261 | Each bit of the result of and (or) is the and (or) of the operands' bits at that position |
| Semantics.MemoryOutcome | js/MIPS.js:275-283 | lw changes only register rt, to DM[k] or 0 out of range; sw changes only DM[k] when it exists, to reg[rt]; k is (reg[rs] + imm) >> 2 |
| Semantics.StepReportIsExact | js/MIPS.js:53-91 | A step's report names exactly the registers and memory words whose values changed, with the old and new values, the instruction text at the old pc, and the new pc in hexadecimal |
| Semantics.StepThrowKeepsState | js/MIPS.js:59-60 | A step that throws leaves registers, memory and pc unchanged |
| Semantics.RunWithMoreFuel | js/MIPS.js:95-105 | Once a run over any step function has stopped, more fuel changes neither how nor where it stops |
| Semantics.RunWithHaltsAtEnd | js/MIPS.js:98-101 | A run stops at a failed fetch only on a machine whose step halts |
| Semantics.RunMoreFuel | js/MIPS.js:95-105 | Once runUntilEnd has stopped within the bound, a larger bound gives the same end and machine |
| Semantics.RunFinishesPastProgram | js/MIPS.js:95-107 | runUntilEnd stops at a failed fetch only with pc past the program, and then returns that machine's getState |
| RoundTrip.RTypeMnemonicHasACase | js/MIPS.js:136-163 | Every R-type mnemonic's funct selects that mnemonic's case of execute, which is never the unsupported-funct throw |
| RoundTrip.ITypeMnemonicHasACase | js/MIPS.js:166-195 | Every I-type mnemonic's opcode selects that mnemonic's case whatever the funct bits: one of beq, bne, addi, lw, sw; the opcode is neither R-type nor a jump |
| RoundTrip.JTypeMnemonicHasACase | js/MIPS.js:197-204 | j and jal select the j and jal cases, and their opcodes are the jump opcodes parseMachineCode reads a target for |
| RoundTrip.OnlyTableMnemonicsHaveACase | js/tokens.js:37-99 | A mnemonic names a case of execute exactly when it is in one of the three tables |
| RoundTrip.CodeValue | js/MIPS.js:111-114 | A register's 5-bit code reads back as its register number |
| RoundTrip.DecodeRTypeWord | js/MIPS.js:109-118 | Decoding an R-type word gives back its five fields and funct, clears imm and keeps target |
| RoundTrip.DecodeITypeWord | js/MIPS.js:109-129 | Decoding an I-type word gives back the opcode, both registers and the immediate with its sign, and keeps target |
| RoundTrip.DecodeJTypeWord | js/MIPS.js:119-120 | Decoding a J-type word gives back the 26-bit target and keeps imm |
| RoundTrip.RegisterWordDecodes | js/compiler.js:81-90 | An assembled register word decodes to its three register numbers, shift 0 and the mnemonic's case |
| RoundTrip.ShiftWordDecodes | js/compiler.js:91-100 | An assembled shift word below 32 decodes to rs 0, its registers, the shift amount and the mnemonic's case |
| RoundTrip.ITypeWordDecodes | js/compiler.js:175-180 | An assembled I-type word with an encodable literal decodes to both register numbers, the literal's value and the mnemonic's case |
| RoundTrip.JTypeWordDecodes | js/compiler.js:193-197 | An assembled J-type word with an aligned address below 2^28 decodes to a target with 4 * target the address, and the mnemonic's case |
| RoundTrip.JumpWordLands | js/compiler.js:193-197 | Executing an assembled j or jal word from the first 256 MB continues at the label address; jal writes currentPC + 8 to register 31 |
| RoundTrip.BranchWordLayout | js/compiler.js:155-180 | The label-form beq word is an I-type word with opcode 000100, whose immediate leads from the next instruction to the label |
| RoundTrip.BranchWordDecodes | js/MIPS.js:109-129 | That word decodes to both register numbers, the beq case and an imm with currentPC + 4 + 4 * imm the label address |
| RoundTrip.BranchWordLands | js/MIPS.js:166-171 | Executing that word continues at the label when the two registers are equal, at currentPC + 4 otherwise, and changes nothing else |
| RoundTrip.BranchEqualLands | js/MIPS.js:166-171 | A decoded beq whose offset reaches the target continues there exactly when the registers are equal |

## Left out

- `parser.collectLabels` is not part of this model: it is called by
  `processLabels` and `setIM`, but its code is not among the files modelled.
  The label table is a parameter: a map from label name to byte address.
- js/step_by_step.js, js/converter.js and script.js are user interface (DOM
  rendering, text areas, buttons) and are not modelled.
- `alert` and `console.log` output is not modelled. Where a helper returns
  `null` or `undefined` after an alert, the model returns `None`.
- Dead code is not modelled:
  - the duplicate `000100`/`000101` cases of `execute`;
  - the empty `beq()`/`bne()` and the never-called `jr()`/`j()`/`jal()`;
  - the first `toHexString` and the duplicated `regToHex`…`loToHex`, which the
    later definitions shadow;
  - the MultDiv and MoveFrom compiler branches, which the parser never
    produces;
  - the `lui` compiler branch, which is unreachable because `lui` is in no
    table.
  - `Compiler.CompileITypeInstruction` follows the code: because the parser
    never sets `isLabel`, the label branch never runs. That branch's
    arithmetic is modelled separately as `Compiler.BranchImmediate`.
- `step()` formats the old and new values of a change with `toString(16)`,
  which prints negative values with a minus sign. The model reports them as
  integer pairs (`Change(before, after)`).
- `Mips.Snapshot`, `Mips.MIPS.GetState`: registers, memory, `hi` and `lo` are
  shown with the corrected two's-complement rendering (`Helpers.Int32Hex`),
  not with the as-written `toHexString`, which shows values in (-2^30, 0) as
  zeros and values at or below -2^30 with a minus sign (see Findings). The program counter keeps the as-written `toHexString`, which
  for an unsigned value gives the same digits (`Helpers.HexStringOfUint32`).
- `hiToHex` and `loToHex` are covered through `GetState`. The `hi` and `lo`
  fields are never written by any instruction, so they stay 0.
- `Mips.MIPS.RunUntilEnd` takes a `fuel` bound. The source loops until a fetch
  fails, with no step limit. A run that uses up its bound ends with
  `OutOfFuel`, which the source has no counterpart for. `Semantics.RunMoreFuel`
  shows the bound does not change a run that stops within it.
- `Mips.MIPS.SetIM`: requires every machine word to be 32 binary digits. The
  source accepts any strings, including words that contain the text "null" or
  "undefined". What the simulator would do with such words is not modelled.
- `Mips.StepOf`: on a machine that is not well formed it halts, so it can be
  passed as a total step function. That case does not arise from the class.
- `Compiler.CompileInstruction`, `Compiler.CompileJTypeInstruction`: require a
  trimmed line. Their only caller passes the output of
  `removeCommentsAndWhitespace`, which is trimmed.
- `Compiler.CompileRTypeInstruction`, `Compiler.CompileITypeInstruction`:
  require the mnemonic to be in their table. That is the dispatch in
  `compileInstruction` that calls them.
- Numbers are unbounded integers. `parseInt`, `toString(2)` and the additions
  of the assembler are exact only below 2^53 in JavaScript; larger literals
  are not modelled as floating point.
- A `null` opcode or funct in the constructor is the empty string.
- The decode fields are kept as one `Decoded` record.
- `$zero` is not hard-wired to 0, so writes to register 0 stick, as in the
  code.
- `IM_asm` is filled by source line, not by instruction, as in the code. The
  `instruction` text a step reports is the source line at index pc / 4.
- `compileToHex` on a word that is not 32 binary digits (a word holding
  "null" or "undefined") is covered only by the general `HexWord` definition.
  Its digits are proved only for 32-bit words.

## Findings

| source | as written | input that shows it | evidently intended | confidence | as-written member | corrected member |
|---|---|---|---|---|---|---|
| js/MIPS.js:377-402 | `toHexString` pads `num.toString(2)` with zeros and reads it back with `parseInt(_, 2)`. For a negative value the zeros go in front of the minus sign, and `parseInt` stops there. | `toHexString(-1, 8)` gives `00000000` (any value in (-2^30, 0) does) | `ffffffff`: the 32-bit two's-complement pattern, which `getState` is meant to show for registers and memory | not executed | Helpers.NegativeShownAsZeros | Helpers.Int32HexDigits |
