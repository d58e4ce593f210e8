/**
 * The assembler and the simulator against each other: every mnemonic of
 * the tables reaches the `execute` case it names, the words the assembler
 * builds decode back to the registers and literals they were built from,
 * and branch and jump words land on their labels.
 */
module RoundTrip {
  import opened Results
  import opened Bits
  import opened Tokens
  import opened Parser
  import opened Compiler
  import opened Mips
  import Semantics

  /** The `execute` case each supported mnemonic stands for. */
  function MnemonicOperation(mnemonic: string): Operation
  {
    if mnemonic == "add" then ADD
    else if mnemonic == "sub" then SUB
    else if mnemonic == "and" then AND
    else if mnemonic == "or" then OR
    else if mnemonic == "slt" then SLT
    else if mnemonic == "jr" then JR
    else if mnemonic == "sll" then SLL
    else if mnemonic == "srl" then SRL
    else if mnemonic == "beq" then BEQ
    else if mnemonic == "bne" then BNE
    else if mnemonic == "addi" then ADDI
    else if mnemonic == "lw" then LW
    else if mnemonic == "sw" then SW
    else if mnemonic == "j" then J
    else if mnemonic == "jal" then JAL
    else NoOperation
  }

  /** Every R-type mnemonic's funct selects the case of that mnemonic, which is a known case. */
  lemma RTypeMnemonicHasACase(mnemonic: string)
    requires mnemonic in RTypeInstructions
    ensures var e := RTypeInstructions[mnemonic];
      OperationOf(e.opcode, e.funct) == MnemonicOperation(mnemonic) && MnemonicOperation(mnemonic) !in {Unsupported, NoOperation}
  {
    assert mnemonic in {"add", "sub", "and", "or", "slt", "jr", "sll", "srl"};
    if mnemonic == "add" {
      assert RTypeInstructions[mnemonic].funct == "100000";
    } else if mnemonic == "sub" {
      assert RTypeInstructions[mnemonic].funct == "100010";
    } else if mnemonic == "and" {
      assert RTypeInstructions[mnemonic].funct == "100100";
    } else if mnemonic == "or" {
      assert RTypeInstructions[mnemonic].funct == "100101";
    } else if mnemonic == "slt" {
      assert RTypeInstructions[mnemonic].funct == "101010";
    } else if mnemonic == "jr" {
      assert RTypeInstructions[mnemonic].funct == "001000";
    } else if mnemonic == "sll" {
      assert RTypeInstructions[mnemonic].funct == "000000";
    } else {
      assert mnemonic == "srl";
      assert RTypeInstructions[mnemonic].funct == "000010";
    }
  }

  /** An I-type mnemonic's opcode selects the case of that mnemonic whatever the funct bits. */
  lemma ITypeMnemonicHasACase(mnemonic: string, funct: string)
    requires mnemonic in ITypeInstructions
    ensures OperationOf(ITypeInstructions[mnemonic].opcode, funct) == MnemonicOperation(mnemonic)
    ensures MnemonicOperation(mnemonic) in {BEQ, BNE, ADDI, LW, SW}
    ensures ITypeInstructions[mnemonic].opcode != "000000" && !IsJumpOpcode(ITypeInstructions[mnemonic].opcode)
  {
    assert mnemonic in {"beq", "bne", "addi", "lw", "sw"};
    if mnemonic == "beq" {
      assert ITypeInstructions[mnemonic].opcode == "000100";
    } else if mnemonic == "bne" {
      assert ITypeInstructions[mnemonic].opcode == "000101";
    } else if mnemonic == "addi" {
      assert ITypeInstructions[mnemonic].opcode == "001000";
    } else if mnemonic == "lw" {
      assert ITypeInstructions[mnemonic].opcode == "100011";
    } else {
      assert mnemonic == "sw";
      assert ITypeInstructions[mnemonic].opcode == "101011";
    }
  }

  /** A J-type mnemonic's opcode selects the case of that mnemonic whatever the funct bits. */
  lemma JTypeMnemonicHasACase(mnemonic: string, funct: string)
    requires mnemonic in JTypeInstructions
    ensures OperationOf(JTypeInstructions[mnemonic].opcode, funct) == MnemonicOperation(mnemonic)
    ensures MnemonicOperation(mnemonic) == (if mnemonic == "j" then J else JAL) && IsJumpOpcode(JTypeInstructions[mnemonic].opcode)
  {
    assert mnemonic in {"j", "jal"};
    if mnemonic == "j" {
      assert JTypeInstructions[mnemonic].opcode == "000010";
    } else {
      assert mnemonic == "jal";
      assert JTypeInstructions[mnemonic].opcode == "000011";
    }
  }

  /** Only the mnemonics of the three tables name a case of `execute`. */
  lemma OnlyTableMnemonicsHaveACase(mnemonic: string)
    ensures MnemonicOperation(mnemonic) != NoOperation <==>
      mnemonic in RTypeInstructions || mnemonic in ITypeInstructions || mnemonic in JTypeInstructions
  {
    if MnemonicOperation(mnemonic) != NoOperation {
      assert mnemonic in {"add", "sub", "and", "or", "slt", "jr", "sll", "srl", "beq", "bne", "addi", "lw", "sw", "j", "jal"};
    }
  }

  /** A register's 5-bit code reads as its register number. */
  lemma CodeValue(name: string)
    requires name in Registers
    ensures BinToNat(Registers[name]) == RegisterNumber(name)
  {
    var n := RegisterNumber(name);
    FieldValue(n, 5);
  }

  /** A 5-bit field written by `NatToBits` reads back as the value written. */
  lemma FieldValue(n: nat, len: nat)
    requires n < Pow2(len)
    ensures BinToNat(NatToBits(n, len)) == n
  {
    BinToNatOfNatToBits(n, len);
    ModUnique(n, Pow2(len), 0, n);
  }

  /** `parseMachineCode` on an R-type word reads the five fields and the funct, and clears `imm`. */
  lemma DecodeRTypeWord(w: string, rs: string, rt: string, rd: string, shamt: string, funct: string, imm: int, target: nat)
    requires IsRTypeWord(w, "000000", rs, rt, rd, shamt, funct)
    ensures Decode(w, imm, target) == Decoded("000000", BinToNat(rs), BinToNat(rt), BinToNat(rd), BinToNat(shamt), funct, 0, target)
  {
    assert w[26..32] == w[26..];
  }

  /** `parseMachineCode` on an I-type word reads both registers and the immediate with its sign, and keeps `target`. */
  lemma DecodeITypeWord(w: string, opcode: string, rs: string, rt: string, immediate: string, imm: int, target: nat)
    requires IsITypeWord(w, opcode, rs, rt, immediate) && opcode != "000000" && !IsJumpOpcode(opcode)
    ensures var d := Decode(w, imm, target);
      && d.opcode == opcode && d.funct == w[26..] && d.rs == BinToNat(rs) && d.rt == BinToNat(rt)
      && d.imm == TwosComplement(immediate) && d.target == target
  {
  }

  /** `parseMachineCode` on a J-type word reads the 26-bit target and keeps `imm`. */
  lemma DecodeJTypeWord(w: string, opcode: string, field: string, imm: int, target: nat)
    requires IsJTypeWord(w, opcode, field) && IsJumpOpcode(opcode)
    ensures var d := Decode(w, imm, target);
      d.opcode == opcode && d.funct == w[26..] && d.target == BinToNat(field) && d.imm == imm
  {
    assert w[6..32] == w[6..];
  }

  /** The five-zero field of register and shift words reads as 0. */
  lemma ZeroFieldValue()
    ensures BinToNat("00000") == 0
  {
    assert "00000"[..4] == "0000";
    assert "0000"[..3] == "000";
    assert "000"[..2] == "00";
    assert "00"[..1] == "0";
    assert "0"[..0] == [];
  }

  /** `parseMachineCode` on a register word gives back the three registers, shift amount 0 and the mnemonic's case. */
  lemma RegisterWordDecodes(opcode: string, rd: string, rs: string, rt: string, imm: int, target: nat)
    requires opcode in RTypeInstructions && rd in Registers && rs in Registers && rt in Registers
    ensures IsBits(RegisterWord(opcode, rd, rs, rt), 32)
    ensures var d := Decode(RegisterWord(opcode, rd, rs, rt), imm, target);
      && d.rs == RegisterNumber(rs) && d.rt == RegisterNumber(rt) && d.rd == RegisterNumber(rd) && d.shamt == 0
      && d.imm == 0 && d.target == target
      && OperationOf(d.opcode, d.funct) == MnemonicOperation(opcode)
  {
    var w := RegisterWord(opcode, rd, rs, rt);
    RegisterWordLayout(opcode, rd, rs, rt);
    DecodeRTypeWord(w, Registers[rs], Registers[rt], Registers[rd], "00000", RTypeInstructions[opcode].funct, imm, target);
    CodeValue(rs);
    CodeValue(rt);
    CodeValue(rd);
    ZeroFieldValue();
    RTypeMnemonicHasACase(opcode);
  }

  /** `parseMachineCode` on a shift word below 32 gives back the registers, the shift amount and the mnemonic's case. */
  lemma ShiftWordDecodes(opcode: string, rd: string, rt: string, shamt: string, imm: int, target: nat)
    requires opcode in RTypeInstructions && rd in Registers && rt in Registers
    requires IsShiftAmountLiteral(shamt) && LiteralValue(shamt) < 32
    ensures IsBits(ShiftWord(opcode, rd, rt, shamt), 32)
    ensures var d := Decode(ShiftWord(opcode, rd, rt, shamt), imm, target);
      && d.rs == 0 && d.rt == RegisterNumber(rt) && d.rd == RegisterNumber(rd) && d.shamt == LiteralValue(shamt)
      && d.imm == 0 && d.target == target
      && OperationOf(d.opcode, d.funct) == MnemonicOperation(opcode)
  {
    ShiftWordLayout(opcode, rd, rt, shamt);
    DecodeRTypeWord(ShiftWord(opcode, rd, rt, shamt), "00000", Registers[rt], Registers[rd], NatToBits(LiteralValue(shamt), 5),
                    RTypeInstructions[opcode].funct, imm, target);
    ShiftAmount(shamt);
    CodeValue(rt);
    CodeValue(rd);
    ZeroFieldValue();
    assert LiteralValue(shamt) < Pow2(5) by { Pow2Values(); }
    FieldValue(LiteralValue(shamt), 5);
    RTypeMnemonicHasACase(opcode);
  }

  /**
   * `parseMachineCode` on an I-type word with an encodable literal gives
   * back both registers, the literal's value as `imm` and the mnemonic's case.
   */
  lemma ITypeWordDecodes(opcode: string, rs: string, rt: string, immediate: string, imm: int, target: nat)
    requires opcode in ITypeInstructions && rs in Registers && rt in Registers && IsEncodableImmediate(immediate)
    ensures IsBits(ITypeWord(opcode, rs, rt, immediate), 32)
    ensures var d := Decode(ITypeWord(opcode, rs, rt, immediate), imm, target);
      && d.rs == RegisterNumber(rs) && d.rt == RegisterNumber(rt)
      && d.imm == LiteralValue(immediate) && d.target == target
      && OperationOf(d.opcode, d.funct) == MnemonicOperation(opcode)
  {
    var w := ITypeWord(opcode, rs, rt, immediate);
    ITypeWordLayout(opcode, rs, rt, immediate);
    ITypeMnemonicHasACase(opcode, w[26..]);
    DecodeITypeWord(w, ITypeInstructions[opcode].opcode, Registers[rs], Registers[rt], w[16..], imm, target);
    CodeValue(rs);
    CodeValue(rt);
  }

  /**
   * `parseMachineCode` on a J-type word for an aligned address below 2^28
   * gives a target four times which is the address, leaves `imm`, and
   * selects the mnemonic's case.
   */
  lemma JTypeWordDecodes(opcode: string, address: int, imm: int, target: nat)
    requires opcode in JTypeInstructions && 0 <= address < 0x1000_0000 && address % 4 == 0
    ensures IsBits(JTypeWord(opcode, address), 32)
    ensures var d := Decode(JTypeWord(opcode, address), imm, target);
      && 4 * d.target == address && d.imm == imm
      && OperationOf(d.opcode, d.funct) == MnemonicOperation(opcode)
  {
    var w := JTypeWord(opcode, address);
    JTypeWordLayout(opcode, address);
    JTypeMnemonicHasACase(opcode, w[26..]);
    DecodeJTypeWord(w, JTypeInstructions[opcode].opcode, w[6..], imm, target);
  }

  /**
   * A `j` or `jal` word for a label in the first 256 MB, executed by an
   * instruction whose next address is also there, continues at the label;
   * `jal` also leaves the return address in `$ra`.
   */
  lemma JumpWordLands(opcode: string, address: int, imm: int, target: nat, reg: seq<int>, dm: seq<int>, currentPC: int)
    requires opcode in JTypeInstructions && 0 <= address < 0x1000_0000 && address % 4 == 0
    requires 0 <= currentPC + 4 < 0x1000_0000
    requires |reg| == 32 && |dm| == 256 && AllInt32(reg) && AllInt32(dm)
    ensures IsBits(JTypeWord(opcode, address), 32)
    ensures var e := Exec(Decode(JTypeWord(opcode, address), imm, target), reg, dm, currentPC);
      && e.Ok? && ToUint32(e.value.nextPC) == address && e.value.dm == dm
      && e.value.reg == if opcode == "jal" then reg[31 := ToInt32(currentPC + 8)] else reg
  {
    var w := JTypeWord(opcode, address);
    JTypeWordDecodes(opcode, address, imm, target);
    var d := Decode(w, imm, target);
    JTypeMnemonicHasACase(opcode, d.funct);
    Semantics.JumpOutcome(d, reg, dm, currentPC);
    assert ToUint32(currentPC + 4) == currentPC + 4 by { Pow2Wide(); }
    assert (currentPC + 4) / 0x1000_0000 == 0;
  }

  /** The `beq` word the assembler's label form would build: opcode, both registers and `BranchImmediate`. */
  function BranchWord(rs: string, rt: string, targetAddress: int, currentPC: int): string
    requires rs in Registers && rt in Registers
  {
    ITypeInstructions["beq"].opcode + (Registers[rs] + (Registers[rt] + BranchImmediate(targetAddress, currentPC)))
  }

  /** That word is an I-type word with opcode `000100` whose immediate leads from the next instruction to the label. */
  lemma BranchWordLayout(rs: string, rt: string, targetAddress: int, currentPC: int)
    requires rs in Registers && rt in Registers
    requires targetAddress % 4 == 0 && currentPC % 4 == 0
    requires -0x8000 <= (targetAddress - (currentPC + 4)) / 4 < 0x8000
    ensures var w := BranchWord(rs, rt, targetAddress, currentPC);
      && IsITypeWord(w, "000100", Registers[rs], Registers[rt], BranchImmediate(targetAddress, currentPC))
      && currentPC + 4 + 4 * TwosComplement(w[16..]) == targetAddress
  {
    var w, field := BranchWord(rs, rt, targetAddress, currentPC), BranchImmediate(targetAddress, currentPC);
    var op := ITypeInstructions["beq"].opcode;
    assert op == "000100";
    BranchImmediateLands(targetAddress, currentPC);
    RegisterCodeIsBits(rs);
    RegisterCodeIsBits(rt);
    ITypeFields(op, Registers[rs], Registers[rt], field);
  }

  /**
   * `parseMachineCode` on that word gives back both registers, an offset
   * that leads from the next instruction to the label, and the `beq` case,
   * for a word-aligned label within reach of a 16-bit word offset.
   */
  lemma BranchWordDecodes(rs: string, rt: string, targetAddress: int, currentPC: int, imm: int, target: nat)
    requires rs in Registers && rt in Registers
    requires targetAddress % 4 == 0 && currentPC % 4 == 0
    requires -0x8000 <= (targetAddress - (currentPC + 4)) / 4 < 0x8000
    ensures IsBits(BranchWord(rs, rt, targetAddress, currentPC), 32)
    ensures var d := Decode(BranchWord(rs, rt, targetAddress, currentPC), imm, target);
      && d.rs == RegisterNumber(rs) && d.rt == RegisterNumber(rt) && d.target == target
      && currentPC + 4 + 4 * d.imm == targetAddress
      && OperationOf(d.opcode, d.funct) == BEQ
  {
    var w := BranchWord(rs, rt, targetAddress, currentPC);
    BranchWordLayout(rs, rt, targetAddress, currentPC);
    DecodeITypeWord(w, "000100", Registers[rs], Registers[rt], w[16..], imm, target);
    CodeValue(rs);
    CodeValue(rt);
  }

  /**
   * Executing that word at `currentPC` continues at the label when the two
   * registers are equal and at the next instruction otherwise.
   */
  lemma BranchWordLands(rs: string, rt: string, targetAddress: int, currentPC: int, imm: int, target: nat, reg: seq<int>, dm: seq<int>)
    requires rs in Registers && rt in Registers
    requires targetAddress % 4 == 0 && currentPC % 4 == 0
    requires -0x8000 <= (targetAddress - (currentPC + 4)) / 4 < 0x8000
    requires |reg| == 32 && |dm| == 256 && AllInt32(reg) && AllInt32(dm)
    ensures IsBits(BranchWord(rs, rt, targetAddress, currentPC), 32)
    ensures var e := Exec(Decode(BranchWord(rs, rt, targetAddress, currentPC), imm, target), reg, dm, currentPC);
      e == Ok(Effect(reg, dm, if reg[RegisterNumber(rs)] == reg[RegisterNumber(rt)] then targetAddress else currentPC + 4))
  {
    BranchWordDecodes(rs, rt, targetAddress, currentPC, imm, target);
    var d := Decode(BranchWord(rs, rt, targetAddress, currentPC), imm, target);
    BranchEqualLands(d, reg, dm, currentPC, targetAddress);
  }

  /** A decoded `beq` whose offset reaches `targetAddress` continues there exactly when the two registers are equal. */
  lemma BranchEqualLands(d: Decoded, reg: seq<int>, dm: seq<int>, currentPC: int, targetAddress: int)
    requires Semantics.Executable(d, reg, dm) && OperationOf(d.opcode, d.funct) == BEQ
    requires -0x8000 <= d.imm < 0x8000 && currentPC + 4 + 4 * d.imm == targetAddress
    ensures Exec(d, reg, dm, currentPC) == Ok(Effect(reg, dm, if reg[d.rs] == reg[d.rt] then targetAddress else currentPC + 4))
  {
    Semantics.BranchOutcome(d, reg, dm, currentPC);
  }
}
