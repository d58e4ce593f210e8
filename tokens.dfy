/**
 * The constant tables every other component is keyed off: register names
 * to 5-bit codes, and mnemonics to their 6-bit opcode (and, for R-type,
 * 6-bit function code). Codes are strings of '0'/'1' characters, as in the
 * source tables.
 */
module Tokens {
  import opened Bits

  /** The register names in the order the `registers` table lists them. */
  const RegisterNames: seq<string> := [
    "$zero", "$at", "$v0", "$v1", "$a0", "$a1", "$a2", "$a3",
    "$t0", "$t1", "$t2", "$t3", "$t4", "$t5", "$t6", "$t7",
    "$s0", "$s1", "$s2", "$s3", "$s4", "$s5", "$s6", "$s7",
    "$t8", "$t9", "$k0", "$k1", "$gp", "$sp", "$fp", "$ra"
  ]

  /** Register name to its 5-bit code. */
  const Registers: map<string, string> := map[
    "$zero" := "00000", "$at" := "00001", "$v0" := "00010", "$v1" := "00011",
    "$a0" := "00100", "$a1" := "00101", "$a2" := "00110", "$a3" := "00111",
    "$t0" := "01000", "$t1" := "01001", "$t2" := "01010", "$t3" := "01011",
    "$t4" := "01100", "$t5" := "01101", "$t6" := "01110", "$t7" := "01111",
    "$s0" := "10000", "$s1" := "10001", "$s2" := "10010", "$s3" := "10011",
    "$s4" := "10100", "$s5" := "10101", "$s6" := "10110", "$s7" := "10111",
    "$t8" := "11000", "$t9" := "11001", "$k0" := "11010", "$k1" := "11011",
    "$gp" := "11100", "$sp" := "11101", "$fp" := "11110", "$ra" := "11111"
  ]

  /** An R-type entry: the shared opcode and the function code. */
  datatype RCode = RCode(opcode: string, funct: string)

  /** An I-type or J-type entry: its opcode. */
  datatype OpCode = OpCode(opcode: string)

  const RTypeInstructions: map<string, RCode> := map[
    "add" := RCode("000000", "100000"),
    "sub" := RCode("000000", "100010"),
    "and" := RCode("000000", "100100"),
    "or"  := RCode("000000", "100101"),
    "slt" := RCode("000000", "101010"),
    "jr"  := RCode("000000", "001000"),
    "sll" := RCode("000000", "000000"),
    "srl" := RCode("000000", "000010")
  ]

  const ITypeInstructions: map<string, OpCode> := map[
    "beq"  := OpCode("000100"),
    "bne"  := OpCode("000101"),
    "addi" := OpCode("001000"),
    "lw"   := OpCode("100011"),
    "sw"   := OpCode("101011")
  ]

  const JTypeInstructions: map<string, OpCode> := map[
    "j"   := OpCode("000010"),
    "jal" := OpCode("000011")
  ]

  function BitChar(x: nat): char { if x % 2 == 1 then '1' else '0' }

  /** `s` spells the 5-bit binary numeral of `i`, most significant digit first. */
  predicate SpellsCode(s: string, i: nat) {
    |s| == 5 && s[0] == BitChar(i / 16) && s[1] == BitChar(i / 8) && s[2] == BitChar(i / 4)
    && s[3] == BitChar(i / 2) && s[4] == BitChar(i)
  }

  lemma SpelledCodeIsNatToBits(s: string, i: nat)
    requires SpellsCode(s, i)
    ensures s == NatToBits(i, 5)
  {
    assert i / 2 / 2 == i / 4 && i / 4 / 2 == i / 8 && i / 8 / 2 == i / 16;
    assert NatToBits(i / 16, 1) == [BitChar(i / 16)];
    assert NatToBits(i / 8, 2) == [BitChar(i / 16), BitChar(i / 8)];
    assert NatToBits(i / 4, 3) == [BitChar(i / 16), BitChar(i / 8), BitChar(i / 4)];
    assert NatToBits(i / 2, 4) == [BitChar(i / 16), BitChar(i / 8), BitChar(i / 4), BitChar(i / 2)];
  }

  /** The codes of $zero through $at. */
  lemma CodesZeroAt(i: nat)
    requires 0 <= i < 2
    ensures RegisterNames[i] in Registers && SpellsCode(Registers[RegisterNames[i]], i)
  {
    if i == 0 { assert RegisterNames[0] == "$zero" && Registers["$zero"] == "00000"; }
    else if i == 1 { assert RegisterNames[1] == "$at" && Registers["$at"] == "00001"; }
  }

  /** The codes of $v0 through $v1. */
  lemma CodesV0V1(i: nat)
    requires 2 <= i < 4
    ensures RegisterNames[i] in Registers && SpellsCode(Registers[RegisterNames[i]], i)
  {
    if i == 2 { assert RegisterNames[2] == "$v0" && Registers["$v0"] == "00010"; }
    else if i == 3 { assert RegisterNames[3] == "$v1" && Registers["$v1"] == "00011"; }
  }

  /** The codes of $a0 through $a1. */
  lemma CodesA0A1(i: nat)
    requires 4 <= i < 6
    ensures RegisterNames[i] in Registers && SpellsCode(Registers[RegisterNames[i]], i)
  {
    if i == 4 { assert RegisterNames[4] == "$a0" && Registers["$a0"] == "00100"; }
    else if i == 5 { assert RegisterNames[5] == "$a1" && Registers["$a1"] == "00101"; }
  }

  /** The codes of $a2 through $a3. */
  lemma CodesA2A3(i: nat)
    requires 6 <= i < 8
    ensures RegisterNames[i] in Registers && SpellsCode(Registers[RegisterNames[i]], i)
  {
    if i == 6 { assert RegisterNames[6] == "$a2" && Registers["$a2"] == "00110"; }
    else if i == 7 { assert RegisterNames[7] == "$a3" && Registers["$a3"] == "00111"; }
  }

  /** The codes of $t0 through $t1. */
  lemma CodesT0T1(i: nat)
    requires 8 <= i < 10
    ensures RegisterNames[i] in Registers && SpellsCode(Registers[RegisterNames[i]], i)
  {
    if i == 8 { assert RegisterNames[8] == "$t0" && Registers["$t0"] == "01000"; }
    else if i == 9 { assert RegisterNames[9] == "$t1" && Registers["$t1"] == "01001"; }
  }

  /** The codes of $t2 through $t3. */
  lemma CodesT2T3(i: nat)
    requires 10 <= i < 12
    ensures RegisterNames[i] in Registers && SpellsCode(Registers[RegisterNames[i]], i)
  {
    if i == 10 { assert RegisterNames[10] == "$t2" && Registers["$t2"] == "01010"; }
    else if i == 11 { assert RegisterNames[11] == "$t3" && Registers["$t3"] == "01011"; }
  }

  /** The codes of $t4 through $t5. */
  lemma CodesT4T5(i: nat)
    requires 12 <= i < 14
    ensures RegisterNames[i] in Registers && SpellsCode(Registers[RegisterNames[i]], i)
  {
    if i == 12 { assert RegisterNames[12] == "$t4" && Registers["$t4"] == "01100"; }
    else if i == 13 { assert RegisterNames[13] == "$t5" && Registers["$t5"] == "01101"; }
  }

  /** The codes of $t6 through $t7. */
  lemma CodesT6T7(i: nat)
    requires 14 <= i < 16
    ensures RegisterNames[i] in Registers && SpellsCode(Registers[RegisterNames[i]], i)
  {
    if i == 14 { assert RegisterNames[14] == "$t6" && Registers["$t6"] == "01110"; }
    else if i == 15 { assert RegisterNames[15] == "$t7" && Registers["$t7"] == "01111"; }
  }

  /** The codes of $s0 through $s3. */
  lemma CodesS0S3(i: nat)
    requires 16 <= i < 20
    ensures RegisterNames[i] in Registers && SpellsCode(Registers[RegisterNames[i]], i)
  {
    if i == 16 { assert RegisterNames[16] == "$s0" && Registers["$s0"] == "10000"; }
    else if i == 17 { assert RegisterNames[17] == "$s1" && Registers["$s1"] == "10001"; }
    else if i == 18 { assert RegisterNames[18] == "$s2" && Registers["$s2"] == "10010"; }
    else if i == 19 { assert RegisterNames[19] == "$s3" && Registers["$s3"] == "10011"; }
  }

  /** The codes of $s4 through $s7. */
  lemma CodesS4S7(i: nat)
    requires 20 <= i < 24
    ensures RegisterNames[i] in Registers && SpellsCode(Registers[RegisterNames[i]], i)
  {
    if i == 20 { assert RegisterNames[20] == "$s4" && Registers["$s4"] == "10100"; }
    else if i == 21 { assert RegisterNames[21] == "$s5" && Registers["$s5"] == "10101"; }
    else if i == 22 { assert RegisterNames[22] == "$s6" && Registers["$s6"] == "10110"; }
    else if i == 23 { assert RegisterNames[23] == "$s7" && Registers["$s7"] == "10111"; }
  }

  /** The codes of $t8 through $k1. */
  lemma CodesT8K1(i: nat)
    requires 24 <= i < 28
    ensures RegisterNames[i] in Registers && SpellsCode(Registers[RegisterNames[i]], i)
  {
    if i == 24 { assert RegisterNames[24] == "$t8" && Registers["$t8"] == "11000"; }
    else if i == 25 { assert RegisterNames[25] == "$t9" && Registers["$t9"] == "11001"; }
    else if i == 26 { assert RegisterNames[26] == "$k0" && Registers["$k0"] == "11010"; }
    else if i == 27 { assert RegisterNames[27] == "$k1" && Registers["$k1"] == "11011"; }
  }

  /** The codes of $gp through $ra. */
  lemma CodesGpRa(i: nat)
    requires 28 <= i < 32
    ensures RegisterNames[i] in Registers && SpellsCode(Registers[RegisterNames[i]], i)
  {
    if i == 28 { assert RegisterNames[28] == "$gp" && Registers["$gp"] == "11100"; }
    else if i == 29 { assert RegisterNames[29] == "$sp" && Registers["$sp"] == "11101"; }
    else if i == 30 { assert RegisterNames[30] == "$fp" && Registers["$fp"] == "11110"; }
    else if i == 31 { assert RegisterNames[31] == "$ra" && Registers["$ra"] == "11111"; }
  }

  lemma RegisterNamesAreKeys()
    ensures forall name :: name in Registers <==> name in RegisterNames
  {
  }

  /**
   * The register table lists 32 distinct names, in order, against the codes
   * 0 through 31 written as 5-bit strings.
   */
  lemma RegistersInListedOrder()
    ensures |RegisterNames| == 32
    ensures forall name :: name in Registers <==> name in RegisterNames
    ensures forall i :: 0 <= i < 32 ==> Registers[RegisterNames[i]] == NatToBits(i, 5)
    ensures forall i, j :: 0 <= i < j < 32 ==> RegisterNames[i] != RegisterNames[j]
  {
    RegisterNamesAreKeys();
    RegisterCodesAreIndices();
    forall i, j | 0 <= i < j < 32 ensures RegisterNames[i] != RegisterNames[j] {
      assert Pow2(5) == 32;
      if RegisterNames[i] == RegisterNames[j] { NatToBitsInjective(i, j, 5); }
    }
  }

  /** The code of the `i`-th listed register is `i` written with five bits. */
  lemma RegisterCodesAreIndices()
    ensures forall i :: 0 <= i < 32 ==> RegisterNames[i] in Registers && Registers[RegisterNames[i]] == NatToBits(i, 5)
  {
    forall i | 0 <= i < 32 ensures RegisterNames[i] in Registers && Registers[RegisterNames[i]] == NatToBits(i, 5) {
      if i < 2 { CodesZeroAt(i); }
      else if i < 4 { CodesV0V1(i); }
      else if i < 6 { CodesA0A1(i); }
      else if i < 8 { CodesA2A3(i); }
      else if i < 10 { CodesT0T1(i); }
      else if i < 12 { CodesT2T3(i); }
      else if i < 14 { CodesT4T5(i); }
      else if i < 16 { CodesT6T7(i); }
      else if i < 20 { CodesS0S3(i); }
      else if i < 24 { CodesS4S7(i); }
      else if i < 28 { CodesT8K1(i); }
      else { CodesGpRa(i); }
      SpelledCodeIsNatToBits(Registers[RegisterNames[i]], i);
    }
  }

  /** The position of a listed register name, which is also the number its code spells. */
  function RegisterNumber(name: string): (n: nat)
    requires name in Registers
    ensures n < 32 && RegisterNames[n] == name && Registers[name] == NatToBits(n, 5)
  {
    RegistersInListedOrder();
    IndexOf(RegisterNames, name)
  }

  function IndexOf(names: seq<string>, name: string): (n: nat)
    requires name in names
    ensures n < |names| && names[n] == name
  {
    if names[0] == name then 0 else 1 + IndexOf(names[1..], name)
  }

  /** Every R-type entry shares opcode `000000`; the function codes are distinct 6-bit strings. */
  lemma RTypeTableWellFormed()
    ensures forall m :: m in RTypeInstructions ==> RTypeInstructions[m].opcode == "000000"
    ensures forall m :: m in RTypeInstructions ==> IsBits(RTypeInstructions[m].funct, 6)
    ensures forall m, n :: m in RTypeInstructions && n in RTypeInstructions && m != n ==>
              RTypeInstructions[m].funct != RTypeInstructions[n].funct
  {
  }

  /** One R-type entry: opcode `000000` and a 6-bit function code. */
  lemma RTypeEntry(m: string)
    requires m in RTypeInstructions
    ensures RTypeInstructions[m].opcode == "000000" && IsBits(RTypeInstructions[m].funct, 6)
  {
    RTypeTableWellFormed();
  }

  /** The I-type and J-type opcodes are 6-bit strings, none of them the R-type `000000`. */
  lemma IJTypeOpcodesWellFormed()
    ensures forall m :: m in ITypeInstructions ==> IsBits(ITypeInstructions[m].opcode, 6) && ITypeInstructions[m].opcode != "000000"
    ensures forall m :: m in JTypeInstructions ==> IsBits(JTypeInstructions[m].opcode, 6) && JTypeInstructions[m].opcode != "000000"
  {
  }

  /** No two I-type mnemonics share an opcode. */
  lemma ITypeOpcodesDistinct()
    ensures forall m, n :: m in ITypeInstructions && n in ITypeInstructions && m != n ==>
              ITypeInstructions[m].opcode != ITypeInstructions[n].opcode
  {
  }

  /** The two J-type opcodes differ from each other and from every I-type opcode. */
  lemma JTypeOpcodesDistinct()
    ensures JTypeInstructions["j"].opcode != JTypeInstructions["jal"].opcode
    ensures JTypeInstructions.Keys == {"j", "jal"}
    ensures forall m :: m in ITypeInstructions ==>
              ITypeInstructions[m].opcode != JTypeInstructions["j"].opcode &&
              ITypeInstructions[m].opcode != JTypeInstructions["jal"].opcode
  {
  }

  /** No mnemonic is in two tables, so at most one branch of the assembler's dispatch applies. */
  lemma TablesDisjoint()
    ensures RTypeInstructions.Keys !! ITypeInstructions.Keys
    ensures RTypeInstructions.Keys !! JTypeInstructions.Keys
    ensures ITypeInstructions.Keys !! JTypeInstructions.Keys
  {
  }

  /** One I-type entry: a 6-bit opcode. */
  lemma ITypeEntry(m: string)
    requires m in ITypeInstructions
    ensures IsBits(ITypeInstructions[m].opcode, 6)
  {
    IJTypeOpcodesWellFormed();
  }

  /** One J-type entry: a 6-bit opcode. */
  lemma JTypeEntry(m: string)
    requires m in JTypeInstructions
    ensures IsBits(JTypeInstructions[m].opcode, 6)
  {
    IJTypeOpcodesWellFormed();
  }
}
