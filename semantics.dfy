/**
 * What one `execute` does, instruction by instruction, stated on the
 * machine value `ExecuteState` produces; what a `step` reports; and how a
 * bounded `runUntilEnd` behaves as the bound grows.
 */
module Semantics {
  import opened Results
  import opened Bits
  import opened Mips
  import Helpers

  /** The funct codes the R-type `switch` of `execute` has a case for. */
  const KnownFuncts: set<string> := {"100000", "100010", "100100", "100101", "101010", "001000", "000000", "000010"}

  /** The operations after which execution continues with the next instruction. */
  predicate IsSequential(op: Operation)
  {
    op in {ADD, SUB, AND, OR, SLT, SLL, SRL, ADDI, LW, SW, NoOperation}
  }

  /** The register an operation writes: `rd`, `rt`, `$ra` for `jal`, or none (-1). */
  function Destination(op: Operation, d: Decoded): int
  {
    if op in {ADD, SUB, AND, OR, SLT, SLL, SRL} then d.rd
    else if op in {ADDI, LW} then d.rt
    else if op == JAL then 31
    else -1
  }

  /** The memory word an operation writes: the one `sw` addresses, or none (-1). */
  function StoredWord(op: Operation, d: Decoded, reg: seq<int>): int
    requires |reg| == 32 && d.rs < 32
  {
    if op == SW then WordIndex(reg[d.rs] + d.imm) else -1
  }

  /** What `execute` may assume: 32 registers and 256 memory words of 32-bit values, and 5-bit fields. */
  predicate Executable(d: Decoded, reg: seq<int>, dm: seq<int>)
  {
    |reg| == 32 && |dm| == 256 && AllInt32(reg) && AllInt32(dm)
    && d.rs < 32 && d.rt < 32 && d.rd < 32 && d.shamt < 32
  }

  /** `execute` throws exactly for an R-type word whose funct has no case. */
  lemma ThrowsOnlyOnUnknownFunct(d: Decoded, reg: seq<int>, dm: seq<int>, currentPC: int)
    requires Executable(d, reg, dm)
    ensures var e := Exec(d, reg, dm, currentPC);
      && (e.Err? <==> d.opcode == "000000" && d.funct !in KnownFuncts)
      && (e.Err? ==> e.error == UnsupportedFunction(d.funct))
  {
  }

  /** A throw leaves registers, memory and `pc` as they were. */
  lemma ThrowChangesNothing(m: Machine, currentPC: int)
    requires WellFormed(m) && m.decoded.opcode == "000000" && m.decoded.funct !in KnownFuncts
    ensures ExecuteState(m, currentPC) == (Err(UnsupportedFunction(m.decoded.funct)), m)
  {
    ThrowsOnlyOnUnknownFunct(m.decoded, m.reg, m.dm, currentPC);
  }

  /** Every instruction other than a branch or jump, and a word whose opcode has no case, continues at `currentPC + 4`. */
  lemma SequentialNext(d: Decoded, reg: seq<int>, dm: seq<int>, currentPC: int)
    requires Executable(d, reg, dm) && IsSequential(OperationOf(d.opcode, d.funct))
    ensures var e := Exec(d, reg, dm, currentPC);
      e.Ok? && e.value.nextPC == currentPC + 4
  {
  }

  /** ... and `pc` becomes the address after `currentPC`, wrapping at 2^32. */
  lemma SequentialAdvances(m: Machine, currentPC: int)
    requires WellFormed(m) && IsSequential(OperationOf(m.decoded.opcode, m.decoded.funct)) && IsUint32(currentPC)
    ensures var r := ExecuteState(m, currentPC);
      && r.0 == Ok(currentPC + 4)
      && r.1.pc == if currentPC + 4 < TwoTo32 then currentPC + 4 else currentPC + 4 - TwoTo32
  {
    SequentialNext(m.decoded, m.reg, m.dm, currentPC);
  }

  /**
   * `beq` (`bne`) continues at `currentPC + 4 + 4 * imm` when the two
   * registers are equal (differ), and at `currentPC + 4` otherwise; no
   * register or memory word changes.
   */
  lemma BranchOutcome(d: Decoded, reg: seq<int>, dm: seq<int>, currentPC: int)
    requires Executable(d, reg, dm) && OperationOf(d.opcode, d.funct) in {BEQ, BNE}
    requires -0x8000 <= d.imm < 0x8000
    ensures var e := Exec(d, reg, dm, currentPC);
      var taken := (OperationOf(d.opcode, d.funct) == BEQ) == (reg[d.rs] == reg[d.rt]);
      e == Ok(Effect(reg, dm, if taken then currentPC + 4 + 4 * d.imm else currentPC + 4))
  {
  }

  /**
   * `j` and `jal` go to four times the target within the 256 MB region of
   * `currentPC + 4`; `jal` also stores `currentPC + 8` in `$ra`.
   */
  lemma JumpOutcome(d: Decoded, reg: seq<int>, dm: seq<int>, currentPC: int)
    requires Executable(d, reg, dm) && OperationOf(d.opcode, d.funct) in {J, JAL}
    requires d.target < 0x400_0000
    ensures var e := Exec(d, reg, dm, currentPC);
      && e.Ok?
      && ToUint32(e.value.nextPC) == ToUint32(currentPC + 4) / 0x1000_0000 * 0x1000_0000 + 4 * d.target
      && e.value.dm == dm
      && e.value.reg == if OperationOf(d.opcode, d.funct) == JAL then reg[31 := ToInt32(currentPC + 8)] else reg
  {
    JumpEffect(d, reg, dm, currentPC);
    JumpAddressRegion(currentPC, d.target);
  }

  /** `jr` continues at `reg[rs]`, and `pc` becomes `reg[rs] >>> 0`; nothing else changes. */
  lemma JumpRegisterOutcome(m: Machine, currentPC: int)
    requires WellFormed(m) && OperationOf(m.decoded.opcode, m.decoded.funct) == JR
    ensures ExecuteState(m, currentPC) == (Ok(m.reg[m.decoded.rs]), m.(pc := ToUint32(m.reg[m.decoded.rs])))
    ensures ExecuteState(m, currentPC).1.pc == if m.reg[m.decoded.rs] < 0 then m.reg[m.decoded.rs] + 0x1_0000_0000 else m.reg[m.decoded.rs]
  {
    var x := m.reg[m.decoded.rs];
    assert IsInt32(x);
    assert ToUint32(x) == if x < 0 then x + 0x1_0000_0000 else x;
  }

  /** An instruction changes at most its destination register and the memory word it stores to. */
  lemma WritesOnlyDestination(d: Decoded, reg: seq<int>, dm: seq<int>, currentPC: int)
    requires Executable(d, reg, dm)
    ensures var e := Exec(d, reg, dm, currentPC);
      var op := OperationOf(d.opcode, d.funct);
      e.Ok? ==>
        && |e.value.reg| == 32 && |e.value.dm| == 256
        && (forall i :: 0 <= i < 32 && i != Destination(op, d) ==> e.value.reg[i] == reg[i])
        && (forall k :: 0 <= k < 256 && k != StoredWord(op, d, reg) ==> e.value.dm[k] == dm[k])
  {
    var op := OperationOf(d.opcode, d.funct);
    var e := Exec(d, reg, dm, currentPC);
    if op in {ADD, SUB, AND, OR, SLT, SLL, SRL, ADDI, LW, JAL} {
      assert e.value.dm == dm && exists v :: e.value.reg == Store(reg, Destination(op, d), v);
    } else if op == SW {
      var k := WordIndex(reg[d.rs] + d.imm);
      assert e.value.reg == reg && e.value.dm == if 0 <= k < |dm| then Store(dm, k, reg[d.rt]) else dm;
    } else if e.Ok? {
      assert e.value.reg == reg && e.value.dm == dm;
    }
  }

  /**
   * `add`, `sub` and `addi` give the exact result when it fits in 32 bits
   * and otherwise wrap around by 2^32.
   */
  lemma ArithmeticOutcome(d: Decoded, reg: seq<int>, dm: seq<int>, currentPC: int)
    requires Executable(d, reg, dm) && OperationOf(d.opcode, d.funct) in {ADD, SUB, ADDI}
    requires -0x8000 <= d.imm < 0x8000
    ensures var e := Exec(d, reg, dm, currentPC);
      var op := OperationOf(d.opcode, d.funct);
      var exact := if op == ADD then reg[d.rs] + reg[d.rt] else if op == SUB then reg[d.rs] - reg[d.rt] else reg[d.rs] + d.imm;
      var written := e.value.reg[Destination(op, d)];
      && e.Ok? && IsInt32(written)
      && (IsInt32(exact) ==> written == exact)
      && (!IsInt32(exact) ==> written == exact + TwoTo32 || written == exact - TwoTo32)
  {
    var op := OperationOf(d.opcode, d.funct);
    var exact := if op == ADD then reg[d.rs] + reg[d.rt] else if op == SUB then reg[d.rs] - reg[d.rt] else reg[d.rs] + d.imm;
    assert Exec(d, reg, dm, currentPC) == Ok(Effect(Store(reg, Destination(op, d), exact), dm, currentPC + 4));
    WrapsOnce(exact);
  }

  /** A sum or difference of two 32-bit values wraps around by 2^32 at most once. */
  lemma WrapsOnce(x: int)
    requires -TwoTo31 - TwoTo32 <= x < TwoTo31 + TwoTo32
    ensures !IsInt32(x) ==> ToInt32(x) == x + TwoTo32 || ToInt32(x) == x - TwoTo32
  {
  }

  /** `slt` writes 1 when `reg[rs]` is less than `reg[rt]` as signed 32-bit values, and 0 otherwise. */
  lemma SetLessThanOutcome(d: Decoded, reg: seq<int>, dm: seq<int>, currentPC: int)
    requires Executable(d, reg, dm) && OperationOf(d.opcode, d.funct) == SLT
    ensures var written := Exec(d, reg, dm, currentPC).value.reg[d.rd];
      && (written == 0 || written == 1)
      && (written == 1 <==> reg[d.rs] < reg[d.rt])
      && IsInt32(reg[d.rs]) && IsInt32(reg[d.rt])
  {
  }

  /**
   * `srl` is a logical shift: the unsigned pattern divided by 2^shamt, so
   * never negative once at least one bit is shifted out; by 0 it keeps the value.
   */
  lemma ShiftRightOutcome(d: Decoded, reg: seq<int>, dm: seq<int>, currentPC: int)
    requires Executable(d, reg, dm) && OperationOf(d.opcode, d.funct) == SRL
    ensures var written := Exec(d, reg, dm, currentPC).value.reg[d.rd];
      && (d.shamt > 0 ==> 0 <= written && written == ToUint32(reg[d.rt]) / Pow2(d.shamt))
      && (d.shamt == 0 ==> written == reg[d.rt])
  {
    var u := ToUint32(reg[d.rt]);
    var q := u / Pow2(d.shamt);
    assert Exec(d, reg, dm, currentPC) == Ok(Effect(Store(reg, d.rd, q), dm, currentPC + 4));
    if d.shamt > 0 {
      ShiftedBelowSign(u, d.shamt);
      assert IsInt32(q);
    } else {
      assert q == u;
      ToInt32OfUint32(reg[d.rt]);
    }
  }

  /** Shifting a 32-bit pattern right by one bit or more leaves a value below 2^31. */
  lemma ShiftedBelowSign(u: nat, n: nat)
    requires u < TwoTo32 && 1 <= n
    ensures 0 <= u / Pow2(n) < TwoTo31
  {
    assert Pow2(n) == 2 * Pow2(n - 1);
    HalfDiv(u, Pow2(n - 1));
    DivAtMost(u / 2, Pow2(n - 1));
  }

  lemma DivAtMost(x: nat, p: nat)
    requires p >= 1
    ensures 0 <= x / p <= x
  {
    var q := x / p;
    assert x == p * q + x % p;
    if q > x {
      MulAtLeast(q, p);
    }
  }

  /** `sll` writes `reg[rt] * 2^shamt` wrapped to 32 bits. */
  lemma ShiftLeftOutcome(d: Decoded, reg: seq<int>, dm: seq<int>, currentPC: int)
    requires Executable(d, reg, dm) && OperationOf(d.opcode, d.funct) == SLL
    ensures var written := Exec(d, reg, dm, currentPC).value.reg[d.rd];
      IsInt32(written) && (written - reg[d.rt] * Pow2(d.shamt)) % TwoTo32 == 0
  {
  }

  /** `and` and `or` combine the two registers' 32-bit patterns bit by bit. */
  lemma LogicOutcome(d: Decoded, reg: seq<int>, dm: seq<int>, currentPC: int, j: nat)
    requires Executable(d, reg, dm) && OperationOf(d.opcode, d.funct) in {AND, OR} && j < 32
    ensures var written := Exec(d, reg, dm, currentPC).value.reg[d.rd];
      var (x, y) := (BitAt(ToUint32(reg[d.rs]), j), BitAt(ToUint32(reg[d.rt]), j));
      BitAt(ToUint32(written), j) ==
        if OperationOf(d.opcode, d.funct) == AND then (if x == 1 && y == 1 then 1 else 0)
        else (if x == 1 || y == 1 then 1 else 0)
  {
    var (a, b) := (ToUint32(reg[d.rs]), ToUint32(reg[d.rt]));
    Pow2Wide();
    if OperationOf(d.opcode, d.funct) == AND {
      AndBitsAt(a, b, 32, j);
      ToUint32OfInt32(AndBits(a, b, 32));
    } else {
      OrBitsAt(a, b, 32, j);
      ToUint32OfInt32(OrBits(a, b, 32));
    }
  }

  /**
   * `lw` loads the word `(reg[rs] + imm) >> 2` addresses, or 0 when that is
   * not a memory index; `sw` stores `reg[rt]` there, and a store outside
   * memory changes nothing.
   */
  lemma MemoryOutcome(d: Decoded, reg: seq<int>, dm: seq<int>, currentPC: int)
    requires Executable(d, reg, dm) && OperationOf(d.opcode, d.funct) in {LW, SW}
    ensures var e := Exec(d, reg, dm, currentPC);
      var k := WordIndex(reg[d.rs] + d.imm);
      && e.Ok?
      && if OperationOf(d.opcode, d.funct) == LW then
        && e.value.dm == dm
        && e.value.reg[d.rt] == (if 0 <= k < 256 then dm[k] else 0)
      else
        && e.value.reg == reg
        && e.value.dm == (if 0 <= k < 256 then dm[k := reg[d.rt]] else dm)
  {
  }

  // ---------------------------------------------------------------------
  // step and runUntilEnd
  // ---------------------------------------------------------------------

  /**
   * A report names exactly the registers and memory words whose values
   * changed, each with its value before and after, the instruction text at
   * `pc`, and the new `pc` as eight hexadecimal digits.
   */
  lemma StepReportIsExact(p: Program, m: Machine)
    requires WellFormed(m) && Loaded(p)
    ensures var (result, next) := StepState(p, m);
      result.Stepped? ==>
        && (forall i :: i in result.report.registers <==> 0 <= i < 32 && m.reg[i] != next.reg[i])
        && (forall i :: i in result.report.registers ==> result.report.registers[i] == Change(m.reg[i], next.reg[i]))
        && (forall k :: k in result.report.memory <==> 0 <= k < 256 && m.dm[k] != next.dm[k])
        && (forall k :: k in result.report.memory ==> result.report.memory[k] == Change(m.dm[k], next.dm[k]))
        && result.report.instruction == Slot(p.imAsm, m.pc)
        && result.report.pc == "0x" + Helpers.Int32Hex(next.pc)
  {
    var (result, next) := StepState(p, m);
    if result.Stepped? {
      ChangesExactly(m.reg, next.reg, 32);
      ChangesExactly(m.dm, next.dm, 256);
      Helpers.HexStringOfUint32(next.pc);
    }
  }

  /** A `step` that throws leaves registers, memory and `pc` as they were. */
  lemma StepThrowKeepsState(p: Program, m: Machine)
    requires WellFormed(m) && Loaded(p)
    ensures var (result, next) := StepState(p, m);
      result.Threw? ==> next.reg == m.reg && next.dm == m.dm && next.pc == m.pc
  {
  }

  /** Once a run over any step function has stopped, more fuel does not change how it stops or where. */
  lemma {:induction false} RunWithMoreFuel(step: Machine -> (StepResult, Machine), m: Machine, fuel: nat, more: nat)
    requires fuel <= more && !RunWith(step, m, fuel).0.Exhausted?
    ensures RunWith(step, m, more) == RunWith(step, m, fuel)
    decreases fuel
  {
    if step(m).0.Stepped? {
      RunWithMoreFuel(step, step(m).1, fuel - 1, more - 1);
    }
  }

  /** A run over any step function stops at a failed fetch only on a machine whose step halts. */
  lemma {:induction false} RunWithHaltsAtEnd(step: Machine -> (StepResult, Machine), m: Machine, fuel: nat)
    ensures var r := RunWith(step, m, fuel);
      r.0.FetchFailed? ==> step(r.1).0.Halted?
    decreases fuel
  {
    if fuel > 0 && step(m).0.Stepped? {
      RunWithHaltsAtEnd(step, step(m).1, fuel - 1);
    }
  }

  /** Once `runUntilEnd()` has stopped, more fuel does not change how it stops or where. */
  lemma RunMoreFuel(p: Program, m: Machine, fuel: nat, more: nat)
    requires WellFormed(m) && Loaded(p) && fuel <= more && !RunState(p, m, fuel).0.Exhausted?
    ensures RunState(p, m, more) == RunState(p, m, fuel)
  {
    RunWithMoreFuel(StepOf(p), m, fuel, more);
  }

  /** `runUntilEnd()` stops at a failed fetch only with `pc` past the program, where it returns that machine's state. */
  lemma RunFinishesPastProgram(p: Program, m: Machine, fuel: nat)
    requires WellFormed(m) && Loaded(p)
    ensures var r := RunState(p, m, fuel);
      r.0.FetchFailed? ==> r.1.pc >= p.imLen * 4 && Outcome(r.0, r.1) == Finished(Snapshot(r.1))
  {
    RunWithHaltsAtEnd(StepOf(p), m, fuel);
  }
}
