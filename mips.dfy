/**
 * The simulator: a `MIPS` object with 32 registers and 256 words of data
 * memory (JavaScript `Int32Array`s), the instruction memory `setIM` fills,
 * the program counter and the fields `parseMachineCode` decodes into.
 *
 * The first half states what one fetch / decode / execute cycle does as
 * functions on a `Machine` value; the second half is the class, whose
 * methods update its fields and arrays in place and are proved to follow
 * those functions.
 */
module Mips {
  import opened Results
  import opened Bits
  import Helpers

  // ---------------------------------------------------------------------
  // Decoding: parseMachineCode
  // ---------------------------------------------------------------------

  /** The decode fields of the simulator object. */
  datatype Decoded = Decoded(opcode: string, rs: nat, rt: nat, rd: nat, shamt: nat, funct: string, imm: int, target: nat)

  predicate IsJumpOpcode(opcode: string) { opcode == "000010" || opcode == "000011" }

  /**
   * `parseMachineCode` on a 32-bit word; `imm` and `target` are what those
   * fields held before. Every word sets the opcode, the four 5-bit fields and
   * the funct. An R-type word clears `imm`, a J-type word sets `target` only
   * and any other word sets `imm` only, from bits 16-31 read with their sign.
   */
  function Decode(word: string, imm: int, target: nat): (d: Decoded)
    requires IsBits(word, 32)
    ensures d.opcode == word[..6] && d.funct == word[26..]
    ensures d.rs < 32 && d.rt < 32 && d.rd < 32 && d.shamt < 32
    ensures d.opcode == "000000" ==> d.imm == 0 && d.target == target
    ensures IsJumpOpcode(d.opcode) ==> d.imm == imm && d.target < 0x400_0000
    ensures d.opcode != "000000" && !IsJumpOpcode(d.opcode) ==>
      d.target == target && -0x8000 <= d.imm < 0x8000 && d.imm == TwosComplement(word[16..])
  {
    Pow2Values();
    BinToNatBound(word[6..11]);
    BinToNatBound(word[11..16]);
    BinToNatBound(word[16..21]);
    BinToNatBound(word[21..26]);
    var opcode := word[..6];
    var fields := Decoded(opcode, BinToNat(word[6..11]), BinToNat(word[11..16]), BinToNat(word[16..21]),
                          BinToNat(word[21..26]), word[26..32], imm, target);
    if opcode == "000000" then
      fields.(imm := 0)
    else if IsJumpOpcode(opcode) then
      BinToNatBound(word[6..32]);
      fields.(target := BinToNat(word[6..32]))
    else
      var immBits := word[16..32];
      var value := BinToNat(immBits);
      TwosComplementRange(immBits);
      assert immBits == word[16..];
      fields.(imm := if immBits[0] == '1' then value - Pow2(16) else value)
  }

  // ---------------------------------------------------------------------
  // Executing: the cases of execute and the instruction helpers
  // ---------------------------------------------------------------------

  /** The `case` of `execute` an opcode and funct select; `NoOperation` when no opcode case matches. */
  datatype Operation =
    | ADD | SUB | AND | OR | SLT | JR | SLL | SRL | Unsupported
    | BEQ | BNE | ADDI | LW | SW | J | JAL | NoOperation

  /** The `switch` of `execute`; the later duplicate `000100`/`000101` cases can never be reached. */
  function OperationOf(opcode: string, funct: string): Operation
  {
    if opcode == "000000" then
      if funct == "100000" then ADD
      else if funct == "100010" then SUB
      else if funct == "100100" then AND
      else if funct == "100101" then OR
      else if funct == "101010" then SLT
      else if funct == "001000" then JR
      else if funct == "000000" then SLL
      else if funct == "000010" then SRL
      else Unsupported
    else if opcode == "000100" then BEQ
    else if opcode == "000101" then BNE
    else if opcode == "001000" then ADDI
    else if opcode == "100011" then LW
    else if opcode == "101011" then SW
    else if opcode == "000010" then J
    else if opcode == "000011" then JAL
    else NoOperation
  }

  datatype MachineError =
    | UndefinedInstruction          // `parseMachineCode` slicing an instruction slot that holds nothing
    | UnsupportedFunction(funct: string)

  /** Assigning `value` to element `i` of an `Int32Array`: the value is wrapped to 32 bits. */
  function Store(s: seq<int>, i: nat, value: int): (r: seq<int>)
    requires i < |s|
    ensures |r| == |s| && IsInt32(r[i])
    ensures AllInt32(s) ==> AllInt32(r)
  {
    s[i := ToInt32(value)]
  }

  /** Reading element `k` of an `Int32Array`: `undefined`, which a store turns into 0, when `k` is out of range. */
  function Load(s: seq<int>, k: int): int
  {
    if 0 <= k < |s| then s[k] else 0
  }

  /** `a & b` and `a | b`: the operands' 32-bit patterns combined bit by bit, read as a signed value. */
  function BitAnd(a: int, b: int): int
  {
    ToInt32(AndBits(ToUint32(a), ToUint32(b), 32))
  }

  function BitOr(a: int, b: int): int
  {
    ToInt32(OrBits(ToUint32(a), ToUint32(b), 32))
  }

  /** `x << n` and `x >>> n` for a shift amount below 32. */
  function ShiftLeft(x: int, n: nat): int
    requires n < 32
  {
    ToInt32(x * Pow2(n))
  }

  function ShiftRightLogical(x: int, n: nat): int
    requires n < 32
  {
    ToUint32(x) / Pow2(n)
  }

  /** `address >> 2`: the data-memory word a byte address falls in. */
  function WordIndex(address: int): int
  {
    ToInt32(address) / 4
  }

  /** `((currentPC + 4) & 0xf0000000) | (target << 2)`, a signed 32-bit value. */
  function JumpAddress(currentPC: int, target: int): int
  {
    ToInt32(OrBits(AndBits(ToUint32(currentPC + 4), 0xF000_0000, 32), ToUint32(target * 4), 32))
  }

  /**
   * A jump stays in the 256 MB region of the instruction after it: the top
   * four bits of `currentPC + 4` above four times the 26-bit target.
   */
  lemma JumpAddressRegion(currentPC: int, target: nat)
    requires target < 0x400_0000
    ensures ToUint32(JumpAddress(currentPC, target)) == ToUint32(currentPC + 4) / 0x1000_0000 * 0x1000_0000 + 4 * target
  {
    Pow2Wide();
    var next := ToUint32(currentPC + 4);
    var high := next / 0x1000_0000;
    assert high * 0x1000_0000 <= next && high < 16;
    var masked := AndBits(next, 0xF000_0000, 32);
    AndHighMask(next, 0xF000_0000, 32, 28);
    assert masked == high * 0x1000_0000;
    var low := ToUint32(target * 4);
    assert low == 4 * target;
    var joined := OrBits(masked, low, 32);
    OrDisjoint(high, 4 * target, 32, 28);
    assert joined == high * 0x1000_0000 + 4 * target;
    assert JumpAddress(currentPC, target) == ToInt32(joined);
    ToUint32OfInt32(joined);
  }

  /** What `execute` leaves behind: registers, memory and `nextPC` before `>>> 0`. */
  datatype Effect = Effect(reg: seq<int>, dm: seq<int>, nextPC: int)

  /** `execute(currentPC)` on the decoded fields `d`. Only an R-type word with an unknown funct throws. */
  function Exec(d: Decoded, reg: seq<int>, dm: seq<int>, currentPC: int): Result<Effect, MachineError>
    requires |reg| == 32 && d.rs < 32 && d.rt < 32 && d.rd < 32 && d.shamt < 32
  {
    var next := currentPC + 4;
    match OperationOf(d.opcode, d.funct)
    case ADD => Ok(Effect(Store(reg, d.rd, reg[d.rs] + reg[d.rt]), dm, next))
    case SUB => Ok(Effect(Store(reg, d.rd, reg[d.rs] - reg[d.rt]), dm, next))
    case AND => Ok(Effect(Store(reg, d.rd, BitAnd(reg[d.rs], reg[d.rt])), dm, next))
    case OR => Ok(Effect(Store(reg, d.rd, BitOr(reg[d.rs], reg[d.rt])), dm, next))
    case SLT => Ok(Effect(Store(reg, d.rd, if reg[d.rs] < reg[d.rt] then 1 else 0), dm, next))
    case JR => Ok(Effect(reg, dm, reg[d.rs]))
    case SLL => Ok(Effect(Store(reg, d.rd, ShiftLeft(reg[d.rt], d.shamt)), dm, next))
    case SRL => Ok(Effect(Store(reg, d.rd, ShiftRightLogical(reg[d.rt], d.shamt)), dm, next))
    case Unsupported => Err(UnsupportedFunction(d.funct))
    case BEQ => Ok(Effect(reg, dm, if reg[d.rs] == reg[d.rt] then currentPC + 4 + ToInt32(d.imm * 4) else next))
    case BNE => Ok(Effect(reg, dm, if reg[d.rs] != reg[d.rt] then currentPC + 4 + ToInt32(d.imm * 4) else next))
    case ADDI => Ok(Effect(Store(reg, d.rt, reg[d.rs] + d.imm), dm, next))
    case LW => Ok(Effect(Store(reg, d.rt, Load(dm, WordIndex(reg[d.rs] + d.imm))), dm, next))
    case SW =>
      var k := WordIndex(reg[d.rs] + d.imm);
      Ok(Effect(reg, if 0 <= k < |dm| then Store(dm, k, reg[d.rt]) else dm, next))
    case J => Ok(Effect(reg, dm, JumpAddress(currentPC, d.target)))
    case JAL => Ok(Effect(Store(reg, 31, currentPC + 8), dm, JumpAddress(currentPC, d.target)))
    case NoOperation => Ok(Effect(reg, dm, next))
  }

  /** The effect of `j` and `jal` before the region arithmetic: `JumpAddress`, and `$ra` for `jal`. */
  lemma JumpEffect(d: Decoded, reg: seq<int>, dm: seq<int>, currentPC: int)
    requires |reg| == 32 && d.rs < 32 && d.rt < 32 && d.rd < 32 && d.shamt < 32 && OperationOf(d.opcode, d.funct) in {J, JAL}
    ensures Exec(d, reg, dm, currentPC) ==
      Ok(Effect(if OperationOf(d.opcode, d.funct) == JAL then Store(reg, 31, currentPC + 8) else reg, dm, JumpAddress(currentPC, d.target)))
  {
    if OperationOf(d.opcode, d.funct) == J {
      assert Exec(d, reg, dm, currentPC) == Ok(Effect(reg, dm, JumpAddress(currentPC, d.target)));
    } else {
      assert Exec(d, reg, dm, currentPC) == Ok(Effect(Store(reg, 31, currentPC + 8), dm, JumpAddress(currentPC, d.target)));
    }
  }

  /** The effect of `sw`: at most the addressed memory word changes, to the wrapped value of `rt`. */
  lemma StoreEffect(d: Decoded, reg: seq<int>, dm: seq<int>, currentPC: int)
    requires |reg| == 32 && d.rs < 32 && d.rt < 32 && d.rd < 32 && d.shamt < 32 && OperationOf(d.opcode, d.funct) == SW
    ensures var k := WordIndex(reg[d.rs] + d.imm);
      Exec(d, reg, dm, currentPC) == Ok(Effect(reg, if 0 <= k < |dm| then Store(dm, k, reg[d.rt]) else dm, currentPC + 4))
  {
  }

  // ---------------------------------------------------------------------
  // The machine and one cycle
  // ---------------------------------------------------------------------

  /** The simulator's state apart from its instruction memory. */
  datatype Machine = Machine(
    reg: seq<int>, dm: seq<int>, pc: int, hi: int, lo: int,
    instr: Option<string>, instrAsm: Option<string>, decoded: Decoded)

  /** The instruction memory: `IM`, `IM_asm` (with `None` for an empty slot) and `IM_len`. */
  datatype Program = Program(im: seq<Option<string>>, imAsm: seq<Option<string>>, imLen: nat)

  predicate AllInt32(s: seq<int>) { forall i :: 0 <= i < |s| ==> IsInt32(s[i]) }

  /** 32 and 256 words of 32-bit values, an unsigned program counter and decoded 5-bit fields. */
  predicate WellFormed(m: Machine)
  {
    && |m.reg| == 32 && |m.dm| == 256 && AllInt32(m.reg) && AllInt32(m.dm)
    && IsUint32(m.pc) && IsInt32(m.hi) && IsInt32(m.lo)
    && (m.instr.Some? ==> IsBits(m.instr.value, 32))
    && m.decoded.rs < 32 && m.decoded.rt < 32 && m.decoded.rd < 32 && m.decoded.shamt < 32
  }

  /** The first `imLen` slots hold 32-bit machine words. */
  predicate Loaded(p: Program)
  {
    p.imLen <= |p.im| && forall i :: 0 <= i < p.imLen ==> p.im[i].Some? && IsBits(p.im[i].value, 32)
  }

  /** `array[pc / 4]`: `undefined` when `pc / 4` is not an index of the array. */
  function Slot(s: seq<Option<string>>, pc: int): Option<string>
  {
    if 0 <= pc && pc % 4 == 0 && pc / 4 < |s| then s[pc / 4] else None
  }

  /** `fetch()`: false once `pc` is past the program, otherwise the slot at `pc` is loaded. */
  function FetchState(p: Program, m: Machine): (bool, Machine)
  {
    if m.pc >= p.imLen * 4 then (false, m)
    else (true, m.(instr := Slot(p.im, m.pc), instrAsm := Slot(p.imAsm, m.pc)))
  }

  /** `parseMachineCode()`: slicing an empty slot throws before any field is written. */
  function ParseState(m: Machine): (r: Result<Machine, MachineError>)
    requires WellFormed(m)
    ensures r.Ok? ==> WellFormed(r.value)
  {
    if m.instr.None? then Err(UndefinedInstruction)
    else Ok(m.(decoded := Decode(m.instr.value, m.decoded.imm, m.decoded.target)))
  }

  /** `execute(currentPC)`: on success the new registers and memory, and `pc := nextPC >>> 0`; a throw changes nothing. */
  function ExecuteState(m: Machine, currentPC: int): (r: (Result<int, MachineError>, Machine))
    requires WellFormed(m)
    ensures WellFormed(r.1)
    ensures r.0.Err? ==> r.1 == m
  {
    var e := Exec(m.decoded, m.reg, m.dm, currentPC);
    ExecKeepsInt32(m.decoded, m.reg, m.dm, currentPC);
    if e.Err? then (Err(e.error), m)
    else (Ok(e.value.nextPC), m.(reg := e.value.reg, dm := e.value.dm, pc := ToUint32(e.value.nextPC)))
  }

  /** The stores of `execute` keep every register and memory word a 32-bit value, and never resize them. */
  lemma ExecKeepsInt32(d: Decoded, reg: seq<int>, dm: seq<int>, currentPC: int)
    requires |reg| == 32 && d.rs < 32 && d.rt < 32 && d.rd < 32 && d.shamt < 32
    requires AllInt32(reg) && AllInt32(dm)
    ensures var e := Exec(d, reg, dm, currentPC);
      e.Ok? ==> |e.value.reg| == 32 && |e.value.dm| == |dm| && AllInt32(e.value.reg) && AllInt32(e.value.dm)
  {
    match OperationOf(d.opcode, d.funct)
    case ADD =>
    case SUB =>
    case AND =>
    case OR =>
    case SLT =>
    case JR =>
    case SLL =>
    case SRL =>
    case Unsupported =>
    case BEQ =>
    case BNE =>
    case ADDI =>
    case LW =>
    case SW =>
    case J =>
    case JAL =>
    case NoOperation =>
  }

  /** One `(old, new)` entry of the change report `step` returns. */
  datatype Change = Change(before: int, after: int)

  /**
   * The loop of `step` that compares `a` with `b` over the indices below
   * `n`: index `i` is recorded with both values when they differ.
   */
  function ChangesUpTo(a: seq<int>, b: seq<int>, n: nat): map<int, Change>
    requires n <= |a| && n <= |b|
  {
    if n == 0 then map[]
    else
      var changes := ChangesUpTo(a, b, n - 1);
      if a[n - 1] != b[n - 1] then changes[n - 1 := Change(a[n - 1], b[n - 1])] else changes
  }

  function Changes(a: seq<int>, b: seq<int>): map<int, Change>
    requires |a| == |b|
  {
    ChangesUpTo(a, b, |a|)
  }

  /** The report names exactly the indices whose values differ, with the old and the new value. */
  lemma {:induction false} ChangesExactly(a: seq<int>, b: seq<int>, n: nat)
    requires n <= |a| && n <= |b|
    ensures forall i :: i in ChangesUpTo(a, b, n) <==> 0 <= i < n && a[i] != b[i]
    ensures forall i :: i in ChangesUpTo(a, b, n) ==> ChangesUpTo(a, b, n)[i] == Change(a[i], b[i])
  {
    if n > 0 { ChangesExactly(a, b, n - 1); }
  }

  /** What `step()` returns: the instruction text, the changed registers and memory words, and `pcToHex()`. */
  datatype StepReport = StepReport(instruction: Option<string>, registers: map<int, Change>, memory: map<int, Change>, pc: string)

  /** `step()` returns `null` (`Halted`), returns a report, or throws. */
  datatype StepResult = Halted | Stepped(report: StepReport) | Threw(error: MachineError)

  /** The text `pcToHex()` gives a program counter. */
  function PcHex(pc: int): string
  {
    "0x" + Helpers.HexString(pc, 8)
  }

  /** `step()` on machine `m` running program `p`: the result and the machine afterwards. */
  function StepState(p: Program, m: Machine): (r: (StepResult, Machine))
    requires WellFormed(m) && Loaded(p)
    ensures WellFormed(r.1)
    ensures r.0.Halted? <==> m.pc >= p.imLen * 4
    ensures r.0.Halted? ==> r.1 == m
  {
    var (fetched, m1) := FetchState(p, m);
    if !fetched then (Halted, m)
    else
      var parsed := ParseState(m1);
      if parsed.Err? then (Threw(parsed.error), m1)
      else
        var (executed, m3) := ExecuteState(parsed.value, m.pc);
        if executed.Err? then (Threw(executed.error), m3)
        else (Stepped(StepReport(m1.instrAsm, Changes(m.reg, m3.reg), Changes(m.dm, m3.dm), PcHex(m3.pc))), m3)
  }

  // ---------------------------------------------------------------------
  // Running to the end: runUntilEnd and getState
  // ---------------------------------------------------------------------

  /**
   * The record `getState()` returns, in the corrected form: registers, memory,
   * `hi` and `lo` as "0x" and the eight hexadecimal digits of their 32-bit
   * patterns (`Helpers.Int32Hex`), and `pc` as `pcToHex` gives it.
   */
  datatype MachineState = MachineState(registers: seq<string>, memory: seq<string>, pc: string, hi: string, lo: string)

  /** A register or memory word as displayed: its 32-bit two's-complement pattern in hexadecimal. */
  function WordText(v: int): string
  {
    "0x" + Helpers.Int32Hex(v)
  }

  /** `getState()` of machine `m`, with the corrected rendering of `WordText`. */
  function Snapshot(m: Machine): (s: MachineState)
    requires |m.reg| == 32 && |m.dm| == 256
  {
    MachineState(seq(32, i requires 0 <= i < 32 => WordText(m.reg[i])),
                 seq(256, i requires 0 <= i < 256 => WordText(m.dm[i])),
                 PcHex(m.pc), WordText(m.hi), WordText(m.lo))
  }

  /** How `runUntilEnd()` ends: with the final state, with a throw, or, in this model only, when `fuel` steps are used up. */
  datatype RunResult = Finished(state: MachineState) | Failed(error: MachineError) | OutOfFuel

  /** Why a bounded run stopped: a fetch failed, a cycle threw, or the fuel ran out. */
  datatype RunEnd = FetchFailed | Throws(error: MachineError) | Exhausted

  /** What `runUntilEnd()` returns when the run stopped for `end` on machine `final`. */
  function Outcome(end: RunEnd, final: Machine): RunResult
    requires |final.reg| == 32 && |final.dm| == 256
  {
    match end
    case FetchFailed => Finished(Snapshot(final))
    case Throws(e) => Failed(e)
    case Exhausted => OutOfFuel
  }

  /**
   * The loop of `runUntilEnd()` over any step function: at most `fuel`
   * cycles, stopping at the first that halts or throws. Halting keeps the
   * machine it was tried on; a throw keeps what the failed cycle left.
   */
  function RunWith(step: Machine -> (StepResult, Machine), m: Machine, fuel: nat): (RunEnd, Machine)
    decreases fuel
  {
    if fuel == 0 then (Exhausted, m)
    else
      var next := step(m);
      match next.0
      case Halted => (FetchFailed, m)
      case Threw(e) => (Throws(e), next.1)
      case Stepped(_) => RunWith(step, next.1, fuel - 1)
  }

  /** `step()` of program `p` as a function on every machine; it halts on one that is not well formed. */
  function StepOf(p: Program): Machine -> (StepResult, Machine)
  {
    x => if WellFormed(x) && Loaded(p) then StepState(p, x) else (Halted, x)
  }

  /** A property that every step keeps holds of wherever a run stops. */
  lemma {:induction false} RunWithKeeps(step: Machine -> (StepResult, Machine), inv: Machine -> bool, m: Machine, fuel: nat)
    requires inv(m) && forall x :: inv(x) ==> inv(step(x).1)
    ensures inv(RunWith(step, m, fuel).1)
    decreases fuel
  {
    if fuel > 0 && step(m).0.Stepped? {
      RunWithKeeps(step, inv, step(m).1, fuel - 1);
    }
  }

  /** Every `step` of `p` keeps a machine well formed. */
  lemma StepOfKeepsWellFormed(p: Program)
    ensures forall x :: WellFormed(x) ==> WellFormed(StepOf(p)(x).1)
  {
  }

  /** `runUntilEnd()` of program `p` from machine `m` given at most `fuel` cycles. */
  function RunState(p: Program, m: Machine, fuel: nat): (r: (RunEnd, Machine))
    requires WellFormed(m) && Loaded(p)
    ensures WellFormed(r.1)
  {
    StepOfKeepsWellFormed(p);
    RunWithKeeps(StepOf(p), x => WellFormed(x), m, fuel);
    RunWith(StepOf(p), m, fuel)
  }

  /** A run whose first step goes through continues from the stepped machine with one cycle less. */
  lemma RunWithStepped(step: Machine -> (StepResult, Machine), m: Machine, fuel: nat, rest: nat)
    requires fuel == rest + 1 && step(m).0.Stepped?
    ensures RunWith(step, m, fuel) == RunWith(step, step(m).1, rest)
  {
  }

  /** A run whose first step halts or throws ends there, whatever fuel is left. */
  lemma RunWithEnded(step: Machine -> (StepResult, Machine), m: Machine, fuel: nat)
    requires fuel > 0 && !step(m).0.Stepped?
    ensures RunWith(step, m, fuel) == RunWith(step, m, 1)
  {
  }

  // ---------------------------------------------------------------------
  // The simulator object
  // ---------------------------------------------------------------------

  /** An `IM`/`IM_asm` slot assignment `a[i] = x` at an index no greater than the length. */
  function Put(s: seq<Option<string>>, i: nat, x: string): seq<Option<string>>
    requires i <= |s|
  {
    if i < |s| then s[i := Some(x)] else s + [Some(x)]
  }

  /** `s` after `s[i] = xs[i]` for every index of `xs`, in order. */
  function Overwritten(s: seq<Option<string>>, xs: seq<string>): (r: seq<Option<string>>)
    ensures |r| == if |xs| <= |s| then |s| else |xs|
    ensures forall i :: 0 <= i < |r| ==> r[i] == if i < |xs| then Some(xs[i]) else s[i]
  {
    seq(if |xs| <= |s| then |s| else |xs|, i requires 0 <= i < (if |xs| <= |s| then |s| else |xs|) =>
      if i < |xs| then Some(xs[i]) else s[i])
  }

  lemma PutOverwritten(s: seq<Option<string>>, xs: seq<string>, x: string)
    requires |xs| <= |Overwritten(s, xs)|
    ensures Put(Overwritten(s, xs), |xs|, x) == Overwritten(s, xs + [x])
  {
    var a, b := Put(Overwritten(s, xs), |xs|, x), Overwritten(s, xs + [x]);
    assert |a| == |b|;
    forall i | 0 <= i < |a| ensures a[i] == b[i] {
    }
  }

  /** The `for` loops of `step`: the indices where `after` differs from the snapshot `before`. */
  method ChangedCells(before: seq<int>, after: array<int>) returns (changes: map<int, Change>)
    requires |before| == after.Length
    ensures changes == Changes(before, after[..])
  {
    changes := map[];
    for i := 0 to after.Length
      invariant changes == ChangesUpTo(before, after[..], i)
    {
      if after[i] != before[i] {
        changes := changes[i := Change(before[i], after[i])];
      }
    }
  }

  class MIPS {
    var reg: array<int>
    var im: seq<Option<string>>
    var imAsm: seq<Option<string>>
    var imLen: nat
    var dm: array<int>
    var pc: int
    var hi: int
    var lo: int
    var instr: Option<string>
    var instrAsm: Option<string>
    var decoded: Decoded
    var labels: map<string, int>

    /** Everything but the instruction memory and the label table. */
    ghost function State(): Machine
      reads this, reg, dm
    {
      Machine(reg[..], dm[..], pc, hi, lo, instr, instrAsm, decoded)
    }

    ghost function Prog(): Program
      reads `im, `imAsm, `imLen
    {
      Program(im, imAsm, imLen)
    }

    ghost predicate Valid()
      reads this, reg, dm
    {
      reg.Length == 32 && dm.Length == 256 && WellFormed(State()) && Loaded(Prog())
    }

    /** Zeroed registers and memory, 256 empty instruction slots, `pc` 0; a `null` opcode or funct is the empty string. */
    constructor()
      ensures Valid() && fresh(reg) && fresh(dm)
      ensures State() == Machine(seq(32, _ => 0), seq(256, _ => 0), 0, 0, 0, None, None, Decoded("", 0, 0, 0, 0, "", 0, 0))
      ensures Prog() == Program(seq(256, _ => None), seq(256, _ => None), 0) && labels == map[]
    {
      reg := new int[32](_ => 0);
      im := seq(256, _ => None);
      imAsm := seq(256, _ => None);
      imLen := 0;
      dm := new int[256](_ => 0);
      pc := 0;
      hi := 0;
      lo := 0;
      instr := None;
      instrAsm := None;
      decoded := Decoded("", 0, 0, 0, 0, "", 0, 0);
      labels := map[];
    }

    /**
     * `setIM`: the program length, the label table (computed by the caller)
     * and the two copy loops. Registers, memory and `pc` are left as they are.
     */
    method SetIM(assemblyCode: seq<string>, binMachineCode: seq<string>, collectedLabels: map<string, int>)
      requires Valid()
      requires forall i :: 0 <= i < |binMachineCode| ==> IsBits(binMachineCode[i], 32)
      modifies `imLen, `labels, `imAsm, `im
      ensures Valid()
      ensures imLen == |binMachineCode| && labels == collectedLabels
      ensures imAsm == Overwritten(old(imAsm), assemblyCode) && im == Overwritten(old(im), binMachineCode)
    {
      imLen := |binMachineCode|;
      labels := collectedLabels;
      OverwriteAsm(assemblyCode);
      OverwriteWords(binMachineCode);
    }

    /** The first loop of `setIM`: `IM_asm[i] = assemblyCode[i]` for every line, in order. */
    method OverwriteAsm(assemblyCode: seq<string>)
      modifies `imAsm
      ensures imAsm == Overwritten(old(imAsm), assemblyCode)
    {
      assert Overwritten(imAsm, []) == imAsm;
      for i := 0 to |assemblyCode|
        invariant imAsm == Overwritten(old(imAsm), assemblyCode[..i])
      {
        PutOverwritten(old(imAsm), assemblyCode[..i], assemblyCode[i]);
        assert assemblyCode[..i + 1] == assemblyCode[..i] + [assemblyCode[i]];
        imAsm := Put(imAsm, i, assemblyCode[i]);
      }
      assert assemblyCode[..|assemblyCode|] == assemblyCode;
    }

    /** The second loop of `setIM`: `IM[i] = binMachineCode[i]` for every word, in order. */
    method OverwriteWords(binMachineCode: seq<string>)
      modifies `im
      ensures im == Overwritten(old(im), binMachineCode)
    {
      assert Overwritten(im, []) == im;
      for i := 0 to |binMachineCode|
        invariant im == Overwritten(old(im), binMachineCode[..i])
      {
        PutOverwritten(old(im), binMachineCode[..i], binMachineCode[i]);
        assert binMachineCode[..i + 1] == binMachineCode[..i] + [binMachineCode[i]];
        im := Put(im, i, binMachineCode[i]);
      }
      assert binMachineCode[..|binMachineCode|] == binMachineCode;
    }

    /** `fetch()`: false when `pc` is past the program; otherwise loads the slots at `pc / 4`. */
    method Fetch() returns (fetched: bool)
      requires Valid()
      modifies `instr, `instrAsm
      ensures Valid()
      ensures (fetched, State()) == FetchState(Prog(), old(State()))
    {
      if pc >= imLen * 4 {
        return false;
      }
      instr := Slot(im, pc);
      instrAsm := Slot(imAsm, pc);
      return true;
    }

    /** `parseMachineCode()`: the fields of the fetched word; an empty slot throws. */
    method ParseMachineCode() returns (r: Result<(), MachineError>)
      requires Valid()
      modifies `decoded
      ensures Valid()
      ensures var parsed := ParseState(old(State()));
        && (parsed.Err? ==> r == Err(parsed.error) && State() == old(State()))
        && (parsed.Ok? ==> r == Ok(()) && State() == parsed.value)
    {
      if instr.None? {
        return Err(UndefinedInstruction);
      }
      var word := instr.value;
      decoded := Decode(word, decoded.imm, decoded.target);
      return Ok(());
    }

    /** `add()`, `sub()`, `and()`, `or()`, `slt()`, `sll()` and `srl()` write `reg[rd]` only. */
    method Add()
      requires Valid()
      modifies reg
      ensures Valid()
      ensures reg[..] == Store(old(reg[..]), decoded.rd, old(reg[decoded.rs]) + old(reg[decoded.rt]))
    {
      reg[decoded.rd] := ToInt32(reg[decoded.rs] + reg[decoded.rt]);
    }

    method Sub()
      requires Valid()
      modifies reg
      ensures Valid()
      ensures reg[..] == Store(old(reg[..]), decoded.rd, old(reg[decoded.rs]) - old(reg[decoded.rt]))
    {
      reg[decoded.rd] := ToInt32(reg[decoded.rs] - reg[decoded.rt]);
    }

    method And()
      requires Valid()
      modifies reg
      ensures Valid()
      ensures reg[..] == Store(old(reg[..]), decoded.rd, BitAnd(old(reg[decoded.rs]), old(reg[decoded.rt])))
    {
      reg[decoded.rd] := ToInt32(BitAnd(reg[decoded.rs], reg[decoded.rt]));
    }

    method Or()
      requires Valid()
      modifies reg
      ensures Valid()
      ensures reg[..] == Store(old(reg[..]), decoded.rd, BitOr(old(reg[decoded.rs]), old(reg[decoded.rt])))
    {
      reg[decoded.rd] := ToInt32(BitOr(reg[decoded.rs], reg[decoded.rt]));
    }

    method Slt()
      requires Valid()
      modifies reg
      ensures Valid()
      ensures reg[..] == Store(old(reg[..]), decoded.rd, if old(reg[decoded.rs]) < old(reg[decoded.rt]) then 1 else 0)
    {
      reg[decoded.rd] := if reg[decoded.rs] < reg[decoded.rt] then 1 else 0;
    }

    method Sll()
      requires Valid()
      modifies reg
      ensures Valid()
      ensures reg[..] == Store(old(reg[..]), decoded.rd, ShiftLeft(old(reg[decoded.rt]), decoded.shamt))
    {
      reg[decoded.rd] := ToInt32(ShiftLeft(reg[decoded.rt], decoded.shamt));
    }

    method Srl()
      requires Valid()
      modifies reg
      ensures Valid()
      ensures reg[..] == Store(old(reg[..]), decoded.rd, ShiftRightLogical(old(reg[decoded.rt]), decoded.shamt))
    {
      reg[decoded.rd] := ToInt32(ShiftRightLogical(reg[decoded.rt], decoded.shamt));
    }

    /** `addi()` writes `reg[rt]` only. */
    method Addi()
      requires Valid()
      modifies reg
      ensures Valid()
      ensures reg[..] == Store(old(reg[..]), decoded.rt, old(reg[decoded.rs]) + decoded.imm)
    {
      reg[decoded.rt] := ToInt32(reg[decoded.rs] + decoded.imm);
    }

    /** `lw()`: `reg[rt]` gets the memory word at `(reg[rs] + imm) >> 2`, or 0 when there is none. */
    method Lw()
      requires Valid()
      modifies reg
      ensures Valid()
      ensures reg[..] == Store(old(reg[..]), decoded.rt, Load(dm[..], WordIndex(old(reg[decoded.rs]) + decoded.imm)))
    {
      var k := WordIndex(reg[decoded.rs] + decoded.imm);
      var loaded := if 0 <= k < dm.Length then dm[k] else 0;
      reg[decoded.rt] := ToInt32(loaded);
    }

    /** `sw()`: the memory word at `(reg[rs] + imm) >> 2` gets `reg[rt]`; a store out of range is dropped. */
    method Sw()
      requires Valid()
      modifies dm
      ensures Valid()
      ensures var k := WordIndex(reg[decoded.rs] + decoded.imm);
        dm[..] == if 0 <= k < 256 then Store(old(dm[..]), k, reg[decoded.rt]) else old(dm[..])
    {
      var k := WordIndex(reg[decoded.rs] + decoded.imm);
      if 0 <= k < dm.Length {
        dm[k] := ToInt32(reg[decoded.rt]);
      }
    }

    /** The R-type `switch (this.funct)` of `execute`: the helper to run, or the `nextPC` of `jr`, or a throw. */
    method ExecuteFunct(currentPC: int) returns (r: Result<int, MachineError>)
      requires Valid() && decoded.opcode == "000000"
      modifies reg
      ensures Valid()
      ensures var e := Exec(decoded, old(reg[..]), dm[..], currentPC);
        && (e.Err? ==> r == Err(e.error) && reg[..] == old(reg[..]))
        && (e.Ok? ==> r == Ok(e.value.nextPC) && reg[..] == e.value.reg && dm[..] == e.value.dm)
    {
      r := Ok(currentPC + 4);
      match OperationOf(decoded.opcode, decoded.funct) {
        case ADD => Add();
        case SUB => Sub();
        case AND => And();
        case OR => Or();
        case SLT => Slt();
        case JR => r := Ok(reg[decoded.rs]);
        case SLL => Sll();
        case SRL => Srl();
        case Unsupported => r := Err(UnsupportedFunction(decoded.funct));
      }
    }

    /** The `beq` and `bne` cases: `nextPC` only. */
    method ExecuteBranch(currentPC: int) returns (nextPC: int)
      requires Valid() && OperationOf(decoded.opcode, decoded.funct) in {BEQ, BNE}
      ensures Exec(decoded, reg[..], dm[..], currentPC) == Ok(Effect(reg[..], dm[..], nextPC))
    {
      nextPC := currentPC + 4;
      if OperationOf(decoded.opcode, decoded.funct) == BEQ {
        if reg[decoded.rs] == reg[decoded.rt] {
          nextPC := currentPC + 4 + ToInt32(decoded.imm * 4);
        }
      } else {
        if reg[decoded.rs] != reg[decoded.rt] {
          nextPC := currentPC + 4 + ToInt32(decoded.imm * 4);
        }
      }
    }

    /** The `addi` and `lw` cases: `reg[rt]` only. */
    method ExecuteRegisterWrite(currentPC: int)
      requires Valid() && OperationOf(decoded.opcode, decoded.funct) in {ADDI, LW}
      modifies reg
      ensures Valid()
      ensures Exec(decoded, old(reg[..]), dm[..], currentPC) == Ok(Effect(reg[..], dm[..], currentPC + 4))
    {
      if OperationOf(decoded.opcode, decoded.funct) == ADDI {
        Addi();
      } else {
        Lw();
      }
    }

    /** The `sw` case: one memory word at most. */
    method ExecuteStore(currentPC: int)
      requires Valid() && OperationOf(decoded.opcode, decoded.funct) == SW
      modifies dm
      ensures Valid()
      ensures Exec(decoded, reg[..], old(dm[..]), currentPC) == Ok(Effect(reg[..], dm[..], currentPC + 4))
    {
      StoreEffect(decoded, reg[..], dm[..], currentPC);
      Sw();
    }

    /** The `j` and `jal` cases. */
    method ExecuteJump(currentPC: int) returns (nextPC: int)
      requires Valid() && OperationOf(decoded.opcode, decoded.funct) in {J, JAL}
      modifies reg
      ensures Valid()
      ensures Exec(decoded, old(reg[..]), dm[..], currentPC) == Ok(Effect(reg[..], dm[..], nextPC))
    {
      JumpEffect(decoded, reg[..], dm[..], currentPC);
      if OperationOf(decoded.opcode, decoded.funct) == JAL {
        reg[31] := ToInt32(currentPC + 8);
      }
      nextPC := JumpAddress(currentPC, decoded.target);
    }

    /** The other cases of `execute`'s `switch (this.opcode)`: branches, immediates, memory and jumps. */
    method ExecuteOpcode(currentPC: int) returns (nextPC: int)
      requires Valid() && decoded.opcode != "000000"
      modifies reg, dm
      ensures Valid()
      ensures Exec(decoded, old(reg[..]), old(dm[..]), currentPC) == Ok(Effect(reg[..], dm[..], nextPC))
    {
      match OperationOf(decoded.opcode, decoded.funct) {
        case BEQ => nextPC := ExecuteBranch(currentPC);
        case BNE => nextPC := ExecuteBranch(currentPC);
        case ADDI => ExecuteRegisterWrite(currentPC); nextPC := currentPC + 4;
        case LW => ExecuteRegisterWrite(currentPC); nextPC := currentPC + 4;
        case SW => ExecuteStore(currentPC); nextPC := currentPC + 4;
        case J => nextPC := ExecuteJump(currentPC);
        case JAL => nextPC := ExecuteJump(currentPC);
        case NoOperation => nextPC := currentPC + 4;
      }
    }

    /** `execute(currentPC)`: the selected case, then `pc := nextPC >>> 0`; returns `nextPC`. */
    method Execute(currentPC: int) returns (r: Result<int, MachineError>)
      requires Valid()
      modifies reg, dm, `pc
      ensures Valid()
      ensures (r, State()) == ExecuteState(old(State()), currentPC)
    {
      ExecKeepsInt32(decoded, reg[..], dm[..], currentPC);
      var nextPC;
      if decoded.opcode == "000000" {
        r := ExecuteFunct(currentPC);
        if r.Err? {
          return;
        }
        nextPC := r.value;
      } else {
        nextPC := ExecuteOpcode(currentPC);
      }
      pc := ToUint32(nextPC);
      return Ok(nextPC);
    }

    /** `pcToHex()`. */
    method PcToHex() returns (text: string)
      ensures text == PcHex(pc)
    {
      var digits := Helpers.ToHexString(pc, 8);
      text := "0x" + digits;
    }

    /** `getState()`. */
    method GetState() returns (state: MachineState)
      requires Valid()
      ensures state == Snapshot(State())
    {
      var regValues, dmValues := reg[..], dm[..];
      var registers := seq(32, i requires 0 <= i < 32 => WordText(regValues[i]));
      var memory := seq(256, i requires 0 <= i < 256 => WordText(dmValues[i]));
      var pcText := PcToHex();
      state := MachineState(registers, memory, pcText, WordText(hi), WordText(lo));
    }

    /**
     * `step()`: fetch, snapshot the registers and memory, decode and execute,
     * then report the changed registers and memory words and the new `pc`.
     */
    method Step() returns (result: StepResult)
      requires Valid()
      modifies reg, dm, `pc, `instr, `instrAsm, `decoded
      ensures Valid()
      ensures (result, State()) == StepState(Prog(), old(State()))
    {
      var fetched := Fetch();
      if !fetched {
        return Halted;
      }
      var oldRegisters := reg[..];
      var oldMemory := dm[..];
      var currentInstruction := instrAsm;
      var currentPC := pc;
      var parsed := ParseMachineCode();
      if parsed.Err? {
        return Threw(parsed.error);
      }
      var executed := Execute(currentPC);
      if executed.Err? {
        return Threw(executed.error);
      }
      var registers := ChangedCells(oldRegisters, reg);
      var memory := ChangedCells(oldMemory, dm);
      var pcText := PcToHex();
      return Stepped(StepReport(currentInstruction, registers, memory, pcText));
    }

    /**
     * One pass of the loop in `runUntilEnd()`: fetch, decode and execute.
     * `ended` is the run's outcome when this pass ends it (the fetch failed
     * or something threw) and `None` when the loop goes on.
     */
    method RunCycle() returns (ended: Option<RunResult>)
      requires Valid()
      modifies reg, dm, `pc, `instr, `instrAsm, `decoded
      ensures Valid() && Prog() == old(Prog())
      ensures var step := StepState(Prog(), old(State()));
        State() == step.1 &&
        ended == if step.0.Stepped? then None else Some(Outcome(RunWith(StepOf(Prog()), old(State()), 1).0, State()))
    {
      var fetched := Fetch();
      if !fetched {
        var state := GetState();
        return Some(Finished(state));
      }
      var currentPC := pc;
      var parsed := ParseMachineCode();
      if parsed.Err? {
        return Some(Failed(parsed.error));
      }
      var executed := Execute(currentPC);
      if executed.Err? {
        return Some(Failed(executed.error));
      }
      return None;
    }

    /** `runUntilEnd()`, stopped after `fuel` cycles. */
    method RunUntilEnd(fuel: nat) returns (result: RunResult)
      requires Valid()
      modifies reg, dm, `pc, `instr, `instrAsm, `decoded
      ensures Valid()
      ensures var r := RunState(Prog(), old(State()), fuel);
        State() == r.1 && result == Outcome(r.0, r.1)
    {
      var remaining := fuel;
      while true
        invariant Valid()
        invariant RunState(Prog(), old(State()), fuel) == RunState(Prog(), State(), remaining)
        decreases remaining
      {
        if remaining == 0 {
          return OutOfFuel;
        }
        ghost var before, prog := State(), Prog();
        var ended := RunCycle();
        if ended.Some? {
          RunWithEnded(StepOf(prog), before, remaining);
          return ended.value;
        }
        var rest := remaining - 1;
        RunWithStepped(StepOf(prog), before, remaining, rest);
        remaining := rest;
      }
    }
  }
}
