/**
  One iteration of the loop for each kind of instruction the guest programs use: what a quiet state
  at an assembled instruction turns into.
 */
module Iteration {
  import opened Words
  import opened FlatMemory
  import opened PageWalk
  import opened Decoder
  import opened Alu
  import opened CpuModel
  import opened MachineMode
  import A = DataAccess
  import P = Privileged

  /** A quiet state whose next instruction is `d`. */
  predicate Before(s: State, d: Decoded)
  {
    && Quiet(s) && s.nextPc % 2 == 0
    && Assemblable(d.op) && Encodable(d) && !IsCsr(d.op)
    && Read32(s.mem, s.nextPc) == Value32(Assemble(d))
  }

  predicate Computes(op: Op) { KindOf(op) in {Operation, Immediate, ShiftImmediate} }

  function Computed(xlen: int, d: Decoded, a: u64, b: u64): u64
    requires Computes(d.op)
  {
    match KindOf(d.op)
    case Operation => OperationValue(xlen, d.op, a, b)
    case Immediate => ImmediateValue(xlen, d.op, a, Imm(d.imm))
    case ShiftImmediate => ShiftValue(xlen, d.op, a, Value32(d.imm))
  }

  lemma Kinds()
    ensures KindOf(JAL) == Kind.Jump && KindOf(JALR) == Kind.JumpRegister && KindOf(LW) == Kind.Loading && KindOf(SW) == Kind.Storing
  {}

  lemma FinishQuiet(s: State)
    requires Quiet(s) && s.pc != s.nextPc
    ensures Finish(s) == s
  {}

  lemma PcMoves(pc: u64)
    ensures Wrap64(pc + 4) != pc
  {}

  /** `regs` with rd replaced. */
  function Put(regs: Regs, rd: bv5, value: u64): Regs { regs[rd as nat := value] }

  function Address(s: State, d: Decoded): u64 { Wrap64(X(s, d.rs1) + Imm(d.imm)) }

  function Result(s: State, d: Decoded): u64
    requires Computes(d.op)
  {
    Computed(s.cfg.Xlen, d, X(s, d.rs1), X(s, d.rs2))
  }

  function Target(s: State, d: Decoded): u64 { Wrap64(s.nextPc + Imm(d.imm)) }

  function Branched(s: State, d: Decoded): u64
    requires IsBranch(d.op)
  {
    if BranchTaken(d.op, X(s, d.rs1), X(s, d.rs2)) then Target(s, d) else Following(s)
  }

  function Following(s: State): u64 { Wrap64(s.nextPc + 4) }

  function Loaded(s: State, d: Decoded): u64 { Sext32(Read32(Refreshed(s), Address(s, d))) }

  /** Memory once a load has refreshed the copy of mtime. */
  function Refreshed(s: State): Mem { WriteN(s.mem, TIMER_MTIME, Wrap64(s.dev.elapsedCycles + 1), 8) }

  /** The state after an iteration that changes nothing the next one depends on, apart from what is named. */
  predicate Moves(s: State, s': State, regs: Regs, nextPc: u64, mem: Mem)
  {
    Quiet(s') && s'.cfg == s.cfg && s'.regs == regs && s'.nextPc == nextPc && s'.mem == mem
  }

  lemma StepComputes(s: State, d: Decoded)
    requires Before(s, d) && Computes(d.op) && d.rd as nat != 0
    ensures Moves(s, Step(s), Put(s.regs, d.rd, Result(s, d)), Following(s), s.mem)
  {
    hide Step, Assemble, Assemblable, Encodable, KindOf, OperationValue, ImmediateValue, ShiftValue, Read32, QuietSys, Imm, Finish, Wrap64;
    var t := StepAssembled(s, d);
    PcMoves(t.pc);
    FinishQuiet(SetReg(t, d.rd, Result(s, d)));
  }

  lemma StepBranches(s: State, d: Decoded)
    requires Before(s, d) && IsBranch(d.op) && Target(s, d) != s.nextPc
    ensures Moves(s, Step(s), s.regs, Branched(s, d), s.mem)
  {
    hide Step, Assemble, Assemblable, Encodable, KindOf, BranchTaken, Read32, QuietSys, Imm, Finish, Wrap64;
    var t := StepAssembled(s, d);
    PcMoves(t.pc);
    FinishQuiet(t);
    FinishQuiet(t.(nextPc := Wrap64(t.pc + Imm(d.imm))));
  }

  lemma StepJumps(s: State, d: Decoded)
    requires Before(s, d) && d.op == JAL && d.rd as nat == 0 && Target(s, d) != s.nextPc
    ensures Moves(s, Step(s), s.regs, Target(s, d), s.mem)
  {
    hide Step, Assemble, Assemblable, Encodable, Read32, QuietSys, Imm, Wrap64;
    hide OperationValue, ImmediateValue, ShiftValue, ComparisonValue, BranchTaken, MultInstruction, Csr, SystemInstruction, KindOf, Load, Store, Jalr;
    Kinds();
    var t := StepAssembled(s, d);
    var u := t.(nextPc := Wrap64(t.pc + Imm(d.imm)));
    assert Execute(t, d, 0) == u.(regs := t.regs[0 := t.nextPc]);
    assert t.regs[0 := t.nextPc][0 := 0] == t.regs;
  }

  /** `ret` with zero in ra ends the run. */
  lemma StepReturns(s: State, d: Decoded)
    requires Before(s, d) && d.op == JALR && d.rd as nat == 0 && d.rs1 as nat == RA && Imm(d.imm) == 0
    requires s.regs[RA] == 0 && s.nextPc != 0
    ensures var s' := Step(s); s'.end && !s'.error && !s'.aborted && s'.mem == s.mem
  {
    hide Step, Assemble, Assemblable, Encodable, Read32, QuietSys, Imm;
    hide OperationValue, ImmediateValue, ShiftValue, ComparisonValue, BranchTaken, MultInstruction, Csr, SystemInstruction, KindOf, Load, Store, Jal;
    Kinds();
    var t := StepAssembled(s, d);
    assert Wrap64(0) == 0;
  }

  lemma WordFits(address: u64)
    requires address % 4 == 0
    ensures GetAccessWidth(4, address) == 4
  {}

  lemma LoadedWord(m: Mem, a: nat)
    ensures LoadResult(LW, ReadData(m, a, 4)) == Sext32(Read32(m, a))
  {
    hide ReadN;
  }

  lemma LoadAligned(t: State, rd: bv5, base: u64, imm: int)
    requires Quiet(t) && Wrap64(base + imm) % 4 == 0
    ensures var m := WriteN(t.mem, TIMER_MTIME, t.dev.elapsedCycles, 8);
      Load(t, LW, rd, base, imm) == SetReg(t.(mem := m), rd, Sext32(Read32(m, Wrap64(base + imm))))
  {
    hide Read32, WriteN, ReadN, QuietSys, Wrap64, VirtualToPhysical, GetAccessWidth, A.Bare, LoadResult, ReadData, Sext32, SetReg;
    var address := Wrap64(base + imm);
    var u := t.(mem := WriteN(t.mem, TIMER_MTIME, t.dev.elapsedCycles, 8));
    QuietIsBare(t);
    A.BareElsewhere(t, u.mem);
    A.BareTranslation(u, address, false);
    WordFits(address);
    LoadedWord(u.mem, address);
  }

  lemma StoreAligned(t: State, value: u64, base: u64, imm: int)
    requires Quiet(t) && Wrap64(base + imm) % 4 == 0
    ensures var address := Wrap64(base + imm);
      Store(t, SW, value, base, imm) ==
      t.(mem := WriteN(t.mem, address, value, 4), dev := CheckDeviceWrite(t.dev, address, 4, value))
  {
    hide WriteN, QuietSys, Wrap64, VirtualToPhysical, GetAccessWidth, A.Bare, CheckDeviceWrite;
    var address := Wrap64(base + imm);
    QuietIsBare(t);
    A.BareTranslation(t, address, true);
    WordFits(address);
  }

  lemma StepLoadsWord(s: State, d: Decoded)
    requires Before(s, d) && d.op == LW && d.rd as nat != 0 && Address(s, d) % 4 == 0
    ensures Moves(s, Step(s), Put(s.regs, d.rd, Loaded(s, d)), Following(s), Refreshed(s))
  {
    hide Step, Assemble, Assemblable, Encodable, Read32, WriteN, ReadN, QuietSys, Imm, Wrap64, Finish, Load, Sext32;
    hide OperationValue, ImmediateValue, ShiftValue, ComparisonValue, BranchTaken, MultInstruction, Csr, SystemInstruction, KindOf, Store, Jal, Jalr;
    Kinds();
    var t := StepAssembled(s, d);
    PcMoves(t.pc);
    LoadAligned(t, d.rd, X(s, d.rs1), Imm(d.imm));
    FinishQuiet(SetReg(t.(mem := Refreshed(s)), d.rd, Loaded(s, d)));
  }

  lemma StepStoresWord(s: State, d: Decoded)
    requires Before(s, d) && d.op == SW && Address(s, d) % 4 == 0
    ensures Moves(s, Step(s), s.regs, Following(s), WriteN(s.mem, Address(s, d), X(s, d.rs2), 4))
  {
    hide Step, Assemble, Assemblable, Encodable, Read32, WriteN, ReadN, QuietSys, Imm, Wrap64, Finish, Store, CheckDeviceWrite;
    hide OperationValue, ImmediateValue, ShiftValue, ComparisonValue, BranchTaken, MultInstruction, Csr, SystemInstruction, KindOf, Load, Jal, Jalr;
    Kinds();
    var t := StepAssembled(s, d);
    var address := Address(s, d);
    PcMoves(t.pc);
    StoreAligned(t, X(s, d.rs2), X(s, d.rs1), Imm(d.imm));
    FinishQuiet(SetDev(SetMem(t, WriteN(t.mem, address, X(s, d.rs2), 4)), CheckDeviceWrite(t.dev, address, 4, X(s, d.rs2))));
  }
}
