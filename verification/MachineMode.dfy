/**
  What one iteration of the loop amounts to without translation and with no interrupt enabled, as in
  machine mode after reset: fetch the word at the program counter and execute it. Also, execution looks
  only at the operands its operation uses.
 */
module MachineMode {
  import opened Words
  import opened FlatMemory
  import opened PageWalk
  import opened Encoding
  import opened Decoder
  import opened Alu
  import opened CpuModel
  import A = DataAccess
  import PagedMemory
  import P = Privileged

  // ----- execution depends on the used operands only -----

  lemma FormatOfKind(op: Op)
    ensures var k := KindOf(op);
      match FormatOf(op)
      case R => k in {Operation, Comparison, Multiplication, Atomic}
      case I => k in {Immediate, ImmediateComparison, JumpRegister, Loading, System, CsrAccess, Fencing, Illegal}
      case Shift => k == ShiftImmediate
      case S => k == Storing
      case B => k == Branch
      case U => k in {LoadUpper, AddUpper}
      case J => k == Jump
  {
  }

  lemma ExecuteUsed(s: State, d: Decoded, csr: nat, csr': nat)
    requires csr < P.CSR_SIZE && csr' < P.CSR_SIZE && (IsCsr(d.op) ==> csr == csr')
    ensures Execute(s, d, csr) == Execute(s, Used(d), csr')
  {
    hide FormatOf, KindOf;
    hide OperationValue, ImmediateValue, ShiftValue, MultInstruction, ComparisonValue, BranchTaken, Load, Store, Csr, SystemInstruction;
    hide Upper, JumpTo, SetReg, Imm, X, Ends;
    FormatOfKind(d.op);
    match FormatOf(d.op)
    case R => if KindOf(d.op).Comparison? { ComparisonIgnores(d.op, X(s, d.rs1), X(s, d.rs2), X(s, d.rs2), Imm(d.imm), Imm(0)); }
    case I => if KindOf(d.op).ImmediateComparison? { ComparisonIgnores(d.op, X(s, d.rs1), X(s, d.rs2), X(s, 0), Imm(d.imm), Imm(d.imm)); }
    case _ =>
  }

  lemma ComparisonIgnores(op: Op, a: u64, b: u64, b': u64, imm: int, imm': int)
    requires IsComparison(op) && if KindOf(op).Comparison? then b == b' else imm == imm'
    ensures ComparisonValue(op, a, b, imm) == ComparisonValue(op, a, b', imm')
  {
  }

  // ----- fetching without translation -----

  /** The 16- or 32-bit instruction at an address; its two low bits tell its length. */
  function FetchWord(m: Mem, pc: nat): u32
  {
    ReadBound(m, pc, 2); PowValues();
    var low := ReadN(m, pc, 2);
    if low % 4 == 3 then Read32(m, pc) else low
  }

  lemma WordHalves(m: Mem, pc: nat)
    requires pc % 2 == 0
    ensures Read32(m, pc) == ReadN(m, pc, 2) + 0x1_0000 * ReadN(m, pc + 2, 2)
    ensures ReadN(m, pc, 2) < 0x1_0000 && ReadN(m, pc + 2, 2) < 0x1_0000
    ensures Read32(m, pc) % 4 == ReadN(m, pc, 2) % 4
    ensures ReadN(m, pc, 2) == if pc % 4 == 0 then Read32(m, pc) % 0x1_0000 else Read32(m, pc / 4 * 4) / 0x1_0000
    ensures pc % 4 == 2 ==> ReadN(m, pc + 2, 2) == Read32(m, pc + 2) % 0x1_0000
  {
    hide ReadN, Read32;
    PagedMemory.SplitWord(m, pc);
    ReadBound(m, pc + 2, 2); PowValues();
    PagedMemory.EvenQuarter(pc);
    PagedMemory.HalfOfWord(m, pc);
    PagedMemory.HalfOfWord(m, pc + 2);
    Quarters(pc);
    LowQuarter(ReadN(m, pc, 2), ReadN(m, pc + 2, 2));
  }

  lemma Quarters(pc: nat)
    requires pc % 2 == 0
    ensures pc % 4 == 0 ==> pc / 4 * 4 == pc
    ensures pc % 4 == 2 ==> (pc + 2) % 4 == 0 && (pc + 2) / 4 * 4 == pc + 2
  {}

  lemma LowQuarter(x: nat, y: nat)
    ensures (x + 0x1_0000 * y) % 4 == x % 4
  {}

  /** Untranslated, in whatever mode, the fetch returns the instruction at pc, also where it straddles two words. */
  lemma FetchUntranslated(s: State, pc: u64)
    requires A.Bare(s) && pc % 2 == 0
    ensures LoadCmd(s, pc) == Fetched(FetchWord(s.mem, pc), s)
  {
    hide ReadN, Read32, VirtualToPhysical, A.Bare;
    A.BareTranslation(s, pc, false);
    A.BareTranslation(s, Wrap64(pc + 2), false);
    WordHalves(s.mem, pc);
    HalfFetch(pc);
    SmallRemainder(ReadN(s.mem, pc, 2), ReadN(s.mem, pc + 2, 2));
    Quarters(pc);
    if pc % 4 == 2 { NextAddress(s.mem, pc); }
  }

  lemma NextAddress(m: Mem, pc: u64)
    requires pc % 4 == 2
    ensures Read32(m, Wrap64(pc + 2) / 4 * 4) == Read32(m, pc + 2)
  {
    hide ReadN;
    NextAddressReduced(pc);
    ReadAlias(m, Wrap64(pc + 2) / 4 * 4, pc + 2, 4);
  }

  lemma NextAddressReduced(pc: u64)
    requires pc % 4 == 2
    ensures Wrap64(pc + 2) / 4 * 4 % SIZE == (pc + 2) % SIZE
  {}

  lemma HalfFetch(pc: nat)
    requires pc % 2 == 0
    ensures (pc / 2) % 2 == 1 <==> pc % 4 == 2
    ensures pc % 4 == 2 || pc % 4 == 0
  {}

  lemma SmallRemainder(x: nat, y: nat)
    requires x < 0x1_0000 && y < 0x1_0000
    ensures (x + 0x1_0000 * y) % 0x1_0000 == x && x % 0x1_0000 == x && (x + 0x1_0000 * y) % 4 == x % 4
    ensures x % 0x1_0000 + y % 0x1_0000 * 0x1_0000 == x + 0x1_0000 * y
  {}

  // ----- one iteration -----

  /** Running untranslated, in whatever mode, with no interrupt enabled. */
  predicate Quiet(s: State)
  {
    && !Halted(s) && !s.pageFault && s.regs[0] == 0
    && QuietSys(s.cfg, s.sys)
  }

  predicate QuietSys(cfg: P.Config, sys: P.Sys)
  {
    && EffectivePrivilege(sys).Mode?
    && ModeOf(cfg.Mxl, EffectivePrivilege(sys).priv, Value64(sys.csr[P.SATP])).Bare?
    && NothingEnabled(sys)
  }

  const MACHINE_INTERRUPTS: bv64 := 0x888
  const SUPERVISOR_INTERRUPTS: bv64 := 0x222

  predicate NoneOf(mie: bv64, mask: bv64) { mie & mask == 0 }

  predicate NothingEnabled(sys: P.Sys)
  {
    && (P.MachineEnabled(sys) ==> NoneOf(sys.mie, MACHINE_INTERRUPTS))
    && (P.SupervisorEnabled(sys) ==> NoneOf(sys.mie, SUPERVISOR_INTERRUPTS))
  }

  lemma QuietIsBare(s: State)
    requires Quiet(s)
    ensures A.Bare(s)
  {
    hide EffectivePrivilege, NothingEnabled, Value64;
  }

  /** Machine mode with interrupts off, as after reset, is one such mode. */
  lemma MachineModeIsQuiet(cfg: P.Config, sys: P.Sys)
    requires sys.priv == Machine && !P.GetMie(sys.mstatus) && !P.GetMprv(sys.csr[P.MSTATUS])
    ensures QuietSys(cfg, sys)
  {
    hide P.GetMie, P.GetMprv, Value64, NoneOf;
  }

  lemma StaysQuiet(cfg: P.Config, sys: P.Sys, cause: nat)
    requires QuietSys(cfg, sys) && cause < 16
    ensures QuietSys(cfg, P.SetInterruptPending(sys, cause))
  {
    hide P.View, P.Bit, P.Raise, P.GetMie, P.GetSie, P.GetMprv, P.GetMpp, P.ModeOfCode, Value64, NoneOf;
  }

  lemma Regrouped(mip: bv64, mie: bv64, mask: bv64, bit: bv64)
    ensures mip & mie & (bit & mask) == mip & (mie & mask) & bit && mip & 0 & bit == 0
  {}

  lemma Masked(mip: bv64, mie: bv64, mask: bv64, bit: bv64)
    requires NoneOf(mie, mask) && bit & mask == bit
    ensures !P.Both(mip, mie, bit)
  {
    Regrouped(mip, mie, mask, bit);
  }

  lemma MaskBits()
    ensures forall i :: i in {3, 7, 11} ==> P.Bit(i) & MACHINE_INTERRUPTS == P.Bit(i)
    ensures forall i :: i in {1, 5, 9} ==> P.Bit(i) & SUPERVISOR_INTERRUPTS == P.Bit(i)
  {}

  lemma NoBits(mip: bv64, mie: bv64, mask: bv64, i: nat, j: nat, k: nat)
    requires NoneOf(mie, mask) && (mask, i, j, k) in {(MACHINE_INTERRUPTS, 3, 7, 11), (SUPERVISOR_INTERRUPTS, 1, 5, 9)}
    ensures !P.Both(mip, mie, P.Bit(i)) && !P.Both(mip, mie, P.Bit(j)) && !P.Both(mip, mie, P.Bit(k))
  {
    MaskBits();
    hide P.Bit, P.Both, NoneOf;
    Masked(mip, mie, mask, P.Bit(i)); Masked(mip, mie, mask, P.Bit(j)); Masked(mip, mie, mask, P.Bit(k));
  }

  lemma NothingTaken(cfg: P.Config, sys: P.Sys)
    requires QuietSys(cfg, sys)
    ensures P.SelectInterrupt(sys).NoInterrupt?
  {
    hide P.Bit, P.Both, NoneOf, P.MachineEnabled, P.SupervisorEnabled, EffectivePrivilege, Value64;
    if NoneOf(sys.mie, MACHINE_INTERRUPTS) { NoBits(sys.mip, sys.mie, MACHINE_INTERRUPTS, 3, 7, 11); }
    if NoneOf(sys.mie, SUPERVISOR_INTERRUPTS) { NoBits(sys.mip, sys.mie, SUPERVISOR_INTERRUPTS, 1, 5, 9); }
  }

  lemma QuietTick(s: State)
    requires Quiet(s)
    ensures var t := Ticked(s);
      && Quiet(t) && t.regs == s.regs && t.mem == s.mem && t.cfg == s.cfg && t.pc == s.nextPc
      && t.dev.elapsedCycles == Wrap64(s.dev.elapsedCycles + 1)
      && !t.error && !t.end && !t.aborted
  {
    hide Read64, P.SetInterruptPending, QuietSys;
    StaysQuiet(s.cfg, s.sys, 7);
    var t := TimerTick(s.(pc := s.nextPc));
    StaysQuiet(t.cfg, t.sys, 9);
    StaysQuiet(t.cfg, P.SetInterruptPending(t.sys, 9), 9);
  }

  lemma QuietStep(s: State)
    requires Quiet(s) && s.nextPc % 2 == 0
    ensures Step(s) == ExecuteWord(Ticked(s), FetchWord(s.mem, s.nextPc))
  {
    hide ExecuteWord, Ticked, LoadCmd, FetchWord, P.SelectInterrupt, QuietSys, A.Bare;
    QuietTick(s);
    NothingTaken(Ticked(s).cfg, Ticked(s).sys);
    QuietIsBare(Ticked(s));
    FetchUntranslated(Ticked(s), s.nextPc);
  }

  // ----- executing assembled words -----

  lemma LowBits(w: bv32)
    requires Lower2(w) == 3
    ensures Value32(w) % 4 == 3
  {
    hide Upper30, Lower2;
    Cut2(w);
    Concat2(Upper30(w), Lower2(w));
    Three(Lower2(w));
    ThreeAboveFour(Value32(w), Upper30(w) as nat);
  }

  lemma Three(b: bv2)
    requires b == 3
    ensures b as nat == 3
  {}

  lemma ThreeAboveFour(v: nat, hi: nat)
    requires v == hi * 4 + 3
    ensures v % 4 == 3
  {}

  lemma OpcodeLowBits(w: bv32)
    requires GetOpcode(w) & 3 == 3
    ensures Lower2(w) == 3
  {}

  lemma OpcodeIsLong(op: Op)
    requires Assemblable(op)
    ensures OpcodeOf(op) & 3 == 3
  {}

  lemma AssembledOpcode(d: Decoded)
    requires Assemblable(d.op)
    ensures GetOpcode(Assemble(d)) == OpcodeOf(d.op)
  {
    hide OpcodeOf, Funct3Of, Funct7Of, FormatOf, Assemblable, GetOpcode, GetRd, GetRs1, GetRs2, GetFunct3, GetFunct7;
    hide RWord, IWord, SWord, BWord, UWord, JWord, Cut12, Cut13, Cut20, Cut21, Extend12, Extend13, Extend20, Extend21, ShiftImm;
    hide GetImm12, GetStypeImm12, GetImm13, GetImm20, GetImm21, GetCsr;
    var opcode, funct3, funct7 := OpcodeOf(d.op), Funct3Of(d.op), Funct7Of(d.op);
    match FormatOf(d.op)
    case R => RFields(funct7, d.rs2, d.rs1, funct3, d.rd, opcode);
    case I => IFields(Cut12(d.imm), d.rs1, funct3, d.rd, opcode);
    case Shift => IFields(ShiftImm(d.imm, funct7), d.rs1, funct3, d.rd, opcode);
    case S => SFields(Cut12(d.imm), d.rs2, d.rs1, funct3, opcode);
    case B => BFields(Cut13(d.imm), d.rs2, d.rs1, funct3, opcode);
    case U => UFields(Cut20(d.imm), d.rd, opcode);
    case J => JFields(Cut21(d.imm), d.rd, opcode);
  }

  /** An assembled word has the low bits of a 32-bit instruction. */
  lemma AssembledIsLong(d: Decoded)
    requires Assemblable(d.op)
    ensures Value32(Assemble(d)) % 4 == 3
  {
    hide Assemble, Assemblable, OpcodeOf, GetOpcode, Lower2;
    AssembledOpcode(d);
    OpcodeIsLong(d.op);
    OpcodeLowBits(Assemble(d));
    LowBits(Assemble(d));
  }

  lemma DecodeAssembled(d: Decoded, mxl: int)
    requires Assemblable(d.op) && Encodable(d)
    ensures Used(DecodeWord(Value32(Assemble(d)), mxl)) == Used(d)
  {
    hide Assemble, Assemblable, Encodable, Decode32, Used, Value32, Bits32, GetCode16;
    AssembledIsLong(d);
    AssembleThenDecode(d);
    BitsOfValue32(Assemble(d));
  }

  /** A word executes like any instruction with the same operation and used operands. */
  lemma ExecuteDecoded(s: State, cmd: u32, d: Decoded)
    requires Used(DecodeWord(cmd, s.cfg.Mxl)) == Used(d) && !IsCsr(d.op)
    ensures ExecuteWord(s, cmd) == Finish(Execute(s.(nextPc := Wrap64(s.pc + Length(cmd))), d, 0))
  {
    hide DecodeWord, Used, Execute, Finish, KindOf, CsrNumber, Wrap64;
    var e, t := DecodeWord(cmd, s.cfg.Mxl), s.(nextPc := Wrap64(s.pc + Length(cmd)));
    UsedOp(d); UsedOp(e);
    ExecuteUsed(t, e, CsrNumber(cmd), 0);
    ExecuteUsed(t, d, 0, 0);
  }

  lemma UsedOp(d: Decoded)
    ensures Used(d).op == d.op
  {
    hide FormatOf;
  }

  /** One iteration at an assembled instruction. */
  lemma StepAssembled(s: State, d: Decoded) returns (t: State)
    requires Quiet(s) && s.nextPc % 2 == 0 && Assemblable(d.op) && Encodable(d) && !IsCsr(d.op)
    requires Read32(s.mem, s.nextPc) == Value32(Assemble(d))
    ensures Quiet(t) && t.regs == s.regs && t.mem == s.mem && t.cfg == s.cfg && t.pc == s.nextPc
    ensures t.nextPc == Wrap64(s.nextPc + 4) && t.dev.elapsedCycles == Wrap64(s.dev.elapsedCycles + 1)
    ensures Step(s) == Finish(Execute(t, d, 0))
  {
    hide Assemble, Assemblable, Encodable, Execute, Finish, KindOf, Ticked, ExecuteWord, DecodeWord, Used, Step, QuietSys, Read32, ReadN, Value32;
    QuietTick(s);
    QuietStep(s);
    AssembledIsLong(d);
    WordHalves(s.mem, s.nextPc);
    DecodeAssembled(d, s.cfg.Mxl);
    ExecuteDecoded(Ticked(s), Value32(Assemble(d)), d);
    t := Ticked(s).(nextPc := Wrap64(s.nextPc + 4));
  }
}
