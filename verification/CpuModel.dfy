/**
  One iteration of RunCpu as a function on states: timer tick, interrupt, fetch, decode, execute.
  `aborted` marks the points where the emulator itself would die: a failed assertion of Trap, an
  illegal privilege number, a host division by zero, and the atomic instructions, which are not modelled.
 */
module CpuModel {
  import opened Words
  import opened FlatMemory
  import opened PageWalk
  import opened Encoding
  import opened Decoder
  import opened Multiply
  import opened Alu
  import P = Privileged

  const REGISTERS := 32
  const RA := 1

  type Regs = r: seq<u64> | |r| == REGISTERS witness seq(REGISTERS, i => 0)

  const TIMER_CMP := 0x200_4000
  const TIMER_MTIME := 0x200_BFF8
  const VIRTIO_BASE := 0x1000_1000
  const VIRTIO_END := 0x1000_10FF

  /** The timer, and the last store seen at the disk's registers. */
  datatype Device = Device(
    elapsedCycles: u64, nextCycle: u64, timercmpUpdate: bool, timerInterrupt: bool,
    virtioWrite: bool, virtioAddress: u64, virtioWidth: nat, virtioData: u64)

  datatype State = State(
    cfg: P.Config,
    regs: Regs, pc: u64, nextPc: u64,
    mem: Mem,
    sys: P.Sys,
    dev: Device,
    pageFault: bool, faultingAddress: u64,
    prevPageFault: bool, prevFaultingAddress: u64,
    virtioInterrupt: bool, uartInterrupt: bool,
    error: bool, end: bool, aborted: bool)

  function Aborted(s: State): State { s.(aborted := true) }

  predicate Halted(s: State) { s.error || s.end || s.aborted }

  // ----- address translation as the CPU sees it -----

  datatype EffectiveMode = NoSuchMode | Mode(priv: Privilege)

  /** MPRV makes machine mode use the translation of the mode in MPP. */
  function EffectivePrivilege(sys: P.Sys): EffectiveMode
  {
    var mstatus := sys.csr[P.MSTATUS];
    if sys.priv == Machine && P.GetMprv(mstatus) then
      if P.GetMpp(mstatus) == 2 then NoSuchMode else Mode(P.ModeOfCode(P.GetMpp(mstatus)))
    else Mode(sys.priv)
  }

  datatype Access = Access(pa: u64, s: State)

  function TranslationMode(s: State, priv: Privilege): PageWalk.Mode
  {
    ModeOf(s.cfg.Mxl, priv, Value64(s.sys.csr[P.SATP]))
  }

  function VirtualToPhysical(s: State, va: u64, write: bool): Access
  {
    match EffectivePrivilege(s.sys)
    case NoSuchMode => Access(va, Aborted(s))
    case Mode(priv) =>
      var t := Translate(s.mem, TranslationMode(s, priv), va, write);
      TranslatedBelow(s.mem, TranslationMode(s, priv), va, write);
      Access(t.pa, Noted(s, t, va))
  }

  function WithFault(s: State, va: u64): State { s.(pageFault := true, faultingAddress := va) }

  function Noted(s: State, t: Translation, va: u64): State
  {
    if t.fault then WithFault(SetMem(s, t.mem), va) else SetMem(s, t.mem)
  }

  lemma TranslatedBelow(m: Mem, mode: PageWalk.Mode, va: u64, write: bool)
    ensures Translate(m, mode, va, write).pa < TWO64
  {
    if mode.Paged? && mode.sc == Sv39 {
      match WalkFrom(Sv39, m, mode.root, va, 2)
      case Fault =>
      case Found(_, pte, level) => PhysicalBelow(pte, level, va);
    }
  }

  lemma PhysicalBelow(pte: nat, level: nat, va: u64)
    ensures PhysicalAddress(Sv39, pte, level, va) < TWO64
  {
    assert PageTableEntry.Ppn44(pte) < 0x1000_0000_0000;
    assert va % (Span(Sv39, level) * PAGE_SIZE) < Span(Sv39, level) * PAGE_SIZE <= 0x4000_0000;
  }

  // ----- traps -----

  predicate IsPageFault(cause: nat) { cause in {12, 13, 15} }

  /** The same page fault twice in a row ends the run. */
  function RepetitionNoticed(s: State): State
  {
    s.(error := s.error || (s.prevPageFault && s.prevFaultingAddress == s.faultingAddress))
  }

  function FaultRemembered(s: State): State
  {
    s.(prevPageFault := s.pageFault, prevFaultingAddress := s.faultingAddress, pageFault := false)
  }

  function FaultRecorded(s: State): State { FaultRemembered(RepetitionNoticed(s)) }

  function Trap(s: State, cause: nat, interrupt: bool): State
    requires cause < 16
  {
    if !P.TrapSupports(cause, interrupt) then Aborted(s)
    else if !interrupt && IsPageFault(cause) then
      Transferred(FaultRecorded(s), P.Trap(s.sys, s.cfg, cause, interrupt, Bits64(s.pc), Bits64(s.faultingAddress)))
    else
      Transferred(s, P.Trap(s.sys, s.cfg, cause, interrupt, Bits64(s.pc), 0))
  }

  function Transferred(s: State, t: P.Transfer): State { s.(sys := t.sys, nextPc := Value64(t.nextPc)) }

  // ----- loads and stores -----

  predicate IsLoad(op: Op) { KindOf(op).Loading? }

  predicate IsStore(op: Op) { KindOf(op).Storing? }

  function AccessWidthOf(op: Op): (width: nat)
    ensures width in {1, 2, 4, 8}
  {
    if op in {LB, LBU, SB} then 1 else if op in {LH, LHU, SH} then 2 else if op in {LW, LWU, SW} then 4 else 8
  }

  /** GetAccessWidth: the bytes of an access up to the next 8-byte boundary. */
  function GetAccessWidth(width: nat, address: u64): nat
    requires width in {1, 2, 4, 8}
  {
    if (address % 8 + width - 1) / 8 == 0 then width
    else if width == 1 then width else width - address % width
  }

  /** SignExtend(value, 8 * width) */
  function SignExtended(value: u64, width: nat): u64
    requires width in {1, 2, 4, 8}
  {
    if width == 1 then if value % 0x100 >= 0x80 then value % 0x100 + (TWO64 - 0x100) else value % 0x100
    else if width == 2 then if value % 0x1_0000 >= 0x8000 then value % 0x1_0000 + (TWO64 - 0x1_0000) else value % 0x1_0000
    else if width == 4 then Sext32(value)
    else value
  }

  function LoadResult(op: Op, data: u64): u64
    requires IsLoad(op)
  {
    if op in {LB, LH, LW} then SignExtended(data, AccessWidthOf(op)) else if op == LWU then data % TWO32 else data
  }

  lemma ReadBelow(m: Mem, a: nat, n: nat)
    requires n <= 8
    ensures ReadN(m, a, n) < TWO64
  {
    ReadBound(m, a, n);
    PowValues();
    PowMonotone(n);
  }

  lemma {:induction false} PowMonotone(n: nat)
    requires n <= 8
    ensures Pow256(n) <= TWO64
    decreases 8 - n
  {
    if n < 8 { PowMonotone(n + 1); } else { PowValues(); }
  }

  function ReadData(m: Mem, a: nat, n: nat): u64
    requires n <= 8
  {
    ReadBelow(m, a, n);
    ReadN(m, a, n)
  }

  lemma JoinedBelow(m: Mem, m': Mem, a: nat, b: nat, n: nat, k: nat)
    requires n + k <= 8
    ensures ReadN(m, a, n) + Pow256(n) * ReadN(m', b, k) < TWO64
  {
    hide ReadN, Pow256;
    ReadBound(m, a, n);
    ReadBound(m', b, k);
    PowProduct(n, k);
    PowMonotone(n + k);
    DigitsBelow(ReadN(m, a, n), Pow256(n), ReadN(m', b, k), Pow256(k));
  }

  lemma DigitsBelow(x: nat, p: nat, y: nat, q: nat)
    requires x < p && y < q
    ensures x + p * y < p * q
  {
    var d := q - y;
    assert p * q == p * y + p * d;
    MulAtLeast(d, p);
    assert p * d == d * p;
  }

  lemma {:induction false} PowProduct(n: nat, k: nat)
    ensures Pow256(n) * Pow256(k) == Pow256(n + k)
    decreases n
  {
    if n > 0 {
      PowProduct(n - 1, k);
      var p, q := Pow256(n - 1), Pow256(k);
      assert 0x100 * p * q == 0x100 * (p * q);
    }
  }

  function SetMem(s: State, m: Mem): State { s.(mem := m) }

  function SetDev(s: State, d: Device): State { s.(dev := d) }

  function SetSys(s: State, sys: P.Sys): State { s.(sys := sys) }

  function Failed(s: State): State { s.(error := true) }

  function GoTo(s: State, target: u64): State { s.(nextPc := target) }

  function SetReg(s: State, rd: bv5, value: u64): State { s.(regs := s.regs[rd as nat := value]) }

  function Load(s: State, op: Op, rd: bv5, base: u64, imm: int): State
    requires IsLoad(op)
  {
    var first := VirtualToPhysical(SetMem(s, WriteN(s.mem, TIMER_MTIME, s.dev.elapsedCycles, 8)), Wrap64(base + imm), false);
    if first.s.aborted then first.s
    else if first.s.pageFault then Trap(first.s, 13, false)
    else LoadFrom(first.s, op, rd, first.pa)
  }

  function LoadFrom(s: State, op: Op, rd: bv5, pa: u64): State
    requires IsLoad(op)
  {
    var width := AccessWidthOf(op);
    AccessWidthBounds(width, pa);
    var accessWidth := GetAccessWidth(width, pa);
    if accessWidth == width then SetReg(s, rd, LoadResult(op, ReadData(s.mem, pa, width)))
    else LoadRest(s, op, rd, pa, accessWidth)
  }

  /** The second half is translated from the physical address of the first. */
  function LoadRest(s: State, op: Op, rd: bv5, pa: u64, accessWidth: nat): State
    requires IsLoad(op) && accessWidth < AccessWidthOf(op)
  {
    var second := VirtualToPhysical(s, Wrap64(pa + accessWidth), false);
    if second.s.aborted then second.s
    else if second.s.pageFault then Trap(second.s, 13, false)
    else SetReg(second.s, rd, LoadResult(op, Joined(s.mem, second.s.mem, pa, second.pa, accessWidth, AccessWidthOf(op) - accessWidth)))
  }

  function Joined(m: Mem, m': Mem, a: nat, b: nat, n: nat, k: nat): u64
    requires n + k <= 8
  {
    JoinedBelow(m, m', a, b, n, k);
    ReadN(m, a, n) + Pow256(n) * ReadN(m', b, k)
  }

  lemma AccessWidthBounds(width: nat, address: u64)
    requires width in {1, 2, 4, 8}
    ensures 1 <= GetAccessWidth(width, address) <= width
    ensures GetAccessWidth(width, address) == if address % 8 + width <= 8 then width else 8 - address % 8
  {}

  /** The value is masked to the bytes written; from four bytes on the mask has become all ones. */
  function StoreData(value: u64, accessWidth: nat): u64
  {
    if accessWidth < 4 then LowPart(value, accessWidth) else value
  }

  function LowPart(value: u64, n: nat): u64
  {
    MaskBelow(value, n);
    value % Pow256(n)
  }

  lemma MaskBelow(value: u64, n: nat)
    ensures 0 <= value % Pow256(n) <= value
  {
    QuotientBelow(value, Pow256(n));
    MulMonotone(value / Pow256(n), 0, Pow256(n));
  }

  /** CheckDeviceWrite: stores to the disk's registers are remembered, a store to mtimecmp reloads it. */
  function CheckDeviceWrite(dev: Device, address: u64, width: nat, data: u64): Device
  {
    var d := if VIRTIO_BASE < Wrap64(address + width) && address <= VIRTIO_END
             then dev.(virtioWrite := true, virtioAddress := address, virtioWidth := width, virtioData := data) else dev;
    if TIMER_CMP < Wrap64(address + width) && address < TIMER_CMP + 8 then d.(timercmpUpdate := true) else d
  }

  function Store(s: State, op: Op, value: u64, base: u64, imm: int): State
    requires IsStore(op)
  {
    var va := Wrap64(base + imm);
    var first := VirtualToPhysical(s, va, true);
    if first.s.aborted then first.s
    else if first.s.pageFault then Trap(first.s, 15, false)
    else StoreFrom(first.s, op, value, va, first.pa)
  }

  function StoreFrom(s: State, op: Op, value: u64, va: u64, pa: u64): State
    requires IsStore(op)
  {
    var width := AccessWidthOf(op);
    AccessWidthBounds(width, va);
    var accessWidth := GetAccessWidth(width, va);
    var s1 := SetMem(s, WriteN(s.mem, pa, StoreData(value, accessWidth), accessWidth));
    if accessWidth == width then SetDev(s1, CheckDeviceWrite(s1.dev, pa, width, value))
    else StoreRest(s1, op, value, va, pa, accessWidth)
  }

  /** The second half is translated from its own virtual address. */
  function StoreRest(s: State, op: Op, value: u64, va: u64, pa: u64, accessWidth: nat): State
    requires IsStore(op) && accessWidth < AccessWidthOf(op)
  {
    var second := VirtualToPhysical(s, Wrap64(va + accessWidth), true);
    if second.s.aborted then second.s
    else if second.s.pageFault then Trap(second.s, 15, false)
    else
      SetDev(SetMem(second.s, WriteN(second.s.mem, second.pa, Drop(value, accessWidth), AccessWidthOf(op) - accessWidth)),
             CheckDeviceWrite(second.s.dev, pa, AccessWidthOf(op), value))
  }

  // ----- the other instructions -----

  predicate IsComparison(op: Op) { KindOf(op).Comparison? || KindOf(op).ImmediateComparison? }

  function ComparisonValue(op: Op, a: u64, b: u64, imm: int): u64
    requires IsComparison(op)
  {
    var c := if op == SLT then Signed64(a) < Signed64(b)
             else if op == SLTU then a < b
             else if op == SLTI then Signed64(a) < imm
             else a < Wrap64(imm);
    if c then 1 else 0
  }

  predicate IsBranch(op: Op) { KindOf(op).Branch? }

  predicate BranchTaken(op: Op, a: u64, b: u64)
    requires IsBranch(op)
  {
    if op == BEQ then a == b
    else if op == BNE then a != b
    else if op == BLT then Signed64(a) < Signed64(b)
    else if op == BGE then Signed64(a) >= Signed64(b)
    else if op == BLTU then a < b
    else a >= b
  }

  predicate IsCsr(op: Op) { KindOf(op).CsrAccess? }

  function CsrOpOf(op: Op): P.CsrOp
    requires IsCsr(op)
  {
    if op == CSRRW then P.Write else if op == CSRRS then P.Set else if op == CSRRC then P.Clear
    else if op == CSRRWI then P.WriteImmediate else if op == CSRRSI then P.SetImmediate
    else P.ClearImmediate
  }

  predicate ByNumber(op: Op) { op.CSRRWI? || op.CSRRSI? || op.CSRRCI? }

  function CsrOperand(op: Op, rs1: bv5, value: u64): bv64 { if ByNumber(op) then rs1 as bv64 else Bits64(value) }

  function Csr(s: State, op: Op, rd: bv5, rs1: bv5, csr: nat): State
    requires IsCsr(op) && csr < P.CSR_SIZE
  {
    var operand := CsrOperand(op, rs1, X(s, rs1));
    SetReg(SetSys(s, P.CsrInstruction(s.sys, s.cfg, CsrOpOf(op), csr, operand)), rd, Value64(s.sys.csr[csr]))
  }

  function EcallCause(priv: Privilege): nat
  {
    match priv
    case Machine => 11
    case Supervisor => 9
    case User => 8
  }

  function SystemInstruction(s: State, rd: bv5, imm: int): State
  {
    if imm == 0 then Trap(s, EcallCause(s.sys.priv), false)
    else if imm == 1 then s
    else if imm == 0x302 then
      if P.GetMpp(s.sys.mstatus) == 2 then Aborted(s)
      else
        Transferred(s, P.Mret(s.sys, s.cfg))
    else if imm == 0x102 then
      Transferred(s, P.Sret(s.sys, s.cfg))
    else if imm / 32 == 9 && rd == 0 then s
    else Failed(s)
  }

  /** The immediate as a signed number. */
  function Imm(imm: bv32): int { Signed32(Value32(imm)) }

  function X(s: State, r: bv5): u64 { s.regs[r as nat] }

  function MultInstruction(s: State, op: Op, rd: bv5, a: u64, b: u64): State
    requires IsMultiplication(op)
  {
    match MultValue(s.cfg.Xlen, op, a, b)
    case Value(v) => SetReg(s, rd, v)
    case DivisionByZero | DivisionOverflow => Aborted(s)
  }

  function JumpTo(s: State, rd: bv5, target: u64): State
  {
    SetReg(s, rd, s.nextPc).(nextPc := target)
  }

  function Jal(s: State, rd: bv5, target: u64): State { JumpTo(s, rd, target).(error := s.error || target == s.pc) }

  function Jalr(s: State, rd: bv5, target: u64, ends: bool): State { JumpTo(s, rd, target).(end := s.end || ends) }

  /** A return to address zero ends the run. */
  predicate Ends(s: State, rd: bv5, rs1: bv5, imm: int) { rd == 0 && rs1 as nat == RA && X(s, rs1) == 0 && imm == 0 }

  function Upper(xlen: int, x: u64): u64 { if xlen == 32 then Sext32(x) else x }

  /** The switch of RunCpu; `nextPc` already points behind the instruction. */
  function Execute(s: State, d: Decoded, csr: nat): State
    requires csr < P.CSR_SIZE
  {
    var op := d.op;
    var a, b := X(s, d.rs1), X(s, d.rs2);
    match KindOf(op)
    case Operation => SetReg(s, d.rd, OperationValue(s.cfg.Xlen, op, a, b))
    case Immediate => SetReg(s, d.rd, ImmediateValue(s.cfg.Xlen, op, a, Imm(d.imm)))
    case ShiftImmediate => SetReg(s, d.rd, ShiftValue(s.cfg.Xlen, op, a, Value32(d.imm)))
    case Comparison | ImmediateComparison => SetReg(s, d.rd, ComparisonValue(op, a, b, Imm(d.imm)))
    case Multiplication => MultInstruction(s, op, d.rd, a, b)
    case Branch => if BranchTaken(op, a, b) then GoTo(s, Wrap64(s.pc + Imm(d.imm))) else s
    case Jump => Jal(s, d.rd, Wrap64(s.pc + Imm(d.imm)))
    case JumpRegister => Jalr(s, d.rd, Wrap64(a + Imm(d.imm)) / 2 * 2, Ends(s, d.rd, d.rs1, Imm(d.imm)))
    case Loading => Load(s, op, d.rd, a, Imm(d.imm))
    case Storing => Store(s, op, b, a, Imm(d.imm))
    case LoadUpper => SetReg(s, d.rd, Upper(s.cfg.Xlen, Wrap64(Imm(d.imm))))
    case AddUpper => SetReg(s, d.rd, Upper(s.cfg.Xlen, Wrap64(s.pc + Imm(d.imm))))
    case System => SystemInstruction(s, d.rd, Imm(d.imm))
    case CsrAccess => Csr(s, op, d.rd, d.rs1, csr)
    case Fencing => s
    case Atomic => Aborted(s)
    case Illegal => Failed(s)
  }

  /** After the switch: a jump to itself is an error, and x0 reads as zero. */
  function Finish(s: State): State
  {
    if s.aborted then s
    else s.(error := s.error || s.pc == s.nextPc, regs := s.regs[0 := 0])
  }

  // ----- timer, interrupts, fetch -----

  /** One cycle of the timer; the compare register is read again after a store to it. */
  function Tick(d: Device, m: Mem): Device
  {
    var elapsed := Wrap64(d.elapsedCycles + 1);
    var next := if d.timercmpUpdate then Read64(m, TIMER_CMP) else d.nextCycle;
    d.(elapsedCycles := elapsed, nextCycle := next, timercmpUpdate := false, timerInterrupt := d.timerInterrupt || elapsed == next)
  }

  function TimerTick(s: State): State
  {
    var d := Tick(s.dev, s.mem);
    if !d.timerInterrupt then SetDev(s, d)
    else SetSys(SetDev(s, d.(timerInterrupt := false)), P.SetInterruptPending(s.sys, 7))
  }

  function DiskInterruptCheck(s: State): State
  {
    if s.virtioInterrupt then s.(virtioInterrupt := false, sys := P.SetInterruptPending(s.sys, 9)) else s
  }

  function UartInterruptCheck(s: State): State
  {
    if s.uartInterrupt then s.(uartInterrupt := false, sys := P.SetInterruptPending(s.sys, 9)) else s
  }

  function InterruptCheck(s: State): State { UartInterruptCheck(DiskInterruptCheck(s)) }

  datatype Fetched = Fetched(cmd: u32, s: State)

  function LoadCmd(s: State, pc: u64): Fetched
  {
    var first := VirtualToPhysical(s, pc, false);
    if first.s.aborted then Fetched(0, first.s)
    else
      var word := Read32(first.s.mem, first.pa / 4 * 4);
      var upper := (pc / 2) % 2 == 1;
      var cmd: u32 := if upper then word / 0x1_0000 else word;
      if !first.s.pageFault && upper && cmd % 4 == 3 then
        var second := VirtualToPhysical(first.s, Wrap64(pc + 2), false);
        if second.s.aborted then Fetched(0, second.s)
        else
          var next := Read32(second.s.mem, second.pa / 4 * 4);
          Fetched(cmd % 0x1_0000 + next % 0x1_0000 * 0x1_0000, second.s)
      else Fetched(if cmd % 4 == 3 then cmd else cmd % 0x1_0000, first.s)
  }

  function DecodeWord(cmd: u32, mxl: int): Decoded
  {
    var ir := Bits32(cmd);
    if cmd % 4 == 3 then Decode32(ir) else GetCode16(ir, mxl)
  }

  function CsrNumber(cmd: u32): (n: nat)
    ensures n < P.CSR_SIZE
  {
    cmd / 0x10_0000
  }

  function Length(cmd: u32): nat { if cmd % 4 == 3 then 4 else 2 }

  /** Decode and execute a fetched word. */
  function ExecuteWord(s: State, cmd: u32): State
  {
    Finish(Execute(s.(nextPc := Wrap64(s.pc + Length(cmd))), DecodeWord(cmd, s.cfg.Mxl), CsrNumber(cmd)))
  }

  /** The head of the loop, up to the decision whether to take an interrupt. */
  function Ticked(s: State): State { InterruptCheck(TimerTick(s.(pc := s.nextPc))) }

  predicate TakesInterrupt(s: State) { P.SelectInterrupt(Ticked(s).sys).Take? }

  function Step(s: State): State
  {
    var t := Ticked(s);
    match P.SelectInterrupt(t.sys)
    case Take(cause) => Trap(t, cause, true)
    case NoInterrupt => FetchAndExecute(t)
  }

  function FetchAndExecute(s: State): State
  {
    var f := LoadCmd(s, s.pc);
    if f.s.aborted then f.s
    else if f.s.pageFault then Trap(f.s, 12, false)
    else ExecuteWord(f.s, f.cmd)
  }

  /** The state with which the loop begins. */
  function Started(s: State, startPc: u64): State { s.(error := false, end := false, nextPc := startPc) }

  /** The loop, for at most `limit` iterations. */
  function Run(s: State, limit: nat): State
    decreases limit
  {
    if limit == 0 || Halted(s) then s else Run(Step(s), limit - 1)
  }

  lemma {:induction false} RunCompose(s: State, m: nat, n: nat)
    ensures Run(s, m + n) == Run(Run(s, m), n)
    decreases m
  {
    hide Step, Halted;
    if m > 0 && !Halted(s) {
      RunCompose(Step(s), m - 1, n);
    } else if Halted(s) {
      HaltedRuns(s, m); HaltedRuns(s, n); HaltedRuns(s, m + n);
    }
  }

  lemma HaltedRuns(s: State, n: nat)
    requires Halted(s)
    ensures Run(s, n) == s
  {}
}
