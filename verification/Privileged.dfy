/**
  The privilege state machine of RISCV_cpu.cc: traps, returns, the status and interrupt registers
  with their views, and the CSR instructions.
 */
module Privileged {
  import opened Words
  import opened PageWalk

  const USTATUS := 0x000
  const UIE := 0x004
  const UIP := 0x044
  const SSTATUS := 0x100
  const SIE := 0x104
  const STVEC := 0x105
  const SEPC := 0x141
  const SCAUSE := 0x142
  const STVAL := 0x143
  const SIP := 0x144
  const SATP := 0x180
  const MSTATUS := 0x300
  const MISA := 0x301
  const MEDELEG := 0x302
  const MIDELEG := 0x303
  const MIE := 0x304
  const MTVEC := 0x305
  const MEPC := 0x341
  const MCAUSE := 0x342
  const MTVAL := 0x343
  const MIP := 0x344

  const CSR_SIZE := 4096

  type Csrs = c: seq<bv64> | |c| == CSR_SIZE witness seq(CSR_SIZE, i => 0)

  /** The width of the machine and the option that suppresses delegation of machine interrupts. */
  datatype Config = Config(wide: bool, noDelegation: bool) {
    const Xlen: int := if wide then 64 else 32
    const Mxl: int := if wide then 2 else 1
  }

  /** mstatus_, mie_, mip_, privilege_ and csrs_. */
  datatype Sys = Sys(mstatus: bv64, mie: bv64, mip: bv64, priv: Privilege, csr: Csrs)

  // ----- fields of mstatus -----

  function Flag(b: bool): bv64 { if b then 1 else 0 }

  predicate GetSie(m: bv64) { (m >> 1) & 1 == 1 }
  predicate GetMie(m: bv64) { (m >> 3) & 1 == 1 }
  predicate GetSpie(m: bv64) { (m >> 5) & 1 == 1 }
  predicate GetMpie(m: bv64) { (m >> 7) & 1 == 1 }
  predicate GetSpp(m: bv64) { (m >> 8) & 1 == 1 }
  function GetMpp(m: bv64): bv2 { ((m >> 11) & 3) as bv2 }
  predicate GetMprv(m: bv64) { (m >> 17) & 1 == 1 }

  function SetSie(m: bv64, b: bool): bv64 { (m & !0x2) | (Flag(b) << 1) }
  function SetMie(m: bv64, b: bool): bv64 { (m & !0x8) | (Flag(b) << 3) }
  function SetSpie(m: bv64, b: bool): bv64 { (m & !0x20) | (Flag(b) << 5) }
  function SetMpie(m: bv64, b: bool): bv64 { (m & !0x80) | (Flag(b) << 7) }
  function SetSpp(m: bv64, b: bool): bv64 { (m & !0x100) | (Flag(b) << 8) }
  function SetMpp(m: bv64, p: bv2): bv64 { (m & !0x1800) | ((p as bv64) << 11) }

  function ModeCode(p: Privilege): bv2
  {
    match p
    case User => 0
    case Supervisor => 1
    case Machine => 3
  }

  /** IntToPrivilegeMode, which throws for 2. */
  function ModeOfCode(c: bv2): (p: Privilege)
    requires c != 2
  {
    if c == 0 then User else if c == 1 then Supervisor else Machine
  }

  /** An interrupt for machine mode is enabled below machine mode, and in machine mode by MIE. */
  predicate MachineEnabled(s: Sys) { s.priv != Machine || GetMie(s.mstatus) }

  predicate SupervisorEnabled(s: Sys) { s.priv == User || (s.priv == Supervisor && GetSie(s.mstatus)) }

  // ----- the views of mstatus, mip and mie -----

  const SSTATUS_MASK_32: bv64 := 0xD_E133
  const USTATUS_MASK_32: bv64 := 0xD_E011
  const SSTATUS_MASK_64: bv64 := 0x3_000D_E133
  const USTATUS_MASK_64: bv64 := 0xD_E011
  const SIE_MASK: bv64 := 0x333
  const UIE_MASK: bv64 := 0x111

  function SstatusMask(cfg: Config): bv64 { if cfg.wide then SSTATUS_MASK_64 else SSTATUS_MASK_32 }

  function UstatusMask(cfg: Config): bv64 { if cfg.wide then USTATUS_MASK_64 else USTATUS_MASK_32 }

  function View(register: bv64, mask: bv64): bv64 { register & mask }

  function Merge(register: bv64, mask: bv64, value: bv64): bv64 { (register & !mask) | (value & mask) }

  function ApplyMstatus(s: Sys, cfg: Config): Sys
  {
    s.(csr := s.csr[USTATUS := View(s.mstatus, UstatusMask(cfg))][SSTATUS := View(s.mstatus, SstatusMask(cfg))][MSTATUS := s.mstatus])
  }

  function ApplyInterruptEnable(s: Sys): Sys
  {
    s.(csr := s.csr[UIE := View(s.mie, UIE_MASK)][SIE := View(s.mie, SIE_MASK)][MIE := s.mie])
  }

  function ApplyInterruptPending(s: Sys): Sys
  {
    s.(csr := s.csr[UIP := View(s.mip, UIE_MASK)][SIP := View(s.mip, SIE_MASK)][MIP := s.mip])
  }

  /** SD, FS and XS are hardwired to zero, SXL and UXL to the width of the machine. */
  function Hardwired(m: bv64, cfg: Config): bv64
  {
    if cfg.wide then HardwiredWide(m) else HardwiredNarrow(m)
  }

  function HardwiredWide(m: bv64): bv64 { (m & !0x8000_000F_0001_E000) | 0xA_0000_0000 }

  function HardwiredNarrow(m: bv64): bv64 { m & !0x8001_E000 }

  function UpdateMstatus(s: Sys, cfg: Config, csr: nat): Sys
  {
    var m := if csr == USTATUS then Merge(s.mstatus, UstatusMask(cfg), s.csr[USTATUS])
             else if csr == SSTATUS then Merge(s.mstatus, SstatusMask(cfg), s.csr[SSTATUS])
             else s.csr[MSTATUS];
    ApplyMstatus(s.(mstatus := Hardwired(m, cfg)), cfg)
  }

  function UpdateInterruptPending(s: Sys, csr: nat): Sys
  {
    var p := if csr == MIP then s.csr[MIP]
             else if csr == UIP then Merge(s.mip, UIE_MASK, s.csr[UIP])
             else Merge(s.mip, SIE_MASK, s.csr[SIP]);
    ApplyInterruptPending(s.(mip := p))
  }

  function UpdateInterruptEnable(s: Sys, csr: nat): Sys
  {
    var e := if csr == MIE then s.csr[MIE]
             else if csr == UIE then Merge(s.mie, UIE_MASK, s.csr[UIE])
             else Merge(s.mie, SIE_MASK, s.csr[SIE]);
    ApplyInterruptEnable(s.(mie := e))
  }

  function UpdateStatus(s: Sys, cfg: Config, csr: nat): Sys
  {
    if csr in {USTATUS, SSTATUS, MSTATUS} then UpdateMstatus(s, cfg, csr)
    else if csr in {UIP, SIP, MIP} then UpdateInterruptPending(s, csr)
    else if csr in {UIE, SIE, MIE} then UpdateInterruptEnable(s, csr)
    else s
  }

  // ----- interrupt bits -----

  function Bit(cause: nat): bv64
    requires cause < 16
  {
    match cause
    case 0 => 0x1 case 1 => 0x2 case 2 => 0x4 case 3 => 0x8
    case 4 => 0x10 case 5 => 0x20 case 6 => 0x40 case 7 => 0x80
    case 8 => 0x100 case 9 => 0x200 case 10 => 0x400 case 11 => 0x800
    case 12 => 0x1000 case 13 => 0x2000 case 14 => 0x4000 case _ => 0x8000
  }

  function Raise(register: bv64, bit: bv64): bv64 { register | bit }

  function Lower(register: bv64, bit: bv64): bv64 { register & !bit }

  predicate Both(mip: bv64, mie: bv64, bit: bv64) { mip & mie & bit != 0 }

  /** SetInterruptPending refreshes the views of the enable register, not those of the pending register. */
  function SetInterruptPending(s: Sys, cause: nat): Sys
    requires cause < 16
  {
    ApplyInterruptEnable(s.(mip := Raise(s.mip, Bit(cause))))
  }

  function ClearInterruptPending(s: Sys, cause: nat): Sys
    requires cause < 16
  {
    ApplyInterruptPending(s.(mip := Lower(s.mip, Bit(cause))))
  }

  datatype Selection = NoInterrupt | Take(cause: nat)

  /** CheckPendingInterrupt: which of the pending and enabled interrupts is taken. */
  function SelectInterrupt(s: Sys): (r: Selection)
    ensures r.Take? ==> r.cause in {1, 3, 5, 7, 9, 11}
  {
    var m, v := MachineEnabled(s), SupervisorEnabled(s);
    if v && Both(s.mip, s.mie, Bit(1)) then Take(1)
    else if m && Both(s.mip, s.mie, Bit(3)) then Take(3)
    else if v && Both(s.mip, s.mie, Bit(5)) then Take(5)
    else if m && Both(s.mip, s.mie, Bit(7)) then Take(7)
    else if v && Both(s.mip, s.mie, Bit(9)) then Take(9)
    else if m && Both(s.mip, s.mie, Bit(11)) then Take(11)
    else NoInterrupt
  }

  // ----- traps and returns -----

  /** The causes the assertion at the head of Trap lets through. */
  predicate TrapSupports(cause: nat, interrupt: bool)
  {
    if interrupt then cause in {1, 7, 9} else cause in {8, 9, 11, 12, 13, 15}
  }

  predicate Delegated(s: Sys, cfg: Config, cause: nat, interrupt: bool)
    requires cause < 16
  {
    && s.priv != Machine
    && HasBit(if interrupt then DelegatedInterrupts(cfg, s.csr[MIDELEG]) else s.csr[MEDELEG], Bit(cause))
  }

  predicate HasBit(register: bv64, bit: bv64) { register & bit != 0 }

  /** An option suppresses the delegation of machine interrupts. */
  function DelegatedInterrupts(cfg: Config, mideleg: bv64): bv64 { mideleg & (if cfg.noDelegation then 0x666 else 0xFFF) }

  function CauseValue(cfg: Config, cause: nat, interrupt: bool): bv64
    requires cause < 16
  {
    Small(cause) | (if !interrupt then 0 else if cfg.wide then 0x8000_0000_0000_0000 else 0x8000_0000)
  }

  function Small(n: nat): bv64
    requires n < 16
  {
    match n
    case 0 => 0 case 1 => 1 case 2 => 2 case 3 => 3 case 4 => 4 case 5 => 5 case 6 => 6 case 7 => 7
    case 8 => 8 case 9 => 9 case 10 => 10 case 11 => 11 case 12 => 12 case 13 => 13 case 14 => 14 case _ => 15
  }

  /** The handler's address: vectored for exceptions only, as in the code. */
  function Handler(cfg: Config, tvec: bv64, causeValue: bv64, interrupt: bool): bv64
  {
    if tvec & 3 == 0 || interrupt then Base(tvec) else Plus(Base(tvec), Offset(cfg, causeValue))
  }

  function Base(tvec: bv64): bv64 { tvec & !3 }

  function Offset(cfg: Config, causeValue: bv64): bv64
  {
    (causeValue & (if cfg.wide then 0x7FFF_FFFF_FFFF_FFFF else 0x7FFF_FFFF)) << 2
  }

  function TrapToSupervisor(s: Sys, cfg: Config, cause: nat, interrupt: bool, pc: bv64, tval: bv64): Sys
    requires cause < 16
  {
    var m := SetSpp(SetSie(SetSpie(s.mstatus, SupervisorEnabled(s)), false), s.priv == Supervisor);
    ApplyMstatus(s.(mstatus := m, priv := Supervisor,
                    csr := s.csr[SCAUSE := CauseValue(cfg, cause, interrupt)][SEPC := pc][STVAL := tval]), cfg)
  }

  function TrapToMachine(s: Sys, cfg: Config, cause: nat, interrupt: bool, pc: bv64, tval: bv64): Sys
    requires cause < 16
  {
    var m := SetMpp(SetMie(SetMpie(s.mstatus, MachineEnabled(s)), false), ModeCode(s.priv));
    ApplyMstatus(s.(mstatus := m, priv := Machine,
                    csr := s.csr[MCAUSE := CauseValue(cfg, cause, interrupt)][MEPC := pc][MTVAL := tval]), cfg)
  }

  datatype Transfer = Transfer(sys: Sys, nextPc: bv64)

  function Trap(s: Sys, cfg: Config, cause: nat, interrupt: bool, pc: bv64, tval: bv64): Transfer
    requires cause < 16
  {
    var c := CauseValue(cfg, cause, interrupt);
    var t := if Delegated(s, cfg, cause, interrupt)
             then Transfer(TrapToSupervisor(s, cfg, cause, interrupt, pc, tval), Handler(cfg, s.csr[STVEC], c, interrupt))
             else Transfer(TrapToMachine(s, cfg, cause, interrupt, pc, tval), Handler(cfg, s.csr[MTVEC], c, interrupt));
    var u := if interrupt && cause != 1 && cause != 3 then ClearInterruptPending(t.sys, cause) else t.sys;
    Transfer(ApplyMstatus(u, cfg), t.nextPc)
  }

  function Mret(s: Sys, cfg: Config): Transfer
    requires GetMpp(s.mstatus) != 2
  {
    var m := SetMpp(SetMpie(SetMie(s.mstatus, GetMpie(s.mstatus)), true), 0);
    Transfer(ApplyMstatus(s.(mstatus := m, priv := ModeOfCode(GetMpp(s.mstatus))), cfg), s.csr[MEPC])
  }

  /** Bits 8 and 9 are both cleared. */
  function ClearSpp(m: bv64): bv64 { m & !0x300 }

  function Sret(s: Sys, cfg: Config): Transfer
  {
    var m := ClearSpp(SetSpie(SetSie(s.mstatus, GetSpie(s.mstatus)), true));
    Transfer(ApplyMstatus(s.(mstatus := m, priv := if GetSpp(s.mstatus) then Supervisor else User), cfg), s.csr[SEPC])
  }

  // ----- CSR instructions -----

  datatype CsrOp = Write | Set | Clear | WriteImmediate | SetImmediate | ClearImmediate

  /** `operand` is rs1's value, or its number for the immediate forms. Complementing that 32-bit number clears bits 63..32. */
  function CsrValue(op: CsrOp, t: bv64, operand: bv64): bv64
  {
    match op
    case Write | WriteImmediate => operand
    case Set | SetImmediate => t | operand
    case Clear => t & !operand
    case ClearImmediate => t & (!operand & 0xFFFF_FFFF)
  }

  function CsrInstruction(s: Sys, cfg: Config, op: CsrOp, csr: nat, operand: bv64): Sys
    requires csr < CSR_SIZE
  {
    UpdateStatus(s.(csr := s.csr[csr := CsrValue(op, s.csr[csr], operand)]), cfg, csr)
  }

  /** The registers a new CPU starts with. */
  function Initial(cfg: Config, misa: bv64): Sys
  {
    var zero := Sys(0, 0, 0, Machine, seq(CSR_SIZE, i => 0)[MISA := misa]);
    if cfg.wide then ApplyMstatus(zero.(mstatus := 0xA_0000_0000), cfg) else zero
  }
}
