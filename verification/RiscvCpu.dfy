/**
  The CPU object of RISCV_cpu.cc. Its methods update registers, control registers and memory in
  place; each is proved to do to `State()` what the function of the same name in `CpuModel` does.
 */
module Cpu {
  import opened Words
  import opened FlatMemory
  import opened PagedMemory
  import opened PageWalk
  import opened MemoryManagement
  import opened Peripheral
  import opened Encoding
  import opened Decoder
  import opened Alu
  import P = Privileged
  import C = CpuModel

  class RiscvCpu {
    const cfg: P.Config
    const memory: MemoryWrapper
    const mmu: Mmu
    const peripheral: PeripheralEmulator
    const reg: array<u64>
    var pc: u64
    var nextPc: u64
    var mstatus: bv64
    var mie: bv64
    var mip: bv64
    var privilege: Privilege
    var csrs: P.Csrs
    var pageFault: bool
    var faultingAddress: u64
    var prevPageFault: bool
    var prevFaultingAddress: u64
    var virtioInterrupt: bool
    var uartInterrupt: bool
    var errorFlag: bool
    var endFlag: bool
    /** The emulator has died: a failed assertion, an exception, or a division by zero. */
    var aborted: bool

    ghost predicate Valid()
      reads this, mmu, peripheral, memory, memory.mapping, memory.present
    {
      reg.Length == C.REGISTERS && mmu.memory == memory && peripheral.memory == memory && memory.Valid()
    }

    ghost function Sys(): P.Sys
      reads this`mstatus, this`mie, this`mip, this`privilege, this`csrs
    {
      P.Sys(mstatus, mie, mip, privilege, csrs)
    }

    ghost function Registers(): C.Regs
      requires reg.Length == C.REGISTERS
      reads reg
    {
      reg[..]
    }

    ghost function State(): C.State
      requires reg.Length == C.REGISTERS
      reads this, reg, peripheral, memory
    {
      C.State(cfg, Registers(), pc, nextPc, memory.contents, Sys(), peripheral.DeviceState(),
              pageFault, faultingAddress, prevPageFault, prevFaultingAddress, virtioInterrupt, uartInterrupt,
              errorFlag, endFlag, aborted)
    }

    /** A machine in machine mode with zero registers; `misa` describes its extensions. */
    constructor (cfg: P.Config, misa: bv64, memory: MemoryWrapper, peripheral: PeripheralEmulator)
      requires memory.Valid() && peripheral.memory == memory
      ensures Valid() && fresh(reg) && fresh(mmu)
      ensures this.cfg == cfg && this.memory == memory && this.peripheral == peripheral
      ensures reg[..] == seq(C.REGISTERS, i => 0) && pc == nextPc == 0
      ensures Sys() == P.Initial(cfg, misa)
      ensures !pageFault && !prevPageFault && !virtioInterrupt && !uartInterrupt && !errorFlag && !endFlag && !aborted
    {
      hide P.View;
      this.cfg, this.memory, this.peripheral := cfg, memory, peripheral;
      mmu := new Mmu(memory);
      reg := new u64[C.REGISTERS](i => 0);
      pc, nextPc := 0, 0;
      mie, mip, privilege := 0, 0, Machine;
      pageFault, faultingAddress, prevPageFault, prevFaultingAddress := false, 0, false, 0;
      virtioInterrupt, uartInterrupt, errorFlag, endFlag, aborted := false, false, false, false, false;
      mstatus := 0;
      csrs := seq(P.CSR_SIZE, i => 0);
      new;
      csrs := csrs[P.MISA := misa];
      if cfg.wide {
        mstatus := 0xA_0000_0000;
        ApplyMstatusToCsr();
      }
    }

    // ----- status and interrupt registers -----

    method ApplyMstatusToCsr()
      modifies this`csrs
      ensures Sys() == P.ApplyMstatus(old(Sys()), cfg)
    {
      hide P.View;
      csrs := csrs[P.USTATUS := P.View(mstatus, P.UstatusMask(cfg))];
      csrs := csrs[P.SSTATUS := P.View(mstatus, P.SstatusMask(cfg))];
      csrs := csrs[P.MSTATUS := mstatus];
    }

    method ApplyInterruptEnable()
      modifies this`csrs
      ensures Sys() == P.ApplyInterruptEnable(old(Sys()))
    {
      hide P.View;
      csrs := csrs[P.UIE := P.View(mie, P.UIE_MASK)];
      csrs := csrs[P.SIE := P.View(mie, P.SIE_MASK)];
      csrs := csrs[P.MIE := mie];
    }

    method ApplyInterruptPending()
      modifies this`csrs
      ensures Sys() == P.ApplyInterruptPending(old(Sys()))
    {
      hide P.View;
      csrs := csrs[P.UIP := P.View(mip, P.UIE_MASK)];
      csrs := csrs[P.SIP := P.View(mip, P.SIE_MASK)];
      csrs := csrs[P.MIP := mip];
    }

    method UpdateMstatus(csr: nat)
      modifies this`csrs, this`mstatus
      ensures Sys() == P.UpdateMstatus(old(Sys()), cfg, csr)
    {
      hide P.Merge, P.Hardwired, P.ApplyMstatus;
      if csr == P.USTATUS {
        mstatus := P.Merge(mstatus, P.UstatusMask(cfg), csrs[P.USTATUS]);
      } else if csr == P.SSTATUS {
        mstatus := P.Merge(mstatus, P.SstatusMask(cfg), csrs[P.SSTATUS]);
      } else {
        mstatus := csrs[P.MSTATUS];
      }
      mstatus := P.Hardwired(mstatus, cfg);
      ApplyMstatusToCsr();
    }

    method UpdateInterruptPending(csr: nat)
      modifies this`csrs, this`mip
      ensures Sys() == P.UpdateInterruptPending(old(Sys()), csr)
    {
      hide P.Merge, P.ApplyInterruptPending;
      if csr == P.MIP {
        mip := csrs[P.MIP];
      } else if csr == P.UIP {
        mip := P.Merge(mip, P.UIE_MASK, csrs[P.UIP]);
      } else {
        mip := P.Merge(mip, P.SIE_MASK, csrs[P.SIP]);
      }
      ApplyInterruptPending();
    }

    method UpdateInterruptEnable(csr: nat)
      modifies this`csrs, this`mie
      ensures Sys() == P.UpdateInterruptEnable(old(Sys()), csr)
    {
      hide P.Merge, P.ApplyInterruptEnable;
      if csr == P.MIE {
        mie := csrs[P.MIE];
      } else if csr == P.UIE {
        mie := P.Merge(mie, P.UIE_MASK, csrs[P.UIE]);
      } else {
        mie := P.Merge(mie, P.SIE_MASK, csrs[P.SIE]);
      }
      ApplyInterruptEnable();
    }

    method UpdateStatus(csr: nat)
      modifies this`csrs, this`mstatus, this`mie, this`mip
      ensures Sys() == P.UpdateStatus(old(Sys()), cfg, csr)
    {
      hide P.UpdateMstatus, P.UpdateInterruptPending, P.UpdateInterruptEnable;
      if csr in {P.USTATUS, P.SSTATUS, P.MSTATUS} {
        UpdateMstatus(csr);
      } else if csr in {P.UIP, P.SIP, P.MIP} {
        UpdateInterruptPending(csr);
      } else if csr in {P.UIE, P.SIE, P.MIE} {
        UpdateInterruptEnable(csr);
      }
    }

    method SetInterruptPending(cause: nat)
      requires cause < 16
      modifies this`csrs, this`mip
      ensures Sys() == P.SetInterruptPending(old(Sys()), cause)
    {
      hide P.Raise, P.Bit, P.ApplyInterruptEnable;
      mip := P.Raise(mip, P.Bit(cause));
      ApplyInterruptEnable();
    }

    method ClearInterruptPending(cause: nat)
      requires cause < 16
      modifies this`csrs, this`mip
      ensures Sys() == P.ClearInterruptPending(old(Sys()), cause)
    {
      hide P.Lower, P.Bit, P.ApplyInterruptPending;
      mip := P.Lower(mip, P.Bit(cause));
      ApplyInterruptPending();
    }

    /** The branch of Trap for a delegated cause. */
    method EnterSupervisor(cause: nat, interrupt: bool, tval: bv64)
      requires cause < 16
      modifies this`csrs, this`mstatus, this`privilege, this`nextPc
      ensures Sys() == P.TrapToSupervisor(old(Sys()), cfg, cause, interrupt, Bits64(pc), tval)
      ensures nextPc == Value64(P.Handler(cfg, old(csrs[P.STVEC]), P.CauseValue(cfg, cause, interrupt), interrupt))
    {
      hide P.CauseValue, P.Handler, P.SetSpp, P.SetSie, P.SetSpie, P.GetSie, Bits64, Value64, P.ApplyMstatus;
      var globalSie := privilege == User || (privilege == Supervisor && P.GetSie(mstatus));
      csrs := csrs[P.SCAUSE := P.CauseValue(cfg, cause, interrupt)];
      csrs := csrs[P.SEPC := Bits64(pc)];
      nextPc := Value64(P.Handler(cfg, csrs[P.STVEC], csrs[P.SCAUSE], interrupt));
      csrs := csrs[P.STVAL := tval];
      mstatus := P.SetSpie(mstatus, globalSie);
      mstatus := P.SetSie(mstatus, false);
      mstatus := P.SetSpp(mstatus, privilege == Supervisor);
      privilege := Supervisor;
      ApplyMstatusToCsr();
    }

    method EnterMachine(cause: nat, interrupt: bool, tval: bv64)
      requires cause < 16
      modifies this`csrs, this`mstatus, this`privilege, this`nextPc
      ensures Sys() == P.TrapToMachine(old(Sys()), cfg, cause, interrupt, Bits64(pc), tval)
      ensures nextPc == Value64(P.Handler(cfg, old(csrs[P.MTVEC]), P.CauseValue(cfg, cause, interrupt), interrupt))
    {
      hide P.CauseValue, P.Handler, P.SetMpp, P.SetMie, P.SetMpie, P.GetMie, Bits64, Value64, P.ApplyMstatus, P.ModeCode;
      var globalMie := privilege != Machine || P.GetMie(mstatus);
      csrs := csrs[P.MCAUSE := P.CauseValue(cfg, cause, interrupt)];
      csrs := csrs[P.MEPC := Bits64(pc)];
      nextPc := Value64(P.Handler(cfg, csrs[P.MTVEC], csrs[P.MCAUSE], interrupt));
      csrs := csrs[P.MTVAL := tval];
      mstatus := P.SetMpie(mstatus, globalMie);
      mstatus := P.SetMie(mstatus, false);
      mstatus := P.SetMpp(mstatus, P.ModeCode(privilege));
      privilege := Machine;
      ApplyMstatusToCsr();
    }

    method IsDelegated(cause: nat, interrupt: bool) returns (delegation: bool)
      requires cause < 16
      ensures delegation == P.Delegated(Sys(), cfg, cause, interrupt)
    {
      hide P.Bit, P.HasBit, P.DelegatedInterrupts;
      delegation := privilege == User || privilege == Supervisor;
      if interrupt {
        delegation := delegation && P.HasBit(P.DelegatedInterrupts(cfg, csrs[P.MIDELEG]), P.Bit(cause));
      } else {
        delegation := delegation && P.HasBit(csrs[P.MEDELEG], P.Bit(cause));
      }
    }

    /** What Trap does to the control registers. */
    method EnterHandler(cause: nat, interrupt: bool, tval: bv64)
      requires cause < 16
      modifies this`csrs, this`mstatus, this`mip, this`privilege, this`nextPc
      ensures P.Transfer(Sys(), Bits64(nextPc)) == P.Trap(old(Sys()), cfg, cause, interrupt, Bits64(pc), tval)
    {
      hide P.CauseValue, P.Handler, P.Bit, Bits64, Value64, P.ApplyMstatus, P.ClearInterruptPending, P.TrapToMachine, P.TrapToSupervisor, P.Delegated;
      var delegation := IsDelegated(cause, interrupt);
      BitsOfValue64(P.Handler(cfg, csrs[P.STVEC], P.CauseValue(cfg, cause, interrupt), interrupt));
      BitsOfValue64(P.Handler(cfg, csrs[P.MTVEC], P.CauseValue(cfg, cause, interrupt), interrupt));
      if delegation {
        EnterSupervisor(cause, interrupt, tval);
      } else {
        EnterMachine(cause, interrupt, tval);
      }
      if interrupt && cause != 1 && cause != 3 {
        ClearInterruptPending(cause);
      }
      ApplyMstatusToCsr();
    }

    // ----- traps, returns, interrupts -----

    /** The same page fault twice in a row ends the run. */
    method NoticeRepetition()
      requires Valid()
      modifies this`errorFlag
      ensures State() == C.RepetitionNoticed(old(State()))
    {
      hide Represents, WellShaped, Registers, Sys;
      if prevPageFault && prevFaultingAddress == faultingAddress {
        errorFlag := true;
      }
    }

    method RememberFault()
      requires Valid()
      modifies this`prevPageFault, this`prevFaultingAddress, this`pageFault
      ensures State() == C.FaultRemembered(old(State()))
    {
      hide Represents, WellShaped, Registers, Sys;
      prevPageFault := pageFault;
      prevFaultingAddress := faultingAddress;
      pageFault := false;
    }

    method RecordFault()
      requires Valid()
      modifies this`errorFlag, this`prevPageFault, this`prevFaultingAddress, this`pageFault
      ensures State() == C.FaultRecorded(old(State()))
    {
      hide State, C.RepetitionNoticed, C.FaultRemembered, Represents, WellShaped, Registers, Sys;
      NoticeRepetition();
      RememberFault();
    }

    method Enter(cause: nat, interrupt: bool, tval: bv64)
      requires Valid() && cause < 16
      modifies this`csrs, this`mstatus, this`mip, this`privilege, this`nextPc
      ensures State() == C.Transferred(old(State()), P.Trap(old(Sys()), cfg, cause, interrupt, Bits64(pc), tval))
    {
      hide P.Trap, Bits64, Value64, Represents, WellShaped, Registers;
      EnterHandler(cause, interrupt, tval);
      ValueOfBits(nextPc);
    }

    method Trap(cause: nat, interrupt: bool)
      requires Valid() && cause < 16
      modifies this
      ensures Valid() && State() == C.Trap(old(State()), cause, interrupt)
    {
      hide P.Trap, P.TrapSupports, Bits64, Represents, WellShaped, Registers, C.FaultRecorded, C.Transferred;
      if !P.TrapSupports(cause, interrupt) {
        aborted := true;
      } else if !interrupt && C.IsPageFault(cause) {
        RecordKeeps(State());
        RecordFault();
        Enter(cause, interrupt, Bits64(faultingAddress));
      } else {
        Enter(cause, interrupt, 0);
      }
    }

    method ReturnFromMachine()
      requires P.GetMpp(mstatus) != 2
      modifies this`csrs, this`mstatus, this`privilege, this`nextPc
      ensures P.Transfer(Sys(), Bits64(nextPc)) == P.Mret(old(Sys()), cfg)
    {
      hide P.GetMpp, P.GetMpie, P.SetMie, P.SetMpie, P.SetMpp, P.ModeOfCode, P.ApplyMstatus, Bits64, Value64;
      var mpp := P.GetMpp(mstatus);
      privilege := P.ModeOfCode(mpp);
      var mpie := P.GetMpie(mstatus);
      mstatus := P.SetMie(mstatus, mpie);
      mstatus := P.SetMpie(mstatus, true);
      mstatus := P.SetMpp(mstatus, 0);
      StatusKeeps(Sys(), cfg);
      ApplyMstatusToCsr();
      nextPc := Value64(csrs[P.MEPC]);
      BitsOfValue64(csrs[P.MEPC]);
    }

    method ReturnFromSupervisor()
      modifies this`csrs, this`mstatus, this`privilege, this`nextPc
      ensures P.Transfer(Sys(), Bits64(nextPc)) == P.Sret(old(Sys()), cfg)
    {
      hide P.GetSpp, P.GetSpie, P.SetSie, P.SetSpie, P.ClearSpp, P.ApplyMstatus, Bits64, Value64;
      privilege := if P.GetSpp(mstatus) then Supervisor else User;
      var spie := P.GetSpie(mstatus);
      mstatus := P.SetSie(mstatus, spie);
      mstatus := P.SetSpie(mstatus, true);
      mstatus := P.ClearSpp(mstatus);
      StatusKeeps(Sys(), cfg);
      ApplyMstatusToCsr();
      nextPc := Value64(csrs[P.SEPC]);
      BitsOfValue64(csrs[P.SEPC]);
    }

    method Mret()
      requires Valid() && P.GetMpp(mstatus) != 2
      modifies this
      ensures Valid() && State() == C.Transferred(old(State()), P.Mret(old(Sys()), cfg))
    {
      hide P.GetMpp, P.Mret, Bits64, Value64, Represents, WellShaped, Registers;
      ReturnFromMachine();
      ValueOfBits(nextPc);
    }

    method Sret()
      requires Valid()
      modifies this
      ensures Valid() && State() == C.Transferred(old(State()), P.Sret(old(Sys()), cfg))
    {
      hide P.Sret, Bits64, Value64, Represents, WellShaped, Registers;
      ReturnFromSupervisor();
      ValueOfBits(nextPc);
    }

    /** Take the interrupt of highest priority that is pending and enabled, if there is one. */
    method CheckPendingInterrupt() returns (taken: bool)
      requires Valid()
      modifies this
      ensures Valid()
      ensures match P.SelectInterrupt(old(Sys()))
        case Take(cause) => taken && State() == C.Trap(old(State()), cause, true)
        case NoInterrupt => !taken && State() == old(State())
    {
      hide P.Both, P.Bit, P.GetMie, P.GetSie, C.Trap, Represents, WellShaped, Registers;
      var mstatusMie := privilege != Machine || P.GetMie(mstatus);
      var mstatusSie := privilege == User || (privilege == Supervisor && P.GetSie(mstatus));
      if mstatusSie && P.Both(mip, mie, P.Bit(1)) {
        Trap(1, true);
      } else if mstatusMie && P.Both(mip, mie, P.Bit(3)) {
        Trap(3, true);
      } else if mstatusSie && P.Both(mip, mie, P.Bit(5)) {
        Trap(5, true);
      } else if mstatusMie && P.Both(mip, mie, P.Bit(7)) {
        Trap(7, true);
      } else if mstatusSie && P.Both(mip, mie, P.Bit(9)) {
        Trap(9, true);
      } else if mstatusMie && P.Both(mip, mie, P.Bit(11)) {
        Trap(11, true);
      } else {
        return false;
      }
      taken := true;
    }

    method TimerTick()
      requires Valid()
      modifies this, peripheral
      ensures Valid() && State() == C.TimerTick(old(State()))
    {
      hide C.Tick, P.SetInterruptPending, Represents, WellShaped, Registers;
      peripheral.TimerTick();
      if !peripheral.timerInterrupt { return; }
      peripheral.ClearTimerInterrupt();
      SetInterruptPending(7);
    }

    method DiskInterruptCheck()
      requires Valid()
      modifies this
      ensures Valid() && State() == C.DiskInterruptCheck(old(State()))
    {
      hide P.SetInterruptPending, Represents, WellShaped, Registers;
      if virtioInterrupt {
        virtioInterrupt := false;
        SetInterruptPending(9);
      }
    }

    method UartInterruptCheck()
      requires Valid()
      modifies this
      ensures Valid() && State() == C.UartInterruptCheck(old(State()))
    {
      hide P.SetInterruptPending, Represents, WellShaped, Registers;
      if uartInterrupt {
        uartInterrupt := false;
        SetInterruptPending(9);
      }
    }

    method InterruptCheck()
      requires Valid()
      modifies this
      ensures Valid() && State() == C.InterruptCheck(old(State()))
    {
      hide State, C.DiskInterruptCheck, C.UartInterruptCheck, Represents, WellShaped, Registers;
      DiskInterruptCheck();
      UartInterruptCheck();
    }

    // ----- control register and system instructions -----

    method SetReg(rd: bv5, value: u64)
      requires Valid()
      modifies reg
      ensures Valid() && State() == C.SetReg(old(State()), rd, value)
    {
      hide Represents, WellShaped;
      reg[rd as nat] := value;
    }

    /** The write to the register; the views follow it. */
    method WriteCsr(csr: nat, value: bv64)
      requires Valid() && csr < P.CSR_SIZE
      modifies this`csrs, this`mstatus, this`mie, this`mip
      ensures State() == C.SetSys(old(State()), P.UpdateStatus(old(Sys()).(csr := old(csrs)[csr := value]), cfg, csr))
    {
      hide P.UpdateStatus, Represents, WellShaped, Registers;
      csrs := csrs[csr := value];
      UpdateStatus(csr);
    }

    method CsrsInstruction(op: Op, csr: nat, rd: bv5, rs1: bv5)
      requires Valid() && C.IsCsr(op) && csr < P.CSR_SIZE
      modifies this, reg
      ensures Valid() && State() == C.Csr(old(State()), op, rd, rs1, csr)
    {
      hide KindOf, P.UpdateStatus, P.CsrValue, C.CsrOpOf, C.CsrOperand, Value64, Represents, WellShaped, C.SetReg, C.SetSys;
      var t := csrs[csr];
      var operand := C.CsrOperand(op, rs1, reg[rs1 as nat]);
      WriteCsr(csr, P.CsrValue(C.CsrOpOf(op), t, operand));
      SetReg(rd, Value64(t));
    }

    method Ecall()
      requires Valid()
      modifies this
      ensures Valid() && State() == C.Trap(old(State()), C.EcallCause(old(privilege)), false)
    {
      hide C.Trap, Represents, WellShaped, Registers;
      if privilege == Machine {
        Trap(11, false);
      } else if privilege == Supervisor {
        Trap(9, false);
      } else {
        Trap(8, false);
      }
    }

    method SystemInstruction(rd: bv5, imm: int)
      requires Valid()
      modifies this
      ensures Valid() && State() == C.SystemInstruction(old(State()), rd, imm)
    {
      hide C.Trap, C.Transferred, P.Mret, P.Sret, P.GetMpp, Represents, WellShaped, Registers;
      if imm == 0 {
        Ecall();
      } else if imm == 1 {
      } else if imm == 0x302 {
        if P.GetMpp(mstatus) == 2 {
          aborted := true;
        } else {
          Mret();
        }
      } else if imm == 0x102 {
        Sret();
      } else if imm / 32 == 9 && rd == 0 {
      } else {
        errorFlag := true;
      }
    }

    // ----- memory accesses -----

    /** The mode whose translation applies; an illegal MPP makes the source throw. */
    method EffectiveMode() returns (mode: C.EffectiveMode)
      ensures mode == C.EffectivePrivilege(Sys())
    {
      hide P.GetMprv, P.GetMpp, P.ModeOfCode;
      mode := C.Mode(privilege);
      if privilege == Machine && P.GetMprv(csrs[P.MSTATUS]) {
        var mpp := P.GetMpp(csrs[P.MSTATUS]);
        mode := if mpp == 2 then C.NoSuchMode else C.Mode(P.ModeOfCode(mpp));
      }
    }

    /** The walk, as a step on the whole state. */
    method Walk(mode: Privilege, va: u64, write: bool) returns (pa: u64)
      requires Valid()
      modifies mmu, memory, memory.mapping, memory.present
      ensures Valid()
      ensures var t := Translate(old(memory.contents), ModeOf(cfg.Mxl, mode, Value64(csrs[P.SATP])), va, write);
        && pa == t.pa && mmu.pageFault == t.fault && (t.fault ==> mmu.faultingAddress == va)
        && State() == C.SetMem(old(State()), t.mem)
    {
      hide Translate, ModeOf, Value64, Represents, WellShaped, Registers, Sys;
      mmu.SetMxl(cfg.Mxl);
      mmu.SetPrivilege(mode);
      pa := mmu.VirtualToPhysical(va, Value64(csrs[P.SATP]), write);
    }

    method NoteFault()
      requires Valid()
      modifies this`pageFault, this`faultingAddress
      ensures Valid() && State() == if mmu.pageFault then C.WithFault(old(State()), mmu.faultingAddress) else old(State())
    {
      hide Represents, WellShaped, Registers, Sys;
      if mmu.pageFault {
        pageFault := true;
        faultingAddress := mmu.faultingAddress;
      }
    }

    method TranslateIn(mode: Privilege, va: u64, write: bool) returns (pa: u64)
      requires Valid()
      modifies this`pageFault, this`faultingAddress, mmu, memory, memory.mapping, memory.present
      ensures Valid()
      ensures var t := Translate(old(memory.contents), ModeOf(cfg.Mxl, mode, Value64(csrs[P.SATP])), va, write);
        pa == t.pa && State() == C.Noted(old(State()), t, va)
    {
      hide State, Translate, ModeOf, Value64, Represents, WellShaped, Registers, Sys, C.SetMem, C.WithFault;
      pa := Walk(mode, va, write);
      NoteFault();
    }

    method VirtualToPhysical(va: u64, write: bool) returns (pa: u64)
      requires Valid()
      modifies this`pageFault, this`faultingAddress, this`aborted, mmu, memory, memory.mapping, memory.present
      ensures Valid() && C.Access(pa, State()) == C.VirtualToPhysical(old(State()), va, write)
    {
      hide C.EffectivePrivilege, C.Noted, Translate, ModeOf, Value64, Represents, WellShaped, Registers;
      var mode := EffectiveMode();
      if mode == C.NoSuchMode {
        aborted := true;
        pa := va;
      } else {
        pa := TranslateIn(mode.priv, va, write);
      }
    }

    /** Read `width` bytes; aligned words and double words in one access, anything else byte by byte. */
    method LoadWd(pa: u64, width: nat) returns (result: u64)
      requires Valid() && 1 <= width <= 8
      ensures result == C.ReadData(memory.contents, pa, width)
    {
      hide ReadN, Pow256, Represents, WellShaped, Registers;
      result := 0;
      if width == 4 && pa % 4 == 0 {
        result := memory.Read32(pa);
      } else if width == 8 && pa % 8 == 0 {
        result := memory.Read64(pa);
      } else {
        EmptyRead(memory.contents, pa);
        for offset := 0 to width
          invariant result == ReadN(memory.contents, pa, offset)
        {
          var loadedByte := memory.ReadByte(Wrap64(pa + offset));
          NextByteRead(memory.contents, pa, offset);
          result := result + loadedByte * Pow256(offset);
        }
      }
    }

    method StoreWd(pa: u64, data: u64, width: nat)
      requires Valid() && 1 <= width <= 8
      modifies memory, memory.mapping, memory.present
      ensures Valid() && memory.contents == WriteN(old(memory.contents), pa, data, width)
    {
      hide WriteN, Pow256, Represents, WellShaped, Registers;
      ghost var m := memory.contents;
      if width == 4 && pa % 4 == 0 {
        LowWord(m, pa, data);
        memory.Write32(pa, data % TWO32);
      } else if width == 8 && pa % 8 == 0 {
        memory.Write64(pa, data);
      } else {
        EmptyWrite(m, pa, data);
        for offset := 0 to width
          invariant Valid() && memory.contents == WriteN(m, pa, data, offset)
        {
          NextByteWritten(m, pa, data, offset);
          memory.WriteByte(Wrap64(pa + offset), data / Pow256(offset) % 0x100);
        }
      }
    }

    /** The fields of the state that the access methods test. */
    ghost predicate Shows(s: C.State)
      requires reg.Length == C.REGISTERS
      reads this, reg, peripheral, memory
    {
      && s.aborted == aborted && s.pageFault == pageFault && s.mem == memory.contents && s.regs == Registers()
      && s.dev == peripheral.DeviceState() && s.cfg == cfg && s.sys == Sys() && s.pc == pc
    }

    lemma Showing()
      requires Valid()
      ensures Shows(State())
    {
      hide Represents, WellShaped, Registers;
    }

    method RefreshTime()
      requires Valid()
      modifies memory, memory.mapping, memory.present
      ensures Valid() && State() == C.SetMem(old(State()), WriteN(old(memory.contents), C.TIMER_MTIME, peripheral.elapsedCycles, 8))
    {
      hide WriteN, Represents, WellShaped, Registers;
      peripheral.MemoryMappedValueUpdate();
    }

    method LoadInstruction(op: Op, rd: bv5, rs1: bv5, imm: int)
      requires Valid() && C.IsLoad(op)
      modifies this, reg, mmu, memory, memory.mapping, memory.present
      ensures Valid() && State() == C.Load(old(State()), op, rd, old(reg[rs1 as nat]), imm)
    {
      hide State, KindOf, C.VirtualToPhysical, C.Trap, WriteN, Represents, WellShaped, Registers, Sys, C.SetMem, C.LoadFrom, Wrap64;
      Showing();
      var base := reg[rs1 as nat];
      RefreshTime();
      var pa := VirtualToPhysical(Wrap64(base + imm), false);
      Showing();
      if aborted {
      } else if pageFault {
        Trap(13, false);
      } else {
        LoadParts(op, rd, pa);
      }
    }

    method LoadParts(op: Op, rd: bv5, pa: u64)
      requires Valid() && C.IsLoad(op)
      modifies this, reg, mmu, memory, memory.mapping, memory.present
      ensures Valid() && State() == C.LoadFrom(old(State()), op, rd, pa)
    {
      hide State, KindOf, C.LoadRest, C.ReadData, C.GetAccessWidth, C.AccessWidthOf, C.LoadResult, Represents, WellShaped, Registers, Sys, C.SetReg;
      Showing();
      var width := C.AccessWidthOf(op);
      C.AccessWidthBounds(width, pa);
      var accessWidth := C.GetAccessWidth(width, pa);
      var data := LoadWd(pa, accessWidth);
      if accessWidth < width {
        LoadSecondPart(op, rd, pa, accessWidth, data);
      } else {
        SetReg(rd, C.LoadResult(op, data));
      }
    }

    method LoadSecondPart(op: Op, rd: bv5, pa: u64, accessWidth: nat, low: u64)
      requires Valid() && C.IsLoad(op) && accessWidth < C.AccessWidthOf(op) && low == C.ReadData(memory.contents, pa, accessWidth)
      modifies this, reg, mmu, memory, memory.mapping, memory.present
      ensures Valid() && State() == C.LoadRest(old(State()), op, rd, pa, accessWidth)
    {
      hide State, KindOf, C.VirtualToPhysical, C.Trap, C.Joined, C.ReadData, C.AccessWidthOf, C.LoadResult, Represents, WellShaped, Registers, Sys, C.SetReg, Wrap64;
      Showing();
      ghost var m := memory.contents;
      var nextPa := VirtualToPhysical(Wrap64(pa + accessWidth), false);
      Showing();
      if aborted {
      } else if pageFault {
        Trap(13, false);
      } else {
        var nextWidth := C.AccessWidthOf(op) - accessWidth;
        var high := LoadWd(nextPa, nextWidth);
        JoinedIs(m, memory.contents, pa, nextPa, accessWidth, nextWidth);
        var data := low + Pow256(accessWidth) * high;
        SetReg(rd, C.LoadResult(op, data));
      }
    }

    method StoreInstruction(op: Op, rs1: bv5, rs2: bv5, imm: int)
      requires Valid() && C.IsStore(op)
      modifies this, mmu, peripheral, memory, memory.mapping, memory.present
      ensures Valid() && State() == C.Store(old(State()), op, old(reg[rs2 as nat]), old(reg[rs1 as nat]), imm)
    {
      hide State, KindOf, C.VirtualToPhysical, C.Trap, C.StoreFrom, Represents, WellShaped, Registers, Sys, Wrap64;
      var value := reg[rs2 as nat];
      var va := Wrap64(reg[rs1 as nat] + imm);
      var pa := VirtualToPhysical(va, true);
      Showing();
      if aborted {
      } else if pageFault {
        Trap(15, false);
      } else {
        StoreParts(op, value, va, pa);
      }
    }

    method StoreParts(op: Op, value: u64, va: u64, pa: u64)
      requires Valid() && C.IsStore(op)
      modifies this, mmu, peripheral, memory, memory.mapping, memory.present
      ensures Valid() && State() == C.StoreFrom(old(State()), op, value, va, pa)
    {
      hide State, KindOf, C.StoreRest, WriteN, C.GetAccessWidth, C.AccessWidthOf, C.StoreData, C.CheckDeviceWrite, C.SetMem, C.SetDev, Represents, WellShaped, Registers, Sys;
      Showing();
      var width := C.AccessWidthOf(op);
      C.AccessWidthBounds(width, va);
      var accessWidth := C.GetAccessWidth(width, va);
      StoreState(pa, C.StoreData(value, accessWidth), accessWidth);
      Showing();
      if accessWidth < width {
        StoreSecondPart(op, value, va, pa, accessWidth);
      } else {
        CheckDevice(pa, width, value);
      }
    }

    method StoreSecondPart(op: Op, value: u64, va: u64, pa: u64, accessWidth: nat)
      requires Valid() && C.IsStore(op) && accessWidth < C.AccessWidthOf(op)
      modifies this, mmu, peripheral, memory, memory.mapping, memory.present
      ensures Valid() && State() == C.StoreRest(old(State()), op, value, va, pa, accessWidth)
    {
      hide State, KindOf, C.VirtualToPhysical, C.Trap, WriteN, C.AccessWidthOf, C.CheckDeviceWrite, C.SetMem, C.SetDev, Drop, Represents, WellShaped, Registers, Sys, Wrap64;
      var nextPa := VirtualToPhysical(Wrap64(va + accessWidth), true);
      Showing();
      if aborted {
      } else if pageFault {
        Trap(15, false);
      } else {
        DropBelow(value, accessWidth);
        StoreState(nextPa, Drop(value, accessWidth), C.AccessWidthOf(op) - accessWidth);
        CheckDevice(pa, C.AccessWidthOf(op), value);
      }
    }

    /** StoreWd as a step on the whole state. */
    method StoreState(pa: u64, data: u64, width: nat)
      requires Valid() && 1 <= width <= 8
      modifies memory, memory.mapping, memory.present
      ensures Valid() && State() == C.SetMem(old(State()), WriteN(old(memory.contents), pa, data, width))
    {
      hide WriteN, Represents, WellShaped, Registers;
      StoreWd(pa, data, width);
    }

    method CheckDevice(pa: u64, width: nat, data: u64)
      requires Valid()
      modifies peripheral
      ensures Valid() && State() == C.SetDev(old(State()), C.CheckDeviceWrite(old(peripheral.DeviceState()), pa, width, data))
    {
      hide C.CheckDeviceWrite, Represents, WellShaped, Registers;
      peripheral.CheckDeviceWrite(pa, width, data);
    }

    // ----- the other instructions -----

    method OperationInstruction(op: Op, rd: bv5, rs1: bv5, rs2: bv5)
      requires Valid() && IsOperation(op)
      modifies reg
      ensures Valid() && State() == C.SetReg(old(State()), rd, OperationValue(cfg.Xlen, op, old(reg[rs1 as nat]), old(reg[rs2 as nat])))
    {
      hide KindOf, OperationValue, Represents, WellShaped, C.SetReg;
      SetReg(rd, OperationValue(cfg.Xlen, op, reg[rs1 as nat], reg[rs2 as nat]));
    }

    method ImmediateInstruction(op: Op, rd: bv5, rs1: bv5, imm: int)
      requires Valid() && IsImmediate(op)
      modifies reg
      ensures Valid() && State() == C.SetReg(old(State()), rd, ImmediateValue(cfg.Xlen, op, old(reg[rs1 as nat]), imm))
    {
      hide KindOf, ImmediateValue, Represents, WellShaped, C.SetReg;
      SetReg(rd, ImmediateValue(cfg.Xlen, op, reg[rs1 as nat], imm));
    }

    method ImmediateShiftInstruction(op: Op, rd: bv5, rs1: bv5, shamt: nat)
      requires Valid() && IsShiftImmediate(op)
      modifies reg
      ensures Valid() && State() == C.SetReg(old(State()), rd, ShiftValue(cfg.Xlen, op, old(reg[rs1 as nat]), shamt))
    {
      hide KindOf, ShiftValue, Represents, WellShaped, C.SetReg;
      SetReg(rd, ShiftValue(cfg.Xlen, op, reg[rs1 as nat], shamt));
    }

    method Compare(op: Op, rd: bv5, rs1: bv5, rs2: bv5, imm: int)
      requires Valid() && C.IsComparison(op)
      modifies reg
      ensures Valid() && State() == C.SetReg(old(State()), rd, C.ComparisonValue(op, old(reg[rs1 as nat]), old(reg[rs2 as nat]), imm))
    {
      hide KindOf, C.ComparisonValue, Represents, WellShaped, C.SetReg;
      SetReg(rd, C.ComparisonValue(op, reg[rs1 as nat], reg[rs2 as nat], imm));
    }

    method MultInstruction(op: Op, rd: bv5, rs1: bv5, rs2: bv5)
      requires Valid() && IsMultiplication(op)
      modifies reg, this`aborted
      ensures Valid() && State() == C.MultInstruction(old(State()), op, rd, old(reg[rs1 as nat]), old(reg[rs2 as nat]))
    {
      hide State, KindOf, MultValue, Represents, WellShaped, Sys, Registers, C.SetReg, C.Aborted;
      Showing();
      match MultValue(cfg.Xlen, op, reg[rs1 as nat], reg[rs2 as nat])
      case Value(v) => SetReg(rd, v);
      case DivisionByZero | DivisionOverflow => Abort();
    }

    method Abort()
      requires Valid()
      modifies this`aborted
      ensures Valid() && State() == C.Aborted(old(State()))
    {
      hide Represents, WellShaped, Registers, Sys;
      aborted := true;
    }

    method Fail()
      requires Valid()
      modifies this`errorFlag
      ensures Valid() && State() == C.Failed(old(State()))
    {
      hide Represents, WellShaped, Registers, Sys;
      errorFlag := true;
    }

    method SetNextPc(target: u64)
      requires Valid()
      modifies this`nextPc
      ensures Valid() && State() == C.GoTo(old(State()), target)
    {
      hide Represents, WellShaped, Registers, Sys;
      nextPc := target;
    }

    method BranchInstruction(op: Op, rs1: bv5, rs2: bv5, imm: int)
      requires Valid() && C.IsBranch(op)
      modifies this`nextPc
      ensures Valid()
      ensures State() == if C.BranchTaken(op, reg[rs1 as nat], reg[rs2 as nat]) then C.GoTo(old(State()), Wrap64(pc + imm)) else old(State())
    {
      hide KindOf, C.BranchTaken, Represents, WellShaped, Registers, C.GoTo, Wrap64;
      if C.BranchTaken(op, reg[rs1 as nat], reg[rs2 as nat]) {
        SetNextPc(Wrap64(pc + imm));
      }
    }

    method JumpAndLink(rd: bv5, target: u64)
      requires Valid()
      modifies this`nextPc, this`errorFlag, reg
      ensures Valid() && State() == C.Jal(old(State()), rd, target)
    {
      hide Represents, WellShaped, Registers, Sys;
      SetReg(rd, nextPc);
      nextPc := target;
      errorFlag := errorFlag || nextPc == pc;
    }

    /** A return to address zero through ra ends the run. */
    method JumpAndLinkRegister(rd: bv5, target: u64, ends: bool)
      requires Valid()
      modifies this`nextPc, this`endFlag, reg
      ensures Valid() && State() == C.Jalr(old(State()), rd, target, ends)
    {
      hide Represents, WellShaped, Registers, Sys;
      SetReg(rd, nextPc);
      nextPc := target;
      endFlag := endFlag || ends;
    }

    /** The registers as the functions of the model read them. */
    lemma Reads(r: bv5)
      requires Valid()
      ensures C.X(State(), r) == reg[r as nat]
    {
      hide Represents, WellShaped;
    }

    /** The switch over the decoded instruction. */
    method Execute(d: Decoded, csr: nat)
      requires Valid() && csr < P.CSR_SIZE
      modifies this, reg, mmu, peripheral, memory, memory.mapping, memory.present
      ensures Valid() && State() == C.Execute(old(State()), d, csr)
    {
      hide State, Represents, WellShaped, Registers, Sys, KindOf, Wrap64, Value32, C.X, C.Imm, C.Ends;
      hide C.SetReg, C.GoTo, C.Jal, C.Jalr, C.Upper, C.Failed, C.Aborted, C.Load, C.Store, C.Csr, C.SystemInstruction, C.MultInstruction;
      hide OperationValue, ImmediateValue, ShiftValue, C.ComparisonValue, C.BranchTaken;
      Showing(); Reads(d.rs1); Reads(d.rs2);
      var imm := C.Imm(d.imm);
      match KindOf(d.op)
      case Operation => OperationInstruction(d.op, d.rd, d.rs1, d.rs2);
      case Immediate => ImmediateInstruction(d.op, d.rd, d.rs1, imm);
      case ShiftImmediate => ImmediateShiftInstruction(d.op, d.rd, d.rs1, Value32(d.imm));
      case Comparison | ImmediateComparison => Compare(d.op, d.rd, d.rs1, d.rs2, imm);
      case Multiplication => MultInstruction(d.op, d.rd, d.rs1, d.rs2);
      case Branch => BranchInstruction(d.op, d.rs1, d.rs2, imm);
      case Jump => JumpAndLink(d.rd, Wrap64(pc + imm));
      case JumpRegister =>
        EndsIs(State(), d.rd, d.rs1, imm);
        var ends := d.rd == 0 && d.rs1 as nat == C.RA && reg[d.rs1 as nat] == 0 && imm == 0;
        JumpAndLinkRegister(d.rd, Wrap64(reg[d.rs1 as nat] + imm) / 2 * 2, ends);
      case Loading => LoadInstruction(d.op, d.rd, d.rs1, imm);
      case Storing => StoreInstruction(d.op, d.rs1, d.rs2, imm);
      case LoadUpper => SetReg(d.rd, C.Upper(cfg.Xlen, Wrap64(imm)));
      case AddUpper => SetReg(d.rd, C.Upper(cfg.Xlen, Wrap64(pc + imm)));
      case System => SystemInstruction(d.rd, imm);
      case CsrAccess => CsrsInstruction(d.op, csr, d.rd, d.rs1);
      case Fencing =>
      case Atomic => Abort();
      case Illegal => Fail();
    }

    /** The end of an iteration: a jump to itself is an error, and x0 reads as zero. */
    method FinishInstruction()
      requires Valid()
      modifies this`errorFlag, reg
      ensures Valid() && State() == C.Finish(old(State()))
    {
      hide Represents, WellShaped, Sys;
      if !aborted {
        errorFlag := errorFlag || pc == nextPc;
        reg[0] := 0;
      }
    }

    // ----- the loop -----

    method LoadCmd(at: u64) returns (cmd: u32)
      requires Valid()
      modifies this, mmu, memory, memory.mapping, memory.present
      ensures Valid()
      ensures C.Fetched(cmd, State()) == C.LoadCmd(old(State()), at)
    {
      hide State, C.VirtualToPhysical, ReadN, Wrap64, Represents, WellShaped, Registers, Sys;
      var pa := VirtualToPhysical(at, false);
      Showing();
      if aborted { return 0; }
      WordAddress(pa);
      var word := memory.Read32(pa / 4 * 4);
      var upper := (at / 2) % 2 == 1;
      HalvesBelow(word);
      cmd := if upper then word / 0x1_0000 else word;
      if !pageFault && upper && cmd % 4 == 3 {
        var upperPa := VirtualToPhysical(Wrap64(at + 2), false);
        Showing();
        if aborted { return 0; }
        WordAddress(upperPa);
        var next := memory.Read32(upperPa / 4 * 4);
        return cmd % 0x1_0000 + next % 0x1_0000 * 0x1_0000;
      }
      cmd := if cmd % 4 == 3 then cmd else cmd % 0x1_0000;
    }

    /** Decode and execute one fetched word. */
    method ExecuteWord(cmd: u32)
      requires Valid()
      modifies this, reg, mmu, peripheral, memory, memory.mapping, memory.present
      ensures Valid() && State() == C.ExecuteWord(old(State()), cmd)
    {
      hide State, C.Execute, C.Finish, C.DecodeWord, Wrap64, Represents, WellShaped, Registers, Sys;
      Showing();
      GoToIs(State(), Wrap64(pc + C.Length(cmd)));
      hide C.GoTo;
      SetNextPc(Wrap64(pc + C.Length(cmd)));
      var d := C.DecodeWord(cmd, cfg.Mxl);
      Execute(d, C.CsrNumber(cmd));
      FinishInstruction();
    }

    method FetchAndExecute()
      requires Valid()
      modifies this, reg, mmu, peripheral, memory, memory.mapping, memory.present
      ensures Valid() && State() == C.FetchAndExecute(old(State()))
    {
      hide State, C.LoadCmd, C.ExecuteWord, C.Trap, Represents, WellShaped, Registers, Sys;
      Showing();
      var ir := LoadCmd(pc);
      Showing();
      if aborted {
      } else if pageFault {
        Trap(12, false);
      } else {
        ExecuteWord(ir);
      }
    }

    /** One turn of the loop. */
    method Step()
      requires Valid()
      modifies this, reg, mmu, peripheral, memory, memory.mapping, memory.present
      ensures Valid() && State() == C.Step(old(State()))
    {
      hide State, C.TimerTick, C.InterruptCheck, C.FetchAndExecute, C.Trap, P.SelectInterrupt, Represents, WellShaped, Registers, Sys;
      StartInstruction();
      TimerTick();
      InterruptCheck();
      Showing();
      var taken := CheckPendingInterrupt();
      if !taken {
        FetchAndExecute();
      }
    }

    method StartInstruction()
      requires Valid()
      modifies this`pc
      ensures Valid() && State() == old(State()).(pc := old(nextPc)) && old(State()).nextPc == old(nextPc)
    {
      hide Represents, WellShaped, Registers, Sys;
      pc := nextPc;
    }

    /** RunCpu, for at most `limit` iterations. */
    method RunCpu(startPc: u64, limit: nat) returns (error: bool)
      requires Valid() && !aborted
      modifies this, reg, mmu, peripheral, memory, memory.mapping, memory.present
      ensures Valid() && State() == C.Run(C.Started(old(State()), startPc), limit) && error == errorFlag
    {
      hide State, C.Step, Represents, WellShaped, Registers, Sys;
      Start(startPc);
      ghost var s := State();
      var count := 0;
      Flags();
      while count < limit && !errorFlag && !endFlag && !aborted
        invariant Valid() && 0 <= count <= limit
        invariant C.Run(s, limit) == C.Run(State(), limit - count)
        invariant C.Halted(State()) <==> errorFlag || endFlag || aborted
      {
        Step();
        Flags();
        count := count + 1;
      }
      error := errorFlag;
    }

    method Start(startPc: u64)
      requires Valid() && !aborted
      modifies this`errorFlag, this`endFlag, this`nextPc
      ensures Valid() && State() == C.Started(old(State()), startPc)
    {
      hide Represents, WellShaped, Registers, Sys;
      errorFlag := false;
      endFlag := false;
      nextPc := startPc;
    }

    lemma Flags()
      requires Valid()
      ensures C.Halted(State()) <==> errorFlag || endFlag || aborted
    {
      hide Represents, WellShaped, Registers, Sys;
    }
  }

  lemma EmptyRead(m: Mem, a: nat)
    ensures ReadN(m, a, 0) == 0
  {}

  lemma EmptyWrite(m: Mem, a: nat, v: nat)
    ensures WriteN(m, a, v, 0) == m
  {}

  lemma SameByteAddress(a: nat)
    ensures Wrap64(a) % SIZE == a % SIZE
  {}

  lemma NextByteRead(m: Mem, a: nat, n: nat)
    requires n < 8
    ensures ReadN(m, a, n + 1) == ReadN(m, a, n) + m[Wrap64(a + n) % SIZE] * Pow256(n) && ReadN(m, a, n + 1) < TWO64
  {
    hide Pow256, Wrap64, ReadN;
    ReadSplit(m, a, n, 1);
    SameByteAddress(a + n);
    OneByteRead(m, a + n);
    C.ReadBelow(m, a, n + 1);
  }

  lemma OneByteRead(m: Mem, a: nat)
    ensures ReadN(m, a, 1) == m[a % SIZE]
  {}

  lemma NextByteWritten(m: Mem, a: nat, v: nat, n: nat)
    ensures WriteN(WriteN(m, a, v, n), Wrap64(a + n), v / Pow256(n) % 0x100, 1) == WriteN(m, a, v, n + 1)
  {
    hide Pow256, Wrap64;
    WriteSplit(m, a, v, n, 1);
    DropIsShift(v, n);
    SameByteAddress(a + n);
    LastByte(WriteN(m, a, v, n), Wrap64(a + n), a + n, v / Pow256(n));
  }

  lemma LastByte(m: Mem, a: nat, b: nat, v: nat)
    requires a % SIZE == b % SIZE
    ensures WriteN(m, a, v % 0x100, 1) == WriteN(m, b, v, 1)
  {
    assert WriteN(m, a, v % 0x100, 1) == m[a % SIZE := v % 0x100 % 0x100];
    assert WriteN(m, b, v, 1) == m[b % SIZE := v % 0x100];
  }

  lemma LowWord(m: Mem, a: nat, v: nat)
    ensures WriteN(m, a, v % TWO32, 4) == WriteN(m, a, v, 4)
  {
    LowBytes(v, v % TWO32);
    WriteTruncated(m, a, v % TWO32, v, 4);
  }

  lemma DropBelow(v: u64, n: nat)
    ensures Drop(v, n) < TWO64
  {
    DropIsShift(v, n);
    QuotientBelow(v, Pow256(n));
  }

  lemma JoinedIs(m: Mem, m': Mem, a: nat, b: nat, n: nat, k: nat)
    requires n + k <= 8
    ensures C.ReadData(m, a, n) + Pow256(n) * C.ReadData(m', b, k) == C.Joined(m, m', a, b, n, k)
  {
    hide ReadN, Pow256;
  }

  lemma EndsIs(s: C.State, rd: bv5, rs1: bv5, imm: int)
    ensures C.Ends(s, rd, rs1, imm) <==> rd == 0 && rs1 as nat == C.RA && C.X(s, rs1) == 0 && imm == 0
  {}

  lemma WordAddress(pa: nat)
    ensures pa / 4 * 4 % 4 == 0
  {}

  lemma HalvesBelow(word: u32)
    ensures word / 0x1_0000 < TWO32 && word / 0x1_0000 >= 0
    ensures forall next: u32 :: word % 0x1_0000 + next % 0x1_0000 * 0x1_0000 < TWO32
  {}

  lemma GoToIs(s: C.State, target: u64)
    ensures C.GoTo(s, target) == s.(nextPc := target)
  {}

  lemma ValueOfBits(x: u64)
    ensures Value64(Bits64(x)) == x
  {}

  lemma RecordKeeps(s: C.State)
    ensures var t := C.FaultRecorded(s); t.sys == s.sys && t.cfg == s.cfg && t.pc == s.pc && t.faultingAddress == s.faultingAddress
  {}

  lemma StatusKeeps(s: P.Sys, cfg: P.Config)
    ensures P.ApplyMstatus(s, cfg).csr[P.MEPC] == s.csr[P.MEPC] && P.ApplyMstatus(s, cfg).csr[P.SEPC] == s.csr[P.SEPC]
  {
    hide P.View;
  }
}
