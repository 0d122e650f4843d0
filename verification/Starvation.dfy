/**
  Interrupts cannot starve execution: at most three iterations in a row take an interrupt.
 */
module Starvation {
  import opened Words
  import opened FlatMemory
  import opened PageWalk
  import opened CpuModel
  import P = Privileged

  /** Of the interrupts that are pending and enabled, only those Trap supports: causes 1, 7 and 9. */
  predicate OnlySupported(sys: P.Sys) { Supported(sys.mip, sys.mie) }

  predicate Supported(mip: bv64, mie: bv64)
  {
    !P.Both(mip, mie, P.Bit(3)) && !P.Both(mip, mie, P.Bit(5)) && !P.Both(mip, mie, P.Bit(11))
  }

  /** After a trap to machine mode: nothing is enabled. */
  predicate InMachineHandler(sys: P.Sys) { sys.priv == Machine && !P.GetMie(sys.mstatus) }

  /** After a trap to supervisor mode: only interrupts for machine mode are enabled. */
  predicate InSupervisorHandler(sys: P.Sys) { sys.priv == Supervisor && !P.GetSie(sys.mstatus) }

  predicate TimerPending(sys: P.Sys) { Timer(sys.mip) }

  predicate Timer(mip: bv64) { Has(mip, P.Bit(7)) }

  /** The timer will fire in the next iteration. */
  predicate TimerFires(s: State)
  {
    s.dev.timerInterrupt
    || Wrap64(s.dev.elapsedCycles + 1) == if s.dev.timercmpUpdate then Read64(s.mem, TIMER_CMP) else s.dev.nextCycle
  }

  /** No reload and no interrupt is waiting in the timer. */
  predicate TimerSettled(dev: Device) { !dev.timerInterrupt && !dev.timercmpUpdate }

  predicate Apart(bit: bv64, other: bv64) { bit & other == 0 }

  lemma BitsApart()
    ensures Apart(P.Bit(7), P.Bit(3)) && Apart(P.Bit(7), P.Bit(5)) && Apart(P.Bit(7), P.Bit(11))
    ensures Apart(P.Bit(9), P.Bit(3)) && Apart(P.Bit(9), P.Bit(5)) && Apart(P.Bit(9), P.Bit(11)) && Apart(P.Bit(9), P.Bit(7))
  {}

  predicate Has(mip: bv64, bit: bv64) { mip & bit != 0 }

  lemma OtherBits(mip: bv64, mie: bv64, bit: bv64, other: bv64)
    requires bit & other == 0
    ensures (mip | bit) & mie & other == mip & mie & other && (mip | bit) & other == mip & other
  {}

  lemma RaiseKeeps(mip: bv64, mie: bv64, bit: bv64, other: bv64)
    requires Apart(bit, other)
    ensures P.Both(P.Raise(mip, bit), mie, other) == P.Both(mip, mie, other)
    ensures Has(P.Raise(mip, bit), other) == Has(mip, other)
  {
    OtherBits(mip, mie, bit, other);
  }

  lemma LowerClears(mip: bv64, mie: bv64, bit: bv64, other: bv64)
    ensures P.Both(P.Lower(mip, bit), mie, other) ==> P.Both(mip, mie, other)
    ensures !Has(P.Lower(mip, bit), bit)
  {
    assert mip & !bit & bit == 0;
    if mip & mie & other == 0 {
      assert mip & !bit & mie & other == mip & mie & other & !bit;
    }
  }

  lemma SetBits(mip: bv64, mie: bv64, cause: nat)
    requires Supported(mip, mie) && cause in {7, 9}
    ensures Supported(P.Raise(mip, P.Bit(cause)), mie)
    ensures cause == 9 ==> Timer(P.Raise(mip, P.Bit(9))) == Timer(mip)
  {
    hide P.Bit, P.Both, P.Raise, Has, Apart;
    BitsApart();
    RaiseKeeps(mip, mie, P.Bit(cause), P.Bit(3));
    RaiseKeeps(mip, mie, P.Bit(cause), P.Bit(5));
    RaiseKeeps(mip, mie, P.Bit(cause), P.Bit(11));
    if cause == 9 { RaiseKeeps(mip, mie, P.Bit(9), P.Bit(7)); }
  }

  lemma ClearBits(mip: bv64, mie: bv64, cause: nat)
    requires Supported(mip, mie) && cause < 16
    ensures Supported(P.Lower(mip, P.Bit(cause)), mie)
    ensures cause == 7 ==> !Timer(P.Lower(mip, P.Bit(7)))
  {
    hide P.Bit, P.Both, P.Lower, Has;
    LowerClears(mip, mie, P.Bit(cause), P.Bit(3));
    LowerClears(mip, mie, P.Bit(cause), P.Bit(5));
    LowerClears(mip, mie, P.Bit(cause), P.Bit(11));
  }

  lemma SetKeeps(sys: P.Sys, cause: nat)
    requires OnlySupported(sys) && cause in {7, 9}
    ensures var t := P.SetInterruptPending(sys, cause);
      && OnlySupported(t) && t.priv == sys.priv && t.mstatus == sys.mstatus && t.mie == sys.mie
      && (cause == 9 ==> TimerPending(t) == TimerPending(sys))
  {
    hide P.View, P.Raise, P.Bit, Supported, Timer;
    SetBits(sys.mip, sys.mie, cause);
  }

  /** TimerTick without the interrupt request. */
  function Counted(s: State): State
  {
    s.(dev := s.dev.(elapsedCycles := Wrap64(s.dev.elapsedCycles + 1),
                     nextCycle := if s.dev.timercmpUpdate then Read64(s.mem, TIMER_CMP) else s.dev.nextCycle,
                     timercmpUpdate := false, timerInterrupt := false))
  }

  lemma TickIs(s: State)
    ensures TimerTick(s) == if TimerFires(s) then SetSys(Counted(s), P.SetInterruptPending(s.sys, 7)) else Counted(s)
  {
    hide Read64, P.SetInterruptPending, Wrap64;
    if TimerFires(s) {} else {}
  }

  lemma TimerTickKeeps(s: State)
    requires OnlySupported(s.sys)
    ensures var t := TimerTick(s);
      && OnlySupported(t.sys) && t.sys.priv == s.sys.priv && t.sys.mstatus == s.sys.mstatus
      && (TimerPending(t.sys) ==> TimerPending(s.sys) || TimerFires(s))
      && TimerSettled(t.dev) && t.dev.elapsedCycles == Wrap64(s.dev.elapsedCycles + 1)
      && (TimerSettled(s.dev) ==> t.dev.nextCycle == s.dev.nextCycle)
  {
    hide Read64, TimerTick, P.SetInterruptPending, OnlySupported, TimerPending, TimerFires, Wrap64;
    TickIs(s);
    SetKeeps(s.sys, 7);
  }

  lemma CheckKeeps(s: State)
    requires OnlySupported(s.sys)
    ensures var t := InterruptCheck(s);
      && OnlySupported(t.sys) && t.sys.priv == s.sys.priv && t.sys.mstatus == s.sys.mstatus
      && TimerPending(t.sys) == TimerPending(s.sys) && t.dev == s.dev
  {
    hide P.SetInterruptPending, OnlySupported, TimerPending;
    SetKeeps(s.sys, 9);
    SetKeeps(P.SetInterruptPending(s.sys, 9), 9);
    if s.virtioInterrupt {} else {}
  }

  lemma TickKeeps(s: State)
    requires OnlySupported(s.sys)
    ensures var t := Ticked(s);
      && OnlySupported(t.sys) && t.sys.priv == s.sys.priv && t.sys.mstatus == s.sys.mstatus
      && (TimerPending(t.sys) ==> TimerPending(s.sys) || TimerFires(s))
      && TimerSettled(t.dev) && t.dev.elapsedCycles == Wrap64(s.dev.elapsedCycles + 1)
      && (TimerSettled(s.dev) ==> t.dev.nextCycle == s.dev.nextCycle)
  {
    hide TimerTick, InterruptCheck, OnlySupported, TimerPending, Wrap64;
    var u := s.(pc := s.nextPc);
    assert TimerFires(u) == TimerFires(s);
    TimerTickKeeps(u);
    CheckKeeps(TimerTick(u));
  }

  /** Which interrupts can be selected in each situation. */
  lemma Selected(sys: P.Sys)
    requires OnlySupported(sys)
    ensures var c := P.SelectInterrupt(sys);
      && (c.Take? ==> c.cause in {1, 7, 9})
      && (InMachineHandler(sys) ==> c.NoInterrupt?)
      && (InSupervisorHandler(sys) && c.Take? ==> c.cause == 7 && TimerPending(sys))
  {
    hide P.GetMie, P.GetSie, P.Both, P.Bit, Timer;
    EnabledBits(sys.mip, sys.mie);
  }

  lemma EnabledBits(mip: bv64, mie: bv64)
    ensures P.Both(mip, mie, P.Bit(7)) ==> Timer(mip)
  {}

  lemma MachineStatus(m: bv64, b: bool, code: bv2)
    ensures !P.GetMie(P.SetMpp(P.SetMie(P.SetMpie(m, b), false), code))
  {}

  lemma SupervisorStatus(m: bv64, b: bool, c: bool)
    ensures !P.GetSie(P.SetSpp(P.SetSie(P.SetSpie(m, b), false), c))
  {
    if c {} else {}
  }

  lemma MachineEnters(sys: P.Sys, cfg: P.Config, cause: nat, pc: bv64)
    requires cause < 16
    ensures var t := P.TrapToMachine(sys, cfg, cause, true, pc, 0); InMachineHandler(t) && t.mip == sys.mip && t.mie == sys.mie
  {
    hide P.View, P.SetMpp, P.SetMie, P.SetMpie, P.GetMie, P.CauseValue, P.ModeCode, P.MachineEnabled;
    MachineStatus(sys.mstatus, P.MachineEnabled(sys), P.ModeCode(sys.priv));
  }

  lemma SupervisorEnters(sys: P.Sys, cfg: P.Config, cause: nat, pc: bv64)
    requires cause < 16
    ensures var t := P.TrapToSupervisor(sys, cfg, cause, true, pc, 0); InSupervisorHandler(t) && t.mip == sys.mip && t.mie == sys.mie
  {
    hide P.View, P.SetSpp, P.SetSie, P.SetSpie, P.GetSie, P.CauseValue, P.SupervisorEnabled;
    SupervisorStatus(sys.mstatus, P.SupervisorEnabled(sys), sys.priv == Supervisor);
  }

  lemma ClearKeeps(sys: P.Sys, cfg: P.Config, cause: nat)
    requires cause < 16 && OnlySupported(sys)
    ensures OnlySupported(P.ClearInterruptPending(sys, cause)) && (cause == 7 ==> !TimerPending(P.ClearInterruptPending(sys, cause)))
    ensures P.ClearInterruptPending(sys, cause).priv == sys.priv && P.ClearInterruptPending(sys, cause).mstatus == sys.mstatus
    ensures var t := P.ApplyMstatus(sys, cfg); t.mip == sys.mip && t.mie == sys.mie && t.priv == sys.priv && t.mstatus == sys.mstatus
  {
    hide P.View, P.Lower, P.Bit, Supported, Timer;
    ClearBits(sys.mip, sys.mie, cause);
  }

  /** Taking an interrupt leads into one of the two handlers and takes a timer interrupt off the list. */
  lemma TrapEnters(sys: P.Sys, cfg: P.Config, cause: nat, pc: bv64)
    requires OnlySupported(sys) && cause in {1, 7, 9}
    ensures var t := P.Trap(sys, cfg, cause, true, pc, 0).sys;
      && OnlySupported(t) && (InMachineHandler(t) || InSupervisorHandler(t))
      && (cause == 7 ==> !TimerPending(t))
  {
    hide P.TrapToMachine, P.TrapToSupervisor, P.CauseValue, P.Handler, P.Delegated, P.ClearInterruptPending, P.ApplyMstatus, P.GetMie, P.GetSie, Supported, Timer;
    MachineEnters(sys, cfg, cause, pc);
    SupervisorEnters(sys, cfg, cause, pc);
    var t := if P.Delegated(sys, cfg, cause, true) then P.TrapToSupervisor(sys, cfg, cause, true, pc, 0)
             else P.TrapToMachine(sys, cfg, cause, true, pc, 0);
    ClearKeeps(t, cfg, cause);
    ClearKeeps(P.ClearInterruptPending(t, cause), cfg, cause);
  }

  lemma TransferKeeps(s: State, t: P.Transfer)
    ensures Transferred(s, t).sys == t.sys && Transferred(s, t).dev == s.dev
  {
    hide Value64;
  }

  /** One iteration that takes an interrupt. */
  lemma TakingStep(s: State)
    requires OnlySupported(s.sys) && TakesInterrupt(s)
    ensures var t := Step(s);
      && OnlySupported(t.sys) && (InMachineHandler(t.sys) || InSupervisorHandler(t.sys))
      && !InMachineHandler(s.sys)
      && (InSupervisorHandler(s.sys) ==> !TimerPending(t.sys) && (TimerPending(s.sys) || TimerFires(s)))
      && TimerSettled(t.dev) && t.dev.elapsedCycles == Wrap64(s.dev.elapsedCycles + 1)
      && (TimerSettled(s.dev) ==> t.dev.nextCycle == s.dev.nextCycle)
  {
    hide Ticked, P.Trap, P.SelectInterrupt, OnlySupported, TimerPending, TimerFires, Wrap64, Transferred, Bits64, LoadCmd, ExecuteWord, P.GetMie, P.GetSie;
    TickKeeps(s);
    var t := Ticked(s);
    Selected(t.sys);
    var c := P.SelectInterrupt(t.sys).cause;
    TrapEnters(t.sys, t.cfg, c, Bits64(t.pc));
    TransferKeeps(t, P.Trap(t.sys, t.cfg, c, true, Bits64(t.pc), 0));
  }

  /** Of two ticks in a row only one can meet the compare register. */
  lemma FiresOnce(s: State, t: State)
    requires TimerSettled(s.dev) && TimerSettled(t.dev) && t.dev.nextCycle == s.dev.nextCycle
    requires t.dev.elapsedCycles == Wrap64(s.dev.elapsedCycles + 1)
    ensures !(TimerFires(s) && TimerFires(t))
  {
    hide Read64;
  }

  /**
    At most three iterations in a row take an interrupt, whatever is delegated, whatever the timer
    and the devices do: the fourth one attempts to fetch an instruction.
   */
  lemma NoStarvation(s: State)
    requires OnlySupported(s.sys)
    requires TakesInterrupt(s) && TakesInterrupt(Step(s)) && TakesInterrupt(Step(Step(s)))
    ensures !TakesInterrupt(Step(Step(Step(s))))
  {
    hide Step, TakesInterrupt, OnlySupported, InMachineHandler, InSupervisorHandler, TimerPending, TimerFires, TimerSettled, Wrap64;
    var s1 := Step(s);
    var s2 := Step(s1);
    var s3 := Step(s2);
    TakingStep(s);
    TakingStep(s1);
    TakingStep(s2);
    if TakesInterrupt(s3) {
      TakingStep(s3);
      FiresOnce(s2, s3);
    }
  }

  // ----- three in a row do happen -----

  /** Interrupts 1 and 7 go to supervisor mode. */
  predicate Delegating(s: State)
  {
    var bits := P.DelegatedInterrupts(s.cfg, s.sys.csr[P.MIDELEG]);
    P.HasBit(bits, P.Bit(1)) && P.HasBit(bits, P.Bit(7))
  }

  /** Nothing is waiting in the devices, and the timer fires at the tick `n` from now. */
  predicate FiresAt(s: State, n: nat)
  {
    TimerSettled(s.dev) && !s.virtioInterrupt && !s.uartInterrupt && Wrap64(s.dev.elapsedCycles + n) == s.dev.nextCycle
  }

  lemma Ticks(e: u64, n: nat)
    requires 1 < n < 4
    ensures Wrap64(e + 1) != Wrap64(e + n) && Wrap64(Wrap64(e + 1) + (n - 1)) == Wrap64(e + n)
  {
    if e + n < TWO64 {} else if e + 1 < TWO64 {} else {}
  }

  lemma QuietTickIs(s: State, n: nat)
    requires 1 < n < 4 && FiresAt(s, n)
    ensures var t := Ticked(s); t.sys == s.sys && t.cfg == s.cfg && FiresAt(t, n - 1)
  {
    hide Read64, P.SetInterruptPending, Wrap64;
    Ticks(s.dev.elapsedCycles, n);
  }

  lemma FiringTickIs(s: State)
    requires FiresAt(s, 1)
    ensures Ticked(s).sys == P.SetInterruptPending(s.sys, 7)
  {
    hide Read64, P.SetInterruptPending;
  }

  /** A delegated interrupt keeps the enable and delegation registers and the devices. */
  lemma DelegatedStep(s: State, n: nat, cause: nat)
    requires 1 < n < 4 && FiresAt(s, n) && Delegating(s) && cause in {1, 7} && s.sys.priv != Machine
    requires P.SelectInterrupt(s.sys) == P.Take(cause)
    ensures var t := Step(s);
      && TakesInterrupt(s) && FiresAt(t, n - 1) && Delegating(t)
      && t.sys.priv == Supervisor && !P.GetSie(t.sys.mstatus)
      && t.sys.mie == s.sys.mie && t.sys.mip == if cause == 1 then s.sys.mip else P.Lower(s.sys.mip, P.Bit(7))
  {
    hide Ticked, P.SelectInterrupt, P.Trap, LoadCmd, FetchAndExecute, Bits64, Transferred, P.HasBit, P.DelegatedInterrupts, P.Bit, P.Lower, P.GetSie, Wrap64;
    QuietTickIs(s, n);
    var t := Ticked(s);
    TransferKeepsDevices(t, P.Trap(t.sys, t.cfg, cause, true, Bits64(t.pc), 0));
    DelegatedTrap(t.sys, t.cfg, cause, Bits64(t.pc));
  }

  lemma TransferKeepsDevices(s: State, t: P.Transfer)
    ensures var u := Transferred(s, t);
      u.sys == t.sys && u.dev == s.dev && u.cfg == s.cfg && u.virtioInterrupt == s.virtioInterrupt && u.uartInterrupt == s.uartInterrupt
  {
    hide Value64;
  }

  lemma DelegatedTrap(sys: P.Sys, cfg: P.Config, cause: nat, pc: bv64)
    requires cause in {1, 7} && sys.priv != Machine && P.HasBit(P.DelegatedInterrupts(cfg, sys.csr[P.MIDELEG]), P.Bit(cause))
    ensures var t := P.Trap(sys, cfg, cause, true, pc, 0).sys;
      && t.priv == Supervisor && !P.GetSie(t.mstatus) && t.mie == sys.mie && t.csr[P.MIDELEG] == sys.csr[P.MIDELEG]
      && t.mip == if cause == 1 then sys.mip else P.Lower(sys.mip, P.Bit(7))
  {
    hide P.HasBit, P.DelegatedInterrupts, P.Bit, P.Lower, P.GetSie, P.Handler, P.CauseValue, P.View, P.SetSpp, P.SetSie, P.SetSpie, P.SupervisorEnabled, P.TrapToMachine;
    SupervisorStatus(sys.mstatus, P.SupervisorEnabled(sys), sys.priv == Supervisor);
  }

  lemma PendingAgain(mip: bv64, mie: bv64, bit: bv64)
    requires P.Both(mip, mie, bit)
    ensures P.Both(P.Raise(P.Lower(mip, bit), bit), mie, bit)
  {
    assert ((mip & !bit) | bit) & mie & bit == mie & bit;
    assert mip & mie & bit == mip & (mie & bit);
  }

  /**
    The bound is met: a user program with a software interrupt and a timer interrupt pending, both
    delegated, and a timer that fires three ticks later.
   */
  lemma ThreeInARow(s: State)
    requires FiresAt(s, 3) && Delegating(s) && OnlySupported(s.sys) && s.sys.priv == User
    requires P.Both(s.sys.mip, s.sys.mie, P.Bit(1)) && P.Both(s.sys.mip, s.sys.mie, P.Bit(7))
    ensures TakesInterrupt(s) && TakesInterrupt(Step(s)) && TakesInterrupt(Step(Step(s)))
  {
    hide Step, Ticked, P.Both, P.Bit, P.Lower, P.Raise, P.GetSie, P.GetMie, Delegating, FiresAt, P.View;
    DelegatedStep(s, 3, 1);
    var s1 := Step(s);
    DelegatedStep(s1, 2, 7);
    var s2 := Step(s1);
    FiringTickIs(s2);
    PendingAgain(s.sys.mip, s.sys.mie, P.Bit(7));
    ClearBits(s.sys.mip, s.sys.mie, 7);
    SetKeeps(s2.sys, 7);
  }

  /** One such state: interrupts 1 and 7 pending, enabled and delegated, and the timer due at cycle 3. */
  function Sample(wide: bool): State
  {
    State(P.Config(wide, false), seq(REGISTERS, i => 0), 0, 0, seq(SIZE, i => 0),
          P.Sys(0, 0x82, 0x82, User, seq(P.CSR_SIZE, i => 0)[P.MIDELEG := 0x82]),
          Device(0, 3, false, false, false, 0, 0, 0),
          false, 0, false, 0, false, false, false, false, false)
  }

  lemma SampleBits(wide: bool)
    ensures P.HasBit(P.DelegatedInterrupts(P.Config(wide, false), 0x82), P.Bit(1)) && P.HasBit(P.DelegatedInterrupts(P.Config(wide, false), 0x82), P.Bit(7))
    ensures Supported(0x82, 0x82) && P.Both(0x82, 0x82, P.Bit(1)) && P.Both(0x82, 0x82, P.Bit(7))
  {}

  lemma SampleTakesThree(wide: bool)
    ensures var s := Sample(wide); OnlySupported(s.sys) && TakesInterrupt(s) && TakesInterrupt(Step(s)) && TakesInterrupt(Step(Step(s)))
  {
    hide Step, TakesInterrupt, P.HasBit, P.DelegatedInterrupts, Supported, P.Both, P.Bit;
    SampleBits(wide);
    ThreeInARow(Sample(wide));
  }
}
