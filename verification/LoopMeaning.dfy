/**
  The loop around the instructions: traps and returns as the CPU takes them, the words of the system
  instructions, the mode address translation works in, and the timer.
 */
module LoopMeaning {
  import opened Words
  import opened FlatMemory
  import opened PageWalk
  import opened Encoding
  import opened Decoder
  import opened CpuModel
  import opened WordBits
  import opened TrapMeaning
  import MachineMode
  import I = InstructionMeaning
  import P = Privileged

  // ----- the effective mode -----

  /** Machine mode with MPRV (bit 17) set translates as the mode in MPP, two being no mode. */
  lemma EffectiveMeans(sys: P.Sys)
    ensures var m := sys.csr[0x300];
      match EffectivePrivilege(sys)
      case NoSuchMode => sys.priv == Machine && BitAt(m, 17) && !BitAt(m, 11) && BitAt(m, 12)
      case Mode(priv) => if sys.priv == Machine && BitAt(m, 17) then ReturnsTo(m, priv) else priv == sys.priv
  {
    hide BitAt, P.GetMpp, P.GetMprv;
    FieldsAt(sys.csr[0x300]);
  }

  // ----- traps of the CPU -----

  predicate PageFaultCause(cause: nat) { cause in {12, 13, 15} }

  /** The causes there are: 1, 7 and 9 for interrupts, calls from three modes and three page faults for exceptions. */
  predicate HasCause(cause: nat, interrupt: bool) { if interrupt then cause in {1, 7, 9} else cause in {8, 9, 11, 12, 13, 15} }

  /** A page fault leaves its address, and an error where it is the one of the page fault before. */
  predicate FaultNoted(s: State, t: State, fault: bool)
  {
    if fault then
      && t.prevPageFault == s.pageFault && t.prevFaultingAddress == s.faultingAddress && !t.pageFault
      && (t.error <==> s.error || (s.prevPageFault && s.prevFaultingAddress == s.faultingAddress))
    else
      t.prevPageFault == s.prevPageFault && t.prevFaultingAddress == s.prevFaultingAddress && t.pageFault == s.pageFault && t.error == s.error
  }

  /** The trap value: the faulting address of a page fault, zero otherwise. */
  function TrapValue(s: State, fault: bool): u64 { if fault then s.faultingAddress else 0 }

  ghost predicate Trapped(s: State, cause: nat, interrupt: bool, t: State)
    requires cause < 16
  {
    var fault := !interrupt && PageFaultCause(cause);
    && TrapMeans(s.sys, s.cfg, cause, interrupt, Bits64(s.pc), Bits64(TrapValue(s, fault)), P.Transfer(t.sys, Bits64(t.nextPc)))
    && FaultNoted(s, t, fault)
    && t == s.(sys := t.sys, nextPc := t.nextPc, error := t.error, pageFault := t.pageFault,
               prevPageFault := t.prevPageFault, prevFaultingAddress := t.prevFaultingAddress)
  }

  lemma CpuTrapMeans(s: State, cause: nat, interrupt: bool)
    requires cause < 16
    ensures if HasCause(cause, interrupt) then Trapped(s, cause, interrupt, Trap(s, cause, interrupt))
            else Trap(s, cause, interrupt) == s.(aborted := true)
  {
    hide P.Trap, TrapMeans, Bits64, Value64;
    var fault := !interrupt && PageFaultCause(cause);
    var pc, tval := Bits64(s.pc), Bits64(TrapValue(s, fault));
    ZeroBits();
    TrapAsDescribed(s.sys, s.cfg, cause, interrupt, pc, tval);
    BitsOfValue64(P.Trap(s.sys, s.cfg, cause, interrupt, pc, tval).nextPc);
  }

  lemma ZeroBits()
    ensures Bits64(0) == 0
  {
    Injective64(Bits64(0), 0);
  }

  /** Two page faults one after the other: the second ends the run exactly if it is at the same address. */
  lemma FaultTwice(s: State, a: u64, b: u64, c: nat, d: nat)
    requires PageFaultCause(c) && PageFaultCause(d)
    ensures var t := Trap(WithFault(s, a), c, false);
      var u := Trap(WithFault(t, b), d, false);
      (u.error <==> t.error || a == b) && !u.pageFault && u.aborted == s.aborted
  {
    hide Trap, TrapMeans, Bits64;
    CpuTrapMeans(WithFault(s, a), c, false);
    CpuTrapMeans(WithFault(Trap(WithFault(s, a), c, false), b), d, false);
  }

  // ----- the words of the system instructions -----

  /** The next address is four bytes on. */
  function Advanced(s: State): State { s.(nextPc := (s.pc + 4) % TWO64) }

  function SystemCall(imm: bv32, rs1: bv5): Decoded { Decoded(SYSTEM, 0, rs1, 0, imm) }

  lemma CallWord(imm: bv32)
    ensures Assemble(SystemCall(imm, 0)) == ((imm & 0xFFF) << 20) | 0x73
  {}

  lemma CallWords()
    ensures Assemble(SystemCall(0, 0)) == 0x73 && Assemble(SystemCall(1, 0)) == 0x10_0073
    ensures Assemble(SystemCall(0x102, 0)) == 0x1020_0073 && Assemble(SystemCall(0x302, 0)) == 0x3020_0073
  {
    hide Assemble;
    CallWord(0); CallWord(1); CallWord(0x102); CallWord(0x302);
  }

  lemma CallFits()
    ensures Fits12(0) && Fits12(1) && Fits12(0x102) && Fits12(0x302)
  {}

  lemma CallNumbers()
    ensures Imm(0) == 0 && Imm(1) == 1 && Imm(0x102) == 0x102 && Imm(0x302) == 0x302
    ensures Value32(0x73) == 0x73 && Value32(0x10_0073) == 0x10_0073 && Value32(0x1020_0073) == 0x1020_0073 && Value32(0x3020_0073) == 0x3020_0073
  {}

  /** A system instruction executes as SystemInstruction has it. */
  lemma CallExecutes(s: State, imm: bv32, rs1: bv5)
    requires Fits12(imm)
    ensures ExecuteWord(s, Value32(Assemble(SystemCall(imm, rs1)))) == Finish(SystemInstruction(Advanced(s), 0, Imm(imm)))
  {
    hide Assemble, Assemblable, Execute, Finish, ExecuteWord, DecodeWord, Used, Value32, SystemInstruction, Fits12, Imm;
    var d := SystemCall(imm, rs1);
    CallKind(d);
    MachineMode.AssembledIsLong(d);
    MachineMode.DecodeAssembled(d, s.cfg.Mxl);
    MachineMode.ExecuteDecoded(s, Value32(Assemble(d)), d);
    ExecuteCall(Advanced(s), d);
  }

  lemma CallKind(d: Decoded)
    requires d.op.SYSTEM?
    ensures Assemblable(d.op) && FormatOf(d.op).I? && !IsCsr(d.op)
  {}

  lemma ExecuteCall(s: State, d: Decoded)
    requires d.op.SYSTEM?
    ensures Execute(s, d, 0) == SystemInstruction(s, d.rd, Imm(d.imm))
  {
    hide SystemInstruction, Imm;
  }

  /** The number of the call from each mode. */
  function CallCause(priv: Privilege): nat { if priv.User? then 8 else if priv.Supervisor? then 9 else 11 }

  ghost predicate SretDone(s: State, t: State)
  {
    && t == s.(sys := t.sys, nextPc := Value64(s.sys.csr[0x141])) && Returned(s.sys, s.cfg, t.sys)
    && t.sys.priv == (if BitAt(s.sys.mstatus, 8) then Supervisor else User)
    && forall k: nat :: k < 64 ==> AfterSretAt(s.sys, t.sys.mstatus, k)
  }

  /** MPP holding two, which is no mode, ends the emulator. */
  ghost predicate MretDone(s: State, t: State)
  {
    if !BitAt(s.sys.mstatus, 11) && BitAt(s.sys.mstatus, 12) then t == s.(aborted := true)
    else
      && t == s.(sys := t.sys, nextPc := Value64(s.sys.csr[0x341])) && Returned(s.sys, s.cfg, t.sys)
      && ReturnsTo(s.sys.mstatus, t.sys.priv)
      && forall k: nat :: k < 64 ==> AfterMretAt(s.sys, t.sys.mstatus, k)
  }

  ghost predicate SystemDone(s: State, word: u32, t: State)
  {
    if word == 0x73 then Trapped(s, CallCause(s.sys.priv), false, t)
    else if word == 0x1020_0073 then SretDone(s, t)
    else if word == 0x3020_0073 then MretDone(s, t)
    else t == s
  }

  predicate IsSystemWord(word: u32) { word in {0x73, 0x10_0073, 0x1020_0073, 0x3020_0073} }

  /** ECALL, EBREAK, SRET and MRET, whatever the state. */
  lemma SystemWordMeans(s: State, word: u32) returns (t: State)
    requires IsSystemWord(word)
    ensures SystemDone(Advanced(s), word, t)
    ensures I.Finishes(t, ExecuteWord(s, word))
  {
    hide Assemble, Finish, ExecuteWord, Value32, Imm, SystemInstruction, I.Finishes, SystemDone, Fits12, Advanced;
    CallWords(); CallFits(); CallNumbers();
    var imm: bv32 := if word == 0x73 then 0 else if word == 0x10_0073 then 1 else if word == 0x1020_0073 then 0x102 else 0x302;
    CallExecutes(s, imm, 0);
    t := SystemInstruction(Advanced(s), 0, Imm(imm));
    I.FinishFinishes(t);
    CallDone(Advanced(s), word, Imm(imm));
  }

  lemma CallDone(s: State, word: u32, imm: int)
    requires (word, imm) in {(0x73, 0), (0x10_0073, 1), (0x1020_0073, 0x102), (0x3020_0073, 0x302)}
    ensures SystemDone(s, word, SystemInstruction(s, 0, imm))
  {
    hide Trap, P.Mret, P.Sret, P.GetMpp, BitAt, Trapped, Returned, ReturnsTo, AfterMretAt, AfterSretAt;
    if word == 0x73 {
      CpuTrapMeans(s, CallCause(s.sys.priv), false);
    } else if word == 0x3020_0073 {
      MretMeans(s.sys, s.cfg);
    } else if word == 0x1020_0073 {
      SretMeans(s.sys, s.cfg);
    }
  }

  /** SFENCE.VMA does nothing, whatever its registers. */
  lemma FenceWordMeans(s: State, rs1: bv5, rs2: bv5)
    ensures I.Finishes(Advanced(s), ExecuteWord(s, Value32(FenceWord(rs1, rs2))))
  {
    hide Assemble, Finish, ExecuteWord, Value32, Imm, I.Finishes, FenceWord, FenceImm, Fits12;
    FenceIs(rs1, rs2);
    FenceFits(rs2);
    FenceNumber(rs2);
    CallExecutes(s, FenceImm(rs2), rs1);
    I.FinishFinishes(Advanced(s));
  }

  function FenceWord(rs1: bv5, rs2: bv5): bv32 { 0x1200_0073 | ((rs1 as bv32) << 15) | ((rs2 as bv32) << 20) }

  function FenceImm(rs2: bv5): bv32 { 0x120 | (rs2 as bv32) }

  lemma FenceIs(rs1: bv5, rs2: bv5)
    ensures Assemble(SystemCall(FenceImm(rs2), rs1)) == FenceWord(rs1, rs2)
  {}

  lemma FenceFits(rs2: bv5)
    ensures Fits12(FenceImm(rs2))
  {}

  lemma FenceNumber(rs2: bv5)
    ensures Imm(FenceImm(rs2)) / 32 == 9
  {}

  // ----- the timer and the device lines -----

  /** The compare value: the eight bytes at 0x2004000 after a store to them, otherwise the one in use. */
  function Compare(s: State): u64 { if s.dev.timercmpUpdate then ReadData(s.mem, 0x200_4000, 8) else s.dev.nextCycle }

  predicate Fires(s: State) { s.dev.timerInterrupt || (s.dev.elapsedCycles + 1) % TWO64 == Compare(s) }

  predicate LineAt(m: bv64, m': bv64, on: bool, line: nat, k: nat) { BitAt(m', k) <==> BitAt(m, k) || (on && k == line) }

  /** Where `on`, the bit of the line is set in mip; every other bit stays, and so do mie and mstatus. */
  ghost predicate Line(s: P.Sys, t: P.Sys, on: bool, line: nat)
  {
    t.mie == s.mie && t.mstatus == s.mstatus && t.priv == s.priv && forall k: nat :: k < 64 ==> LineAt(s.mip, t.mip, on, line, k)
  }

  lemma LineOn(s: P.Sys, line: nat)
    requires line < 16
    ensures Line(s, P.SetInterruptPending(s, line), true, line)
  {
    hide P.SetInterruptPending, BitAt;
    var t := P.SetInterruptPending(s, line);
    RequestMeans(s, true, line);
    forall k: nat | k < 64 ensures LineAt(s.mip, t.mip, true, line, k) { assert RequestedAt(s.mip, t.mip, line, k); }
  }

  lemma LineOff(s: P.Sys, line: nat)
    ensures Line(s, s, false, line)
  {
    hide BitAt;
  }

  lemma LineTwice(s: P.Sys, t: P.Sys, u: P.Sys, a: bool, b: bool, line: nat)
    requires Line(s, t, a, line) && Line(t, u, b, line)
    ensures Line(s, u, a || b, line)
  {
    hide BitAt;
    var on := a || b;
    forall k: nat | k < 64 ensures LineAt(s.mip, u.mip, on, line, k) {
      assert LineAt(s.mip, t.mip, a, line, k) && LineAt(t.mip, u.mip, b, line, k);
    }
  }

  /** One cycle: the counter goes on, and line 7 is requested where it meets the compare value. */
  lemma TickMeans(s: State)
    ensures var t := TimerTick(s);
      && t == s.(dev := t.dev, sys := t.sys) && Line(s.sys, t.sys, Fires(s), 7)
      && t.dev == s.dev.(elapsedCycles := (s.dev.elapsedCycles + 1) % TWO64, nextCycle := Compare(s),
                         timercmpUpdate := false, timerInterrupt := false)
  {
    hide ReadN, P.SetInterruptPending, Line;
    if Fires(s) { LineOn(s.sys, 7); } else { LineOff(s.sys, 7); }
  }

  function Ticks(s: State, n: nat): State { if n == 0 then s else TimerTick(Ticks(s, n - 1)) }

  /** The counter meets the compare value in one of the next `n` cycles. */
  ghost predicate Meets(s: State, n: nat) { exists j: nat :: MeetsAt(s, n, j) }

  predicate MeetsAt(s: State, n: nat, j: nat) { 0 < j <= n && (s.dev.elapsedCycles + j) % TWO64 == s.dev.nextCycle }

  /** Over any number of cycles without a store to the compare register, line 7 is requested exactly if the counter meets it. */
  lemma {:induction false} TicksMean(s: State, n: nat)
    requires !s.dev.timercmpUpdate && !s.dev.timerInterrupt
    ensures var t := Ticks(s, n);
      && t.dev == s.dev.(elapsedCycles := (s.dev.elapsedCycles + n) % TWO64)
      && (BitAt(t.sys.mip, 7) <==> BitAt(s.sys.mip, 7) || Meets(s, n))
  {
    hide BitAt, TimerTick, Line, Fires, MeetsAt;
    if n == 0 {
      assert !Meets(s, 0) by { NoneMet(s); }
    } else {
      TicksMean(s, n - 1);
      var u := Ticks(s, n - 1);
      TickMeans(u);
      TickFires(s, u, n);
      LineSeven(u.sys, TimerTick(u).sys, Fires(u));
    }
  }

  lemma NoneMet(s: State)
    ensures !Meets(s, 0)
  {}

  lemma LineSeven(s: P.Sys, t: P.Sys, on: bool)
    requires Line(s, t, on, 7)
    ensures BitAt(t.mip, 7) <==> BitAt(s.mip, 7) || on
  {
    hide BitAt;
    assert LineAt(s.mip, t.mip, on, 7, 7);
  }

  lemma TickFires(s: State, u: State, n: nat)
    requires n > 0 && u.dev == s.dev.(elapsedCycles := (s.dev.elapsedCycles + (n - 1)) % TWO64)
    requires !s.dev.timercmpUpdate && !s.dev.timerInterrupt
    ensures Fires(u) <==> MeetsAt(s, n, n)
    ensures Meets(s, n) <==> Meets(s, n - 1) || MeetsAt(s, n, n)
    ensures (u.dev.elapsedCycles + 1) % TWO64 == (s.dev.elapsedCycles + n) % TWO64
  {
    NextCount(s.dev.elapsedCycles, n);
    MeetsNext(s, n);
  }

  lemma NextCount(e: nat, n: nat)
    requires n > 0
    ensures ((e + (n - 1)) % TWO64 + 1) % TWO64 == (e + n) % TWO64
  {}

  lemma MeetsNext(s: State, n: nat)
    requires n > 0
    ensures Meets(s, n) <==> Meets(s, n - 1) || MeetsAt(s, n, n)
  {
    if Meets(s, n - 1) {
      var j: nat :| MeetsAt(s, n - 1, j);
      assert MeetsAt(s, n, j);
    }
    if Meets(s, n) {
      var j: nat :| MeetsAt(s, n, j);
      if j < n { assert MeetsAt(s, n - 1, j); }
    }
  }

  /** The disk and the UART request line 9, and their flags are taken back. */
  lemma LinesMean(s: State)
    ensures var t := InterruptCheck(s);
      && t == s.(sys := t.sys, virtioInterrupt := false, uartInterrupt := false)
      && Line(s.sys, t.sys, s.virtioInterrupt || s.uartInterrupt, 9)
  {
    hide P.SetInterruptPending, Line;
    var u := DiskInterruptCheck(s);
    if s.virtioInterrupt { LineOn(s.sys, 9); } else { LineOff(s.sys, 9); }
    if s.uartInterrupt { LineOn(u.sys, 9); } else { LineOff(u.sys, 9); }
    LineTwice(s.sys, u.sys, UartInterruptCheck(u).sys, s.virtioInterrupt, s.uartInterrupt, 9);
  }

  // ----- stores to the devices -----

  /** The store covers a byte from `low` to `high`. */
  ghost predicate Covers(address: u64, width: nat, low: nat, high: nat)
  {
    exists k: nat :: k < width && InWindow(address, k, low, high)
  }

  predicate InWindow(a: nat, k: nat, low: nat, high: nat) { low <= a + k <= high }

  /** A store is remembered exactly if it covers a disk register, and reloads the timer exactly if it covers the compare register. */
  lemma DeviceWriteMeans(dev: Device, address: u64, width: nat, data: u64)
    requires width in {1, 2, 4, 8} && address + width < TWO64
    ensures var t := CheckDeviceWrite(dev, address, width, data);
      && (t.timercmpUpdate <==> dev.timercmpUpdate || Covers(address, width, 0x200_4000, 0x200_4007))
      && (if Covers(address, width, 0x1000_1000, 0x1000_10FF)
          then t.virtioWrite && t.virtioAddress == address && t.virtioWidth == width && t.virtioData == data
          else t.virtioWrite == dev.virtioWrite && t.virtioAddress == dev.virtioAddress && t.virtioWidth == dev.virtioWidth
               && t.virtioData == dev.virtioData)
      && t.elapsedCycles == dev.elapsedCycles && t.nextCycle == dev.nextCycle && t.timerInterrupt == dev.timerInterrupt
  {
    CoversExactly(address, width, 0x200_4000, 0x200_4007);
    CoversExactly(address, width, 0x1000_1000, 0x1000_10FF);
  }

  lemma CoversExactly(address: u64, width: nat, low: nat, high: nat)
    requires width > 0 && low <= high
    ensures Covers(address, width, low, high) <==> low < address + width && address <= high
  {
    if low < address + width && address <= high {
      var k := if low > address then low - address else 0;
      assert k < width && InWindow(address, k, low, high);
    }
  }

  // ----- one iteration -----

  /** The head of the loop: the program counter moves on, the timer ticks, the device lines are looked at. */
  ghost predicate Begins(s: State, t: State)
  {
    && t.pc == s.nextPc && t.regs == s.regs && t.mem == s.mem && t.nextPc == s.nextPc && t.sys.priv == s.sys.priv
    && t.dev.elapsedCycles == (s.dev.elapsedCycles + 1) % TWO64 && !t.dev.timerInterrupt && !t.virtioInterrupt && !t.uartInterrupt
    && BeginsAt(s, t, 7, Fires(s)) && BeginsAt(s, t, 9, s.virtioInterrupt || s.uartInterrupt)
    && (forall k: nat :: k < 64 && k != 7 && k != 9 ==> BeginsAt(s, t, k, false))
    && t.sys.mie == s.sys.mie && t.sys.mstatus == s.sys.mstatus
  }

  predicate BeginsAt(s: State, t: State, k: nat, on: bool) { BitAt(t.sys.mip, k) <==> BitAt(s.sys.mip, k) || on }

  lemma TickedBegins(s: State)
    ensures Begins(s, Ticked(s))
  {
    hide BitAt, TimerTick, InterruptCheck, ReadData;
    var u := s.(pc := s.nextPc);
    var v := TimerTick(u);
    TickMeans(u);
    LinesMean(v);
    assert Fires(u) == Fires(s);
    forall k: nat | k < 64
      ensures BitAt(Ticked(s).sys.mip, k) <==> BitAt(s.sys.mip, k) || (k == 7 && Fires(s)) || (k == 9 && (s.virtioInterrupt || s.uartInterrupt))
    {
      assert LineAt(u.sys.mip, v.sys.mip, Fires(u), 7, k);
      assert LineAt(v.sys.mip, InterruptCheck(v).sys.mip, s.virtioInterrupt || s.uartInterrupt, 9, k);
    }
  }

  /** The lowest interrupt that is due is taken, one without support ending the emulator; otherwise an instruction is fetched, which may fault, and executed. */
  lemma StepMeans(s: State) returns (t: State)
    ensures Begins(s, t)
    ensures (forall c: nat :: !Due(t.sys, c)) ==>
      var f := LoadCmd(t, t.pc);
      if f.s.aborted then Step(s) == f.s
      else if f.s.pageFault then Trapped(f.s, 12, false, Step(s))
      else Step(s) == ExecuteWord(f.s, f.cmd)
    ensures forall c: nat :: Due(t.sys, c) && (forall b: nat :: b < c ==> !Due(t.sys, b)) ==>
      if HasCause(c, true) then Trapped(t, c, true, Step(s)) else Step(s) == t.(aborted := true)
  {
    hide Ticked, Begins, Due, LoadCmd, ExecuteWord, Trapped, Trap, P.SelectInterrupt;
    t := Ticked(s);
    TickedBegins(s);
    SelectMeans(t.sys);
    match P.SelectInterrupt(t.sys)
    case Take(cause) => CpuTrapMeans(t, cause, true);
    case NoInterrupt => CpuTrapMeans(LoadCmd(t, t.pc).s, 12, false);
  }

  /** A run forgets how the one before it ended. */
  lemma RunForgets(s: State, e: bool, f: bool, pc: u64, limit: nat)
    ensures Run(Started(s.(error := e, end := f), pc), limit) == Run(Started(s, pc), limit)
  {
    hide Run;
    assert Started(s.(error := e, end := f), pc) == Started(s, pc);
  }
}
