/**
  The views of mstatus and mie agree, and those of mip outside bits 7 and 9, in every state a run of the whole machine reaches, whatever
  program it executes and whatever traps and interrupts it takes.
 */
module RunInvariant {
  import opened Words
  import opened FlatMemory
  import opened PageWalk
  import opened Decoder
  import opened Alu
  import opened CpuModel
  import P = Privileged
  import Q = PrivilegedProperties

  predicate ViewsAgree(s: State) { Q.AllViews(s.sys, s.cfg) }

  lemma InitialViews(cfg: P.Config, misa: bv64)
    ensures Q.AllViews(P.Initial(cfg, misa), cfg)
  {
    hide P.UstatusMask, P.SstatusMask, Q.Close;
    ZeroViews(P.UstatusMask(cfg)); ZeroViews(P.SstatusMask(cfg)); ZeroViews(P.UIE_MASK); ZeroViews(P.SIE_MASK);
    CloseToItself(0);
    hide P.View;
  }

  lemma CloseToItself(x: bv64)
    ensures Q.Close(x, x)
  {}

  lemma ZeroViews(mask: bv64)
    ensures P.View(0, mask) == 0
  {}

  /** Updates of the rest of the state do not matter. */
  lemma Setters(s: State)
    ensures forall rd: bv5, v: u64 :: ViewsAgree(SetReg(s, rd, v)) == ViewsAgree(s)
    ensures forall m: Mem :: ViewsAgree(SetMem(s, m)) == ViewsAgree(s)
    ensures forall d: Device :: ViewsAgree(SetDev(s, d)) == ViewsAgree(s)
    ensures ViewsAgree(Failed(s)) == ViewsAgree(s) && ViewsAgree(Aborted(s)) == ViewsAgree(s)
    ensures forall sys: P.Sys :: ViewsAgree(SetSys(s, sys)) == Q.AllViews(sys, s.cfg)
    ensures forall t: P.Transfer :: ViewsAgree(Transferred(s, t)) == Q.AllViews(t.sys, s.cfg)
  {
    SystemSetters(s);
    hide Q.AllViews, Value64, SetSys, Transferred;
  }

  lemma SystemSetters(s: State)
    ensures forall sys: P.Sys :: ViewsAgree(SetSys(s, sys)) == Q.AllViews(sys, s.cfg)
    ensures forall t: P.Transfer :: ViewsAgree(Transferred(s, t)) == Q.AllViews(t.sys, s.cfg)
  {
    hide Q.AllViews, Value64;
  }

  lemma GoToKeeps(s: State)
    ensures forall target: u64 :: ViewsAgree(GoTo(s, target)) == ViewsAgree(s)
  {
    hide Q.AllViews;
  }

  lemma JumpKeeps(s: State, rd: bv5, target: u64, ends: bool)
    ensures ViewsAgree(Jal(s, rd, target)) == ViewsAgree(s) && ViewsAgree(Jalr(s, rd, target, ends)) == ViewsAgree(s)
  {
    hide Q.AllViews;
  }

  lemma FaultKeeps(s: State, va: u64)
    ensures ViewsAgree(WithFault(s, va)) == ViewsAgree(s)
  {
    hide Q.AllViews;
  }

  lemma TranslationKeeps(s: State, va: u64, write: bool)
    ensures ViewsAgree(VirtualToPhysical(s, va, write).s) == ViewsAgree(s)
  {
    hide ViewsAgree, EffectivePrivilege, Translate, TranslationMode, SetMem, WithFault, Aborted;
    Setters(s);
    var e := EffectivePrivilege(s.sys);
    if e.Mode? {
      FaultKeeps(SetMem(s, Translate(s.mem, TranslationMode(s, e.priv), va, write).mem), va);
    }
  }

  lemma SyncedIsEnableSynced(sys: P.Sys, cfg: P.Config)
    requires Q.AllViews(sys, cfg)
    ensures Q.EnableSynced(sys) && Q.PendingClose(sys) && Q.Synced(sys, cfg)
  {
    hide P.View, Q.Close;
  }

  lemma BothParts(sys: P.Sys, cfg: P.Config)
    requires Q.Synced(sys, cfg) && Q.PendingClose(sys)
    ensures Q.AllViews(sys, cfg)
  {
    hide Q.Synced, Q.PendingClose;
  }

  lemma TransferViews(s: State, t: P.Transfer)
    ensures ViewsAgree(Transferred(s, t)) == Q.AllViews(t.sys, s.cfg)
    ensures ViewsAgree(Aborted(s)) == ViewsAgree(s)
  {
    hide Q.AllViews, Value64;
  }

  lemma TrapKeeps(s: State, cause: nat, interrupt: bool)
    requires cause < 16 && ViewsAgree(s)
    ensures ViewsAgree(Trap(s, cause, interrupt))
  {
    hide Q.AllViews, P.Trap, P.TrapSupports, IsPageFault, Bits64, Transferred, Aborted, FaultRecorded;
    SyncedIsEnableSynced(s.sys, s.cfg);
    var tval := if !interrupt && IsPageFault(cause) then Bits64(s.faultingAddress) else 0;
    var t := P.Trap(s.sys, s.cfg, cause, interrupt, Bits64(s.pc), tval);
    Q.TrapKeepsViews(s.sys, s.cfg, cause, interrupt, Bits64(s.pc), tval);
    Q.TrapKeepsClose(s.sys, s.cfg, cause, interrupt, Bits64(s.pc), tval);
    BothParts(t.sys, s.cfg);
    TransferViews(s, t);
    FaultKeepsConfig(s);
    TransferViews(FaultRecorded(s), t);
    if !P.TrapSupports(cause, interrupt) {
    } else if !interrupt && IsPageFault(cause) {
    } else {
    }
  }

  lemma FaultKeepsConfig(s: State)
    ensures FaultRecorded(s).cfg == s.cfg
  {}

  lemma LoadKeeps(s: State, op: Op, rd: bv5, base: u64, imm: int)
    requires IsLoad(op) && ViewsAgree(s)
    ensures ViewsAgree(Load(s, op, rd, base, imm))
  {
    hide ViewsAgree, VirtualToPhysical, WriteN, Trap, KindOf, AccessWidthOf, GetAccessWidth, Wrap64, LoadResult, ReadData, Joined, SetReg, SetMem;
    Setters(s);
    var u := SetMem(s, WriteN(s.mem, TIMER_MTIME, s.dev.elapsedCycles, 8));
    TranslationKeeps(u, Wrap64(base + imm), false);
    var first := VirtualToPhysical(u, Wrap64(base + imm), false);
    TrapKeeps(first.s, 13, false);
    Setters(first.s);
    var next := Wrap64(first.pa + GetAccessWidth(AccessWidthOf(op), first.pa));
    TranslationKeeps(first.s, next, false);
    var second := VirtualToPhysical(first.s, next, false);
    TrapKeeps(second.s, 13, false);
    Setters(second.s);
  }

  lemma StoreKeeps(s: State, op: Op, value: u64, base: u64, imm: int)
    requires IsStore(op) && ViewsAgree(s)
    ensures ViewsAgree(Store(s, op, value, base, imm))
  {
    hide ViewsAgree, VirtualToPhysical, WriteN, Trap, KindOf, AccessWidthOf, GetAccessWidth, StoreData, Drop, CheckDeviceWrite, Wrap64, SetMem, SetDev;
    var va := Wrap64(base + imm);
    var w := GetAccessWidth(AccessWidthOf(op), va);
    TranslationKeeps(s, va, true);
    var first := VirtualToPhysical(s, va, true);
    TrapKeeps(first.s, 15, false);
    Setters(first.s);
    StoreWidth(op, va);
    var s1 := SetMem(first.s, WriteN(first.s.mem, first.pa, StoreData(value, w), w));
    Setters(s1);
    TranslationKeeps(s1, Wrap64(va + w), true);
    var second := VirtualToPhysical(s1, Wrap64(va + w), true);
    TrapKeeps(second.s, 15, false);
    Setters(second.s);
    Setters(SetMem(second.s, WriteN(second.s.mem, second.pa, Drop(value, w), AccessWidthOf(op) - w)));
  }

  lemma StoreWidth(op: Op, va: u64)
    ensures GetAccessWidth(AccessWidthOf(op), va) <= AccessWidthOf(op)
  {
    hide AccessWidthOf;
    AccessWidthBounds(AccessWidthOf(op), va);
  }

  lemma ReturnsKeep(s: State)
    requires ViewsAgree(s)
    ensures P.GetMpp(s.sys.mstatus) != 2 ==> ViewsAgree(Transferred(s, P.Mret(s.sys, s.cfg)))
    ensures ViewsAgree(Transferred(s, P.Sret(s.sys, s.cfg)))
  {
    hide Q.AllViews, Q.Synced, Q.EnableSynced, Q.PendingClose, P.Mret, P.Sret, P.GetMpp, Transferred;
    SyncedIsEnableSynced(s.sys, s.cfg);
    Q.ReturnsKeepViews(s.sys, s.cfg);
    Q.ReturnsKeepClose(s.sys, s.cfg);
    if P.GetMpp(s.sys.mstatus) != 2 {
      BothParts(P.Mret(s.sys, s.cfg).sys, s.cfg);
      TransferViews(s, P.Mret(s.sys, s.cfg));
    }
    BothParts(P.Sret(s.sys, s.cfg).sys, s.cfg);
    TransferViews(s, P.Sret(s.sys, s.cfg));
  }

  lemma SystemKeeps(s: State, rd: bv5, imm: int)
    requires ViewsAgree(s)
    ensures ViewsAgree(SystemInstruction(s, rd, imm))
  {
    hide ViewsAgree, Trap, P.Mret, P.Sret, P.GetMpp, Transferred, Failed, Aborted;
    Setters(s);
    ReturnsKeep(s);
    TrapKeeps(s, EcallCause(s.sys.priv), false);
  }

  lemma CsrKeeps(s: State, op: Op, rd: bv5, rs1: bv5, csr: nat)
    requires csr < P.CSR_SIZE && IsCsr(op) && ViewsAgree(s)
    ensures ViewsAgree(Csr(s, op, rd, rs1, csr))
  {
    hide Q.AllViews, KindOf, P.CsrInstruction, CsrOpOf, CsrOperand, X, Value64, SetReg, SetSys;
    var operand := CsrOperand(op, rs1, X(s, rs1));
    SyncedIsEnableSynced(s.sys, s.cfg);
    Q.CsrKeepsViews(s.sys, s.cfg, CsrOpOf(op), csr, operand);
    Q.CsrKeepsClose(s.sys, s.cfg, CsrOpOf(op), csr, operand);
    BothParts(P.CsrInstruction(s.sys, s.cfg, CsrOpOf(op), csr, operand), s.cfg);
    Setters(s);
    Setters(SetSys(s, P.CsrInstruction(s.sys, s.cfg, CsrOpOf(op), csr, operand)));
  }

  lemma MultKeeps(s: State, op: Op, rd: bv5, a: u64, b: u64)
    requires IsMultiplication(op) && ViewsAgree(s)
    ensures ViewsAgree(MultInstruction(s, op, rd, a, b))
  {
    hide ViewsAgree, KindOf, MultValue, SetReg, Aborted;
    Setters(s);
  }

  lemma ExecuteKeeps(s: State, d: Decoded, csr: nat)
    requires csr < P.CSR_SIZE && ViewsAgree(s)
    ensures ViewsAgree(Execute(s, d, csr))
  {
    hide ViewsAgree, KindOf, OperationValue, ImmediateValue, ShiftValue, MultInstruction, ComparisonValue, BranchTaken, Load, Store, Csr, SystemInstruction;
    hide Upper, Imm, X, Wrap64, Value32, Ends, SetReg, GoTo, Jal, Jalr, Failed, Aborted;
    Setters(s);
    GoToKeeps(s);
    match KindOf(d.op) {
      case Jump => JumpKeeps(s, d.rd, Wrap64(s.pc + Imm(d.imm)), false);
      case JumpRegister => JumpKeeps(s, d.rd, Wrap64(X(s, d.rs1) + Imm(d.imm)) / 2 * 2, Ends(s, d.rd, d.rs1, Imm(d.imm)));
      case Loading => LoadKeeps(s, d.op, d.rd, X(s, d.rs1), Imm(d.imm));
      case Storing => StoreKeeps(s, d.op, X(s, d.rs2), X(s, d.rs1), Imm(d.imm));
      case System => SystemKeeps(s, d.rd, Imm(d.imm));
      case CsrAccess => CsrKeeps(s, d.op, d.rd, d.rs1, csr);
      case Multiplication => MultKeeps(s, d.op, d.rd, X(s, d.rs1), X(s, d.rs2));
      case _ =>
    }
  }

  lemma FinishKeeps(s: State)
    ensures ViewsAgree(Finish(s)) == ViewsAgree(s)
  {
    hide Q.AllViews;
  }

  lemma RequestKeeps(sys: P.Sys, cfg: P.Config, cause: nat)
    requires cause in {7, 9} && Q.AllViews(sys, cfg)
    ensures Q.AllViews(P.SetInterruptPending(sys, cause), cfg)
  {
    hide P.SetInterruptPending, Q.Synced, Q.PendingClose;
    RequestKeepsViews(sys, cfg, cause);
    Q.RequestKeepsClose(sys, cause);
  }

  lemma RequestKeepsViews(sys: P.Sys, cfg: P.Config, cause: nat)
    requires cause in {7, 9} && Q.Synced(sys, cfg)
    ensures Q.Synced(P.SetInterruptPending(sys, cause), cfg)
  {
    hide P.View, P.Raise, P.Bit, P.UstatusMask, P.SstatusMask;
  }

  lemma TickKeeps(s: State)
    requires ViewsAgree(s)
    ensures ViewsAgree(Ticked(s))
  {
    hide Q.AllViews, Tick, P.SetInterruptPending, SetDev, SetSys;
    var u := s.(pc := s.nextPc);
    Setters(u);
    var d := Tick(u.dev, u.mem);
    Setters(SetDev(u, d)); Setters(SetDev(u, d.(timerInterrupt := false)));
    DevKeepsSys(u, d.(timerInterrupt := false));
    RequestKeeps(u.sys, u.cfg, 7);
    CheckKeeps(TimerTick(u));
  }

  lemma DevKeepsSys(s: State, d: Device)
    ensures SetDev(s, d).cfg == s.cfg
  {}

  lemma CheckKeeps(s: State)
    requires ViewsAgree(s)
    ensures ViewsAgree(InterruptCheck(s))
  {
    hide Q.AllViews, P.SetInterruptPending;
    RequestKeeps(s.sys, s.cfg, 9);
    var t := DiskInterruptCheck(s);
    RequestKeeps(t.sys, t.cfg, 9);
  }

  lemma FetchKeeps(s: State, pc: u64)
    ensures ViewsAgree(LoadCmd(s, pc).s) == ViewsAgree(s)
  {
    hide ViewsAgree, VirtualToPhysical, Read32, Wrap64;
    TranslationKeeps(s, pc, false);
    TranslationKeeps(VirtualToPhysical(s, pc, false).s, Wrap64(pc + 2), false);
  }

  lemma WordKeeps(s: State, cmd: u32)
    requires ViewsAgree(s)
    ensures ViewsAgree(ExecuteWord(s, cmd))
  {
    hide Q.AllViews, Execute, Finish, DecodeWord, Wrap64;
    var t := s.(nextPc := Wrap64(s.pc + Length(cmd)));
    ExecuteKeeps(t, DecodeWord(cmd, s.cfg.Mxl), CsrNumber(cmd));
    FinishKeeps(Execute(t, DecodeWord(cmd, s.cfg.Mxl), CsrNumber(cmd)));
  }

  lemma StepKeeps(s: State)
    requires ViewsAgree(s)
    ensures ViewsAgree(Step(s))
  {
    hide ViewsAgree, Ticked, P.SelectInterrupt, Trap, LoadCmd, ExecuteWord;
    var t := Ticked(s);
    TickKeeps(s);
    match P.SelectInterrupt(t.sys)
    case Take(cause) => TrapKeeps(t, cause, true);
    case NoInterrupt =>
      var f := LoadCmd(t, t.pc);
      FetchKeeps(t, t.pc);
      if f.s.aborted {
      } else if f.s.pageFault {
        TrapKeeps(f.s, 12, false);
      } else {
        WordKeeps(f.s, f.cmd);
      }
  }

  /** However long the machine runs, from reset or from any state in which the views agree. */
  lemma {:induction false} RunKeepsViews(s: State, n: nat)
    requires ViewsAgree(s)
    ensures ViewsAgree(Run(s, n))
    decreases n
  {
    hide ViewsAgree, Step, Halted;
    if n > 0 && !Halted(s) {
      StepKeeps(s);
      RunKeepsViews(Step(s), n - 1);
    }
  }
}
