/**
  Whole runs behind the default tables. A machine with the tables in satp and one with no translation that
  start alike stay alike through fetches, instructions, traps and interrupts, as long as the program stays
  away from the tables and from satp.
 */
module IdentityRun {
  import opened Words
  import opened FlatMemory
  import opened PageWalk
  import opened Decoder
  import opened Alu
  import opened CpuModel
  import opened IdentityMapped
  import A = DataAccess
  import D = DefaultTables
  import F = TranslatedFetch
  import L = TranslatedLoad
  import MachineMode
  import P = Privileged
  import T = TranslatedStore

  // ----- control registers without satp -----

  function NoSatp(sys: P.Sys): P.Sys { sys.(csr := sys.csr[P.SATP := 0]) }

  /** `u` comes from `sys` by an operation that neither reads nor writes satp, as `v` does from NoSatp(sys). */
  predicate Follows(sys: P.Sys, u: P.Sys, v: P.Sys) { v == NoSatp(u) && u.csr[P.SATP] == sys.csr[P.SATP] }

  lemma OneUpdate(c: P.Csrs, i: nat, x: bv64)
    requires i < P.CSR_SIZE && i != P.SATP
    ensures c[P.SATP := 0][i := x] == c[i := x][P.SATP := 0] && c[i := x][P.SATP] == c[P.SATP]
  {}

  lemma ThreeUpdates(c: P.Csrs, i: nat, j: nat, k: nat, x: bv64, y: bv64, z: bv64)
    requires i < P.CSR_SIZE && j < P.CSR_SIZE && k < P.CSR_SIZE && P.SATP !in {i, j, k}
    ensures c[P.SATP := 0][i := x][j := y][k := z] == c[i := x][j := y][k := z][P.SATP := 0]
    ensures c[i := x][j := y][k := z][P.SATP] == c[P.SATP]
  {
    OneUpdate(c, i, x);
    OneUpdate(c[i := x], j, y);
    OneUpdate(c[i := x][j := y], k, z);
  }

  lemma StatusFollows(s: P.Sys, cfg: P.Config)
    ensures Follows(s, P.ApplyMstatus(s, cfg), P.ApplyMstatus(NoSatp(s), cfg))
  {
    hide P.View, P.UstatusMask, P.SstatusMask;
    ThreeUpdates(s.csr, P.USTATUS, P.SSTATUS, P.MSTATUS, P.View(s.mstatus, P.UstatusMask(cfg)), P.View(s.mstatus, P.SstatusMask(cfg)), s.mstatus);
  }

  lemma InterruptsFollow(s: P.Sys)
    ensures Follows(s, P.ApplyInterruptEnable(s), P.ApplyInterruptEnable(NoSatp(s)))
    ensures Follows(s, P.ApplyInterruptPending(s), P.ApplyInterruptPending(NoSatp(s)))
  {
    hide P.View;
    ThreeUpdates(s.csr, P.UIE, P.SIE, P.MIE, P.View(s.mie, P.UIE_MASK), P.View(s.mie, P.SIE_MASK), s.mie);
    ThreeUpdates(s.csr, P.UIP, P.SIP, P.MIP, P.View(s.mip, P.UIE_MASK), P.View(s.mip, P.SIE_MASK), s.mip);
  }

  lemma RequestFollows(s: P.Sys, cause: nat)
    requires cause < 16
    ensures Follows(s, P.SetInterruptPending(s, cause), P.SetInterruptPending(NoSatp(s), cause))
    ensures Follows(s, P.ClearInterruptPending(s, cause), P.ClearInterruptPending(NoSatp(s), cause))
  {
    hide P.View, P.Raise, P.Lower, P.Bit, P.ApplyInterruptEnable, P.ApplyInterruptPending;
    InterruptsFollow(s.(mip := P.Raise(s.mip, P.Bit(cause))));
    InterruptsFollow(s.(mip := P.Lower(s.mip, P.Bit(cause))));
  }

  lemma EntersFollow(s: P.Sys, cfg: P.Config, cause: nat, interrupt: bool, pc: bv64, tval: bv64)
    requires cause < 16
    ensures Follows(s, P.TrapToSupervisor(s, cfg, cause, interrupt, pc, tval), P.TrapToSupervisor(NoSatp(s), cfg, cause, interrupt, pc, tval))
    ensures Follows(s, P.TrapToMachine(s, cfg, cause, interrupt, pc, tval), P.TrapToMachine(NoSatp(s), cfg, cause, interrupt, pc, tval))
  {
    hide P.ApplyMstatus, P.SetMpp, P.SetMie, P.SetMpie, P.SetSpp, P.SetSie, P.SetSpie, P.CauseValue, P.GetMie, P.GetSie, P.ModeCode;
    var v := P.CauseValue(cfg, cause, interrupt);
    ThreeUpdates(s.csr, P.SCAUSE, P.SEPC, P.STVAL, v, pc, tval);
    ThreeUpdates(s.csr, P.MCAUSE, P.MEPC, P.MTVAL, v, pc, tval);
    var ms := P.SetSpp(P.SetSie(P.SetSpie(s.mstatus, P.SupervisorEnabled(s)), false), s.priv == Supervisor);
    var mm := P.SetMpp(P.SetMie(P.SetMpie(s.mstatus, P.MachineEnabled(s)), false), P.ModeCode(s.priv));
    StatusFollows(s.(mstatus := ms, priv := Supervisor, csr := s.csr[P.SCAUSE := v][P.SEPC := pc][P.STVAL := tval]), cfg);
    StatusFollows(s.(mstatus := mm, priv := Machine, csr := s.csr[P.MCAUSE := v][P.MEPC := pc][P.MTVAL := tval]), cfg);
  }

  predicate TransferFollows(sys: P.Sys, u: P.Transfer, v: P.Transfer) { Follows(sys, u.sys, v.sys) && u.nextPc == v.nextPc }

  lemma TrapFollows(s: P.Sys, cfg: P.Config, cause: nat, interrupt: bool, pc: bv64, tval: bv64)
    requires cause < 16
    ensures TransferFollows(s, P.Trap(s, cfg, cause, interrupt, pc, tval), P.Trap(NoSatp(s), cfg, cause, interrupt, pc, tval))
  {
    hide P.ApplyMstatus, P.TrapToSupervisor, P.TrapToMachine, P.CauseValue, P.Handler, P.ClearInterruptPending, P.DelegatedInterrupts, P.HasBit, P.Bit;
    EntersFollow(s, cfg, cause, interrupt, pc, tval);
    var t := if P.Delegated(s, cfg, cause, interrupt)
             then P.TrapToSupervisor(s, cfg, cause, interrupt, pc, tval) else P.TrapToMachine(s, cfg, cause, interrupt, pc, tval);
    RequestFollows(t, cause);
    StatusFollows(t, cfg);
    StatusFollows(P.ClearInterruptPending(t, cause), cfg);
  }

  lemma ReturnsFollow(s: P.Sys, cfg: P.Config)
    ensures P.GetMpp(s.mstatus) != 2 ==> TransferFollows(s, P.Mret(s, cfg), P.Mret(NoSatp(s), cfg))
    ensures TransferFollows(s, P.Sret(s, cfg), P.Sret(NoSatp(s), cfg))
  {
    hide P.ApplyMstatus, P.SetMpp, P.SetMie, P.SetMpie, P.SetSie, P.SetSpie, P.ClearSpp, P.GetMpp, P.GetMpie, P.GetSpie, P.GetSpp, P.ModeOfCode;
    if P.GetMpp(s.mstatus) != 2 {
      var m := P.SetMpp(P.SetMpie(P.SetMie(s.mstatus, P.GetMpie(s.mstatus)), true), 0);
      StatusFollows(s.(mstatus := m, priv := P.ModeOfCode(P.GetMpp(s.mstatus))), cfg);
    }
    var m := P.ClearSpp(P.SetSpie(P.SetSie(s.mstatus, P.GetSpie(s.mstatus)), true));
    StatusFollows(s.(mstatus := m, priv := if P.GetSpp(s.mstatus) then Supervisor else User), cfg);
  }

  lemma UpdateFollows(s: P.Sys, cfg: P.Config, csr: nat)
    ensures Follows(s, P.UpdateStatus(s, cfg, csr), P.UpdateStatus(NoSatp(s), cfg, csr))
  {
    hide P.ApplyMstatus, P.ApplyInterruptEnable, P.ApplyInterruptPending, P.Merge, P.Hardwired, P.UstatusMask, P.SstatusMask;
    if csr in {P.USTATUS, P.SSTATUS, P.MSTATUS} {
      var m := if csr == P.USTATUS then P.Merge(s.mstatus, P.UstatusMask(cfg), s.csr[P.USTATUS])
               else if csr == P.SSTATUS then P.Merge(s.mstatus, P.SstatusMask(cfg), s.csr[P.SSTATUS]) else s.csr[P.MSTATUS];
      StatusFollows(s.(mstatus := P.Hardwired(m, cfg)), cfg);
    } else if csr in {P.UIP, P.SIP, P.MIP} {
      InterruptsFollow(s.(mip := if csr == P.MIP then s.csr[P.MIP]
                                 else if csr == P.UIP then P.Merge(s.mip, P.UIE_MASK, s.csr[P.UIP]) else P.Merge(s.mip, P.SIE_MASK, s.csr[P.SIP])));
    } else if csr in {P.UIE, P.SIE, P.MIE} {
      InterruptsFollow(s.(mie := if csr == P.MIE then s.csr[P.MIE]
                                 else if csr == P.UIE then P.Merge(s.mie, P.UIE_MASK, s.csr[P.UIE]) else P.Merge(s.mie, P.SIE_MASK, s.csr[P.SIE])));
    }
  }

  lemma CsrFollows(s: P.Sys, cfg: P.Config, op: P.CsrOp, csr: nat, operand: bv64)
    requires csr < P.CSR_SIZE && csr != P.SATP
    ensures Follows(s, P.CsrInstruction(s, cfg, op, csr, operand), P.CsrInstruction(NoSatp(s), cfg, op, csr, operand))
  {
    hide P.CsrValue, P.UpdateStatus;
    var v := P.CsrValue(op, s.csr[csr], operand);
    OneUpdate(s.csr, csr, v);
    UpdateFollows(s.(csr := s.csr[csr := v]), cfg, csr);
  }

  // ----- states without satp and with another memory -----

  function Shadow(s: State, m: Mem): State { s.(sys := NoSatp(s.sys), mem := m) }

  /** `u` comes from `s` by an operation that leaves memory and satp alone, as `v` does from Shadow(s, m). */
  predicate Shadows(s: State, u: State, v: State, m: Mem)
  {
    && v == Shadow(u, m) && u.mem == s.mem && u.cfg == s.cfg && u.sys.csr[P.SATP] == s.sys.csr[P.SATP]
    && u.pageFault == s.pageFault
  }

  lemma ShadowReads(s: State, m: Mem, r: bv5)
    ensures var t := Shadow(s, m); X(t, r) == X(s, r) && t.cfg == s.cfg && t.pc == s.pc && t.nextPc == s.nextPc && t.mem == m && t.dev == s.dev
    ensures Shadows(s, s, Shadow(s, m), m)
  {}

  lemma SettersShadow(s: State, m: Mem)
    ensures forall rd: bv5, v: u64 :: Shadows(s, SetReg(s, rd, v), SetReg(Shadow(s, m), rd, v), m)
    ensures forall v: u64 :: Shadows(s, GoTo(s, v), GoTo(Shadow(s, m), v), m)
  {}

  lemma EndsShadow(s: State, m: Mem)
    ensures Shadows(s, Failed(s), Failed(Shadow(s, m)), m) && Shadows(s, Aborted(s), Aborted(Shadow(s, m)), m)
  {}

  lemma JumpsShadow(s: State, m: Mem, rd: bv5, v: u64, ends: bool)
    ensures Shadows(s, Jal(s, rd, v), Jal(Shadow(s, m), rd, v), m)
    ensures Shadows(s, Jalr(s, rd, v, ends), Jalr(Shadow(s, m), rd, v, ends), m)
  {}

  lemma TransferShadow(s: State, m: Mem, u: P.Transfer, v: P.Transfer)
    requires TransferFollows(s.sys, u, v)
    ensures Shadows(s, Transferred(s, u), Transferred(Shadow(s, m), v), m)
  {
    hide Value64;
  }

  lemma SystemShadow(s: State, m: Mem, u: P.Sys, v: P.Sys)
    requires Follows(s.sys, u, v)
    ensures Shadows(s, SetSys(s, u), SetSys(Shadow(s, m), v), m)
  {}

  lemma ShadowsAfter(s: State, u: State, v: State, w: State, x: State, m: Mem)
    requires Shadows(s, u, v, m) && Shadows(u, w, x, m)
    ensures Shadows(s, w, x, m)
  {}

  /** Traps other than page faults. */
  lemma TrapShadow(s: State, m: Mem, cause: nat, interrupt: bool)
    requires cause < 16 && (interrupt || !IsPageFault(cause))
    ensures Shadows(s, Trap(s, cause, interrupt), Trap(Shadow(s, m), cause, interrupt), m)
  {
    hide P.Trap, P.TrapSupports, Bits64, Transferred, Aborted, Shadows, TransferFollows;
    EndsShadow(s, m);
    TrapFollows(s.sys, s.cfg, cause, interrupt, Bits64(s.pc), 0);
    TransferShadow(s, m, P.Trap(s.sys, s.cfg, cause, interrupt, Bits64(s.pc), 0), P.Trap(NoSatp(s.sys), s.cfg, cause, interrupt, Bits64(s.pc), 0));
  }

  lemma InstructionShadow(s: State, m: Mem, rd: bv5, imm: int)
    ensures Shadows(s, SystemInstruction(s, rd, imm), SystemInstruction(Shadow(s, m), rd, imm), m)
  {
    hide Trap, P.Mret, P.Sret, P.GetMpp, Transferred, Failed, Aborted, Shadows, TransferFollows;
    EndsShadow(s, m);
    ShadowReads(s, m, rd);
    TrapShadow(s, m, EcallCause(s.sys.priv), false);
    ReturnsFollow(s.sys, s.cfg);
    if P.GetMpp(s.sys.mstatus) != 2 { TransferShadow(s, m, P.Mret(s.sys, s.cfg), P.Mret(NoSatp(s.sys), s.cfg)); }
    TransferShadow(s, m, P.Sret(s.sys, s.cfg), P.Sret(NoSatp(s.sys), s.cfg));
  }

  lemma CsrShadow(s: State, m: Mem, op: Op, rd: bv5, rs1: bv5, csr: nat)
    requires IsCsr(op) && csr < P.CSR_SIZE && csr != P.SATP
    ensures Shadows(s, Csr(s, op, rd, rs1, csr), Csr(Shadow(s, m), op, rd, rs1, csr), m)
  {
    hide KindOf, P.CsrInstruction, CsrOpOf, CsrOperand, X, Value64, SetReg, SetSys, Shadows, Follows;
    ShadowReads(s, m, rs1);
    var operand := CsrOperand(op, rs1, X(s, rs1));
    var u, v := P.CsrInstruction(s.sys, s.cfg, CsrOpOf(op), csr, operand), P.CsrInstruction(NoSatp(s.sys), s.cfg, CsrOpOf(op), csr, operand);
    CsrFollows(s.sys, s.cfg, CsrOpOf(op), csr, operand);
    SystemShadow(s, m, u, v);
    SettersShadow(SetSys(s, u), m);
    SetSysIs(s, m, u, v);
    var w := Value64(s.sys.csr[csr]);
    ShadowsAfter(s, SetSys(s, u), SetSys(Shadow(s, m), v), SetReg(SetSys(s, u), rd, w), SetReg(SetSys(Shadow(s, m), v), rd, w), m);
  }

  lemma SetSysIs(s: State, m: Mem, u: P.Sys, v: P.Sys)
    requires Follows(s.sys, u, v)
    ensures SetSys(Shadow(s, m), v) == Shadow(SetSys(s, u), m)
  {}

  lemma MultShadow(s: State, m: Mem, op: Op, rd: bv5, a: u64, b: u64)
    requires IsMultiplication(op)
    ensures Shadows(s, MultInstruction(s, op, rd, a, b), MultInstruction(Shadow(s, m), op, rd, a, b), m)
  {
    hide MultValue, KindOf, SetReg, Aborted, Shadows;
    ShadowReads(s, m, rd);
    SettersShadow(s, m);
    EndsShadow(s, m);
  }

  /** Every instruction but loads, stores and accesses to satp. */
  lemma ExecuteShadow(s: State, m: Mem, d: Decoded, csr: nat)
    requires csr < P.CSR_SIZE && KindOf(d.op) !in {Loading, Storing} && (IsCsr(d.op) ==> csr != P.SATP)
    ensures Shadows(s, Execute(s, d, csr), Execute(Shadow(s, m), d, csr), m)
  {
    hide KindOf, OperationValue, ImmediateValue, ShiftValue, MultInstruction, ComparisonValue, BranchTaken, Load, Store, Csr, SystemInstruction;
    hide Upper, Imm, X, Wrap64, Value32, Ends, SetReg, GoTo, Jal, Jalr, Failed, Aborted, Shadows, Shadow;
    ShadowReads(s, m, d.rs1); ShadowReads(s, m, d.rs2);
    SettersShadow(s, m);
    EndsShadow(s, m);
    EndsSame(s, m, d.rd, d.rs1, Imm(d.imm));
    match KindOf(d.op) {
      case Jump => JumpsShadow(s, m, d.rd, Wrap64(s.pc + Imm(d.imm)), false);
      case JumpRegister => JumpsShadow(s, m, d.rd, Wrap64(X(s, d.rs1) + Imm(d.imm)) / 2 * 2, Ends(s, d.rd, d.rs1, Imm(d.imm)));
      case System => InstructionShadow(s, m, d.rd, Imm(d.imm));
      case CsrAccess => CsrShadow(s, m, d.op, d.rd, d.rs1, csr);
      case Multiplication => MultShadow(s, m, d.op, d.rd, X(s, d.rs1), X(s, d.rs2));
      case _ =>
    }
  }

  lemma EndsSame(s: State, m: Mem, rd: bv5, rs1: bv5, imm: int)
    ensures Ends(Shadow(s, m), rd, rs1, imm) == Ends(s, rd, rs1, imm)
  {}

  // ----- the simulation -----

  predicate SatpSelects(sc: Scheme, s: State) { ModeOf(s.cfg.Mxl, User, Value64(s.sys.csr[P.SATP])) == Paged(sc, ROOT) }

  /** `s` has the default tables in satp; `t` is the same machine without translation. Memory differs in the tables only. */
  ghost predicate Sim(sc: Scheme, s: State, t: State)
  {
    && t == Shadow(s, t.mem) && SatpSelects(sc, s) && !s.pageFault
    && Tables(sc, s.mem) && SameElsewhere(sc, s.mem, t.mem)
  }

  lemma FollowsSim(sc: Scheme, s: State, t: State, u: State, v: State)
    requires Sim(sc, s, t) && Shadows(s, u, v, t.mem)
    ensures Sim(sc, u, v)
  {
    hide Tables, SameElsewhere;
  }

  lemma EffectiveSame(sys: P.Sys)
    ensures EffectivePrivilege(NoSatp(sys)) == EffectivePrivilege(sys)
  {
    hide P.GetMprv, P.GetMpp, P.ModeOfCode;
  }

  lemma BareWithoutSatp(t: State)
    requires t.sys.csr[P.SATP] == 0 && !t.pageFault && !t.aborted && EffectivePrivilege(t.sys).Mode?
    ensures A.Bare(t)
  {
    hide EffectivePrivilege;
    ZeroSatp();
  }

  lemma ZeroSatp()
    ensures Value64(0) == 0
  {}

  lemma BehindOrBare(sc: Scheme, s: State)
    requires SatpSelects(sc, s) && !s.pageFault && !s.aborted && EffectivePrivilege(s.sys).Mode?
    ensures T.Translated(s, sc, ROOT) || A.Bare(s)
  {
    hide EffectivePrivilege, Value64;
  }

  /** In an effective mode that exists, `t` does not translate, and `s` does through the tables or not at all. */
  lemma Modes(sc: Scheme, s: State, t: State)
    requires Sim(sc, s, t) && !s.aborted && EffectivePrivilege(t.sys).Mode?
    ensures A.Bare(t) && (T.Translated(s, sc, ROOT) || A.Bare(s))
  {
    hide Tables, SameElsewhere, EffectivePrivilege, A.Bare, T.Translated, SatpSelects;
    EffectiveSame(s.sys);
    BehindOrBare(sc, s);
    BareWithoutSatp(t);
  }

  lemma SimParts(sc: Scheme, s: State, t: State)
    requires Sim(sc, s, t)
    ensures Tables(sc, s.mem) && SameElsewhere(sc, s.mem, t.mem) && s.regs == t.regs && s.dev == t.dev && s.cfg == t.cfg
    ensures s.aborted == t.aborted && s.error == t.error && s.end == t.end && s.pc == t.pc && s.nextPc == t.nextPc && !s.pageFault
    ensures t == Shadow(s, t.mem)
  {
    hide Tables, SameElsewhere, NoSatp;
  }

  lemma LoadedSim(sc: Scheme, s: State, t: State, m: Mem, m': Mem, rd: bv5, v: u64)
    requires Sim(sc, s, t) && Tables(sc, m) && SameElsewhere(sc, m, m')
    ensures Sim(sc, SetReg(SetMem(s, m), rd, v), SetReg(SetMem(t, m'), rd, v))
  {
    hide Tables, SameElsewhere, Value64;
  }

  lemma StoredSim(sc: Scheme, s: State, t: State, m: Mem, m': Mem, d: Device)
    requires Sim(sc, s, t) && Tables(sc, m) && SameElsewhere(sc, m, m')
    ensures Sim(sc, SetDev(SetMem(s, m), d), SetDev(SetMem(t, m'), d))
    ensures Sim(sc, SetMem(s, m), SetMem(t, m'))
  {
    hide Tables, SameElsewhere, Value64;
  }

  /** A load of `s`, translated or not. */
  lemma EitherLoad(sc: Scheme, s: State, op: Op, rd: bv5, base: u64, imm: int)
    requires IsLoad(op) && (T.Translated(s, sc, ROOT) || A.Bare(s)) && Tables(sc, s.mem) && Clear(sc, Wrap64(base + imm), AccessWidthOf(op))
    ensures var u := Load(s, op, rd, base, imm);
      && u == SetReg(SetMem(s, u.mem), rd, LoadResult(op, A.LoadedBare(s, op, base, imm)))
      && SameElsewhere(sc, WriteN(s.mem, TIMER_MTIME, s.dev.elapsedCycles, 8), u.mem) && Tables(sc, u.mem)
  {
    hide Load, WriteN, AccessWidthOf, KindOf, Wrap64, Clear, Tables, SameElsewhere, SameInTables, LoadResult, T.Translated, A.Bare, SetMem, SetReg, A.LoadedBare;
    if T.Translated(s, sc, ROOT) {
      LoadThroughDefaultTables(s, sc, op, rd, base, imm);
    } else {
      A.LoadBare(s, op, rd, base, imm);
      var m := WriteN(s.mem, TIMER_MTIME, s.dev.elapsedCycles, 8);
      MtimeOutside(sc, s.mem, s.dev.elapsedCycles);
      TablesKept(sc, s.mem, m);
      SameAsItself(sc, m);
      L.MemoryOf(s, m);
      L.RegisterKeepsMemory(SetMem(s, m), rd, LoadResult(op, A.LoadedBare(s, op, base, imm)));
    }
  }

  lemma SameAsItself(sc: Scheme, m: Mem)
    ensures SameElsewhere(sc, m, m) && SameInTables(sc, m, m)
  {}

  lemma LoadSim(sc: Scheme, s: State, t: State, op: Op, rd: bv5, base: u64, imm: int)
    requires Sim(sc, s, t) && IsLoad(op) && (T.Translated(s, sc, ROOT) || A.Bare(s)) && A.Bare(t)
    requires Clear(sc, Wrap64(base + imm), AccessWidthOf(op))
    ensures Sim(sc, Load(s, op, rd, base, imm), Load(t, op, rd, base, imm))
  {
    hide Load, WriteN, ReadN, AccessWidthOf, KindOf, Wrap64, Clear, Tables, SameElsewhere, SameInTables, LoadResult, T.Translated, A.Bare, SetMem, SetReg, Sim;
    var va, width := Wrap64(base + imm), AccessWidthOf(op);
    SimParts(sc, s, t);
    EitherLoad(sc, s, op, rd, base, imm);
    A.LoadBare(t, op, rd, base, imm);
    var u := Load(s, op, rd, base, imm);
    var m, m' := WriteN(s.mem, TIMER_MTIME, s.dev.elapsedCycles, 8), WriteN(t.mem, TIMER_MTIME, t.dev.elapsedCycles, 8);
    SameWrite(sc, s.mem, t.mem, TIMER_MTIME, s.dev.elapsedCycles, 8);
    ClearReadsSame(sc, m, m', va, width, va, width);
    ElsewhereSwap(sc, m, u.mem);
    ElsewhereTransitive(sc, u.mem, m, m');
    LoadedSim(sc, s, t, u.mem, m', rd, LoadResult(op, A.LoadedBare(s, op, base, imm)));
  }

  /** A store of `s`, translated or not. */
  lemma EitherStore(sc: Scheme, s: State, op: Op, value: u64, base: u64, imm: int)
    requires IsStore(op) && (T.Translated(s, sc, ROOT) || A.Bare(s)) && Tables(sc, s.mem) && Clear(sc, Wrap64(base + imm), AccessWidthOf(op))
    ensures var va, width, u := Wrap64(base + imm), AccessWidthOf(op), Store(s, op, value, base, imm);
      && u == SetDev(SetMem(s, u.mem), CheckDeviceWrite(s.dev, va, width, value))
      && SameElsewhere(sc, u.mem, WriteN(s.mem, va, value, width)) && Tables(sc, u.mem)
  {
    hide Store, WriteN, AccessWidthOf, KindOf, Wrap64, Clear, Tables, SameElsewhere, SameInTables, T.Translated, A.Bare, SetMem, SetDev, CheckDeviceWrite;
    if T.Translated(s, sc, ROOT) {
      StoreThroughDefaultTables(s, sc, op, value, base, imm);
    } else {
      var va, width := Wrap64(base + imm), AccessWidthOf(op);
      A.StoreBare(s, op, value, base, imm);
      var m := WriteN(s.mem, va, value, width);
      ClearWrite(sc, s.mem, va, value, width);
      TablesKept(sc, s.mem, m);
      SameAsItself(sc, m);
      T.Parts(s, m, CheckDeviceWrite(s.dev, va, width, value));
    }
  }

  lemma ClearWrite(sc: Scheme, m: Mem, va: nat, value: u64, width: nat)
    requires Clear(sc, va, width) && 0 < width <= 8
    ensures SameInTables(sc, m, WriteN(m, va, value, width))
  {
    hide WriteN, InTables, Visible, Off;
    forall x | 0 <= x < SIZE && InTables(sc, x) ensures m[x] == WriteN(m, va, value, width)[x] {
      WriteAt(m, va, value, width, x);
      OffInside(x, va, width);
    }
  }

  lemma StoreSim(sc: Scheme, s: State, t: State, op: Op, value: u64, base: u64, imm: int)
    requires Sim(sc, s, t) && IsStore(op) && (T.Translated(s, sc, ROOT) || A.Bare(s)) && A.Bare(t)
    requires Clear(sc, Wrap64(base + imm), AccessWidthOf(op))
    ensures Sim(sc, Store(s, op, value, base, imm), Store(t, op, value, base, imm))
  {
    hide Store, WriteN, AccessWidthOf, KindOf, Wrap64, Clear, Tables, SameElsewhere, SameInTables, T.Translated, A.Bare, SetMem, SetDev, CheckDeviceWrite, Sim;
    var va, width := Wrap64(base + imm), AccessWidthOf(op);
    SimParts(sc, s, t);
    EitherStore(sc, s, op, value, base, imm);
    A.StoreBare(t, op, value, base, imm);
    var u := Store(s, op, value, base, imm);
    SameWrite(sc, s.mem, t.mem, va, value, width);
    ElsewhereTransitive(sc, u.mem, WriteN(s.mem, va, value, width), WriteN(t.mem, va, value, width));
    StoredSim(sc, s, t, u.mem, WriteN(t.mem, va, value, width), CheckDeviceWrite(s.dev, va, width, value));
  }

  // ----- fetching -----

  lemma HalvesSame(sc: Scheme, m: Mem, m': Mem, pc: u64)
    requires SameElsewhere(sc, m, m') && Clear(sc, pc, Length(MachineMode.FetchWord(m', pc))) && pc % 2 == 0
    ensures ReadN(m, pc, 2) == ReadN(m', pc, 2)
    ensures Length(MachineMode.FetchWord(m', pc)) == 4 <==> ReadN(m', pc, 2) % 4 == 3
    ensures ReadN(m', pc, 2) % 4 == 3 ==> ReadN(m, pc + 2, 2) == ReadN(m', pc + 2, 2)
    ensures MachineMode.FetchWord(m, pc) == MachineMode.FetchWord(m', pc)
  {
    hide ReadN, Clear, SameElsewhere, Read32;
    MachineMode.WordHalves(m, pc);
    MachineMode.WordHalves(m', pc);
    var n := Length(MachineMode.FetchWord(m', pc));
    ClearReadsSame(sc, m, m', pc, n, pc, 2);
    if n == 4 { ClearReadsSame(sc, m, m', pc, n, pc + 2, 2); }
  }

  /** Behind the tables the fetch returns the same word and sets access bits at most. */
  lemma FetchBehind(sc: Scheme, s: State, m': Mem, pc: u64)
    requires T.Translated(s, sc, ROOT) && Tables(sc, s.mem) && SameElsewhere(sc, s.mem, m')
    requires pc % 2 == 0 && Clear(sc, pc, Length(MachineMode.FetchWord(m', pc)))
    ensures var m := F.AfterFetch(sc, s.mem, ROOT, pc);
      && LoadCmd(s, pc) == Fetched(MachineMode.FetchWord(m', pc), SetMem(s, m))
      && Tables(sc, m) && SameElsewhere(sc, m, m')
  {
    hide T.Translated, Tables, SameElsewhere, SameInTables, Clear, ReadN, LoadCmd, SetMem, F.AfterFetch, F.Instruction, F.FetchMapped;
    ClearFits(sc, pc, Length(MachineMode.FetchWord(m', pc)));
    FetchMemory(sc, s.mem, m', pc);
    F.FetchTranslated(s, sc, ROOT, pc);
  }

  /** The same of the memories. */
  lemma FetchMemory(sc: Scheme, m0: Mem, m': Mem, pc: u64)
    requires Tables(sc, m0) && SameElsewhere(sc, m0, m')
    requires pc % 2 == 0 && Clear(sc, pc, Length(MachineMode.FetchWord(m', pc)))
    ensures var m := F.AfterFetch(sc, m0, ROOT, pc);
      && F.FetchMapped(sc, m0, ROOT, pc) && F.Instruction(sc, m0, ROOT, pc) == MachineMode.FetchWord(m', pc)
      && Tables(sc, m) && SameElsewhere(sc, m, m')
  {
    hide TranslateBy, Tables, SameElsewhere, SameInTables, Clear, ReadN, Read32;
    ClearFits(sc, pc, Length(MachineMode.FetchWord(m', pc)));
    var m1 := L.AfterFirst(sc, m0, ROOT, pc);
    MapsToItself(sc, m0, pc, true);
    TranslationKeeps(sc, m0, pc, false);
    ElsewhereSwap(sc, m0, m1);
    ElsewhereTransitive(sc, m1, m0, m');
    HalvesSame(sc, m1, m', pc);
    MachineMode.WordHalves(m', pc);
    PlaceSmall(sc, m0, pc);
    if ReadN(m', pc, 2) % 4 == 3 {
      var next := pc + 2;
      MapsToItself(sc, m0, next, true);
      PlaceSmall(sc, m0, next);
      TranslationKeeps(sc, m1, next, false);
      var m2 := L.AfterFirst(sc, m1, ROOT, next);
      ElsewhereSwap(sc, m1, m2);
      ElsewhereTransitive(sc, m2, m1, m');
      HalvesSame(sc, m2, m', pc);
    }
  }

  lemma PlaceSmall(sc: Scheme, m: Mem, va: u64)
    requires Tables(sc, m) && va < TWO32
    ensures T.Place(sc, m, ROOT, va, 0) == va && (va + 2 < TWO32 ==> T.Place(sc, m, ROOT, va, 2) == va + 2 && Wrap64(va + 2) == va + 2)
  {
    hide TranslateBy, Tables;
    MapsToItself(sc, m, va, true);
    if va + 2 < TWO32 { MapsToItself(sc, m, va + 2, true); }
  }

  lemma FetchSim(sc: Scheme, s: State, t: State, pc: u64)
    requires Sim(sc, s, t) && !s.aborted && (T.Translated(s, sc, ROOT) || A.Bare(s)) && A.Bare(t)
    requires pc % 2 == 0 && Clear(sc, pc, Length(MachineMode.FetchWord(t.mem, pc)))
    ensures var f, g := LoadCmd(s, pc), LoadCmd(t, pc);
      g == Fetched(MachineMode.FetchWord(t.mem, pc), t) && f.cmd == g.cmd && Sim(sc, f.s, t) && !f.s.aborted
  {
    hide T.Translated, A.Bare, Tables, SameElsewhere, Clear, LoadCmd, Sim, F.AfterFetch, MachineMode.FetchWord, SetMem, Shadow;
    SimParts(sc, s, t);
    MachineMode.FetchUntranslated(t, pc);
    if T.Translated(s, sc, ROOT) {
      FetchBehind(sc, s, t.mem, pc);
      var m := F.AfterFetch(sc, s.mem, ROOT, pc);
      StoredSim(sc, s, t, m, t.mem, s.dev);
      L.OwnMemory(t);
      SimParts(sc, SetMem(s, m), t);
    } else {
      MachineMode.FetchUntranslated(s, pc);
      HalvesSame(sc, s.mem, t.mem, pc);
    }
  }

  // ----- iterations and runs -----

  lemma TickSim(sc: Scheme, s: State, t: State)
    requires Sim(sc, s, t)
    ensures Sim(sc, Ticked(s), Ticked(t))
    ensures Ticked(s).aborted == s.aborted && Ticked(t).mem == t.mem
  {
    hide Tables, SameElsewhere, TimerTick, InterruptCheck, Shadow, Sim;
    SimParts(sc, s, t);
    var u, v := s.(pc := s.nextPc), t.(pc := t.nextPc);
    Moved(sc, s, t);
    TimerSim(sc, u, v);
    CheckSim(sc, TimerTick(u), TimerTick(v));
  }

  lemma Moved(sc: Scheme, s: State, t: State)
    requires Sim(sc, s, t)
    ensures Sim(sc, s.(pc := s.nextPc), t.(pc := t.nextPc))
  {
    hide Tables, SameElsewhere, Value64;
  }

  lemma CompareSame(sc: Scheme, m: Mem, m': Mem)
    requires SameElsewhere(sc, m, m')
    ensures Read64(m, TIMER_CMP) == Read64(m', TIMER_CMP)
  {
    hide ReadN, SameElsewhere;
    assert Clear(sc, TIMER_CMP, 8);
    ClearReadsSame(sc, m, m', TIMER_CMP, 8, TIMER_CMP, 8);
  }

  lemma TimerSim(sc: Scheme, s: State, t: State)
    requires Sim(sc, s, t)
    ensures Sim(sc, TimerTick(s), TimerTick(t)) && TimerTick(s).aborted == s.aborted && TimerTick(t).mem == t.mem
  {
    hide Tables, SameElsewhere, Read64, P.SetInterruptPending, Sim, Shadow, Follows, Shadows, SetSys;
    SimParts(sc, s, t);
    CompareSame(sc, s.mem, t.mem);
    var d := Tick(s.dev, s.mem);
    DeviceSim(sc, s, t, d); DeviceSim(sc, s, t, d.(timerInterrupt := false));
    var u, v := SetDev(s, d.(timerInterrupt := false)), SetDev(t, d.(timerInterrupt := false));
    RequestSim(sc, u, v, 7);
  }

  lemma DeviceSim(sc: Scheme, s: State, t: State, d: Device)
    requires Sim(sc, s, t)
    ensures Sim(sc, SetDev(s, d), SetDev(t, d)) && SetDev(s, d).aborted == s.aborted && SetDev(t, d).mem == t.mem
  {
    hide Tables, SameElsewhere, Value64;
  }

  lemma RequestSim(sc: Scheme, s: State, t: State, cause: nat)
    requires Sim(sc, s, t) && cause < 16
    ensures var u, v := SetSys(s, P.SetInterruptPending(s.sys, cause)), SetSys(t, P.SetInterruptPending(t.sys, cause));
      Sim(sc, u, v) && u.aborted == s.aborted && v.mem == t.mem
  {
    hide Tables, SameElsewhere, P.SetInterruptPending, Sim, Follows, Shadows;
    SimParts(sc, s, t);
    RequestFollows(s.sys, cause);
    SystemShadow(s, t.mem, P.SetInterruptPending(s.sys, cause), P.SetInterruptPending(t.sys, cause));
    FollowsSim(sc, s, t, SetSys(s, P.SetInterruptPending(s.sys, cause)), SetSys(t, P.SetInterruptPending(t.sys, cause)));
  }

  lemma FlagsSim(sc: Scheme, s: State, t: State, disk: bool, uart: bool)
    requires Sim(sc, s, t)
    ensures Sim(sc, s.(virtioInterrupt := disk, uartInterrupt := uart), t.(virtioInterrupt := disk, uartInterrupt := uart))
    ensures s.virtioInterrupt == t.virtioInterrupt && s.uartInterrupt == t.uartInterrupt
  {
    hide Tables, SameElsewhere, Value64;
  }

  lemma DiskSim(sc: Scheme, s: State, t: State)
    requires Sim(sc, s, t)
    ensures Sim(sc, DiskInterruptCheck(s), DiskInterruptCheck(t))
    ensures DiskInterruptCheck(s).aborted == s.aborted && DiskInterruptCheck(t).mem == t.mem
  {
    hide Tables, SameElsewhere, P.SetInterruptPending, Sim;
    FlagsSim(sc, s, t, false, s.uartInterrupt);
    RequestSim(sc, s.(virtioInterrupt := false), t.(virtioInterrupt := false), 9);
  }

  lemma UartSim(sc: Scheme, s: State, t: State)
    requires Sim(sc, s, t)
    ensures Sim(sc, UartInterruptCheck(s), UartInterruptCheck(t))
    ensures UartInterruptCheck(s).aborted == s.aborted && UartInterruptCheck(t).mem == t.mem
  {
    hide Tables, SameElsewhere, P.SetInterruptPending, Sim;
    FlagsSim(sc, s, t, s.virtioInterrupt, false);
    RequestSim(sc, s.(uartInterrupt := false), t.(uartInterrupt := false), 9);
  }

  lemma CheckSim(sc: Scheme, s: State, t: State)
    requires Sim(sc, s, t)
    ensures Sim(sc, InterruptCheck(s), InterruptCheck(t)) && InterruptCheck(s).aborted == s.aborted && InterruptCheck(t).mem == t.mem
  {
    hide DiskInterruptCheck, UartInterruptCheck, Sim;
    DiskSim(sc, s, t);
    UartSim(sc, DiskInterruptCheck(s), DiskInterruptCheck(t));
  }

  /** The instruction stays below 2^32, away from the tables and from satp. */
  predicate InstructionClear(sc: Scheme, t: State, d: Decoded, csr: nat)
  {
    match KindOf(d.op)
    case Loading | Storing => Clear(sc, Wrap64(X(t, d.rs1) + Imm(d.imm)), AccessWidthOf(d.op))
    case CsrAccess => csr != P.SATP
    case _ => true
  }

  lemma ExecuteSim(sc: Scheme, s: State, t: State, d: Decoded, csr: nat)
    requires Sim(sc, s, t) && !s.aborted && EffectivePrivilege(t.sys).Mode? && csr < P.CSR_SIZE && InstructionClear(sc, t, d, csr)
    ensures Sim(sc, Execute(s, d, csr), Execute(t, d, csr))
  {
    hide Sim, Load, Store, Wrap64, Imm, Clear, AccessWidthOf, Shadow, Shadows, T.Translated, A.Bare, EffectivePrivilege, KindOf, X;
    SimParts(sc, s, t);
    Modes(sc, s, t);
    SameReads(sc, s, t, d.rs1); SameReads(sc, s, t, d.rs2);
    if KindOf(d.op).Loading? {
      ExecuteLoad(s, d, csr); ExecuteLoad(t, d, csr);
      LoadSim(sc, s, t, d.op, d.rd, X(t, d.rs1), Imm(d.imm));
    } else if KindOf(d.op).Storing? {
      ExecuteStore(s, d, csr); ExecuteStore(t, d, csr);
      StoreSim(sc, s, t, d.op, X(t, d.rs2), X(t, d.rs1), Imm(d.imm));
    } else {
      hide Execute;
      ExecuteShadow(s, t.mem, d, csr);
      FollowsSim(sc, s, t, Execute(s, d, csr), Execute(t, d, csr));
    }
  }

  lemma SameReads(sc: Scheme, s: State, t: State, r: bv5)
    requires Sim(sc, s, t)
    ensures X(s, r) == X(t, r)
  {
    hide Sim;
    SimParts(sc, s, t);
  }

  lemma ExecuteLoad(s: State, d: Decoded, csr: nat)
    requires csr < P.CSR_SIZE && KindOf(d.op).Loading?
    ensures Execute(s, d, csr) == Load(s, d.op, d.rd, X(s, d.rs1), Imm(d.imm))
  {
    hide KindOf, Load, Imm, X;
  }

  lemma ExecuteStore(s: State, d: Decoded, csr: nat)
    requires csr < P.CSR_SIZE && KindOf(d.op).Storing?
    ensures Execute(s, d, csr) == Store(s, d.op, X(s, d.rs2), X(s, d.rs1), Imm(d.imm))
  {
    hide KindOf, Store, Imm, X;
  }

  lemma AdvanceSim(sc: Scheme, s: State, t: State, n: u64)
    requires Sim(sc, s, t)
    ensures Sim(sc, s.(nextPc := n), t.(nextPc := n)) && Sim(sc, Finish(s), Finish(t))
  {
    hide Tables, SameElsewhere, Value64;
  }

  /** The next iteration of the untranslated machine stays away from the tables and from satp. */
  predicate StepClear(sc: Scheme, t: State)
  {
    var u := Ticked(t);
    TakesInterrupt(t) ||
    (var cmd := MachineMode.FetchWord(u.mem, u.pc);
     && EffectivePrivilege(u.sys).Mode? && u.pc % 2 == 0 && Clear(sc, u.pc, Length(cmd))
     && InstructionClear(sc, u, DecodeWord(cmd, u.cfg.Mxl), CsrNumber(cmd)))
  }

  lemma SelectionSame(s: P.Sys)
    ensures P.SelectInterrupt(NoSatp(s)) == P.SelectInterrupt(s)
  {
    hide P.Both, P.Bit, P.GetMie, P.GetSie;
  }

  lemma SelectionSim(sc: Scheme, s: State, t: State)
    requires Sim(sc, s, t)
    ensures P.SelectInterrupt(s.sys) == P.SelectInterrupt(t.sys)
  {
    hide Tables, SameElsewhere, P.SelectInterrupt;
    SelectionSame(s.sys);
  }

  lemma StepSim(sc: Scheme, s: State, t: State)
    requires Sim(sc, s, t) && !s.aborted && StepClear(sc, t)
    ensures Sim(sc, Step(s), Step(t))
  {
    hide Sim, Ticked, Trap, P.SelectInterrupt, LoadCmd, ExecuteWord, Shadow, Shadows, Clear, InstructionClear, DecodeWord, MachineMode.FetchWord, EffectivePrivilege;
    TickSim(sc, s, t);
    var u, v := Ticked(s), Ticked(t);
    SelectionSim(sc, u, v);
    SimParts(sc, u, v);
    match P.SelectInterrupt(u.sys)
    case Take(cause) =>
      TrapShadow(u, v.mem, cause, true);
      FollowsSim(sc, u, v, Trap(u, cause, true), Trap(v, cause, true));
    case NoInterrupt =>
      Modes(sc, u, v);
      FetchSim(sc, u, v, v.pc);
      var f := LoadCmd(u, v.pc);
      SimParts(sc, f.s, v);
      WordSim(sc, f.s, v, f.cmd);
  }

  lemma WordSim(sc: Scheme, s: State, t: State, cmd: u32)
    requires Sim(sc, s, t) && !s.aborted && EffectivePrivilege(t.sys).Mode?
    requires InstructionClear(sc, t, DecodeWord(cmd, t.cfg.Mxl), CsrNumber(cmd))
    ensures Sim(sc, ExecuteWord(s, cmd), ExecuteWord(t, cmd))
  {
    hide Sim, Execute, Finish, Clear, DecodeWord, EffectivePrivilege, Wrap64;
    SimParts(sc, s, t);
    var n, d := Wrap64(t.pc + Length(cmd)), DecodeWord(cmd, t.cfg.Mxl);
    AdvanceSim(sc, s, t, n);
    assert X(t.(nextPc := n), d.rs1) == X(t, d.rs1);
    ExecuteSim(sc, s.(nextPc := n), t.(nextPc := n), d, CsrNumber(cmd));
    AdvanceSim(sc, Execute(s.(nextPc := n), d, CsrNumber(cmd)), Execute(t.(nextPc := n), d, CsrNumber(cmd)), n);
  }

  /** Every iteration of the untranslated run stays away from the tables and from satp. */
  predicate RunClear(sc: Scheme, t: State, n: nat)
    decreases n
  {
    n == 0 || Halted(t) || (StepClear(sc, t) && RunClear(sc, Step(t), n - 1))
  }

  /** Such a run behind the default tables is the untranslated run: same registers, program counter, control registers and devices, and the same memory outside the tables. */
  lemma {:induction false} RunSim(sc: Scheme, s: State, t: State, n: nat)
    requires Sim(sc, s, t) && RunClear(sc, t, n)
    ensures Sim(sc, Run(s, n), Run(t, n))
    decreases n
  {
    hide Sim, Step, StepClear;
    SimParts(sc, s, t);
    if n > 0 && !Halted(s) {
      StepSim(sc, s, t);
      RunSim(sc, Step(s), Step(t), n - 1);
    }
  }

  /** The untranslated machine `t` with paging turned on as the emulator does it, `m` being its memory with the tables built. */
  function WithPaging(t: State, m: Mem): State
  {
    t.(mem := m, sys := t.sys.(csr := t.sys.csr[P.SATP := Bits64(if t.cfg.wide then D.SATP64 else D.SATP32)]))
  }

  /** Such machines start alike. */
  lemma PagingStartsAlike(t: State, m: Mem)
    requires t.sys.csr[P.SATP] == 0 && !t.pageFault
    requires var sc := if t.cfg.wide then Sv39 else Sv32; Tables(sc, m) && SameElsewhere(sc, m, t.mem)
    ensures Sim(if t.cfg.wide then Sv39 else Sv32, WithPaging(t, m), t)
  {
    hide Tables, SameElsewhere, ModeOf, Bits64;
    D.SatpSelects(User);
    assert t.sys.csr[P.SATP := Bits64(if t.cfg.wide then D.SATP64 else D.SATP32)][P.SATP := 0] == t.sys.csr;
  }

  /** The builders put the tables there and touch nothing else. */
  lemma BuiltIsAlike(sc: Scheme, m: Mem, m': Mem)
    requires Built(sc, m') && D.SameOutside(m, m', D.LEVEL1_32, if sc == Sv32 then D.LEVEL0_32 + 0x40_0000 else D.LEVEL0_64 + 0x80_0000)
    ensures Tables(sc, m') && SameElsewhere(sc, m', m)
  {
    hide Built;
    SameAsItself(sc, m');
  }
}
