/** What traps, returns and CSR instructions keep and restore. */
module PrivilegedProperties {
  import opened Words
  import opened PageWalk
  import opened Privileged

  // ----- reading the fields after they were set -----

  lemma MachineTrapFields(m: bv64, e: bool, p: bv2)
    ensures var n := SetMpp(SetMie(SetMpie(m, e), false), p);
      && GetMpie(n) == e && !GetMie(n) && GetMpp(n) == p
      && GetSie(n) == GetSie(m) && GetSpie(n) == GetSpie(m) && GetSpp(n) == GetSpp(m)
  {
    if e {} else {}
  }

  lemma MretFields(m: bv64, e: bool)
    ensures var n := SetMpp(SetMpie(SetMie(m, e), true), 0);
      && GetMie(n) == e && GetMpie(n) && GetMpp(n) == 0
      && GetSie(n) == GetSie(m) && GetSpie(n) == GetSpie(m) && GetSpp(n) == GetSpp(m)
  {
    if e {} else {}
  }

  lemma SupervisorTrapFields(m: bv64, e: bool, p: bool)
    ensures var n := SetSpp(SetSie(SetSpie(m, e), false), p);
      && GetSpie(n) == e && !GetSie(n) && GetSpp(n) == p
      && GetMie(n) == GetMie(m) && GetMpie(n) == GetMpie(m) && GetMpp(n) == GetMpp(m)
  {
    if e { if p {} else {} } else { if p {} else {} }
  }

  lemma SretFields(m: bv64, e: bool)
    ensures var n := SetSpie(SetSie(m, e), true) & !0x300;
      && GetSie(n) == e && GetSpie(n) && !GetSpp(n)
      && GetMie(n) == GetMie(m) && GetMpie(n) == GetMpie(m) && GetMpp(n) == GetMpp(m)
  {
    if e {} else {}
  }

  lemma ModeCodeInverse(p: Privilege)
    ensures ModeCode(p) != 2 && ModeOfCode(ModeCode(p)) == p
  {}

  /** What a handler must find again: the mode, and the enables as they take effect. */
  predicate SameView(s: Sys, t: Sys)
  {
    && s.priv == t.priv
    && MachineEnabled(s) == MachineEnabled(t)
    && SupervisorEnabled(s) == SupervisorEnabled(t)
  }

  /** The supervisor's own trap state, which machine mode must leave alone. */
  predicate SameSupervisorFrame(s: Sys, t: Sys)
  {
    && GetSie(s.mstatus) == GetSie(t.mstatus) && GetSpie(s.mstatus) == GetSpie(t.mstatus)
    && GetSpp(s.mstatus) == GetSpp(t.mstatus) && s.csr[SEPC] == t.csr[SEPC]
  }

  lemma AfterMachineTrap(s: Sys, cfg: Config, cause: nat, interrupt: bool, pc: bv64, tval: bv64)
    requires cause < 16 && !Delegated(s, cfg, cause, interrupt)
    ensures var t := Trap(s, cfg, cause, interrupt, pc, tval).sys;
      && t.priv == Machine && GetMpie(t.mstatus) == MachineEnabled(s) && GetMpp(t.mstatus) == ModeCode(s.priv)
      && !GetMie(t.mstatus) && t.csr[MEPC] == pc && SameSupervisorFrame(s, t)
  {
    hide GetSie, GetMie, GetSpie, GetMpie, GetSpp, GetMpp, SetMpp, SetMie, SetMpie, ModeCode, CauseValue, Bit, View;
    hide MachineEnabled, Delegated, Handler;
    MachineTrapFields(s.mstatus, MachineEnabled(s), ModeCode(s.priv));
  }

  /** A machine trap followed by MRET, from any mode. */
  lemma MachineRoundTrip(s: Sys, cfg: Config, cause: nat, interrupt: bool, pc: bv64, tval: bv64)
    requires cause < 16 && !Delegated(s, cfg, cause, interrupt)
    ensures var t := Trap(s, cfg, cause, interrupt, pc, tval).sys;
      && GetMpp(t.mstatus) != 2
      && Mret(t, cfg).nextPc == pc
      && SameView(s, Mret(t, cfg).sys) && SameSupervisorFrame(s, Mret(t, cfg).sys)
  {
    hide Trap, GetSie, GetMie, GetSpie, GetMpie, GetSpp, GetMpp, SetMpp, SetMie, SetMpie, ModeCode, ModeOfCode, View;
    AfterMachineTrap(s, cfg, cause, interrupt, pc, tval);
    ModeCodeInverse(s.priv);
    var t := Trap(s, cfg, cause, interrupt, pc, tval).sys;
    MretFields(t.mstatus, GetMpie(t.mstatus));
  }

  /** One complete visit to machine mode. */
  datatype Visit = Visit(cause: nat, interrupt: bool, pc: bv64, tval: bv64)

  function AfterVisit(s: Sys, cfg: Config, v: Visit): Sys
    requires v.cause < 16 && !Delegated(s, cfg, v.cause, v.interrupt)
  {
    MachineRoundTrip(s, cfg, v.cause, v.interrupt, v.pc, v.tval);
    Mret(Trap(s, cfg, v.cause, v.interrupt, v.pc, v.tval).sys, cfg).sys
  }

  /** The visits are possible one after the other: none of their traps is delegated. */
  predicate Visits(s: Sys, cfg: Config, vs: seq<Visit>)
    decreases |vs|
  {
    vs == [] || (vs[0].cause < 16 && !Delegated(s, cfg, vs[0].cause, vs[0].interrupt)
                 && Visits(AfterVisit(s, cfg, vs[0]), cfg, vs[1..]))
  }

  function AfterVisits(s: Sys, cfg: Config, vs: seq<Visit>): Sys
    requires Visits(s, cfg, vs)
    decreases |vs|
  {
    if vs == [] then s else AfterVisits(AfterVisit(s, cfg, vs[0]), cfg, vs[1..])
  }

  lemma {:induction false} VisitsKeep(s: Sys, cfg: Config, vs: seq<Visit>)
    requires Visits(s, cfg, vs)
    ensures SameView(s, AfterVisits(s, cfg, vs)) && SameSupervisorFrame(s, AfterVisits(s, cfg, vs))
    decreases |vs|
  {
    hide MachineEnabled, SupervisorEnabled, GetSie, GetSpie, GetSpp, Trap, Mret;
    if vs != [] {
      var v := vs[0];
      MachineRoundTrip(s, cfg, v.cause, v.interrupt, v.pc, v.tval);
      VisitsKeep(AfterVisit(s, cfg, v), cfg, vs[1..]);
    }
  }

  lemma AfterSupervisorTrap(s: Sys, cfg: Config, cause: nat, interrupt: bool, pc: bv64, tval: bv64)
    requires cause < 16 && Delegated(s, cfg, cause, interrupt)
    ensures var t := Trap(s, cfg, cause, interrupt, pc, tval).sys;
      && t.priv == Supervisor && GetSpie(t.mstatus) == SupervisorEnabled(s) && !GetSie(t.mstatus)
      && GetSpp(t.mstatus) == (s.priv == Supervisor) && t.csr[SEPC] == pc
  {
    hide GetSie, GetMie, GetSpie, GetMpie, GetSpp, GetMpp, SetSpp, SetSie, SetSpie, CauseValue, Bit, View;
    hide SupervisorEnabled, Delegated, Handler;
    SupervisorTrapFields(s.mstatus, SupervisorEnabled(s), s.priv == Supervisor);
  }

  /**
    A trap taken in supervisor mode, any number of complete visits to machine mode inside its handler,
    and SRET: the interrupted program continues where it was, in its mode, with the same enables.
   */
  lemma NestedRoundTrip(s: Sys, cfg: Config, cause: nat, interrupt: bool, pc: bv64, tval: bv64, vs: seq<Visit>)
    requires cause < 16 && Delegated(s, cfg, cause, interrupt)
    requires Visits(Trap(s, cfg, cause, interrupt, pc, tval).sys, cfg, vs)
    ensures var t := AfterVisits(Trap(s, cfg, cause, interrupt, pc, tval).sys, cfg, vs);
      && t.priv == Supervisor && !SupervisorEnabled(t)
      && Sret(t, cfg).nextPc == pc && SameView(s, Sret(t, cfg).sys)
  {
    hide Trap, Sret, AfterVisits, Visits, GetSpie, GetSie, GetSpp, MachineEnabled, SupervisorEnabled;
    AfterSupervisorTrap(s, cfg, cause, interrupt, pc, tval);
    var h := Trap(s, cfg, cause, interrupt, pc, tval).sys;
    VisitsKeep(h, cfg, vs);
    SupervisorDisabled(h);
    SretRestores(s, cfg, AfterVisits(h, cfg, vs));
  }

  lemma SupervisorDisabled(h: Sys)
    requires h.priv == Supervisor && !GetSie(h.mstatus)
    ensures !SupervisorEnabled(h)
  {}

  lemma SretRestores(s: Sys, cfg: Config, t: Sys)
    requires s.priv != Machine
    requires GetSpie(t.mstatus) == SupervisorEnabled(s) && GetSpp(t.mstatus) == (s.priv == Supervisor)
    ensures Sret(t, cfg).nextPc == t.csr[SEPC] && SameView(s, Sret(t, cfg).sys)
  {
    hide GetSie, GetMie, GetSpie, GetMpie, GetSpp, GetMpp, SetSpie, SetSie, View;
    SretFields(t.mstatus, GetSpie(t.mstatus));
  }

  // ----- the raw enable bits -----

  /** MIE itself, as opposed to the enable it stands for, comes back exactly when it was set or the trap came from machine mode. */
  lemma RawMachineEnable(s: Sys, cfg: Config, cause: nat, interrupt: bool, pc: bv64, tval: bv64)
    requires cause < 16 && !Delegated(s, cfg, cause, interrupt)
    ensures var t := Trap(s, cfg, cause, interrupt, pc, tval).sys;
      && GetMpp(t.mstatus) != 2
      && (GetMie(Mret(t, cfg).sys.mstatus) == GetMie(s.mstatus) <==> s.priv == Machine || GetMie(s.mstatus))
  {
    hide Trap, GetSie, GetMie, GetSpie, GetMpie, GetSpp, GetMpp, SetMpp, SetMie, SetMpie, ModeCode, ModeOfCode, View;
    AfterMachineTrap(s, cfg, cause, interrupt, pc, tval);
    ModeCodeInverse(s.priv);
    var t := Trap(s, cfg, cause, interrupt, pc, tval).sys;
    MretFields(t.mstatus, GetMpie(t.mstatus));
  }

  /** The same for SIE after a supervisor trap with complete visits to machine mode and SRET. */
  lemma RawSupervisorEnable(s: Sys, cfg: Config, cause: nat, interrupt: bool, pc: bv64, tval: bv64, vs: seq<Visit>)
    requires cause < 16 && Delegated(s, cfg, cause, interrupt)
    requires Visits(Trap(s, cfg, cause, interrupt, pc, tval).sys, cfg, vs)
    ensures var t := AfterVisits(Trap(s, cfg, cause, interrupt, pc, tval).sys, cfg, vs);
      GetSie(Sret(t, cfg).sys.mstatus) == GetSie(s.mstatus) <==> s.priv == Supervisor || GetSie(s.mstatus)
  {
    hide Trap, Sret, AfterVisits, Visits, GetSpie, GetSie, GetSpp, MachineEnabled;
    AfterSupervisorTrap(s, cfg, cause, interrupt, pc, tval);
    var h := Trap(s, cfg, cause, interrupt, pc, tval).sys;
    VisitsKeep(h, cfg, vs);
    SretEnable(AfterVisits(h, cfg, vs), cfg);
    DelegatedBelow(s, cfg, cause, interrupt);
  }

  lemma SretEnable(t: Sys, cfg: Config)
    ensures GetSie(Sret(t, cfg).sys.mstatus) == GetSpie(t.mstatus)
  {
    hide GetSie, GetSpie, GetSpp, SetSpie, SetSie, View;
    SretFields(t.mstatus, GetSpie(t.mstatus));
  }

  lemma DelegatedBelow(s: Sys, cfg: Config, cause: nat, interrupt: bool)
    requires cause < 16 && Delegated(s, cfg, cause, interrupt)
    ensures s.priv != Machine
  {}

  /** A user program, no enable set, and no interrupt or exception delegated but the call from user mode. */
  function Sample(): Sys { Sys(0, 0, 0, User, seq(CSR_SIZE, i => 0)[MEDELEG := 0x100]) }

  /** After a page fault taken in machine mode MIE is set, after a delegated call SIE is, though neither was. */
  lemma RawEnablesChange(cfg: Config)
    ensures var s := Sample();
      && !Delegated(s, cfg, 13, false) && Delegated(s, cfg, 8, false) && !GetMie(s.mstatus) && !GetSie(s.mstatus)
      && GetMpp(Trap(s, cfg, 13, false, 0, 0).sys.mstatus) != 2
      && GetMie(Mret(Trap(s, cfg, 13, false, 0, 0).sys, cfg).sys.mstatus)
      && GetSie(Sret(Trap(s, cfg, 8, false, 0, 0).sys, cfg).sys.mstatus)
  {
    hide Trap, Mret, Sret, GetSpie, GetSpp, GetMpp, Visits;
    var s := Sample();
    SampleBits();
    hide GetMie, GetSie;
    RawMachineEnable(s, cfg, 13, false, 0, 0);
    assert Visits(Trap(s, cfg, 8, false, 0, 0).sys, cfg, []) by { NoVisits(Trap(s, cfg, 8, false, 0, 0).sys, cfg); }
    RawSupervisorEnable(s, cfg, 8, false, 0, 0, []);
  }

  lemma NoVisits(s: Sys, cfg: Config)
    ensures Visits(s, cfg, []) && AfterVisits(s, cfg, []) == s
  {}

  lemma SampleBits()
    ensures !HasBit(0x100, Bit(13)) && HasBit(0x100, Bit(8)) && !GetMie(0) && !GetSie(0)
  {}

  /** A visit from below machine mode leaves MIE set, whatever it was. */
  lemma {:induction false} VisitsSetMachineEnable(s: Sys, cfg: Config, vs: seq<Visit>)
    requires Visits(s, cfg, vs) && s.priv != Machine
    ensures GetMie(AfterVisits(s, cfg, vs).mstatus) <==> vs != [] || GetMie(s.mstatus)
    decreases |vs|
  {
    hide GetMie, GetSie, GetSpie, GetSpp, Trap, Mret, Delegated;
    if vs != [] {
      var v := vs[0];
      MachineRoundTrip(s, cfg, v.cause, v.interrupt, v.pc, v.tval);
      RawMachineEnable(s, cfg, v.cause, v.interrupt, v.pc, v.tval);
      VisitsSetMachineEnable(AfterVisit(s, cfg, v), cfg, vs[1..]);
    }
  }

  // ----- the registers are views of one mstatus and one mie -----

  predicate Synced(s: Sys, cfg: Config)
  {
    && s.csr[USTATUS] == View(s.mstatus, UstatusMask(cfg))
    && s.csr[SSTATUS] == View(s.mstatus, SstatusMask(cfg))
    && s.csr[MSTATUS] == s.mstatus
    && s.csr[UIE] == View(s.mie, UIE_MASK)
    && s.csr[SIE] == View(s.mie, SIE_MASK)
    && s.csr[MIE] == s.mie
  }

  /** Everything that changes the privileged state. */
  datatype Action =
    | TakeTrap(cause: nat, interrupt: bool, pc: bv64, tval: bv64)
    | MachineReturn
    | SupervisorReturn
    | Csr(op: CsrOp, index: nat, operand: bv64)
    | Raise(line: nat)

  predicate Possible(s: Sys, a: Action)
  {
    match a
    case TakeTrap(cause, interrupt, _, _) => cause < 16
    case MachineReturn => GetMpp(s.mstatus) != 2
    case SupervisorReturn => true
    case Csr(_, index, _) => index < CSR_SIZE
    case Raise(line) => line in {7, 9}
  }

  function Do(s: Sys, cfg: Config, a: Action): Sys
    requires Possible(s, a)
  {
    match a
    case TakeTrap(cause, interrupt, pc, tval) => Trap(s, cfg, cause, interrupt, pc, tval).sys
    case MachineReturn => Mret(s, cfg).sys
    case SupervisorReturn => Sret(s, cfg).sys
    case Csr(op, index, operand) => CsrInstruction(s, cfg, op, index, operand)
    case Raise(line) => SetInterruptPending(s, line)
  }

  predicate Runs(s: Sys, cfg: Config, actions: seq<Action>)
    decreases |actions|
  {
    actions == [] || (Possible(s, actions[0]) && Runs(Do(s, cfg, actions[0]), cfg, actions[1..]))
  }

  function After(s: Sys, cfg: Config, actions: seq<Action>): Sys
    requires Runs(s, cfg, actions)
    decreases |actions|
  {
    if actions == [] then s else After(Do(s, cfg, actions[0]), cfg, actions[1..])
  }

  predicate EnableSynced(s: Sys)
  {
    && s.csr[UIE] == View(s.mie, UIE_MASK) && s.csr[SIE] == View(s.mie, SIE_MASK) && s.csr[MIE] == s.mie
  }

  lemma ApplyGivesViews(s: Sys, cfg: Config)
    requires EnableSynced(s)
    ensures Synced(ApplyMstatus(s, cfg), cfg)
  {
    hide View;
  }

  lemma ApplyKeepsEnable(s: Sys, cfg: Config)
    requires EnableSynced(s)
    ensures EnableSynced(ApplyMstatus(s, cfg))
  {
    hide View;
  }

  lemma ClearKeepsEnable(s: Sys, cause: nat)
    requires EnableSynced(s) && cause < 16
    ensures EnableSynced(ClearInterruptPending(s, cause))
  {
    hide View, Bit;
  }

  /** The trap registers are none of the views. */
  lemma TrapRegistersKeepEnable(s: Sys, m: bv64, priv: Privilege, a: nat, b: nat, c: nat, x: bv64, y: bv64, z: bv64)
    requires EnableSynced(s) && (a, b, c) in {(SCAUSE, SEPC, STVAL), (MCAUSE, MEPC, MTVAL)}
    ensures EnableSynced(s.(mstatus := m, priv := priv, csr := s.csr[a := x][b := y][c := z]))
  {
    hide View;
  }

  lemma TrapKeepsViews(s: Sys, cfg: Config, cause: nat, interrupt: bool, pc: bv64, tval: bv64)
    requires EnableSynced(s) && cause < 16
    ensures Synced(Trap(s, cfg, cause, interrupt, pc, tval).sys, cfg)
  {
    hide SetMpp, SetMie, SetMpie, SetSpp, SetSie, SetSpie, CauseValue, Handler, Bit, Delegated, ClearInterruptPending;
    hide MachineEnabled, SupervisorEnabled, ModeCode, EnableSynced, Synced, ApplyMstatus;
    var v := CauseValue(cfg, cause, interrupt);
    var ms := SetSpp(SetSie(SetSpie(s.mstatus, SupervisorEnabled(s)), false), s.priv == Supervisor);
    var mm := SetMpp(SetMie(SetMpie(s.mstatus, MachineEnabled(s)), false), ModeCode(s.priv));
    TrapRegistersKeepEnable(s, ms, Supervisor, SCAUSE, SEPC, STVAL, v, pc, tval);
    TrapRegistersKeepEnable(s, mm, Machine, MCAUSE, MEPC, MTVAL, v, pc, tval);
    var t := if Delegated(s, cfg, cause, interrupt)
             then TrapToSupervisor(s, cfg, cause, interrupt, pc, tval) else TrapToMachine(s, cfg, cause, interrupt, pc, tval);
    ApplyKeepsEnable(s.(mstatus := ms, priv := Supervisor, csr := s.csr[SCAUSE := v][SEPC := pc][STVAL := tval]), cfg);
    ApplyKeepsEnable(s.(mstatus := mm, priv := Machine, csr := s.csr[MCAUSE := v][MEPC := pc][MTVAL := tval]), cfg);
    ClearKeepsEnable(t, cause);
    var u := if interrupt && cause != 1 && cause != 3 then ClearInterruptPending(t, cause) else t;
    ApplyGivesViews(u, cfg);
  }

  lemma ReturnsKeepViews(s: Sys, cfg: Config)
    requires EnableSynced(s)
    ensures GetMpp(s.mstatus) != 2 ==> Synced(Mret(s, cfg).sys, cfg)
    ensures Synced(Sret(s, cfg).sys, cfg)
  {
    hide SetMpp, SetMie, SetMpie, SetSpp, SetSie, SetSpie, GetMpp, GetMpie, GetSpie, GetSpp, View, ModeOfCode;
  }

  lemma StatusUpdateKeepsViews(s: Sys, cfg: Config, csr: nat)
    requires EnableSynced(s)
    ensures Synced(UpdateMstatus(s, cfg, csr), cfg)
  {
    hide Hardwired, View, Merge, Synced, EnableSynced, UstatusMask, SstatusMask, ApplyMstatus;
    var m := if csr == USTATUS then Merge(s.mstatus, UstatusMask(cfg), s.csr[USTATUS])
             else if csr == SSTATUS then Merge(s.mstatus, SstatusMask(cfg), s.csr[SSTATUS])
             else s.csr[MSTATUS];
    SameEnable(s, s.(mstatus := Hardwired(m, cfg)));
    ApplyGivesViews(s.(mstatus := Hardwired(m, cfg)), cfg);
  }

  lemma SameEnable(s: Sys, t: Sys)
    requires EnableSynced(s) && t.csr == s.csr && t.mie == s.mie
    ensures EnableSynced(t)
  {}

  lemma EnableUpdateKeepsViews(s: Sys, t: Sys, cfg: Config, csr: nat, value: bv64)
    requires Synced(s, cfg) && csr in {UIE, SIE, MIE} && t == s.(csr := s.csr[csr := value])
    ensures Synced(UpdateInterruptEnable(t, csr), cfg)
  {
    hide View, Merge, UstatusMask, SstatusMask;
  }

  lemma PendingUpdateKeepsViews(s: Sys, t: Sys, cfg: Config, csr: nat, value: bv64)
    requires Synced(s, cfg) && csr in {UIP, SIP, MIP} && t == s.(csr := s.csr[csr := value])
    ensures Synced(UpdateInterruptPending(t, csr), cfg)
  {
    hide View, Merge, UstatusMask, SstatusMask;
  }

  lemma CsrKeepsViews(s: Sys, cfg: Config, op: CsrOp, index: nat, operand: bv64)
    requires Synced(s, cfg) && index < CSR_SIZE
    ensures Synced(CsrInstruction(s, cfg, op, index, operand), cfg)
  {
    hide CsrValue, View, UpdateMstatus, UpdateInterruptPending, UpdateInterruptEnable, UstatusMask, SstatusMask;
    var v := CsrValue(op, s.csr[index], operand);
    var t := s.(csr := s.csr[index := v]);
    if index in {USTATUS, SSTATUS, MSTATUS} { StatusUpdateKeepsViews(t, cfg, index); }
    else if index in {UIP, SIP, MIP} { PendingUpdateKeepsViews(s, t, cfg, index, v); }
    else if index in {UIE, SIE, MIE} { EnableUpdateKeepsViews(s, t, cfg, index, v); }
  }

  lemma ActionKeepsViews(s: Sys, cfg: Config, a: Action)
    requires Synced(s, cfg) && Possible(s, a)
    ensures Synced(Do(s, cfg, a), cfg)
  {
    hide Trap, Mret, Sret, CsrInstruction, View, Bit, GetMpp;
    match a {
      case TakeTrap(cause, interrupt, pc, tval) => TrapKeepsViews(s, cfg, cause, interrupt, pc, tval);
      case MachineReturn => ReturnsKeepViews(s, cfg);
      case SupervisorReturn => ReturnsKeepViews(s, cfg);
      case Csr(op, index, operand) => CsrKeepsViews(s, cfg, op, index, operand);
      case Raise(_) =>
    }
  }

  /** In every state a run of traps, returns, CSR instructions and interrupt requests leads to. */
  lemma {:induction false} ViewsAlwaysAgree(s: Sys, cfg: Config, actions: seq<Action>)
    requires Synced(s, cfg) && Runs(s, cfg, actions)
    ensures Synced(After(s, cfg, actions), cfg)
    decreases |actions|
  {
    hide Synced, Do, Possible;
    if actions != [] {
      ActionKeepsViews(s, cfg, actions[0]);
      ViewsAlwaysAgree(Do(s, cfg, actions[0]), cfg, actions[1..]);
    }
  }

  /** CSRRCI clears the bits its five-bit operand names and no others exactly when bits 63 to 32 are clear already. */
  lemma ClearImmediateExactly(t: bv64, operand: bv64)
    requires operand & !0x1F == 0
    ensures CsrValue(ClearImmediate, t, operand) == CsrValue(Clear, t, operand) <==> t & 0xFFFF_FFFF_0000_0000 == 0
  {}

  /** One such register: clearing bit 0 of the Sv39 mode in SATP also clears the mode. */
  lemma ClearImmediateLosesMode()
    ensures CsrValue(ClearImmediate, 0x8000_0000_000C_0001, 1) == 0xC_0000
  {}

  // ----- the views of the pending register are refreshed late -----

  predicate PendingSynced(s: Sys)
  {
    && s.csr[UIP] == View(s.mip, UIE_MASK) && s.csr[SIP] == View(s.mip, SIE_MASK) && s.csr[MIP] == s.mip
  }

  /** After an interrupt request the views of mip are right exactly when the request was already pending. */
  lemma PendingViewsAfterRequest(s: Sys, line: nat)
    requires PendingSynced(s) && line in {7, 9}
    ensures PendingSynced(SetInterruptPending(s, line)) <==> s.mip & Bit(line) != 0
  {
    PendingKept(s, line);
    if line == 7 { OrBit7(s.mip); } else { OrBit9(s.mip); }
  }

  lemma PendingKept(s: Sys, line: nat)
    requires line < 16
    ensures var t := SetInterruptPending(s, line);
      t.mip == s.mip | Bit(line) && t.csr[UIP] == s.csr[UIP] && t.csr[SIP] == s.csr[SIP] && t.csr[MIP] == s.csr[MIP]
  {
    hide Bit, View;
  }

  lemma OrBit7(m: bv64)
    ensures m | 0x80 == m <==> m & 0x80 != 0
  {}

  lemma OrBit9(m: bv64)
    ensures m | 0x200 == m <==> m & 0x200 != 0
  {}

  /** The timer line is one such input. */
  lemma PendingViewStale()
    ensures exists s: Sys :: PendingSynced(s) && !PendingSynced(SetInterruptPending(s, 7))
  {
    var s := Sys(0, 0, 0, Machine, seq(CSR_SIZE, i => 0));
    PendingViewsAfterRequest(s, 7);
    assert PendingSynced(s);
  }

  /** Every other access to mip brings its views up to date again. */
  lemma PendingViewsRefreshed(s: Sys, cfg: Config, op: CsrOp, csr: nat, operand: bv64)
    requires csr in {UIP, SIP, MIP}
    ensures PendingSynced(CsrInstruction(s, cfg, op, csr, operand))
  {}

  // ----- what is always right of the views of the pending register -----

  /** Bits 7 and 9, which interrupt requests set. */
  const REQUESTED: bv64 := 0x280

  predicate Close(x: bv64, y: bv64) { x & !REQUESTED == y & !REQUESTED }

  /** The views of mip are right outside the bits that requests set. */
  predicate PendingClose(s: Sys)
  {
    Close(s.csr[UIP], View(s.mip, UIE_MASK)) && Close(s.csr[SIP], View(s.mip, SIE_MASK)) && Close(s.csr[MIP], s.mip)
  }

  predicate PendingUntouched(s: Sys, t: Sys)
  {
    t.mip == s.mip && t.csr[UIP] == s.csr[UIP] && t.csr[SIP] == s.csr[SIP] && t.csr[MIP] == s.csr[MIP]
  }

  lemma UntouchedKeeps(s: Sys, t: Sys)
    requires PendingClose(s) && PendingUntouched(s, t)
    ensures PendingClose(t)
  {
    hide View, Close;
  }

  lemma RefreshedClose(s: Sys)
    ensures PendingClose(ApplyInterruptPending(s))
  {
    hide View;
  }

  lemma RaisedClose(x: bv64, m: bv64, mask: bv64)
    requires Close(x, View(m, mask))
    ensures Close(x, View(Privileged.Raise(m, Bit(7)), mask)) && Close(x, View(Privileged.Raise(m, Bit(9)), mask))
  {}

  lemma RequestKeepsClose(s: Sys, line: nat)
    requires PendingClose(s) && line in {7, 9}
    ensures PendingClose(SetInterruptPending(s, line))
  {
    hide View, Close, Bit, Privileged.Raise;
    PendingRaised(s, line);
    RaisedClose(s.csr[UIP], s.mip, UIE_MASK);
    RaisedClose(s.csr[SIP], s.mip, SIE_MASK);
    WholeView(s.mip); WholeView(Privileged.Raise(s.mip, Bit(7))); WholeView(Privileged.Raise(s.mip, Bit(9)));
    RaisedClose(s.csr[MIP], s.mip, 0xFFFF_FFFF_FFFF_FFFF);
  }

  lemma WholeView(m: bv64)
    ensures View(m, 0xFFFF_FFFF_FFFF_FFFF) == m
  {}

  lemma PendingRaised(s: Sys, line: nat)
    requires line < 16
    ensures var t := SetInterruptPending(s, line);
      t.mip == Privileged.Raise(s.mip, Bit(line)) && t.csr[UIP] == s.csr[UIP] && t.csr[SIP] == s.csr[SIP] && t.csr[MIP] == s.csr[MIP]
  {
    hide Bit, View, Privileged.Raise;
  }

  lemma StatusUntouched(s: Sys, cfg: Config)
    ensures PendingUntouched(s, ApplyMstatus(s, cfg)) && PendingUntouched(s, ApplyInterruptEnable(s))
  {
    hide View, UstatusMask, SstatusMask;
  }

  lemma TransferUntouched(s: Sys, cfg: Config, cause: nat, interrupt: bool, pc: bv64, tval: bv64)
    requires cause < 16
    ensures PendingUntouched(s, TrapToSupervisor(s, cfg, cause, interrupt, pc, tval))
    ensures PendingUntouched(s, TrapToMachine(s, cfg, cause, interrupt, pc, tval))
  {
    hide View, UstatusMask, SstatusMask, SetMpp, SetMie, SetMpie, SetSpp, SetSie, SetSpie, CauseValue, MachineEnabled, SupervisorEnabled, ModeCode;
  }

  lemma TrapKeepsClose(s: Sys, cfg: Config, cause: nat, interrupt: bool, pc: bv64, tval: bv64)
    requires PendingClose(s) && cause < 16
    ensures PendingClose(Trap(s, cfg, cause, interrupt, pc, tval).sys)
  {
    hide TrapToSupervisor, TrapToMachine, CauseValue, Handler, Delegated, ApplyMstatus, ApplyInterruptPending, PendingClose, PendingUntouched, Bit;
    var t := if Delegated(s, cfg, cause, interrupt)
             then TrapToSupervisor(s, cfg, cause, interrupt, pc, tval) else TrapToMachine(s, cfg, cause, interrupt, pc, tval);
    TransferUntouched(s, cfg, cause, interrupt, pc, tval);
    UntouchedKeeps(s, t);
    RefreshedClose(t.(mip := Lower(t.mip, Bit(cause))));
    var u := if interrupt && cause != 1 && cause != 3 then ClearInterruptPending(t, cause) else t;
    StatusUntouched(u, cfg);
    UntouchedKeeps(u, ApplyMstatus(u, cfg));
  }

  lemma ReturnsKeepClose(s: Sys, cfg: Config)
    requires PendingClose(s)
    ensures GetMpp(s.mstatus) != 2 ==> PendingClose(Mret(s, cfg).sys)
    ensures PendingClose(Sret(s, cfg).sys)
  {
    hide SetMpp, SetMie, SetMpie, SetSpie, SetSie, GetMpp, GetMpie, GetSpie, GetSpp, ModeOfCode, View, Close, UstatusMask, SstatusMask, ClearSpp;
  }

  lemma CsrKeepsClose(s: Sys, cfg: Config, op: CsrOp, index: nat, operand: bv64)
    requires PendingClose(s) && index < CSR_SIZE
    ensures PendingClose(CsrInstruction(s, cfg, op, index, operand))
  {
    hide CsrValue, ApplyInterruptPending, PendingClose, Merge, Hardwired, View, UstatusMask, SstatusMask;
    var t := s.(csr := s.csr[index := CsrValue(op, s.csr[index], operand)]);
    var u := UpdateStatus(t, cfg, index);
    if index in {UIP, SIP, MIP} {
      RefreshedClose(t.(mip := if index == MIP then t.csr[MIP]
                               else if index == UIP then Merge(t.mip, UIE_MASK, t.csr[UIP]) else Merge(t.mip, SIE_MASK, t.csr[SIP])));
    } else {
      UntouchedKeeps(s, u);
    }
  }

  lemma ActionKeepsClose(s: Sys, cfg: Config, a: Action)
    requires PendingClose(s) && Possible(s, a)
    ensures PendingClose(Do(s, cfg, a))
  {
    hide Trap, Mret, Sret, CsrInstruction, SetInterruptPending, PendingClose, GetMpp;
    match a {
      case TakeTrap(cause, interrupt, pc, tval) => TrapKeepsClose(s, cfg, cause, interrupt, pc, tval);
      case MachineReturn => ReturnsKeepClose(s, cfg);
      case SupervisorReturn => ReturnsKeepClose(s, cfg);
      case Csr(op, index, operand) => CsrKeepsClose(s, cfg, op, index, operand);
      case Raise(line) => RequestKeepsClose(s, line);
    }
  }

  /** In every state a run of actions leads to, the views of mip are right outside bits 7 and 9. */
  lemma {:induction false} PendingAlwaysClose(s: Sys, cfg: Config, actions: seq<Action>)
    requires PendingClose(s) && Runs(s, cfg, actions)
    ensures PendingClose(After(s, cfg, actions))
    decreases |actions|
  {
    hide PendingClose, Do, Possible;
    if actions != [] {
      ActionKeepsClose(s, cfg, actions[0]);
      PendingAlwaysClose(Do(s, cfg, actions[0]), cfg, actions[1..]);
    }
  }

  // ----- all views -----

  /** The views of mstatus and mie, and those of mip outside bits 7 and 9. */
  predicate AllViews(s: Sys, cfg: Config) { Synced(s, cfg) && PendingClose(s) }
}
