/**
  Executing a compressed instruction and executing the 32-bit instruction it abbreviates do the same,
  apart from the length of the instruction in the link register and in the fall-through address.
 */
module CompressedExecution {
  import opened Words
  import opened FlatMemory
  import opened PageWalk
  import opened Encoding
  import opened Decoder
  import opened Alu
  import opened CpuModel
  import opened MachineMode
  import P = Privileged

  /** The state before the switch, with the following instruction at `n`. */
  function Next(s: State, n: u64): State { s.(nextPc := n) }

  /** The same but for the next program counter, which is the same as well or still `n` and `k`. */
  predicate Alike(a: State, b: State, n: u64, k: u64)
  {
    a == Next(b, a.nextPc) && (a.nextPc == b.nextPc || (a.nextPc == n && b.nextPc == k))
  }

  lemma Settled(s: State, n: u64, k: u64)
    ensures Alike(Next(s, n), Next(s, k), n, k)
    ensures forall m: Mem :: SetMem(Next(s, n), m) == Next(SetMem(s, m), n)
    ensures forall d: Device :: SetDev(Next(s, n), d) == Next(SetDev(s, d), n)
    ensures forall rd: bv5, v: u64 :: SetReg(Next(s, n), rd, v) == Next(SetReg(s, rd, v), n)
    ensures Next(s, n).mem == s.mem && Next(s, n).dev == s.dev && Next(s, n).aborted == s.aborted && Next(s, n).pageFault == s.pageFault
    ensures Next(s, n).cfg == s.cfg && Next(s, n).pc == s.pc && Next(s, n).nextPc == n && forall r: bv5 :: X(Next(s, n), r) == X(s, r)
  {}

  lemma FaultSettled(s: State, n: u64, va: u64)
    ensures WithFault(Next(s, n), va) == Next(WithFault(s, va), n)
  {}

  lemma NotedSettled(s: State, n: u64, t: Translation, va: u64)
    ensures Noted(Next(s, n), t, va) == Next(Noted(s, t, va), n)
  {
    hide SetMem, WithFault, Next;
    Settled(s, n, n);
    FaultSettled(SetMem(s, t.mem), n, va);
  }

  lemma SameSettings(s: State, n: u64, priv: Privilege)
    ensures Next(s, n).sys == s.sys && Next(s, n).mem == s.mem && TranslationMode(Next(s, n), priv) == TranslationMode(s, priv)
    ensures Aborted(Next(s, n)) == Next(Aborted(s), n)
  {
    hide ModeOf;
  }

  lemma TranslationSettled(s: State, n: u64, va: u64, write: bool)
    ensures var t := VirtualToPhysical(s, va, write);
      VirtualToPhysical(Next(s, n), va, write) == Access(t.pa, Next(t.s, n))
  {
    hide EffectivePrivilege, Translate, TranslationMode, Noted, Next, Aborted;
    var e := EffectivePrivilege(s.sys);
    SameSettings(s, n, if e.Mode? then e.priv else Machine);
    if e.Mode? {
      NotedSettled(s, n, Translate(s.mem, TranslationMode(s, e.priv), va, write), va);
    }
  }

  lemma TransferSettled(s: State, n: u64, t: P.Transfer)
    ensures Transferred(Next(s, n), t) == Transferred(s, t)
    ensures FaultRecorded(Next(s, n)) == Next(FaultRecorded(s), n)
    ensures Next(s, n).sys == s.sys && Next(s, n).cfg == s.cfg && Next(s, n).pc == s.pc && Next(s, n).faultingAddress == s.faultingAddress
  {
    hide Value64;
  }

  lemma AbortSettled(s: State, n: u64)
    ensures Aborted(Next(s, n)) == Next(Aborted(s), n)
  {}

  lemma AlikeSelf(s: State, n: u64, k: u64)
    ensures Alike(s, s, n, k)
  {}

  lemma TrapAlike(s: State, n: u64, k: u64, cause: nat, interrupt: bool)
    requires cause < 16
    ensures Alike(Trap(Next(s, n), cause, interrupt), Trap(Next(s, k), cause, interrupt), n, k)
  {
    hide P.Trap, P.TrapSupports, Bits64, Value64, IsPageFault, Transferred, FaultRecorded, Next, Alike, Aborted;
    if !P.TrapSupports(cause, interrupt) {
      AbortSettled(s, n); AbortSettled(s, k);
      Settled(Aborted(s), n, k);
    } else if !interrupt && IsPageFault(cause) {
      var t := P.Trap(s.sys, s.cfg, cause, interrupt, Bits64(s.pc), Bits64(s.faultingAddress));
      TransferSettled(s, n, t); TransferSettled(s, k, t);
      TransferSettled(FaultRecorded(s), n, t); TransferSettled(FaultRecorded(s), k, t);
      AlikeSelf(Transferred(FaultRecorded(s), t), n, k);
    } else {
      var t := P.Trap(s.sys, s.cfg, cause, interrupt, Bits64(s.pc), 0);
      TransferSettled(s, n, t); TransferSettled(s, k, t);
      AlikeSelf(Transferred(s, t), n, k);
    }
  }

  lemma LoadAlike(s: State, n: u64, k: u64, op: Op, rd: bv5, base: u64, imm: int)
    requires IsLoad(op)
    ensures Alike(Load(Next(s, n), op, rd, base, imm), Load(Next(s, k), op, rd, base, imm), n, k)
  {
    hide VirtualToPhysical, WriteN, Trap, SetMem, SetReg, KindOf, AccessWidthOf, GetAccessWidth, LoadResult, ReadData, Joined, Wrap64, Next, Alike;
    var address := Wrap64(base + imm);
    var u := SetMem(s, WriteN(s.mem, TIMER_MTIME, s.dev.elapsedCycles, 8));
    Settled(s, n, k); Settled(s, k, k);
    TranslationSettled(u, n, address, false);
    TranslationSettled(u, k, address, false);
    var first := VirtualToPhysical(u, address, false);
    Settled(first.s, n, k); Settled(first.s, k, k);
    TrapAlike(first.s, n, k, 13, false);
    var width := AccessWidthOf(op);
    AccessWidthBounds(width, first.pa);
    var next := Wrap64(first.pa + GetAccessWidth(width, first.pa));
    TranslationSettled(first.s, n, next, false);
    TranslationSettled(first.s, k, next, false);
    var second := VirtualToPhysical(first.s, next, false);
    Settled(second.s, n, k); Settled(second.s, k, k);
    TrapAlike(second.s, n, k, 13, false);
    AllRegistersAlike(first.s, n, k);
    AllRegistersAlike(second.s, n, k);
  }

  lemma AllRegistersAlike(s: State, n: u64, k: u64)
    ensures forall rd: bv5, v: u64 :: Alike(Next(SetReg(s, rd, v), n), Next(SetReg(s, rd, v), k), n, k)
  {
    forall rd: bv5, v: u64 ensures Alike(Next(SetReg(s, rd, v), n), Next(SetReg(s, rd, v), k), n, k) {
      Settled(SetReg(s, rd, v), n, k);
    }
  }

  lemma StoreAlike(s: State, n: u64, k: u64, op: Op, value: u64, base: u64, imm: int)
    requires IsStore(op)
    ensures Alike(Store(Next(s, n), op, value, base, imm), Store(Next(s, k), op, value, base, imm), n, k)
  {
    hide VirtualToPhysical, WriteN, Trap, SetMem, SetDev, KindOf, AccessWidthOf, GetAccessWidth, StoreData, Drop, CheckDeviceWrite, Wrap64, Next, Alike;
    var va, width := Wrap64(base + imm), AccessWidthOf(op);
    AccessWidthBounds(width, va);
    var w := GetAccessWidth(width, va);
    TranslationSettled(s, n, va, true);
    TranslationSettled(s, k, va, true);
    var first := VirtualToPhysical(s, va, true);
    Settled(first.s, n, k); Settled(first.s, k, k);
    TrapAlike(first.s, n, k, 15, false);
    var s1 := SetMem(first.s, WriteN(first.s.mem, first.pa, StoreData(value, w), w));
    Settled(s1, n, k); Settled(s1, k, k);
    Settled(SetDev(s1, CheckDeviceWrite(s1.dev, first.pa, width, value)), n, k);
    TranslationSettled(s1, n, Wrap64(va + w), true);
    TranslationSettled(s1, k, Wrap64(va + w), true);
    var second := VirtualToPhysical(s1, Wrap64(va + w), true);
    Settled(second.s, n, k); Settled(second.s, k, k);
    TrapAlike(second.s, n, k, 15, false);
    var s2 := SetMem(second.s, WriteN(second.s.mem, second.pa, Drop(value, w), width - w));
    Settled(s2, n, k); Settled(s2, k, k);
    Settled(SetDev(s2, CheckDeviceWrite(second.s.dev, first.pa, width, value)), n, k);
  }

  lemma MoreSettled(s: State, n: u64, k: u64)
    ensures Failed(Next(s, n)) == Next(Failed(s), n)
    ensures forall target: u64 :: GoTo(Next(s, n), target) == GoTo(s, target)
  {}

  lemma SysSettled(s: State, n: u64, sys: P.Sys)
    ensures SetSys(Next(s, n), sys) == Next(SetSys(s, sys), n)
    ensures Next(s, n).sys == s.sys
  {}

  lemma SystemAlike(s: State, n: u64, k: u64, rd: bv5, imm: int)
    ensures Alike(SystemInstruction(Next(s, n), rd, imm), SystemInstruction(Next(s, k), rd, imm), n, k)
  {
    hide P.Mret, P.Sret, P.GetMpp, Trap, Transferred, Failed, Aborted, Next, Alike;
    SameSettings(s, n, Machine); SameSettings(s, k, Machine);
    Settled(s, n, k); Settled(s, k, k);
    if imm == 0 {
      TrapAlike(s, n, k, EcallCause(s.sys.priv), false);
    } else if imm == 1 {
    } else if imm == 0x302 {
      if P.GetMpp(s.sys.mstatus) == 2 {
        AbortSettled(s, n); AbortSettled(s, k); Settled(Aborted(s), n, k);
      } else {
        var t := P.Mret(s.sys, s.cfg);
        TransferSettled(s, n, t); TransferSettled(s, k, t); AlikeSelf(Transferred(s, t), n, k);
      }
    } else if imm == 0x102 {
      var t := P.Sret(s.sys, s.cfg);
      TransferSettled(s, n, t); TransferSettled(s, k, t); AlikeSelf(Transferred(s, t), n, k);
    } else if !(imm / 32 == 9 && rd == 0) {
      MoreSettled(s, n, k); MoreSettled(s, k, k); Settled(Failed(s), n, k);
    }
  }

  lemma CsrAlike(s: State, n: u64, k: u64, op: Op, rd: bv5, rs1: bv5, csr: nat)
    requires IsCsr(op) && csr < P.CSR_SIZE
    ensures Alike(Csr(Next(s, n), op, rd, rs1, csr), Csr(Next(s, k), op, rd, rs1, csr), n, k)
  {
    hide P.CsrInstruction, CsrOpOf, CsrOperand, Bits64, Value64, KindOf, SetReg, SetSys, X, Next, Alike;
    var operand := CsrOperand(op, rs1, X(s, rs1));
    var sys := P.CsrInstruction(s.sys, s.cfg, CsrOpOf(op), csr, operand);
    Settled(s, n, k); Settled(s, k, k);
    SysSettled(s, n, sys); SysSettled(s, k, sys);
    Settled(SetSys(s, sys), n, k); Settled(SetSys(s, sys), k, k);
    AllRegistersAlike(SetSys(s, sys), n, k);
  }

  lemma MultAlike(s: State, n: u64, k: u64, op: Op, rd: bv5, a: u64, b: u64)
    requires IsMultiplication(op)
    ensures Alike(MultInstruction(Next(s, n), op, rd, a, b), MultInstruction(Next(s, k), op, rd, a, b), n, k)
  {
    hide MultValue, KindOf, SetReg, Next, Alike, Aborted;
    Settled(s, n, k); Settled(s, k, k);
    AllRegistersAlike(s, n, k);
    if !MultValue(s.cfg.Xlen, op, a, b).Value? {
      AbortSettled(s, n); AbortSettled(s, k); Settled(Aborted(s), n, k);
    }
  }

  /** Every instruction but the jumps with a link. */
  lemma ExecuteAlike(s: State, n: u64, k: u64, d: Decoded, csr: nat)
    requires csr < P.CSR_SIZE && KindOf(d.op) !in {Jump, JumpRegister}
    ensures Alike(Execute(Next(s, n), d, csr), Execute(Next(s, k), d, csr), n, k)
  {
    hide KindOf, OperationValue, ImmediateValue, ShiftValue, MultInstruction, ComparisonValue, BranchTaken, Load, Store, Csr, SystemInstruction;
    hide Upper, SetReg, Imm, X, Next, Alike, GoTo, Failed, Aborted, Wrap64, Value32;
    Settled(s, n, k); Settled(s, k, k);
    MoreSettled(s, n, k); MoreSettled(s, k, k);
    AllRegistersAlike(s, n, k);
    var a, b, imm := X(s, d.rs1), X(s, d.rs2), Imm(d.imm);
    match KindOf(d.op)
    case Branch => AlikeSelf(GoTo(s, Wrap64(s.pc + imm)), n, k);
    case Loading => LoadAlike(s, n, k, d.op, d.rd, a, imm);
    case Storing => StoreAlike(s, n, k, d.op, b, a, imm);
    case System => SystemAlike(s, n, k, d.rd, imm);
    case CsrAccess => CsrAlike(s, n, k, d.op, d.rd, d.rs1, csr);
    case Multiplication => MultAlike(s, n, k, d.op, d.rd, a, b);
    case Atomic => AbortSettled(s, n); AbortSettled(s, k); Settled(Aborted(s), n, k);
    case Illegal => Settled(Failed(s), n, k);
    case _ =>
  }

  // ----- the program counter itself is not touched by the switch -----

  lemma TranslationKeepsPc(s: State, va: u64, write: bool)
    ensures VirtualToPhysical(s, va, write).s.pc == s.pc
  {
    hide EffectivePrivilege, Translate, TranslationMode;
  }

  lemma TrapKeepsPc(s: State, cause: nat, interrupt: bool)
    requires cause < 16
    ensures Trap(s, cause, interrupt).pc == s.pc
  {
    hide P.Trap, P.TrapSupports, Bits64, Value64;
  }

  lemma LoadKeepsPc(s: State, op: Op, rd: bv5, base: u64, imm: int)
    requires IsLoad(op)
    ensures Load(s, op, rd, base, imm).pc == s.pc
  {
    hide VirtualToPhysical, WriteN, Trap, KindOf, AccessWidthOf, GetAccessWidth, Wrap64, LoadResult, ReadData, Joined, SetReg;
    var u := SetMem(s, WriteN(s.mem, TIMER_MTIME, s.dev.elapsedCycles, 8));
    var first := VirtualToPhysical(u, Wrap64(base + imm), false);
    TranslationKeepsPc(u, Wrap64(base + imm), false);
    TrapKeepsPc(first.s, 13, false);
    SettersKeepPc(first.s);
    var next := Wrap64(first.pa + GetAccessWidth(AccessWidthOf(op), first.pa));
    TranslationKeepsPc(first.s, next, false);
    var second := VirtualToPhysical(first.s, next, false);
    TrapKeepsPc(second.s, 13, false);
    SettersKeepPc(second.s);
  }

  lemma StoreKeepsPc(s: State, op: Op, value: u64, base: u64, imm: int)
    requires IsStore(op)
    ensures Store(s, op, value, base, imm).pc == s.pc
  {
    hide VirtualToPhysical, WriteN, Trap, KindOf, AccessWidthOf, GetAccessWidth, StoreData, Drop, CheckDeviceWrite, Wrap64;
    var va := Wrap64(base + imm);
    var w := GetAccessWidth(AccessWidthOf(op), va);
    var first := VirtualToPhysical(s, va, true);
    TranslationKeepsPc(s, va, true);
    TrapKeepsPc(first.s, 15, false);
    var s1 := SetMem(first.s, WriteN(first.s.mem, first.pa, StoreData(value, w), w));
    TranslationKeepsPc(s1, Wrap64(va + w), true);
    TrapKeepsPc(VirtualToPhysical(s1, Wrap64(va + w), true).s, 15, false);
  }

  lemma SettersKeepPc(s: State)
    ensures forall rd: bv5, v: u64 :: SetReg(s, rd, v).pc == s.pc
    ensures forall target: u64 :: GoTo(s, target).pc == s.pc
    ensures forall rd: bv5, target: u64 :: Jal(s, rd, target).pc == s.pc
    ensures forall rd: bv5, target: u64, ends: bool :: Jalr(s, rd, target, ends).pc == s.pc
    ensures forall sys: P.Sys :: SetSys(s, sys).pc == s.pc
    ensures forall t: P.Transfer :: Transferred(s, t).pc == s.pc
    ensures Failed(s).pc == s.pc && Aborted(s).pc == s.pc
  {
    hide Value64;
  }

  lemma SystemKeepsPc(s: State, rd: bv5, imm: int)
    ensures SystemInstruction(s, rd, imm).pc == s.pc
  {
    hide Trap, P.Mret, P.Sret, P.GetMpp, Transferred, Failed, Aborted;
    SettersKeepPc(s);
    TrapKeepsPc(s, EcallCause(s.sys.priv), false);
  }

  lemma CsrKeepsPc(s: State, op: Op, rd: bv5, rs1: bv5, csr: nat)
    requires csr < P.CSR_SIZE && IsCsr(op)
    ensures Csr(s, op, rd, rs1, csr).pc == s.pc
  {
    hide KindOf, P.CsrInstruction, CsrOpOf, CsrOperand, X, Value64, SetReg, SetSys;
    SettersKeepPc(s);
    SettersKeepPc(SetSys(s, P.CsrInstruction(s.sys, s.cfg, CsrOpOf(op), csr, CsrOperand(op, rs1, X(s, rs1)))));
  }

  lemma MultKeepsPc(s: State, op: Op, rd: bv5, a: u64, b: u64)
    requires IsMultiplication(op)
    ensures MultInstruction(s, op, rd, a, b).pc == s.pc
  {
    hide KindOf, MultValue, SetReg, Aborted;
    SettersKeepPc(s);
  }

  lemma ExecuteKeepsPc(s: State, d: Decoded, csr: nat)
    requires csr < P.CSR_SIZE
    ensures Execute(s, d, csr).pc == s.pc
  {
    hide KindOf, OperationValue, ImmediateValue, ShiftValue, MultInstruction, ComparisonValue, BranchTaken, Load, Store, Csr, SystemInstruction;
    hide Upper, Imm, X, Wrap64, Value32, Ends, SetReg, GoTo, Jal, Jalr, Failed, Aborted;
    SettersKeepPc(s);
    match KindOf(d.op) {
      case Loading => LoadKeepsPc(s, d.op, d.rd, X(s, d.rs1), Imm(d.imm));
      case Storing => StoreKeepsPc(s, d.op, X(s, d.rs2), X(s, d.rs1), Imm(d.imm));
      case System => SystemKeepsPc(s, d.rd, Imm(d.imm));
      case CsrAccess => CsrKeepsPc(s, d.op, d.rd, d.rs1, csr);
      case Multiplication => MultKeepsPc(s, d.op, d.rd, X(s, d.rs1), X(s, d.rs2));
      case _ =>
    }
  }

  // ----- the comparison of the two forms -----

  function With(s: State, regs: Regs, n: u64): State { s.(regs := regs, nextPc := n) }

  /**
    Two states that differ at most in the length of the instruction: `n` and `k` are the addresses
    behind the short and behind the long form.
   */
  ghost predicate SameEffect(a: State, b: State, n: u64, k: u64, linked: bool, rd: bv5)
  {
    && a == With(b, a.regs, a.nextPc)
    && (a.nextPc == b.nextPc || (a.nextPc == n && b.nextPc == k))
    && forall r: bv5 :: X(a, r) == X(b, r) || (linked && r == rd && X(a, r) == n && X(b, r) == k)
  }

  predicate Links(op: Op) { op == JAL || op == JALR }

  lemma AlikeIsSame(a: State, b: State, n: u64, k: u64, linked: bool, rd: bv5)
    requires Alike(a, b, n, k)
    ensures SameEffect(a, b, n, k, linked, rd)
  {
    assert a.regs == b.regs;
  }

  lemma LinksAre(op: Op)
    ensures Links(op) <==> KindOf(op) in {Jump, JumpRegister}
  {}

  /** The state after a jump, with the simulator's two flags. */
  function Jumped(s: State, regs: Regs, target: u64, error: bool, end: bool): State
  {
    s.(regs := regs, nextPc := target, error := error, end := end)
  }

  function PutLink(regs: Regs, rd: bv5, n: u64): Regs { regs[rd as nat := n] }

  lemma JalSettled(s: State, n: u64, rd: bv5, target: u64)
    ensures Jal(Next(s, n), rd, target) == Jumped(s, PutLink(s.regs, rd, n), target, s.error || target == s.pc, s.end)
  {}

  lemma JalrSettled(s: State, n: u64, rd: bv5, target: u64, ends: bool)
    ensures Jalr(Next(s, n), rd, target, ends) == Jumped(s, PutLink(s.regs, rd, n), target, s.error, s.end || ends)
  {}

  lemma JumpedSame(s: State, n: u64, k: u64, rd: bv5, target: u64, error: bool, end: bool)
    ensures SameEffect(Jumped(s, PutLink(s.regs, rd, n), target, error, end), Jumped(s, PutLink(s.regs, rd, k), target, error, end), n, k, true, rd)
  {
    var a, b := Jumped(s, PutLink(s.regs, rd, n), target, error, end), Jumped(s, PutLink(s.regs, rd, k), target, error, end);
    forall r: bv5 ensures X(a, r) == X(b, r) || (r == rd && X(a, r) == n && X(b, r) == k) {
      if r as nat == rd as nat { SameNumber(r, rd); }
    }
  }

  lemma LinkingKind(op: Op)
    requires Links(op)
    ensures KindOf(op) == if op == JAL then Jump else JumpRegister
  {}

  lemma ExecutesJump(s: State, d: Decoded, csr: nat)
    requires csr < P.CSR_SIZE && Links(d.op)
    ensures Execute(s, d, csr) ==
            if d.op == JAL then Jal(s, d.rd, Wrap64(s.pc + Imm(d.imm)))
            else Jalr(s, d.rd, Wrap64(X(s, d.rs1) + Imm(d.imm)) / 2 * 2, Ends(s, d.rd, d.rs1, Imm(d.imm)))
  {
    hide Imm, Wrap64, Jal, Jalr, X, Ends, KindOf;
    LinkingKind(d.op);
  }

  lemma JalDiffers(s: State, n: u64, k: u64, rd: bv5, target: u64)
    ensures SameEffect(Jal(Next(s, n), rd, target), Jal(Next(s, k), rd, target), n, k, true, rd)
  {
    hide Jal, Jumped, SameEffect, Next, PutLink;
    JalSettled(s, n, rd, target);
    JalSettled(s, k, rd, target);
    JumpedSame(s, n, k, rd, target, s.error || target == s.pc, s.end);
  }

  lemma JalrDiffers(s: State, n: u64, k: u64, rd: bv5, target: u64, ends: bool)
    ensures SameEffect(Jalr(Next(s, n), rd, target, ends), Jalr(Next(s, k), rd, target, ends), n, k, true, rd)
  {
    hide Jalr, Jumped, SameEffect, Next, PutLink;
    JalrSettled(s, n, rd, target, ends);
    JalrSettled(s, k, rd, target, ends);
    JumpedSame(s, n, k, rd, target, s.error, s.end || ends);
  }

  lemma JumpsDiffer(s: State, n: u64, k: u64, d: Decoded, csr: nat)
    requires csr < P.CSR_SIZE && Links(d.op)
    ensures SameEffect(Execute(Next(s, n), d, csr), Execute(Next(s, k), d, csr), n, k, true, d.rd)
  {
    hide Imm, Wrap64, Execute, Jal, Jalr, SameEffect, Next, X, Ends, Links;
    var imm := Imm(d.imm);
    ExecutesJump(Next(s, n), d, csr); ExecutesJump(Next(s, k), d, csr);
    JumpReads(s, n, d.rs1); JumpReads(s, k, d.rs1);
    EndsSettled(s, n, d.rd, d.rs1, imm); EndsSettled(s, k, d.rd, d.rs1, imm);
    JalDiffers(s, n, k, d.rd, Wrap64(s.pc + imm));
    JalrDiffers(s, n, k, d.rd, Wrap64(X(s, d.rs1) + imm) / 2 * 2, Ends(s, d.rd, d.rs1, imm));
  }

  lemma JumpReads(s: State, n: u64, r: bv5)
    ensures Next(s, n).pc == s.pc && X(Next(s, n), r) == X(s, r)
  {}

  lemma EndsSettled(s: State, n: u64, rd: bv5, rs1: bv5, imm: int)
    ensures Ends(Next(s, n), rd, rs1, imm) == Ends(s, rd, rs1, imm)
  {}

  lemma FinishWith(b: State, regs: Regs, n: u64)
    requires !b.aborted
    ensures Finish(With(b, regs, n)) == With(b.(error := b.error || b.pc == n), regs[0 := 0], n)
    ensures Finish(b) == With(b.(error := b.error || b.pc == b.nextPc), b.regs[0 := 0], b.nextPc)
  {}

  lemma WithWith(s: State, regs: Regs, n: u64, regs': Regs, n': u64)
    ensures With(With(s, regs, n), regs', n') == With(s, regs', n')
    ensures With(s, regs, n).regs == regs && With(s, regs, n).nextPc == n
    ensures With(s, regs, n).aborted == s.aborted && With(s, regs, n).pc == s.pc && With(s, regs, n).error == s.error
  {}

  lemma FinishSame(a: State, b: State, n: u64, k: u64, linked: bool, rd: bv5)
    requires SameEffect(a, b, n, k, linked, rd) && a.pc != n && a.pc != k
    ensures SameEffect(Finish(a), Finish(b), n, k, linked, rd)
  {
    hide Finish, With, X;
    WithWith(b, a.regs, a.nextPc, a.regs, a.nextPc);
    if a.aborted {
      FinishAborted(a); FinishAborted(b);
    } else {
      FinishWith(b, a.regs, a.nextPc);
      var e := b.(error := b.error || b.pc == b.nextPc);
      WithWith(e, b.regs[0 := 0], b.nextPc, a.regs[0 := 0], a.nextPc);
      WithWith(e, a.regs[0 := 0], a.nextPc, a.regs[0 := 0], a.nextPc);
      forall r: bv5 ensures X(Finish(a), r) == X(Finish(b), r) || (linked && r == rd && X(Finish(a), r) == n && X(Finish(b), r) == k) {
        ZeroedRegister(a, r); ZeroedRegister(b, r);
      }
    }
  }

  lemma ZeroedRegister(s: State, r: bv5)
    requires !s.aborted
    ensures X(Finish(s), r) == if r as nat == 0 then 0 else X(s, r)
  {}

  lemma FinishAborted(s: State)
    requires s.aborted
    ensures Finish(s) == s
  {}

  lemma ExecuteSame(s: State, n: u64, k: u64, d: Decoded)
    requires s.pc != n && s.pc != k
    ensures SameEffect(Finish(Execute(Next(s, n), d, 0)), Finish(Execute(Next(s, k), d, 0)), n, k, Links(d.op), d.rd)
  {
    hide Execute, Finish, KindOf, SameEffect, Alike;
    var a, b := Execute(Next(s, n), d, 0), Execute(Next(s, k), d, 0);
    LinksAre(d.op);
    if Links(d.op) {
      JumpsDiffer(s, n, k, d, 0);
    } else {
      ExecuteAlike(s, n, k, d, 0);
      AlikeIsSame(a, b, n, k, false, d.rd);
    }
    ExecuteKeepsPc(Next(s, n), d, 0);
    FinishSame(a, b, n, k, Links(d.op), d.rd);
  }

  lemma NotCsr(ir: bv32, mxl: int)
    ensures !IsCsr(GetCode16(ir, mxl).op)
  {
    hide Reg7, Reg2, Short7, Short2, Imm6, JumpOffset, BranchOffset, Addi4spnImm, LuiImm, Addi16spImm, LwspImm, LdspImm, SwspImm, SdspImm, SignedImm6, WordOffset, DoubleOffset;
  }

  lemma CodeEncodable(ir: bv32, mxl: int)
    requires GetCode16(ir, mxl).op != ERROR
    ensures Assemblable(GetCode16(ir, mxl).op) && Encodable(GetCode16(ir, mxl))
  {
    hide Quadrant0, Quadrant1, Quadrant2, Encodable, Assemblable;
    Quadrant0Encodable(ir);
    Quadrant1Encodable(ir, mxl);
    Quadrant2Encodable(ir);
  }

  lemma PcPasses(pc: u64)
    ensures Wrap64(pc + 2) != pc && Wrap64(pc + 4) != pc
  {}

  lemma ShortForm(s: State, cmd: u32)
    requires cmd % 4 != 3
    ensures ExecuteWord(s, cmd) == Finish(Execute(Next(s, Wrap64(s.pc + 2)), GetCode16(Bits32(cmd), s.cfg.Mxl), CsrNumber(cmd)))
  {
    hide GetCode16, Execute, Finish, KindOf, Bits32, Wrap64, CsrNumber;
  }

  lemma LongForm(s: State, d: Decoded)
    requires Assemblable(d.op) && Encodable(d) && !IsCsr(d.op)
    ensures ExecuteWord(s, Value32(Assemble(d))) == Finish(Execute(Next(s, Wrap64(s.pc + 4)), d, 0))
    ensures Length(Value32(Assemble(d))) == 4
  {
    hide GetCode16, Execute, Finish, KindOf, ExecuteWord, DecodeWord, Bits32, Value32, Assemblable, Encodable, Assemble, Used, Wrap64;
    AssembledIsLong(d);
    DecodeAssembled(d, s.cfg.Mxl);
    ExecuteDecoded(s, Value32(Assemble(d)), d);
  }

  lemma AnyNumber(s: State, d: Decoded, csr: nat)
    requires csr < P.CSR_SIZE && !IsCsr(d.op)
    ensures Execute(s, d, csr) == Execute(s, d, 0)
  {
    hide Execute, KindOf, Used;
    ExecuteUsed(s, d, csr, 0);
    ExecuteUsed(s, d, 0, 0);
  }

  /** From any state, a compressed word does what the 32-bit word it abbreviates does. */
  lemma CompressedExecutes(s: State, cmd: u32)
    requires cmd % 4 != 3 && GetCode16(Bits32(cmd), s.cfg.Mxl).op != ERROR
    ensures var d, word := GetCode16(Bits32(cmd), s.cfg.Mxl), Value32(Expand(Bits32(cmd), s.cfg.Mxl));
      && Length(cmd) == 2 && Length(word) == 4
      && SameEffect(ExecuteWord(s, cmd), ExecuteWord(s, word), Wrap64(s.pc + 2), Wrap64(s.pc + 4), Links(d.op), d.rd)
  {
    hide GetCode16, Execute, Finish, KindOf, ExecuteWord, SameEffect, Bits32, Value32, Assemblable, Encodable, Assemble, Wrap64, CsrNumber, Links, Next;
    var d := GetCode16(Bits32(cmd), s.cfg.Mxl);
    NotCsr(Bits32(cmd), s.cfg.Mxl);
    CodeEncodable(Bits32(cmd), s.cfg.Mxl);
    ShortForm(s, cmd);
    AnyNumber(Next(s, Wrap64(s.pc + 2)), d, CsrNumber(cmd));
    LongForm(s, d);
    PcPasses(s.pc);
    ExecuteSame(s, Wrap64(s.pc + 2), Wrap64(s.pc + 4), d);
  }
}
