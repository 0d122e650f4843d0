/**
  Traps, returns, interrupt selection and the effective mode, bit by bit and register by register. Bits
  are those of the Privileged Architecture: SIE 1, MIE 3, SPIE 5, MPIE 7, SPP 8, MPP 11 and 12, MPRV 17.
 */
module TrapMeaning {
  import opened Words
  import opened PageWalk
  import opened WordBits
  import opened CsrMeaning
  import opened Alu
  import B = BitArithmetic
  import P = Privileged

  // ----- setting and testing one bit -----

  /** `w` has bit `n` and no other. */
  predicate Single(w: bv64, n: nat) { Value64(w) == Pow2(n) }

  lemma SingleAt(w: bv64, n: nat, k: nat)
    requires Single(w, n)
    ensures BitAt(w, k) <==> k == n
  {
    hide Value64;
    PowerBit(n, k);
  }

  function Put(m: bv64, w: bv64, b: bool): bv64 { if b then Or(And(m, Not(w)), w) else And(m, Not(w)) }

  lemma PutAt(m: bv64, w: bv64, n: nat, b: bool, k: nat)
    requires Single(w, n) && k < 64
    ensures BitAt(Put(m, w, b), k) <==> if k == n then b else BitAt(m, k)
  {
    hide BitAt, Single, And, Or, Not;
    SingleAt(w, n, k);
    NotAt(w, k);
    LogicAt(m, Not(w), k);
    LogicAt(And(m, Not(w)), w, k);
  }

  lemma TestAt(m: bv64, w: bv64, n: nat)
    requires Single(w, n) && n < 64
    ensures And(m, w) != 0 <==> BitAt(m, n)
  {
    hide BitAt, Single, And;
    SingleAt(w, n, n);
    ZeroAt(n);
    LogicAt(m, w, n);
    if !BitAt(m, n) {
      forall k: nat | k < 64 ensures BitAt(And(m, w), k) <==> BitAt(0, k) {
        SingleAt(w, n, k); LogicAt(m, w, k); ZeroAt(k);
      }
      SameBits(And(m, w), 0);
    }
  }

  lemma SmallPowers()
    ensures Pow2(0) == 1 && Pow2(1) == 2 && Pow2(2) == 4 && Pow2(3) == 8 && Pow2(4) == 0x10 && Pow2(5) == 0x20
    ensures Pow2(6) == 0x40 && Pow2(7) == 0x80 && Pow2(8) == 0x100 && Pow2(9) == 0x200 && Pow2(10) == 0x400
    ensures Pow2(11) == 0x800 && Pow2(12) == 0x1000 && Pow2(13) == 0x2000 && Pow2(14) == 0x4000 && Pow2(15) == 0x8000
    ensures Pow2(17) == 0x2_0000
  {
    assert Pow2(2) == 2 * Pow2(1);
    assert Pow2(4) == 2 * Pow2(3);
    assert Pow2(6) == 2 * Pow2(5);
    assert Pow2(8) == 2 * Pow2(7);
    assert Pow2(10) == 2 * Pow2(9);
    assert Pow2(12) == 2 * Pow2(11);
    assert Pow2(14) == 2 * Pow2(13);
    assert Pow2(17) == 2 * Pow2(16);
  }

  /** The bit of a cause. */
  lemma CauseBit(cause: nat)
    requires cause < 16
    ensures Single(P.Bit(cause), cause)
  {
    SmallPowers();
    hide Pow2;
    match cause
    case 0 => case 1 => case 2 => case 3 => case 4 => case 5 => case 6 => case 7 =>
    case 8 => case 9 => case 10 => case 11 => case 12 => case 13 => case 14 => case _ =>
  }

  lemma Flags()
    ensures Single(0x2, 1) && Single(0x8, 3) && Single(0x20, 5) && Single(0x80, 7) && Single(0x100, 8) && Single(0x200, 9)
    ensures Single(0x800, 11) && Single(0x1000, 12) && Single(0x2_0000, 17)
  {
    SmallPowers();
    hide Pow2;
  }

  // ----- the fields of mstatus -----

  lemma FieldMasks(m: bv64)
    ensures P.GetSie(m) <==> And(m, 0x2) != 0
    ensures P.GetMie(m) <==> And(m, 0x8) != 0
    ensures P.GetSpie(m) <==> And(m, 0x20) != 0
    ensures P.GetMpie(m) <==> And(m, 0x80) != 0
    ensures P.GetSpp(m) <==> And(m, 0x100) != 0
    ensures P.GetMprv(m) <==> And(m, 0x2_0000) != 0
  {}

  lemma ModeMasks(m: bv64)
    ensures P.GetMpp(m) == if And(m, 0x1000) != 0 then if And(m, 0x800) != 0 then 3 else 2 else if And(m, 0x800) != 0 then 1 else 0
  {
    var p := P.GetMpp(m);
    if p == 0 {} else if p == 1 {} else if p == 2 {} else {}
  }

  lemma FieldsAt(m: bv64)
    ensures (P.GetSie(m) <==> BitAt(m, 1)) && (P.GetMie(m) <==> BitAt(m, 3)) && (P.GetSpie(m) <==> BitAt(m, 5))
    ensures (P.GetMpie(m) <==> BitAt(m, 7)) && (P.GetSpp(m) <==> BitAt(m, 8)) && (P.GetMprv(m) <==> BitAt(m, 17))
    ensures P.GetMpp(m) == if BitAt(m, 12) then if BitAt(m, 11) then 3 else 2 else if BitAt(m, 11) then 1 else 0
  {
    hide BitAt, And, Single, P.GetSie, P.GetMie, P.GetSpie, P.GetMpie, P.GetSpp, P.GetMprv, P.GetMpp;
    FieldMasks(m); ModeMasks(m); Flags();
    TestAt(m, 0x2, 1); TestAt(m, 0x8, 3); TestAt(m, 0x20, 5); TestAt(m, 0x80, 7); TestAt(m, 0x100, 8);
    TestAt(m, 0x800, 11); TestAt(m, 0x1000, 12); TestAt(m, 0x2_0000, 17);
  }

  lemma SetSieIs(m: bv64, b: bool)
    ensures P.SetSie(m, b) == Put(m, 0x2, b)
  {
    if b {} else {}
  }

  lemma SetMieIs(m: bv64, b: bool)
    ensures P.SetMie(m, b) == Put(m, 0x8, b)
  {
    if b {} else {}
  }

  lemma SetSpieIs(m: bv64, b: bool)
    ensures P.SetSpie(m, b) == Put(m, 0x20, b)
  {
    if b {} else {}
  }

  lemma SetMpieIs(m: bv64, b: bool)
    ensures P.SetMpie(m, b) == Put(m, 0x80, b)
  {
    if b {} else {}
  }

  lemma SetSppIs(m: bv64, b: bool)
    ensures P.SetSpp(m, b) == Put(m, 0x100, b)
  {
    if b {} else {}
  }

  lemma SetsAre(m: bv64, b: bool)
    ensures P.SetSie(m, b) == Put(m, 0x2, b) && P.SetMie(m, b) == Put(m, 0x8, b)
    ensures P.SetSpie(m, b) == Put(m, 0x20, b) && P.SetMpie(m, b) == Put(m, 0x80, b) && P.SetSpp(m, b) == Put(m, 0x100, b)
  {
    SetSieIs(m, b); SetMieIs(m, b); SetSpieIs(m, b); SetMpieIs(m, b); SetSppIs(m, b);
    hide P.SetSie, P.SetMie, P.SetSpie, P.SetMpie, P.SetSpp, Put;
  }

  lemma SetModeIs(m: bv64, p: Privilege)
    ensures P.SetMpp(m, P.ModeCode(p)) == Put(Put(m, 0x800, p != User), 0x1000, p == Machine)
  {
    match p
    case User => case Supervisor => case Machine =>
  }

  lemma ClearsAre(m: bv64)
    ensures P.SetMpp(m, 0) == Put(Put(m, 0x800, false), 0x1000, false) && P.ClearSpp(m) == Put(Put(m, 0x100, false), 0x200, false)
  {}

  /** The enables as they take effect. */
  predicate MachineOn(s: P.Sys) { s.priv == Machine ==> BitAt(s.mstatus, 3) }

  predicate SupervisorOn(s: P.Sys) { s.priv == User || (s.priv == Supervisor && BitAt(s.mstatus, 1)) }

  lemma EnabledIs(s: P.Sys)
    ensures P.MachineEnabled(s) == MachineOn(s) && P.SupervisorEnabled(s) == SupervisorOn(s)
  {
    hide BitAt, P.GetMie, P.GetSie;
    FieldsAt(s.mstatus);
  }

  /** mstatus after a trap to machine mode, a trap to supervisor mode, MRET and SRET. */
  predicate AfterMachineTrapAt(s: P.Sys, m: bv64, k: nat)
  {
    BitAt(m, k) <==> if k == 3 then false else if k == 7 then MachineOn(s) else if k == 11 then s.priv != User
                     else if k == 12 then s.priv == Machine else BitAt(s.mstatus, k)
  }

  predicate AfterSupervisorTrapAt(s: P.Sys, m: bv64, k: nat)
  {
    BitAt(m, k) <==> if k == 1 then false else if k == 5 then SupervisorOn(s) else if k == 8 then s.priv == Supervisor
                     else BitAt(s.mstatus, k)
  }

  predicate AfterMretAt(s: P.Sys, m: bv64, k: nat)
  {
    BitAt(m, k) <==> if k == 3 then BitAt(s.mstatus, 7) else if k == 7 then true else if k == 11 || k == 12 then false
                     else BitAt(s.mstatus, k)
  }

  predicate AfterSretAt(s: P.Sys, m: bv64, k: nat)
  {
    BitAt(m, k) <==> if k == 1 then BitAt(s.mstatus, 5) else if k == 5 then true else if k == 8 || k == 9 then false
                     else BitAt(s.mstatus, k)
  }

  lemma MachineTrapBit(s: P.Sys, k: nat)
    requires k < 64
    ensures AfterMachineTrapAt(s, P.SetMpp(P.SetMie(P.SetMpie(s.mstatus, P.MachineEnabled(s)), false), P.ModeCode(s.priv)), k)
  {
    hide BitAt, Put, Single, P.SetMpp, P.SetMie, P.SetMpie, P.ModeCode, P.MachineEnabled, MachineOn;
    EnabledIs(s); Flags();
    var e, u, t := MachineOn(s), s.priv != User, s.priv == Machine;
    var m1 := Put(s.mstatus, 0x80, e);
    var m2 := Put(m1, 0x8, false);
    var m3 := Put(m2, 0x800, u);
    SetsAre(s.mstatus, e); SetsAre(m1, false); SetModeIs(m2, s.priv);
    PutAt(s.mstatus, 0x80, 7, e, k); PutAt(m1, 0x8, 3, false, k);
    PutAt(m2, 0x800, 11, u, k); PutAt(m3, 0x1000, 12, t, k);
  }

  lemma SupervisorTrapBit(s: P.Sys, k: nat)
    requires k < 64
    ensures AfterSupervisorTrapAt(s, P.SetSpp(P.SetSie(P.SetSpie(s.mstatus, P.SupervisorEnabled(s)), false), s.priv == Supervisor), k)
  {
    hide BitAt, Put, Single, P.SetSpp, P.SetSie, P.SetSpie, P.SupervisorEnabled, SupervisorOn;
    EnabledIs(s); Flags();
    var e, t := SupervisorOn(s), s.priv == Supervisor;
    var m1 := Put(s.mstatus, 0x20, e);
    var m2 := Put(m1, 0x2, false);
    SetsAre(s.mstatus, e); SetsAre(m1, false); SetsAre(m2, t);
    PutAt(s.mstatus, 0x20, 5, e, k); PutAt(m1, 0x2, 1, false, k); PutAt(m2, 0x100, 8, t, k);
  }

  lemma MretBit(s: P.Sys, k: nat)
    requires k < 64
    ensures AfterMretAt(s, P.SetMpp(P.SetMpie(P.SetMie(s.mstatus, P.GetMpie(s.mstatus)), true), 0), k)
  {
    hide BitAt, Put, Single, P.SetMpp, P.SetMie, P.SetMpie, P.GetMpie;
    FieldsAt(s.mstatus); Flags();
    var e := BitAt(s.mstatus, 7);
    var m1 := Put(s.mstatus, 0x8, e);
    var m2 := Put(m1, 0x80, true);
    var m3 := Put(m2, 0x800, false);
    SetsAre(s.mstatus, e); SetsAre(m1, true); ClearsAre(m2);
    PutAt(s.mstatus, 0x8, 3, e, k); PutAt(m1, 0x80, 7, true, k);
    PutAt(m2, 0x800, 11, false, k); PutAt(m3, 0x1000, 12, false, k);
  }

  lemma SretBit(s: P.Sys, k: nat)
    requires k < 64
    ensures AfterSretAt(s, P.ClearSpp(P.SetSpie(P.SetSie(s.mstatus, P.GetSpie(s.mstatus)), true)), k)
  {
    hide BitAt, Put, Single, P.ClearSpp, P.SetSie, P.SetSpie, P.GetSpie;
    FieldsAt(s.mstatus); Flags();
    var e := BitAt(s.mstatus, 5);
    var m1 := Put(s.mstatus, 0x2, e);
    var m2 := Put(m1, 0x20, true);
    var m3 := Put(m2, 0x100, false);
    SetsAre(s.mstatus, e); SetsAre(m1, true); ClearsAre(m2);
    PutAt(s.mstatus, 0x2, 1, e, k); PutAt(m1, 0x20, 5, true, k);
    PutAt(m2, 0x100, 8, false, k); PutAt(m3, 0x200, 9, false, k);
  }

  // ----- cause, delegation and handler -----

  lemma CauseIs(cfg: P.Config, cause: nat, interrupt: bool)
    requires cause < 16
    ensures Value64(P.CauseValue(cfg, cause, interrupt)) == cause + (if !interrupt then 0 else if cfg.wide then TWO63 else TWO31)
  {
    SmallIs(cause);
    if interrupt { if cfg.wide { WideCause(cause); } else { NarrowCause(cause); } } else { PlainCause(P.Small(cause)); }
  }

  lemma PlainCause(x: bv64)
    ensures x | 0 == x
  {}

  lemma SmallIs(n: nat)
    requires n < 16
    ensures Value64(P.Small(n)) == n
  {
    match n
    case 0 => case 1 => case 2 => case 3 => case 4 => case 5 => case 6 => case 7 =>
    case 8 => case 9 => case 10 => case 11 => case 12 => case 13 => case 14 => case _ =>
  }

  lemma WideCause(n: nat)
    requires n < 16
    ensures Value64(P.Small(n) | 0x8000_0000_0000_0000) == n + TWO63
  {
    match n
    case 0 => case 1 => case 2 => case 3 => case 4 => case 5 => case 6 => case 7 =>
    case 8 => case 9 => case 10 => case 11 => case 12 => case 13 => case 14 => case _ =>
  }

  lemma NarrowCause(n: nat)
    requires n < 16
    ensures Value64(P.Small(n) | 0x8000_0000) == n + TWO31
  {
    match n
    case 0 => case 1 => case 2 => case 3 => case 4 => case 5 => case 6 => case 7 =>
    case 8 => case 9 => case 10 => case 11 => case 12 => case 13 => case 14 => case _ =>
  }

  /** Below machine mode, where the delegation register has the bit of the cause; an option spares bits 1, 2, 5, 6, 9 and 10 only. */
  predicate GoesToSupervisor(s: P.Sys, cfg: P.Config, cause: nat, interrupt: bool)
  {
    && s.priv != Machine
    && if interrupt then BitAt(s.csr[0x303], cause) && cause < 12 && (cfg.noDelegation ==> cause in {1, 2, 5, 6, 9, 10})
       else BitAt(s.csr[0x302], cause)
  }

  lemma MaskAllows(cfg: P.Config, cause: nat)
    requires cause < 16
    ensures And(if cfg.noDelegation then 0x666 else 0xFFF, P.Bit(cause)) != 0 <==> cause < 12 && (cfg.noDelegation ==> cause in {1, 2, 5, 6, 9, 10})
  {
    match cause
    case 0 => case 1 => case 2 => case 3 => case 4 => case 5 => case 6 => case 7 =>
    case 8 => case 9 => case 10 => case 11 => case 12 => case 13 => case 14 => case _ =>
  }

  lemma DelegatedIs(s: P.Sys, cfg: P.Config, cause: nat, interrupt: bool)
    requires cause < 16
    ensures P.Delegated(s, cfg, cause, interrupt) <==> GoesToSupervisor(s, cfg, cause, interrupt)
  {
    hide BitAt, P.Bit, P.HasBit, P.DelegatedInterrupts, And, Single;
    var w, mask := P.Bit(cause), if cfg.noDelegation then 0x666 else 0xFFF;
    CauseBit(cause);
    HasIs(s.csr[0x302], w); HasIs(P.DelegatedInterrupts(cfg, s.csr[0x303]), w);
    MaskedIs(cfg, s.csr[0x303], mask);
    TestAt(s.csr[0x302], w, cause); TestAt(And(s.csr[0x303], mask), w, cause); TestAt(mask, w, cause);
    LogicAt(s.csr[0x303], mask, cause);
    MaskAllows(cfg, cause);
  }

  lemma HasIs(register: bv64, w: bv64)
    ensures P.HasBit(register, w) <==> And(register, w) != 0
  {}

  lemma MaskedIs(cfg: P.Config, register: bv64, mask: bv64)
    requires mask == if cfg.noDelegation then 0x666 else 0xFFF
    ensures P.DelegatedInterrupts(cfg, register) == And(register, mask)
  {}

  /** `base` is the vector register with its two mode bits clear. */
  predicate IsBase(base: bv64, tvec: bv64) { Value64(base) == Value64(tvec) / 4 * 4 }

  /** The handler: the base, and four bytes a cause behind it for exceptions in a mode that is not direct. */
  ghost predicate HandledAt(tvec: bv64, cause: nat, interrupt: bool, target: bv64)
  {
    var n := if Value64(tvec) % 4 == 0 || interrupt then 0 else 4 * cause;
    exists base: bv64, offset: bv64 :: IsBase(base, tvec) && IsOffset(offset, n) && IsSum(target, base, offset)
  }

  /** C++ addition of 64-bit numbers. */
  predicate IsSum(sum: bv64, x: bv64, y: bv64) { sum == Plus(x, y) }

  predicate IsOffset(offset: bv64, n: nat) { Value64(offset) == n }

  lemma LowTwo(x: bv64)
    ensures x & 3 == 0 <==> Value64(x) % 4 == 0
    ensures Value64(x & !3) == Value64(x) / 4 * 4
  {
    hide B.Half, B.Odd, Value64;
    var y := x & !3;
    B.Halved(x); B.Halved(B.Half(x)); B.Halved(y); B.Halved(B.Half(y));
    LowTwoBits(x);
    B.OddIsBit(x); B.OddIsBit(B.Half(x));
    B.ZeroOne();
    var q := Value64(B.Half(B.Half(x)));
    ModUnique(Value64(x), 4, q, 2 * Value64(B.Odd(B.Half(x))) + Value64(B.Odd(x)));
  }

  lemma LowTwoBits(x: bv64)
    ensures x & 3 == 0 <==> B.Odd(x) == 0 && B.Odd(B.Half(x)) == 0
    ensures B.Odd(x & !3) == 0 && B.Odd(B.Half(x & !3)) == 0 && B.Half(B.Half(x & !3)) == B.Half(B.Half(x))
  {}

  lemma OffsetIs(cfg: P.Config, cause: nat)
    requires cause < 16
    ensures IsOffset(P.Offset(cfg, P.CauseValue(cfg, cause, false)), 4 * cause)
  {
    match cause
    case 0 => case 1 => case 2 => case 3 => case 4 => case 5 => case 6 => case 7 =>
    case 8 => case 9 => case 10 => case 11 => case 12 => case 13 => case 14 => case _ =>
  }

  lemma Direct(cfg: P.Config, tvec: bv64, v: bv64, interrupt: bool)
    requires Value64(tvec) % 4 == 0 || interrupt
    ensures P.Handler(cfg, tvec, v, interrupt) == P.Base(tvec)
  {
    LowTwo(tvec);
  }

  lemma Vectored(cfg: P.Config, tvec: bv64, v: bv64)
    requires Value64(tvec) % 4 != 0
    ensures IsSum(P.Handler(cfg, tvec, v, false), P.Base(tvec), P.Offset(cfg, v))
  {
    hide P.Base, P.Offset, Value64, Plus;
    assert tvec & 3 != 0 by { LowTwo(tvec); }
    HandlerSum(cfg, tvec, v);
  }

  lemma HandlerSum(cfg: P.Config, tvec: bv64, v: bv64)
    requires tvec & 3 != 0
    ensures IsSum(P.Handler(cfg, tvec, v, false), P.Base(tvec), P.Offset(cfg, v))
  {
    hide P.Base, P.Offset, Plus;
  }

  lemma HandlerIs(cfg: P.Config, tvec: bv64, cause: nat, interrupt: bool)
    requires cause < 16
    ensures HandledAt(tvec, cause, interrupt, P.Handler(cfg, tvec, P.CauseValue(cfg, cause, interrupt), interrupt))
  {
    hide P.CauseValue, P.Handler, Value64, P.Base, P.Offset;
    var v := P.CauseValue(cfg, cause, interrupt);
    BaseIs(tvec);
    if Value64(tvec) % 4 == 0 || interrupt {
      Direct(cfg, tvec, v, interrupt);
      PlusZero(P.Base(tvec));
    } else {
      Vectored(cfg, tvec, v);
      OffsetIs(cfg, cause);
    }
  }

  lemma BaseIs(tvec: bv64)
    ensures IsBase(P.Base(tvec), tvec)
  {
    LowTwo(tvec);
  }

  lemma PlusZero(x: bv64)
    ensures IsOffset(0, 0) && IsSum(x, x, 0)
  {}

  // ----- a trap -----

  /** The registers a trap or an interrupt request changes: the views of mstatus, those of mip, and three of its own. */
  predicate Kept(s: P.Csrs, t: P.Csrs, own: set<nat>, pending: bool)
  {
    forall i: nat :: i < P.CSR_SIZE && !InFamily(i, 0x000) && i !in own && !(pending && InFamily(i, 0x044)) ==> t[i] == s[i]
  }

  /** Interrupts stop pending when they are taken, software interrupts excepted. */
  predicate Acknowledges(cause: nat, interrupt: bool) { interrupt && cause != 1 && cause != 3 }

  predicate PendingAt(m: bv64, m': bv64, cause: nat, k: nat) { BitAt(m', k) <==> BitAt(m, k) && k != cause }

  ghost predicate PendingAfter(s: P.Sys, t: P.Sys, cfg: P.Config, cause: nat, interrupt: bool)
  {
    if Acknowledges(cause, interrupt)
    then (forall k: nat :: k < 64 ==> PendingAt(s.mip, t.mip, cause, k)) && Shown(cfg.wide, t.csr, 0x044, t.mip)
    else t.mip == s.mip
  }

  ghost predicate StatusAfterTrap(s: P.Sys, t: P.Sys, supervisor: bool)
  {
    forall k: nat :: k < 64 ==> if supervisor then AfterSupervisorTrapAt(s, t.mstatus, k) else AfterMachineTrapAt(s, t.mstatus, k)
  }

  /** scause, sepc, stval and stvec are 0x142, 0x141, 0x143 and 0x105; those of machine mode lie 0x200 above. */
  ghost predicate TrapMeans(s: P.Sys, cfg: P.Config, cause: nat, interrupt: bool, pc: bv64, tval: bv64, r: P.Transfer)
  {
    var t, supervisor := r.sys, GoesToSupervisor(s, cfg, cause, interrupt);
    var above := if supervisor then 0 else 0x200;
    && t.priv == (if supervisor then Supervisor else Machine)
    && Value64(t.csr[0x142 + above]) == cause + (if !interrupt then 0 else if cfg.wide then TWO63 else TWO31)
    && t.csr[0x141 + above] == pc && t.csr[0x143 + above] == tval
    && HandledAt(s.csr[0x105 + above], cause, interrupt, r.nextPc)
    && StatusAfterTrap(s, t, supervisor) && Shown(cfg.wide, t.csr, 0x000, t.mstatus)
    && PendingAfter(s, t, cfg, cause, interrupt) && t.mie == s.mie
    && Kept(s.csr, t.csr, {0x141 + above, 0x142 + above, 0x143 + above}, Acknowledges(cause, interrupt))
  }

  /** The three registers a trap writes. */
  function Saved(s: P.Sys, m: bv64, priv: Privilege, above: nat, v: bv64, pc: bv64, tval: bv64): P.Sys
    requires above in {0, 0x200}
  {
    s.(mstatus := m, priv := priv, csr := s.csr[0x142 + above := v][0x141 + above := pc][0x143 + above := tval])
  }

  lemma LowerAt(m: bv64, cause: nat, k: nat)
    requires cause < 16 && k < 64
    ensures BitAt(P.Lower(m, P.Bit(cause)), k) <==> BitAt(m, k) && k != cause
  {
    hide BitAt, P.Bit, P.Lower, And, Not, Single;
    var w := P.Bit(cause);
    LowerIs(m, w);
    CauseBit(cause);
    PutAt(m, w, cause, false, k);
    PutFalse(m, w);
  }

  lemma PutFalse(m: bv64, w: bv64)
    ensures Put(m, w, false) == And(m, Not(w))
  {
    hide And, Not;
  }

  lemma LowerIs(m: bv64, w: bv64)
    ensures P.Lower(m, w) == And(m, Not(w))
  {
    hide And, Not;
    ClearIs(m, w);
  }

  /** What is left to do once the registers are saved: acknowledge, and refresh the views. */
  function Settled(s: P.Sys, cfg: P.Config, cause: nat, interrupt: bool): P.Sys
    requires cause < 16
  {
    var t := P.ApplyMstatus(s, cfg);
    P.ApplyMstatus(if Acknowledges(cause, interrupt) then P.ClearInterruptPending(t, cause) else t, cfg)
  }

  lemma SettledMeans(s: P.Sys, cfg: P.Config, cause: nat, interrupt: bool)
    requires cause < 16
    ensures var t := Settled(s, cfg, cause, interrupt);
      && t == s.(csr := t.csr, mip := t.mip) && Shown(cfg.wide, t.csr, 0x000, s.mstatus)
      && PendingAfter(s, t, cfg, cause, interrupt) && Kept(s.csr, t.csr, {}, Acknowledges(cause, interrupt))
  {
    hide P.ApplyMstatus, P.ApplyInterruptPending, Shows, P.Lower, P.Bit, BitAt;
    var t := P.ApplyMstatus(s, cfg);
    StatusShown(s, cfg);
    if Acknowledges(cause, interrupt) {
      var u := t.(mip := P.Lower(t.mip, P.Bit(cause)));
      PendingShown(u, cfg.wide);
      StatusShown(P.ApplyInterruptPending(u), cfg);
      forall k: nat | k < 64 ensures PendingAt(s.mip, u.mip, cause, k) { LowerAt(s.mip, cause, k); }
    } else {
      StatusShown(t, cfg);
    }
  }

  lemma TrapIsSettled(s: P.Sys, cfg: P.Config, cause: nat, interrupt: bool, pc: bv64, tval: bv64)
    requires cause < 16
    ensures var v := P.CauseValue(cfg, cause, interrupt);
      var m := P.SetMpp(P.SetMie(P.SetMpie(s.mstatus, P.MachineEnabled(s)), false), P.ModeCode(s.priv));
      var n := P.SetSpp(P.SetSie(P.SetSpie(s.mstatus, P.SupervisorEnabled(s)), false), s.priv == Supervisor);
      P.Trap(s, cfg, cause, interrupt, pc, tval) ==
        if P.Delegated(s, cfg, cause, interrupt)
        then P.Transfer(Settled(Saved(s, n, Supervisor, 0, v, pc, tval), cfg, cause, interrupt), P.Handler(cfg, s.csr[P.STVEC], v, interrupt))
        else P.Transfer(Settled(Saved(s, m, Machine, 0x200, v, pc, tval), cfg, cause, interrupt), P.Handler(cfg, s.csr[P.MTVEC], v, interrupt))
  {
    hide P.CauseValue, P.Handler, P.Delegated, P.ApplyMstatus, P.ClearInterruptPending, P.MachineEnabled, P.SupervisorEnabled;
    hide P.SetMpp, P.SetMie, P.SetMpie, P.SetSpp, P.SetSie, P.SetSpie, P.ModeCode;
  }

  /** The state behind a trap, from the state with its three registers saved. */
  lemma SavedMeans(s: P.Sys, cfg: P.Config, cause: nat, interrupt: bool, m: bv64, priv: Privilege, above: nat, v: bv64, pc: bv64, tval: bv64)
    requires cause < 16 && above in {0, 0x200}
    ensures var t := Settled(Saved(s, m, priv, above, v, pc, tval), cfg, cause, interrupt);
      && t.priv == priv && t.mstatus == m && t.mie == s.mie && Shown(cfg.wide, t.csr, 0x000, m)
      && t.csr[0x142 + above] == v && t.csr[0x141 + above] == pc && t.csr[0x143 + above] == tval
      && PendingAfter(s, t, cfg, cause, interrupt)
      && Kept(s.csr, t.csr, {0x141 + above, 0x142 + above, 0x143 + above}, Acknowledges(cause, interrupt))
  {
    hide Settled, Shown, PendingAt;
    SettledMeans(Saved(s, m, priv, above, v, pc, tval), cfg, cause, interrupt);
  }

  lemma SupervisorTrapMeans(s: P.Sys, cfg: P.Config, cause: nat, interrupt: bool, pc: bv64, tval: bv64)
    requires cause < 16 && P.Delegated(s, cfg, cause, interrupt)
    ensures TrapMeans(s, cfg, cause, interrupt, pc, tval, P.Trap(s, cfg, cause, interrupt, pc, tval))
  {
    hide P.Trap, P.CauseValue, P.Handler, P.Delegated, P.SupervisorEnabled, Settled, Saved, Value64, HandledAt, Shown, Kept;
    hide P.SetSpp, P.SetSie, P.SetSpie, GoesToSupervisor, AfterSupervisorTrapAt, PendingAfter, BitAt;
    var v := P.CauseValue(cfg, cause, interrupt);
    var n := P.SetSpp(P.SetSie(P.SetSpie(s.mstatus, P.SupervisorEnabled(s)), false), s.priv == Supervisor);
    TrapIsSettled(s, cfg, cause, interrupt, pc, tval);
    DelegatedIs(s, cfg, cause, interrupt);
    CauseIs(cfg, cause, interrupt);
    SavedMeans(s, cfg, cause, interrupt, n, Supervisor, 0, v, pc, tval);
    HandlerIs(cfg, s.csr[0x105], cause, interrupt);
    forall k: nat | k < 64 ensures AfterSupervisorTrapAt(s, n, k) { SupervisorTrapBit(s, k); }
  }

  lemma MachineTrapMeans(s: P.Sys, cfg: P.Config, cause: nat, interrupt: bool, pc: bv64, tval: bv64)
    requires cause < 16 && !P.Delegated(s, cfg, cause, interrupt)
    ensures TrapMeans(s, cfg, cause, interrupt, pc, tval, P.Trap(s, cfg, cause, interrupt, pc, tval))
  {
    hide P.Trap, P.CauseValue, P.Handler, P.Delegated, P.MachineEnabled, Settled, Saved, Value64, HandledAt, Shown, Kept;
    hide P.SetMpp, P.SetMie, P.SetMpie, P.ModeCode, GoesToSupervisor, AfterMachineTrapAt, PendingAfter, BitAt;
    var v := P.CauseValue(cfg, cause, interrupt);
    var m := P.SetMpp(P.SetMie(P.SetMpie(s.mstatus, P.MachineEnabled(s)), false), P.ModeCode(s.priv));
    TrapIsSettled(s, cfg, cause, interrupt, pc, tval);
    DelegatedIs(s, cfg, cause, interrupt);
    CauseIs(cfg, cause, interrupt);
    SavedMeans(s, cfg, cause, interrupt, m, Machine, 0x200, v, pc, tval);
    HandlerIs(cfg, s.csr[0x305], cause, interrupt);
    forall k: nat | k < 64 ensures AfterMachineTrapAt(s, m, k) { MachineTrapBit(s, k); }
  }

  /** From any state, for any cause. */
  lemma TrapAsDescribed(s: P.Sys, cfg: P.Config, cause: nat, interrupt: bool, pc: bv64, tval: bv64)
    requires cause < 16
    ensures TrapMeans(s, cfg, cause, interrupt, pc, tval, P.Trap(s, cfg, cause, interrupt, pc, tval))
  {
    hide TrapMeans, P.Trap, P.Delegated;
    if P.Delegated(s, cfg, cause, interrupt) {
      SupervisorTrapMeans(s, cfg, cause, interrupt, pc, tval);
    } else {
      MachineTrapMeans(s, cfg, cause, interrupt, pc, tval);
    }
  }

  // ----- returns -----

  /** The mode in MPP; no mode has the number two. */
  predicate ReturnsTo(m: bv64, priv: Privilege)
  {
    match priv
    case User => !BitAt(m, 11) && !BitAt(m, 12)
    case Supervisor => BitAt(m, 11) && !BitAt(m, 12)
    case Machine => BitAt(m, 11) && BitAt(m, 12)
  }

  /** A return changes the mode, mstatus and its views. */
  ghost predicate Returned(s: P.Sys, cfg: P.Config, t: P.Sys)
  {
    && t == s.(priv := t.priv, mstatus := t.mstatus, csr := t.csr)
    && Shown(cfg.wide, t.csr, 0x000, t.mstatus) && OthersKept(s.csr, t.csr, 0x000)
  }

  lemma MretMeans(s: P.Sys, cfg: P.Config)
    ensures P.GetMpp(s.mstatus) == 2 <==> !BitAt(s.mstatus, 11) && BitAt(s.mstatus, 12)
    ensures P.GetMpp(s.mstatus) != 2 ==>
      var r := P.Mret(s, cfg);
      && r.nextPc == s.csr[0x341] && ReturnsTo(s.mstatus, r.sys.priv) && Returned(s, cfg, r.sys)
      && forall k: nat :: k < 64 ==> AfterMretAt(s, r.sys.mstatus, k)
  {
    hide BitAt, P.SetMpp, P.SetMie, P.SetMpie, P.GetMpie, P.GetMpp, P.ApplyMstatus, Shown, AfterMretAt;
    FieldsAt(s.mstatus);
    if P.GetMpp(s.mstatus) != 2 {
      var m := P.SetMpp(P.SetMpie(P.SetMie(s.mstatus, P.GetMpie(s.mstatus)), true), 0);
      StatusShown(s.(mstatus := m, priv := P.ModeOfCode(P.GetMpp(s.mstatus))), cfg);
      forall k: nat | k < 64 ensures AfterMretAt(s, m, k) { MretBit(s, k); }
    }
  }

  lemma SretMeans(s: P.Sys, cfg: P.Config)
    ensures var r := P.Sret(s, cfg);
      && r.nextPc == s.csr[0x141] && r.sys.priv == (if BitAt(s.mstatus, 8) then Supervisor else User) && Returned(s, cfg, r.sys)
      && forall k: nat :: k < 64 ==> AfterSretAt(s, r.sys.mstatus, k)
  {
    hide BitAt, P.ClearSpp, P.SetSie, P.SetSpie, P.GetSpie, P.GetSpp, P.ApplyMstatus, Shown, AfterSretAt;
    FieldsAt(s.mstatus);
    var m := P.ClearSpp(P.SetSpie(P.SetSie(s.mstatus, P.GetSpie(s.mstatus)), true));
    StatusShown(s.(mstatus := m, priv := if P.GetSpp(s.mstatus) then Supervisor else User), cfg);
    forall k: nat | k < 64 ensures AfterSretAt(s, m, k) { SretBit(s, k); }
  }

  // ----- which interrupt is taken -----

  /** Pending, enabled, and its mode's enable on: causes 1, 5 and 9 are the supervisor's, 3, 7 and 11 the machine's. */
  predicate Due(s: P.Sys, cause: nat)
  {
    && cause in {1, 3, 5, 7, 9, 11}
    && BitAt(s.mip, cause) && BitAt(s.mie, cause) && (if cause % 4 == 1 then SupervisorOn(s) else MachineOn(s))
  }

  lemma BothIs(mip: bv64, mie: bv64, w: bv64)
    ensures P.Both(mip, mie, w) <==> And(And(mip, mie), w) != 0
  {
    var x := mip & mie & w;
    if x == 0 {} else {}
  }

  lemma DueIs(s: P.Sys, cause: nat)
    requires cause in {1, 3, 5, 7, 9, 11}
    ensures Due(s, cause) <==>
      P.Both(s.mip, s.mie, P.Bit(cause)) && if cause % 4 == 1 then P.SupervisorEnabled(s) else P.MachineEnabled(s)
  {
    hide BitAt, And, P.Bit, P.Both, P.SupervisorEnabled, P.MachineEnabled, SupervisorOn, MachineOn, Single;
    EnabledIs(s);
    CauseBit(cause);
    BothIs(s.mip, s.mie, P.Bit(cause));
    TestAt(And(s.mip, s.mie), P.Bit(cause), cause);
    LogicAt(s.mip, s.mie, cause);
  }

  /** The interrupt of the lowest number that is due, if one is. */
  lemma SelectMeans(s: P.Sys)
    ensures match P.SelectInterrupt(s)
      case Take(cause) => Due(s, cause) && forall c: nat :: c < cause ==> !Due(s, c)
      case NoInterrupt => forall c: nat :: !Due(s, c)
  {
    hide P.Both, P.Bit, P.SupervisorEnabled, P.MachineEnabled, BitAt, SupervisorOn, MachineOn;
    forall c: nat | c in {1, 3, 5, 7, 9, 11}
      ensures Due(s, c) <==> P.Both(s.mip, s.mie, P.Bit(c)) && if c % 4 == 1 then P.SupervisorEnabled(s) else P.MachineEnabled(s)
    {
      DueIs(s, c);
    }
  }

  // ----- interrupt requests -----

  /** A request sets its bit of mip and refreshes the views of mie. */
  lemma RequestMeans(s: P.Sys, wide: bool, line: nat)
    requires line < 16
    ensures var t := P.SetInterruptPending(s, line);
      && t == s.(mip := t.mip, csr := t.csr) && Shown(wide, t.csr, 0x004, s.mie) && OthersKept(s.csr, t.csr, 0x004)
      && forall k: nat :: k < 64 ==> RequestedAt(s.mip, t.mip, line, k)
  {
    hide P.ApplyInterruptEnable, P.Raise, P.Bit, Shown, BitAt, Single, Or;
    var w := P.Bit(line);
    var u := s.(mip := P.Raise(s.mip, w));
    EnableShown(u, wide);
    CauseBit(line);
    RaiseIs(s.mip, w);
    forall k: nat | k < 64 ensures RequestedAt(s.mip, u.mip, line, k) {
      SingleAt(w, line, k);
      LogicAt(s.mip, w, k);
    }
  }

  predicate RequestedAt(m: bv64, m': bv64, line: nat, k: nat) { BitAt(m', k) <==> BitAt(m, k) || k == line }

  lemma RaiseIs(m: bv64, w: bv64)
    ensures P.Raise(m, w) == Or(m, w)
  {}
}
