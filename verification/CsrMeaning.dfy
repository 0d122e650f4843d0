/**
  What the CSR instructions leave, bit by bit: in the register they name, in mstatus, mie or mip where
  that register is a view of it, in the other views, and nowhere else. Registers are named by number.
 */
module CsrMeaning {
  import opened Words
  import opened Decoder
  import opened CpuModel
  import opened WordBits
  import opened Encoding
  import B = BitArithmetic
  import MachineMode
  import I = InstructionMeaning
  import P = Privileged

  // ----- the bits an instruction writes -----

  /** CSRRCI complements a 32-bit number, so it also clears bits 63 to 32. */
  predicate NewBit(op: Op, was: bool, operand: bool, k: nat)
  {
    match op
    case CSRRW | CSRRWI => operand
    case CSRRS | CSRRSI => was || operand
    case CSRRC => was && !operand
    case CSRRCI => was && !operand && k < 32
    case _ => was
  }

  /** The immediate forms take the number of the register instead of its value. */
  function Operand(s: State, d: Decoded): u64
  {
    if d.op.CSRRWI? || d.op.CSRRSI? || d.op.CSRRCI? then d.rs1 as nat else s.regs[d.rs1 as nat]
  }

  predicate OperandBit(operand: u64, k: nat) { B.BitOf(operand, k) == 1 }

  /** Bit k of `t'` is what the instruction makes of bit k of `t`. */
  predicate WrittenAt(op: Op, t: bv64, operand: u64, t': bv64, k: nat)
  {
    BitAt(t', k) <==> NewBit(op, BitAt(t, k), OperandBit(operand, k), k)
  }

  ghost predicate Written(op: Op, t: bv64, operand: u64, t': bv64)
  {
    forall k: nat :: k < 64 ==> WrittenAt(op, t, operand, t', k)
  }

  /** CSRRW stores the operand. */
  lemma WriteIsOperand(op: Op, t: bv64, operand: u64, t': bv64)
    requires (op.CSRRW? || op.CSRRWI?) && Written(op, t, operand, t')
    ensures Value64(t') == operand
  {
    hide BitAt, Bits64, Value64, OperandBit;
    var o := Bits64(operand);
    forall k: nat | k < 64 ensures BitAt(t', k) <==> BitAt(o, k) {
      assert WrittenAt(op, t, operand, t', k);
      OperandIs(operand, k);
    }
    SameBits(t', o);
    ValueOfBits(operand);
  }

  lemma ValueOfBits(x: u64)
    ensures Value64(Bits64(x)) == x
  {
    hide Bits64;
  }

  lemma OperandIs(operand: u64, k: nat)
    ensures OperandBit(operand, k) <==> BitAt(Bits64(operand), k)
  {
    hide B.BitOf, Bits64;
  }

  lemma RegisterNumber(r: bv5)
    ensures Value64(r as bv64) == r as nat
  {}

  lemma OperandValue(s: State, d: Decoded)
    requires IsCsr(d.op)
    ensures Value64(CsrOperand(d.op, d.rs1, X(s, d.rs1))) == Operand(s, d)
  {
    hide Bits64, KindOf;
    RegisterNumber(d.rs1);
  }

  lemma ValueWritten(op: Op, t: bv64, o: bv64, k: nat)
    requires IsCsr(op) && k < 64
    ensures BitAt(P.CsrValue(CsrOpOf(op), t, o), k) <==> NewBit(op, BitAt(t, k), BitAt(o, k), k)
  {
    hide BitAt, P.CsrValue, And, Or, Xor, Not;
    match op
    case CSRRW | CSRRWI => WriteLogic(t, o);
    case CSRRS | CSRRSI => SetLogic(t, o); LogicAt(t, o, k);
    case CSRRC => ClearLogic(t, o); NotAt(o, k); LogicAt(t, Not(o), k);
    case CSRRCI =>
      ClearNumberLogic(t, o);
      NotAt(o, k); LowHalfAt(k);
      LogicAt(Not(o), 0xFFFF_FFFF, k);
      LogicAt(t, And(Not(o), 0xFFFF_FFFF), k);
  }

  lemma WriteLogic(t: bv64, o: bv64)
    ensures P.CsrValue(P.Write, t, o) == o && P.CsrValue(P.WriteImmediate, t, o) == o
  {}

  lemma SetLogic(t: bv64, o: bv64)
    ensures P.CsrValue(P.Set, t, o) == Or(t, o) && P.CsrValue(P.SetImmediate, t, o) == Or(t, o)
  {}

  lemma ClearLogic(t: bv64, o: bv64)
    ensures P.CsrValue(P.Clear, t, o) == And(t, Not(o))
  {
    hide And, Not;
    ClearIs(t, o);
  }

  lemma ClearIs(t: bv64, o: bv64)
    ensures t & !o == And(t, Not(o))
  {}

  lemma ClearNumberLogic(t: bv64, o: bv64)
    ensures P.CsrValue(P.ClearImmediate, t, o) == And(t, And(Not(o), 0xFFFF_FFFF))
  {}

  lemma CsrWritten(s: State, d: Decoded, t: bv64)
    requires IsCsr(d.op)
    ensures Written(d.op, t, Operand(s, d), P.CsrValue(CsrOpOf(d.op), t, CsrOperand(d.op, d.rs1, X(s, d.rs1))))
  {
    hide P.CsrValue, KindOf, CsrOperand, Operand, NewBit, B.BitOf, Value64, CsrOpOf;
    var o := CsrOperand(d.op, d.rs1, X(s, d.rs1));
    OperandValue(s, d);
    forall k: nat | k < 64 ensures WrittenAt(d.op, t, Operand(s, d), P.CsrValue(CsrOpOf(d.op), t, o), k) {
      ValueWritten(d.op, t, o, k);
    }
  }

  // ----- registers that are views of another -----

  /** ustatus, uie and uip by number; the supervisor's view is at 0x100 above, the register itself at 0x300. */
  predicate IsFamily(u: nat) { u in {0x000, 0x004, 0x044} }

  predicate InFamily(csr: nat, u: nat) { csr == u || csr == u + 0x100 || csr == u + 0x300 }

  predicate HasViews(csr: nat) { InFamily(csr, 0x000) || InFamily(csr, 0x004) || InFamily(csr, 0x044) }

  /** The bits of a register that can be seen and written through one of its views. */
  function MaskOf(wide: bool, csr: nat): bv64
  {
    if csr == 0x000 then 0xD_E011
    else if csr == 0x100 then if wide then 0x3_000D_E133 else 0xD_E133
    else if csr in {0x004, 0x044} then 0x111
    else if csr in {0x104, 0x144} then 0x333
    else ONES
  }

  /** SD, FS and XS are zero, SXL and UXL two on the wide machine. */
  function FixedBits(wide: bool, csr: nat): bv64
  {
    if !InFamily(csr, 0x000) then 0 else if wide then 0x8000_000F_0001_E000 else 0x8001_E000
  }

  function FixedValue(wide: bool): bv64 { if wide then 0xA_0000_0000 else 0 }

  /** Bit k of the register behind the view `csr`, which held `m` and now holds `m'`; the view held `t`. */
  predicate MasterAt(wide: bool, csr: nat, op: Op, m: bv64, t: bv64, operand: u64, m': bv64, k: nat)
  {
    BitAt(m', k) <==>
      if BitAt(FixedBits(wide, csr), k) then BitAt(FixedValue(wide), k)
      else if BitAt(MaskOf(wide, csr), k) then NewBit(op, BitAt(t, k), OperandBit(operand, k), k)
      else BitAt(m, k)
  }

  ghost predicate MasterWritten(wide: bool, csr: nat, op: Op, m: bv64, t: bv64, operand: u64, m': bv64)
  {
    forall k: nat :: k < 64 ==> MasterAt(wide, csr, op, m, t, operand, m', k)
  }

  predicate ShownAt(view: bv64, m: bv64, mask: bv64, k: nat) { BitAt(view, k) <==> BitAt(m, k) && BitAt(mask, k) }

  ghost predicate Shows(view: bv64, m: bv64, mask: bv64) { forall k: nat :: k < 64 ==> ShownAt(view, m, mask, k) }

  /** The views show the bits of the register, and the register itself is there too. */
  ghost predicate Shown(wide: bool, csrs: P.Csrs, u: nat, m: bv64)
    requires IsFamily(u)
  {
    && csrs[u + 0x300] == m
    && Shows(csrs[u], m, MaskOf(wide, u)) && Shows(csrs[u + 0x100], m, MaskOf(wide, u + 0x100))
  }

  /** No register but those of the family has changed. */
  predicate OthersKept(s: P.Csrs, t: P.Csrs, u: nat)
  {
    forall i: nat :: i < P.CSR_SIZE && !InFamily(i, u) ==> t[i] == s[i]
  }

  /** What an access to a register with views leaves. */
  ghost predicate FamilyWritten(wide: bool, s: P.Sys, t: P.Sys, op: Op, csr: nat, operand: u64)
    requires HasViews(csr)
  {
    var u := if InFamily(csr, 0x000) then 0x000 else if InFamily(csr, 0x004) then 0x004 else 0x044;
    var m := if u == 0x000 then s.mstatus else if u == 0x004 then s.mie else s.mip;
    var m' := if u == 0x000 then t.mstatus else if u == 0x004 then t.mie else t.mip;
    && MasterWritten(wide, csr, op, m, s.csr[csr], operand, m') && Shown(wide, t.csr, u, m')
    && OthersKept(s.csr, t.csr, u) && t.priv == s.priv
    && (u != 0x000 ==> t.mstatus == s.mstatus) && (u != 0x004 ==> t.mie == s.mie) && (u != 0x044 ==> t.mip == s.mip)
  }

  /** The same for the others. */
  ghost predicate PlainWritten(s: P.Sys, t: P.Sys, op: Op, csr: nat, operand: u64)
    requires csr < P.CSR_SIZE
  {
    && Written(op, s.csr[csr], operand, t.csr[csr])
    && t == s.(csr := t.csr) && forall i: nat :: i < P.CSR_SIZE && i != csr ==> t.csr[i] == s.csr[i]
  }

  lemma ViewAt(m: bv64, mask: bv64, k: nat)
    ensures ShownAt(P.View(m, mask), m, mask, k)
  {
    LogicAt(m, mask, k);
  }

  lemma MergeLogic(m: bv64, mask: bv64, v: bv64)
    ensures P.Merge(m, mask, v) == Or(And(m, Not(mask)), And(v, mask))
  {}

  lemma MergeAt(m: bv64, mask: bv64, v: bv64, k: nat)
    requires k < 64
    ensures BitAt(P.Merge(m, mask, v), k) <==> if BitAt(mask, k) then BitAt(v, k) else BitAt(m, k)
  {
    hide BitAt, P.Merge, And, Or, Not;
    MergeLogic(m, mask, v);
    NotAt(mask, k);
    LogicAt(m, Not(mask), k);
    LogicAt(v, mask, k);
    LogicAt(And(m, Not(mask)), And(v, mask), k);
  }

  lemma WideLogic(m: bv64)
    ensures P.HardwiredWide(m) == Or(And(m, Not(0x8000_000F_0001_E000)), 0xA_0000_0000)
  {}

  lemma NarrowIs(m: bv64)
    ensures P.HardwiredNarrow(m) == And(m, 0xFFFF_FFFF_7FFE_1FFF)
  {}

  lemma NarrowMask()
    ensures Not(0x8001_E000) == 0xFFFF_FFFF_7FFE_1FFF
  {}

  lemma NarrowLogic(m: bv64)
    ensures P.HardwiredNarrow(m) == And(m, Not(0x8001_E000))
  {
    NarrowIs(m);
    NarrowMask();
    hide And, Not, P.HardwiredNarrow;
  }

  lemma ValueIsFixed()
    ensures And(0xA_0000_0000, Not(0x8000_000F_0001_E000)) == 0
  {}

  lemma HardwiredAt(cfg: P.Config, m: bv64, k: nat)
    requires k < 64
    ensures BitAt(P.Hardwired(m, cfg), k) <==>
      if BitAt(FixedBits(cfg.wide, 0x300), k) then BitAt(FixedValue(cfg.wide), k) else BitAt(m, k)
  {
    hide BitAt, P.HardwiredWide, P.HardwiredNarrow, And, Or, Not;
    var f: bv64, x: bv64, g: bv64 := 0x8000_000F_0001_E000, 0xA_0000_0000, 0x8001_E000;
    WideLogic(m); NarrowLogic(m); ValueIsFixed();
    ZeroAt(k);
    NotAt(f, k); NotAt(g, k);
    LogicAt(m, Not(g), k);
    LogicAt(m, Not(f), k); LogicAt(And(m, Not(f)), x, k); LogicAt(x, Not(f), k);
  }

  lemma ViewShows(m: bv64, mask: bv64)
    ensures Shows(P.View(m, mask), m, mask)
  {
    hide P.View, ShownAt;
    forall k: nat | k < 64 ensures ShownAt(P.View(m, mask), m, mask, k) { ViewAt(m, mask, k); }
  }

  /** The three refreshers. */
  lemma StatusShown(s: P.Sys, cfg: P.Config)
    ensures var t := P.ApplyMstatus(s, cfg); Shown(cfg.wide, t.csr, 0x000, s.mstatus) && OthersKept(s.csr, t.csr, 0x000) && t == s.(csr := t.csr)
  {
    hide P.View, Shows;
    ViewShows(s.mstatus, MaskOf(cfg.wide, 0x000)); ViewShows(s.mstatus, MaskOf(cfg.wide, 0x100));
  }

  lemma EnableShown(s: P.Sys, wide: bool)
    ensures var t := P.ApplyInterruptEnable(s); Shown(wide, t.csr, 0x004, s.mie) && OthersKept(s.csr, t.csr, 0x004) && t == s.(csr := t.csr)
  {
    hide P.View, Shows;
    ViewShows(s.mie, MaskOf(wide, 0x004)); ViewShows(s.mie, MaskOf(wide, 0x104));
  }

  lemma PendingShown(s: P.Sys, wide: bool)
    ensures var t := P.ApplyInterruptPending(s); Shown(wide, t.csr, 0x044, s.mip) && OthersKept(s.csr, t.csr, 0x044) && t == s.(csr := t.csr)
  {
    hide P.View, Shows;
    ViewShows(s.mip, MaskOf(wide, 0x044)); ViewShows(s.mip, MaskOf(wide, 0x144));
  }

  /** The whole register is a view of its own. */
  lemma WholeMask(m: bv64, v: bv64)
    ensures P.Merge(m, ONES, v) == v
  {}

  lemma FromWritten(wide: bool, csr: nat, op: Op, m: bv64, t: bv64, operand: u64, v: bv64, m': bv64, k: nat)
    requires WrittenAt(op, t, operand, v, k)
    requires BitAt(m', k) == if BitAt(FixedBits(wide, csr), k) then BitAt(FixedValue(wide), k)
                             else if BitAt(MaskOf(wide, csr), k) then BitAt(v, k) else BitAt(m, k)
    ensures MasterAt(wide, csr, op, m, t, operand, m', k)
  {
    hide BitAt, NewBit, MaskOf, FixedValue, OperandBit, FixedBits;
  }

  lemma StatusMergedAt(cfg: P.Config, csr: nat, op: Op, m: bv64, t: bv64, operand: u64, v: bv64, k: nat)
    requires k < 64 && WrittenAt(op, t, operand, v, k) && InFamily(csr, 0x000)
    ensures MasterAt(cfg.wide, csr, op, m, t, operand, P.Hardwired(P.Merge(m, MaskOf(cfg.wide, csr), v), cfg), k)
  {
    hide BitAt, P.Merge, P.Hardwired, NewBit, MaskOf, FixedValue, OperandBit, FixedBits;
    var mask := MaskOf(cfg.wide, csr);
    var n := P.Merge(m, mask, v);
    var m', f, x := P.Hardwired(n, cfg), FixedBits(cfg.wide, csr), FixedValue(cfg.wide);
    FixedIs(cfg.wide, csr);
    hide InFamily;
    MergeAt(m, mask, v, k);
    HardwiredAt(cfg, n, k);
    hide MasterAt, WrittenAt;
    FromWritten(cfg.wide, csr, op, m, t, operand, v, m', k);
  }

  lemma OtherMergedAt(cfg: P.Config, csr: nat, op: Op, m: bv64, t: bv64, operand: u64, v: bv64, k: nat)
    requires k < 64 && WrittenAt(op, t, operand, v, k) && !InFamily(csr, 0x000)
    ensures MasterAt(cfg.wide, csr, op, m, t, operand, P.Merge(m, MaskOf(cfg.wide, csr), v), k)
  {
    hide BitAt, P.Merge, NewBit, MaskOf, FixedValue, OperandBit, FixedBits, InFamily;
    MergeAt(m, MaskOf(cfg.wide, csr), v, k);
    FixedIs(cfg.wide, csr);
    ZeroAt(k);
  }

  lemma FixedIs(wide: bool, csr: nat)
    ensures FixedBits(wide, csr) == if InFamily(csr, 0x000) then FixedBits(wide, 0x300) else 0
  {}

  lemma StatusMerged(cfg: P.Config, csr: nat, op: Op, m: bv64, t: bv64, operand: u64, v: bv64)
    requires Written(op, t, operand, v) && InFamily(csr, 0x000)
    ensures MasterWritten(cfg.wide, csr, op, m, t, operand, P.Hardwired(P.Merge(m, MaskOf(cfg.wide, csr), v), cfg))
  {
    hide MasterAt, WrittenAt, P.Merge, P.Hardwired, MaskOf, InFamily;
    var m' := P.Hardwired(P.Merge(m, MaskOf(cfg.wide, csr), v), cfg);
    forall k: nat | k < 64 ensures MasterAt(cfg.wide, csr, op, m, t, operand, m', k) {
      StatusMergedAt(cfg, csr, op, m, t, operand, v, k);
    }
  }

  lemma OtherMerged(cfg: P.Config, csr: nat, op: Op, m: bv64, t: bv64, operand: u64, v: bv64)
    requires Written(op, t, operand, v) && !InFamily(csr, 0x000)
    ensures MasterWritten(cfg.wide, csr, op, m, t, operand, P.Merge(m, MaskOf(cfg.wide, csr), v))
  {
    hide MasterAt, WrittenAt, P.Merge, MaskOf, InFamily;
    var m' := P.Merge(m, MaskOf(cfg.wide, csr), v);
    forall k: nat | k < 64 ensures MasterAt(cfg.wide, csr, op, m, t, operand, m', k) {
      OtherMergedAt(cfg, csr, op, m, t, operand, v, k);
    }
  }

  // ----- the instruction -----

  lemma StatusUpdate(s: P.Sys, cfg: P.Config, csr: nat, v: bv64)
    requires InFamily(csr, 0x000)
    ensures P.UpdateStatus(s.(csr := s.csr[csr := v]), cfg, csr) ==
            P.ApplyMstatus(s.(csr := s.csr[csr := v], mstatus := P.Hardwired(P.Merge(s.mstatus, MaskOf(cfg.wide, csr), v), cfg)), cfg)
  {
    hide P.Merge, P.Hardwired, P.ApplyMstatus;
    WholeMask(s.mstatus, v);
  }

  /** A write to mstatus or one of its views. */
  lemma StatusWrite(s: P.Sys, cfg: P.Config, op: Op, csr: nat, operand: u64, v: bv64)
    requires InFamily(csr, 0x000) && Written(op, s.csr[csr], operand, v)
    ensures FamilyWritten(cfg.wide, s, P.UpdateStatus(s.(csr := s.csr[csr := v]), cfg, csr), op, csr, operand)
  {
    hide Written, P.Merge, P.Hardwired, MasterWritten, Shown, MaskOf, P.UpdateStatus, P.ApplyMstatus;
    StatusMerged(cfg, csr, op, s.mstatus, s.csr[csr], operand, v);
    StatusUpdate(s, cfg, csr, v);
    StatusShown(s.(csr := s.csr[csr := v], mstatus := P.Hardwired(P.Merge(s.mstatus, MaskOf(cfg.wide, csr), v), cfg)), cfg);
  }

  lemma EnableUpdate(s: P.Sys, cfg: P.Config, csr: nat, v: bv64)
    requires InFamily(csr, 0x004)
    ensures P.UpdateStatus(s.(csr := s.csr[csr := v]), cfg, csr) ==
            P.ApplyInterruptEnable(s.(csr := s.csr[csr := v], mie := P.Merge(s.mie, MaskOf(cfg.wide, csr), v)))
  {
    hide P.Merge, P.Hardwired, P.ApplyInterruptEnable;
    WholeMask(s.mie, v);
  }

  /** The same for mie. */
  lemma EnableWrite(s: P.Sys, cfg: P.Config, op: Op, csr: nat, operand: u64, v: bv64)
    requires InFamily(csr, 0x004) && Written(op, s.csr[csr], operand, v)
    ensures FamilyWritten(cfg.wide, s, P.UpdateStatus(s.(csr := s.csr[csr := v]), cfg, csr), op, csr, operand)
  {
    hide Written, P.Merge, P.Hardwired, MasterWritten, Shown, MaskOf, P.UpdateStatus, P.ApplyInterruptEnable;
    OtherMerged(cfg, csr, op, s.mie, s.csr[csr], operand, v);
    EnableUpdate(s, cfg, csr, v);
    EnableShown(s.(csr := s.csr[csr := v], mie := P.Merge(s.mie, MaskOf(cfg.wide, csr), v)), cfg.wide);
  }

  lemma PendingUpdate(s: P.Sys, cfg: P.Config, csr: nat, v: bv64)
    requires InFamily(csr, 0x044)
    ensures P.UpdateStatus(s.(csr := s.csr[csr := v]), cfg, csr) ==
            P.ApplyInterruptPending(s.(csr := s.csr[csr := v], mip := P.Merge(s.mip, MaskOf(cfg.wide, csr), v)))
  {
    hide P.Merge, P.Hardwired, P.ApplyInterruptPending;
    WholeMask(s.mip, v);
  }

  /** The same for mip. */
  lemma PendingWrite(s: P.Sys, cfg: P.Config, op: Op, csr: nat, operand: u64, v: bv64)
    requires InFamily(csr, 0x044) && Written(op, s.csr[csr], operand, v)
    ensures FamilyWritten(cfg.wide, s, P.UpdateStatus(s.(csr := s.csr[csr := v]), cfg, csr), op, csr, operand)
  {
    hide Written, P.Merge, P.Hardwired, MasterWritten, Shown, MaskOf, P.UpdateStatus, P.ApplyInterruptPending;
    OtherMerged(cfg, csr, op, s.mip, s.csr[csr], operand, v);
    PendingUpdate(s, cfg, csr, v);
    PendingShown(s.(csr := s.csr[csr := v], mip := P.Merge(s.mip, MaskOf(cfg.wide, csr), v)), cfg.wide);
  }

  lemma PlainAccess(s: P.Sys, cfg: P.Config, op: Op, csr: nat, operand: u64, v: bv64)
    requires !HasViews(csr) && csr < P.CSR_SIZE && Written(op, s.csr[csr], operand, v)
    ensures PlainWritten(s, P.UpdateStatus(s.(csr := s.csr[csr := v]), cfg, csr), op, csr, operand)
  {
    hide Written;
  }

  /** The state after a CSR instruction: rd has what the register held, and the bits are written as its kind says. */
  ghost predicate CsrMeans(s: State, d: Decoded, csr: nat, t: State)
    requires csr < P.CSR_SIZE
  {
    && t == s.(sys := t.sys, regs := s.regs[d.rd as nat := Value64(s.sys.csr[csr])])
    && if HasViews(csr) then FamilyWritten(s.cfg.wide, s.sys, t.sys, d.op, csr, Operand(s, d))
       else PlainWritten(s.sys, t.sys, d.op, csr, Operand(s, d))
  }

  lemma CsrOps(op: Op)
    ensures IsCsr(op) <==> op in {CSRRW, CSRRS, CSRRC, CSRRWI, CSRRSI, CSRRCI}
  {}

  lemma CsrUpdated(s: P.Sys, cfg: P.Config, op: Op, csr: nat, operand: u64, v: bv64)
    requires csr < P.CSR_SIZE && Written(op, s.csr[csr], operand, v)
    ensures var t := P.UpdateStatus(s.(csr := s.csr[csr := v]), cfg, csr);
      if HasViews(csr) then FamilyWritten(cfg.wide, s, t, op, csr, operand) else PlainWritten(s, t, op, csr, operand)
  {
    hide P.UpdateStatus, Written, FamilyWritten, PlainWritten;
    if InFamily(csr, 0x000) { StatusWrite(s, cfg, op, csr, operand, v); }
    else if InFamily(csr, 0x004) { EnableWrite(s, cfg, op, csr, operand, v); }
    else if InFamily(csr, 0x044) { PendingWrite(s, cfg, op, csr, operand, v); }
    else { PlainAccess(s, cfg, op, csr, operand, v); }
  }

  lemma ExecutesCsr(s: State, d: Decoded, csr: nat)
    requires csr < P.CSR_SIZE && IsCsr(d.op)
    ensures Execute(s, d, csr) == Csr(s, d.op, d.rd, d.rs1, csr)
  {
    hide Csr, P.CsrInstruction;
  }

  /** After any CSR instruction, from any state. */
  lemma ExecuteCsr(s: State, d: Decoded, csr: nat)
    requires csr < P.CSR_SIZE && d.op in {CSRRW, CSRRS, CSRRC, CSRRWI, CSRRSI, CSRRCI}
    ensures CsrMeans(s, d, csr, Execute(s, d, csr))
  {
    CsrOps(d.op);
    hide Execute, P.CsrValue, P.UpdateStatus, CsrOperand, Operand, Written, FamilyWritten, PlainWritten, KindOf, Value64, CsrOpOf, HasViews;
    var v := P.CsrValue(CsrOpOf(d.op), s.sys.csr[csr], CsrOperand(d.op, d.rs1, X(s, d.rs1)));
    ExecutesCsr(s, d, csr);
    CsrWritten(s, d, s.sys.csr[csr]);
    CsrUpdated(s.sys, s.cfg, d.op, csr, Operand(s, d), v);
  }

  // ----- the instruction word -----

  function Upper12(w: bv32): bv12 { ((w >> 20) & 0xFFF) as bv12 }

  function Lower20(w: bv32): bv20 { (w & 0xF_FFFF) as bv20 }

  lemma Concat20(hi: bv12, lo: bv20)
    ensures (((hi as bv32) << 20) | (lo as bv32)) as nat == (hi as nat) * 0x10_0000 + (lo as nat)
  {}

  lemma Cut20(w: bv32)
    ensures ((Upper12(w) as bv32) << 20) | (Lower20(w) as bv32) == w
  {}

  lemma UpperField(w: bv32)
    ensures Value32(w) / 0x10_0000 == Upper12(w) as nat
  {
    hide Upper12, Lower20;
    Cut20(w);
    Concat20(Upper12(w), Lower20(w));
    ModUnique(Value32(w), 0x10_0000, Upper12(w) as nat, Lower20(w) as nat);
  }

  /** The register is named by bits 31 to 20 of the word, the immediate field of its format. */
  lemma WordNames(d: Decoded)
    requires IsCsr(d.op) && Assemblable(d.op)
    ensures CsrNumber(Value32(Assemble(d))) == Cut12(d.imm) as nat
  {
    hide Upper12, Value32;
    UpperField(Assemble(d));
    AssembledUpper(d);
  }

  lemma AssembledUpper(d: Decoded)
    requires IsCsr(d.op)
    ensures Upper12(Assemble(d)) == Cut12(d.imm)
  {
    hide Funct3Of, OpcodeOf, KindOf, Funct7Of, FormatOf, Cut12;
    assert FormatOf(d.op).I? by { MachineMode.FormatOfKind(d.op); CsrFormat(d.op); }
    WordUpper(Cut12(d.imm), d.rs1, Funct3Of(d.op), d.rd, OpcodeOf(d.op));
  }

  lemma CsrFormat(op: Op)
    requires IsCsr(op)
    ensures FormatOf(op).I?
  {}

  lemma WordUpper(imm12: bv12, rs1: bv5, funct3: bv3, rd: bv5, opcode: bv7)
    ensures Upper12(IWord(imm12, rs1, funct3, rd, opcode)) == imm12
  {}

  /** The same of the word of a CSR instruction, the register being named in its immediate field. */
  lemma WordMeans(s: State, d: Decoded) returns (t: State)
    requires IsCsr(d.op) && Assemblable(d.op) && Encodable(d)
    ensures var csr := Cut12(d.imm) as nat;
      csr < P.CSR_SIZE && CsrMeans(s.(nextPc := (s.pc + 4) % TWO64), d, csr, t)
    ensures I.Finishes(t, ExecuteWord(s, Value32(Assemble(d))))
  {
    hide Assemble, Assemblable, Encodable, Execute, Finish, CsrMeans, KindOf, DecodeWord, Used, Value32, I.Finishes, Cut12;
    CsrOps(d.op);
    var csr, u := Cut12(d.imm) as nat, s.(nextPc := (s.pc + 4) % TWO64);
    WordNames(d);
    MachineMode.AssembledIsLong(d);
    MachineMode.DecodeAssembled(d, s.cfg.Mxl);
    MachineMode.UsedOp(d); MachineMode.UsedOp(DecodeWord(Value32(Assemble(d)), s.cfg.Mxl));
    MachineMode.ExecuteUsed(u, d, csr, csr);
    MachineMode.ExecuteUsed(u, DecodeWord(Value32(Assemble(d)), s.cfg.Mxl), csr, csr);
    t := Execute(u, d, csr);
    ExecuteCsr(u, d, csr);
    I.FinishFinishes(t);
  }
}
