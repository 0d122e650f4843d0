/**
  On the 32-bit machine a register holds its value as the sign extension of 32 bits. This module says
  which instructions keep that, and when a link value, a control register or a wide load breaks it.
 */
module NarrowRegisters {
  import opened Words
  import opened FlatMemory
  import opened Decoder
  import opened Alu
  import opened CpuModel
  import A = DataAccess
  import Multiply
  import PageWalk
  import TranslatedLoad
  import TranslatedStore
  import PagedExamples
  import P = Privileged

  predicate AllNarrow(regs: Regs) { forall r :: 0 <= r < REGISTERS ==> IsSext32(regs[r]) }

  predicate Narrow(s: State) { !s.cfg.wide && AllNarrow(s.regs) }

  lemma ZeroNarrow()
    ensures IsSext32(0) && IsSext32(1)
  {}

  lemma Assigned(regs: Regs, rd: bv5, v: u64)
    requires AllNarrow(regs)
    ensures AllNarrow(regs[rd as nat := v][0 := 0]) <==> rd as nat == 0 || IsSext32(v)
    ensures AllNarrow(regs[0 := 0])
  {
    hide IsSext32;
    ZeroNarrow();
    if rd as nat != 0 { assert regs[rd as nat := v][0 := 0][rd as nat] == v; }
  }

  // ----- values -----

  lemma SextIsNarrow(x: u64)
    ensures IsSext32(Sext32(x))
  {}

  lemma ShiftedRight(x: int, n: nat)
    requires -TWO31 <= x < TWO31
    ensures -TWO31 <= ShiftRightSigned(x, n) < TWO31
  {
    var p := Pow2(n);
    var q := x / p;
    assert x == q * p + x % p;
    if q >= TWO31 { Multiply.MulMonotone(q, 1, p); }
    if q < -TWO31 { LowQuotient(x, q, p, x % p); }
  }

  lemma LowQuotient(x: int, q: int, p: nat, r: nat)
    requires q < 0 && r < p && x == q * p + r
    ensures x < q + 1
  {
    Multiply.MulMonotone(-q - 1, 1, p);
    assert q * p == -((-q - 1) * p) - p;
  }

  lemma ShiftNarrow(op: Op, a: u64, shamt: nat)
    requires IsShiftImmediate(op) && IsSext32(a)
    ensures IsSext32(ShiftValue(32, op, a, shamt))
  {
    hide Sext32, Wrap64, Pow2, ShiftRightSigned;
    SextHalf(a);
    ShiftedRight(Signed64(a), shamt);
    ShiftedRight(Signed32(a % TWO32), shamt);
    SextWrap(ShiftRightSigned(Signed64(a), shamt));
    SextWrap(ShiftRightSigned(Signed32(a % TWO32), shamt));
    ShiftOps(op);
    if op == SLLI { SextIsNarrow(ShiftLeft(a, shamt)); }
    if op == SLLIW { SextIsNarrow(ShiftLeft(a, shamt) % TWO32); }
    if op in {SRLI, SRLIW} { SextIsNarrow(ShiftRight(a % TWO32, shamt)); }
  }

  lemma ShiftOps(op: Op)
    requires IsShiftImmediate(op)
    ensures op in {SLLI, SLLIW, SRLI, SRLIW, SRAI, SRAIW}
  {}

  lemma OperationNarrow(op: Op, a: u64, b: u64)
    requires IsOperation(op)
    ensures IsSext32(OperationValue(32, op, a, b))
  {
    hide IsSext32, Sext32, Wrap64, Pow2, ShiftLeft, ShiftRight, ShiftRightSigned, And64, Or64, Xor64, KindOf;
    forall x: u64 ensures IsSext32(Sext32(x)) { SextIsNarrow(x); }
  }

  lemma ImmediateNarrow(op: Op, a: u64, imm: int)
    requires IsImmediate(op)
    ensures IsSext32(ImmediateValue(32, op, a, imm))
  {
    hide IsSext32, Sext32, Wrap64, And64, Or64, Xor64, KindOf;
    forall x: u64 ensures IsSext32(Sext32(x)) { SextIsNarrow(x); }
  }

  lemma SextIfNarrow(x: u64)
    ensures SextIf(true, x).Value? && IsSext32(SextIf(true, x).v)
  {
    SextIsNarrow(x);
  }

  predicate NarrowOutcome(o: Outcome) { o.Value? ==> IsSext32(o.v) }

  lemma DividedNarrow(a: u64, b: u64)
    ensures NarrowOutcome(Div(true, a, b)) && NarrowOutcome(Rem(true, a, b)) && NarrowOutcome(DivW(a, b)) && NarrowOutcome(RemW(a, b))
  {
    hide IsSext32, Sext32, Wrap64, Quotient, Remainder, Signed64, Signed32, SextIf;
    forall x: u64 ensures SextIf(true, x).Value? && IsSext32(SextIf(true, x).v) { SextIfNarrow(x); }
  }

  lemma ProductNarrow(op: Op, a: u64, b: u64)
    requires IsMultiplication(op)
    ensures var o := MultValue(32, op, a, b); o.Value? ==> IsSext32(o.v)
  {
    hide IsSext32, Sext32, Wrap64, Quotient, Remainder, UnsignedQuotient, UnsignedRemainder, Signed64, Signed32, KindOf, SextIf;
    hide Div, Rem, DivW, RemW;
    forall x: u64 ensures SextIf(true, x).Value? && IsSext32(SextIf(true, x).v) { SextIfNarrow(x); }
    DividedNarrow(a, b);
  }

  lemma UpperNarrow(x: u64)
    ensures IsSext32(Upper(32, x))
  {
    SextIsNarrow(x);
  }

  lemma ExtendedNarrow(x: u64, width: nat)
    requires width in {1, 2, 4}
    ensures IsSext32(SignExtended(x, width))
  {
    hide IsSext32, Sext32;
    if width == 4 {
      SextIsNarrow(x);
    } else {
      NarrowField(x, if width == 1 then 0x100 else 0x1_0000);
    }
  }

  lemma NarrowField(x: u64, size: nat)
    requires size in {0x100, 0x1_0000}
    ensures IsSext32(if x % size >= size / 2 then x % size + (TWO64 - size) else x % size)
  {
    hide Sext32;
    var y := x % size;
    var v := if y >= size / 2 then y - size else y;
    SextWrap(v);
    if y >= size / 2 { ModUnique(v, TWO64, -1, v + TWO64); } else { ModUnique(v, TWO64, 0, v); }
  }

  lemma SmallNarrow(x: u64)
    requires x < 0x1_0000
    ensures IsSext32(x)
  {}

  lemma LoadWidths(op: Op)
    requires op in {LB, LBU, LH, LHU, LW}
    ensures AccessWidthOf(op) in {1, 2, 4} && (A.Unsigned(op) ==> A.Bound(AccessWidthOf(op)) <= 0x1_0000)
  {}

  lemma LoadedNarrow(op: Op, data: u64)
    requires IsLoad(op) && op !in {LWU, LD} && data < A.Bound(AccessWidthOf(op))
    ensures IsSext32(LoadResult(op, data))
  {
    hide KindOf, IsSext32, LoadResult, SignExtended, AccessWidthOf, A.Bound, A.Unsigned;
    A.LoadsAre(op);
    LoadWidths(op);
    A.LoadResults(op, data);
    if A.Unsigned(op) { SmallNarrow(data); } else { ExtendedNarrow(data, AccessWidthOf(op)); }
  }

  // ----- what leaves the registers alone -----

  predicate Same(s: State, t: State) { t.cfg == s.cfg && t.regs == s.regs }

  lemma SettersSame(s: State)
    ensures forall m: Mem :: Same(s, SetMem(s, m))
    ensures forall d: Device :: Same(s, SetDev(s, d))
    ensures forall t: P.Transfer :: Same(s, Transferred(s, t))
    ensures forall va: u64 :: Same(s, WithFault(s, va)) && Same(s, GoTo(s, va))
    ensures Same(s, s) && Same(s, Failed(s)) && Same(s, Aborted(s)) && Same(s, FaultRecorded(s))
  {
    hide Value64;
  }

  lemma SameAfter(s: State, t: State, u: State)
    requires Same(s, t) && Same(t, u)
    ensures Same(s, u)
  {}

  lemma TrapSame(s: State, cause: nat, interrupt: bool)
    requires cause < 16
    ensures Same(s, Trap(s, cause, interrupt))
  {
    hide P.Trap, P.TrapSupports, Bits64, Transferred, Aborted, FaultRecorded, Same;
    SettersSame(s);
    SettersSame(FaultRecorded(s));
    if P.TrapSupports(cause, interrupt) && !interrupt && IsPageFault(cause) {
      SameAfter(s, FaultRecorded(s), Trap(s, cause, interrupt));
    }
  }

  lemma TranslationSame(s: State, va: u64, write: bool)
    ensures Same(s, VirtualToPhysical(s, va, write).s)
  {
    hide EffectivePrivilege, PageWalk.Translate, TranslationMode, SetMem, WithFault, Aborted, Same;
    SettersSame(s);
    var e := EffectivePrivilege(s.sys);
    if e.Mode? {
      var u := SetMem(s, PageWalk.Translate(s.mem, TranslationMode(s, e.priv), va, write).mem);
      SettersSame(u);
      SameAfter(s, u, WithFault(u, va));
    }
  }

  lemma StoreSame(s: State, op: Op, value: u64, base: u64, imm: int)
    requires IsStore(op)
    ensures Same(s, Store(s, op, value, base, imm))
  {
    hide VirtualToPhysical, StoreFrom, Trap, KindOf, Wrap64, Same;
    var first := VirtualToPhysical(s, Wrap64(base + imm), true);
    TranslationSame(s, Wrap64(base + imm), true);
    TrapSame(first.s, 15, false);
    StoreFromSame(first.s, op, value, Wrap64(base + imm), first.pa);
    SameAfter(s, first.s, Store(s, op, value, base, imm));
  }

  lemma StoreFromSame(s: State, op: Op, value: u64, va: u64, pa: u64)
    requires IsStore(op)
    ensures Same(s, StoreFrom(s, op, value, va, pa))
  {
    hide StoreRest, WriteN, KindOf, AccessWidthOf, GetAccessWidth, StoreData, CheckDeviceWrite, SetMem, SetDev, Same;
    var w := GetAccessWidth(AccessWidthOf(op), va);
    var s1 := SetMem(s, WriteN(s.mem, pa, StoreData(value, w), w));
    AccessWidthBounds(AccessWidthOf(op), va);
    SettersSame(s); SettersSame(s1);
    if w < AccessWidthOf(op) { StoreRestSame(s1, op, value, va, pa, w); }
    SameAfter(s, s1, StoreFrom(s, op, value, va, pa));
  }

  lemma StoreRestSame(s: State, op: Op, value: u64, va: u64, pa: u64, w: nat)
    requires IsStore(op) && w < AccessWidthOf(op)
    ensures Same(s, StoreRest(s, op, value, va, pa, w))
  {
    hide VirtualToPhysical, WriteN, Trap, KindOf, AccessWidthOf, Drop, CheckDeviceWrite, Wrap64, SetMem, SetDev, Same;
    var second := VirtualToPhysical(s, Wrap64(va + w), true);
    TranslationSame(s, Wrap64(va + w), true);
    TrapSame(second.s, 15, false);
    var u := SetMem(second.s, WriteN(second.s.mem, second.pa, Drop(value, w), AccessWidthOf(op) - w));
    SettersSame(second.s); SettersSame(u);
    SameAfter(second.s, u, SetDev(u, CheckDeviceWrite(second.s.dev, pa, AccessWidthOf(op), value)));
    SameAfter(s, second.s, StoreRest(s, op, value, va, pa, w));
  }

  lemma SystemSame(s: State, rd: bv5, imm: int)
    ensures Same(s, SystemInstruction(s, rd, imm))
  {
    hide Trap, P.Mret, P.Sret, P.GetMpp, Transferred, Failed, Aborted, Same;
    SettersSame(s);
    TrapSame(s, EcallCause(s.sys.priv), false);
  }

  /** `t` has a value of the load's width in rd, and otherwise the registers of `s`. */
  ghost predicate LoadedInto(s: State, t: State, op: Op, rd: bv5)
    requires IsLoad(op)
  {
    t.cfg == s.cfg && exists data: u64 :: data < Pow256(AccessWidthOf(op)) && t.regs == s.regs[rd as nat := LoadResult(op, data)]
  }

  lemma LoadedAfter(s: State, t: State, u: State, op: Op, rd: bv5)
    requires IsLoad(op) && Same(s, t) && (Same(t, u) || LoadedInto(t, u, op, rd))
    ensures Same(s, u) || LoadedInto(s, u, op, rd)
  {
    hide KindOf, LoadResult, AccessWidthOf, Pow256;
  }

  lemma Loads(s: State, op: Op, rd: bv5, data: u64)
    requires IsLoad(op) && data < Pow256(AccessWidthOf(op))
    ensures LoadedInto(s, SetReg(s, rd, LoadResult(op, data)), op, rd)
  {
    hide KindOf, LoadResult, AccessWidthOf, Pow256;
  }

  /** A load leaves the registers alone, or puts a value of its width into rd. */
  lemma LoadRegisters(s: State, op: Op, rd: bv5, base: u64, imm: int)
    requires IsLoad(op)
    ensures Same(s, Load(s, op, rd, base, imm)) || LoadedInto(s, Load(s, op, rd, base, imm), op, rd)
  {
    hide VirtualToPhysical, LoadFrom, WriteN, Trap, KindOf, Wrap64, SetMem, Same, LoadedInto;
    var u := SetMem(s, WriteN(s.mem, TIMER_MTIME, s.dev.elapsedCycles, 8));
    var first := VirtualToPhysical(u, Wrap64(base + imm), false);
    SettersSame(s); SettersSame(first.s);
    TranslationSame(u, Wrap64(base + imm), false);
    TrapSame(first.s, 13, false);
    SameAfter(s, u, first.s);
    if !first.s.aborted && !first.s.pageFault { LoadFromRegisters(first.s, op, rd, first.pa); }
    LoadedAfter(s, first.s, Load(s, op, rd, base, imm), op, rd);
  }

  lemma LoadFromRegisters(s: State, op: Op, rd: bv5, pa: u64)
    requires IsLoad(op)
    ensures Same(s, LoadFrom(s, op, rd, pa)) || LoadedInto(s, LoadFrom(s, op, rd, pa), op, rd)
  {
    hide LoadRest, ReadN, KindOf, GetAccessWidth, AccessWidthOf, LoadResult, Pow256, SetReg, Same, LoadedInto;
    var width := AccessWidthOf(op);
    AccessWidthBounds(width, pa);
    if GetAccessWidth(width, pa) == width {
      ReadBound(s.mem, pa, width);
      Loads(s, op, rd, ReadData(s.mem, pa, width));
    } else {
      LoadRestRegisters(s, op, rd, pa, GetAccessWidth(width, pa));
    }
  }

  lemma LoadRestRegisters(s: State, op: Op, rd: bv5, pa: u64, n: nat)
    requires IsLoad(op) && n < AccessWidthOf(op)
    ensures Same(s, LoadRest(s, op, rd, pa, n)) || LoadedInto(s, LoadRest(s, op, rd, pa, n), op, rd)
  {
    hide VirtualToPhysical, Trap, KindOf, AccessWidthOf, Wrap64, LoadResult, Pow256, Joined, SetReg, Same, LoadedInto;
    var width := AccessWidthOf(op);
    var second := VirtualToPhysical(s, Wrap64(pa + n), false);
    TranslationSame(s, Wrap64(pa + n), false);
    TrapSame(second.s, 13, false);
    SettersSame(second.s);
    TranslatedLoad.JoinedFits(s.mem, second.s.mem, pa, second.pa, n, width - n);
    Loads(second.s, op, rd, Joined(s.mem, second.s.mem, pa, second.pa, n, width - n));
    LoadedAfter(s, second.s, LoadRest(s, op, rd, pa, n), op, rd);
  }

  // ----- one instruction -----

  /** The instruction puts something into rd that is not a sign-extended 32-bit value. */
  predicate Breaks(s: State, d: Decoded, csr: nat)
    requires csr < P.CSR_SIZE
  {
    && d.rd as nat != 0
    && match KindOf(d.op)
       case Jump | JumpRegister => !IsSext32(s.nextPc)
       case CsrAccess => !IsSext32(Value64(s.sys.csr[csr]))
       case Loading => d.op in {LWU, LD} && !IsSext32(X(Load(s, d.op, d.rd, X(s, d.rs1), Imm(d.imm)), d.rd))
       case _ => false
  }

  /** The registers afterwards, x0 reading as zero, are narrow. */
  predicate Keeps(t: State) { !t.cfg.wide && AllNarrow(t.regs[0 := 0]) }

  lemma PutKeeps(s: State, t: State, rd: bv5, v: u64)
    requires Narrow(s) && t.cfg == s.cfg && t.regs == s.regs[rd as nat := v]
    ensures Keeps(t) <==> rd as nat == 0 || IsSext32(v)
  {
    hide IsSext32, AllNarrow;
    Assigned(s.regs, rd, v);
  }

  lemma SameKeeps(s: State, t: State)
    requires Narrow(s) && Same(s, t)
    ensures Keeps(t) && X(t, 0) == X(s, 0)
  {
    hide IsSext32, AllNarrow;
    Assigned(s.regs, 0, 0);
  }

  lemma LoadKeeps(s: State, op: Op, rd: bv5, base: u64, imm: int)
    requires IsLoad(op) && Narrow(s)
    ensures var t := Load(s, op, rd, base, imm);
      Keeps(t) <==> !(rd as nat != 0 && op in {LWU, LD} && !IsSext32(X(t, rd)))
  {
    hide IsSext32, AllNarrow, Load, KindOf, LoadResult, AccessWidthOf, Keeps, Pow256;
    var t := Load(s, op, rd, base, imm);
    LoadRegisters(s, op, rd, base, imm);
    if Same(s, t) {
      SameKeeps(s, t);
      OwnNarrow(s, rd);
    } else {
      var data: u64 :| data < Pow256(AccessWidthOf(op)) && t.regs == s.regs[rd as nat := LoadResult(op, data)];
      PutKeeps(s, t, rd, LoadResult(op, data));
      A.Powers(op);
      if op !in {LWU, LD} { LoadedNarrow(op, data); }
    }
  }

  lemma OwnNarrow(s: State, rd: bv5)
    requires Narrow(s)
    ensures IsSext32(X(s, rd))
  {
    hide IsSext32;
  }

  /** On the 32-bit machine an instruction keeps every register sign-extended exactly when it is none of those. */
  lemma ExecuteNarrow(s: State, d: Decoded, csr: nat)
    requires Narrow(s) && csr < P.CSR_SIZE
    ensures Keeps(Execute(s, d, csr)) <==> !Breaks(s, d, csr)
  {
    hide IsSext32, AllNarrow, Keeps, Narrow, KindOf, Load, Store, SystemInstruction, Same;
    hide OperationValue, ImmediateValue, ShiftValue, ComparisonValue, MultInstruction, Csr, BranchTaken, Jal, Jalr, Upper, Ends;
    hide Imm, X, Wrap64, Value32, Value64, SetReg, GoTo, Failed, Aborted;
    var t := Execute(s, d, csr);
    var a, b := X(s, d.rs1), X(s, d.rs2);
    SettersSame(s);
    forall u: State | Same(s, u) ensures Keeps(u) { SameKeeps(s, u); }
    match KindOf(d.op) {
      case Operation => ValuePut(s, d.rd, OperationValue(s.cfg.Xlen, d.op, a, b)); IsNarrowMachine(s); OperationNarrow(d.op, a, b);
      case Immediate => ValuePut(s, d.rd, ImmediateValue(s.cfg.Xlen, d.op, a, Imm(d.imm))); IsNarrowMachine(s); ImmediateNarrow(d.op, a, Imm(d.imm));
      case ShiftImmediate =>
        ValuePut(s, d.rd, ShiftValue(s.cfg.Xlen, d.op, a, Value32(d.imm))); IsNarrowMachine(s);
        OwnNarrow(s, d.rs1); ShiftNarrow(d.op, a, Value32(d.imm));
      case Comparison => ValuePut(s, d.rd, ComparisonValue(d.op, a, b, Imm(d.imm))); ComparisonNarrow(d.op, a, b, Imm(d.imm));
      case ImmediateComparison => ValuePut(s, d.rd, ComparisonValue(d.op, a, b, Imm(d.imm))); ComparisonNarrow(d.op, a, b, Imm(d.imm));
      case Multiplication => MultKeeps(s, d.op, d.rd, a, b);
      case Jump => LinkKeeps(s, d.rd, Wrap64(s.pc + Imm(d.imm)), false);
      case JumpRegister => LinkKeeps(s, d.rd, Wrap64(a + Imm(d.imm)) / 2 * 2, Ends(s, d.rd, d.rs1, Imm(d.imm)));
      case Loading => LoadKeeps(s, d.op, d.rd, a, Imm(d.imm));
      case Storing => StoreSame(s, d.op, b, a, Imm(d.imm));
      case LoadUpper => ValuePut(s, d.rd, Upper(s.cfg.Xlen, Wrap64(Imm(d.imm)))); IsNarrowMachine(s); UpperNarrow(Wrap64(Imm(d.imm)));
      case AddUpper => ValuePut(s, d.rd, Upper(s.cfg.Xlen, Wrap64(s.pc + Imm(d.imm)))); IsNarrowMachine(s); UpperNarrow(Wrap64(s.pc + Imm(d.imm)));
      case System => SystemSame(s, d.rd, Imm(d.imm));
      case CsrAccess => CsrKeeps(s, d.op, d.rd, d.rs1, csr);
      case _ =>
    }
  }

  lemma IsNarrowMachine(s: State)
    requires Narrow(s)
    ensures s.cfg.Xlen == 32
  {
    hide IsSext32;
  }

  lemma ValuePut(s: State, rd: bv5, v: u64)
    requires Narrow(s)
    ensures Keeps(SetReg(s, rd, v)) <==> rd as nat == 0 || IsSext32(v)
  {
    hide IsSext32, AllNarrow, Keeps;
    PutKeeps(s, SetReg(s, rd, v), rd, v);
  }

  lemma ComparisonNarrow(op: Op, a: u64, b: u64, imm: int)
    requires IsComparison(op)
    ensures IsSext32(ComparisonValue(op, a, b, imm))
  {
    hide KindOf, IsSext32, Signed64, Wrap64;
    ZeroNarrow();
  }

  lemma MultKeeps(s: State, op: Op, rd: bv5, a: u64, b: u64)
    requires Narrow(s) && IsMultiplication(op)
    ensures Keeps(MultInstruction(s, op, rd, a, b))
  {
    hide IsSext32, AllNarrow, Keeps, KindOf, MultValue, SetReg, Aborted, Same, Narrow;
    IsNarrowMachine(s);
    ProductNarrow(op, a, b);
    SettersSame(s);
    SameKeeps(s, Aborted(s));
    var o := MultValue(32, op, a, b);
    if o.Value? { ValuePut(s, rd, o.v); }
  }

  lemma LinkKeeps(s: State, rd: bv5, target: u64, ends: bool)
    requires Narrow(s)
    ensures Keeps(Jal(s, rd, target)) <==> rd as nat == 0 || IsSext32(s.nextPc)
    ensures Keeps(Jalr(s, rd, target, ends)) <==> rd as nat == 0 || IsSext32(s.nextPc)
  {
    hide IsSext32, AllNarrow, Keeps;
    PutKeeps(s, Jal(s, rd, target), rd, s.nextPc);
    PutKeeps(s, Jalr(s, rd, target, ends), rd, s.nextPc);
  }

  lemma CsrKeeps(s: State, op: Op, rd: bv5, rs1: bv5, csr: nat)
    requires Narrow(s) && IsCsr(op) && csr < P.CSR_SIZE
    ensures Keeps(Csr(s, op, rd, rs1, csr)) <==> rd as nat == 0 || IsSext32(Value64(s.sys.csr[csr]))
  {
    hide IsSext32, AllNarrow, Keeps, KindOf, P.CsrInstruction, CsrOpOf, CsrOperand, Value64;
    PutKeeps(s, Csr(s, op, rd, rs1, csr), rd, Value64(s.sys.csr[csr]));
  }

  /** Untranslated, a doubleword breaks it unless it is itself narrow, and an unsigned word when bit 31 is set. */
  lemma BareLoadBreaks(s: State, d: Decoded, csr: nat)
    requires csr < P.CSR_SIZE && d.op in {LWU, LD} && d.rd as nat != 0 && A.Bare(s)
    ensures var data := A.LoadedBare(s, d.op, X(s, d.rs1), Imm(d.imm));
      Breaks(s, d, csr) <==> if d.op == LD then !IsSext32(data) else data % TWO32 >= TWO31
  {
    hide A.Bare, Load, WriteN, ReadN, Wrap64, Imm, SetMem, Sext32;
    var a, imm := X(s, d.rs1), Imm(d.imm);
    A.LoadBare(s, d.op, d.rd, a, imm);
    var data := A.LoadedBare(s, d.op, a, imm);
    LowWordNarrow(data);
    PutReads(SetMem(s, WriteN(s.mem, TIMER_MTIME, s.dev.elapsedCycles, 8)), d.rd, LoadResult(d.op, data));
  }

  /** Through page tables the same of the data the load finds. */
  lemma TranslatedLoadBreaks(s: State, sc: PageWalk.Scheme, root: nat, d: Decoded, csr: nat)
    requires csr < P.CSR_SIZE && d.op in {LWU, LD} && d.rd as nat != 0 && TranslatedStore.Translated(s, sc, root)
    requires TranslatedLoad.Fetchable(sc, TranslatedLoad.Refreshed(s), root, Wrap64(X(s, d.rs1) + Imm(d.imm)), AccessWidthOf(d.op))
    ensures var data := TranslatedLoad.Data(sc, TranslatedLoad.Refreshed(s), root, Wrap64(X(s, d.rs1) + Imm(d.imm)), AccessWidthOf(d.op));
      Breaks(s, d, csr) <==> if d.op == LD then !IsSext32(data) else data >= TWO31
  {
    hide TranslatedStore.Translated, TranslatedLoad.Fetchable, TranslatedLoad.Refreshed, TranslatedLoad.Data, TranslatedLoad.OnlyUsedBits, TranslatedLoad.Source;
    hide Load, Wrap64, Imm, SetMem, Sext32, ByteOf, TranslatedLoad.AfterFirst, TranslatedStore.FirstWidth, Pow256;
    var a, imm := X(s, d.rs1), Imm(d.imm);
    TranslatedLoad.LoadTranslated(s, sc, root, d.op, d.rd, a, imm);
    var data := TranslatedLoad.Data(sc, TranslatedLoad.Refreshed(s), root, Wrap64(a + imm), AccessWidthOf(d.op));
    A.Powers(d.op);
    LowWordNarrow(data);
    PutReads(SetMem(s, Load(s, d.op, d.rd, a, imm).mem), d.rd, LoadResult(d.op, data));
  }

  /** A 32-bit machine about to execute the instruction before address 2^31 + 4. */
  function LinkMachine(): State { PagedExamples.Machine(seq(SIZE, i => 0)).(pc := TWO31, nextPc := TWO31 + 4) }

  /** JAL there leaves a link value in ra that is no sign-extended 32-bit number. */
  lemma LinkBreaks(imm: bv32)
    ensures var s := LinkMachine();
      var t := Execute(s, Decoded(JAL, 1, 0, 0, imm), 0);
      Narrow(s) && X(t, 1) == TWO31 + 4 && !IsSext32(X(t, 1)) && !Keeps(t)
  {
    hide Wrap64, Imm, Load, IsSext32, PagedExamples.System;
    ZeroNarrow();
    NarrowExactly(TWO31 + 4);
    var s := LinkMachine();
    PutReads(s, 1, s.nextPc);
    ExecuteNarrow(s, Decoded(JAL, 1, 0, 0, imm), 0);
  }

  lemma PutReads(s: State, rd: bv5, v: u64)
    ensures X(SetReg(s, rd, v), rd) == v
  {}

  lemma LowWordNarrow(x: u64)
    ensures IsSext32(x % TWO32) <==> x % TWO32 < TWO31
  {}

  // ----- iterations and runs -----

  lemma RequestSame(s: State)
    ensures Same(s, Ticked(s))
  {
    hide TimerTick, InterruptCheck;
    var u := s.(pc := s.nextPc);
    TickSame(u);
    CheckSame(TimerTick(u));
  }

  lemma TickSame(s: State)
    ensures Same(s, TimerTick(s))
  {
    hide P.SetInterruptPending, Tick;
  }

  lemma CheckSame(s: State)
    ensures Same(s, InterruptCheck(s))
  {
    hide P.SetInterruptPending;
    assert Same(s, DiskInterruptCheck(s));
  }

  lemma FetchSame(s: State, pc: u64)
    ensures Same(s, LoadCmd(s, pc).s)
  {
    hide VirtualToPhysical, Read32, Wrap64, Same;
    TranslationSame(s, pc, false);
    var first := VirtualToPhysical(s, pc, false).s;
    TranslationSame(first, Wrap64(pc + 2), false);
    SameAfter(s, first, VirtualToPhysical(first, Wrap64(pc + 2), false).s);
  }

  /** The state in which the fetched word is executed. */
  function Fetching(s: State): Fetched { LoadCmd(Ticked(s), Ticked(s).pc) }

  function Advanced(s: State, cmd: u32): State { s.(nextPc := Wrap64(s.pc + Length(cmd))) }

  /** The iteration executes an instruction that breaks it. */
  predicate StepBreaks(s: State)
  {
    var f := Fetching(s);
    && !TakesInterrupt(s) && !f.s.aborted && !f.s.pageFault
    && Breaks(Advanced(f.s, f.cmd), DecodeWord(f.cmd, s.cfg.Mxl), CsrNumber(f.cmd))
  }

  lemma FinishNarrow(t: State)
    requires t.aborted ==> Narrow(t)
    ensures Narrow(Finish(t)) <==> Keeps(t)
  {
    hide IsSext32;
    if t.aborted { Assigned(t.regs, 0, 0); }
  }

  lemma SameNarrow(s: State, t: State)
    requires Narrow(s) && Same(s, t)
    ensures Narrow(t) && t.cfg.Mxl == s.cfg.Mxl
  {
    hide IsSext32;
  }

  /** An instruction that ends the emulator leaves the registers alone. */
  lemma AbortNarrow(s: State, d: Decoded, csr: nat)
    requires Narrow(s) && csr < P.CSR_SIZE && !s.aborted
    ensures Execute(s, d, csr).aborted ==> Narrow(Execute(s, d, csr))
  {
    hide IsSext32, Narrow, KindOf, Load, Store, SystemInstruction, Same;
    hide OperationValue, ImmediateValue, ShiftValue, ComparisonValue, MultInstruction, Csr, BranchTaken, Upper, Ends;
    hide Imm, X, Wrap64, Value32, Value64, Failed, Aborted, SetReg, GoTo, Jal, Jalr;
    SettersSame(s);
    SettersGoOn(s);
    forall u: State | Same(s, u) ensures Narrow(u) { SameNarrow(s, u); }
    var a, b := X(s, d.rs1), X(s, d.rs2);
    match KindOf(d.op) {
      case Jump => JumpsGoOn(s, d.rd, Wrap64(s.pc + Imm(d.imm)), false);
      case JumpRegister => JumpsGoOn(s, d.rd, Wrap64(a + Imm(d.imm)) / 2 * 2, Ends(s, d.rd, d.rs1, Imm(d.imm)));
      case Multiplication => MultAborts(s, d.op, d.rd, a, b);
      case Loading => LoadAborts(s, d.op, d.rd, a, Imm(d.imm));
      case Storing => StoreSame(s, d.op, b, a, Imm(d.imm));
      case System => SystemSame(s, d.rd, Imm(d.imm));
      case CsrAccess => CsrGoesOn(s, d.op, d.rd, d.rs1, csr);
      case _ =>
    }
  }

  lemma SettersGoOn(s: State)
    ensures forall rd: bv5, v: u64 :: SetReg(s, rd, v).aborted == s.aborted
    ensures forall v: u64 :: GoTo(s, v).aborted == s.aborted
  {}

  lemma JumpsGoOn(s: State, rd: bv5, v: u64, ends: bool)
    ensures Jal(s, rd, v).aborted == s.aborted && Jalr(s, rd, v, ends).aborted == s.aborted
  {}

  lemma CsrGoesOn(s: State, op: Op, rd: bv5, rs1: bv5, csr: nat)
    requires IsCsr(op) && csr < P.CSR_SIZE
    ensures Csr(s, op, rd, rs1, csr).aborted == s.aborted
  {
    hide KindOf, P.CsrInstruction, CsrOpOf, CsrOperand, Value64;
  }

  lemma MultAborts(s: State, op: Op, rd: bv5, a: u64, b: u64)
    requires IsMultiplication(op) && !s.aborted
    ensures MultInstruction(s, op, rd, a, b).aborted ==> Same(s, MultInstruction(s, op, rd, a, b))
  {
    hide MultValue, KindOf;
  }

  lemma LoadAborts(s: State, op: Op, rd: bv5, base: u64, imm: int)
    requires IsLoad(op)
    ensures Load(s, op, rd, base, imm).aborted ==> Same(s, Load(s, op, rd, base, imm))
  {
    hide VirtualToPhysical, LoadFrom, WriteN, Trap, KindOf, Wrap64, SetMem, Same;
    var u := SetMem(s, WriteN(s.mem, TIMER_MTIME, s.dev.elapsedCycles, 8));
    var first := VirtualToPhysical(u, Wrap64(base + imm), false);
    SettersSame(s); SettersSame(first.s);
    TranslationSame(u, Wrap64(base + imm), false);
    TrapSame(first.s, 13, false);
    SameAfter(s, u, first.s);
    if !first.s.aborted && !first.s.pageFault { LoadFromAborts(first.s, op, rd, first.pa); }
    if Same(first.s, Load(s, op, rd, base, imm)) { SameAfter(s, first.s, Load(s, op, rd, base, imm)); }
  }

  lemma LoadFromAborts(s: State, op: Op, rd: bv5, pa: u64)
    requires IsLoad(op) && !s.aborted
    ensures LoadFrom(s, op, rd, pa).aborted ==> Same(s, LoadFrom(s, op, rd, pa))
  {
    hide VirtualToPhysical, ReadN, Trap, KindOf, GetAccessWidth, AccessWidthOf, LoadResult, Joined, Wrap64, Same;
    AccessWidthBounds(AccessWidthOf(op), pa);
    var next := Wrap64(pa + GetAccessWidth(AccessWidthOf(op), pa));
    var second := VirtualToPhysical(s, next, false);
    TranslationSame(s, next, false);
    TrapSame(second.s, 13, false);
    SameAfter(s, second.s, Trap(second.s, 13, false));
  }

  lemma StepNarrow(s: State)
    requires Narrow(s) && !Halted(s)
    ensures Narrow(Step(s)) <==> !StepBreaks(s)
  {
    hide Narrow, Keeps, Ticked, LoadCmd, Execute, Finish, DecodeWord, Trap, P.SelectInterrupt, Same, Breaks, Wrap64;
    var t := Ticked(s);
    RequestSame(s);
    match P.SelectInterrupt(t.sys)
    case Take(cause) => TrapSame(t, cause, true); SameAfter(s, t, Trap(t, cause, true)); SameNarrow(s, Trap(t, cause, true));
    case NoInterrupt =>
      var f := LoadCmd(t, t.pc);
      FetchSame(t, t.pc);
      SameAfter(s, t, f.s);
      SameNarrow(s, f.s);
      if f.s.aborted {
      } else if f.s.pageFault {
        TrapSame(f.s, 12, false);
        SameAfter(s, f.s, Trap(f.s, 12, false));
        SameNarrow(s, Trap(f.s, 12, false));
      } else {
        WordNarrow(f.s, f.cmd);
      }
  }

  lemma WordNarrow(s: State, cmd: u32)
    requires Narrow(s) && !s.aborted
    ensures Narrow(ExecuteWord(s, cmd)) <==> !Breaks(Advanced(s, cmd), DecodeWord(cmd, s.cfg.Mxl), CsrNumber(cmd))
  {
    hide Keeps, Execute, Finish, DecodeWord, Breaks, Wrap64, IsSext32;
    var t, d, csr := Advanced(s, cmd), DecodeWord(cmd, s.cfg.Mxl), CsrNumber(cmd);
    ExecuteNarrow(t, d, csr);
    AbortNarrow(t, d, csr);
    FinishNarrow(Execute(t, d, csr));
  }

  /** No iteration of the run breaks it. */
  predicate RunClean(s: State, n: nat)
    decreases n
  {
    n == 0 || Halted(s) || (!StepBreaks(s) && RunClean(Step(s), n - 1))
  }

  /** However long the 32-bit machine runs, its registers stay sign-extended while none of these instructions is executed. */
  lemma {:induction false} RunNarrow(s: State, n: nat)
    requires Narrow(s) && RunClean(s, n)
    ensures Narrow(Run(s, n))
    decreases n
  {
    hide Narrow, Step, Halted, StepBreaks;
    if n > 0 && !Halted(s) {
      StepNarrow(s);
      RunNarrow(Step(s), n - 1);
    }
  }

  /** A link value breaks it exactly from 2^31 on, unless it is in the uppermost 2 GiB of the 64-bit numbers. */
  lemma NarrowExactly(x: u64)
    ensures IsSext32(x) <==> x < TWO31 || x >= TWO64 - TWO31
  {}
}
