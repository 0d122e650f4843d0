/**
  What the register, immediate, jump and branch instructions compute, in arithmetic: sums, products and
  quotients by powers of two, bits, comparisons of numbers. Chapters 2 and 5 of the Unprivileged ISA.
 */
module InstructionMeaning {
  import opened Words
  import opened Decoder
  import opened Alu
  import opened CpuModel
  import opened BitArithmetic
  import MachineMode
  import WForms
  import WordBits
  import P = Privileged

  /** `v` is the `xlen`-bit value of `r` as a register of that machine holds it. */
  predicate Holds(xlen: int, v: u64, r: int)
  {
    if xlen == 32 then IsSext32(v) && v % TWO32 == r % TWO32 else v == r % TWO64
  }

  /** Bits of numbers below 2^xlen, those of a narrow register being sign-extended. */
  predicate HoldsBit(xlen: int, v: u64, k: nat, bit: nat)
  {
    (xlen == 32 ==> IsSext32(v)) && BitOf(v, k) == bit
  }

  lemma SextHolds(x: u64, r: int)
    requires x % TWO32 == r % TWO32
    ensures Holds(32, Sext32(x), r)
  {
    Sext32Low(x);
  }

  lemma SextHoldsWrap(r: int)
    ensures Holds(32, Sext32(Wrap64(r)), r)
  {
    hide Wrap64;
    WForms.LowOfWrap(r);
    SextHolds(Wrap64(r), r);
  }

  // ----- sums -----

  lemma Sums(xlen: int, a: u64, b: u64)
    requires xlen in {32, 64}
    ensures Holds(xlen, OperationValue(xlen, ADD, a, b), a + b) && Holds(xlen, OperationValue(xlen, SUB, a, b), a - b)
    ensures Holds(32, OperationValue(xlen, ADDW, a, b), a + b) && Holds(32, OperationValue(xlen, SUBW, a, b), a - b)
  {
    hide Sext32, Holds, IsSext32;
    SextHoldsWrap(a + b); SextHoldsWrap(a - b);
    WideHolds(a + b); WideHolds(a - b);
  }

  lemma WideHolds(r: int)
    ensures Holds(64, Wrap64(r), r)
  {}

  lemma ImmediateSum(xlen: int, a: u64, imm: int)
    requires xlen in {32, 64}
    ensures Holds(xlen, ImmediateValue(xlen, ADDI, a, imm), a + imm) && Holds(32, ImmediateValue(xlen, ADDIW, a, imm), a + imm)
  {
    hide Sext32, Holds, IsSext32;
    SextHoldsWrap(a + imm);
    WideHolds(a + imm);
  }

  // ----- bits -----

  lemma HalfModulo(x: nat, p: nat)
    requires p > 0
    ensures x % (2 * p) / 2 == x / 2 % p && x % (2 * p) % 2 == x % 2
  {
    var h := x / 2;
    var q, r := h / p, h % p;
    QuotientBelow(h, p);
    assert x == 2 * h + x % 2;
    assert q * p * 2 == q * (2 * p);
    ModUnique(x, 2 * p, q, 2 * r + x % 2);
    ModUnique(2 * r + x % 2, 2, r, x % 2);
  }

  /** The bits of a remainder by 2^n are the lower bits. */
  lemma {:induction false} LowBit(x: nat, n: nat, k: nat)
    requires k < n
    ensures BitOf(x % Pow2(n), k) == BitOf(x, k)
    decreases n
  {
    var p := Pow2(n - 1);
    HalfModulo(x, p);
    if k == 0 {
      FirstBit(x); FirstBit(x % Pow2(n));
    } else {
      NextBit(x, k); NextBit(x % Pow2(n), k);
      LowBit(x / 2, n - 1, k - 1);
    }
  }

  lemma SextBit(x: u64, k: nat)
    requires k < 32
    ensures BitOf(Sext32(x), k) == BitOf(x, k)
  {
    hide Sext32, BitOf;
    WordBits.Pow2Is32();
    Sext32Low(x);
    LowBit(x, 32, k);
    LowBit(Sext32(x), 32, k);
  }

  /** Bit of a conjunction, disjunction or difference. */
  function LogicBit(op: Op, a: nat, b: nat): nat
  {
    match op
    case AND | ANDI => if a == 1 && b == 1 then 1 else 0
    case OR | ORI => if a == 1 || b == 1 then 1 else 0
    case _ => if a == b then 0 else 1
  }

  lemma WordLogic(a: u64, b: u64, k: nat)
    ensures BitOf(And64(a, b), k) == LogicBit(AND, BitOf(a, k), BitOf(b, k))
    ensures BitOf(Or64(a, b), k) == LogicBit(OR, BitOf(a, k), BitOf(b, k))
    ensures BitOf(Xor64(a, b), k) == LogicBit(XOR, BitOf(a, k), BitOf(b, k))
  {
    hide BitOf, Bits64, And, Or, Xor;
    LogicBits(Bits64(a), Bits64(b), k);
  }

  lemma Logic(xlen: int, op: Op, a: u64, b: u64, k: nat)
    requires xlen in {32, 64} && op in {AND, OR, XOR} && k < xlen
    ensures HoldsBit(xlen, OperationValue(xlen, op, a, b), k, LogicBit(op, BitOf(a, k), BitOf(b, k)))
  {
    hide BitOf, And64, Or64, Xor64, Sext32;
    WordLogic(a, b, k);
    var t := if op == AND then And64(a, b) else if op == OR then Or64(a, b) else Xor64(a, b);
    if xlen == 32 { SextBit(t, k); Sext32Low(t); }
  }

  lemma ImmediateLogic(xlen: int, op: Op, a: u64, imm: int, k: nat)
    requires xlen in {32, 64} && op in {ANDI, ORI, XORI} && k < xlen
    ensures HoldsBit(xlen, ImmediateValue(xlen, op, a, imm), k, LogicBit(op, BitOf(a, k), BitOf(imm % TWO64, k)))
  {
    hide BitOf, And64, Or64, Xor64, Sext32;
    WordLogic(a, Wrap64(imm), k);
    var t := if op == ANDI then And64(a, Wrap64(imm)) else if op == ORI then Or64(a, Wrap64(imm)) else Xor64(a, Wrap64(imm));
    if xlen == 32 { SextBit(t, k); Sext32Low(t); }
  }

  // ----- shifts -----

  lemma LeftShifts(xlen: int, a: u64, b: u64)
    requires xlen in {32, 64}
    ensures Holds(xlen, OperationValue(xlen, SLL, a, b), a * Pow2(b % xlen))
    ensures Holds(32, OperationValue(xlen, SLLW, a, b), a * Pow2(b % 32))
  {
    hide Pow2, Sext32, Holds, IsSext32, Wrap64;
    SextHoldsWrap(a * Pow2(b % 32));
    WideHolds(a * Pow2(b % 64));
  }

  lemma RightBelow(x: nat, n: nat, m: nat)
    requires x < m
    ensures x / Pow2(n) < m
  {
    QuotientBelow(x, Pow2(n));
  }

  lemma NarrowHolds(x: u64)
    requires x < TWO32
    ensures Holds(32, Sext32(x), x) && Holds(64, x, x)
  {
    hide Sext32;
    SextHolds(x, x);
  }

  lemma WideItself(x: u64)
    ensures Holds(64, x, x)
  {}

  lemma WideRight(a: u64, b: u64)
    ensures Holds(64, OperationValue(64, SRL, a, b), a / Pow2(b % 64))
  {
    hide Pow2, Holds;
    RightBelow(a, b % 64, TWO64);
    WideItself(a / Pow2(b % 64));
  }

  lemma NarrowRight(xlen: int, a: u64, b: u64)
    ensures Holds(32, OperationValue(32, SRL, a, b), a % TWO32 / Pow2(b % 32))
    ensures Holds(32, OperationValue(xlen, SRLW, a, b), a % TWO32 / Pow2(b % 32))
  {
    hide Pow2, Sext32, Holds, ShiftRight, OperationValue;
    RightBelow(a % TWO32, b % 32, TWO32);
    NarrowHolds(a % TWO32 / Pow2(b % 32));
    RightIs(a % TWO32, b % 32);
    NarrowRightIs(xlen, a, b);
  }

  lemma RightIs(x: u64, n: nat)
    ensures ShiftRight(x, n) == x / Pow2(n)
  {}

  lemma NarrowRightIs(xlen: int, a: u64, b: u64)
    ensures OperationValue(32, SRL, a, b) == Sext32(ShiftRight(a % TWO32, b % 32))
    ensures OperationValue(xlen, SRLW, a, b) == Sext32(ShiftRight(a % TWO32, b % 32))
  {
    hide ShiftRight, Sext32, Wrap64;
  }

  /** Arithmetic shifts round down; on the narrow machine of a sign-extended register. */
  lemma ArithmeticShifts(xlen: int, a: u64, b: u64)
    requires xlen in {32, 64}
    ensures Holds(xlen, OperationValue(xlen, SRA, a, b), Signed64(a) / Pow2(b % xlen))
    ensures Holds(32, OperationValue(xlen, SRAW, a, b), Signed32(a % TWO32) / Pow2(b % 32))
  {
    hide Pow2, Sext32, IsSext32, Wrap64, Signed64, Holds;
    SextHoldsWrap(Signed64(a) / Pow2(b % 32));
    WideHolds(Signed64(a) / Pow2(b % 64));
    WForms.OperationsNarrow(SRAW, a, b);
    SrawSame(xlen, a, b);
    SextHoldsWrap(Signed64(Sext32(a)) / Pow2(Sext32(b) % 32));
    WForms.Amounts(b);
  }

  lemma SrawSame(xlen: int, a: u64, b: u64)
    ensures OperationValue(xlen, SRAW, a, b) == OperationValue(64, SRAW, a, b)
  {
    hide Pow2, Sext32, Wrap64;
  }

  lemma ImmediateLeft(xlen: int, a: u64, n: nat)
    requires xlen in {32, 64}
    ensures Holds(xlen, ShiftValue(xlen, SLLI, a, n), a * Pow2(n))
    ensures Holds(32, ShiftValue(xlen, SLLIW, a, n), a * Pow2(n))
  {
    hide Pow2, Sext32, Holds, Wrap64;
    SextHoldsWrap(a * Pow2(n));
    WideHolds(a * Pow2(n));
    LowOfLow(a * Pow2(n));
    SextHolds(Wrap64(a * Pow2(n)) % TWO32, a * Pow2(n));
  }

  lemma WideImmediateRight(a: u64, n: nat)
    ensures Holds(64, ShiftValue(64, SRLI, a, n), a / Pow2(n))
  {
    hide Pow2, Holds;
    RightBelow(a, n, TWO64);
    WideItself(a / Pow2(n));
  }

  lemma NarrowImmediateRight(xlen: int, a: u64, n: nat)
    ensures Holds(32, ShiftValue(32, SRLI, a, n), a % TWO32 / Pow2(n))
    ensures Holds(32, ShiftValue(xlen, SRLIW, a, n), a % TWO32 / Pow2(n))
  {
    hide Pow2, Sext32, Holds, ShiftRight, ShiftValue;
    RightBelow(a % TWO32, n, TWO32);
    NarrowHolds(a % TWO32 / Pow2(n));
    RightIs(a % TWO32, n);
    NarrowImmediateRightIs(xlen, a, n);
  }

  lemma NarrowImmediateRightIs(xlen: int, a: u64, n: nat)
    ensures ShiftValue(32, SRLI, a, n) == Sext32(ShiftRight(a % TWO32, n))
    ensures ShiftValue(xlen, SRLIW, a, n) == Sext32(ShiftRight(a % TWO32, n))
  {
    hide ShiftRight, Sext32, Wrap64;
  }

  lemma ImmediateArithmetic(xlen: int, a: u64, n: nat)
    requires xlen in {32, 64}
    ensures Holds(64, ShiftValue(xlen, SRAI, a, n), Signed64(a) / Pow2(n))
    ensures Holds(64, ShiftValue(xlen, SRAIW, a, n), Signed32(a % TWO32) / Pow2(n))
  {
    hide Pow2, Sext32, Signed64, Signed32, Holds, Wrap64;
    WideHolds(Signed64(a) / Pow2(n));
    WideHolds(Signed32(a % TWO32) / Pow2(n));
  }

  lemma LowOfLow(r: int)
    ensures Wrap64(r) % TWO32 % TWO32 == r % TWO32
  {
    WForms.LowOfWrap(r);
  }

  lemma Products(xlen: int, a: u64, b: u64)
    requires xlen in {32, 64}
    ensures var p, w := MultValue(xlen, MUL, a, b), MultValue(xlen, MULW, a, b);
      p.Value? && w.Value? && Holds(xlen, p.v, a * b) && Holds(32, w.v, a * b)
  {
    hide Sext32, IsSext32, Wrap64, Holds;
    SextHoldsWrap(a * b);
    WideHolds(a * b);
  }

  // ----- the table of instructions -----

  /** The bits of a logical instruction's result. */
  ghost predicate HoldsLogic(xlen: int, v: u64, op: Op, a: u64, b: u64)
  {
    forall k: nat :: k < xlen ==> HoldsBit(xlen, v, k, LogicBit(op, BitOf(a, k), BitOf(b, k)))
  }

  /** The unsigned number in the low xlen bits. */
  function Unsigned(xlen: int, a: u64): u64 { if xlen == 32 then a % TWO32 else a }

  function Truth(c: bool): u64 { if c then 1 else 0 }

  /** What rd receives, from the registers `a` and `b`, the immediate and the address of the instruction. */
  ghost predicate Gives(xlen: int, op: Op, a: u64, b: u64, imm: int, pc: u64, v: u64)
    requires xlen in {32, 64}
  {
    match op
    case ADD => Holds(xlen, v, a + b)
    case SUB => Holds(xlen, v, a - b)
    case ADDW => Holds(32, v, a + b)
    case SUBW => Holds(32, v, a - b)
    case AND | OR | XOR => HoldsLogic(xlen, v, op, a, b)
    case SLL => Holds(xlen, v, a * Pow2(b % xlen))
    case SRL => Holds(xlen, v, Unsigned(xlen, a) / Pow2(b % xlen))
    case SRA => Holds(xlen, v, Signed64(a) / Pow2(b % xlen))
    case SLLW => Holds(32, v, a * Pow2(b % 32))
    case SRLW => Holds(32, v, a % TWO32 / Pow2(b % 32))
    case SRAW => Holds(32, v, Signed32(a % TWO32) / Pow2(b % 32))
    case ADDI => Holds(xlen, v, a + imm)
    case ADDIW => Holds(32, v, a + imm)
    case ANDI | ORI | XORI => HoldsLogic(xlen, v, op, a, imm % TWO64)
    case SLLI => Holds(xlen, v, a * Pow2(imm % TWO32))
    case SRLI => Holds(xlen, v, Unsigned(xlen, a) / Pow2(imm % TWO32))
    case SRAI => Holds(64, v, Signed64(a) / Pow2(imm % TWO32))
    case SLLIW => Holds(32, v, a * Pow2(imm % TWO32))
    case SRLIW => Holds(32, v, a % TWO32 / Pow2(imm % TWO32))
    case SRAIW => Holds(64, v, Signed32(a % TWO32) / Pow2(imm % TWO32))
    case MUL => Holds(xlen, v, a * b)
    case MULW => Holds(32, v, a * b)
    case SLT => v == Truth(Signed64(a) < Signed64(b))
    case SLTU => v == Truth(a < b)
    case SLTI => v == Truth(Signed64(a) < imm)
    case SLTIU => v == Truth(a < imm % TWO64)
    case LUI => Holds(xlen, v, imm)
    case AUIPC => Holds(xlen, v, pc + imm)
    case _ => true
  }

  /** The operations in that table. */
  predicate IsGiven(op: Op)
  {
    match op
    case ADD | SUB | ADDW | SUBW | AND | OR | XOR | SLL | SRL | SRA | SLLW | SRLW | SRAW => true
    case ADDI | ADDIW | ANDI | ORI | XORI | SLLI | SRLI | SRAI | SLLIW | SRLIW | SRAIW => true
    case MUL | MULW | SLT | SLTU | SLTI | SLTIU | LUI | AUIPC => true
    case _ => false
  }

  lemma OperationGives(xlen: int, op: Op, a: u64, b: u64, imm: int, pc: u64)
    requires xlen in {32, 64} && IsOperation(op)
    ensures Gives(xlen, op, a, b, imm, pc, OperationValue(xlen, op, a, b))
  {
    hide Holds, HoldsBit, LogicBit, BitOf, OperationValue, Signed64, Signed32, Pow2;
    if op in {AND, OR, XOR} {
      forall k: nat | k < xlen ensures HoldsBit(xlen, OperationValue(xlen, op, a, b), k, LogicBit(op, BitOf(a, k), BitOf(b, k))) {
        Logic(xlen, op, a, b, k);
      }
    } else {
      Sums(xlen, a, b);
      LeftShifts(xlen, a, b); ArithmeticShifts(xlen, a, b);
      WideRight(a, b); NarrowRight(xlen, a, b);
    }
  }

  lemma ImmediateGives(xlen: int, op: Op, a: u64, b: u64, imm: int, pc: u64)
    requires xlen in {32, 64} && IsImmediate(op)
    ensures Gives(xlen, op, a, b, imm, pc, ImmediateValue(xlen, op, a, imm))
  {
    hide Holds, HoldsBit, LogicBit, BitOf, ImmediateValue;
    if op in {ANDI, ORI, XORI} {
      forall k: nat | k < xlen
        ensures HoldsBit(xlen, ImmediateValue(xlen, op, a, imm), k, LogicBit(op, BitOf(a, k), BitOf(imm % TWO64, k)))
      {
        ImmediateLogic(xlen, op, a, imm, k);
      }
    } else {
      ImmediateSum(xlen, a, imm);
    }
  }

  lemma ShiftGives(xlen: int, op: Op, a: u64, b: u64, imm: int, pc: u64)
    requires xlen in {32, 64} && IsShiftImmediate(op)
    ensures Gives(xlen, op, a, b, imm, pc, ShiftValue(xlen, op, a, imm % TWO32))
  {
    hide Holds, ShiftValue, Signed64, Signed32, Pow2;
    var n := imm % TWO32;
    ImmediateLeft(xlen, a, n); ImmediateArithmetic(xlen, a, n);
    WideImmediateRight(a, n); NarrowImmediateRight(xlen, a, n);
  }

  lemma ComparisonGives(xlen: int, op: Op, a: u64, b: u64, imm: int, pc: u64)
    requires xlen in {32, 64} && IsComparison(op)
    ensures Gives(xlen, op, a, b, imm, pc, ComparisonValue(op, a, b, imm))
  {
    hide Signed64, Signed32, Holds, HoldsLogic, Pow2, Unsigned;
    match op
    case SLT => case SLTU => case SLTI => case SLTIU =>
  }

  lemma ProductGives(xlen: int, op: Op, a: u64, b: u64, imm: int, pc: u64)
    requires xlen in {32, 64} && (op.MUL? || op.MULW?)
    ensures var o := MultValue(xlen, op, a, b); o.Value? && Gives(xlen, op, a, b, imm, pc, o.v)
  {
    hide Holds, MultValue;
    Products(xlen, a, b);
  }

  lemma UpperGives(xlen: int, op: Op, a: u64, b: u64, imm: int, pc: u64)
    requires xlen in {32, 64} && (op.LUI? || op.AUIPC?)
    ensures Gives(xlen, op, a, b, imm, pc, Upper(xlen, Wrap64(if op.LUI? then imm else pc + imm)))
  {
    hide Holds, Wrap64, Sext32;
    var r := if op.LUI? then imm else pc + imm;
    SextHoldsWrap(r);
    WideHolds(r);
  }

  /** The instruction sets rd to `v` and changes nothing else. */
  predicate Sets(s: State, t: State, rd: bv5, v: u64) { t == s.(regs := s.regs[rd as nat := v]) }

  /** A branch. */
  predicate Goes(s: State, t: State, jumps: bool, target: int) { t == if jumps then s.(nextPc := target % TWO64) else s }

  /** A jump: the link is the address behind the instruction, the target's lowest bit is clear where `even`. */
  predicate Jumps(s: State, t: State, rd: bv5, target: int, even: bool)
  {
    && t == s.(regs := s.regs[rd as nat := s.nextPc], nextPc := t.nextPc, error := t.error, end := t.end)
    && (t.nextPc == target % TWO64 || (even && t.nextPc + 1 == target % TWO64))
    && (even ==> t.nextPc % 2 == 0)
  }

  /**
    What an instruction leaves, `s.nextPc` being the address behind it. The accesses to memory and
    control registers, traps and returns, high products and divisions have statements of their own.
   */
  ghost predicate Means(s: State, d: Decoded, t: State)
  {
    if IsGiven(d.op) then GivenMeans(s, d, t) else TransferMeans(s, d, t)
  }

  ghost predicate GivenMeans(s: State, d: Decoded, t: State)
  {
    var v := t.regs[d.rd as nat];
    Sets(s, t, d.rd, v) && Gives(s.cfg.Xlen, d.op, s.regs[d.rs1 as nat], s.regs[d.rs2 as nat], Imm(d.imm), s.pc, v)
  }

  predicate TransferMeans(s: State, d: Decoded, t: State)
  {
    var a, b, imm := s.regs[d.rs1 as nat], s.regs[d.rs2 as nat], Imm(d.imm);
    match d.op
    case BEQ => Goes(s, t, a == b, s.pc + imm)
    case BNE => Goes(s, t, a != b, s.pc + imm)
    case BLT => Goes(s, t, Signed64(a) < Signed64(b), s.pc + imm)
    case BGE => Goes(s, t, Signed64(b) <= Signed64(a), s.pc + imm)
    case BLTU => Goes(s, t, a < b, s.pc + imm)
    case BGEU => Goes(s, t, b <= a, s.pc + imm)
    case JAL => Jumps(s, t, d.rd, s.pc + imm, false) && t.end == s.end && (t.error <==> s.error || t.nextPc == s.pc)
    case JALR => Jumps(s, t, d.rd, a + imm, true) && t.error == s.error
                 && (t.end <==> s.end || (d.rd == 0 && d.rs1 == 1 && a == 0 && imm == 0))
    case FENCE | FENCEI => t == s
    case ERROR => t == s.(error := true)
    case _ => true
  }

  /** The value the switch computes for an operation of the table. */
  function GivenValue(s: State, d: Decoded): u64
    requires IsGiven(d.op)
  {
    var xlen, op, a, b, imm := s.cfg.Xlen, d.op, X(s, d.rs1), X(s, d.rs2), Imm(d.imm);
    match KindOf(op)
    case Operation => OperationValue(xlen, op, a, b)
    case Immediate => ImmediateValue(xlen, op, a, imm)
    case ShiftImmediate => ShiftValue(xlen, op, a, Value32(d.imm))
    case Comparison | ImmediateComparison => ComparisonValue(op, a, b, imm)
    case LoadUpper => Upper(xlen, Wrap64(imm))
    case AddUpper => Upper(xlen, Wrap64(s.pc + imm))
    case Multiplication => ProductGives(xlen, op, a, b, imm, s.pc); MultValue(xlen, op, a, b).v
  }

  lemma GivenIsSet(s: State, d: Decoded, csr: nat)
    requires csr < P.CSR_SIZE && IsGiven(d.op)
    ensures Execute(s, d, csr) == SetReg(s, d.rd, GivenValue(s, d))
  {
    hide OperationValue, ImmediateValue, ShiftValue, ComparisonValue, MultValue, Upper, Imm, Wrap64, SetReg, X, Gives, Value32;
    if d.op.MUL? || d.op.MULW? {
      ProductGives(s.cfg.Xlen, d.op, X(s, d.rs1), X(s, d.rs2), Imm(d.imm), s.pc);
    }
  }

  lemma ValueIsGiven(s: State, d: Decoded)
    requires IsGiven(d.op)
    ensures Gives(s.cfg.Xlen, d.op, X(s, d.rs1), X(s, d.rs2), Imm(d.imm), s.pc, GivenValue(s, d))
  {
    hide Gives, OperationValue, ImmediateValue, ShiftValue, ComparisonValue, MultValue, Upper, Imm, X, Value32, Wrap64;
    var xlen, op, a, b, imm := s.cfg.Xlen, d.op, X(s, d.rs1), X(s, d.rs2), Imm(d.imm);
    match KindOf(op)
    case Operation => OperationGives(xlen, op, a, b, imm, s.pc);
    case Immediate => ImmediateGives(xlen, op, a, b, imm, s.pc);
    case ShiftImmediate => ShiftGives(xlen, op, a, b, imm, s.pc); AmountIs(d.imm);
    case Comparison | ImmediateComparison => ComparisonGives(xlen, op, a, b, imm, s.pc);
    case LoadUpper | AddUpper => UpperGives(xlen, op, a, b, imm, s.pc);
    case Multiplication => ProductGives(xlen, op, a, b, imm, s.pc);
  }

  lemma AmountIs(imm: bv32)
    ensures Imm(imm) % TWO32 == Value32(imm)
  {
    hide Value32;
    SignedLow(Value32(imm));
  }

  lemma SignedLow(x: u32)
    ensures Signed32(x) % TWO32 == x
  {}

  lemma BranchesMean(s: State, d: Decoded, csr: nat)
    requires csr < P.CSR_SIZE && IsBranch(d.op)
    ensures TransferMeans(s, d, Execute(s, d, csr))
  {
    hide Imm, Signed64;
  }

  lemma HalfTwice(x: u64)
    ensures var y := x / 2 * 2; y % 2 == 0 && (y == x || y + 1 == x)
  {}

  lemma JumpMeans(s: State, d: Decoded, csr: nat)
    requires csr < P.CSR_SIZE && d.op.JAL?
    ensures TransferMeans(s, d, Execute(s, d, csr))
  {
    hide Imm, Ends, Jalr;
  }

  lemma JumpRegisterMeans(s: State, d: Decoded, csr: nat)
    requires csr < P.CSR_SIZE && d.op.JALR?
    ensures TransferMeans(s, d, Execute(s, d, csr))
  {
    hide Imm, Jal, Ends;
    HalfTwice(Wrap64(X(s, d.rs1) + Imm(d.imm)));
    EndsAt(s, d.rd, d.rs1, Imm(d.imm));
  }

  lemma EndsAt(s: State, rd: bv5, rs1: bv5, imm: int)
    ensures Ends(s, rd, rs1, imm) <==> rd == 0 && rs1 == 1 && s.regs[rs1 as nat] == 0 && imm == 0
  {
    if rs1 as nat == 1 { SameNumber(rs1, 1); }
  }

  /** The result of an instruction, from any state, on both machines. */
  lemma ExecuteMeans(s: State, d: Decoded, csr: nat)
    requires csr < P.CSR_SIZE
    ensures Means(s, d, Execute(s, d, csr))
  {
    hide Gives, GivenValue, Execute, IsGiven, KindOf, TransferMeans, Imm;
    if IsGiven(d.op) {
      GivenIsSet(s, d, csr);
      ValueIsGiven(s, d);
    } else if IsBranch(d.op) {
      BranchesMean(s, d, csr);
    } else if d.op.JAL? {
      JumpMeans(s, d, csr);
    } else if d.op.JALR? {
      JumpRegisterMeans(s, d, csr);
    } else {
      OthersMean(s, d, csr);
    }
  }

  lemma OthersMean(s: State, d: Decoded, csr: nat)
    requires csr < P.CSR_SIZE && !IsBranch(d.op) && !d.op.JAL? && !d.op.JALR?
    ensures TransferMeans(s, d, Execute(s, d, csr))
  {
    hide OperationValue, ImmediateValue, ShiftValue, ComparisonValue, MultInstruction, Upper, Load, Store, Csr, SystemInstruction, Imm;
  }

  /** High products, quotients and remainders: rd receives the value, and where there is none the emulator dies. */
  lemma MultiplicationMeans(s: State, d: Decoded, csr: nat)
    requires csr < P.CSR_SIZE && d.op in {MULH, MULHSU, MULHU, DIV, DIVU, DIVW, DIVUW, REM, REMU, REMW, REMUW}
    ensures IsMultiplication(d.op) &&
      var o := MultValue(s.cfg.Xlen, d.op, s.regs[d.rs1 as nat], s.regs[d.rs2 as nat]);
      Execute(s, d, csr) == if o.Value? then s.(regs := s.regs[d.rd as nat := o.v]) else s.(aborted := true)
  {
    hide MultValue;
  }

  /** After the switch a jump to itself is an error, and x0 reads as zero again. */
  predicate Finishes(t: State, u: State)
  {
    if t.aborted then u == t
    else u == t.(error := u.error, regs := u.regs) && (u.error <==> t.error || t.nextPc == t.pc)
         && u.regs[0] == 0 && u.regs[1..] == t.regs[1..]
  }

  lemma FinishFinishes(t: State)
    ensures Finishes(t, Finish(t))
  {}

  /** The same of a fetched 32-bit word. */
  lemma WordMeans(s: State, d: Decoded) returns (t: State)
    requires Assemblable(d.op) && Encodable(d) && !IsCsr(d.op)
    ensures Means(s.(nextPc := (s.pc + 4) % TWO64), d, t) && Finishes(t, ExecuteWord(s, Value32(Assemble(d))))
  {
    hide Assemble, Assemblable, Encodable, Execute, Finish, Finishes, Means, KindOf, ExecuteWord, DecodeWord, Used, Value32;
    t := Execute(s.(nextPc := (s.pc + 4) % TWO64), d, 0);
    MachineMode.AssembledIsLong(d);
    MachineMode.DecodeAssembled(d, s.cfg.Mxl);
    MachineMode.ExecuteDecoded(s, Value32(Assemble(d)), d);
    ExecuteMeans(s.(nextPc := (s.pc + 4) % TWO64), d, 0);
    FinishFinishes(t);
  }
}
