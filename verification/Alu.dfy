/**
  The value computed by the register and immediate instructions, multiplication and division
  (OperationInstruction, ImmediateInstruction, ImmediateShiftInstruction, MultInstruction).
 */
module Alu {
  import opened Words
  import opened Decoder
  import opened Multiply

  function Pow2(n: nat): (p: nat)
    ensures p > 0
  {
    if n == 0 then 1 else 2 * Pow2(n - 1)
  }

  // C++ shifts of 64-bit values.
  function ShiftLeft(x: u64, n: nat): u64 { Wrap64(x * Pow2(n)) }

  function ShiftRight(x: u64, n: nat): u64
  {
    QuotientBelow(x, Pow2(n));
    x / Pow2(n)
  }

  function ShiftRightSigned(x: int, n: nat): int { x / Pow2(n) }

  function And64(x: u64, y: u64): u64 { Value64(And(Bits64(x), Bits64(y))) }

  function Or64(x: u64, y: u64): u64 { Value64(Or(Bits64(x), Bits64(y))) }

  function Xor64(x: u64, y: u64): u64 { Value64(Xor(Bits64(x), Bits64(y))) }

  predicate IsOperation(op: Op) { KindOf(op).Operation? }

  function OperationValue(xlen: int, op: Op, a: u64, b: u64): u64
    requires IsOperation(op)
  {
    var w := op in {ADDW, SUBW, SLLW, SRLW, SRAW};
    var amount := if xlen == 32 || w then b % 32 else b % 64;
    var t: u64 :=
      if op in {ADD, ADDW} then Wrap64(a + b)
      else if op in {SUB, SUBW} then Wrap64(a - b)
      else if op == AND then And64(a, b)
      else if op == OR then Or64(a, b)
      else if op == XOR then Xor64(a, b)
      else if op in {SLL, SLLW} then ShiftLeft(a, amount)
      else if op in {SRL, SRLW} then ShiftRight(if xlen == 32 || op == SRLW then a % TWO32 else a, amount)
      else if op == SRA then Wrap64(ShiftRightSigned(Signed64(a), amount))
      else ShiftRight(Sext32(a), amount);
    if xlen == 32 || w then Sext32(t) else t
  }

  lemma QuotientBelow(x: nat, p: nat)
    requires p > 0
    ensures 0 <= x / p <= x && x == x / p * p + x % p && 0 <= x % p < p
    ensures p >= 2 && x > 0 ==> x / p < x
  {
    var q := x / p;
    assert x == q * p + x % p;
    MulMonotone(q, 1, p);
    if p >= 2 { MulMonotone(q, 2, p); }
  }

  predicate IsImmediate(op: Op) { KindOf(op).Immediate? }

  /** `imm` is the 32-bit immediate as a number; the bitwise operations extend its sign. */
  function ImmediateValue(xlen: int, op: Op, a: u64, imm: int): u64
    requires IsImmediate(op)
  {
    var t := if op in {ADDI, ADDIW} then Wrap64(a + imm)
             else if op == ANDI then And64(a, Wrap64(imm))
             else if op == ORI then Or64(a, Wrap64(imm))
             else Xor64(a, Wrap64(imm));
    if xlen == 32 || op == ADDIW then Sext32(t) else t
  }

  predicate IsShiftImmediate(op: Op) { KindOf(op).ShiftImmediate? }

  function ShiftValue(xlen: int, op: Op, a: u64, shamt: nat): u64
    requires IsShiftImmediate(op)
  {
    if op == SLLI then if xlen == 32 then Sext32(ShiftLeft(a, shamt)) else ShiftLeft(a, shamt)
    else if op == SLLIW then Sext32(ShiftLeft(a, shamt) % TWO32)
    else if op == SRLI then if xlen == 32 then Sext32(ShiftRight(a % TWO32, shamt)) else ShiftRight(a, shamt)
    else if op == SRLIW then Sext32(ShiftRight(a % TWO32, shamt))
    else if op == SRAI then Wrap64(ShiftRightSigned(Signed64(a), shamt))
    else Wrap64(ShiftRightSigned(Signed32(a % TWO32), shamt))
  }

  // ----- division -----

  /** C++ division of integers truncates towards zero, and the remainder has the sign of the dividend. */
  function Quotient(x: int, y: int): int
    requires y != 0
  {
    var q := Magnitude(x) / Magnitude(y);
    if (x < 0) == (y < 0) then q else -q
  }

  function Remainder(x: int, y: int): int
    requires y != 0
  {
    var r := Magnitude(x) % Magnitude(y);
    if x < 0 then -r else r
  }

  function Magnitude(x: int): nat { if x < 0 then -x else x }

  /** Dividing by zero, or the least 64-bit number by -1, in C++ kills the emulator. */
  datatype Outcome = Value(v: u64) | DivisionByZero | DivisionOverflow

  predicate IsMultiplication(op: Op) { KindOf(op).Multiplication? }

  function SextIf(c: bool, x: u64): Outcome { Value(if c then Sext32(x) else x) }

  /** The narrow machine looks for its own least number only, so the host's may still come through. */
  predicate Overflows(a: u64, b: u64) { a == TWO63 && b == TWO64 - 1 }

  function LargestNegative(narrow: bool): u64 { if narrow then TWO31 else TWO63 }

  function Div(narrow: bool, a: u64, b: u64): Outcome
  {
    if b == 0 then SextIf(narrow, TWO64 - 1)
    else if Signed64(b) == -1 && a == LargestNegative(narrow) then SextIf(narrow, LargestNegative(narrow))
    else if Overflows(a, b) then DivisionOverflow
    else SextIf(narrow, Wrap64(Quotient(Signed64(a), Signed64(b))))
  }

  function Rem(narrow: bool, a: u64, b: u64): Outcome
  {
    if b == 0 then SextIf(narrow, a)
    else if Signed64(b) == -1 && a == LargestNegative(narrow) then SextIf(narrow, 0)
    else if Overflows(a, b) then DivisionOverflow
    else SextIf(narrow, Wrap64(Remainder(Signed64(a), Signed64(b))))
  }

  function DivW(a: u64, b: u64): Outcome
  {
    if b == 0 then SextIf(true, TWO64 - 1)
    else if Signed64(b) == -1 && a == TWO31 then SextIf(true, TWO31)
    else if b % TWO32 == 0 then DivisionByZero
    else SextIf(true, Wrap64(Quotient(Signed32(a % TWO32), Signed32(b % TWO32))))
  }

  function RemW(a: u64, b: u64): Outcome
  {
    if b == 0 then SextIf(true, a)
    else if Signed64(b) == -1 && a == TWO31 then SextIf(true, 0)
    else if b % TWO32 == 0 then DivisionByZero
    else SextIf(true, Wrap64(Remainder(Signed32(a % TWO32), Signed32(b % TWO32))))
  }

  function MultValue(xlen: int, op: Op, a: u64, b: u64): Outcome
    requires IsMultiplication(op)
  {
    var s := xlen == 32;
    var alow, blow := a % TWO32, b % TWO32;
    if op == MUL then SextIf(s, Wrap64(a * b))
    else if op == MULW then SextIf(true, Wrap64(a * b))
    else if op == MULH then if s then SextIf(s, Wrap64(AsInt64(Signed64(a) * Signed64(b)) / TWO32)) else Value(GetMulh64(a, b))
    else if op == MULHSU then if s then SextIf(s, Wrap64(a * blow) / TWO32) else Value(GetMulhsu64(a, b))
    else if op == MULHU then if s then SextIf(s, Wrap64(alow * blow) / TWO32) else Value(GetMulhu64(a, b))
    else if op == DIV then Div(s, a, b)
    else if op == DIVU then
      if b == 0 then SextIf(s, TWO64 - 1)
      else if s then if blow == 0 then DivisionByZero else SextIf(s, UnsignedQuotient(alow, blow))
      else SextIf(s, UnsignedQuotient(a, b))
    else if op == DIVUW then
      if b == 0 then SextIf(true, TWO64 - 1)
      else if blow == 0 then DivisionByZero else SextIf(true, UnsignedQuotient(alow, blow))
    else if op == DIVW then DivW(a, b)
    else if op == REM then Rem(s, a, b)
    else if op == REMU then
      if b == 0 then SextIf(s, a)
      else if s then if blow == 0 then DivisionByZero else SextIf(s, UnsignedRemainder(alow, blow))
      else SextIf(s, UnsignedRemainder(a, b))
    else if op == REMUW then
      if b == 0 then SextIf(true, a)
      else if blow == 0 then DivisionByZero else SextIf(true, UnsignedRemainder(alow, blow))
    else RemW(a, b)
  }

  function UnsignedQuotient(x: u64, y: u64): (q: u64)
    requires y != 0
    ensures q == x / y
  {
    QuotientBelow(x, y);
    x / y
  }

  function UnsignedRemainder(x: u64, y: u64): (r: u64)
    requires y != 0
    ensures r == x % y
  {
    x % y
  }

  // ----- section 7.2: quotient and remainder belong together -----

  lemma TruncatedDivision(x: int, y: int)
    requires y != 0
    ensures x == Quotient(x, y) * y + Remainder(x, y)
    ensures Magnitude(Remainder(x, y)) < Magnitude(y)
    ensures Remainder(x, y) != 0 ==> (Remainder(x, y) < 0 <==> x < 0)
    ensures Magnitude(Quotient(x, y)) <= Magnitude(x)
    ensures y == 1 || y == -1 || x == 0 || Magnitude(Quotient(x, y)) < Magnitude(x)
  {
    var m, n: int := Magnitude(x), Magnitude(y);
    QuotientBelow(m, n);
    Signs(m / n, n);
    hide Magnitude;
  }

  lemma Signs(q: int, n: int)
    ensures (-q) * (-n) == q * n && (-q) * n == -(q * n) && q * (-n) == -(q * n)
  {}

  /** What section 7.2 of the unprivileged architecture requires of a signed pair at width 2 * half. */
  predicate SignedPair(x: int, y: int, q: int, r: int, half: int)
  {
    if y == 0 then q == -1 && r == x
    else if x == -half && y == -1 then q == -half && r == 0
    else x == q * y + r && Magnitude(r) < Magnitude(y) && (r != 0 ==> (r < 0 <==> x < 0))
  }

  predicate UnsignedPair(x: nat, y: nat, q: nat, r: nat, size: nat)
  {
    if y == 0 then q == size - 1 && r == x else x == q * y + r && r < y
  }

  lemma SignedWrap(x: int)
    requires -TWO63 <= x < TWO63
    ensures Signed64(Wrap64(x)) == x
  {}

  lemma SextWrap(x: int)
    requires -TWO31 <= x < TWO31
    ensures Signed64(Sext32(Wrap64(x))) == x && Sext32(Wrap64(x)) == Wrap64(x)
  {}

  lemma SignedDivision64(a: u64, b: u64)
    ensures var q, r := MultValue(64, DIV, a, b), MultValue(64, REM, a, b);
      q.Value? && r.Value? && SignedPair(Signed64(a), Signed64(b), Signed64(q.v), Signed64(r.v), TWO63)
  {
    var x, y := Signed64(a), Signed64(b);
    if b != 0 {
      TruncatedDivision(x, y);
      hide Quotient, Remainder;
      if !(y == -1 && a == TWO63) {
        SignedWrap(Quotient(x, y));
        SignedWrap(Remainder(x, y));
      }
    }
  }

  lemma SignedDivision32(a: u64, b: u64)
    requires IsSext32(a) && IsSext32(b)
    ensures var q, r := MultValue(32, DIV, a, b), MultValue(32, REM, a, b);
      q.Value? && r.Value? && IsSext32(q.v) && IsSext32(r.v)
      && SignedPair(Signed64(a), Signed64(b), Signed64(q.v), Signed64(r.v), TWO31)
  {
    var x, y := Signed64(a), Signed64(b);
    if b != 0 {
      TruncatedDivision(x, y);
      hide Quotient, Remainder;
      if x == -TWO31 && y == -1 {
        assert Quotient(x, y) * y == -Quotient(x, y);
      } else {
        SextWrap(Quotient(x, y));
      }
      SextWrap(Remainder(x, y));
    }
  }

  /** On the narrow machine DIV and REM give a value exactly unless the host's own division overflows. */
  lemma NarrowDivisionEnds(a: u64, b: u64, op: Op)
    requires op in {DIV, REM}
    ensures MultValue(32, op, a, b).DivisionOverflow? <==> a == TWO63 && b == TWO64 - 1
    ensures !MultValue(32, op, a, b).DivisionByZero?
    ensures MultValue(32, op, a, b).DivisionOverflow? ==> !IsSext32(a)
  {
    hide Quotient, Remainder;
  }

  lemma UnsignedDivision64(a: u64, b: u64)
    ensures var q, r := MultValue(64, DIVU, a, b), MultValue(64, REMU, a, b);
      q.Value? && r.Value? && UnsignedPair(a, b, q.v, r.v, TWO64)
  {
    if b != 0 { QuotientBelow(a, b); }
  }

  lemma UnsignedDivision32(a: u64, b: u64)
    requires IsSext32(a) && IsSext32(b)
    ensures var q, r := MultValue(32, DIVU, a, b), MultValue(32, REMU, a, b);
      q.Value? && r.Value? && IsSext32(q.v) && IsSext32(r.v)
      && UnsignedPair(a % TWO32, b % TWO32, q.v % TWO32, r.v % TWO32, TWO32)
  {
    hide Sext32;
    if b == 0 {
      Sext32Low(a);
      Sext32Low(TWO64 - 1);
    } else {
      LowHalfNonzero(b);
      UnsignedResults(a % TWO32, b % TWO32);
    }
  }

  // ----- the high halves of 32 x 32-bit products -----

  lemma HighBelow(p: int)
    requires -TWO63 <= p < TWO63
    ensures -TWO31 <= p / TWO32 < TWO31
  {}

  lemma HighWord(p: int)
    requires -TWO63 <= p < TWO63
    ensures Signed64(Sext32(Wrap64(p) / TWO32)) == p / TWO32 && IsSext32(Sext32(Wrap64(p) / TWO32))
  {
    var q, r := p / TWO32, p % TWO32;
    HighBelow(p);
    if p >= 0 {
      assert Wrap64(p) == p;
    } else {
      ModUnique(p, TWO64, -1, p + TWO64);
      ModUnique(p + TWO64, TWO32, q + TWO32, r);
    }
  }

  lemma SextHalf(a: u64)
    requires IsSext32(a)
    ensures -TWO31 <= Signed64(a) < TWO31 && a == Wrap64(Signed64(a)) && 0 <= a % TWO32 < TWO32
  {}

  /** MULH, MULHSU and MULHU on sign-extended RV32 registers: the high 32 bits of the product. */
  lemma HighProducts32(a: u64, b: u64)
    requires IsSext32(a) && IsSext32(b)
    ensures var h, hsu, hu := MultValue(32, MULH, a, b), MultValue(32, MULHSU, a, b), MultValue(32, MULHU, a, b);
      && h.Value? && hsu.Value? && hu.Value? && IsSext32(h.v) && IsSext32(hsu.v) && IsSext32(hu.v)
      && Signed64(h.v) == Signed64(a) * Signed64(b) / TWO32
      && Signed64(hsu.v) == Signed64(a) * (b % TWO32) / TWO32
      && hu.v % TWO32 == (a % TWO32) * (b % TWO32) / TWO32
  {
    hide Sext32, Wrap64, Signed64, AsInt64;
    var x, y, alow, blow := Signed64(a), Signed64(b), a % TWO32, b % TWO32;
    SextHalf(a); SextHalf(b);
    SignedBound(x, y); Int64Exact(x * y); HighBelow(x * y); SextWrap(x * y / TWO32);
    SignedBound(x, blow); WrapFactor(x, blow); HighWord(x * blow);
    ExactUnsigned(alow, blow);
    UnsignedHigh(alow * blow);
  }

  lemma UnsignedHigh(p: u64)
    ensures p / TWO32 < TWO32 && Sext32(p / TWO32) % TWO32 == p / TWO32 && IsSext32(Sext32(p / TWO32))
  {}

  lemma UnsignedResults(x: u32, y: u32)
    requires y != 0
    ensures var q, r := Sext32(UnsignedQuotient(x, y)), Sext32(UnsignedRemainder(x, y));
      IsSext32(q) && IsSext32(r) && UnsignedPair(x, y, q % TWO32, r % TWO32, TWO32)
  {
    hide Sext32, IsSext32;
    var q, r := UnsignedQuotient(x, y), UnsignedRemainder(x, y);
    QuotientBelow(x, y);
    assert x == q * y + r && r < y && q < TWO32;
    hide UnsignedQuotient, UnsignedRemainder;
    UnsignedHalf(q);
    UnsignedHalf(r);
  }

  lemma UnsignedHalf(x: u32)
    ensures Sext32(x) % TWO32 == x && IsSext32(Sext32(x))
  {}

  lemma LowHalfNonzero(b: u64)
    requires IsSext32(b) && b != 0
    ensures b % TWO32 != 0
  {}

  lemma Sext32Low(x: u64)
    ensures Sext32(x) % TWO32 == x % TWO32 && Sext32(Sext32(x)) == Sext32(x)
    ensures Sext32(x % TWO32) == Sext32(x)
  {}
}
