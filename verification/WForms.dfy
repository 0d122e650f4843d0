/**
  RV64's W instructions compute what RV32 computes on the sign-extended low halves of their operands.
 */
module WForms {
  import opened Words
  import opened Decoder
  import opened Multiply
  import opened Alu

  /** The RV32 instruction a W instruction narrows to. */
  function Narrow(op: Op): Op
  {
    match op
    case ADDW => ADD case SUBW => SUB case SLLW => SLL case SRLW => SRL case SRAW => SRA
    case ADDIW => ADDI case SLLIW => SLLI case SRLIW => SRLI case SRAIW => SRAI
    case MULW => MUL case DIVW => DIV case DIVUW => DIVU case REMW => REM case REMUW => REMU
    case _ => op
  }

  lemma SextCongruent(x: u64, y: u64)
    requires x % TWO32 == y % TWO32
    ensures Sext32(x) == Sext32(y)
  {}

  lemma LowOfWrap(x: int)
    ensures Wrap64(x) % TWO32 == x % TWO32
  {
    assert x == TWO32 * (TWO32 * (x / TWO64)) + Wrap64(x);
  }

  lemma Multiple(x: int, y: int) returns (k: int)
    requires x % TWO32 == y % TWO32
    ensures x == y + TWO32 * k
  {
    k := x / TWO32 - y / TWO32;
  }

  lemma AddMultiple(x: int, k: int)
    ensures (x + TWO32 * k) % TWO32 == x % TWO32
  {}

  lemma MulCongruent(x: int, y: int, p: int)
    requires x % TWO32 == y % TWO32
    ensures (x * p) % TWO32 == (y * p) % TWO32
  {
    var k := Multiple(x, y);
    assert x * p == y * p + TWO32 * (k * p);
    AddMultiple(y * p, k * p);
  }

  lemma AddCongruent(x: int, x': int, y: int, y': int)
    requires x % TWO32 == x' % TWO32 && y % TWO32 == y' % TWO32
    ensures (x + y) % TWO32 == (x' + y') % TWO32 && (x - y) % TWO32 == (x' - y') % TWO32
  {
    var k := Multiple(x, x');
    var l := Multiple(y, y');
    assert x + y == x' + y' + TWO32 * (k + l) && x - y == x' - y' + TWO32 * (k - l);
    AddMultiple(x' + y', k + l);
    AddMultiple(x' - y', k - l);
  }

  lemma Amounts(b: u64)
    ensures Sext32(b) % 32 == b % 32
  {
    assert b == 32 * (0x800_0000 * (b / TWO32)) + b % TWO32;
  }

  lemma AddForm(a: u64, b: u64)
    ensures Sext32(Wrap64(a + b)) == Sext32(Wrap64(Sext32(a) + Sext32(b)))
    ensures Sext32(Wrap64(a - b)) == Sext32(Wrap64(Sext32(a) - Sext32(b)))
  {
    hide Sext32, Wrap64;
    var i: int, j: int, x: int, y: int := a, b, Sext32(a), Sext32(b);
    AddCongruent(a, x, b, y);
    var d, e := i - j, x - y;
    LowOfWrap(a + b); LowOfWrap(x + y); LowOfWrap(d); LowOfWrap(e);
    SextCongruent(Wrap64(a + b), Wrap64(x + y));
    SextCongruent(Wrap64(d), Wrap64(e));
  }

  lemma ProductForm(a: u64, x: u64, p: int)
    requires a % TWO32 == x % TWO32
    ensures Sext32(Wrap64(a * p)) == Sext32(Wrap64(x * p))
  {
    hide Sext32, Wrap64;
    MulCongruent(a, x, p);
    LowOfWrap(a * p); LowOfWrap(x * p);
    SextCongruent(Wrap64(a * p), Wrap64(x * p));
  }

  // ----- SRAW shifts a sign-extended value logically -----

  lemma PowSplit(n: nat)
    requires n < 32
    ensures TWO64 == Pow2(n) * (TWO32 * Pow2(32 - n))
    decreases 32 - n
  {
    if n < 31 {
      PowSplit(n + 1);
      Reassociate(Pow2(n), Pow2(31 - n));
    } else {
      PowerOf31();
    }
  }

  lemma Reassociate(p: int, q: int)
    ensures 2 * p * (TWO32 * q) == p * (TWO32 * (2 * q))
  {}

  lemma PowerOf31()
    ensures Pow2(31) == TWO31 && Pow2(1) == 2
  {
    assert Pow2(8) == 0x100;
    assert Pow2(16) == 0x1_0000;
    assert Pow2(24) == 0x100_0000;
    assert Pow2(31) == TWO31;
  }

  lemma ShiftedDifference(x: int, p: int, q: int)
    requires p > 0
    ensures (x + p * q) / p == x / p + q
  {
    var d := x / p;
    assert x == d * p + x % p;
    Distribute(d, q, p);
    ModUnique(x + p * q, p, d + q, x % p);
  }

  lemma Distribute(d: int, q: int, p: int)
    ensures (d + q) * p == d * p + p * q
  {}

  /** The logical and the arithmetic shift of a value agree in the low half. */
  lemma LogicalIsArithmetic(x: u64, n: nat)
    requires n < 32
    ensures Sext32(ShiftRight(x, n)) == Sext32(Wrap64(ShiftRightSigned(Signed64(x), n)))
  {
    var p := Pow2(n);
    if x >= TWO63 {
      PowSplit(n);
      var q := TWO32 * Pow2(32 - n);
      ShiftedDifference(x - TWO64, p, q);
      hide Pow2, Sext32;
      var s := (x - TWO64) / p;
      LowOfWrap(s);
      AddMultiple(s, Pow2(32 - n));
      SextCongruent(ShiftRight(x, n), Wrap64(s));
    } else {
      QuotientBelow(x, p);
    }
  }

  /** ADDW, SUBW, SLLW, SRLW, SRAW. */
  lemma OperationsNarrow(op: Op, a: u64, b: u64)
    requires op in {ADDW, SUBW, SLLW, SRLW, SRAW}
    ensures OperationValue(64, op, a, b) == OperationValue(32, Narrow(op), Sext32(a), Sext32(b))
  {
    hide Sext32, Wrap64, ShiftRight, ShiftRightSigned, Pow2, And64, Or64, Xor64;
    Amounts(b);
    if op == ADDW || op == SUBW {
      AddForm(a, b);
    } else if op == SLLW {
      ProductForm(a, Sext32(a), Pow2(b % 32));
    } else if op == SRAW {
      LogicalIsArithmetic(Sext32(a), b % 32);
    }
  }

  lemma ImmediateNarrows(a: u64, imm: int)
    ensures ImmediateValue(64, ADDIW, a, imm) == ImmediateValue(32, ADDI, Sext32(a), imm)
  {
    hide Sext32, Wrap64;
    var x := Sext32(a);
    AddCongruent(a, x, imm, imm);
    LowOfWrap(a + imm); LowOfWrap(x + imm);
    SextCongruent(Wrap64(a + imm), Wrap64(x + imm));
  }

  /** SLLIW, SRLIW, SRAIW, for the shift amounts RV32 has. */
  lemma ShiftsNarrow(op: Op, a: u64, shamt: nat)
    requires op in {SLLIW, SRLIW, SRAIW} && shamt < 32
    ensures ShiftValue(64, op, a, shamt) == ShiftValue(32, Narrow(op), Sext32(a), shamt)
  {
    if op == SLLIW {
      hide Sext32, Wrap64, Pow2;
      ProductForm(a, Sext32(a), Pow2(shamt));
      Sext32Low(ShiftLeft(a, shamt));
    }
  }

  lemma ProductNarrows(a: u64, b: u64)
    ensures MultValue(64, MULW, a, b) == MultValue(32, MUL, Sext32(a), Sext32(b))
  {
    hide Sext32, Wrap64;
    ProductForm(a, Sext32(a), b);
    ProductForm(b, Sext32(b), Sext32(a));
    assert Sext32(a) * b == b * Sext32(a) && Sext32(b) * Sext32(a) == Sext32(a) * Sext32(b);
  }

  /**
    The W divisions test the whole of rs2 for zero but divide by its low half: they agree with RV32
    exactly when rs2 is zero or its low half is not; otherwise the emulator divides by zero.
   */
  lemma DivisionsNarrow(op: Op, a: u64, b: u64)
    requires op in {DIVW, DIVUW, REMW, REMUW}
    ensures var wide, narrow := MultValue(64, op, a, b), MultValue(32, Narrow(op), Sext32(a), Sext32(b));
      && narrow.Value?
      && wide == (if b != 0 && b % TWO32 == 0 then DivisionByZero else narrow)
  {
    var x, y := Sext32(a), Sext32(b);
    Sext32Low(a); Sext32Low(b);
    if b % TWO32 == 0 {
      assert y == 0;
    } else {
      assert y != 0 && b != 0;
      hide Sext32, Quotient, Remainder, UnsignedQuotient, UnsignedRemainder, Wrap64, Div, Rem, DivW, RemW;
      MinusOne(b);
      if op == DIVW { DivWEqual(a, b); }
      if op == REMW { RemWEqual(a, b); }
    }
  }

  /** With rs2 = 2^32 the emulator dies, where RV32 divides by the zero it sees. */
  lemma LowHalfZero(op: Op, a: u64)
    requires op in {DIVW, DIVUW, REMW, REMUW}
    ensures MultValue(64, op, a, TWO32) == DivisionByZero && MultValue(32, Narrow(op), Sext32(a), Sext32(TWO32)).Value?
  {
    DivisionsNarrow(op, a, TWO32);
  }

  lemma MinusOne(b: u64)
    ensures Signed64(b) == -1 ==> Signed32(b % TWO32) == -1
  {}

  lemma DivWEqual(a: u64, b: u64)
    requires b % TWO32 != 0
    ensures DivW(a, b) == Div(true, Sext32(a), Sext32(b))
  {
    hide Quotient, Remainder, UnsignedQuotient, UnsignedRemainder, Sext32, Wrap64;
    SextZero(b);
    SextNotLeast(a);
    if Signed64(b) == -1 && a == TWO31 {
      MinusOneQuotient(-TWO31);
    }
  }

  lemma SextZero(b: u64)
    ensures Sext32(b) == 0 <==> b % TWO32 == 0
    ensures Signed64(b) == -1 ==> Signed64(Sext32(b)) == -1
  {}

  /** A sign-extended word is neither 2^31 nor the least 64-bit number. */
  lemma SextNotLeast(a: u64)
    ensures Sext32(a) != TWO31 && Sext32(a) != TWO63
    ensures Wrap64(TWO31) == TWO31 && Wrap64(0) == 0
  {}

  lemma MinusOneQuotient(x: int)
    ensures Quotient(x, -1) == -x && Remainder(x, -1) == 0
  {}

  lemma RemWEqual(a: u64, b: u64)
    requires b % TWO32 != 0
    ensures RemW(a, b) == Rem(true, Sext32(a), Sext32(b))
  {
    hide Quotient, Remainder, UnsignedQuotient, UnsignedRemainder, Sext32, Wrap64;
    SextZero(b);
    SextNotLeast(a);
    if Signed64(b) == -1 && a == TWO31 {
      MinusOneQuotient(-TWO31);
    }
  }
}
