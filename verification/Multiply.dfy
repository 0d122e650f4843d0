/**
  The high halves of 64 x 64-bit products built from 32-bit limbs (GetMulh64, GetMulhsu64, GetMulhu64).
  `AsInt64` and `Wrap64` mark the conversions C++ makes between signed and unsigned 64-bit integers.
 */
module Multiply {
  import opened Words

  function AsInt64(x: int): int { Signed64(Wrap64(x)) }

  /** The last two lines of the three functions: the limbs of the products are added up. */
  function HighSum(ac: int, ad: int, bc: int, bd: int): u64
  {
    var d32 := Wrap64(ad % TWO32 + bc % TWO32 + bd / TWO32);
    Wrap64(ac + ad / TWO32 + bc / TWO32 + d32 / TWO32)
  }

  function GetMulh64(op1: u64, op2: u64): u64
  {
    var a := Signed64(op1) / TWO32;
    var b := op1 % TWO32;
    var c := Signed64(op2) / TWO32;
    var d := op2 % TWO32;
    var ac := AsInt64(a * c);
    var ad := AsInt64(Wrap64(a) * d);
    var bc := AsInt64(b * Wrap64(c));
    var bd := Wrap64(b * d);
    HighSum(ac, ad, bc, bd)
  }

  function GetMulhsu64(op1: u64, op2: u64): u64
  {
    var a := Signed64(op1) / TWO32;
    var b := op1 % TWO32;
    var c := op2 / TWO32;
    var d := op2 % TWO32;
    var ac := AsInt64(Wrap64(a) * c);
    var ad := AsInt64(Wrap64(a) * d);
    var bc := Wrap64(b * c);
    var bd := Wrap64(b * d);
    HighSum(ac, ad, bc, bd)
  }

  function GetMulhu64(op1: u64, op2: u64): u64
  {
    var a := op1 / TWO32;
    var b := op1 % TWO32;
    var c := op2 / TWO32;
    var d := op2 % TWO32;
    var ac := Wrap64(a * c);
    var ad := Wrap64(a * d);
    var bc := Wrap64(b * c);
    var bd := Wrap64(b * d);
    HighSum(ac, ad, bc, bd)
  }

  lemma MulMonotone(a: int, d: int, e: int)
    requires 0 <= a && 0 <= d <= e
    ensures 0 <= a * d <= a * e
  {}

  lemma UnsignedBound(b: int, d: int)
    requires 0 <= b < TWO32 && 0 <= d < TWO32
    ensures 0 <= b * d < TWO64
  {
    MulMonotone(b, d, TWO32 - 1);
  }

  lemma SignedBound(a: int, d: int)
    requires -TWO31 <= a < TWO31 && -TWO31 <= d < TWO32
    ensures -TWO63 < a * d < TWO63
  {
    if d < 0 {
      HalfBound(a, -d);
      assert a * d == -(a * -d);
    } else if a < 0 {
      MulMonotone(-a, d, TWO32 - 1);
      assert a * d == -((-a) * d);
    } else {
      MulMonotone(a, d, TWO32 - 1);
    }
  }

  lemma HalfBound(a: int, d: int)
    requires -TWO31 <= a < TWO31 && 0 <= d <= TWO31
    ensures -0x4000_0000_0000_0000 <= a * d <= 0x4000_0000_0000_0000
  {
    if a < 0 {
      MulMonotone(-a, d, TWO31);
      assert a * d == -((-a) * d);
    } else {
      MulMonotone(a, d, TWO31);
    }
  }

  /** Multiplying the wrapped operand and wrapping gives the same as wrapping the product. */
  lemma WrapFactor(a: int, d: int)
    ensures Wrap64(Wrap64(a) * d) == Wrap64(a * d)
  {
    var k := a / TWO64;
    assert a == k * TWO64 + Wrap64(a);
    assert a * d == Wrap64(a) * d + TWO64 * (k * d) by {
      assert (k * TWO64 + Wrap64(a)) * d == k * TWO64 * d + Wrap64(a) * d;
      assert k * TWO64 * d == TWO64 * (k * d);
    }
    WrapShift(Wrap64(a) * d, k * d);
  }

  lemma WrapShift(x: int, k: int)
    ensures Wrap64(x + TWO64 * k) == Wrap64(x)
  {}

  lemma Int64Exact(x: int)
    requires -TWO63 <= x < TWO63
    ensures AsInt64(x) == x
  {}

  /** The sum of limbs, with carries, is the high half. */
  lemma LimbSum(ac: int, ad: int, bc: int, bd: int, product: int)
    requires product == ac * TWO64 + (ad + bc) * TWO32 + bd
    requires 0 <= bd < TWO64
    ensures HighSum(ac, ad, bc, bd) == Wrap64(product / TWO64)
  {
    CarrySum(ad, bc, bd);
    var low := ad % TWO32 + bc % TWO32 + bd / TWO32;
    var high := ac + ad / TWO32 + bc / TWO32 + low / TWO32;
    var rest := (low % TWO32) * TWO32 + bd % TWO32;
    assert product == high * TWO64 + rest;
    ModUnique(product, TWO64, high, rest);
  }

  lemma ProductOfLimbs(a: int, b: int, c: int, d: int)
    ensures (a * TWO32 + b) * (c * TWO32 + d) == (a * c) * TWO64 + (a * d + b * c) * TWO32 + b * d
  {
    assert (a * TWO32 + b) * (c * TWO32 + d) == a * TWO32 * (c * TWO32) + a * TWO32 * d + b * (c * TWO32) + b * d;
    assert a * TWO32 * (c * TWO32) == (a * c) * TWO64;
    assert a * TWO32 * d == (a * d) * TWO32;
    assert b * (c * TWO32) == (b * c) * TWO32;
  }

  lemma HighOfLimbs(x: int, y: int, a: int, b: int, c: int, d: int)
    requires x == a * TWO32 + b && y == c * TWO32 + d && 0 <= b < TWO32 && 0 <= d < TWO32
    ensures HighSum(a * c, a * d, b * c, b * d) == Wrap64(x * y / TWO64)
  {
    hide HighSum, Wrap64;
    UnsignedBound(b, d);
    ProductOfLimbs(a, b, c, d);
    LimbSum(a * c, a * d, b * c, b * d, x * y);
  }

  lemma Limbs(x: u64)
    ensures Signed64(x) == Signed64(x) / TWO32 * TWO32 + x % TWO32
    ensures -TWO31 <= Signed64(x) / TWO32 < TWO31
    ensures x == x / TWO32 * TWO32 + x % TWO32
  {}

  // The products of limbs are exact in spite of the conversions.

  lemma ExactUnsigned(b: int, d: int)
    requires 0 <= b < TWO32 && 0 <= d < TWO32
    ensures Wrap64(b * d) == b * d && 0 <= b * d < TWO64
  {
    UnsignedBound(b, d);
  }

  lemma ExactSigned(a: int, c: int)
    requires -TWO31 <= a < TWO31 && -TWO31 <= c < TWO31
    ensures AsInt64(a * c) == a * c
  {
    SignedBound(a, c);
    Int64Exact(a * c);
  }

  lemma ExactMixed(a: int, d: int)
    requires -TWO31 <= a < TWO31 && 0 <= d < TWO32
    ensures AsInt64(Wrap64(a) * d) == a * d && AsInt64(d * Wrap64(a)) == a * d
  {
    hide Signed64;
    SignedBound(a, d);
    WrapFactor(a, d);
    Int64Exact(a * d);
    assert d * Wrap64(a) == Wrap64(a) * d;
  }

  lemma CarrySum(x: int, y: int, bd: int)
    requires 0 <= bd < TWO64
    ensures var low := x % TWO32 + y % TWO32 + bd / TWO32; Wrap64(low) == low
  {}

  /** MULH: signed by signed. */
  lemma MulhIsHighHalf(x: u64, y: u64)
    ensures GetMulh64(x, y) == Wrap64(Signed64(x) * Signed64(y) / TWO64)
  {
    hide Signed64, Wrap64, AsInt64, HighSum;
    Limbs(x); Limbs(y);
    var a, b, c, d := Signed64(x) / TWO32, x % TWO32, Signed64(y) / TWO32, y % TWO32;
    ExactSigned(a, c); ExactMixed(a, d); ExactMixed(c, b); ExactUnsigned(b, d);
    HighOfLimbs(Signed64(x), Signed64(y), a, b, c, d);
  }

  /** MULHSU: signed by unsigned. */
  lemma MulhsuIsHighHalf(x: u64, y: u64)
    ensures GetMulhsu64(x, y) == Wrap64(Signed64(x) * y / TWO64)
  {
    hide Signed64, Wrap64, AsInt64, HighSum;
    Limbs(x); Limbs(y);
    var a, b, c, d := Signed64(x) / TWO32, x % TWO32, y / TWO32, y % TWO32;
    ExactMixed(a, c); ExactMixed(a, d); ExactUnsigned(b, c); ExactUnsigned(b, d);
    HighOfLimbs(Signed64(x), y, a, b, c, d);
  }

  /** MULHU: unsigned by unsigned; here the high half needs no reduction. */
  lemma MulhuIsHighHalf(x: u64, y: u64)
    ensures GetMulhu64(x, y) == x * y / TWO64
  {
    hide Wrap64, HighSum;
    Limbs(x); Limbs(y);
    var a, b, c, d := x / TWO32, x % TWO32, y / TWO32, y % TWO32;
    ExactUnsigned(a, c); ExactUnsigned(a, d); ExactUnsigned(b, c); ExactUnsigned(b, d);
    HighOfLimbs(x, y, a, b, c, d);
    HighHalfFits(x, y);
  }

  lemma HighHalfFits(x: u64, y: u64)
    ensures Wrap64(x * y / TWO64) == x * y / TWO64
  {
    MulMonotone(x, y, TWO64);
    assert 0 <= x * y / TWO64 <= x;
  }
}
