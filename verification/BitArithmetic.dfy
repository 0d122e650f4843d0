/** The bits of a number, and what the bit-vector operations do to them. */
module BitArithmetic {
  import opened Words
  import opened Alu
  import opened Multiply

  /** Bit k of a number: its quotient by 2^k, modulo 2. */
  function BitOf(x: nat, k: nat): nat { (x / Pow2(k)) % 2 }

  lemma NextBit(x: nat, k: nat)
    requires k > 0
    ensures BitOf(x, k) == BitOf(x / 2, k - 1)
  {
    var p, h := Pow2(k - 1), x / 2;
    var q, r := h / p, h % p;
    QuotientBelow(h, p);
    assert x == 2 * h + x % 2;
    assert q * p * 2 == q * (2 * p);
    ModUnique(x, 2 * p, q, 2 * r + x % 2);
  }

  lemma FirstBit(x: nat)
    ensures BitOf(x, 0) == x % 2
  {}

  function Upper63(b: bv64): bv63 { (b >> 1) as bv63 }

  function Lowest(b: bv64): bv1 { (b & 1) as bv1 }

  function Wide63(h: bv63): bv64 { h as bv64 }

  function Wide1(l: bv1): bv64 { l as bv64 }

  function Half(b: bv64): bv64 { b >> 1 }

  function Odd(b: bv64): bv64 { b & 1 }

  lemma Concat1(hi: bv63, lo: bv1)
    ensures (((hi as bv64) << 1) | (lo as bv64)) as nat == (hi as nat) * 2 + (lo as nat)
  {}

  lemma Widened63(h: bv63)
    ensures (h as bv64) as nat == h as nat
  {}

  lemma Widened1(l: bv1)
    ensures (l as bv64) as nat == l as nat && l as nat < 2
  {}

  lemma Cut1(b: bv64)
    ensures ((Upper63(b) as bv64) << 1) | (Lowest(b) as bv64) == b && Wide63(Upper63(b)) == Half(b) && Wide1(Lowest(b)) == Odd(b)
  {}

  lemma WideValue(h: bv63, l: bv1)
    ensures Wide63(h) as nat == h as nat && Wide1(l) as nat == l as nat && l as nat < 2
  {
    Widened63(h);
    Widened1(l);
  }

  lemma Halved(b: bv64)
    ensures Value64(b) == 2 * Value64(Half(b)) + Value64(Odd(b)) && Value64(Odd(b)) < 2
  {
    hide Upper63, Lowest, Half, Odd, Wide63, Wide1;
    Cut1(b);
    Concat1(Upper63(b), Lowest(b));
    WideValue(Upper63(b), Lowest(b));
  }

  /** Bit k of a word is that of its half one further down. */
  lemma WordBit(b: bv64, k: nat)
    ensures k == 0 ==> BitOf(Value64(b), 0) == Value64(Odd(b))
    ensures k > 0 ==> BitOf(Value64(b), k) == BitOf(Value64(Half(b)), k - 1)
  {
    hide Half, Odd, Value64, BitOf;
    Halved(b);
    var h, l := Value64(Half(b)), Value64(Odd(b));
    ModUnique(Value64(b), 2, h, l);
    FirstBit(Value64(b));
    if k > 0 { NextBit(Value64(b), k); }
  }

  lemma HalfAnd(x: bv64, y: bv64)
    ensures Half(And(x, y)) == And(Half(x), Half(y)) && Odd(And(x, y)) == And(Odd(x), Odd(y))
  {}

  lemma HalfOr(x: bv64, y: bv64)
    ensures Half(Or(x, y)) == Or(Half(x), Half(y)) && Odd(Or(x, y)) == Or(Odd(x), Odd(y))
  {}

  lemma HalfXor(x: bv64, y: bv64)
    ensures Half(Xor(x, y)) == Xor(Half(x), Half(y)) && Odd(Xor(x, y)) == Xor(Odd(x), Odd(y))
  {}

  /** Conjunction, disjunction and difference of bits. */
  function Both(a: nat, b: nat): nat { if a == 1 && b == 1 then 1 else 0 }

  function Either(a: nat, b: nat): nat { if a == 1 || b == 1 then 1 else 0 }

  function Unlike(a: nat, b: nat): nat { if a == b then 0 else 1 }

  lemma ZeroOne()
    ensures Value64(0) == 0 && Value64(1) == 1
  {}

  lemma SmallTable()
    ensures And(0, 0) == 0 && And(0, 1) == 0 && And(1, 0) == 0 && And(1, 1) == 1
    ensures Or(0, 0) == 0 && Or(0, 1) == 1 && Or(1, 0) == 1 && Or(1, 1) == 1
    ensures Xor(0, 0) == 0 && Xor(0, 1) == 1 && Xor(1, 0) == 1 && Xor(1, 1) == 0
  {}

  lemma OddIsBit(x: bv64)
    ensures Odd(x) == 0 || Odd(x) == 1
  {}

  lemma OddBits(x: bv64, y: bv64)
    requires (x == 0 || x == 1) && (y == 0 || y == 1)
    ensures Value64(And(x, y)) == Both(Value64(x), Value64(y)) && Value64(Or(x, y)) == Either(Value64(x), Value64(y))
    ensures Value64(Xor(x, y)) == Unlike(Value64(x), Value64(y))
  {
    hide And, Or, Xor;
    ZeroOne();
    SmallTable();
    if x == 0 { if y == 0 {} else {} } else { if y == 0 {} else {} }
  }

  predicate Bits(x: bv64, y: bv64, k: nat)
  {
    && BitOf(Value64(And(x, y)), k) == Both(BitOf(Value64(x), k), BitOf(Value64(y), k))
    && BitOf(Value64(Or(x, y)), k) == Either(BitOf(Value64(x), k), BitOf(Value64(y), k))
    && BitOf(Value64(Xor(x, y)), k) == Unlike(BitOf(Value64(x), k), BitOf(Value64(y), k))
  }

  /** Every bit of the conjunction, disjunction and difference of two words. */
  lemma {:induction false} LogicBits(x: bv64, y: bv64, k: nat)
    ensures Bits(x, y, k)
    decreases k
  {
    hide Half, Odd, Value64, BitOf, Both, Either, Unlike, And, Or, Xor;
    WordBit(x, k); WordBit(y, k); WordBit(And(x, y), k); WordBit(Or(x, y), k); WordBit(Xor(x, y), k);
    HalfAnd(x, y); HalfOr(x, y); HalfXor(x, y);
    if k == 0 {
      OddIsBit(x); OddIsBit(y);
      OddBits(Odd(x), Odd(y));
    } else {
      LogicBits(Half(x), Half(y), k - 1);
    }
  }
}
