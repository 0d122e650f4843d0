/** Bit vectors bit by bit: what the operations do to each bit, and that the bits determine the word. */
module WordBits {
  import opened Words
  import opened Alu
  import opened BitArithmetic

  /** Bit k, counted in the number the word stands for. */
  predicate BitAt(w: bv64, k: nat) { BitOf(Value64(w), k) == 1 }

  function Not(w: bv64): bv64 { !w }

  lemma ZeroOrOne(x: nat, k: nat)
    ensures BitOf(x, k) == 0 || BitOf(x, k) == 1
  {}

  lemma LogicAt(x: bv64, y: bv64, k: nat)
    ensures BitAt(And(x, y), k) <==> BitAt(x, k) && BitAt(y, k)
    ensures BitAt(Or(x, y), k) <==> BitAt(x, k) || BitAt(y, k)
    ensures BitAt(Xor(x, y), k) <==> BitAt(x, k) != BitAt(y, k)
  {
    hide And, Or, Xor, BitOf, Value64;
    LogicBits(x, y, k);
    ZeroOrOne(Value64(x), k);
    ZeroOrOne(Value64(y), k);
  }

  /** The bits of 2^n - 1 are those below n. */
  lemma {:induction false} OnesBit(n: nat, k: nat)
    ensures BitOf(Pow2(n) - 1, k) == if k < n then 1 else 0
    decreases n
  {
    hide BitOf;
    var x := Pow2(n) - 1;
    if n == 0 {
      NoBit(k);
    } else {
      assert x / 2 == Pow2(n - 1) - 1 && x % 2 == 1;
      if k == 0 { FirstBit(x); } else { NextBit(x, k); OnesBit(n - 1, k - 1); }
    }
  }

  lemma NoBit(k: nat)
    ensures BitOf(0, k) == 0
  {
    ModUnique(0, Pow2(k), 0, 0);
  }

  /** The only bit of 2^n is bit n. */
  lemma {:induction false} PowerBit(n: nat, k: nat)
    ensures BitOf(Pow2(n), k) == if k == n then 1 else 0
    decreases n
  {
    hide BitOf;
    var x := Pow2(n);
    if n == 0 {
      if k == 0 { FirstBit(1); } else { NextBit(1, k); NoBit(k - 1); }
    } else {
      assert x / 2 == Pow2(n - 1) && x % 2 == 0;
      if k == 0 { FirstBit(x); } else { NextBit(x, k); PowerBit(n - 1, k - 1); }
    }
  }

  const ONES: bv64 := 0xFFFF_FFFF_FFFF_FFFF

  lemma OnesValue()
    ensures Value64(ONES) == TWO64 - 1 && Value64(0xFFFF_FFFF) == TWO32 - 1 && Value64(0) == 0
  {}

  lemma Powers()
    ensures Pow2(32) == TWO32 && Pow2(64) == TWO64
  {
    Pow2Is32();
    Doubled(32, 32);
  }

  lemma Pow2Is32()
    ensures Pow2(32) == TWO32
  {
    assert Pow2(4) == 0x10;
    Doubled(4, 4); Doubled(8, 8); Doubled(16, 16);
  }

  lemma {:induction false} Doubled(n: nat, k: nat)
    ensures Pow2(n + k) == Pow2(n) * Pow2(k)
    decreases k
  {
    if k > 0 {
      Doubled(n, k - 1);
      assert 2 * (Pow2(n) * Pow2(k - 1)) == Pow2(n) * (2 * Pow2(k - 1));
    }
  }

  lemma NotIsXor(x: bv64)
    ensures Not(x) == Xor(x, ONES)
  {}

  lemma NotAt(x: bv64, k: nat)
    requires k < 64
    ensures BitAt(Not(x), k) <==> !BitAt(x, k)
  {
    hide Not, Xor, BitOf, Value64, Pow2;
    NotIsXor(x);
    OnesValue();
    Powers();
    OnesBit(64, k);
    LogicAt(x, ONES, k);
  }

  lemma ZeroAt(k: nat)
    ensures !BitAt(0, k)
  {
    hide Value64;
    OnesValue();
    NoBit(k);
  }

  lemma LowHalfAt(k: nat)
    ensures BitAt(0xFFFF_FFFF, k) <==> k < 32
  {
    hide BitOf, Value64, Pow2;
    OnesValue();
    Powers();
    OnesBit(32, k);
  }

  /** Words with the same 64 bits are the same. */
  lemma SameBits(x: bv64, y: bv64)
    requires forall k: nat :: k < 64 ==> (BitAt(x, k) <==> BitAt(y, k))
    ensures x == y
  {
    hide BitOf, Value64;
    forall k: nat | k < 64 ensures BitOf(Value64(x), k) == BitOf(Value64(y), k) {
      assert BitAt(x, k) <==> BitAt(y, k);
      ZeroOrOne(Value64(x), k); ZeroOrOne(Value64(y), k);
    }
    Powers();
    SameNumber(Value64(x), Value64(y), 64);
    SameValue(x, y);
  }

  lemma SameValue(x: bv64, y: bv64)
    requires Value64(x) == Value64(y)
    ensures x == y
  {
    Injective64(x, y);
  }

  lemma {:induction false} SameNumber(x: nat, y: nat, n: nat)
    requires x < Pow2(n) && y < Pow2(n) && forall k: nat :: k < n ==> BitOf(x, k) == BitOf(y, k)
    ensures x == y
    decreases n
  {
    hide BitOf;
    if n > 0 {
      FirstBit(x); FirstBit(y);
      assert BitOf(x, 0) == BitOf(y, 0);
      forall k: nat | k < n - 1 ensures BitOf(x / 2, k) == BitOf(y / 2, k) {
        NextBit(x, k + 1); NextBit(y, k + 1);
        assert BitOf(x, k + 1) == BitOf(y, k + 1);
      }
      SameNumber(x / 2, y / 2, n - 1);
    }
  }
}
