/**
  Fixed-width words. Data, addresses and registers are natural numbers below a power of two, so
  every wrap-around of the emulator is written out as a remainder. Instruction words and control
  registers are bit vectors; `Bits32` and `Bits64` lead from the first view to the second.
 */
module Words {
  const TWO31 := 0x8000_0000
  const TWO32 := 0x1_0000_0000
  const TWO63 := 0x8000_0000_0000_0000
  const TWO64 := 0x1_0000_0000_0000_0000

  type byte = x: nat | x < 0x100
  type u16 = x: nat | x < 0x1_0000
  type u32 = x: nat | x < 0x1_0000_0000
  type u64 = x: nat | x < 0x1_0000_0000_0000_0000

  function Wrap64(x: int): u64 { x % TWO64 }

  /** The value of a 64-bit word read as a two's complement number. */
  function Signed64(x: u64): int { if x < TWO63 then x else x - TWO64 }

  function Signed32(x: u32): int { if x < TWO31 then x else x - TWO32 }

  /** `Sext32bit`: bits 63..32 become copies of bit 31. */
  function Sext32(x: u64): (r: u64)
    ensures r % TWO32 == x % TWO32
    ensures Signed64(r) == Signed32(x % TWO32)
  {
    var low := x % TWO32;
    if low >= TWO31 then low + (TWO64 - TWO32) else low
  }

  /** A word is the sign extension of its low half. */
  predicate IsSext32(x: u64) { Sext32(x) == x }

  // ----- division -----

  lemma MulAtLeast(k: int, p: int)
    requires k > 0 && p > 0
    ensures k * p >= p
  {}

  lemma ModUnique(v: int, p: int, d: int, r: int)
    requires p > 0 && v == d * p + r && 0 <= r < p
    ensures v % p == r && v / p == d
  {
    var d' := v / p;
    var e := d' - d;
    assert e * p == d' * p - d * p;
    assert e * p == r - v % p;
    if e > 0 { MulAtLeast(e, p); }
    if e < 0 { MulAtLeast(-e, p); }
  }

  // ----- bit vectors -----

  lemma Concat16(hi: bv8, lo: bv8)
    ensures (((hi as bv16) << 8) | (lo as bv16)) as nat == (hi as nat) * 0x100 + (lo as nat)
  {}

  lemma Concat32(hi: bv16, lo: bv16)
    ensures (((hi as bv32) << 16) | (lo as bv32)) as nat == (hi as nat) * 0x1_0000 + (lo as nat)
  {}

  lemma Concat64(hi: bv32, lo: bv32)
    ensures (((hi as bv64) << 32) | (lo as bv64)) as nat == (hi as nat) * 0x1_0000_0000 + (lo as nat)
  {}

  lemma Concat8(hi: bv4, lo: bv4)
    ensures (((hi as bv8) << 4) | (lo as bv8)) as nat == (hi as nat) * 0x10 + (lo as nat)
  {}

  function Upper30(w: bv32): bv30 { (w >> 2) as bv30 }

  function Lower2(w: bv32): bv2 { (w & 3) as bv2 }

  lemma Concat2(hi: bv30, lo: bv2)
    ensures (((hi as bv32) << 2) | (lo as bv32)) as nat == (hi as nat) * 4 + (lo as nat)
  {}

  lemma Cut2(w: bv32)
    ensures ((Upper30(w) as bv32) << 2) | (Lower2(w) as bv32) == w
  {}

  function Bits4(x: nat): (b: bv4)
    requires x < 16
    ensures b as nat == x
  {
    match x
    case 0 => 0 case 1 => 1 case 2 => 2 case 3 => 3
    case 4 => 4 case 5 => 5 case 6 => 6 case 7 => 7
    case 8 => 8 case 9 => 9 case 10 => 10 case 11 => 11
    case 12 => 12 case 13 => 13 case 14 => 14 case _ => 15
  }

  function Bits8(x: byte): (b: bv8)
    ensures b as nat == x
  {
    Concat8(Bits4(x / 0x10), Bits4(x % 0x10));
    ((Bits4(x / 0x10) as bv8) << 4) | (Bits4(x % 0x10) as bv8)
  }

  function Bits16(x: u16): (b: bv16)
    ensures b as nat == x
  {
    Concat16(Bits8(x / 0x100), Bits8(x % 0x100));
    ((Bits8(x / 0x100) as bv16) << 8) | (Bits8(x % 0x100) as bv16)
  }

  function Bits32(x: u32): (b: bv32)
    ensures b as nat == x
  {
    Concat32(Bits16(x / 0x1_0000), Bits16(x % 0x1_0000));
    ((Bits16(x / 0x1_0000) as bv32) << 16) | (Bits16(x % 0x1_0000) as bv32)
  }

  function Bits64(x: u64): (b: bv64)
    ensures b as nat == x
  {
    Concat64(Bits32(x / TWO32), Bits32(x % TWO32));
    ((Bits32(x / TWO32) as bv64) << 32) | (Bits32(x % TWO32) as bv64)
  }

  /** Registers with the same number are the same. */
  lemma SameNumber(r: bv5, q: bv5)
    requires r as nat == q as nat
    ensures r == q
  {
    assert (r as nat) as bv5 == r;
    assert (q as nat) as bv5 == q;
  }

  lemma Injective32(a: bv32, b: bv32)
    requires a as nat == b as nat
    ensures a == b
  {
    assert (a as nat) as bv32 == a;
    assert (b as nat) as bv32 == b;
  }

  lemma Injective64(a: bv64, b: bv64)
    requires a as nat == b as nat
    ensures a == b
  {
    assert (a as nat) as bv64 == a;
    assert (b as nat) as bv64 == b;
  }

  // operations by name
  function And(x: bv64, y: bv64): bv64 { x & y }

  function Or(x: bv64, y: bv64): bv64 { x | y }

  function Xor(x: bv64, y: bv64): bv64 { x ^ y }

  function Plus(x: bv64, y: bv64): bv64 { x + y }

  function Value32(b: bv32): (x: u32) { b as nat }

  function Value64(b: bv64): (x: u64) { b as nat }

  lemma BitsOfValue32(b: bv32)
    ensures Bits32(Value32(b)) == b
  {
    Injective32(Bits32(Value32(b)), b);
  }

  lemma BitsOfValue64(b: bv64)
    ensures Bits64(Value64(b)) == b
  {
    Injective64(Bits64(Value64(b)), b);
  }
}
