/** Page table entries (pte.cpp). Fields are cut out of the entry's value by division and remainder. */
module PageTableEntry {
  import opened Words

  predicate Valid(pte: nat) { pte % 2 == 1 && !((pte / 2) % 2 == 0 && (pte / 4) % 2 == 1) }

  predicate Leaf(pte: nat) { (pte / 2) % 2 == 1 || (pte / 4) % 2 == 1 || (pte / 8) % 2 == 1 }

  /** The frame number: 22 bits of a 32-bit entry, 44 bits of a 64-bit one. */
  function Ppn22(pte: nat): nat { (pte / 1024) % 0x40_0000 }

  function Ppn44(pte: nat): nat { (pte / 1024) % 0x1000_0000_0000 }

  /** ppn[2], ppn[1] and ppn[0] of an Sv39 entry; ppn[1] and ppn[0] of an Sv32 entry. */
  function Ppn2(pte: nat): nat { (pte / 0x1000_0000) % 0x400_0000 }

  function Ppn1(pte: nat): nat { (pte / 0x8_0000) % 512 }

  function Ppn0(pte: nat): nat { (pte / 1024) % 512 }

  function UpperPpn(pte: nat): nat { (pte / 0x10_0000) % 4096 }

  function LowerPpn(pte: nat): nat { (pte / 1024) % 1024 }

  /** Bit 6 (A) set and, for a store, bit 7 (D) as well. */
  function WithAccess(pte: nat, write: bool): nat
  {
    var a := if (pte / 64) % 2 == 1 then pte else pte + 64;
    if write && (a / 128) % 2 == 0 then a + 128 else a
  }

  function SetBit(data: nat, value: bool, weight: nat): (r: nat)
    requires weight > 0
  {
    var bit := (data / weight) % 2 == 1;
    if value == bit then data else if value then data + weight else data - weight
  }

  lemma AccessIsSetBits(pte: nat, write: bool)
    ensures var a := SetBit(pte, true, 64);
      WithAccess(pte, write) == if write then SetBit(a, true, 128) else a
  {}

  /** Setting A and D leaves every other bit as it was. */
  lemma AccessBits(pte: nat, write: bool)
    ensures var r := WithAccess(pte, write);
      && r / 256 == pte / 256 && r % 64 == pte % 64
      && (r / 64) % 2 == 1 && (write ==> (r / 128) % 2 == 1)
      && ((pte / 64) % 2 == 1 && (write ==> (pte / 128) % 2 == 1) ==> r == pte)
  {
    var h, d, a, l := Decompose(pte);
    Compose(h, d, a, l);
    Compose(h, d, 1, l);
    Compose(h, 1, 1, l);
  }

  lemma Decompose(pte: nat) returns (h: nat, d: nat, a: nat, l: nat)
    ensures d < 2 && a < 2 && l < 64 && pte == 256 * h + 128 * d + 64 * a + l
  {
    var x := pte / 64;
    var y := x / 2;
    h, d, a, l := y / 2, y % 2, x % 2, pte % 64;
  }

  lemma Compose(h: nat, d: nat, a: nat, l: nat)
    requires d < 2 && a < 2 && l < 64
    ensures var p := 256 * h + 128 * d + 64 * a + l;
      p / 256 == h && (p / 128) % 2 == d && (p / 64) % 2 == a && p % 64 == l
  {
    var p := 256 * h + 128 * d + 64 * a + l;
    ModUnique(p, 256, h, 128 * d + 64 * a + l);
    ModUnique(p, 128, 2 * h + d, 64 * a + l);
    ModUnique(2 * h + d, 2, h, d);
    ModUnique(p, 64, 4 * h + 2 * d + a, l);
    ModUnique(4 * h + 2 * d + a, 2, 2 * h + d, a);
  }

  class Pte32 {
    var value: u32

    constructor (v: u32)
      ensures value == v
    {
      value := v;
    }

    method Assign(v: u32)
      modifies this
      ensures value == v
    {
      value := v;
    }

    function GetPpn(): nat reads this { Ppn22(value) }
    function GetPpn1(): nat reads this { UpperPpn(value) }
    function GetPpn0(): nat reads this { LowerPpn(value) }
    predicate IsValid() reads this { Valid(value) }
    predicate IsLeaf() reads this { Leaf(value) }

    method SetPpn(ppn: nat)
      requires ppn < 0x40_0000
      modifies this
      ensures value == old(value) % 1024 + ppn * 1024
    {
      value := value % 1024 + ppn * 1024;
    }

    method SetV(on: bool)
      modifies this
      ensures value == SetBit(old(value), on, 1)
    {
      value := SetBit(value, on, 1);
    }

    method SetR(on: bool)
      modifies this
      ensures value == SetBit(old(value), on, 2)
    {
      value := SetBit(value, on, 2);
    }

    method SetW(on: bool)
      modifies this
      ensures value == SetBit(old(value), on, 4)
    {
      value := SetBit(value, on, 4);
    }

    method SetX(on: bool)
      modifies this
      ensures value == SetBit(old(value), on, 8)
    {
      value := SetBit(value, on, 8);
    }

    method SetA(on: bool)
      modifies this
      ensures value == SetBit(old(value), on, 64)
    {
      value := SetBit(value, on, 64);
    }

    method SetD(on: bool)
      modifies this
      ensures value == SetBit(old(value), on, 128)
    {
      value := SetBit(value, on, 128);
    }
  }

  class Pte64 {
    var value: u64

    constructor (v: u64)
      ensures value == v
    {
      value := v;
    }

    method Assign(v: u64)
      modifies this
      ensures value == v
    {
      value := v;
    }

    /** The 44-bit field is returned in a 32-bit integer. */
    function GetPpn(): u32 reads this { Ppn44(value) % TWO32 }
    function GetPpn2(): nat reads this { Ppn2(value) }
    function GetPpn1(): nat reads this { Ppn1(value) }
    function GetPpn0(): nat reads this { Ppn0(value) }
    predicate IsValid() reads this { Valid(value) }
    predicate IsLeaf() reads this { Leaf(value) }

    method SetA(on: bool)
      modifies this
      ensures value == SetBit(old(value), on, 64)
    {
      value := SetBit(value, on, 64);
    }

    method SetD(on: bool)
      modifies this
      ensures value == SetBit(old(value), on, 128)
    {
      value := SetBit(value, on, 128);
    }
  }
}
