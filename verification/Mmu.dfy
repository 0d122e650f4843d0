/** The memory management unit (Mmu.cpp): the two walk loops, proved against the recursion of PageWalk. */
module MemoryManagement {
  import opened Words
  import opened FlatMemory
  import opened PagedMemory
  import opened PageTableEntry
  import opened PageWalk

  /** The field-by-field address of Mmu.cpp. */
  function Address39(pte: nat, level: nat, va: nat): nat
  {
    var ppn1 := if level > 1 then (va / 0x20_0000) % 0x200 else Ppn1(pte);
    var ppn0 := if level > 0 then (va / 0x1000) % 0x200 else Ppn0(pte);
    (Ppn2(pte) * 0x4000_0000 + ppn1 * 0x20_0000 + ppn0 * 0x1000 + va % 0x1000) % 0x100_0000_0000_0000
  }

  function Address32(pte: nat, level: nat, va: nat): nat
  {
    var ppn0 := if level == 1 then (va / 0x1000) % 0x400 else LowerPpn(pte);
    (UpperPpn(pte) * 0x40_0000 + ppn0 * 0x1000 + va % 0x1000) % TWO32
  }

  /** It is the address of step 8. */
  lemma Assemble39(pte: u64, level: nat, va: u64)
    requires level <= 2 && Aligned(Sv39, pte, level)
    ensures Address39(pte, level, va) == PhysicalAddress(Sv39, pte, level, va)
  {
    hide Ppn44, Ppn2, Ppn1, Ppn0, Aligned, Vpn;
    var p, p2, p1, p0 := Ppn44(pte), Ppn2(pte), Ppn1(pte), Ppn0(pte);
    PpnFields39(pte);
    Misaligned39(pte, level);
    VaFields39(va);
    VaIndices39(va);
    assert p2 < 0x400_0000 && p1 < 512 && p0 < 512;
    if level == 0 { Below56(p2, p1, p0, va % 0x1000); }
    else if level == 1 { Below56(p2, p1, Vpn(Sv39, va, 0), va % 0x1000); }
    else { Below56(p2, Vpn(Sv39, va, 1), Vpn(Sv39, va, 0), va % 0x1000); }
  }

  lemma VaIndices39(va: nat)
    ensures Vpn(Sv39, va, 0) == (va / 0x1000) % 0x200 < 0x200 && Vpn(Sv39, va, 1) == (va / 0x20_0000) % 0x200 < 0x200
  {}

  lemma Below56(p2: nat, p1: nat, p0: nat, o: nat)
    requires p2 < 0x400_0000 && p1 < 0x200 && p0 < 0x200 && o < 0x1000
    ensures var a := p2 * 0x4000_0000 + p1 * 0x20_0000 + p0 * 0x1000 + o; a % 0x100_0000_0000_0000 == a
  {}

  lemma PpnFields39(pte: u64)
    ensures Ppn44(pte) == 0x4_0000 * Ppn2(pte) + 0x200 * Ppn1(pte) + Ppn0(pte)
    ensures Ppn2(pte) < 0x400_0000 && Ppn1(pte) < 0x200 && Ppn0(pte) < 0x200
  {
    var x := pte / 1024;
    ModUnique(pte, 0x8_0000, x / 0x200, x % 0x200 * 1024 + pte % 1024);
    ModUnique(pte, 0x1000_0000, x / 0x4_0000, x % 0x4_0000 * 1024 + pte % 1024);
    Cut(x);
  }

  lemma Cut(x: nat)
    ensures var p := x % 0x1000_0000_0000;
      p == 0x4_0000 * ((x / 0x4_0000) % 0x400_0000) + 0x200 * ((x / 0x200) % 0x200) + x % 0x200
  {
    var p := x % 0x1000_0000_0000;
    var q := x / 0x1000_0000_0000;
    assert x / 0x4_0000 == 0x400_0000 * q + p / 0x4_0000;
    assert x / 0x200 == 0x200 * (x / 0x4_0000) + (x / 0x200) % 0x200;
    assert x == 0x200 * (x / 0x200) + x % 0x200;
  }

  lemma VaFields39(va: u64)
    ensures va % 0x20_0000 == Vpn(Sv39, va, 0) * 0x1000 + va % 0x1000
    ensures va % 0x4000_0000 == Vpn(Sv39, va, 1) * 0x20_0000 + Vpn(Sv39, va, 0) * 0x1000 + va % 0x1000
  {
    var f := va / 0x1000;
    var g := f / 0x200;
    ModUnique(va, 0x20_0000, g, 0x1000 * (f % 0x200) + va % 0x1000);
    ModUnique(va, 0x4000_0000, g / 0x200, 0x20_0000 * (g % 0x200) + 0x1000 * (f % 0x200) + va % 0x1000);
  }

  lemma Assemble32(pte: u32, level: nat, va: u64)
    requires level <= 1 && Aligned(Sv32, pte, level)
    ensures Address32(pte, level, va) == PhysicalAddress(Sv32, pte, level, va) % SIZE
  {
    var p := pte / 1024;
    assert pte / 0x10_0000 == p / 1024 && p / 1024 < 4096;
    assert va % 0x40_0000 == (va / 0x1000) % 0x400 * 0x1000 + va % 0x1000;
    assert Ppn22(pte) == p && p == 1024 * (p / 1024) + p % 1024;
  }

  lemma Misaligned39(pte: u64, level: nat)
    requires level <= 2
    ensures (level > 0 && Ppn0(pte) != 0) || (level > 1 && Ppn1(pte) != 0) <==> !Aligned(Sv39, pte, level)
  {
    hide Ppn44, Ppn2, Ppn1, Ppn0;
    PpnFields39(pte);
    PpnRemainders(Ppn2(pte), Ppn1(pte), Ppn0(pte));
    if level == 0 {} else if level == 1 {} else {}
  }

  lemma PpnRemainders(p2: nat, p1: nat, p0: nat)
    requires p1 < 0x200 && p0 < 0x200
    ensures var p := 0x4_0000 * p2 + 0x200 * p1 + p0; p % 0x200 == p0 && p % 0x4_0000 == 0x200 * p1 + p0 && p % 1 == 0
  {
    assert 0x4_0000 * p2 + 0x200 * p1 + p0 == 0x200 * (0x200 * p2 + p1) + p0;
  }

  /** What is left after the loop: the address is taken from the entry whose access bits were just set. */
  lemma Finish39(m: Mem, root: nat, va: u64, write: bool, address: nat, p: u64, level: nat)
    requires level <= 2 && WalkFrom(Sv39, m, root, va, 2) == Found(address % SIZE, p, level)
    ensures WithAccess(p, write) < TWO64
    ensures TranslateBy(Sv39, m, root, va, write) ==
            Translation(false, Address39(WithAccess(p, write), level, va), WriteN(m, address, WithAccess(p, write), 8))
  {
    hide WalkFrom, WithAccess, Ppn, Ppn44, Span, PhysicalAddress, Aligned, Address39, Valid, Leaf, ReadN, WriteN, SameEntry;
    var q := WithAccess(p, write);
    FoundIsEntry(Sv39, m, root, va, 2);
    AccessSame(p, write);
    SameGeometry(Sv39, p, q, level, va);
    Assemble39(q, level, va);
    WriteReduced(m, address, q, 8);
  }

  lemma Finish32(m: Mem, root: nat, va: u64, write: bool, address: nat, p: u32, level: nat)
    requires level <= 1 && WalkFrom(Sv32, m, root, va, 1) == Found(address % SIZE, p, level)
    ensures WithAccess(p, write) < TWO32
    ensures TranslateBy(Sv32, m, root, va, write) ==
            Translation(false, Address32(WithAccess(p, write), level, va), WriteN(m, address, WithAccess(p, write), 4))
  {
    hide WalkFrom, WithAccess, Ppn, Span, Ppn22, PhysicalAddress, Aligned, Address32, Valid, Leaf, ReadN, WriteN, SameEntry;
    var q := WithAccess(p, write);
    FoundIsEntry(Sv32, m, root, va, 1);
    AccessSame(p, write);
    SameGeometry(Sv32, p, q, level, va);
    Assemble32(q, level, va);
    WriteReduced(m, address, q, 4);
  }

  lemma WriteReduced(m: Mem, a: nat, v: nat, n: nat)
    ensures WriteN(m, a % SIZE, v, n) == WriteN(m, a, v, n)
  {
    WriteAlias(m, a, a % SIZE, v, n);
  }

  lemma SameGeometry(sc: Scheme, p: nat, q: nat, level: nat, va: nat)
    requires SameEntry(p, q)
    ensures Aligned(sc, p, level) == Aligned(sc, q, level)
    ensures PhysicalAddress(sc, p, level, va) == PhysicalAddress(sc, q, level, va)
  {
    hide Ppn, Span;
    SameEntryFields(sc, p, q);
  }

  lemma AccessSame(p: nat, write: bool)
    ensures var q := WithAccess(p, write); SameEntry(p, q) && (p < TWO64 ==> q < TWO64) && (p < TWO32 ==> q < TWO32)
  {
    AccessBits(p, write);
  }

  lemma FaultOutcome(sc: Scheme, m: Mem, root: nat, va: u64, write: bool)
    requires WalkFrom(sc, m, root, va, sc.Levels - 1).Fault?
    ensures TranslateBy(sc, m, root, va, write) == Translation(true, va, m)
  {}

  lemma Misaligned32(pte: u32, level: nat)
    requires level <= 1
    ensures level > 0 && LowerPpn(pte) != 0 <==> !Aligned(Sv32, pte, level)
  {}

  /** One turn of the Sv39 loop, in the loop's own terms. */
  lemma WalkStep39(m: Mem, ppn: nat, va: u64, level: nat)
    requires level <= 2
    ensures var vpn := [(va / 0x1000) % 0x200, (va / 0x20_0000) % 0x200, (va / 0x4000_0000) % 0x200];
      var address := ppn * PAGE_SIZE + vpn[level] * 8;
      var pte := Read64(m, address);
      && address % 8 == 0
      && WalkFrom(Sv39, m, ppn, va, level) ==
           if !Valid(pte) then Fault
           else if Leaf(pte) then if Aligned(Sv39, pte, level) then Found(address % SIZE, pte, level) else Fault
           else if level == 0 then Fault
           else WalkFrom(Sv39, m, Ppn44(pte) % TWO32, va, level - 1)
  {
    hide Valid, Leaf, Ppn44;
    EntryAligned(Sv39, ppn, va, level);
    if level > 0 { PpnTruncated(m, Ppn44(Read64(m, EntryAddress(Sv39, ppn, va, level))), va, level - 1); }
  }

  lemma WalkStep32(m: Mem, ppn: nat, va: u64, level: nat)
    requires level <= 1
    ensures var address := (ppn * PAGE_SIZE + (if level == 1 then (va / 0x40_0000) % 0x400 else (va / 0x1000) % 0x400) * 4) % TWO32;
      var pte := Read32(m, address);
      && address % 4 == 0
      && WalkFrom(Sv32, m, ppn, va, level) ==
           if !Valid(pte) then Fault
           else if Leaf(pte) then if Aligned(Sv32, pte, level) then Found(address % SIZE, pte, level) else Fault
           else if level == 0 then Fault
           else WalkFrom(Sv32, m, Ppn22(pte), va, level - 1)
  {
    hide Valid, Leaf, Ppn22;
    EntryAligned(Sv32, ppn, va, level);
    var address := EntryAddress(Sv32, ppn, va, level);
    ReadAlias(m, address, address % SIZE, 4);
  }

  class Mmu {
    var memory: MemoryWrapper
    var mxl: int
    var privilege: Privilege
    var pageFault: bool
    var faultingAddress: u64

    constructor (memory: MemoryWrapper)
      ensures this.memory == memory && mxl == 0 && privilege == Machine && !pageFault && faultingAddress == 0
    {
      this.memory := memory;
      mxl, privilege, pageFault, faultingAddress := 0, Machine, false, 0;
    }

    method SetMxl(value: int)
      modifies this`mxl
      ensures mxl == value
    {
      mxl := value;
    }

    method SetPrivilege(value: Privilege)
      modifies this`privilege
      ensures privilege == value
    {
      privilege := value;
    }

    method VirtualToPhysical(va: u64, satp: u64, write: bool) returns (pa: u64)
      requires memory.Valid()
      modifies this`pageFault, this`faultingAddress, memory`contents, memory.mapping, memory.present
      ensures memory.Valid()
      ensures var t := Translate(old(memory.contents), ModeOf(mxl, privilege, satp), va, write);
        && pa == t.pa && pageFault == t.fault && memory.contents == t.mem
        && faultingAddress == if t.fault then va else 0
    {
      pageFault := false;
      faultingAddress := 0;
      if privilege == Machine { return va; }
      if mxl == 1 {
        pa := VirtualToPhysical32(va, satp, write);
      } else {
        pa := VirtualToPhysical64(va, satp, write);
      }
    }

    /** The walk loop of Sv39; on a fault the flags are set and nothing is written. */
    method WalkLoop64(va: u64, root: nat, pte: Pte64) returns (address: nat, level: nat)
      requires memory.Valid() && !pageFault && faultingAddress == 0
      modifies this`pageFault, this`faultingAddress, pte
      ensures var w := WalkFrom(Sv39, memory.contents, root, va, 2);
        if pageFault then faultingAddress == va && w.Fault?
        else faultingAddress == 0 && level <= 2 && address % 8 == 0
             && (w == if Aligned(Sv39, pte.value, level) then Found(address % SIZE, pte.value, level) else Fault)
    {
      hide Valid, Leaf, Ppn44, WalkFrom, Aligned, Represents, WellShaped;
      var ppn: nat := root;
      var vpn := [(va / 0x1000) % 0x200, (va / 0x20_0000) % 0x200, (va / 0x4000_0000) % 0x200];
      level, address := 2, 0;
      while true
        invariant 0 <= level <= 2
        invariant !pageFault && faultingAddress == 0
        invariant WalkFrom(Sv39, memory.contents, root, va, 2) == WalkFrom(Sv39, memory.contents, ppn, va, level)
        decreases level
      {
        address := ppn * PAGE_SIZE + vpn[level] * 8;
        WalkStep39(memory.contents, ppn, va, level);
        var pteValue := memory.Read64(address);
        pte.Assign(pteValue);
        if !pte.IsValid() {
          pageFault, faultingAddress := true, va;
          return;
        }
        if pte.IsLeaf() { return; }
        if level == 0 {
          pageFault, faultingAddress := true, va;
          return;
        }
        ppn := pte.GetPpn();
        level := level - 1;
      }
    }

    method VirtualToPhysical64(va: u64, satp: u64, write: bool) returns (pa: u64)
      requires memory.Valid() && privilege != Machine && mxl != 1
      requires !pageFault && faultingAddress == 0
      modifies this`pageFault, this`faultingAddress, memory`contents, memory.mapping, memory.present
      ensures memory.Valid()
      ensures var t := Translate(old(memory.contents), ModeOf(mxl, privilege, satp), va, write);
        && pa == t.pa && pageFault == t.fault && memory.contents == t.mem
        && faultingAddress == if t.fault then va else 0
    {
      hide WalkFrom, WithAccess, SetBit, Ppn44, Ppn2, Ppn1, Ppn0, Valid, Leaf, TranslateBy, WriteN, Aligned, Represents, WellShaped;
      var mode := satp / 0x1000_0000_0000_0000;
      if mode == 0 {
        return va;
      } else if mode != 8 {
        pageFault, faultingAddress := true, va;
        return va;
      }
      var pte := new Pte64(0);
      var address, level := WalkLoop64(va, satp % 0x1000_0000_0000, pte);
      if pageFault {
        FaultOutcome(Sv39, memory.contents, satp % 0x1000_0000_0000, va, write);
        return va;
      }
      ghost var found := pte.value;
      Misaligned39(found, level);
      if (level > 0 && pte.GetPpn0() != 0) || (level > 1 && pte.GetPpn1() != 0) {
        FaultOutcome(Sv39, memory.contents, satp % 0x1000_0000_0000, va, write);
        pageFault, faultingAddress := true, va;
        return va;
      }
      AccessIsSetBits(found, write);
      Finish39(memory.contents, satp % 0x1000_0000_0000, va, write, address, found, level);
      pte.SetA(true);
      if write { pte.SetD(true); }
      memory.Write64(address, pte.value);
      var ppn1 := if level > 1 then (va / 0x20_0000) % 0x200 else pte.GetPpn1();
      var ppn0 := if level > 0 then (va / 0x1000) % 0x200 else pte.GetPpn0();
      pa := (pte.GetPpn2() * 0x4000_0000 + ppn1 * 0x20_0000 + ppn0 * 0x1000 + va % 0x1000) % 0x100_0000_0000_0000;
    }

    /** The walk loop of Sv32. */
    method WalkLoop32(va: u64, root: nat, pte: Pte32) returns (address: nat, level: nat)
      requires memory.Valid() && !pageFault && faultingAddress == 0
      modifies this`pageFault, this`faultingAddress, pte
      ensures var w := WalkFrom(Sv32, memory.contents, root, va, 1);
        if pageFault then faultingAddress == va && w.Fault?
        else faultingAddress == 0 && level <= 1 && address % 4 == 0
             && (w == if Aligned(Sv32, pte.value, level) then Found(address % SIZE, pte.value, level) else Fault)
    {
      hide Valid, Leaf, Ppn22, WalkFrom, Aligned, Represents, WellShaped;
      var ppn: nat := root;
      var vpn1 := (va / 0x40_0000) % 0x400;
      var vpn0 := (va / 0x1000) % 0x400;
      var vpn := vpn1;
      level, address := 1, 0;
      while true
        invariant 0 <= level <= 1
        invariant vpn == if level == 1 then vpn1 else vpn0
        invariant !pageFault && faultingAddress == 0
        invariant WalkFrom(Sv32, memory.contents, root, va, 1) == WalkFrom(Sv32, memory.contents, ppn, va, level)
        decreases level
      {
        address := (ppn * PAGE_SIZE + vpn * 4) % TWO32;
        WalkStep32(memory.contents, ppn, va, level);
        var pteValue := memory.Read32(address);
        pte.Assign(pteValue);
        if !pte.IsValid() {
          pageFault, faultingAddress := true, va;
          return;
        }
        if pte.IsLeaf() { return; }
        if level == 0 {
          pageFault, faultingAddress := true, va;
          return;
        }
        ppn := pte.GetPpn();
        vpn := vpn0;
        level := level - 1;
      }
    }

    method VirtualToPhysical32(va: u64, satp: u64, write: bool) returns (pa: u64)
      requires memory.Valid() && privilege != Machine && mxl == 1
      requires !pageFault && faultingAddress == 0
      modifies this`pageFault, this`faultingAddress, memory`contents, memory.mapping, memory.present
      ensures memory.Valid()
      ensures var t := Translate(old(memory.contents), ModeOf(mxl, privilege, satp), va, write);
        && pa == t.pa && pageFault == t.fault && memory.contents == t.mem
        && faultingAddress == if t.fault then va else 0
    {
      hide WalkFrom, WithAccess, SetBit, Ppn22, UpperPpn, LowerPpn, Valid, Leaf, TranslateBy, WriteN, Aligned, Represents, WellShaped;
      if (satp / TWO31) % 2 == 0 { return va; }
      var pte := new Pte32(0);
      var address, level := WalkLoop32(va, satp % 0x40_0000, pte);
      if pageFault {
        FaultOutcome(Sv32, memory.contents, satp % 0x40_0000, va, write);
        return va;
      }
      ghost var found := pte.value;
      Misaligned32(found, level);
      if level > 0 && pte.GetPpn0() != 0 {
        FaultOutcome(Sv32, memory.contents, satp % 0x40_0000, va, write);
        pageFault, faultingAddress := true, va;
        return va;
      }
      AccessIsSetBits(found, write);
      Finish32(memory.contents, satp % 0x40_0000, va, write, address, found, level);
      pte.SetA(true);
      if write { pte.SetD(true); }
      memory.Write32(address, pte.value);
      var ppn0 := if level == 1 then (va / 0x1000) % 0x400 else pte.GetPpn0();
      pa := (pte.GetPpn1() * 0x40_0000 + ppn0 * 0x1000 + va % 0x1000) % TWO32;
    }
  }

  /** The entry number kept in 32 bits leads to the same table as all 44 bits: memory has 2^32 bytes. */
  lemma {:induction false} PpnTruncated(m: Mem, ppn: nat, va: nat, level: nat)
    ensures WalkFrom(Sv39, m, ppn, va, level) == WalkFrom(Sv39, m, ppn % TWO32, va, level)
  {
    var a, a' := EntryAddress(Sv39, ppn, va, level), EntryAddress(Sv39, ppn % TWO32, va, level);
    assert a == a' + SIZE * (PAGE_SIZE * (ppn / TWO32));
    SameRemainder(a', PAGE_SIZE * (ppn / TWO32));
    ReadAlias(m, a, a', 8);
  }

  lemma SameRemainder(a: nat, k: nat)
    ensures (a + SIZE * k) % SIZE == a % SIZE
  {}
}
