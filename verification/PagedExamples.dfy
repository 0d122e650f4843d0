/**
  Concrete accesses through page tables that do not do what the program asked for: a load whose second
  part is looked up at the wrong address, a store that is half done when it faults, and a store whose
  first part redirects its second.
 */
module PagedExamples {
  import opened Words
  import opened FlatMemory
  import opened PageWalk
  import opened PageTableEntry
  import opened Decoder
  import opened CpuModel
  import opened TranslatedStore
  import L = TranslatedLoad
  import F = FaultingStore
  import C = CompleteStore
  import P = Privileged

  /** Two Sv32 root entries at address 0: the first maps the first 4 MiB to 0x400000, the second nothing. */
  const SUPERPAGE := 0x10_000F

  function TableByte(x: nat): byte { if x == 0 then 0x0F else if x == 2 then 0x10 else 0 }

  ghost function Memory(): Mem { seq(SIZE, x requires 0 <= x < SIZE => TableByte(x)) }

  /** A 32-bit machine in supervisor mode with its root table in page 0. */
  function System(): P.Sys
  {
    P.Sys(0, 0, 0, Supervisor, seq(P.CSR_SIZE, i => 0)[P.SATP := 0x8000_0000])
  }

  function Machine(m: Mem): State
  {
    State(P.Config(false, false), seq(REGISTERS, i => 0), 0, 0, m, System(), Device(0, 0, false, false, false, 0, 0, 0),
          false, 0, false, 0, false, false, false, false, false)
  }

  lemma MachineTranslates(m: Mem)
    ensures Translated(Machine(m), Sv32, 0) && Machine(m).mem == m
  {}

  /** The tables are in place, whatever else memory holds. */
  predicate InPlace(m: Mem) { ReadN(m, 0, 4) == SUPERPAGE && ReadN(m, 4, 4) == 0 }

  lemma FourBytes(m: Mem, a: nat)
    requires a + 4 <= SIZE
    ensures var b0: nat, b1: nat, b2: nat, b3: nat := m[a], m[a + 1], m[a + 2], m[a + 3];
      ReadN(m, a, 4) == b0 + 0x100 * b1 + 0x1_0000 * b2 + 0x100_0000 * b3
  {
    assert ReadN(m, a + 3, 1) == m[a + 3];
    assert ReadN(m, a + 2, 2) == m[a + 2] + 0x100 * ReadN(m, a + 3, 1);
    assert ReadN(m, a + 1, 3) == m[a + 1] + 0x100 * ReadN(m, a + 2, 2);
  }

  lemma MemoryInPlace()
    ensures InPlace(Memory())
  {
    hide ReadN;
    FourBytes(Memory(), 0);
    FourBytes(Memory(), 4);
  }

  lemma RefreshedInPlace()
    ensures InPlace(L.Refreshed(Machine(Memory())))
  {
    hide ReadN, WriteN, Memory;
    MemoryInPlace();
    ReadOtherWrite(Memory(), TIMER_MTIME, 0, 8, 0, 4);
    ReadOtherWrite(Memory(), TIMER_MTIME, 0, 8, 4, 4);
  }

  lemma EntryFields()
    ensures Valid(SUPERPAGE) && Leaf(SUPERPAGE) && Ppn22(SUPERPAGE) == 0x400 && !Valid(0)
  {}

  /** Below 4 MiB every address is 0x400000 further up. */
  lemma Maps(m: Mem, va: u64, write: bool)
    requires ReadN(m, 0, 4) == SUPERPAGE && va < 0x40_0000
    ensures TranslateBy(Sv32, m, 0, va, write) == Translation(false, va + 0x40_0000, WriteN(m, 0, WithAccess(SUPERPAGE, write), 4))
  {
    hide ReadN, WriteN, WithAccess, Valid, Leaf, Ppn22;
    EntryFields();
    assert EntryAddress(Sv32, 0, va, 1) == 0;
    assert WalkFrom(Sv32, m, 0, va, 1) == Found(0, SUPERPAGE, 1);
  }

  /** In the next 4 MiB nothing is mapped. */
  lemma Faults(m: Mem, va: u64, write: bool)
    requires ReadN(m, 4, 4) == 0 && 0x40_0000 <= va < 0x80_0000
    ensures TranslateBy(Sv32, m, 0, va, write) == Translation(true, va, m)
  {
    hide ReadN, WriteN, WithAccess, Valid, Leaf, Ppn22;
    EntryFields();
    assert EntryAddress(Sv32, 0, va, 1) == 4;
    assert WalkFrom(Sv32, m, 0, va, 1) == Fault;
  }

  // ----- LW at 5 -----

  /** Byte `k` of an access at `va` is mapped, 0x400000 further up. */
  predicate MappedUp(m: Mem, va: u64, k: nat)
  {
    L.Mapped(Sv32, m, 0, Wrap64(va + k)) && TranslatedStore.Place(Sv32, m, 0, va, k) == 0x40_0000 + va + k
  }

  lemma AllMappedUp(m: Mem, va: u64, k: nat)
    requires ReadN(m, 0, 4) == SUPERPAGE && va + k < 0x40_0000
    ensures MappedUp(m, va, k)
  {
    hide TranslateBy, ReadN;
    Maps(m, va + k, true);
  }

  /** The word at 5 is mapped, but the second lookup of the load is not. */
  lemma SplitLookup(m: Mem)
    requires InPlace(m)
    ensures forall k :: 0 <= k < 4 ==> MappedUp(m, 5, k)
    ensures L.Mapped(Sv32, m, 0, 5) && FirstWidth(5, 4) == 3 && L.NextPart(Sv32, m, 0, 5, 4) == 0x40_0008
    ensures !L.Mapped(Sv32, m, 0, 0x40_0008) && !L.PartsAgree(Sv32, m, 0, 5, 4)
  {
    hide TranslateBy, ReadN, MappedUp;
    forall k | 0 <= k < 4 ensures MappedUp(m, 5, k) { AllMappedUp(m, 5, k); }
    Maps(m, 5, true);
    Faults(m, 0x40_0008, true);
  }

  lemma SplitLoadTraps(s: State, op: Op, rd: bv5, base: u64, imm: int)
    requires IsLoad(op) && AccessWidthOf(op) == 4 && Wrap64(base + imm) == 5 && Translated(s, Sv32, 0) && InPlace(L.Refreshed(s))
    ensures var t := Load(s, op, rd, base, imm); t == Trap(WithFault(SetMem(s, t.mem), 0x40_0008), 13, false) && t.regs == s.regs
  {
    hide Translated, InPlace, L.Refreshed, L.Mapped, L.NextPart, L.Physical, Load, Trap, WithFault, SetMem, FirstWidth, SameTables, MappedUp, L.PartsAgree, Wrap64;
    SplitLookup(L.Refreshed(s));
    L.LoadFaults(s, Sv32, 0, op, rd, base, imm);
  }

  lemma SplitLoadInput()
    ensures Translated(Machine(Memory()), Sv32, 0) && InPlace(L.Refreshed(Machine(Memory())))
  {
    hide InPlace, L.Refreshed, Translated, Memory;
    MachineTranslates(Memory());
    RefreshedInPlace();
  }

  // ----- SW at 0x3FFFFE -----

  const LAST := 0x3F_FFFE
  const VALUE := 0x4433_2211

  /** The second walk reads the entry at 4, which the first part of the store does not touch. */
  lemma HalfWritten(m: Mem)
    requires InPlace(m)
    ensures FirstWidth(LAST, 4) == 2 && Wrap64(LAST + 2) == 0x40_0000 && F.SecondFaults(Sv32, m, 0, LAST, VALUE, 4)
    ensures var m2 := FirstWritten(Sv32, m, 0, LAST, VALUE, 4); m2[0x7F_FFFE] == 0x11 && m2[0x7F_FFFF] == 0x22
  {
    hide TranslateBy, ReadN, WriteN, WithAccess, StoreData;
    Maps(m, LAST, true);
    var m1 := TranslateBy(Sv32, m, 0, LAST, true).mem;
    var m2 := FirstWritten(Sv32, m, 0, LAST, VALUE, 4);
    ReadOtherWrite(m, 0, WithAccess(SUPERPAGE, true), 4, 4, 4);
    ReadOtherWrite(m1, 0x7F_FFFE, StoreData(VALUE, 2), 2, 4, 4);
    Faults(m2, 0x40_0000, true);
    AllMappedUp(m, LAST, 0); AllMappedUp(m, LAST, 1);
    ValueBytes();
    F.FirstWrittenAt(Sv32, m, 0, LAST, VALUE, 4, 0);
    F.FirstWrittenAt(Sv32, m, 0, LAST, VALUE, 4, 1);
  }

  lemma ValueBytes()
    ensures ByteOf(VALUE, 0) == 0x11 && ByteOf(VALUE, 1) == 0x22
  {}

  /** A word store two bytes before the end of the mapped area: it traps, and the low half of the value stays behind. */
  lemma StraddlingStoreHalfDone(s: State, op: Op, base: u64, imm: int)
    requires IsStore(op) && AccessWidthOf(op) == 4 && Wrap64(base + imm) == LAST
    requires Translated(s, Sv32, 0) && InPlace(s.mem) && s.mem[0x7F_FFFE] == 0 && s.mem[0x7F_FFFF] == 0
    ensures var t := Store(s, op, VALUE, base, imm);
      && t == Trap(WithFault(SetMem(s, t.mem), 0x40_0000), 15, false)
      && t.mem[0x7F_FFFE] == 0x11 && t.mem[0x7F_FFFF] == 0x22
      && !F.OnlyAccessBits(Sv32, s.mem, 0, LAST, t.mem)
  {
    hide Translated, InPlace, TranslatedStore.Place, Store, Trap, WithFault, SetMem, FirstWidth, F.SecondFaults, FirstWritten, ByteOf, WalkUses, Wrap64;
    HalfWritten(s.mem);
    F.SecondPartFaults(s, Sv32, 0, op, VALUE, base, imm);
    ChangedByte(s.mem, Store(s, op, VALUE, base, imm).mem);
  }

  /** The byte at 0x7FFFFF is no part of the entry the first walk used. */
  lemma ChangedByte(m: Mem, m': Mem)
    requires InPlace(m) && m[0x7F_FFFF] != m'[0x7F_FFFF]
    ensures !F.OnlyAccessBits(Sv32, m, 0, LAST, m')
  {
    hide ReadN, Visible, Valid, Leaf;
    EntryFields();
    assert EntryAddress(Sv32, 0, LAST, 1) == 0;
    assert !WalkUses(Sv32, m, 0, LAST, 0x7F_FFFF);
  }

  lemma StraddlingStoreInput()
    ensures var s := Machine(Memory()); Translated(s, Sv32, 0) && InPlace(s.mem) && s.mem[0x7F_FFFE] == 0 && s.mem[0x7F_FFFF] == 0
  {
    hide InPlace, Translated, Memory;
    MachineTranslates(Memory());
    MemoryInPlace();
    NothingElse();
  }

  lemma NothingElse()
    ensures Memory()[0x7F_FFFE] == 0 && Memory()[0x7F_FFFF] == 0
  {}

  // ----- a halfword whose first byte changes the entry its second byte is translated by -----

  const BORDER := 0x3F_EFFF

  /** The four bytes of an entry. */
  predicate Holds(m: Mem, a: nat, b0: byte, b1: byte, b2: byte, b3: byte)
    requires a + 4 <= SIZE
  {
    m[a] == b0 && m[a + 1] == b1 && m[a + 2] == b2 && m[a + 3] == b3
  }

  /**
    The root points to the table in page 1, whose last entry but one maps that table itself and whose
    last entry maps page 2.
   */
  predicate Redirecting(m: Mem)
  {
    Holds(m, 0, 0x01, 0x04, 0, 0) && Holds(m, 0x1FF8, 0x0F, 0x04, 0, 0) && Holds(m, 0x1FFC, 0x0F, 0x08, 0, 0)
  }

  lemma RedirectFields()
    ensures Valid(0x401) && !Leaf(0x401) && Ppn22(0x401) == 1
    ensures Valid(0x40F) && Leaf(0x40F) && Ppn22(0x40F) == 1
    ensures Valid(0x80F) && Leaf(0x80F) && Ppn22(0x80F) == 2
    ensures Valid(0x100_080F) && Leaf(0x100_080F) && Ppn22(0x100_080F) == 0x4002
  {}

  /** The walk of an address in the last two pages below 4 MiB. */
  lemma TwoLevels(m: Mem, va: u64, pte: nat)
    requires ReadN(m, 0, 4) == 0x401 && 0x3F_E000 <= va < 0x40_0000
    requires ReadN(m, 0x1000 + va / 0x1000 * 4, 4) == pte && pte in {0x40F, 0x80F, 0x100_080F}
    ensures var t := TranslateBy(Sv32, m, 0, va, true);
      && !t.fault && t.pa == Ppn22(pte) * 0x1000 + va % 0x1000
      && t.mem == WriteN(m, 0x1000 + va / 0x1000 * 4, WithAccess(pte, true), 4)
  {
    hide ReadN, WriteN, WithAccess, Valid, Leaf, Ppn22;
    RedirectFields();
    var a := 0x1000 + va / 0x1000 * 4;
    assert EntryAddress(Sv32, 0, va, 1) == 0;
    assert EntryAddress(Sv32, 1, va, 0) == a;
    assert WalkFrom(Sv32, m, 1, va, 0) == Found(a, pte, 0);
    assert WalkFrom(Sv32, m, 0, va, 1) == Found(a, pte, 0);
  }

  /** What the first byte leaves: the last entry maps another page. */
  lemma Redirected(m: Mem)
    requires Redirecting(m)
    ensures FirstWidth(BORDER, 2) == 1
    ensures TranslateBy(Sv32, m, 0, BORDER, true).pa == 0x1FFF && !TranslateBy(Sv32, m, 0, BORDER, true).fault
    ensures var m2 := FirstWritten(Sv32, m, 0, BORDER, 0x2201, 2);
      ReadN(m2, 0, 4) == 0x401 && ReadN(m2, 0x1FFC, 4) == 0x100_080F
  {
    hide ReadN, WriteN, TranslateBy, WithAccess, Ppn22;
    RedirectFields();
    FourBytes(m, 0); FourBytes(m, 0x1FF8);
    TwoLevels(m, BORDER, 0x40F);
    var m1 := WriteN(m, 0x1FF8, WithAccess(0x40F, true), 4);
    var m2 := FirstWritten(Sv32, m, 0, BORDER, 0x2201, 2);
    FirstByte();
    forall x | x in {0, 1, 2, 3, 0x1FFC, 0x1FFD, 0x1FFE, 0x1FFF}
      ensures m2[x] == if x == 0x1FFF then 1 else m[x]
    {
      WriteAt(m, 0x1FF8, WithAccess(0x40F, true), 4, x);
      WriteAt(m1, 0x1FFF, StoreData(0x2201, 1), 1, x);
    }
    FourBytes(m2, 0); FourBytes(m2, 0x1FFC);
  }

  lemma FirstByte()
    ensures StoreData(0x2201, 1) == 1 && ByteOf(StoreData(0x2201, 1), 0) == 1
  {}

  /**
    The halfword 0x2201 at the end of the page that maps the table: its first byte makes the second go to
    0x4002000 instead of 0x2000.
   */
  lemma StoreRedirectsItself(m: Mem)
    requires Redirecting(m)
    ensures Completes(Sv32, m, 0, BORDER, 0x2201, 2) && !C.SecondAgrees(Sv32, m, 0, BORDER, 0x2201, 2)
    ensures TranslatedStore.Place(Sv32, m, 0, BORDER, 1) == 0x2000 && C.Target(Sv32, m, 0, BORDER, 0x2201, 2, 1) == 0x400_2000
    ensures Stored(Sv32, m, 0, BORDER, 0x2201, 2)[0x400_2000] == 0x22
  {
    hide ReadN, WriteN, TranslateBy, WithAccess, Ppn22, FirstWritten, Stored, ByteOf;
    RedirectFields();
    Redirected(m);
    FourBytes(m, 0); FourBytes(m, 0x1FFC);
    TwoLevels(m, 0x3F_F000, 0x80F);
    TwoLevels(FirstWritten(Sv32, m, 0, BORDER, 0x2201, 2), 0x3F_F000, 0x100_080F);
    C.SecondPartArrives(Sv32, m, 0, BORDER, 0x2201, 2, 1);
    SecondByte();
  }

  lemma SecondByte()
    ensures ByteOf(0x2201, 1) == 0x22
  {}

  function RedirectingByte(x: nat): byte
  {
    if x == 0 then 0x01 else if x == 1 || x == 0x1FF9 then 0x04
    else if x == 0x1FF8 || x == 0x1FFC then 0x0F else if x == 0x1FFD then 0x08 else 0
  }

  lemma RedirectInput()
    ensures var m: Mem := seq(SIZE, x requires 0 <= x < SIZE => RedirectingByte(x)); Redirecting(m) && Translated(Machine(m), Sv32, 0)
  {
    MachineTranslates(seq(SIZE, x requires 0 <= x < SIZE => RedirectingByte(x)));
  }
}
