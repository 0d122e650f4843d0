/** Fetching through page tables: each halfword comes from the translation of its own address. */
module TranslatedFetch {
  import opened Words
  import opened FlatMemory
  import opened PageWalk
  import opened CpuModel
  import opened TranslatedStore
  import opened TranslatedLoad
  import MachineMode

  function HalfAt(m: Mem, x: nat): u16
  {
    ReadBound(m, x, 2); PowValues();
    ReadN(m, x, 2)
  }

  /** The halfword at pc, once its translation has set the access bits. */
  function LowHalf(sc: Scheme, m: Mem, root: nat, pc: u64): u16
  {
    HalfAt(AfterFirst(sc, m, root, pc), Place(sc, m, root, pc, 0))
  }

  predicate Long(low: u16) { low % 4 == 3 }

  /** A 32-bit instruction at an address that is no multiple of four takes a second translation. */
  predicate TwoParts(sc: Scheme, m: Mem, root: nat, pc: u64) { pc % 4 == 2 && Long(LowHalf(sc, m, root, pc)) }

  predicate FetchMapped(sc: Scheme, m: Mem, root: nat, pc: u64)
  {
    Mapped(sc, m, root, pc) && (TwoParts(sc, m, root, pc) ==> Mapped(sc, m, root, Wrap64(pc + 2)))
  }

  /** Memory after the fetch. */
  function AfterFetch(sc: Scheme, m: Mem, root: nat, pc: u64): Mem
  {
    var m1 := AfterFirst(sc, m, root, pc);
    if TwoParts(sc, m, root, pc) then AfterFirst(sc, m1, root, Wrap64(pc + 2)) else m1
  }

  /** The 16 or 32 bits at the translations of pc and pc+2. */
  function Instruction(sc: Scheme, m: Mem, root: nat, pc: u64): u32
  {
    var low := LowHalf(sc, m, root, pc);
    if Long(low) then low + 0x1_0000 * HalfAt(AfterFetch(sc, m, root, pc), Place(sc, m, root, pc, 2)) else low
  }

  // ----- reading halfwords -----

  lemma HalfAlias(m: Mem, a: nat)
    ensures ReadN(m, a % SIZE, 2) == ReadN(m, a, 2)
  {
    hide ReadN;
    ReadAlias(m, a % SIZE, a, 2);
  }

  lemma PlaceIsPhysical(sc: Scheme, m: Mem, root: nat, pc: u64)
    ensures Place(sc, m, root, pc, 0) == Physical(sc, m, root, pc) % SIZE
    ensures Place(sc, m, root, pc, 2) == Physical(sc, m, root, Wrap64(pc + 2)) % SIZE
    ensures Physical(sc, m, root, pc) % 8 == pc % 8
  {
    hide TranslateBy;
    KeepsUnitOffset(sc, m, root, pc);
  }

  lemma EightFourTwo(a: nat)
    ensures a % 4 == a % 8 % 4 && a % 2 == a % 8 % 2
  {
    var q, r := a / 8, a % 8;
    ModUnique(a, 4, 2 * q + r / 4, r % 4);
    ModUnique(a, 2, 4 * q + r / 2, r % 2);
  }

  /** At a multiple of four the word that is read holds both halves. */
  lemma WholeWord(m: Mem, pa: nat)
    requires pa % 4 == 0
    ensures var word := Read32(m, pa / 4 * 4);
      && word % 4 == HalfAt(m, pa % SIZE) % 4 && word % 0x1_0000 == HalfAt(m, pa % SIZE)
      && word == HalfAt(m, pa % SIZE) + 0x1_0000 * HalfAt(m, (pa + 2) % SIZE)
  {
    hide ReadN, Read32;
    Even(pa);
    MachineMode.WordHalves(m, pa);
    MachineMode.Quarters(pa);
    HalfAlias(m, pa); HalfAlias(m, pa + 2);
  }

  lemma Even(a: nat)
    requires a % 4 == 0 || a % 4 == 2
    ensures a % 2 == 0
  {
    ModUnique(a, 2, 2 * (a / 4) + a % 4 / 2, 0);
  }

  /** Otherwise the first half is the upper half of the word that is read. */
  lemma UpperHalf(m: Mem, pa: nat)
    requires pa % 4 == 2
    ensures Read32(m, pa / 4 * 4) / 0x1_0000 == HalfAt(m, pa % SIZE)
  {
    hide ReadN, Read32;
    Even(pa);
    MachineMode.WordHalves(m, pa);
    HalfAlias(m, pa);
  }

  lemma FourInUnit(pc: nat)
    requires pc % 4 == 0
    ensures pc % 8 + 2 < 8
  {
    EightFourTwo(pc);
  }

  /** Where the halves of an instruction at a multiple of four are. */
  lemma OneUnit(sc: Scheme, m: Mem, root: nat, pc: u64)
    requires pc % 4 == 0 && Mapped(sc, m, root, pc)
    ensures var pa := Physical(sc, m, root, pc);
      pa % 4 == 0 && Place(sc, m, root, pc, 0) == pa % SIZE && Place(sc, m, root, pc, 2) == (pa + 2) % SIZE
  {
    hide TranslateBy, Physical, Place;
    PlaceIsPhysical(sc, m, root, pc);
    FourInUnit(pc);
    MappedUnit(sc, m, root, pc);
    EightFourTwo(pc); EightFourTwo(Physical(sc, m, root, pc));
  }

  lemma MappedUnit(sc: Scheme, m: Mem, root: nat, pc: u64)
    requires pc % 8 + 2 < 8 && Mapped(sc, m, root, pc)
    ensures Place(sc, m, root, pc, 2) == (Physical(sc, m, root, pc) + 2) % SIZE
  {
    hide TranslateBy;
    UnitPlaces(sc, m, root, pc, 2);
  }

  /** Where those of an instruction at any other even address are. */
  lemma TwoUnits(sc: Scheme, m: Mem, root: nat, pc: u64)
    requires pc % 4 == 2
    ensures var pa, pa2 := Physical(sc, m, root, pc), Physical(sc, m, root, Wrap64(pc + 2));
      pa % 4 == 2 && pa2 % 4 == 0 && Place(sc, m, root, pc, 0) == pa % SIZE && Place(sc, m, root, pc, 2) == pa2 % SIZE
  {
    hide TranslateBy, Physical, Place, Wrap64;
    PlaceIsPhysical(sc, m, root, pc);
    PlaceIsPhysical(sc, m, root, Wrap64(pc + 2));
    NextWord(pc);
    EightFourTwo(pc); EightFourTwo(Physical(sc, m, root, pc));
    EightFourTwo(Wrap64(pc + 2)); EightFourTwo(Physical(sc, m, root, Wrap64(pc + 2)));
  }

  lemma NextWord(pc: u64)
    requires pc % 4 == 2
    ensures Wrap64(pc + 2) % 4 == 0
  {
    var q := pc / 4;
    if pc + 2 < TWO64 { ModUnique(pc + 2, TWO64, 0, pc + 2); ModUnique(pc + 2, 4, q + 1, 0); }
  }

  // ----- the fetch -----

  /**
    Through any tables, when the translations do not fault: the fetch returns the halfwords at the
    translations of pc and pc+2, also where the two lie in unrelated frames.
   */
  lemma FetchTranslated(s: State, sc: Scheme, root: nat, pc: u64)
    requires Translated(s, sc, root) && pc % 2 == 0 && FetchMapped(sc, s.mem, root, pc)
    ensures LoadCmd(s, pc) == Fetched(Instruction(sc, s.mem, root, pc), SetMem(s, AfterFetch(sc, s.mem, root, pc)))
  {
    hide TranslateBy, VirtualToPhysical, Read32, SetMem, Translated, Mapped, Physical, AfterFirst, HalfAt, Wrap64, SameTables, Place;
    var m, m1, low := s.mem, AfterFirst(sc, s.mem, root, pc), LowHalf(sc, s.mem, root, pc);
    Fetches(s, sc, root, pc);
    MachineMode.HalfFetch(pc);
    if pc % 4 == 0 {
      OneUnit(sc, m, root, pc);
      WholeWord(m1, Physical(sc, m, root, pc));
    } else {
      TwoUnits(sc, m, root, pc);
      UpperHalf(m1, Physical(sc, m, root, pc));
      if Long(low) {
        var next := Wrap64(pc + 2);
        TranslationsAgree(sc, m, root, pc, next);
        Fetches(SetMem(s, m1), sc, root, next);
        MemoryOf(s, m1);
        WholeWord(AfterFirst(sc, m1, root, next), Physical(sc, m, root, next));
        HalfFits(low);
      }
    }
  }

  /** The fetch writes access bits of the entries its walks use. */
  lemma FetchWritesUsed(sc: Scheme, m: Mem, root: nat, pc: u64)
    ensures var m' := AfterFetch(sc, m, root, pc);
      && SameTables(sc.PteSize, m, m')
      && forall x :: 0 <= x < SIZE && m'[x] != m[x] ==>
           WalkUses(sc, m, root, pc, x) || (TwoParts(sc, m, root, pc) && WalkUses(sc, m, root, Wrap64(pc + 2), x))
  {
    hide TranslateBy, Uses, Visible, TwoParts, Wrap64;
    var m1, next, m' := AfterFirst(sc, m, root, pc), Wrap64(pc + 2), AfterFetch(sc, m, root, pc);
    TranslateKeepsTables(sc, m, root, pc, false);
    TranslateKeepsTables(sc, m1, root, next, false);
    SameTablesTransitive(sc.PteSize, m, m1, AfterFirst(sc, m1, root, next));
    forall x | 0 <= x < SIZE && m'[x] != m[x]
      ensures WalkUses(sc, m, root, pc, x) || (TwoParts(sc, m, root, pc) && WalkUses(sc, m, root, next, x))
    {
      if m1[x] != m[x] {
        TranslateWritesUsed(sc, m, root, pc, false, x);
      } else {
        TranslateWritesUsed(sc, m1, root, next, false, x);
        UsesAgain(sc, m, m1, root, next, x);
      }
    }
  }

  lemma HalfFits(low: u16)
    ensures low % 0x1_0000 == low
  {}

  lemma TranslationsAgree(sc: Scheme, m: Mem, root: nat, pc: u64, next: u64)
    ensures var m1 := AfterFirst(sc, m, root, pc);
      Mapped(sc, m1, root, next) == Mapped(sc, m, root, next) && Physical(sc, m1, root, next) == Physical(sc, m, root, next)
  {
    hide TranslateBy, Mapped, Physical, SameTables;
    TranslateKeepsTables(sc, m, root, pc, false);
    SameLookup(sc, m, AfterFirst(sc, m, root, pc), root, next);
  }

  lemma Fetches(s: State, sc: Scheme, root: nat, va: u64)
    requires Translated(s, sc, root) && Mapped(sc, s.mem, root, va)
    ensures var u := SetMem(s, AfterFirst(sc, s.mem, root, va));
      && VirtualToPhysical(s, va, false) == CpuModel.Access(Physical(sc, s.mem, root, va), u)
      && Translated(u, sc, root) && !u.aborted && !u.pageFault && u.mem == AfterFirst(sc, s.mem, root, va)
  {
    hide TranslateBy, VirtualToPhysical, SetMem, Translated, Mapped, Physical, SameTables;
    LoadTranslation(s, sc, root, va);
    Untroubled(SetMem(s, AfterFirst(sc, s.mem, root, va)), sc, root);
    MemoryOf(s, AfterFirst(sc, s.mem, root, va));
  }

  /** Otherwise the fetch notes a fault, at pc or at pc+2. */
  lemma FetchFaults(s: State, sc: Scheme, root: nat, pc: u64)
    requires Translated(s, sc, root) && pc % 2 == 0 && !FetchMapped(sc, s.mem, root, pc)
    ensures var f := LoadCmd(s, pc).s;
      f.pageFault && f == WithFault(SetMem(s, f.mem), if Mapped(sc, s.mem, root, pc) then Wrap64(pc + 2) else pc)
  {
    hide TranslateBy, VirtualToPhysical, Read32, SetMem, WithFault, Translated, Physical, AfterFirst, HalfAt, Wrap64, SameTables, Place;
    Untroubled(s, sc, root);
    MachineMode.HalfFetch(pc);
    if !Mapped(sc, s.mem, root, pc) {
      NothingFetched(sc, s.mem, root, pc);
      FaultingAccess(s, sc, root, pc, false);
      OwnMemory(s);
      FaultNoted(s, s.mem, pc);
    } else {
      var m1, next := AfterFirst(sc, s.mem, root, pc), Wrap64(pc + 2);
      Fetches(s, sc, root, pc);
      if pc % 4 == 2 { TwoUnits(sc, s.mem, root, pc); UpperHalf(m1, Physical(sc, s.mem, root, pc)); }
      TranslationsAgree(sc, s.mem, root, pc, next);
      NothingFetched(sc, m1, root, next);
      FaultingAccess(SetMem(s, m1), sc, root, next, false);
      FaultNoted(s, m1, next);
    }
  }

  lemma FaultNoted(s: State, m: Mem, va: u64)
    ensures var f := WithFault(SetMem(s, m), va); f.pageFault && f.mem == m && f.aborted == s.aborted
  {}
}
