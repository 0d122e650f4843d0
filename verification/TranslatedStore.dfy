/**
  A store through page tables: every byte goes to the translation of its own address, also where the
  store straddles two pages.
 */
module TranslatedStore {
  import opened Words
  import opened FlatMemory
  import opened PageWalk
  import opened Decoder
  import opened CpuModel
  import opened DataAccess
  import opened PageTableEntry
  import P = Privileged

  /** The walk of virtual address `va` in the initial tables. */
  predicate WalkUses(sc: Scheme, m: Mem, root: nat, va: u64, x: nat) { Uses(sc, m, root, va, sc.Levels - 1, x) }

  /** Where byte `k` of an access at `va` belongs. */
  function Place(sc: Scheme, m: Mem, root: nat, va: u64, k: nat): (x: nat)
    ensures x < SIZE
  {
    TranslateBy(sc, m, root, Wrap64(va + k), true).pa % SIZE
  }

  // ----- bytes of one 8-byte unit stay together -----

  lemma SameUnit(sc: Scheme, level: nat, va: nat, k: nat)
    requires va % 8 + k < 8
    ensures va / PageBytes(sc, level) == (va + k) / PageBytes(sc, level)
  {
    var u := va / 8;
    assert (va + k) / 8 == u;
    Units(va); Units(va + k);
  }

  lemma Units(va: nat)
    ensures va / 0x1000 == va / 8 / 0x200 && va / 0x20_0000 == va / 8 / 0x4_0000
    ensures va / 0x40_0000 == va / 8 / 0x8_0000 && va / 0x4000_0000 == va / 8 / 0x800_0000
  {}

  lemma UnitBelow(va: u64, k: nat)
    requires va % 8 + k < 8
    ensures va + k < TWO64 && Wrap64(va + k) == va + k
  {
    var u := va / 8;
    assert u < TWO64 / 8;
  }

  /** The bytes of an access inside one 8-byte unit go to consecutive places. */
  lemma UnitPlaces(sc: Scheme, m: Mem, root: nat, va: u64, k: nat)
    requires va % 8 + k < 8 && !TranslateBy(sc, m, root, va, true).fault
    ensures Place(sc, m, root, va, k) == (TranslateBy(sc, m, root, va, true).pa + k) % SIZE
    ensures !TranslateBy(sc, m, root, Wrap64(va + k), true).fault
  {
    hide WalkFrom, Ppn, Span, WithAccess, WriteN, PageBytes, PhysicalAddress;
    UnitBelow(va, k);
    var w := WalkFrom(sc, m, root, va, sc.Levels - 1);
    SameUnit(sc, w.level, va, k);
    PageContiguous(sc, m, root, va, k, true);
  }

  lemma KeepsUnitOffset(sc: Scheme, m: Mem, root: nat, va: u64)
    ensures TranslateBy(sc, m, root, va, true).pa % 8 == va % 8
  {
    hide WalkFrom, Ppn, WithAccess, WriteN;
    match WalkFrom(sc, m, root, va, sc.Levels - 1)
    case Fault =>
    case Found(address, pte, level) =>
      OffsetModEight(PageBytes(sc, level), va);
      PageModEight(Ppn(sc, pte), va % PageBytes(sc, level));
  }

  lemma OffsetModEight(n: nat, va: nat)
    requires n in {0x1000, 0x20_0000, 0x40_0000, 0x4000_0000}
    ensures va % n % 8 == va % 8
  {}

  lemma PageModEight(ppn: nat, offset: nat)
    ensures (ppn * PAGE_SIZE + offset) % 8 == offset % 8
    ensures (ppn * PAGE_SIZE + offset) % SIZE % 8 == offset % 8
  {
    assert ppn * PAGE_SIZE + offset == 8 * (512 * ppn) + offset;
    ModModEight(ppn * PAGE_SIZE + offset);
  }

  lemma ModModEight(x: nat)
    ensures x % SIZE % 8 == x % 8
  {}

  lemma {:induction false} DropByte(v: nat, n: nat, k: nat)
    ensures ByteOf(Drop(v, n), k) == ByteOf(v, n + k)
  {
    if n > 0 { DropByte(v / 0x100, n - 1, k); }
  }

  lemma StoredByte(v: u64, n: nat, k: nat)
    requires k < n
    ensures ByteOf(StoreData(v, n), k) == ByteOf(v, k)
  {
    hide Pow256;
    if n < 4 { LowBytesKept(v, n, k); }
  }

  // ----- memory after the store -----

  /** The width of the first of the two parts. */
  function FirstWidth(va: nat, width: nat): nat { if va % 8 + width <= 8 then width else 8 - va % 8 }

  /** What Store does to memory when no translation faults. */
  function Stored(sc: Scheme, m: Mem, root: nat, va: u64, value: u64, width: nat): Mem
    requires width <= 8
  {
    var n := FirstWidth(va, width);
    var first := TranslateBy(sc, m, root, va, true);
    var m2 := WriteN(first.mem, first.pa, StoreData(value, n), n);
    if n == width then m2
    else
      var second := TranslateBy(sc, m2, root, Wrap64(va + n), true);
      WriteN(second.mem, second.pa, Drop(value, n), width - n)
  }

  /** Memory once the first part has been written. */
  function FirstWritten(sc: Scheme, m: Mem, root: nat, va: u64, value: u64, width: nat): Mem
  {
    var n, first := FirstWidth(va, width), TranslateBy(sc, m, root, va, true);
    WriteN(first.mem, first.pa, StoreData(value, n), n)
  }

  /** Neither translation faults; that of the second part walks in the memory the first part leaves. */
  predicate Completes(sc: Scheme, m: Mem, root: nat, va: u64, value: u64, width: nat)
  {
    var n := FirstWidth(va, width);
    && !TranslateBy(sc, m, root, va, true).fault
    && (n < width ==> !TranslateBy(sc, FirstWritten(sc, m, root, va, value, width), root, Wrap64(va + n), true).fault)
  }

  /** Byte `x` belongs to an entry that the translations of the one or two parts use. */
  predicate StoreWalksUse(sc: Scheme, m: Mem, root: nat, va: u64, width: nat, x: nat)
  {
    || WalkUses(sc, m, root, va, x)
    || (FirstWidth(va, width) < width && WalkUses(sc, m, root, Wrap64(va + FirstWidth(va, width)), x))
  }

  /** No translation of a part faults, and the first part does not land on the tables of the second. */
  ghost predicate Undisturbed(sc: Scheme, m: Mem, root: nat, va: u64, width: nat)
  {
    var n := FirstWidth(va, width);
    var first := TranslateBy(sc, m, root, va, true);
    && !first.fault
    && (n < width ==>
          && !TranslateBy(sc, m, root, Wrap64(va + n), true).fault
          && forall x :: 0 <= x < SIZE && Off(x, first.pa) < n ==> !WalkUses(sc, m, root, Wrap64(va + n), x))
  }

  /** The first part leaves the second part's translation as it was in the initial memory. */
  lemma SecondPart(sc: Scheme, m: Mem, root: nat, va: u64, value: u64, width: nat) returns (first: Translation, m2: Mem, second: Translation)
    requires width in {2, 4, 8} && FirstWidth(va, width) < width && Undisturbed(sc, m, root, va, width)
    ensures var n := FirstWidth(va, width);
      && first == TranslateBy(sc, m, root, va, true)
      && m2 == WriteN(first.mem, first.pa, StoreData(value, n), n)
      && second == TranslateBy(sc, m2, root, Wrap64(va + n), true)
      && SameTables(sc.PteSize, m, first.mem)
      && SameTables(sc.PteSize, m2, second.mem)
      && !second.fault && second.pa == TranslateBy(sc, m, root, Wrap64(va + n), true).pa
      && forall x :: 0 <= x < SIZE && second.mem[x] != m2[x] ==> WalkUses(sc, m, root, Wrap64(va + n), x)
  {
    hide TranslateBy, WriteN, StoreData, Uses, Visible, FirstWidth, Off, Wrap64;
    var n := FirstWidth(va, width);
    var va2 := Wrap64(va + n);
    first := TranslateBy(sc, m, root, va, true);
    m2 := WriteN(first.mem, first.pa, StoreData(value, n), n);
    second := TranslateBy(sc, m2, root, va2, true);
    TranslateKeepsTables(sc, m, root, va, true);
    TranslateKeepsTables(sc, m2, root, va2, true);
    forall x | 0 <= x < SIZE && WalkUses(sc, m, root, va2, x) ensures Visible(sc.PteSize, x, m[x]) == Visible(sc.PteSize, x, m2[x]) {
      FirstWidthBelow(va, width);
      WriteAt(first.mem, first.pa, StoreData(value, n), n, x);
    }
    TranslateLocal(sc, m, m2, root, va2, true);
    forall x | 0 <= x < SIZE && second.mem[x] != m2[x] ensures WalkUses(sc, m, root, va2, x) {
      TranslateWritesUsed(sc, m2, root, va2, true, x);
      UsesSame(sc, m, m2, root, va2, sc.Levels - 1, x);
    }
  }

  lemma FirstWidthBelow(va: u64, width: nat)
    requires width in {1, 2, 4, 8}
    ensures 0 < FirstWidth(va, width) <= width && va % 8 + FirstWidth(va, width) <= 8
    ensures FirstWidth(va, width) == GetAccessWidth(width, va)
    ensures FirstWidth(va, width) < width ==> FirstWidth(va, width) == 8 - va % 8
  {
    hide GetAccessWidth;
    AccessWidthBounds(width, va);
  }

  /** The two parts lie at different places of an 8-byte unit. */
  lemma PartsApart(pa: nat, pa2: nat, n: nat, k: nat, r: nat)
    requires pa % 8 + n == 8 && pa2 % 8 == 0 && k < n && n + r <= 8
    ensures Off((pa + k) % SIZE, pa2) >= r
  {
    var x := (pa + k) % SIZE;
    ModModEight(pa + k);
    OffModEight(x, pa2);
  }

  lemma OffModEight(x: nat, a: nat)
    requires x < SIZE && a % 8 == 0
    ensures Off(x, a) % 8 == x % 8
  {}

  lemma SecondStart(va: u64, n: nat, k: nat)
    requires va % 8 + n == 8 && n <= k < n + 8
    ensures Wrap64(va + n) % 8 == 0
    ensures Wrap64(Wrap64(va + n) + (k - n)) == Wrap64(va + k)
  {}

  /** Where the bytes of the second part belong. */
  lemma SecondPlaces(sc: Scheme, m: Mem, root: nat, va: u64, n: nat, k: nat)
    requires va % 8 + n == 8 && n <= k < n + 8
    requires !TranslateBy(sc, m, root, Wrap64(va + n), true).fault
    ensures Place(sc, m, root, va, k) == (TranslateBy(sc, m, root, Wrap64(va + n), true).pa + (k - n)) % SIZE
  {
    hide TranslateBy;
    SecondStart(va, n, k);
    UnitPlaces(sc, m, root, Wrap64(va + n), k - n);
  }

  /** Byte `k` of the value arrives at its place. */
  lemma ByteArrives(sc: Scheme, m: Mem, root: nat, va: u64, value: u64, width: nat, k: nat)
    requires width in {1, 2, 4, 8} && Undisturbed(sc, m, root, va, width) && k < width
    ensures Stored(sc, m, root, va, value, width)[Place(sc, m, root, va, k)] == ByteOf(value, k)
  {
    hide TranslateBy, WriteN, StoreData, WalkUses, FirstWidth, Off, Wrap64, Place, Drop, ByteOf, SameTables;
    var n := FirstWidth(va, width);
    FirstWidthBelow(va, width);
    var first := TranslateBy(sc, m, root, va, true);
    var m2 := WriteN(first.mem, first.pa, StoreData(value, n), n);
    if k < n {
      UnitPlaces(sc, m, root, va, k);
      var x := (first.pa + k) % SIZE;
      OffBack(first.pa, k);
      WriteAt(first.mem, first.pa, StoreData(value, n), n, x);
      StoredByte(value, n, k);
      if n < width {
        var _, _, second := SecondPart(sc, m, root, va, value, width);
        KeepsUnitOffset(sc, m, root, va);
        KeepsUnitOffset(sc, m2, root, Wrap64(va + n));
        SecondStart(va, n, n);
        PartsApart(first.pa, second.pa, n, k, width - n);
        WriteAt(second.mem, second.pa, Drop(value, n), width - n, x);
      }
    } else {
      var _, _, second := SecondPart(sc, m, root, va, value, width);
      SecondPlaces(sc, m, root, va, n, k);
      OffBack(second.pa, k - n);
      WriteAt(second.mem, second.pa, Drop(value, n), width - n, (second.pa + (k - n)) % SIZE);
      DropByte(value, n, k - n);
    }
  }

  /** A byte that is not stored keeps its value, up to the access bits of the entries that were used. */
  lemma OtherByteKept(sc: Scheme, m: Mem, root: nat, va: u64, value: u64, width: nat, x: nat)
    requires width in {1, 2, 4, 8} && Undisturbed(sc, m, root, va, width) && x < SIZE
    requires forall k :: 0 <= k < width ==> x != Place(sc, m, root, va, k)
    ensures var m' := Stored(sc, m, root, va, value, width);
      && Visible(sc.PteSize, x, m'[x]) == Visible(sc.PteSize, x, m[x])
      && (m'[x] != m[x] ==> StoreWalksUse(sc, m, root, va, width, x))
  {
    hide TranslateBy, WriteN, StoreData, Uses, FirstWidth, Off, Wrap64, Place, Drop, Visible;
    var n := FirstWidth(va, width);
    FirstWidthBelow(va, width);
    var first := TranslateBy(sc, m, root, va, true);
    var m2 := WriteN(first.mem, first.pa, StoreData(value, n), n);
    NotInFirst(sc, m, root, va, n, x);
    WriteAt(first.mem, first.pa, StoreData(value, n), n, x);
    TranslateKeepsTables(sc, m, root, va, true);
    if first.mem[x] != m[x] { TranslateWritesUsed(sc, m, root, va, true, x); }
    assert Visible(sc.PteSize, x, m[x]) == Visible(sc.PteSize, x, first.mem[x]);
    if n < width {
      var _, _, second := SecondPart(sc, m, root, va, value, width);
      NotInSecond(sc, m, root, va, n, width, x);
      WriteAt(second.mem, second.pa, Drop(value, n), width - n, x);
      assert Visible(sc.PteSize, x, m2[x]) == Visible(sc.PteSize, x, second.mem[x]);
    }
  }

  lemma NotInFirst(sc: Scheme, m: Mem, root: nat, va: u64, n: nat, x: nat)
    requires 0 < n && va % 8 + n <= 8 && x < SIZE && !TranslateBy(sc, m, root, va, true).fault
    requires forall k :: 0 <= k < n ==> x != Place(sc, m, root, va, k)
    ensures Off(x, TranslateBy(sc, m, root, va, true).pa) >= n
  {
    hide TranslateBy, Place, Off;
    var pa := TranslateBy(sc, m, root, va, true).pa;
    var o := Off(x, pa);
    if o < n {
      OffIsOffset(x, pa);
      UnitPlaces(sc, m, root, va, o);
    }
  }

  lemma NotInSecond(sc: Scheme, m: Mem, root: nat, va: u64, n: nat, width: nat, x: nat)
    requires va % 8 + n == 8 && n < width <= 8 && x < SIZE && !TranslateBy(sc, m, root, Wrap64(va + n), true).fault
    requires forall k :: n <= k < width ==> x != Place(sc, m, root, va, k)
    ensures Off(x, TranslateBy(sc, m, root, Wrap64(va + n), true).pa) >= width - n
  {
    hide TranslateBy, Place, Off, Wrap64;
    var pa := TranslateBy(sc, m, root, Wrap64(va + n), true).pa;
    var o := Off(x, pa);
    if o < width - n {
      OffIsOffset(x, pa);
      SecondPlaces(sc, m, root, va, n, n + o);
    }
  }

  // ----- the instruction -----

  /** Accesses go through the tables in page `root`. */
  predicate Translated(s: State, sc: Scheme, root: nat)
  {
    && !s.pageFault && !s.aborted
    && EffectivePrivilege(s.sys).Mode? && TranslationMode(s, EffectivePrivilege(s.sys).priv) == Paged(sc, root)
  }

  lemma PagedAccess(s: State, sc: Scheme, root: nat, va: u64, write: bool)
    requires Translated(s, sc, root) && !TranslateBy(sc, s.mem, root, va, write).fault
    ensures var t := TranslateBy(sc, s.mem, root, va, write);
      t.pa < TWO64 && VirtualToPhysical(s, va, write) == Access(t.pa, SetMem(s, t.mem))
    ensures !s.aborted && !s.pageFault
  {
    hide EffectivePrivilege, ModeOf, TranslateBy;
    TranslatedBelow(s.mem, Paged(sc, root), va, write);
  }

  /** A translation that faults is noted and changes nothing else. */
  lemma FaultingAccess(s: State, sc: Scheme, root: nat, va: u64, write: bool)
    requires Translated(s, sc, root) && TranslateBy(sc, s.mem, root, va, write).fault
    ensures VirtualToPhysical(s, va, write) == Access(va, WithFault(s, va))
  {
    hide EffectivePrivilege, ModeOf, WalkFrom;
    TranslatedBelow(s.mem, Paged(sc, root), va, write);
  }

  lemma FaultState(s: State, m: Mem, va: u64, cause: nat)
    requires cause < 16
    ensures var t := Trap(WithFault(SetMem(s, m), va), cause, false); t.mem == m && t.regs == s.regs
    ensures WithFault(SetMem(s, m), va).pageFault && WithFault(SetMem(s, m), va).aborted == s.aborted
  {
    hide Trap;
    TrapKeepsRest(WithFault(SetMem(s, m), va), cause);
  }

  lemma TrapKeepsRest(s: State, cause: nat)
    requires cause < 16
    ensures Trap(s, cause, false).mem == s.mem && Trap(s, cause, false).regs == s.regs
  {
    hide P.Trap, P.TrapSupports, Bits64, Transferred, FaultRecorded;
    if P.TrapSupports(cause, false) {
      var t := P.Trap(s.sys, s.cfg, cause, false, Bits64(s.pc), if IsPageFault(cause) then Bits64(s.faultingAddress) else 0);
      TransferKeepsRest(s, t);
      TransferKeepsRest(FaultRecorded(s), t);
      RecordKeepsRest(s);
    }
  }

  lemma TransferKeepsRest(s: State, t: P.Transfer)
    ensures Transferred(s, t).mem == s.mem && Transferred(s, t).regs == s.regs
  {
    hide Value64;
  }

  lemma RecordKeepsRest(s: State)
    ensures FaultRecorded(s).mem == s.mem && FaultRecorded(s).regs == s.regs
  {}

  lemma TranslatedElsewhere(s: State, sc: Scheme, root: nat, m: Mem)
    requires Translated(s, sc, root)
    ensures Translated(SetMem(s, m), sc, root) && SetMem(s, m).mem == m && SetMem(s, m).dev == s.dev
    ensures !SetMem(s, m).aborted && !SetMem(s, m).pageFault
    ensures forall m': Mem :: SetMem(SetMem(s, m), m') == SetMem(s, m')
  {
    hide EffectivePrivilege, ModeOf;
  }

  /** The second part of the instruction when its translation succeeds. */
  lemma RestSucceeds(s: State, sc: Scheme, root: nat, op: Op, value: u64, va: u64, pa: u64, n: nat)
    requires IsStore(op) && n < AccessWidthOf(op) && Translated(s, sc, root) && !TranslateBy(sc, s.mem, root, Wrap64(va + n), true).fault
    ensures var second := TranslateBy(sc, s.mem, root, Wrap64(va + n), true);
      StoreRest(s, op, value, va, pa, n) ==
      SetDev(SetMem(s, WriteN(second.mem, second.pa, Drop(value, n), AccessWidthOf(op) - n)), CheckDeviceWrite(s.dev, pa, AccessWidthOf(op), value))
  {
    hide TranslateBy, VirtualToPhysical, WriteN, Drop, AccessWidthOf, CheckDeviceWrite, KindOf, Wrap64, SetMem, SetDev, Trap, Translated;
    PagedAccess(s, sc, root, Wrap64(va + n), true);
    TranslatedElsewhere(s, sc, root, TranslateBy(sc, s.mem, root, Wrap64(va + n), true).mem);
  }

  lemma RestIsStored(s: State, sc: Scheme, root: nat, op: Op, value: u64, va: u64)
    requires IsStore(op) && Translated(s, sc, root) && Completes(sc, s.mem, root, va, value, AccessWidthOf(op))
    requires FirstWidth(va, AccessWidthOf(op)) < AccessWidthOf(op)
    ensures var n := FirstWidth(va, AccessWidthOf(op));
      var first := TranslateBy(sc, s.mem, root, va, true);
      first.pa < TWO64
      && StoreRest(SetMem(s, FirstWritten(sc, s.mem, root, va, value, AccessWidthOf(op))), op, value, va, first.pa, n) ==
         SetDev(SetMem(s, Stored(sc, s.mem, root, va, value, AccessWidthOf(op))), CheckDeviceWrite(s.dev, first.pa, AccessWidthOf(op), value))
  {
    hide TranslateBy, WriteN, Drop, FirstWidth, AccessWidthOf, CheckDeviceWrite, KindOf, StoreData, StoreRest;
    hide Wrap64, SetMem, SetDev, Translated;
    var width := AccessWidthOf(op);
    FirstWidthBelow(va, width);
    var n := FirstWidth(va, width);
    var first, m2 := TranslateBy(sc, s.mem, root, va, true), FirstWritten(sc, s.mem, root, va, value, width);
    PagedAccess(s, sc, root, va, true);
    TranslatedElsewhere(s, sc, root, m2);
    RestSucceeds(SetMem(s, m2), sc, root, op, value, va, first.pa, n);
  }

  /** Where the first part spares the tables of the second, both translations succeed. */
  lemma UndisturbedCompletes(sc: Scheme, m: Mem, root: nat, va: u64, value: u64, width: nat)
    requires width in {1, 2, 4, 8} && Undisturbed(sc, m, root, va, width)
    ensures Completes(sc, m, root, va, value, width)
  {
    hide TranslateBy, WalkUses, FirstWidth, Off, Wrap64, WriteN, StoreData, SameTables;
    FirstWidthBelow(va, width);
    if FirstWidth(va, width) < width { var _, _, _ := SecondPart(sc, m, root, va, value, width); }
  }

  lemma StoreIsStored(s: State, sc: Scheme, root: nat, op: Op, value: u64, base: u64, imm: int)
    requires IsStore(op) && Translated(s, sc, root) && Completes(sc, s.mem, root, Wrap64(base + imm), value, AccessWidthOf(op))
    ensures var va, width := Wrap64(base + imm), AccessWidthOf(op);
      var pa := TranslateBy(sc, s.mem, root, va, true).pa;
      pa < TWO64
      && Store(s, op, value, base, imm) ==
         SetDev(SetMem(s, Stored(sc, s.mem, root, va, value, width)), CheckDeviceWrite(s.dev, pa, width, value))
  {
    hide TranslateBy, VirtualToPhysical, WriteN, StoreRest, GetAccessWidth, FirstWidth, AccessWidthOf, CheckDeviceWrite, KindOf, StoreData;
    hide Wrap64, SetMem, SetDev, Trap, Translated, Drop;
    var va, width := Wrap64(base + imm), AccessWidthOf(op);
    FirstWidthBelow(va, width);
    AccessWidthBounds(width, va);
    PagedAccess(s, sc, root, va, true);
    var first := TranslateBy(sc, s.mem, root, va, true);
    TranslatedElsewhere(s, sc, root, first.mem);
    var n := FirstWidth(va, width);
    TranslatedElsewhere(s, sc, root, FirstWritten(sc, s.mem, root, va, value, width));
    if n < width {
      RestIsStored(s, sc, root, op, value, va);
    }
  }

  /**
    A store of any width at any alignment through page tables. Byte k goes to the translation of the
    k-th address, and every other byte keeps its value except for access bits of used entries.
   */
  lemma StoreTranslated(s: State, sc: Scheme, root: nat, op: Op, value: u64, base: u64, imm: int)
    requires IsStore(op) && Translated(s, sc, root) && Undisturbed(sc, s.mem, root, Wrap64(base + imm), AccessWidthOf(op))
    ensures var va, width, t := Wrap64(base + imm), AccessWidthOf(op), Store(s, op, value, base, imm);
      && t == SetDev(SetMem(s, t.mem), t.dev)
      && (forall k :: 0 <= k < width ==> t.mem[Place(sc, s.mem, root, va, k)] == ByteOf(value, k))
      && (forall x :: 0 <= x < SIZE && (forall k :: 0 <= k < width ==> x != Place(sc, s.mem, root, va, k)) ==>
            && Visible(sc.PteSize, x, t.mem[x]) == Visible(sc.PteSize, x, s.mem[x])
            && (t.mem[x] != s.mem[x] ==> StoreWalksUse(sc, s.mem, root, va, width, x)))
  {
    hide TranslateBy, Stored, Undisturbed, Completes, Place, Store, StoreWalksUse, AccessWidthOf, CheckDeviceWrite, KindOf, Wrap64, SetMem, SetDev, Translated, Visible, ByteOf;
    var va, width := Wrap64(base + imm), AccessWidthOf(op);
    UndisturbedCompletes(sc, s.mem, root, va, value, width);
    StoreIsStored(s, sc, root, op, value, base, imm);
    var m := Stored(sc, s.mem, root, va, value, width);
    Parts(s, m, CheckDeviceWrite(s.dev, TranslateBy(sc, s.mem, root, va, true).pa, width, value));
    forall k | 0 <= k < width ensures m[Place(sc, s.mem, root, va, k)] == ByteOf(value, k) {
      ByteArrives(sc, s.mem, root, va, value, width, k);
    }
    forall x | 0 <= x < SIZE && (forall k :: 0 <= k < width ==> x != Place(sc, s.mem, root, va, k))
      ensures Visible(sc.PteSize, x, m[x]) == Visible(sc.PteSize, x, s.mem[x])
      ensures m[x] != s.mem[x] ==> StoreWalksUse(sc, s.mem, root, va, width, x)
    {
      OtherByteKept(sc, s.mem, root, va, value, width, x);
    }
  }

  lemma Parts(s: State, m: Mem, d: Device)
    ensures SetDev(SetMem(s, m), d).mem == m && SetDev(SetMem(s, m), d).dev == d
  {}

  /** A store whose first address does not translate traps and writes nothing. */
  lemma StoreFaults(s: State, sc: Scheme, root: nat, op: Op, value: u64, base: u64, imm: int)
    requires IsStore(op) && Translated(s, sc, root) && TranslateBy(sc, s.mem, root, Wrap64(base + imm), true).fault
    ensures var t := Store(s, op, value, base, imm);
      t == Trap(s.(pageFault := true, faultingAddress := Wrap64(base + imm)), 15, false) && t.mem == s.mem && !t.pageFault
  {
    hide EffectivePrivilege, ModeOf, KindOf, Wrap64, WalkFrom;
    TranslatedBelow(s.mem, Paged(sc, root), Wrap64(base + imm), true);
  }
}
