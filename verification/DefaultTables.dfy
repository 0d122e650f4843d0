/**
  The page tables the emulator builds before it starts a guest (RISCV_Emulator.cc), and the proof that
  they map every address to itself, also after any number of translations.
 */
module DefaultTables {
  import opened Words
  import opened FlatMemory
  import opened PagedMemory
  import opened PageTableEntry
  import opened PageWalk

  const LEVEL1_32 := 0xC000_0000
  const LEVEL0_32 := 0xC000_1000
  const LEVEL2_64 := 0xC000_0000
  const LEVEL1_64 := 0xC000_1000
  const LEVEL0_64 := 0xC000_5000

  /** Number k of the n-byte entries that start at `base`. */
  function Place(base: nat, n: nat, k: nat): nat { base + (if n == 4 then 4 * k else 8 * k) }

  function EntryOf(m: Mem, base: nat, n: nat, k: nat): nat { ReadN(m, Place(base, n, k), n) }

  /** Non-leaf entries that point to consecutive pages, and leaf entries that map consecutive pages. */
  function Pointer(firstPage: nat, k: nat): nat { (firstPage + k) * 1024 + 1 }

  function Identity(k: nat): nat { k * 1024 + 15 }

  ghost predicate PointersUpTo(m: Mem, base: nat, n: nat, firstPage: nat, count: nat)
  {
    forall k :: 0 <= k < count ==> EntryOf(m, base, n, k) == Pointer(firstPage, k)
  }

  ghost predicate IdentitiesUpTo(m: Mem, base: nat, n: nat, count: nat)
  {
    forall k :: 0 <= k < count ==> EntryOf(m, base, n, k) == Identity(k)
  }

  ghost predicate SameOutside(m: Mem, m': Mem, lo: nat, hi: nat)
  {
    forall x :: 0 <= x < SIZE && !(lo <= x < hi) ==> m[x] == m'[x]
  }

  ghost predicate Tables32(m: Mem)
  {
    && PointersUpTo(m, LEVEL1_32, 4, 0xC_0001, 1024)
    && IdentitiesUpTo(m, LEVEL0_32, 4, 0x10_0000)
  }

  ghost predicate Tables64(m: Mem)
  {
    && PointersUpTo(m, LEVEL2_64, 8, 0xC_0001, 4)
    && (forall k :: 4 <= k < 512 ==> EntryOf(m, LEVEL2_64, 8, k) == 1)
    && PointersUpTo(m, LEVEL1_64, 8, 0xC_0005, 2048)
    && IdentitiesUpTo(m, LEVEL0_64, 8, 0x10_0000)
  }

  // ----- building the tables -----

  lemma EntryWrite(m: Mem, base: nat, n: nat, i: nat, v: nat)
    requires n in {4, 8} && Place(base, n, i) + n <= SIZE && v < TWO32
    ensures EntryOf(WriteN(m, Place(base, n, i), v, n), base, n, i) == v
    ensures forall x :: 0 <= x < SIZE && !(Place(base, n, i) <= x < Place(base, n, i) + n) ==> WriteN(m, Place(base, n, i), v, n)[x] == m[x]
  {
    hide ReadN, WriteN;
    ReadOwnWrite(m, Place(base, n, i), v, n);
    PowValues();
    forall x | 0 <= x < SIZE && !(Place(base, n, i) <= x < Place(base, n, i) + n) ensures WriteN(m, Place(base, n, i), v, n)[x] == m[x] {
      WriteAt(m, Place(base, n, i), v, n, x);
    }
  }

  /** An entry is unchanged when memory is unchanged outside a range it does not meet. */
  lemma EntryKept(m: Mem, m': Mem, lo: nat, hi: nat, base: nat, n: nat, k: nat)
    requires SameOutside(m, m', lo, hi) && n in {4, 8} && Place(base, n, k) + n <= SIZE
    requires Place(base, n, k) + n <= lo || hi <= Place(base, n, k)
    ensures EntryOf(m', base, n, k) == EntryOf(m, base, n, k)
  {
    var a := Place(base, n, k);
    forall j | 0 <= j < n ensures ByteAt(m', a, j) == ByteAt(m, a, j) {
      assert (a + j) % SIZE == a + j;
    }
    ReadCongruent(m', m, a, a, n);
  }

  lemma PointersKept(m: Mem, m': Mem, lo: nat, hi: nat, base: nat, n: nat, firstPage: nat, count: nat)
    requires SameOutside(m, m', lo, hi) && PointersUpTo(m, base, n, firstPage, count) && n in {4, 8}
    requires Place(base, n, count) <= SIZE && (Place(base, n, count) <= lo || hi <= base)
    ensures PointersUpTo(m', base, n, firstPage, count)
  {
    forall k | 0 <= k < count ensures EntryOf(m', base, n, k) == Pointer(firstPage, k) {
      EntryKept(m, m', lo, hi, base, n, k);
    }
  }

  lemma PointersExtended(m: Mem, base: nat, n: nat, firstPage: nat, i: nat, v: nat)
    requires n in {4, 8} && Place(base, n, i) + n <= SIZE && v == Pointer(firstPage, i) < TWO32
    requires PointersUpTo(m, base, n, firstPage, i)
    ensures PointersUpTo(WriteN(m, Place(base, n, i), v, n), base, n, firstPage, i + 1)
    ensures SameOutside(m, WriteN(m, Place(base, n, i), v, n), Place(base, n, i), Place(base, n, i) + n)
  {
    var a := Place(base, n, i);
    EntryWrite(m, base, n, i, v);
    PointersKept(m, WriteN(m, a, v, n), a, a + n, base, n, firstPage, i);
  }

  lemma IdentitiesExtended(m: Mem, base: nat, n: nat, i: nat, v: nat)
    requires n in {4, 8} && Place(base, n, i) + n <= SIZE && v == Identity(i) < TWO32
    requires IdentitiesUpTo(m, base, n, i)
    ensures IdentitiesUpTo(WriteN(m, Place(base, n, i), v, n), base, n, i + 1)
    ensures SameOutside(m, WriteN(m, Place(base, n, i), v, n), Place(base, n, i), Place(base, n, i) + n)
  {
    var a := Place(base, n, i);
    EntryWrite(m, base, n, i, v);
    forall k | 0 <= k < i ensures EntryOf(WriteN(m, a, v, n), base, n, k) == Identity(k) {
      EntryKept(m, WriteN(m, a, v, n), a, a + n, base, n, k);
    }
  }

  lemma SameOutsideTransitive(m: Mem, m': Mem, m'': Mem, lo: nat, hi: nat, a: nat, b: nat)
    requires SameOutside(m, m', lo, hi) && SameOutside(m', m'', a, b) && lo <= a && b <= hi
    ensures SameOutside(m, m'', lo, hi)
  {}

  /** The first loop of SetDefaultMmuTable32. */
  method FillPointers32(memory: MemoryWrapper, pte: Pte32)
    requires memory.Valid() && pte.value % 1024 == 1
    modifies memory`contents, memory.mapping, memory.present, pte
    ensures memory.Valid() && pte.value % 1024 == 1
    ensures PointersUpTo(memory.contents, LEVEL1_32, 4, 0xC_0001, 1024)
    ensures SameOutside(old(memory.contents), memory.contents, LEVEL1_32, LEVEL0_32)
  {
    hide PointersUpTo, IdentitiesUpTo, SameOutside, Represents, WellShaped, ReadN, WriteN, SetBit;
    ghost var m0 := memory.contents;
    assert PointersUpTo(m0, LEVEL1_32, 4, 0xC_0001, 0) && SameOutside(m0, m0, LEVEL1_32, LEVEL0_32) by { Start(m0); }
    var i := 0;
    while i < 1024
      invariant 0 <= i <= 1024 && memory.Valid() && pte.value % 1024 == 1
      invariant PointersUpTo(memory.contents, LEVEL1_32, 4, 0xC_0001, i)
      invariant SameOutside(m0, memory.contents, LEVEL1_32, LEVEL0_32)
    {
      pte.SetPpn((LEVEL0_32 + i * 1024 * 4) / 0x1000);
      PointersExtended(memory.contents, LEVEL1_32, 4, 0xC_0001, i, pte.value);
      ghost var m := memory.contents;
      memory.Write32(LEVEL1_32 + i * 4, pte.value);
      SameOutsideTransitive(m0, m, memory.contents, LEVEL1_32, LEVEL0_32, LEVEL1_32 + 4 * i, LEVEL1_32 + 4 * i + 4);
      i := i + 1;
    }
  }

  /** The nested loops of SetDefaultMmuTable32. */
  method FillIdentities32(memory: MemoryWrapper, pte: Pte32)
    requires memory.Valid() && pte.value % 1024 == 15
    modifies memory`contents, memory.mapping, memory.present, pte
    ensures memory.Valid() && IdentitiesUpTo(memory.contents, LEVEL0_32, 4, 1024 * 1024)
    ensures SameOutside(old(memory.contents), memory.contents, LEVEL0_32, LEVEL0_32 + 0x40_0000)
  {
    hide PointersUpTo, IdentitiesUpTo, SameOutside, Represents, WellShaped, ReadN, WriteN, SetBit;
    ghost var m1 := memory.contents;
    assert IdentitiesUpTo(m1, LEVEL0_32, 4, 0) && SameOutside(m1, m1, LEVEL0_32, LEVEL0_32 + 0x40_0000) by { Start(m1); }
    var j := 0;
    while j < 1024
      invariant 0 <= j <= 1024 && memory.Valid() && pte.value % 1024 == 15
      invariant IdentitiesUpTo(memory.contents, LEVEL0_32, 4, j * 1024)
      invariant SameOutside(m1, memory.contents, LEVEL0_32, LEVEL0_32 + 0x40_0000)
    {
      FillRow32(memory, pte, j, m1);
      j := j + 1;
    }
  }

  /** The inner loop: one level-0 table. */
  method FillRow32(memory: MemoryWrapper, pte: Pte32, j: nat, ghost m1: Mem)
    requires memory.Valid() && pte.value % 1024 == 15 && j < 1024
    requires IdentitiesUpTo(memory.contents, LEVEL0_32, 4, j * 1024) && SameOutside(m1, memory.contents, LEVEL0_32, LEVEL0_32 + 0x40_0000)
    modifies memory`contents, memory.mapping, memory.present, pte
    ensures memory.Valid() && pte.value % 1024 == 15
    ensures IdentitiesUpTo(memory.contents, LEVEL0_32, 4, j * 1024 + 1024) && SameOutside(m1, memory.contents, LEVEL0_32, LEVEL0_32 + 0x40_0000)
  {
    hide PointersUpTo, IdentitiesUpTo, SameOutside, Represents, WellShaped, ReadN, WriteN, SetBit, Place, Identity;
    var i := 0;
    while i < 1024
      invariant 0 <= i <= 1024 && memory.Valid() && pte.value % 1024 == 15
      invariant IdentitiesUpTo(memory.contents, LEVEL0_32, 4, j * 1024 + i)
      invariant SameOutside(m1, memory.contents, LEVEL0_32, LEVEL0_32 + 0x40_0000)
    {
      var ppn := j * 1024 + i;
      EntryPlace32(ppn, pte.value);
      pte.SetPpn(ppn);
      IdentitiesExtended(memory.contents, LEVEL0_32, 4, ppn, pte.value);
      ghost var m := memory.contents;
      memory.Write32(LEVEL0_32 + ppn * 4, pte.value);
      SameOutsideTransitive(m1, m, memory.contents, LEVEL0_32, LEVEL0_32 + 0x40_0000, LEVEL0_32 + 4 * ppn, LEVEL0_32 + 4 * ppn + 4);
      i := i + 1;
    }
  }

  lemma EntryPlace32(ppn: nat, value: nat)
    requires ppn < 0x10_0000 && value % 1024 == 15
    ensures Identity(ppn) < TWO32 && Identity(ppn) == ppn * 1024 + value % 1024 && Identity(ppn) % 1024 == 15
    ensures Place(LEVEL0_32, 4, ppn) == LEVEL0_32 + 4 * ppn && LEVEL0_32 + 4 * ppn + 4 <= SIZE
  {
    ModUnique(Identity(ppn), 1024, ppn, 15);
  }

  method SetDefaultMmuTable32(memory: MemoryWrapper)
    requires memory.Valid()
    modifies memory`contents, memory.mapping, memory.present
    ensures memory.Valid() && Tables32(memory.contents)
    ensures SameOutside(old(memory.contents), memory.contents, LEVEL1_32, LEVEL0_32 + 0x40_0000)
  {
    hide PointersUpTo, IdentitiesUpTo, SameOutside, Represents, WellShaped, ReadN, WriteN, SetBit;
    ValidBit(0);
    ghost var m0 := memory.contents;
    var pte := new Pte32(0);
    pte.SetV(true);
    FillPointers32(memory, pte);
    LeafBits(pte.value);
    SetLeaf(pte);
    ghost var m1 := memory.contents;
    FillIdentities32(memory, pte);
    PointersKept(m1, memory.contents, LEVEL0_32, LEVEL0_32 + 0x40_0000, LEVEL1_32, 4, 0xC_0001, 1024);
    SameOutsideWider(m0, m1, memory.contents, LEVEL1_32, LEVEL0_32, LEVEL0_32 + 0x40_0000);
  }

  /** A pointer entry becomes a leaf. */
  method SetLeaf(pte: Pte32)
    requires pte.value % 1024 == 1
    modifies pte
    ensures pte.value % 1024 == 15
  {
    hide SetBit;
    LeafBits(pte.value);
    ModUnique(pte.value + 14, 1024, pte.value / 1024, 15);
    pte.SetX(true);
    pte.SetW(true);
    pte.SetR(true);
  }

  lemma Start(m: Mem)
    ensures forall base, n, p: nat :: PointersUpTo(m, base, n, p, 0)
    ensures forall base, n: nat :: IdentitiesUpTo(m, base, n, 0)
    ensures forall lo, hi :: SameOutside(m, m, lo, hi)
  {}

  lemma SameOutsideWider(m: Mem, m': Mem, m'': Mem, lo: nat, mid: nat, hi: nat)
    requires lo <= mid <= hi && SameOutside(m, m', lo, mid) && SameOutside(m', m'', mid, hi)
    ensures SameOutside(m, m'', lo, hi)
  {}

  method SetDefaultMmuTable64(memory: MemoryWrapper)
    requires memory.Valid()
    modifies memory`contents, memory.mapping, memory.present
    ensures memory.Valid() && Tables64(memory.contents)
    ensures SameOutside(old(memory.contents), memory.contents, LEVEL2_64, LEVEL0_64 + 0x80_0000)
  {
    hide PointersUpTo, IdentitiesUpTo, SameOutside, Represents, WellShaped, ReadN, WriteN, SetBit, RootUpTo;
    ghost var m0 := memory.contents;
    var pte := new Pte32(0);
    FillRoot(memory, pte);
    ValidBit(pte.value);
    pte.SetV(true);
    ghost var m1 := memory.contents;
    BuildLevel1(memory, pte);
    SetLeaf(pte);
    ghost var m2 := memory.contents;
    BuildLevel0(memory, pte);
    RootKept(m1, m2, LEVEL1_64, LEVEL0_64);
    RootKept(m2, memory.contents, LEVEL0_64, LEVEL0_64 + 0x80_0000);
    RootTables(memory.contents);
    PointersKept(m2, memory.contents, LEVEL0_64, LEVEL0_64 + 0x80_0000, LEVEL1_64, 8, 0xC_0005, 2048);
    SameOutsideWider(m0, m1, m2, LEVEL2_64, LEVEL1_64, LEVEL0_64);
    SameOutsideWider(m0, m2, memory.contents, LEVEL2_64, LEVEL0_64, LEVEL0_64 + 0x80_0000);
  }

  /** The first loop of SetDefaultMmuTable64: the entries from 4 on keep V but point to no table. */
  method FillRoot(memory: MemoryWrapper, pte: Pte32)
    requires memory.Valid() && pte.value == 0
    modifies memory`contents, memory.mapping, memory.present, pte
    ensures memory.Valid() && pte.value % 1024 == 1 && RootUpTo(memory.contents, 512)
    ensures SameOutside(old(memory.contents), memory.contents, LEVEL2_64, LEVEL1_64)
  {
    hide SameOutside, Represents, WellShaped, ReadN, WriteN, SetBit, RootUpTo;
    ghost var m0 := memory.contents;
    assert RootUpTo(m0, 0) && SameOutside(m0, m0, LEVEL2_64, LEVEL1_64) by { Start(m0); StartRoot(m0); }
    var i := 0;
    while i < 512
      invariant 0 <= i <= 512 && memory.Valid()
      invariant pte.value % 1024 == if i == 0 then 0 else 1
      invariant RootUpTo(memory.contents, i)
      invariant SameOutside(m0, memory.contents, LEVEL2_64, LEVEL1_64)
    {
      SetRootEntry(pte, i);
      RootExtended(memory.contents, i, pte.value);
      ghost var m := memory.contents;
      memory.Write64(LEVEL2_64 + i * 8, pte.value);
      SameOutsideTransitive(m0, m, memory.contents, LEVEL2_64, LEVEL1_64, LEVEL2_64 + 8 * i, LEVEL2_64 + 8 * i + 8);
      i := i + 1;
    }
  }

  method SetRootEntry(pte: Pte32, i: nat)
    requires i < 512 && pte.value % 1024 == if i == 0 then 0 else 1
    modifies pte
    ensures pte.value == RootEntry(i) && pte.value % 1024 == 1
  {
    hide SetBit;
    if i < 4 {
      ValidBit(pte.value);
      pte.SetV(true);
      RootPage(i);
      pte.SetPpn((LEVEL1_64 + i * 512 * 8) / 0x1000);
    } else {
      pte.SetPpn(0);
    }
    ModUnique(pte.value, 1024, if i < 4 then 0xC_0001 + i else 0, 1);
  }

  lemma RootPage(i: nat)
    ensures (LEVEL1_64 + i * 512 * 8) / 0x1000 == 0xC_0001 + i
  {
    ModUnique(LEVEL1_64 + i * 512 * 8, 0x1000, 0xC_0001 + i, 0);
  }

  /** The second group of loops of SetDefaultMmuTable64. */
  method BuildLevel1(memory: MemoryWrapper, pte: Pte32)
    requires memory.Valid() && pte.value % 1024 == 1
    modifies memory`contents, memory.mapping, memory.present, pte
    ensures memory.Valid() && pte.value % 1024 == 1
    ensures PointersUpTo(memory.contents, LEVEL1_64, 8, 0xC_0005, 2048)
    ensures SameOutside(old(memory.contents), memory.contents, LEVEL1_64, LEVEL0_64)
  {
    hide PointersUpTo, SameOutside, Represents, WellShaped, ReadN, WriteN;
    ghost var m0 := memory.contents;
    assert PointersUpTo(m0, LEVEL1_64, 8, 0xC_0005, 0) && SameOutside(m0, m0, LEVEL1_64, LEVEL0_64) by { Start(m0); }
    var j := 0;
    while j < 4
      invariant 0 <= j <= 4 && memory.Valid() && pte.value % 1024 == 1
      invariant PointersUpTo(memory.contents, LEVEL1_64, 8, 0xC_0005, j * 512)
      invariant SameOutside(m0, memory.contents, LEVEL1_64, LEVEL0_64)
    {
      var i := 0;
      while i < 512
        invariant 0 <= i <= 512 && memory.Valid() && pte.value % 1024 == 1
        invariant PointersUpTo(memory.contents, LEVEL1_64, 8, 0xC_0005, j * 512 + i)
        invariant SameOutside(m0, memory.contents, LEVEL1_64, LEVEL0_64)
      {
        var address := LEVEL1_64 + j * 512 * 8 + i * 8;
        pte.SetPpn((LEVEL0_64 + j * 512 * 512 * 8 + i * 512 * 8) / 0x1000);
        PointersExtended(memory.contents, LEVEL1_64, 8, 0xC_0005, j * 512 + i, pte.value);
        ghost var m := memory.contents;
        memory.Write64(address, pte.value);
        SameOutsideTransitive(m0, m, memory.contents, LEVEL1_64, LEVEL0_64, address, address + 8);
        i := i + 1;
      }
      j := j + 1;
    }
  }

  /** The third group of loops of SetDefaultMmuTable64. */
  method BuildLevel0(memory: MemoryWrapper, pte: Pte32)
    requires memory.Valid() && pte.value % 1024 == 15
    modifies memory`contents, memory.mapping, memory.present, pte
    ensures memory.Valid() && IdentitiesUpTo(memory.contents, LEVEL0_64, 8, 0x10_0000)
    ensures SameOutside(old(memory.contents), memory.contents, LEVEL0_64, LEVEL0_64 + 0x80_0000)
  {
    hide IdentitiesUpTo, SameOutside, Represents, WellShaped, ReadN, WriteN;
    ghost var m0 := memory.contents;
    assert IdentitiesUpTo(m0, LEVEL0_64, 8, 0) && SameOutside(m0, m0, LEVEL0_64, LEVEL0_64 + 0x80_0000) by { Start(m0); }
    var k := 0;
    while k < 4
      invariant 0 <= k <= 4 && memory.Valid() && pte.value % 1024 == 15
      invariant IdentitiesUpTo(memory.contents, LEVEL0_64, 8, k * 512 * 512)
      invariant SameOutside(m0, memory.contents, LEVEL0_64, LEVEL0_64 + 0x80_0000)
    {
      var j := 0;
      while j < 512
        invariant 0 <= j <= 512 && memory.Valid() && pte.value % 1024 == 15
        invariant IdentitiesUpTo(memory.contents, LEVEL0_64, 8, k * 512 * 512 + j * 512)
        invariant SameOutside(m0, memory.contents, LEVEL0_64, LEVEL0_64 + 0x80_0000)
      {
        var i := 0;
        while i < 512
          invariant 0 <= i <= 512 && memory.Valid() && pte.value % 1024 == 15
          invariant IdentitiesUpTo(memory.contents, LEVEL0_64, 8, k * 512 * 512 + j * 512 + i)
          invariant SameOutside(m0, memory.contents, LEVEL0_64, LEVEL0_64 + 0x80_0000)
        {
          var ppn := k * 512 * 512 + j * 512 + i;
          pte.SetPpn(ppn);
          IdentitiesExtended(memory.contents, LEVEL0_64, 8, ppn, pte.value);
          ghost var m := memory.contents;
          memory.Write64(LEVEL0_64 + ppn * 8, pte.value);
          SameOutsideTransitive(m0, m, memory.contents, LEVEL0_64, LEVEL0_64 + 0x80_0000,
                                LEVEL0_64 + 8 * ppn, LEVEL0_64 + 8 * ppn + 8);
          i := i + 1;
        }
        j := j + 1;
      }
      k := k + 1;
    }
  }

  function RootEntry(k: nat): nat { if k < 4 then Pointer(0xC_0001, k) else 1 }

  ghost predicate RootUpTo(m: Mem, count: nat)
  {
    forall k :: 0 <= k < count ==> EntryOf(m, LEVEL2_64, 8, k) == RootEntry(k)
  }

  lemma StartRoot(m: Mem)
    ensures RootUpTo(m, 0)
  {}

  lemma RootKept(m: Mem, m': Mem, lo: nat, hi: nat)
    requires SameOutside(m, m', lo, hi) && RootUpTo(m, 512) && LEVEL1_64 <= lo
    ensures RootUpTo(m', 512)
  {
    forall k | 0 <= k < 512 ensures EntryOf(m', LEVEL2_64, 8, k) == RootEntry(k) {
      EntryKept(m, m', lo, hi, LEVEL2_64, 8, k);
    }
  }

  lemma RootTables(m: Mem)
    requires RootUpTo(m, 512)
    ensures PointersUpTo(m, LEVEL2_64, 8, 0xC_0001, 4)
    ensures forall k :: 4 <= k < 512 ==> EntryOf(m, LEVEL2_64, 8, k) == 1
  {}

  lemma RootExtended(m: Mem, i: nat, v: nat)
    requires i < 512 && v == RootEntry(i) && RootUpTo(m, i)
    ensures RootUpTo(WriteN(m, LEVEL2_64 + 8 * i, v, 8), i + 1)
    ensures SameOutside(m, WriteN(m, LEVEL2_64 + 8 * i, v, 8), LEVEL2_64 + 8 * i, LEVEL2_64 + 8 * i + 8)
  {
    hide ReadN, WriteN;
    var a := LEVEL2_64 + 8 * i;
    EntryWrite(m, LEVEL2_64, 8, i, v);
    forall k | 0 <= k < i ensures EntryOf(WriteN(m, a, v, 8), LEVEL2_64, 8, k) == RootEntry(k) {
      EntryKept(m, WriteN(m, a, v, 8), a, a + 8, LEVEL2_64, 8, k);
    }
  }

  // ----- reading the tables -----

  lemma PointerFields(page: nat)
    requires page < 0x10_0000
    ensures var e := page * 1024 + 1; Valid(e) && !Leaf(e) && Ppn22(e) == page && Ppn44(e) == page
  {
    var e := page * 1024 + 1;
    ModUnique(e, 64, 16 * page, 1);
    ModUnique(e, 1024, page, 1);
    LowFields(e);
  }

  lemma IdentityFields(page: nat)
    requires page < 0x10_0000
    ensures var e := page * 1024 + 15; Valid(e) && Leaf(e) && Ppn22(e) == page && Ppn44(e) == page
  {
    var e := page * 1024 + 15;
    ModUnique(e, 64, 16 * page, 15);
    ModUnique(e, 1024, page, 15);
    LowFields(e);
  }

  /** The frame number of an address and the table indices it consists of. */
  function Frame(va: nat): nat { va / 0x1000 % 0x10_0000 }

  lemma VaParts32(va: u64)
    ensures Vpn(Sv32, va, 1) < 1024 && Vpn(Sv32, va, 0) < 1024
    ensures Frame(va) == 1024 * Vpn(Sv32, va, 1) + Vpn(Sv32, va, 0)
  {
    assert va / 0x40_0000 == va / 0x1000 / 1024;
  }

  lemma VaParts64(va: u64)
    ensures Vpn(Sv39, va, 2) < 512 && Vpn(Sv39, va, 1) < 512 && Vpn(Sv39, va, 0) < 512
    ensures Vpn(Sv39, va, 2) < 4 <==> va % 0x80_0000_0000 < TWO32
    ensures Vpn(Sv39, va, 2) < 4 ==>
      Frame(va) == 512 * (512 * Vpn(Sv39, va, 2) + Vpn(Sv39, va, 1)) + Vpn(Sv39, va, 0)
  {
    var f := va / 0x1000;
    assert va / 0x20_0000 == f / 512 && va / 0x4000_0000 == f / 512 / 512;
    FrameParts(f);
    TopIndex(va);
  }

  lemma FrameParts(f: nat)
    ensures (f / 512 / 512) % 512 < 4 ==> f % 0x10_0000 == 512 * (512 * ((f / 512 / 512) % 512) + (f / 512) % 512) + f % 512
  {
    var g := f / 512;
    var h := g / 512;
    assert f == 512 * g + f % 512 && g == 512 * h + g % 512 && h == 512 * (h / 512) + h % 512;
    if h % 512 < 4 {
      ModUnique(f, 0x10_0000, 128 * (h / 512), 512 * (512 * (h % 512) + g % 512) + f % 512);
    }
  }

  lemma TopIndex(va: nat)
    ensures (va / 0x4000_0000) % 0x200 < 4 <==> va % 0x80_0000_0000 < TWO32
  {
    var h := va / 0x4000_0000;
    assert va == 0x80_0000_0000 * (h / 0x200) + (0x4000_0000 * (h % 0x200) + va % 0x4000_0000);
  }

  lemma LeafBits(v: nat)
    requires v % 1024 == 1
    ensures SetBit(SetBit(SetBit(v, true, 8), true, 4), true, 2) == v + 14
  {
    var q := v / 1024;
    ModUnique(v, 8, 128 * q, 1);
    ModUnique(128 * q, 2, 64 * q, 0);
    ModUnique(v + 8, 4, 256 * q + 2, 1);
    ModUnique(256 * q + 2, 2, 128 * q + 1, 0);
    ModUnique(v + 12, 2, 512 * q + 6, 1);
    ModUnique(512 * q + 6, 2, 256 * q + 3, 0);
  }

  lemma ValidBit(v: nat)
    requires v % 1024 in {0, 1}
    ensures SetBit(v, true, 1) % 1024 == 1
  {
    var q, r := v / 1024, v % 1024;
    ModUnique(v, 2, 512 * q, r);
    ModUnique(1024 * q + 1, 1024, q, 1);
  }

  lemma Walk32(m: Mem, va: u64)
    requires Tables32(m)
    ensures WalkFrom(Sv32, m, 0xC_0000, va, 1) == Found(LEVEL0_32 + 4 * Frame(va), Identity(Frame(va)), 0)
  {
    hide Vpn, Frame, Valid, Leaf, Ppn22, ReadN;
    var i, n := Vpn(Sv32, va, 1), Frame(va);
    VaParts32(va);
    assert EntryOf(m, LEVEL1_32, 4, i) == Pointer(0xC_0001, i);
    assert EntryOf(m, LEVEL0_32, 4, n) == Identity(n);
    PointerFields(0xC_0001 + i);
    IdentityFields(n);
    assert EntryAddress(Sv32, 0xC_0000, va, 1) == Place(LEVEL1_32, 4, i);
    assert EntryAddress(Sv32, 0xC_0001 + i, va, 0) == Place(LEVEL0_32, 4, n);
    assert WalkFrom(Sv32, m, 0xC_0001 + i, va, 0) == Found(LEVEL0_32 + 4 * n, Identity(n), 0);
  }

  lemma Walk64(m: Mem, va: u64)
    requires Tables64(m) && va % 0x80_0000_0000 < TWO32
    ensures WalkFrom(Sv39, m, 0xC_0000, va, 2) == Found(LEVEL0_64 + 8 * Frame(va), Identity(Frame(va)), 0)
  {
    hide Vpn, Frame, Valid, Leaf, Ppn44, ReadN;
    var h, i, n := Vpn(Sv39, va, 2), Vpn(Sv39, va, 1), Frame(va);
    VaParts64(va);
    assert EntryOf(m, LEVEL2_64, 8, h) == Pointer(0xC_0001, h);
    assert EntryOf(m, LEVEL1_64, 8, 512 * h + i) == Pointer(0xC_0005, 512 * h + i);
    assert EntryOf(m, LEVEL0_64, 8, n) == Identity(n);
    PointerFields(0xC_0001 + h);
    PointerFields(0xC_0005 + 512 * h + i);
    IdentityFields(n);
    assert EntryAddress(Sv39, 0xC_0000, va, 2) == Place(LEVEL2_64, 8, h);
    assert EntryAddress(Sv39, 0xC_0001 + h, va, 1) == Place(LEVEL1_64, 8, 512 * h + i);
    assert EntryAddress(Sv39, 0xC_0005 + 512 * h + i, va, 0) == Place(LEVEL0_64, 8, n);
    assert WalkFrom(Sv39, m, 0xC_0005 + 512 * h + i, va, 0) == Found(LEVEL0_64 + 8 * n, Identity(n), 0);
    assert WalkFrom(Sv39, m, 0xC_0001 + h, va, 1) == Found(LEVEL0_64 + 8 * n, Identity(n), 0);
  }

  lemma EntryInside(x: nat, base: nat, n: nat, k: nat)
    requires n in {4, 8} && x < SIZE && Place(base, n, k) + n <= SIZE && Off(x, Place(base, n, k)) < n
    ensures Place(base, n, k) <= x < Place(base, n, k) + n
  {}

  /** The walks for identity-mapped addresses read nothing but the tables. */
  lemma UsesTables32(m: Mem, va: u64, x: nat)
    requires Tables32(m) && x < SIZE && Uses(Sv32, m, 0xC_0000, va, 1, x)
    ensures LEVEL1_32 <= x < LEVEL0_32 + 0x40_0000
  {
    hide Vpn, Frame, Valid, Leaf, Ppn22, ReadN, Off;
    var i, n := Vpn(Sv32, va, 1), Frame(va);
    VaParts32(va);
    assert EntryOf(m, LEVEL1_32, 4, i) == Pointer(0xC_0001, i);
    PointerFields(0xC_0001 + i);
    assert EntryAddress(Sv32, 0xC_0000, va, 1) == Place(LEVEL1_32, 4, i);
    assert EntryAddress(Sv32, 0xC_0001 + i, va, 0) == Place(LEVEL0_32, 4, n);
    if Off(x, Place(LEVEL1_32, 4, i)) < 4 {
      EntryInside(x, LEVEL1_32, 4, i);
    } else {
      assert Uses(Sv32, m, 0xC_0001 + i, va, 0, x);
      EntryInside(x, LEVEL0_32, 4, n);
    }
  }

  lemma UsesTables64(m: Mem, va: u64, x: nat)
    requires Tables64(m) && va % 0x80_0000_0000 < TWO32 && x < SIZE && Uses(Sv39, m, 0xC_0000, va, 2, x)
    ensures LEVEL2_64 <= x < LEVEL0_64 + 0x80_0000
  {
    hide Vpn, Frame, Valid, Leaf, Ppn44, ReadN, Off;
    var h, i, n := Vpn(Sv39, va, 2), Vpn(Sv39, va, 1), Frame(va);
    VaParts64(va);
    assert EntryOf(m, LEVEL2_64, 8, h) == Pointer(0xC_0001, h);
    assert EntryOf(m, LEVEL1_64, 8, 512 * h + i) == Pointer(0xC_0005, 512 * h + i);
    PointerFields(0xC_0001 + h);
    PointerFields(0xC_0005 + 512 * h + i);
    assert EntryAddress(Sv39, 0xC_0000, va, 2) == Place(LEVEL2_64, 8, h);
    assert EntryAddress(Sv39, 0xC_0001 + h, va, 1) == Place(LEVEL1_64, 8, 512 * h + i);
    assert EntryAddress(Sv39, 0xC_0005 + 512 * h + i, va, 0) == Place(LEVEL0_64, 8, n);
    if Off(x, Place(LEVEL2_64, 8, h)) < 8 {
      EntryInside(x, LEVEL2_64, 8, h);
    } else if Off(x, Place(LEVEL1_64, 8, 512 * h + i)) < 8 {
      EntryInside(x, LEVEL1_64, 8, 512 * h + i);
    } else {
      assert Uses(Sv39, m, 0xC_0001 + h, va, 1, x);
      assert Uses(Sv39, m, 0xC_0005 + 512 * h + i, va, 0, x);
      EntryInside(x, LEVEL0_64, 8, n);
    }
  }

  /** Entries 4 to 511 of the Sv39 root stay valid: beyond 4 GiB the walk goes on in page 0. */
  lemma BeyondFourGigabytes(m: Mem, va: u64)
    requires Tables64(m) && va % 0x80_0000_0000 >= TWO32
    ensures WalkFrom(Sv39, m, 0xC_0000, va, 2) == WalkFrom(Sv39, m, 0, va, 1)
  {
    hide Vpn, Valid, Leaf, Ppn44, ReadN;
    var h := Vpn(Sv39, va, 2);
    VaParts64(va);
    assert EntryOf(m, LEVEL2_64, 8, h) == 1;
    PointerFields(0);
    assert EntryAddress(Sv39, 0xC_0000, va, 2) == Place(LEVEL2_64, 8, h);
  }

  /** There an address translates exactly when page 0, taken for a level-1 table, leads somewhere. */
  lemma BeyondExactly(m: Mem, va: u64, write: bool)
    requires Tables64(m) && va % 0x80_0000_0000 >= TWO32
    ensures TranslateBy(Sv39, m, 0xC_0000, va, write).fault <==> WalkFrom(Sv39, m, 0, va, 1).Fault?
  {
    hide WalkFrom, WithAccess, WriteN, Tables64, PhysicalAddress;
    BeyondFourGigabytes(m, va);
  }

  ghost predicate PageZeroClear(m: Mem) { forall x :: 0 <= x < PAGE_SIZE ==> m[x] == 0 }

  /** While page 0 is clear every such address faults. */
  lemma BeyondFaults(m: Mem, va: u64, write: bool)
    requires Tables64(m) && va % 0x80_0000_0000 >= TWO32 && PageZeroClear(m)
    ensures TranslateBy(Sv39, m, 0xC_0000, va, write).fault
  {
    hide TranslateBy, Tables64, ReadN, Vpn;
    BeyondExactly(m, va, write);
    var a := EntryAddress(Sv39, 0, va, 1);
    assert Vpn(Sv39, va, 1) < 0x200 by { VpnBelow(va); }
    EightZeros(m, a);
    NotValid();
  }

  lemma VpnBelow(va: nat)
    ensures Vpn(Sv39, va, 1) < 0x200
  {}

  lemma NotValid()
    ensures !Valid(0)
  {}

  lemma EightZeros(m: Mem, a: nat)
    requires PageZeroClear(m) && a + 8 <= PAGE_SIZE
    ensures ReadN(m, a, 8) == 0
  {
    forall k | 0 <= k < 8 ensures ByteAt(m, a, k) == ByteOf(0, k) { ZeroBytes(k); }
    ValueFromBytes(0, m, a, 8);
  }

  // ----- a memory with the tables in it -----

  /** The entry at number `k` from the root on, all three levels being one after the other. */
  function EntryValue(k: nat): nat
  {
    if k < 512 then RootEntry(k) else if k < 512 + 2048 then Pointer(0xC_0005, k - 512) else Identity(k - 512 - 2048)
  }

  function SampleByte(x: nat): byte
  {
    if LEVEL2_64 <= x < LEVEL0_64 + 0x80_0000 then ByteOf(EntryValue((x - LEVEL2_64) / 8), (x - LEVEL2_64) % 8) else 0
  }

  ghost function Sample(): Mem { seq(SIZE, x requires 0 <= x < SIZE => SampleByte(x)) }

  lemma SampleEntry(k: nat)
    requires k < 512 + 2048 + 0x10_0000
    ensures EntryOf(Sample(), LEVEL2_64, 8, k) == EntryValue(k)
  {
    hide ByteOf, ReadN, EntryValue;
    var a := Place(LEVEL2_64, 8, k);
    forall j | 0 <= j < 8 ensures ByteAt(Sample(), a, j) == ByteOf(EntryValue(k), j) {
      ModUnique(8 * k + j, 8, k, j);
      assert (a + j) % SIZE == a + j;
    }
    ValueFromBytes(EntryValue(k), Sample(), a, 8);
    EntryFits(k);
    PowValues();
  }

  lemma EntryFits(k: nat)
    requires k < 512 + 2048 + 0x10_0000
    ensures EntryValue(k) < TWO64
  {}

  /** The default tables and a clear page 0: beyond 4 GiB nothing is mapped. */
  lemma SampleHasTables()
    ensures Tables64(Sample()) && PageZeroClear(Sample())
  {
    hide EntryOf, SampleByte;
    var m := Sample();
    hide Sample;
    forall k | 0 <= k < 512 ensures EntryOf(m, LEVEL2_64, 8, k) == RootEntry(k) { SampleEntry(k); }
    forall k | 0 <= k < 2048 ensures EntryOf(m, LEVEL1_64, 8, k) == Pointer(0xC_0005, k) {
      SampleEntry(512 + k);
      SamePlace(m, LEVEL1_64, 512, k);
    }
    forall k | 0 <= k < 0x10_0000 ensures EntryOf(m, LEVEL0_64, 8, k) == Identity(k) {
      SampleEntry(512 + 2048 + k);
      SamePlace(m, LEVEL0_64, 512 + 2048, k);
    }
    SamplePageZero();
  }

  lemma SamePlace(m: Mem, base: nat, first: nat, k: nat)
    requires base == LEVEL2_64 + 8 * first
    ensures EntryOf(m, base, 8, k) == EntryOf(m, LEVEL2_64, 8, first + k)
  {
    assert Place(base, 8, k) == Place(LEVEL2_64, 8, first + k);
  }

  lemma SamplePageZero()
    ensures PageZeroClear(Sample())
  {}

  // ----- the identity, at once and after any run -----

  const SATP32: u64 := 0xC_0000 + 0x8000_0000
  const SATP64: u64 := 0xC_0000 + 0x8000_0000_0000_0000

  lemma SatpSelects(priv: Privilege)
    requires priv != Machine
    ensures ModeOf(1, priv, SATP32) == Paged(Sv32, 0xC_0000)
    ensures ModeOf(2, priv, SATP64) == Paged(Sv39, 0xC_0000)
  {}

  /** Sv32: every address goes to itself modulo 2^32, whatever was translated before. */
  lemma Identity32(m: Mem, rs: seq<Request>, va: u64, write: bool)
    requires Tables32(m)
    ensures var t := TranslateBy(Sv32, AfterRequests(Sv32, m, rs), 0xC_0000, va, write);
      !t.fault && t.pa == va % TWO32
  {
    hide WalkFrom, Ppn22, WithAccess, WriteN, Tables32, PhysicalAddress, Frame, AfterRequests, Identity;
    Walk32(m, va);
    IdentityAddress(va);
    WriteBackInvisible(Sv32, m, rs, Request(0xC_0000, va, write));
  }

  lemma IdentityAddress(va: u64)
    ensures PhysicalAddress(Sv32, Identity(Frame(va)), 0, va) == va % TWO32
    ensures PhysicalAddress(Sv39, Identity(Frame(va)), 0, va) == va % TWO32
  {
    IdentityFields(Frame(va));
    hide Ppn22, Ppn44;
    assert va % TWO32 == Frame(va) * 0x1000 + va % 0x1000;
  }

  /** Sv39: every address whose low 39 bits are below 2^32 goes to those 39 bits. */
  lemma Identity64(m: Mem, rs: seq<Request>, va: u64, write: bool)
    requires Tables64(m) && va % 0x80_0000_0000 < TWO32
    ensures var t := TranslateBy(Sv39, AfterRequests(Sv39, m, rs), 0xC_0000, va, write);
      !t.fault && t.pa == va % 0x80_0000_0000
  {
    hide WalkFrom, Ppn44, WithAccess, WriteN, Tables64, PhysicalAddress, Frame, AfterRequests, Identity;
    assert va % 0x80_0000_0000 == va % TWO32;
    Walk64(m, va);
    IdentityAddress(va);
    WriteBackInvisible(Sv39, m, rs, Request(0xC_0000, va, write));
  }
}
