/**
  A load through page tables. The first part comes from the translation of its own addresses; the
  second part of a split load is looked up from the physical address of the first, and this module
  says when that is where the program's own addresses lead.
 */
module TranslatedLoad {
  import opened Words
  import opened FlatMemory
  import opened PageWalk
  import opened Decoder
  import opened CpuModel
  import opened TranslatedStore
  import opened PageTableEntry
  import P = Privileged

  /** Memory as every load finds it: the cycle counter has just been stored. */
  function Refreshed(s: State): Mem { WriteN(s.mem, TIMER_MTIME, s.dev.elapsedCycles, 8) }

  /** The translation of `va`, and whether there is one. */
  function Physical(sc: Scheme, m: Mem, root: nat, va: u64): u64
  {
    TranslatedBelow(m, Paged(sc, root), va, true);
    TranslateBy(sc, m, root, va, true).pa
  }

  predicate Mapped(sc: Scheme, m: Mem, root: nat, va: u64) { !TranslateBy(sc, m, root, va, true).fault }

  /** Where the code looks for the second part of a load. */
  function NextPart(sc: Scheme, m: Mem, root: nat, va: u64, width: nat): u64
  {
    Wrap64(Physical(sc, m, root, va) + FirstWidth(va, width))
  }

  /** Where the code looks for byte `k` of a load. */
  function Source(sc: Scheme, m: Mem, root: nat, va: u64, width: nat, k: nat): (x: nat)
    ensures x < SIZE
  {
    if k < FirstWidth(va, width) then Place(sc, m, root, va, k) else Place(sc, m, root, Physical(sc, m, root, va), k)
  }

  /** Neither of the translations of the load faults. */
  predicate Fetchable(sc: Scheme, m: Mem, root: nat, va: u64, width: nat)
  {
    Mapped(sc, m, root, va) && (FirstWidth(va, width) < width ==> Mapped(sc, m, root, NextPart(sc, m, root, va, width)))
  }

  lemma DirectionIrrelevant(sc: Scheme, m: Mem, root: nat, va: u64)
    ensures var r, w := TranslateBy(sc, m, root, va, false), TranslateBy(sc, m, root, va, true); r.fault == w.fault && r.pa == w.pa
  {
    hide WalkFrom, WithAccess, WriteN, PhysicalAddress;
  }

  lemma SameFirstWidth(sc: Scheme, m: Mem, root: nat, va: u64, width: nat)
    requires width in {1, 2, 4, 8}
    ensures var pa := Physical(sc, m, root, va);
      pa % 8 == va % 8 && FirstWidth(pa, width) == FirstWidth(va, width) == GetAccessWidth(width, pa)
  {
    hide TranslateBy, GetAccessWidth;
    KeepsUnitOffset(sc, m, root, va);
    FirstWidthBelow(Physical(sc, m, root, va), width);
  }

  // ----- the bytes of the two parts -----

  lemma {:induction false} JoinedByte(x: nat, y: nat, n: nat, k: nat)
    requires x < Pow256(n)
    ensures ByteOf(x + Pow256(n) * y, k) == if k < n then ByteOf(x, k) else ByteOf(y, k - n)
    decreases n
  {
    if n > 0 {
      var p := Pow256(n - 1);
      var r := x / 0x100 + p * y;
      assert 0x100 * p * y == 0x100 * (p * y);
      ModUnique(x + Pow256(n) * y, 0x100, r, x % 0x100);
      if k > 0 { JoinedByte(x / 0x100, y, n - 1, k - 1); }
    }
  }

  /** The bytes of what is read where `n` bytes are at `a` and the rest at `b`. */
  lemma JoinedBytes(m: Mem, m': Mem, a: nat, b: nat, n: nat, r: nat, k: nat)
    requires k < n + r <= 8
    ensures ByteOf(Joined(m, m', a, b, n, r), k) == if k < n then ByteAt(m, a, k) else ByteAt(m', b, k - n)
  {
    hide ReadN, Pow256, ByteAt;
    ReadBound(m, a, n);
    JoinedByte(ReadN(m, a, n), ReadN(m', b, r), n, k);
    if k < n { ReadAt(m, a, n, k); } else { ReadAt(m', b, r, k - n); }
  }

  lemma JoinedFits(m: Mem, m': Mem, a: nat, b: nat, n: nat, r: nat)
    requires n + r <= 8
    ensures Joined(m, m', a, b, n, r) < Pow256(n + r)
  {
    hide ReadN, Pow256;
    ReadBound(m, a, n);
    ReadBound(m', b, r);
    PowProduct(n, r);
    DigitsBelow(ReadN(m, a, n), Pow256(n), ReadN(m', b, r), Pow256(r));
  }

  // ----- the two translations -----

  /** One translation of a load, as the instruction sees it. */
  lemma LoadTranslation(s: State, sc: Scheme, root: nat, va: u64)
    requires Translated(s, sc, root) && Mapped(sc, s.mem, root, va)
    ensures var m := TranslateBy(sc, s.mem, root, va, false).mem;
      && VirtualToPhysical(s, va, false) == CpuModel.Access(Physical(sc, s.mem, root, va), SetMem(s, m))
      && Translated(SetMem(s, m), sc, root)
      && SameTables(sc.PteSize, s.mem, m)
  {
    hide TranslateBy, VirtualToPhysical, SetMem, Translated, Visible;
    DirectionIrrelevant(sc, s.mem, root, va);
    PagedAccess(s, sc, root, va, false);
    TranslatedElsewhere(s, sc, root, TranslateBy(sc, s.mem, root, va, false).mem);
    TranslateKeepsTables(sc, s.mem, root, va, false);
  }

  lemma SameLookup(sc: Scheme, m: Mem, m': Mem, root: nat, va: u64)
    requires SameTables(sc.PteSize, m, m')
    ensures Mapped(sc, m', root, va) == Mapped(sc, m, root, va) && Physical(sc, m', root, va) == Physical(sc, m, root, va)
  {
    hide TranslateBy, SameTables;
    TranslateSame(sc, m, m', root, va, true);
  }

  /** Memory after the first and after the second translation of a load that finds `m`. */
  function AfterFirst(sc: Scheme, m: Mem, root: nat, va: u64): Mem { TranslateBy(sc, m, root, va, false).mem }

  function AfterSecond(sc: Scheme, m: Mem, root: nat, va: u64, width: nat): Mem
  {
    if FirstWidth(va, width) == width then AfterFirst(sc, m, root, va)
    else TranslateBy(sc, AfterFirst(sc, m, root, va), root, NextPart(sc, m, root, va, width), false).mem
  }

  /** What the load finds. */
  function Data(sc: Scheme, m: Mem, root: nat, va: u64, width: nat): (v: u64)
    requires width in {1, 2, 4, 8}
  {
    FirstWidthBelow(va, width);
    var n := FirstWidth(va, width);
    Joined(AfterFirst(sc, m, root, va), AfterSecond(sc, m, root, va, width), Physical(sc, m, root, va),
           Physical(sc, m, root, NextPart(sc, m, root, va, width)), n, width - n)
  }

  lemma SecondSource(sc: Scheme, m: Mem, root: nat, va: u64, width: nat, k: nat)
    requires width in {2, 4, 8} && FirstWidth(va, width) <= k < width && Fetchable(sc, m, root, va, width)
    ensures Source(sc, m, root, va, width, k) ==
            (Physical(sc, m, root, NextPart(sc, m, root, va, width)) + (k - FirstWidth(va, width))) % SIZE
  {
    hide TranslateBy, Place, FirstWidth, Wrap64;
    FirstWidthBelow(va, width);
    SameFirstWidth(sc, m, root, va, width);
    SecondPlaces(sc, m, root, Physical(sc, m, root, va), FirstWidth(va, width), k);
  }

  /** Byte by byte, what the load finds is in memory where its translations lead. */
  lemma DataBytes(sc: Scheme, m: Mem, root: nat, va: u64, width: nat, k: nat)
    requires width in {1, 2, 4, 8} && k < width && Fetchable(sc, m, root, va, width)
    ensures var from := if k < FirstWidth(va, width) then AfterFirst(sc, m, root, va) else AfterSecond(sc, m, root, va, width);
      ByteOf(Data(sc, m, root, va, width), k) == from[Source(sc, m, root, va, width, k)]
  {
    hide TranslateBy, Place, FirstWidth, Joined, AfterFirst, AfterSecond, ByteOf, NextPart, Fetchable;
    FirstWidthBelow(va, width);
    var n, pa := FirstWidth(va, width), Physical(sc, m, root, va);
    JoinedBytes(AfterFirst(sc, m, root, va), AfterSecond(sc, m, root, va, width), pa,
                Physical(sc, m, root, NextPart(sc, m, root, va, width)), n, width - n, k);
    if k < n {
      FirstMapped(sc, m, root, va, width);
      UnitPlaces(sc, m, root, va, k);
    } else {
      SecondSource(sc, m, root, va, width, k);
    }
  }

  lemma FirstMapped(sc: Scheme, m: Mem, root: nat, va: u64, width: nat)
    requires Fetchable(sc, m, root, va, width)
    ensures Mapped(sc, m, root, va) && !TranslateBy(sc, m, root, va, true).fault
  {
    hide TranslateBy;
  }

  // ----- what a load writes -----

  /** Byte `x` belongs to an entry that the translations of the one or two parts use. */
  predicate LoadWalksUse(sc: Scheme, m: Mem, root: nat, va: u64, width: nat, x: nat)
  {
    || WalkUses(sc, m, root, va, x)
    || (FirstWidth(va, width) < width && WalkUses(sc, m, root, NextPart(sc, m, root, va, width), x))
  }

  /** Memory differs in access bits of those entries, and nowhere else. */
  ghost predicate OnlyUsedBits(sc: Scheme, m: Mem, root: nat, va: u64, width: nat, m': Mem)
  {
    && SameTables(sc.PteSize, m, m')
    && forall x :: 0 <= x < SIZE && m'[x] != m[x] ==> LoadWalksUse(sc, m, root, va, width, x)
  }

  lemma FirstWritesUsed(sc: Scheme, m: Mem, root: nat, va: u64, width: nat)
    ensures OnlyUsedBits(sc, m, root, va, width, m)
    ensures OnlyUsedBits(sc, m, root, va, width, AfterFirst(sc, m, root, va))
  {
    hide TranslateBy, Uses, Visible, NextPart, FirstWidth;
    var m1 := AfterFirst(sc, m, root, va);
    TranslateKeepsTables(sc, m, root, va, false);
    forall x | 0 <= x < SIZE && m1[x] != m[x] ensures LoadWalksUse(sc, m, root, va, width, x) {
      TranslateWritesUsed(sc, m, root, va, false, x);
    }
  }

  lemma SecondWritesUsed(sc: Scheme, m: Mem, root: nat, va: u64, width: nat)
    requires width in {1, 2, 4, 8}
    ensures OnlyUsedBits(sc, m, root, va, width, AfterSecond(sc, m, root, va, width))
  {
    hide TranslateBy, Uses, Visible, NextPart, FirstWidth, SameTables;
    var m1, m2, next := AfterFirst(sc, m, root, va), AfterSecond(sc, m, root, va, width), NextPart(sc, m, root, va, width);
    FirstWidthBelow(va, width);
    FirstWritesUsed(sc, m, root, va, width);
    SecondKeepsTables(sc, m, root, va, width);
    forall x | 0 <= x < SIZE && m2[x] != m[x] ensures LoadWalksUse(sc, m, root, va, width, x) {
      if m1[x] == m[x] {
        TranslateWritesUsed(sc, m1, root, next, false, x);
        UsesAgain(sc, m, m1, root, next, x);
      }
    }
  }

  lemma UsesAgain(sc: Scheme, m: Mem, m': Mem, root: nat, va: u64, x: nat)
    requires SameTables(sc.PteSize, m, m')
    ensures Uses(sc, m, root, va, sc.Levels - 1, x) == Uses(sc, m', root, va, sc.Levels - 1, x)
  {
    hide Uses, Visible;
    UsesSame(sc, m, m', root, va, sc.Levels - 1, x);
  }

  // ----- the instruction -----

  /** The second part of the load when its translation succeeds. */
  lemma LoadRestIs(s: State, sc: Scheme, root: nat, op: Op, rd: bv5, pa: u64, n: nat)
    requires IsLoad(op) && n < AccessWidthOf(op) && Translated(s, sc, root) && Mapped(sc, s.mem, root, Wrap64(pa + n))
    ensures var m := TranslateBy(sc, s.mem, root, Wrap64(pa + n), false).mem;
      LoadRest(s, op, rd, pa, n) ==
      SetReg(SetMem(s, m), rd, LoadResult(op, Joined(s.mem, m, pa, Physical(sc, s.mem, root, Wrap64(pa + n)), n, AccessWidthOf(op) - n)))
  {
    hide TranslateBy, VirtualToPhysical, AccessWidthOf, KindOf, Wrap64, SetMem, SetReg, Trap, Translated, Mapped, Physical, Joined, LoadResult, SameTables;
    LoadTranslation(s, sc, root, Wrap64(pa + n));
    MemoryOf(s, TranslateBy(sc, s.mem, root, Wrap64(pa + n), false).mem);
    Untroubled(SetMem(s, TranslateBy(sc, s.mem, root, Wrap64(pa + n), false).mem), sc, root);
  }

  lemma Untroubled(s: State, sc: Scheme, root: nat)
    requires Translated(s, sc, root)
    ensures !s.aborted && !s.pageFault
  {
    hide EffectivePrivilege, ModeOf;
  }

  lemma MemoryOf(s: State, m: Mem)
    ensures SetMem(s, m).mem == m && SetMem(s, m).dev == s.dev && forall m': Mem :: SetMem(SetMem(s, m), m') == SetMem(s, m')
  {}

  lemma LoadFromIs(s: State, sc: Scheme, root: nat, op: Op, rd: bv5, va: u64, m: Mem)
    requires IsLoad(op) && Translated(s, sc, root) && Fetchable(sc, m, root, va, AccessWidthOf(op))
    requires s.mem == AfterFirst(sc, m, root, va) && SameTables(sc.PteSize, m, s.mem)
    ensures LoadFrom(s, op, rd, Physical(sc, m, root, va)) ==
            SetReg(SetMem(s, AfterSecond(sc, m, root, va, AccessWidthOf(op))), rd, LoadResult(op, Data(sc, m, root, va, AccessWidthOf(op))))
  {
    hide TranslateBy, LoadRest, FirstWidth, AccessWidthOf, KindOf, Wrap64, SetMem, SetReg, Translated, Mapped, Physical, LoadResult, GetAccessWidth, SameTables;
    hide AfterFirst, Joined;
    var width := AccessWidthOf(op);
    FirstWidthBelow(va, width);
    SameFirstWidth(sc, m, root, va, width);
    var n, pa, next := FirstWidth(va, width), Physical(sc, m, root, va), NextPart(sc, m, root, va, width);
    AccessWidthBounds(width, pa);
    if n == width {
      NothingJoined(s.mem, s.mem, pa, Physical(sc, m, root, next), n);
      OwnMemory(s);
    } else {
      SameLookup(sc, m, s.mem, root, next);
      LoadRestIs(s, sc, root, op, rd, pa, n);
    }
  }

  lemma NothingJoined(m: Mem, m': Mem, a: nat, b: nat, n: nat)
    requires n <= 8
    ensures Joined(m, m', a, b, n, 0) == ReadData(m, a, n)
  {
    hide Pow256;
    assert ReadN(m', b, 0) == 0;
  }

  lemma OwnMemory(s: State)
    ensures SetMem(s, s.mem) == s
  {}

  /**
    A load of any width at any alignment through any tables, when its translations do not fault: rd
    receives the bytes found at the translation of va+k, or for the second part of pa+k, and memory
    changes in access bits of the entries its walks use.
   */
  lemma LoadTranslated(s: State, sc: Scheme, root: nat, op: Op, rd: bv5, base: u64, imm: int)
    requires IsLoad(op) && Translated(s, sc, root) && Fetchable(sc, Refreshed(s), root, Wrap64(base + imm), AccessWidthOf(op))
    ensures var va, width, m, t := Wrap64(base + imm), AccessWidthOf(op), Refreshed(s), Load(s, op, rd, base, imm);
      var data := Data(sc, m, root, va, width);
      && t == SetReg(SetMem(s, t.mem), rd, LoadResult(op, data))
      && data < Pow256(width)
      && (forall k :: 0 <= k < width ==>
            ByteOf(data, k) == (if k < FirstWidth(va, width) then AfterFirst(sc, m, root, va) else t.mem)[Source(sc, m, root, va, width, k)])
      && OnlyUsedBits(sc, m, root, va, width, AfterFirst(sc, m, root, va)) && OnlyUsedBits(sc, m, root, va, width, t.mem)
  {
    hide TranslateBy, LoadFrom, VirtualToPhysical, AccessWidthOf, KindOf, Wrap64, SetMem, SetReg, Trap, Translated, Mapped, Physical, LoadResult, SameTables;
    hide Refreshed, Source, Data, Fetchable, ByteOf, Pow256, AfterSecond, FirstWidth, WriteN, OnlyUsedBits;
    var va, width, m := Wrap64(base + imm), AccessWidthOf(op), Refreshed(s);
    FirstMapped(sc, m, root, va, width);
    LoadIsLoadFrom(s, sc, root, op, rd, base, imm);
    var m1 := AfterFirst(sc, m, root, va);
    TranslateKeepsTables(sc, m, root, va, false);
    MemoryOf(s, m1);
    TranslatedElsewhere(s, sc, root, m1);
    LoadFromIs(SetMem(s, m1), sc, root, op, rd, va, m);
    var m2 := AfterSecond(sc, m, root, va, width);
    RegisterKeepsMemory(SetMem(s, m2), rd, LoadResult(op, Data(sc, m, root, va, width)));
    MemoryOf(s, m2);
    DataFits(sc, m, root, va, width);
    FirstWritesUsed(sc, m, root, va, width);
    SecondWritesUsed(sc, m, root, va, width);
    forall k | 0 <= k < width
      ensures ByteOf(Data(sc, m, root, va, width), k) == (if k < FirstWidth(va, width) then m1 else m2)[Source(sc, m, root, va, width, k)]
    {
      DataBytes(sc, m, root, va, width, k);
    }
  }

  lemma RegisterKeepsMemory(s: State, rd: bv5, v: u64)
    ensures SetReg(s, rd, v).mem == s.mem
  {}

  lemma DataFits(sc: Scheme, m: Mem, root: nat, va: u64, width: nat)
    requires width in {1, 2, 4, 8}
    ensures Data(sc, m, root, va, width) < Pow256(width)
  {
    hide Joined, Pow256, FirstWidth, AfterFirst, AfterSecond, Physical, NextPart;
    FirstWidthBelow(va, width);
    var n := FirstWidth(va, width);
    JoinedFits(AfterFirst(sc, m, root, va), AfterSecond(sc, m, root, va, width), Physical(sc, m, root, va),
               Physical(sc, m, root, NextPart(sc, m, root, va, width)), n, width - n);
  }

  lemma SecondKeepsTables(sc: Scheme, m: Mem, root: nat, va: u64, width: nat)
    ensures SameTables(sc.PteSize, m, AfterSecond(sc, m, root, va, width))
  {
    hide TranslateBy, SameTables, FirstWidth, NextPart;
    var m1 := AfterFirst(sc, m, root, va);
    var next := NextPart(sc, m, root, va, width);
    TranslateKeepsTables(sc, m, root, va, false);
    TranslateKeepsTables(sc, m1, root, next, false);
    SameTablesTransitive(sc.PteSize, m, m1, TranslateBy(sc, m1, root, next, false).mem);
  }

  /** The instruction up to its first read. */
  lemma LoadIsLoadFrom(s: State, sc: Scheme, root: nat, op: Op, rd: bv5, base: u64, imm: int)
    requires IsLoad(op) && Translated(s, sc, root) && Mapped(sc, Refreshed(s), root, Wrap64(base + imm))
    ensures var va, m := Wrap64(base + imm), Refreshed(s);
      Load(s, op, rd, base, imm) == LoadFrom(SetMem(s, AfterFirst(sc, m, root, va)), op, rd, Physical(sc, m, root, va))
  {
    hide TranslateBy, LoadFrom, VirtualToPhysical, KindOf, Wrap64, SetMem, Trap, Translated, Mapped, Physical, SameTables, WriteN;
    var va, m := Wrap64(base + imm), Refreshed(s);
    MemoryOf(s, m);
    TranslatedElsewhere(s, sc, root, m);
    LoadTranslation(SetMem(s, m), sc, root, va);
    Untroubled(SetMem(SetMem(s, m), AfterFirst(sc, m, root, va)), sc, root);
  }

  // ----- when the second part is the right one -----

  predicate RightByte(sc: Scheme, m: Mem, root: nat, va: u64, width: nat, k: nat)
  {
    Mapped(sc, m, root, Wrap64(va + k)) && Source(sc, m, root, va, width, k) == Place(sc, m, root, va, k)
  }

  /** Every byte is looked up where the program's address for it leads. */
  predicate RightSources(sc: Scheme, m: Mem, root: nat, va: u64, width: nat)
  {
    && Fetchable(sc, m, root, va, width)
    && forall k :: 0 <= k < width ==> RightByte(sc, m, root, va, width, k)
  }

  /** The translations of pa+n and va+n agree. */
  predicate PartsAgree(sc: Scheme, m: Mem, root: nat, va: u64, width: nat)
  {
    var own, used := Wrap64(va + FirstWidth(va, width)), NextPart(sc, m, root, va, width);
    && Mapped(sc, m, root, own) && Mapped(sc, m, root, used)
    && Physical(sc, m, root, own) % SIZE == Physical(sc, m, root, used) % SIZE
  }

  /** A load that can begin reads its own bytes exactly when it is not split, or its two parts agree. */
  lemma RightExactly(sc: Scheme, m: Mem, root: nat, va: u64, width: nat)
    requires width in {1, 2, 4, 8} && Mapped(sc, m, root, va)
    ensures RightSources(sc, m, root, va, width) <==> FirstWidth(va, width) == width || PartsAgree(sc, m, root, va, width)
  {
    hide TranslateBy, FirstWidth, RightByte, Fetchable, Mapped, PartsAgree;
    FirstWidthBelow(va, width);
    var n := FirstWidth(va, width);
    AgreeFetchable(sc, m, root, va, width);
    if n == width || PartsAgree(sc, m, root, va, width) {
      forall k | 0 <= k < width
        ensures RightByte(sc, m, root, va, width, k)
      {
        if k < n { OwnByte(sc, m, root, va, width, k); } else { AgreeingByte(sc, m, root, va, width, k); }
      }
    } else if RightSources(sc, m, root, va, width) {
      assert RightByte(sc, m, root, va, width, n);
      AgreesAt(sc, m, root, va, width);
    }
  }

  lemma AgreeFetchable(sc: Scheme, m: Mem, root: nat, va: u64, width: nat)
    requires Mapped(sc, m, root, va)
    ensures FirstWidth(va, width) == width || PartsAgree(sc, m, root, va, width) ==> Fetchable(sc, m, root, va, width)
  {
    hide TranslateBy, FirstWidth;
  }

  lemma OwnByte(sc: Scheme, m: Mem, root: nat, va: u64, width: nat, k: nat)
    requires width in {1, 2, 4, 8} && Mapped(sc, m, root, va) && k < FirstWidth(va, width)
    ensures RightByte(sc, m, root, va, width, k)
  {
    hide TranslateBy, FirstWidth, Wrap64;
    FirstWidthBelow(va, width);
    UnitPlaces(sc, m, root, va, k);
  }

  lemma AgreesAt(sc: Scheme, m: Mem, root: nat, va: u64, width: nat)
    requires var n := FirstWidth(va, width);
      n < width && Fetchable(sc, m, root, va, width) && RightByte(sc, m, root, va, width, n)
    ensures PartsAgree(sc, m, root, va, width)
  {
    hide TranslateBy, FirstWidth, Wrap64;
  }

  lemma AgreeingByte(sc: Scheme, m: Mem, root: nat, va: u64, width: nat, k: nat)
    requires width in {1, 2, 4, 8} && FirstWidth(va, width) <= k < width
    requires Mapped(sc, m, root, va) && PartsAgree(sc, m, root, va, width)
    ensures RightByte(sc, m, root, va, width, k)
  {
    hide TranslateBy, FirstWidth, Wrap64, Place;
    FirstWidthBelow(va, width);
    var n := FirstWidth(va, width);
    SecondSource(sc, m, root, va, width, k);
    SecondPlaces(sc, m, root, va, n, k);
    SecondStart(va, n, k);
    UnitPlaces(sc, m, root, Wrap64(va + n), k - n);
    SameSum(Physical(sc, m, root, Wrap64(va + n)), Physical(sc, m, root, NextPart(sc, m, root, va, width)), k - n);
  }

  lemma SameSum(a: nat, b: nat, k: nat)
    requires a % SIZE == b % SIZE
    ensures (a + k) % SIZE == (b + k) % SIZE
  {}

  /** So a load that is not split, or whose parts agree, finds byte k of its data at the translation of va+k. */
  lemma LoadReadsOwnBytes(sc: Scheme, m: Mem, root: nat, va: u64, width: nat, k: nat)
    requires width in {1, 2, 4, 8} && k < width && Mapped(sc, m, root, va)
    requires FirstWidth(va, width) == width || PartsAgree(sc, m, root, va, width)
    ensures Fetchable(sc, m, root, va, width)
    ensures var from := if k < FirstWidth(va, width) then AfterFirst(sc, m, root, va) else AfterSecond(sc, m, root, va, width);
      ByteOf(Data(sc, m, root, va, width), k) == from[Place(sc, m, root, va, k)]
  {
    hide TranslateBy, FirstWidth, Source, Place, Fetchable, Mapped, PartsAgree, Data, AfterFirst, AfterSecond, ByteOf;
    RightExactly(sc, m, root, va, width);
    DataBytes(sc, m, root, va, width, k);
    assert RightByte(sc, m, root, va, width, k);
  }

  /** The address at which a load that cannot be fetched faults: its own, or the one the code makes up. */
  function FaultingAddress(sc: Scheme, m: Mem, root: nat, va: u64, width: nat): u64
  {
    if Mapped(sc, m, root, va) then NextPart(sc, m, root, va, width) else va
  }

  /** A load one of whose translations faults traps with cause 13, and no register changes. */
  lemma LoadFaults(s: State, sc: Scheme, root: nat, op: Op, rd: bv5, base: u64, imm: int)
    requires IsLoad(op) && Translated(s, sc, root) && !Fetchable(sc, Refreshed(s), root, Wrap64(base + imm), AccessWidthOf(op))
    ensures var va, width, m, t := Wrap64(base + imm), AccessWidthOf(op), Refreshed(s), Load(s, op, rd, base, imm);
      && t == Trap(WithFault(SetMem(s, t.mem), FaultingAddress(sc, m, root, va, width)), 13, false)
      && t.regs == s.regs && OnlyUsedBits(sc, m, root, va, width, t.mem)
  {
    hide TranslateBy, LoadFrom, VirtualToPhysical, KindOf, Wrap64, SetMem, Trap, Translated, Mapped, Physical, SameTables, WriteN, FirstWidth, WithFault, AccessWidthOf, Refreshed, OnlyUsedBits, NextPart;
    var va, width, m := Wrap64(base + imm), AccessWidthOf(op), Refreshed(s);
    FirstWidthBelow(va, width);
    FirstWritesUsed(sc, m, root, va, width);
    if Mapped(sc, m, root, va) {
      LoadIsLoadFrom(s, sc, root, op, rd, base, imm);
      SecondLoadFaults(s, sc, root, op, rd, va);
    } else {
      FirstLoadFaults(s, sc, root, op, rd, base, imm);
    }
  }

  lemma NothingFetched(sc: Scheme, m: Mem, root: nat, va: u64)
    requires !Mapped(sc, m, root, va)
    ensures SameTables(sc.PteSize, m, m) && TranslateBy(sc, m, root, va, false).fault
  {
    hide WalkFrom, WithAccess, WriteN, PhysicalAddress, Visible;
  }

  lemma FirstLoadFaults(s: State, sc: Scheme, root: nat, op: Op, rd: bv5, base: u64, imm: int)
    requires IsLoad(op) && Translated(s, sc, root) && !Mapped(sc, Refreshed(s), root, Wrap64(base + imm))
    ensures var t := Load(s, op, rd, base, imm);
      && t == Trap(WithFault(SetMem(s, t.mem), Wrap64(base + imm)), 13, false)
      && t.mem == Refreshed(s) && t.regs == s.regs && SameTables(sc.PteSize, Refreshed(s), Refreshed(s))
  {
    hide TranslateBy, LoadFrom, VirtualToPhysical, KindOf, Wrap64, SetMem, Trap, Translated, Mapped, SameTables, WriteN, WithFault;
    var va, m := Wrap64(base + imm), Refreshed(s);
    NothingFetched(sc, m, root, va);
    MemoryOf(s, m);
    TranslatedElsewhere(s, sc, root, m);
    FaultingAccess(SetMem(s, m), sc, root, va, false);
    FaultState(s, m, va, 13);
    Untroubled(s, sc, root);
  }

  lemma SecondLoadFaults(s: State, sc: Scheme, root: nat, op: Op, rd: bv5, va: u64)
    requires IsLoad(op) && Translated(s, sc, root) && Mapped(sc, Refreshed(s), root, va)
    requires FirstWidth(va, AccessWidthOf(op)) < AccessWidthOf(op) && !Mapped(sc, Refreshed(s), root, NextPart(sc, Refreshed(s), root, va, AccessWidthOf(op)))
    ensures var m := Refreshed(s);
      var m1 := AfterFirst(sc, m, root, va);
      var t := LoadFrom(SetMem(s, m1), op, rd, Physical(sc, m, root, va));
      && t == Trap(WithFault(SetMem(s, t.mem), NextPart(sc, m, root, va, AccessWidthOf(op))), 13, false)
      && t.mem == m1 && t.regs == s.regs && SameTables(sc.PteSize, m, m1)
  {
    hide TranslateBy, VirtualToPhysical, KindOf, Wrap64, SetMem, Trap, Translated, Mapped, Physical, SameTables, WithFault, FirstWidth, GetAccessWidth, AccessWidthOf, Refreshed;
    var m, width := Refreshed(s), AccessWidthOf(op);
    var m1, next := AfterFirst(sc, m, root, va), NextPart(sc, m, root, va, width);
    FirstWidthBelow(va, width);
    SameFirstWidth(sc, m, root, va, width);
    TranslateKeepsTables(sc, m, root, va, false);
    SameLookup(sc, m, m1, root, next);
    NothingFetched(sc, m1, root, next);
    MemoryOf(s, m1);
    TranslatedElsewhere(s, sc, root, m1);
    FaultingAccess(SetMem(s, m1), sc, root, next, false);
    FaultState(s, m1, next, 13);
    Untroubled(s, sc, root);
  }
}
