/**
  Loads and stores through the default tables. Outside the tables themselves they do what untranslated
  loads and stores do, and this holds for any number of them one after the other.
 */
module IdentityMapped {
  import opened Words
  import opened FlatMemory
  import opened PageWalk
  import opened Decoder
  import opened CpuModel
  import opened TranslatedStore
  import A = DataAccess
  import D = DefaultTables
  import L = TranslatedLoad

  const ROOT := 0xC_0000

  ghost predicate Built(sc: Scheme, m: Mem)
  {
    match sc
    case Sv32 => D.Tables32(m)
    case Sv39 => D.Tables64(m)
  }

  /** Address `x` belongs to the default tables. */
  predicate InTables(sc: Scheme, x: nat)
  {
    match sc
    case Sv32 => D.LEVEL1_32 <= x < D.LEVEL0_32 + 0x40_0000
    case Sv39 => D.LEVEL2_64 <= x < D.LEVEL0_64 + 0x80_0000
  }

  ghost predicate SameInTables(sc: Scheme, m: Mem, m': Mem)
  {
    forall x :: 0 <= x < SIZE && InTables(sc, x) ==> Visible(sc.PteSize, x, m[x]) == Visible(sc.PteSize, x, m'[x])
  }

  ghost predicate SameElsewhere(sc: Scheme, m: Mem, m': Mem)
  {
    forall x :: 0 <= x < SIZE && !InTables(sc, x) ==> m[x] == m'[x]
  }

  /** The default tables are in memory, up to access bits. */
  ghost predicate Tables(sc: Scheme, m: Mem)
  {
    exists m0: Mem :: Built(sc, m0) && SameInTables(sc, m0, m)
  }

  lemma TablesKept(sc: Scheme, m: Mem, m': Mem)
    requires Tables(sc, m) && SameInTables(sc, m, m')
    ensures Tables(sc, m')
  {
    hide Built, InTables, Visible;
    var m0: Mem :| Built(sc, m0) && SameInTables(sc, m0, m);
    assert SameInTables(sc, m0, m');
  }

  // ----- walks through the tables -----

  lemma BuiltMaps(sc: Scheme, m: Mem, va: u64, write: bool)
    requires Built(sc, m) && va < TWO32
    ensures var t := TranslateBy(sc, m, ROOT, va, write); !t.fault && t.pa == va
  {
    hide TranslateBy, D.Tables32, D.Tables64;
    assert va % TWO32 == va && va % 0x80_0000_0000 == va;
    match sc
    case Sv32 => D.Identity32(m, [], va, write);
    case Sv39 => D.Identity64(m, [], va, write);
  }

  lemma BuiltReads(sc: Scheme, m: Mem, va: u64, x: nat)
    requires Built(sc, m) && va < TWO32 && x < SIZE && WalkUses(sc, m, ROOT, va, x)
    ensures InTables(sc, x)
  {
    hide Uses, D.Tables32, D.Tables64;
    match sc
    case Sv32 => D.UsesTables32(m, va, x);
    case Sv39 => D.UsesTables64(m, va, x);
  }

  lemma WalksAgree(sc: Scheme, m0: Mem, m: Mem, va: u64)
    requires Built(sc, m0) && SameInTables(sc, m0, m) && va < TWO32
    ensures SameWhereUsed(sc, m0, m, ROOT, va, sc.Levels - 1)
  {
    hide Built, Uses, InTables, Visible;
    forall x | 0 <= x < SIZE && Uses(sc, m0, ROOT, va, sc.Levels - 1, x)
      ensures Visible(sc.PteSize, x, m0[x]) == Visible(sc.PteSize, x, m[x])
    {
      BuiltReads(sc, m0, va, x);
    }
  }

  lemma MapsToItself(sc: Scheme, m: Mem, va: u64, write: bool)
    requires Tables(sc, m) && va < TWO32
    ensures var t := TranslateBy(sc, m, ROOT, va, write); !t.fault && t.pa == va
  {
    hide Built, SameInTables, TranslateBy, SameWhereUsed;
    var m0: Mem :| Built(sc, m0) && SameInTables(sc, m0, m);
    BuiltMaps(sc, m0, va, write);
    WalksAgree(sc, m0, m, va);
    TranslateLocal(sc, m0, m, ROOT, va, write);
  }

  lemma ReadsTables(sc: Scheme, m: Mem, va: u64, x: nat)
    requires Tables(sc, m) && va < TWO32 && x < SIZE && WalkUses(sc, m, ROOT, va, x)
    ensures InTables(sc, x)
  {
    hide Built, SameInTables, Uses, InTables, SameWhereUsed;
    var m0: Mem :| Built(sc, m0) && SameInTables(sc, m0, m);
    WalksAgree(sc, m0, m, va);
    UsesSame(sc, m0, m, ROOT, va, sc.Levels - 1, x);
    BuiltReads(sc, m0, va, x);
  }

  /** A translation changes access bits in the tables and nothing else. */
  lemma TranslationKeeps(sc: Scheme, m: Mem, va: u64, write: bool)
    requires Tables(sc, m) && va < TWO32
    ensures var m' := TranslateBy(sc, m, ROOT, va, write).mem;
      SameInTables(sc, m, m') && SameElsewhere(sc, m, m') && Tables(sc, m')
  {
    hide Tables, TranslateBy, InTables, Visible, WalkUses;
    var m' := TranslateBy(sc, m, ROOT, va, write).mem;
    TranslateKeepsTables(sc, m, ROOT, va, write);
    forall x | 0 <= x < SIZE && !InTables(sc, x) ensures m[x] == m'[x] {
      if m'[x] != m[x] {
        TranslateWritesUsed(sc, m, ROOT, va, write, x);
        assert WalkUses(sc, m, ROOT, va, x) by { UsesIsWalkUses(sc, m, va, x); }
        ReadsTables(sc, m, va, x);
      }
    }
    TablesKept(sc, m, m');
  }

  lemma UsesIsWalkUses(sc: Scheme, m: Mem, va: u64, x: nat)
    ensures WalkUses(sc, m, ROOT, va, x) == Uses(sc, m, ROOT, va, sc.Levels - 1, x)
  {
    hide Uses;
  }

  // ----- stores -----

  /** The bytes from `va` on lie below 2^32 and outside the tables. */
  predicate Clear(sc: Scheme, va: nat, width: nat)
  {
    va + width <= TWO32 && forall x :: va <= x < va + width ==> !InTables(sc, x)
  }

  lemma ClearFits(sc: Scheme, va: nat, width: nat)
    requires Clear(sc, va, width)
    ensures va + width <= TWO32
  {}

  lemma PlacesAreIdentity(sc: Scheme, m: Mem, va: u64, width: nat)
    requires Tables(sc, m) && va + width <= TWO32
    ensures forall k :: 0 <= k < width ==> TranslatedStore.Place(sc, m, ROOT, va, k) == va + k
  {
    hide TranslateBy, Tables;
    forall k | 0 <= k < width ensures TranslatedStore.Place(sc, m, ROOT, va, k) == va + k {
      MapsToItself(sc, m, va + k, true);
    }
  }

  lemma SecondBelow(va: u64, width: nat)
    requires width in {1, 2, 4, 8} && va + width <= TWO32 && FirstWidth(va, width) < width
    ensures Wrap64(va + FirstWidth(va, width)) == va + FirstWidth(va, width) < TWO32
  {
    hide FirstWidth;
  }

  lemma NotRead(sc: Scheme, m: Mem, va: u64, x: nat)
    requires Tables(sc, m) && va < TWO32 && x < SIZE && !InTables(sc, x)
    ensures !WalkUses(sc, m, ROOT, va, x)
  {
    hide WalkUses, InTables, Tables;
    if WalkUses(sc, m, ROOT, va, x) { ReadsTables(sc, m, va, x); }
  }

  lemma Between(x: nat, va: nat, n: nat)
    requires x < SIZE && va + n <= SIZE && Off(x, va) < n
    ensures va <= x < va + n
  {}

  lemma ClearIsUndisturbed(sc: Scheme, m: Mem, va: u64, width: nat)
    requires Tables(sc, m) && width in {1, 2, 4, 8} && Clear(sc, va, width)
    ensures Undisturbed(sc, m, ROOT, va, width)
  {
    hide TranslateBy, WalkUses, InTables, Tables, FirstWidth, Wrap64, Off;
    var n := FirstWidth(va, width);
    FirstWidthBelow(va, width);
    MapsToItself(sc, m, va, true);
    if n < width {
      SecondBelow(va, width);
      MapsToItself(sc, m, va + n, true);
      forall x | 0 <= x < SIZE && Off(x, va) < n ensures !WalkUses(sc, m, ROOT, va + n, x) {
        Between(x, va, n);
        NotRead(sc, m, va + n, x);
      }
    }
  }

  lemma StoreReadsTables(sc: Scheme, m: Mem, va: u64, width: nat, x: nat)
    requires Tables(sc, m) && width in {1, 2, 4, 8} && Clear(sc, va, width) && x < SIZE && StoreWalksUse(sc, m, ROOT, va, width, x)
    ensures InTables(sc, x)
  {
    hide WalkUses, InTables, Tables, FirstWidth, Wrap64;
    FirstWidthBelow(va, width);
    if WalkUses(sc, m, ROOT, va, x) {
      ReadsTables(sc, m, va, x);
    } else {
      SecondBelow(va, width);
      ReadsTables(sc, m, va + FirstWidth(va, width), x);
    }
  }

  lemma StoredByteAt(sc: Scheme, m: Mem, va: u64, value: u64, width: nat, x: nat)
    requires Tables(sc, m) && width in {1, 2, 4, 8} && Clear(sc, va, width) && x < SIZE
    ensures var m' := Stored(sc, m, ROOT, va, value, width);
      if va <= x < va + width then m'[x] == ByteOf(value, x - va)
      else if InTables(sc, x) then Visible(sc.PteSize, x, m'[x]) == Visible(sc.PteSize, x, m[x])
      else m'[x] == m[x]
  {
    hide Tables, InTables, Undisturbed, Stored, StoreWalksUse, Visible, ByteOf, TranslatedStore.Place, Clear;
    ClearIsUndisturbed(sc, m, va, width);
    ClearFits(sc, va, width);
    PlacesAreIdentity(sc, m, va, width);
    if va <= x < va + width {
      ByteArrives(sc, m, ROOT, va, value, width, x - va);
      assert TranslatedStore.Place(sc, m, ROOT, va, x - va) == x;
    } else {
      OtherByteKept(sc, m, ROOT, va, value, width, x);
      if StoreWalksUse(sc, m, ROOT, va, width, x) { StoreReadsTables(sc, m, va, width, x); }
    }
  }

  lemma OffInside(x: nat, va: nat, n: nat)
    requires x < SIZE && va + n <= SIZE && n > 0
    ensures Off(x, va) < n <==> va <= x < va + n
    ensures va <= x ==> Off(x, va) == x - va
  {}

  /** The store writes what an untranslated store writes, and keeps the tables. */
  lemma StoredInPlace(sc: Scheme, m: Mem, va: u64, value: u64, width: nat)
    requires Tables(sc, m) && width in {1, 2, 4, 8} && Clear(sc, va, width)
    ensures var m' := Stored(sc, m, ROOT, va, value, width);
      SameElsewhere(sc, m', WriteN(m, va, value, width)) && SameInTables(sc, m, m') && Tables(sc, m')
  {
    hide Tables, InTables, Stored, Visible, ByteOf, WriteN, Off;
    var m' := Stored(sc, m, ROOT, va, value, width);
    forall x | 0 <= x < SIZE
      ensures InTables(sc, x) ==> Visible(sc.PteSize, x, m[x]) == Visible(sc.PteSize, x, m'[x])
      ensures !InTables(sc, x) ==> m'[x] == WriteN(m, va, value, width)[x]
    {
      StoredByteAt(sc, m, va, value, width, x);
      WriteAt(m, va, value, width, x);
      OffInside(x, va, width);
    }
    TablesKept(sc, m, m');
  }

  /**
    With the default tables in place a store below 2^32 that does not hit them does what an untranslated
    store does, except that access bits may change in the tables, which stay in place.
   */
  lemma StoreThroughDefaultTables(s: State, sc: Scheme, op: Op, value: u64, base: u64, imm: int)
    requires IsStore(op) && Translated(s, sc, ROOT) && Tables(sc, s.mem) && Clear(sc, Wrap64(base + imm), AccessWidthOf(op))
    ensures var va, width, t := Wrap64(base + imm), AccessWidthOf(op), Store(s, op, value, base, imm);
      && t == SetDev(SetMem(s, t.mem), CheckDeviceWrite(s.dev, va, width, value))
      && SameElsewhere(sc, t.mem, WriteN(s.mem, va, value, width)) && SameInTables(sc, s.mem, t.mem) && Tables(sc, t.mem)
  {
    hide TranslateBy, Undisturbed, Completes, Stored, Store, AccessWidthOf, CheckDeviceWrite, KindOf, Wrap64, SetMem, SetDev, Translated;
    hide WriteN, Tables, SameElsewhere, SameInTables, Clear;
    var va, width := Wrap64(base + imm), AccessWidthOf(op);
    ClearIsUndisturbed(sc, s.mem, va, width);
    UndisturbedCompletes(sc, s.mem, ROOT, va, value, width);
    StoreIsStored(s, sc, ROOT, op, value, base, imm);
    ClearFits(sc, va, width);
    MapsToItself(sc, s.mem, va, true);
    Parts(s, Stored(sc, s.mem, ROOT, va, value, width), CheckDeviceWrite(s.dev, va, width, value));
    StoredInPlace(sc, s.mem, va, value, width);
  }

  // ----- loads -----

  lemma MtimeOutside(sc: Scheme, m: Mem, t: nat)
    ensures SameInTables(sc, m, WriteN(m, TIMER_MTIME, t, 8))
  {
    hide WriteN, Visible;
    forall x | 0 <= x < SIZE && InTables(sc, x) ensures m[x] == WriteN(m, TIMER_MTIME, t, 8)[x] {
      WriteAt(m, TIMER_MTIME, t, 8, x);
    }
  }

  lemma ClearReadsSame(sc: Scheme, m: Mem, m': Mem, va: nat, width: nat, a: nat, n: nat)
    requires SameElsewhere(sc, m, m') && Clear(sc, va, width) && va <= a && a + n <= va + width
    ensures ReadN(m, a, n) == ReadN(m', a, n)
  {
    hide InTables, ReadN;
    forall k | 0 <= k < n ensures ByteAt(m, a, k) == ByteAt(m', a, k) {
      assert (a + k) % SIZE == a + k;
      assert !InTables(sc, a + k);
    }
    ReadCongruent(m, m', a, a, n);
  }

  lemma BelowBoundary(width: nat, va: u64)
    requires width in {1, 2, 4, 8} && va + width <= TWO32 && GetAccessWidth(width, va) < width
    ensures Wrap64(va + GetAccessWidth(width, va)) == va + GetAccessWidth(width, va) < TWO32
  {
    hide GetAccessWidth;
    AccessWidthBounds(width, va);
  }

  lemma JoinedIsRead(sc: Scheme, m: Mem, m2: Mem, m3: Mem, va: nat, width: nat, n: nat)
    requires n <= width <= 8 && SameElsewhere(sc, m, m2) && SameElsewhere(sc, m2, m3) && Clear(sc, va, width)
    ensures Joined(m2, m3, va, va + n, n, width - n) == ReadN(m, va, width)
  {
    hide InTables, ReadN, Pow256, Clear, SameElsewhere;
    ClearReadsSame(sc, m, m2, va, width, va, n);
    ClearReadsSame(sc, m, m2, va, width, va + n, width - n);
    ClearReadsSame(sc, m2, m3, va, width, va + n, width - n);
    A.SplitRead(m, va, va + n, n, width - n);
  }

  lemma ElsewhereTransitive(sc: Scheme, m: Mem, m': Mem, m'': Mem)
    requires SameElsewhere(sc, m, m') && SameElsewhere(sc, m', m'')
    ensures SameElsewhere(sc, m, m'')
  {
    hide InTables;
  }

  /** The rest of the load once the first address has been translated. */
  lemma LoadRestThroughTables(s: State, sc: Scheme, op: Op, rd: bv5, m: Mem, va: u64)
    requires IsLoad(op) && Translated(s, sc, ROOT) && Tables(sc, s.mem) && Clear(sc, va, AccessWidthOf(op)) && SameElsewhere(sc, m, s.mem)
    requires GetAccessWidth(AccessWidthOf(op), va) < AccessWidthOf(op)
    ensures var t := LoadRest(s, op, rd, va, GetAccessWidth(AccessWidthOf(op), va));
      && t == SetReg(SetMem(s, t.mem), rd, LoadResult(op, ReadData(m, va, AccessWidthOf(op))))
      && SameElsewhere(sc, m, t.mem) && Tables(sc, t.mem)
  {
    hide TranslateBy, VirtualToPhysical, Tables, Clear, SameElsewhere, SameInTables, GetAccessWidth, AccessWidthOf, KindOf, Wrap64, SetReg, SetMem;
    hide Translated, LoadResult, Joined, ReadN, Trap;
    var width := AccessWidthOf(op);
    AccessWidthBounds(width, va);
    var n := GetAccessWidth(width, va);
    ClearFits(sc, va, width);
    BelowBoundary(width, va);
    MapsToItself(sc, s.mem, va + n, false);
    TranslationKeeps(sc, s.mem, va + n, false);
    PagedAccess(s, sc, ROOT, va + n, false);
    var m3 := TranslateBy(sc, s.mem, ROOT, va + n, false).mem;
    TranslatedElsewhere(s, sc, ROOT, m3);
    JoinedIsRead(sc, m, s.mem, m3, va, width, n);
    ElsewhereTransitive(sc, m, s.mem, m3);
    L.RegisterKeepsMemory(SetMem(s, m3), rd, LoadResult(op, ReadData(m, va, width)));
  }

  lemma LoadFromTables(s: State, sc: Scheme, op: Op, rd: bv5, m: Mem, va: u64)
    requires IsLoad(op) && Translated(s, sc, ROOT) && Tables(sc, s.mem) && Clear(sc, va, AccessWidthOf(op)) && SameElsewhere(sc, m, s.mem)
    ensures var t := LoadFrom(s, op, rd, va);
      && t == SetReg(SetMem(s, t.mem), rd, LoadResult(op, ReadData(m, va, AccessWidthOf(op))))
      && SameElsewhere(sc, m, t.mem) && Tables(sc, t.mem)
  {
    hide LoadRest, Tables, Clear, SameElsewhere, GetAccessWidth, AccessWidthOf, KindOf, SetReg, SetMem, Translated, LoadResult, ReadN;
    var width := AccessWidthOf(op);
    AccessWidthBounds(width, va);
    if GetAccessWidth(width, va) == width {
      ClearReadsSame(sc, m, s.mem, va, width, va, width);
      L.RegisterKeepsMemory(s, rd, LoadResult(op, ReadData(m, va, width)));
      L.OwnMemory(s);
    } else {
      LoadRestThroughTables(s, sc, op, rd, m, va);
    }
  }

  /**
    With the default tables in place a load below 2^32 that does not read them yields what an
    untranslated load yields, although the second half of a split load translates a physical address.
   */
  lemma LoadThroughDefaultTables(s: State, sc: Scheme, op: Op, rd: bv5, base: u64, imm: int)
    requires IsLoad(op) && Translated(s, sc, ROOT) && Tables(sc, s.mem) && Clear(sc, Wrap64(base + imm), AccessWidthOf(op))
    ensures var t := Load(s, op, rd, base, imm);
      && t == SetReg(SetMem(s, t.mem), rd, LoadResult(op, A.LoadedBare(s, op, base, imm)))
      && SameElsewhere(sc, WriteN(s.mem, TIMER_MTIME, s.dev.elapsedCycles, 8), t.mem) && Tables(sc, t.mem)
  {
    hide TranslateBy, VirtualToPhysical, LoadFrom, Tables, Clear, SameElsewhere, SameInTables, AccessWidthOf, KindOf, Wrap64, SetReg, SetMem;
    hide Translated, LoadResult, ReadN, WriteN, Trap;
    var va, width := Wrap64(base + imm), AccessWidthOf(op);
    var m := WriteN(s.mem, TIMER_MTIME, s.dev.elapsedCycles, 8);
    MtimeOutside(sc, s.mem, s.dev.elapsedCycles);
    TablesKept(sc, s.mem, m);
    ClearFits(sc, va, width);
    TranslatedElsewhere(s, sc, ROOT, m);
    MapsToItself(sc, m, va, false);
    TranslationKeeps(sc, m, va, false);
    PagedAccess(SetMem(s, m), sc, ROOT, va, false);
    var m2 := TranslateBy(sc, m, ROOT, va, false).mem;
    TranslatedElsewhere(s, sc, ROOT, m2);
    LoadFromTables(SetMem(s, m2), sc, op, rd, m, va);
    TranslatedElsewhere(s, sc, ROOT, LoadFrom(SetMem(s, m2), op, rd, va).mem);
  }

  // ----- any number of loads and stores -----

  /** A load or a store with the numbers of its registers. */
  datatype Move = Get(op: Op, rd: bv5, rs1: bv5, imm: int) | Put(op: Op, rs1: bv5, rs2: bv5, imm: int) {
    predicate Proper() { if Get? then IsLoad(op) else IsStore(op) }
  }

  function ZeroKept(s: State): State { s.(regs := s.regs[0 := 0]) }

  function Do(s: State, a: Move): State
    requires a.Proper()
  {
    match a
    case Get(op, rd, rs1, imm) => ZeroKept(Load(s, op, rd, X(s, rs1), imm))
    case Put(op, rs1, rs2, imm) => ZeroKept(Store(s, op, X(s, rs2), X(s, rs1), imm))
  }

  function DoAll(s: State, moves: seq<Move>): State
    requires forall a :: a in moves ==> a.Proper()
    decreases |moves|
  {
    if moves == [] then s else DoAll(Do(s, moves[0]), moves[1..])
  }

  /** Every move of the untranslated run stays below 2^32 and away from the tables. */
  predicate AllClear(sc: Scheme, s: State, moves: seq<Move>)
    requires forall a :: a in moves ==> a.Proper()
    decreases |moves|
  {
    moves == [] ||
    (Clear(sc, Wrap64(X(s, moves[0].rs1) + moves[0].imm), AccessWidthOf(moves[0].op)) && AllClear(sc, Do(s, moves[0]), moves[1..]))
  }

  /** `s` runs behind the default tables what `t` runs without translation. */
  ghost predicate Alike(sc: Scheme, s: State, t: State)
  {
    && Translated(s, sc, ROOT) && Tables(sc, s.mem) && A.Bare(t)
    && s.regs == t.regs && s.dev == t.dev && SameElsewhere(sc, s.mem, t.mem)
  }

  lemma SameWrite(sc: Scheme, m: Mem, m': Mem, a: nat, v: nat, n: nat)
    requires SameElsewhere(sc, m, m') && n <= 8
    ensures SameElsewhere(sc, WriteN(m, a, v, n), WriteN(m', a, v, n))
  {
    hide WriteN, InTables, Off;
    forall x | 0 <= x < SIZE && !InTables(sc, x) ensures WriteN(m, a, v, n)[x] == WriteN(m', a, v, n)[x] {
      WriteAt(m, a, v, n, x);
      WriteAt(m', a, v, n, x);
    }
  }

  lemma PutAlike(sc: Scheme, s: State, t: State, op: Op, value: u64, base: u64, imm: int)
    requires Alike(sc, s, t) && IsStore(op) && Clear(sc, Wrap64(base + imm), AccessWidthOf(op))
    ensures Alike(sc, Store(s, op, value, base, imm), Store(t, op, value, base, imm))
  {
    hide Store, WriteN, AccessWidthOf, KindOf, Wrap64, Clear, Tables, SameElsewhere, SameInTables, CheckDeviceWrite, Translated, A.Bare, SetMem, SetDev;
    var va, width := Wrap64(base + imm), AccessWidthOf(op);
    StoreThroughDefaultTables(s, sc, op, value, base, imm);
    A.StoreBare(t, op, value, base, imm);
    var s', t' := Store(s, op, value, base, imm), Store(t, op, value, base, imm);
    var m := WriteN(t.mem, va, value, width);
    var d := CheckDeviceWrite(s.dev, va, width, value);
    SameWrite(sc, s.mem, t.mem, va, value, width);
    ElsewhereTransitive(sc, s'.mem, WriteN(s.mem, va, value, width), m);
    A.BareDevice(t, m, d);
    Updated(s, sc, s'.mem, d);
    Updated(t, sc, m, d);
  }

  lemma Updated(s: State, sc: Scheme, m: Mem, d: Device)
    ensures var s' := SetDev(SetMem(s, m), d); s'.mem == m && s'.dev == d && s'.regs == s.regs
    ensures Translated(s, sc, ROOT) ==> Translated(SetDev(SetMem(s, m), d), sc, ROOT)
  {
    hide EffectivePrivilege, ModeOf;
  }

  lemma Filled(s: State, sc: Scheme, m: Mem, rd: bv5, v: u64)
    ensures var s' := SetReg(SetMem(s, m), rd, v); s'.mem == m && s'.dev == s.dev && s'.regs == s.regs[rd as nat := v]
    ensures Translated(s, sc, ROOT) ==> Translated(SetReg(SetMem(s, m), rd, v), sc, ROOT)
    ensures A.Bare(s) ==> A.Bare(SetReg(SetMem(s, m), rd, v))
  {
    hide EffectivePrivilege, ModeOf;
  }

  lemma GetAlike(sc: Scheme, s: State, t: State, op: Op, rd: bv5, base: u64, imm: int)
    requires Alike(sc, s, t) && IsLoad(op) && Clear(sc, Wrap64(base + imm), AccessWidthOf(op))
    ensures Alike(sc, Load(s, op, rd, base, imm), Load(t, op, rd, base, imm))
  {
    hide Load, WriteN, ReadN, AccessWidthOf, KindOf, Wrap64, Clear, Tables, SameElsewhere, SameInTables, LoadResult, Translated, A.Bare, SetMem, SetReg;
    var va, width := Wrap64(base + imm), AccessWidthOf(op);
    LoadThroughDefaultTables(s, sc, op, rd, base, imm);
    A.LoadBare(t, op, rd, base, imm);
    var m, m' := WriteN(s.mem, TIMER_MTIME, s.dev.elapsedCycles, 8), WriteN(t.mem, TIMER_MTIME, t.dev.elapsedCycles, 8);
    SameWrite(sc, s.mem, t.mem, TIMER_MTIME, s.dev.elapsedCycles, 8);
    ClearReadsSame(sc, m, m', va, width, va, width);
    var s' := Load(s, op, rd, base, imm);
    ElsewhereSwap(sc, m, s'.mem);
    ElsewhereTransitive(sc, s'.mem, m, m');
    Filled(s, sc, s'.mem, rd, LoadResult(op, A.LoadedBare(s, op, base, imm)));
    Filled(t, sc, m', rd, LoadResult(op, A.LoadedBare(t, op, base, imm)));
  }

  lemma ElsewhereSwap(sc: Scheme, m: Mem, m': Mem)
    requires SameElsewhere(sc, m, m')
    ensures SameElsewhere(sc, m', m)
  {
    hide InTables;
  }

  lemma ZeroAlike(sc: Scheme, s: State, t: State)
    requires Alike(sc, s, t)
    ensures Alike(sc, ZeroKept(s), ZeroKept(t))
  {
    hide EffectivePrivilege, ModeOf, Tables, SameElsewhere;
  }

  /** Translation through the default tables is invisible to any sequence of loads and stores. */
  lemma {:induction false} TablesAreInvisible(sc: Scheme, s: State, t: State, moves: seq<Move>)
    requires forall a :: a in moves ==> a.Proper()
    requires Alike(sc, s, t) && AllClear(sc, t, moves)
    ensures Alike(sc, DoAll(s, moves), DoAll(t, moves))
    decreases |moves|
  {
    hide Alike, Load, Store, IsLoad, IsStore, AccessWidthOf, Wrap64, Clear, ZeroKept;
    if moves != [] {
      var a := moves[0];
      assert a in moves && a.Proper();
      SameRegisters(sc, s, t);
      if a.Get? {
        GetAlike(sc, s, t, a.op, a.rd, X(s, a.rs1), a.imm);
      } else {
        PutAlike(sc, s, t, a.op, X(s, a.rs2), X(s, a.rs1), a.imm);
      }
      ZeroAlike(sc, if a.Get? then Load(s, a.op, a.rd, X(s, a.rs1), a.imm) else Store(s, a.op, X(s, a.rs2), X(s, a.rs1), a.imm),
                if a.Get? then Load(t, a.op, a.rd, X(t, a.rs1), a.imm) else Store(t, a.op, X(t, a.rs2), X(t, a.rs1), a.imm));
      TablesAreInvisible(sc, Do(s, a), Do(t, a), moves[1..]);
    }
  }

  lemma SameRegisters(sc: Scheme, s: State, t: State)
    requires Alike(sc, s, t)
    ensures s.regs == t.regs
  {
    hide EffectivePrivilege, ModeOf, Tables, SameElsewhere;
  }
}
