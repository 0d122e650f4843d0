/**
  What a translation yields, read off the bytes of the tables: entry by entry from its lowest four bits
  (V, R, W and X), its frame number and the size of the region it stands for. Section 4.3.2 of the
  Privileged Architecture as a table of entries, apart from the walk that is proved to follow it.
 */
module WalkMeaning {
  import opened Words
  import opened FlatMemory
  import opened PageTableEntry
  import opened PageWalk

  /** Entries of one table. */
  function Fan(sc: Scheme): nat { if sc == Sv32 then 1024 else 512 }

  function EntryBytes(sc: Scheme): nat { if sc == Sv32 then 4 else 8 }

  /** Bytes under one entry: a page, or the regions under a whole table. */
  function Region(sc: Scheme, level: nat): (n: nat)
    ensures n > 0
  {
    if level == 0 then 4096 else Fan(sc) * Region(sc, level - 1)
  }

  function EntryPlace(sc: Scheme, table: nat, va: nat, level: nat): nat
  {
    table * 4096 + (va / Region(sc, level)) % Fan(sc) * EntryBytes(sc)
  }

  function Frame(sc: Scheme, entry: nat): nat { (entry / 1024) % (if sc == Sv32 then 0x40_0000 else 0x1000_0000_0000) }

  datatype Answer = NoPage | Page(entry: nat, pa: nat)

  /** The lookup from the table in page `table`. R, RW, X, RX and RWX make a page, no such bit a pointer. */
  function Lookup(sc: Scheme, m: Mem, table: nat, va: nat, level: nat): Answer
    decreases level
  {
    var place := EntryPlace(sc, table, va, level);
    var entry := ReadN(m, place, EntryBytes(sc));
    var flags, frame := entry % 16, Frame(sc, entry);
    if flags in {3, 7, 9, 11, 15} then
      if frame * 4096 % Region(sc, level) == 0 then Page(place, frame * 4096 + va % Region(sc, level)) else NoPage
    else if flags == 1 && level > 0 then Lookup(sc, m, frame, va, level - 1)
    else NoPage
  }

  // ----- flags -----

  lemma FlagBits(entry: nat)
    ensures var f := entry % 16;
      && entry % 2 == f % 2 && (entry / 2) % 2 == (f / 2) % 2 && (entry / 4) % 2 == (f / 4) % 2 && (entry / 8) % 2 == f / 8
  {
    var q, f := entry / 16, entry % 16;
    ModUnique(entry, 2, 8 * q + f / 2, f % 2);
    ModUnique(entry, 4, 4 * q + f / 4, f % 4);
    ModUnique(entry, 8, 2 * q + f / 8, f % 8);
    Even(4 * q, f / 2);
    Even(2 * q, f / 4);
    Even(q, f / 8);
  }

  lemma FlagsMean(entry: nat)
    ensures Valid(entry) && Leaf(entry) <==> entry % 16 in {3, 7, 9, 11, 15}
    ensures Valid(entry) && !Leaf(entry) <==> entry % 16 == 1
  {
    FlagBits(entry);
  }

  // ----- fields -----

  lemma Regions(sc: Scheme, level: nat)
    requires level < sc.Levels
    ensures Region(sc, level) == Span(sc, level) * 4096
  {
    assert Region(sc, 1) == Fan(sc) * 4096;
    if level == 2 { assert Region(sc, 2) == Fan(sc) * Region(sc, 1); }
  }

  lemma Places(sc: Scheme, table: nat, va: nat, level: nat)
    requires level < sc.Levels
    ensures EntryPlace(sc, table, va, level) == EntryAddress(sc, table, va, level)
  {
    Regions(sc, level);
  }

  lemma Alignment(sc: Scheme, entry: nat, level: nat)
    requires level < sc.Levels
    ensures Frame(sc, entry) == Ppn(sc, entry)
    ensures Frame(sc, entry) * 4096 % Region(sc, level) == 0 <==> Aligned(sc, entry, level)
  {
    Regions(sc, level);
    Scaled(Ppn(sc, entry), Span(sc, level));
  }

  lemma Scaled(x: nat, n: nat)
    requires n > 0
    ensures x * 4096 % (n * 4096) == 0 <==> x % n == 0
  {
    var q, r := x / n, x % n;
    assert x * 4096 == q * (n * 4096) + r * 4096 by { assert x == q * n + r; }
    ModUnique(x * 4096, n * 4096, q, r * 4096);
  }

  // ----- the walk follows the table of entries -----

  /** A walk and a lookup come to the same. */
  predicate Same(sc: Scheme, w: Walk, a: Answer, va: nat)
  {
    match a
    case NoPage => w.Fault?
    case Page(entry, pa) => w.Found? && w.address == entry % SIZE && PhysicalAddress(sc, w.pte, w.level, va) == pa
  }

  lemma {:induction false} WalkLooksUp(sc: Scheme, m: Mem, table: nat, va: nat, level: nat)
    requires level < sc.Levels
    ensures Same(sc, WalkFrom(sc, m, table, va, level), Lookup(sc, m, table, va, level), va)
    decreases level
  {
    hide Valid, Leaf, Ppn, Frame, EntryAddress, EntryPlace, ReadN, Aligned, Region, Span;
    var entry := ReadN(m, EntryPlace(sc, table, va, level), EntryBytes(sc));
    Places(sc, table, va, level);
    FlagsMean(entry);
    Alignment(sc, entry, level);
    Regions(sc, level);
    if entry % 16 == 1 && level > 0 { WalkLooksUp(sc, m, Frame(sc, entry), va, level - 1); }
  }

  /** One bit of an entry, by its weight. */
  predicate HasBit(entry: nat, weight: nat)
    requires weight > 0
  {
    (entry / weight) % 2 == 1
  }

  /** The access bits are set in this entry: A, and D for a store; nothing else changes anywhere. */
  ghost predicate Accessed(m: Mem, m': Mem, entry: nat, size: nat, write: bool)
  {
    var e, e' := ReadN(m, entry, size), ReadN(m', entry, size);
    && HasBit(e', 64) && (HasBit(e', 128) <==> HasBit(e, 128) || write)
    && e' % 64 == e % 64 && e' / 256 == e / 256
    && forall x :: 0 <= x < SIZE && Off(x, entry) >= size ==> m'[x] == m[x]
  }

  lemma AccessWritten(sc: Scheme, m: Mem, entry: nat, pte: nat, write: bool)
    requires pte == ReadN(m, entry, sc.PteSize)
    ensures Accessed(m, WriteN(m, entry % SIZE, WithAccess(pte, write), sc.PteSize), entry, EntryBytes(sc), write)
  {
    hide ReadN, WriteN, WithAccess, Pow256;
    var n, v := sc.PteSize, WithAccess(pte, write);
    WriteAlias(m, entry, entry % SIZE, v, n);
    AccessBits(pte, write);
    DirtyBit(pte, write);
    ReadOwnWrite(m, entry, v, n);
    ReadBound(m, entry, n);
    PowValues();
    SameHigh(pte, v, Pow256(n));
    forall x | 0 <= x < SIZE && Off(x, entry) >= n ensures WriteN(m, entry, v, n)[x] == m[x] { WriteAt(m, entry, v, n, x); }
  }

  lemma DirtyBit(pte: nat, write: bool)
    ensures HasBit(WithAccess(pte, write), 128) <==> HasBit(pte, 128) || write
  {
    var h, d, a, l := Decompose(pte);
    Compose(h, d, a, l);
    Compose(h, d, 1, l);
    Compose(h, 1, 1, l);
  }

  lemma SameHigh(p: nat, q: nat, n: nat)
    requires p < n && n % 256 == 0 && q / 256 == p / 256
    ensures q % n == q
  {
    assert n == 256 * (n / 256);
    assert q < n;
    ModUnique(q, n, 0, q);
  }

  /** A translation through tables: the fault, the address and the memory, from the bytes of the tables alone. */
  ghost predicate Follows(sc: Scheme, m: Mem, root: nat, va: u64, write: bool, t: Translation)
  {
    match Lookup(sc, m, root, va, if sc == Sv32 then 1 else 2)
    case NoPage => t == Translation(true, va, m)
    case Page(entry, pa) =>
      !t.fault && t.pa == (if sc == Sv32 then pa % TWO32 else pa) && Accessed(m, t.mem, entry, EntryBytes(sc), write)
  }

  lemma TranslationFollows(sc: Scheme, m: Mem, root: nat, va: u64, write: bool)
    ensures Follows(sc, m, root, va, write, TranslateBy(sc, m, root, va, write))
  {
    hide WalkFrom, Lookup, WithAccess, ReadN, WriteN, PhysicalAddress, Accessed;
    var top := sc.Levels - 1;
    WalkLooksUp(sc, m, root, va, top);
    FoundIsEntry(sc, m, root, va, top);
    match Lookup(sc, m, root, va, top)
    case NoPage =>
    case Page(entry, pa) =>
      ReadAlias(m, entry, entry % SIZE, sc.PteSize);
      AccessWritten(sc, m, entry, WalkFrom(sc, m, root, va, top).pte, write);
  }

  /** What an entry with the given frame number and flags does to the walk that meets it. */
  lemma EntryMeans(sc: Scheme, m: Mem, table: nat, va: nat, level: nat, frame: nat, flags: nat)
    requires level < sc.Levels && flags < 16 && frame < if sc == Sv32 then 0x40_0000 else 0x1000_0000_0000
    requires ReadN(m, EntryPlace(sc, table, va, level), EntryBytes(sc)) == frame * 1024 + flags
    ensures var w := WalkFrom(sc, m, table, va, level);
      if flags in {3, 7, 9, 11, 15} && frame * 4096 % Region(sc, level) == 0
      then w.Found? && PhysicalAddress(sc, w.pte, w.level, va) == frame * 4096 + va % Region(sc, level)
      else if flags == 1 && level > 0 then w == WalkFrom(sc, m, frame, va, level - 1)
      else w.Fault?
  {
    hide Valid, Leaf, EntryAddress, EntryPlace, ReadN, Region, Span;
    var entry := frame * 1024 + flags;
    EntryFields(sc, frame, flags);
    Places(sc, table, va, level);
    FlagsMean(entry);
    Alignment(sc, entry, level);
    Regions(sc, level);
  }

  lemma EntryFields(sc: Scheme, frame: nat, flags: nat)
    requires flags < 16 && frame < if sc == Sv32 then 0x40_0000 else 0x1000_0000_0000
    ensures var entry := frame * 1024 + flags; entry % 16 == flags && Frame(sc, entry) == frame
  {
    ModUnique(frame * 1024 + flags, 16, 64 * frame, flags);
    ModUnique(frame * 1024 + flags, 1024, frame, flags);
  }

  // ----- satp -----

  /**
    The MMU, `mxl` being 1 on the 32-bit machine. The fields of satp are the mode (one bit, or four), the
    address space and the page of the root table. Any other mode than 0 and 8 faults.
   */
  lemma MmuFollows(m: Mem, mxl: int, priv: Privilege, mode: nat, asid: nat, root: nat, va: u64, write: bool)
    requires if mxl == 1 then mode < 2 && asid < 512 && root < 0x40_0000
             else mode < 16 && asid < 0x1_0000 && root < 0x1000_0000_0000
    ensures var satp := if mxl == 1 then mode * 0x8000_0000 + asid * 0x40_0000 + root
                        else mode * 0x1000_0000_0000_0000 + asid * 0x1000_0000_0000 + root;
      satp < TWO64 &&
      var t := Translate(m, ModeOf(mxl, priv, satp), va, write);
      if priv.Machine? || mode == 0 then t == Translation(false, va, m)
      else if mxl == 1 then Follows(Sv32, m, root, va, write, t)
      else if mode == 8 then Follows(Sv39, m, root, va, write, t)
      else t == Translation(true, va, m)
  {
    hide TranslateBy, Follows;
    TranslationFollows(if mxl == 1 then Sv32 else Sv39, m, root, va, write);
  }

  // ----- a page that may only be executed -----

  /** Zeros, but for an entry at the start of page 4 with V and X set. */
  ghost function ExecuteOnly(): Mem { seq(SIZE, x requires 0 <= x < SIZE => if x == 0x4000 then 9 else 0) }

  /** It maps the addresses under the first entry of the root table to themselves. */
  lemma ExecuteOnlyTranslates(sc: Scheme, va: u64, write: bool)
    requires va < Region(sc, sc.Levels - 1)
    ensures var t := TranslateBy(sc, ExecuteOnly(), 4, va, write); !t.fault && t.pa == va
  {
    hide TranslateBy, Lookup, ExecuteOnly, Accessed, Region;
    FirstEntry(ExecuteOnly(), EntryBytes(sc));
    OneEntry(sc, ExecuteOnly(), va);
    TopRegion(sc);
    TranslationFollows(sc, ExecuteOnly(), 4, va, write);
  }

  lemma TopRegion(sc: Scheme)
    ensures Region(sc, sc.Levels - 1) <= 0x4000_0000
  {
    Regions(sc, sc.Levels - 1);
  }

  lemma OneEntry(sc: Scheme, m: Mem, va: u64)
    requires va < Region(sc, sc.Levels - 1) && ReadN(m, 0x4000, EntryBytes(sc)) == 9
    ensures Lookup(sc, m, 4, va, sc.Levels - 1) == Page(0x4000, va)
  {
    hide ReadN, Region, EntryPlace;
    var n := Region(sc, sc.Levels - 1);
    ModUnique(va, n, 0, va);
    ModUnique(0, n, 0, 0);
    FirstPlace(sc, va);
    assert 9 / 1024 == 0;
  }

  lemma FirstPlace(sc: Scheme, va: u64)
    requires va / Region(sc, sc.Levels - 1) == 0
    ensures EntryPlace(sc, 4, va, sc.Levels - 1) == 0x4000
  {
    hide Region;
  }

  lemma FirstEntry(m: Mem, n: nat)
    requires 0 < n <= 8 && m == ExecuteOnly()
    ensures ReadN(m, 0x4000, n) == 9
  {
    assert m[0x4000] == 9 && forall x :: 0x4001 <= x < 0x4009 ==> m[x] == 0;
    hide ExecuteOnly;
    ReadZeros(m, 0x4001, n - 1);
    assert 0x4000 % SIZE == 0x4000;
  }
}
