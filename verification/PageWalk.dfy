/**
  Address translation by section 4.3.2 of the RISC-V Privileged Architecture, without the permission
  check, as one recursion for Sv32 and Sv39.
 */
module PageWalk {
  import opened Words
  import opened FlatMemory
  import opened PageTableEntry

  const PAGE_SIZE := 4096

  datatype Scheme = Sv32 | Sv39 {
    const Levels: nat := if this == Sv32 then 2 else 3
    const PteSize: nat := if this == Sv32 then 4 else 8
  }

  /** Number of base pages below one entry of the given level. */
  function Span(sc: Scheme, level: nat): (n: nat)
    ensures n > 0
  {
    match sc
    case Sv32 => if level == 0 then 1 else 0x400
    case Sv39 => if level == 0 then 1 else if level == 1 then 0x200 else 0x4_0000
  }

  /** va.vpn[level] */
  function Vpn(sc: Scheme, va: nat, level: nat): nat
  {
    match sc
    case Sv32 => if level == 0 then (va / 0x1000) % 0x400 else (va / 0x40_0000) % 0x400
    case Sv39 => if level == 0 then (va / 0x1000) % 0x200
                 else if level == 1 then (va / 0x20_0000) % 0x200 else (va / 0x4000_0000) % 0x200
  }

  /** pte.ppn: 22 bits in Sv32, 44 bits in Sv39. */
  function Ppn(sc: Scheme, pte: nat): nat
  {
    match sc
    case Sv32 => Ppn22(pte)
    case Sv39 => Ppn44(pte)
  }

  function EntryAddress(sc: Scheme, ppn: nat, va: nat, level: nat): nat
  {
    ppn * PAGE_SIZE + Vpn(sc, va, level) * sc.PteSize
  }

  /** A leaf above level 0 must start at a multiple of its own size. */
  predicate Aligned(sc: Scheme, pte: nat, level: nat) { Ppn(sc, pte) % Span(sc, level) == 0 }

  datatype Walk = Fault | Found(address: nat, pte: nat, level: nat)

  /** Steps 2 to 6: follow the tables from the one in page `ppn`. */
  function WalkFrom(sc: Scheme, m: Mem, ppn: nat, va: nat, level: nat): Walk
    decreases level
  {
    var address := EntryAddress(sc, ppn, va, level);
    var pte := ReadN(m, address, sc.PteSize);
    if !Valid(pte) then Fault
    else if Leaf(pte) then
      if Aligned(sc, pte, level) then Found(address % SIZE, pte, level) else Fault
    else if level == 0 then Fault
    else WalkFrom(sc, m, Ppn(sc, pte), va, level - 1)
  }

  /** Step 8: the bits of the address below the page size of the level come from the virtual address. */
  function PhysicalAddress(sc: Scheme, pte: nat, level: nat, va: nat): nat
  {
    Ppn(sc, pte) * PAGE_SIZE + va % (Span(sc, level) * PAGE_SIZE)
  }

  datatype Translation = Translation(fault: bool, pa: nat, mem: Mem)

  /** Steps 1 to 8 for the table in page `root`: the access bits are written back on success only. */
  function TranslateBy(sc: Scheme, m: Mem, root: nat, va: u64, write: bool): Translation
  {
    match WalkFrom(sc, m, root, va, sc.Levels - 1)
    case Fault => Translation(true, va, m)
    case Found(address, pte, level) =>
      var pa := PhysicalAddress(sc, pte, level, va);
      Translation(false, if sc == Sv32 then pa % SIZE else pa, WriteN(m, address, WithAccess(pte, write), sc.PteSize))
  }

  datatype Privilege = User | Supervisor | Machine

  /** What `satp` selects. */
  datatype Mode = Bare | Unsupported | Paged(sc: Scheme, root: nat)

  function ModeOf(mxl: int, priv: Privilege, satp: u64): Mode
  {
    if priv == Machine then Bare
    else if mxl == 1 then
      if (satp / TWO31) % 2 == 0 then Bare else Paged(Sv32, satp % 0x40_0000)
    else
      var mode := satp / 0x1000_0000_0000_0000;
      if mode == 0 then Bare else if mode != 8 then Unsupported else Paged(Sv39, satp % 0x1000_0000_0000)
  }

  function Translate(m: Mem, mode: Mode, va: u64, write: bool): Translation
  {
    match mode
    case Bare => Translation(false, va, m)
    case Unsupported => Translation(true, va, m)
    case Paged(sc, root) => TranslateBy(sc, m, root, va, write)
  }

  // ----- the write-back of the access bits is invisible to translation -----

  /** What translation can see of the byte at address `a`: not bits 6 and 7 of an entry's first byte. */
  function Visible(size: nat, a: nat, b: byte): byte
    requires size > 0
  {
    if a % size == 0 then b % 64 else b
  }

  ghost predicate SameTables(size: nat, m: Mem, m': Mem)
    requires size > 0
  {
    forall a :: 0 <= a < SIZE ==> Visible(size, a, m[a]) == Visible(size, a, m'[a])
  }

  /** Two entries that differ at most in A and D. */
  predicate SameEntry(p: nat, q: nat) { p / 256 == q / 256 && p % 64 == q % 64 }

  lemma SameEntryFields(sc: Scheme, p: nat, q: nat)
    requires SameEntry(p, q)
    ensures Valid(p) == Valid(q) && Leaf(p) == Leaf(q) && Ppn(sc, p) == Ppn(sc, q)
  {
    LowFields(p); LowFields(q);
    assert p / 1024 == p / 256 / 4 && q / 1024 == q / 256 / 4;
  }

  lemma LowFields(p: nat)
    ensures p % 2 == (p % 64) % 2 && (p / 2) % 2 == (p % 64 / 2) % 2
    ensures (p / 4) % 2 == (p % 64 / 4) % 2 && (p / 8) % 2 == (p % 64 / 8) % 2
  {
    var q, r := p / 64, p % 64;
    Even(32 * q, r);
    assert p / 2 == 32 * q + r / 2;
    Even(16 * q, r / 2);
    assert p / 4 == 16 * q + r / 4;
    Even(8 * q, r / 4);
    assert p / 8 == 8 * q + r / 8;
    Even(4 * q, r / 8);
  }

  lemma Even(q: nat, r: nat)
    ensures (2 * q + r) % 2 == r % 2
  {}

  lemma EntryAligned(sc: Scheme, ppn: nat, va: nat, level: nat)
    ensures EntryAddress(sc, ppn, va, level) % sc.PteSize == 0
    ensures EntryAddress(sc, ppn, va, level) % SIZE % sc.PteSize == 0
  {
    var v := Vpn(sc, va, level);
    match sc
    case Sv32 => Multiple(4, ppn * 1024 + v);
    case Sv39 => Multiple(8, ppn * 512 + v);
  }

  lemma Multiple(n: nat, k: nat)
    requires n in {4, 8}
    ensures (n * k) % n == 0 && (n * k) % SIZE % n == 0
  {
    if n == 4 {
      ModUnique(4 * k, 4, k, 0);
      ModUnique(4 * k % SIZE, 4, k - 4 * k / SIZE * 0x4000_0000, 0);
    } else {
      ModUnique(8 * k, 8, k, 0);
      ModUnique(8 * k % SIZE, 8, k - 8 * k / SIZE * 0x2000_0000, 0);
    }
  }

  /** The entry at `a` looks the same to translation in both memories. */
  ghost predicate SameAt(size: nat, m: Mem, m': Mem, a: nat)
    requires size > 0
  {
    forall x :: 0 <= x < SIZE && Off(x, a) < size ==> Visible(size, x, m[x]) == Visible(size, x, m'[x])
  }

  lemma SameByteAt(size: nat, m: Mem, m': Mem, a: nat, k: nat)
    requires size > 0 && k < size <= SIZE && SameAt(size, m, m', a)
    ensures Visible(size, (a + k) % SIZE, ByteAt(m, a, k)) == Visible(size, (a + k) % SIZE, ByteAt(m', a, k))
  {
    OffBack(a, k);
  }

  lemma SameBytes(n: nat, m: Mem, m': Mem, a: nat, k: nat)
    requires n in {4, 8} && k < n && SameAt(n, m, m', a) && a % n == 0
    ensures if k == 0 then ByteAt(m, a, 0) % 64 == ByteAt(m', a, 0) % 64 else ByteAt(m, a, k) == ByteAt(m', a, k)
  {
    hide SameAt;
    SameByteAt(n, m, m', a, k);
    if k == 0 { FirstByte(n, a); } else { NotFirstByte(n, a, k); }
  }

  lemma SameAtSameEntry(sc: Scheme, m: Mem, m': Mem, a: nat)
    requires SameAt(sc.PteSize, m, m', a) && a % sc.PteSize == 0
    ensures SameEntry(ReadN(m, a, sc.PteSize), ReadN(m', a, sc.PteSize))
  {
    hide SameAt, ByteAt, SameEntry, ReadN;
    var n := sc.PteSize;
    var b := a + 1;
    forall k | 0 <= k < n - 1 ensures ByteAt(m, b, k) == ByteAt(m', b, k) {
      SameBytes(n, m, m', a, k + 1);
      Shifted(m, a, k); Shifted(m', a, k);
    }
    ReadCongruent(m, m', b, b, n - 1);
    SameBytes(n, m, m', a, 0);
    LowerAndRest(m, a, n); LowerAndRest(m', a, n);
    SameFromParts(ByteAt(m, a, 0), ByteAt(m', a, 0), ReadN(m, b, n - 1));
  }

  lemma SameFromParts(b: byte, b': byte, rest: nat)
    requires b % 64 == b' % 64
    ensures SameEntry(b + 0x100 * rest, b' + 0x100 * rest)
  {
    LowByteOf(b, rest);
    LowByteOf(b', rest);
  }

  lemma Shifted(m: Mem, a: nat, k: nat)
    ensures ByteAt(m, a + 1, k) == ByteAt(m, a, k + 1)
  {}

  lemma LowerAndRest(m: Mem, a: nat, n: nat)
    requires n > 0
    ensures ReadN(m, a, n) == ByteAt(m, a, 0) + 0x100 * ReadN(m, a + 1, n - 1)
  {}

  lemma FirstByte(n: nat, a: nat)
    requires n in {4, 8} && a % n == 0
    ensures a % SIZE % n == 0
  {}

  lemma LowByteOf(b: byte, rest: nat)
    ensures (b + 256 * rest) / 256 == rest && (b + 256 * rest) % 64 == b % 64
  {
    ModUnique(b + 256 * rest, 256, rest, b);
    ModUnique(b + 256 * rest, 64, 4 * rest + b / 64, b % 64);
  }

  lemma NotFirstByte(n: nat, a: nat, k: nat)
    requires n in {4, 8} && a % n == 0 && 0 < k < n
    ensures (a + k) % SIZE % n == k
  {}

  predicate SameWalk(w: Walk, w': Walk)
  {
    && w.Fault? == w'.Fault?
    && (w.Found? ==> w.address == w'.address && w.level == w'.level && SameEntry(w.pte, w'.pte))
  }

  /** Address `x` belongs to an entry the walk reads. */
  predicate Uses(sc: Scheme, m: Mem, ppn: nat, va: nat, level: nat, x: nat)
    decreases level
  {
    var address := EntryAddress(sc, ppn, va, level);
    var pte := ReadN(m, address, sc.PteSize);
    || Off(x, address) < sc.PteSize
    || (Valid(pte) && !Leaf(pte) && level > 0 && Uses(sc, m, Ppn(sc, pte), va, level - 1, x))
  }

  /** The entries a walk reads look the same to translation in both memories. */
  ghost predicate SameWhereUsed(sc: Scheme, m: Mem, m': Mem, ppn: nat, va: nat, level: nat)
  {
    forall x :: 0 <= x < SIZE && Uses(sc, m, ppn, va, level, x) ==> Visible(sc.PteSize, x, m[x]) == Visible(sc.PteSize, x, m'[x])
  }

  lemma SameStep(sc: Scheme, m: Mem, m': Mem, ppn: nat, va: nat, level: nat) returns (p: nat, p': nat)
    requires SameWhereUsed(sc, m, m', ppn, va, level)
    ensures var address := EntryAddress(sc, ppn, va, level);
      p == ReadN(m, address, sc.PteSize) && p' == ReadN(m', address, sc.PteSize)
    ensures SameEntry(p, p')
    ensures Valid(p) == Valid(p') && Leaf(p) == Leaf(p') && Ppn(sc, p) == Ppn(sc, p')
    ensures Valid(p) && !Leaf(p) && level > 0 ==> SameWhereUsed(sc, m, m', Ppn(sc, p), va, level - 1)
  {
    hide Valid, Leaf, Ppn, SameEntry, ReadN, EntryAddress, Visible;
    var address := EntryAddress(sc, ppn, va, level);
    EntryAligned(sc, ppn, va, level);
    assert SameAt(sc.PteSize, m, m', address);
    SameAtSameEntry(sc, m, m', address);
    p, p' := ReadN(m, address, sc.PteSize), ReadN(m', address, sc.PteSize);
    SameEntryFields(sc, p, p');
  }

  /** A walk depends only on what translation can see of the entries it reads. */
  lemma {:induction false} WalkLocal(sc: Scheme, m: Mem, m': Mem, ppn: nat, va: nat, level: nat)
    requires SameWhereUsed(sc, m, m', ppn, va, level)
    ensures SameWalk(WalkFrom(sc, m, ppn, va, level), WalkFrom(sc, m', ppn, va, level))
    decreases level
  {
    hide Valid, Leaf, Ppn, SameWhereUsed, EntryAddress, ReadN, Span, SameEntry;
    var p, p' := SameStep(sc, m, m', ppn, va, level);
    if !Valid(p) {
      assert WalkFrom(sc, m, ppn, va, level).Fault? && WalkFrom(sc, m', ppn, va, level).Fault?;
    } else if Leaf(p) {
      assert Aligned(sc, p, level) == Aligned(sc, p', level);
    } else if level > 0 {
      WalkLocal(sc, m, m', Ppn(sc, p), va, level - 1);
    }
  }

  /** The entry a walk ends at is one of those it uses. */
  lemma {:induction false} FoundIsUsed(sc: Scheme, m: Mem, ppn: nat, va: nat, level: nat, x: nat)
    requires var w := WalkFrom(sc, m, ppn, va, level); w.Found? && Off(x, w.address) < sc.PteSize
    ensures Uses(sc, m, ppn, va, level, x)
    decreases level
  {
    var address := EntryAddress(sc, ppn, va, level);
    var pte := ReadN(m, address, sc.PteSize);
    OffOfReduced(x, address);
    if Valid(pte) && !Leaf(pte) && level > 0 {
      FoundIsUsed(sc, m, Ppn(sc, pte), va, level - 1, x);
    }
  }

  lemma OffOfReduced(x: nat, a: nat)
    ensures Off(x, a % SIZE) == Off(x, a)
  {}

  lemma {:induction false} FoundIsEntry(sc: Scheme, m: Mem, ppn: nat, va: nat, level: nat)
    ensures var w := WalkFrom(sc, m, ppn, va, level);
      w.Found? ==> && w.address < SIZE && w.address % sc.PteSize == 0 && w.level <= level
                   && w.pte == ReadN(m, w.address, sc.PteSize) && Valid(w.pte) && Leaf(w.pte)
                   && Aligned(sc, w.pte, w.level)
    decreases level
  {
    var address := EntryAddress(sc, ppn, va, level);
    EntryAligned(sc, ppn, va, level);
    ReadAlias(m, address, address % SIZE, sc.PteSize);
    var pte := ReadN(m, address, sc.PteSize);
    if Valid(pte) && !Leaf(pte) && level > 0 {
      FoundIsEntry(sc, m, Ppn(sc, pte), va, level - 1);
    }
  }

  /** Writing an entry back with other access bits changes nothing a walk can see. */
  lemma WriteBackSame(sc: Scheme, m: Mem, a: nat, v: nat)
    requires a % sc.PteSize == 0 && SameEntry(ReadN(m, a, sc.PteSize), v)
    ensures SameTables(sc.PteSize, m, WriteN(m, a, v, sc.PteSize))
  {
    forall x | 0 <= x < SIZE
      ensures Visible(sc.PteSize, x, m[x]) == Visible(sc.PteSize, x, WriteN(m, a, v, sc.PteSize)[x])
    {
      WriteBackSameAt(sc.PteSize, m, a, v, x);
    }
  }

  lemma WriteBackSameAt(n: nat, m: Mem, a: nat, v: nat, x: nat)
    requires n in {4, 8} && x < SIZE && a % n == 0 && SameEntry(ReadN(m, a, n), v)
    ensures Visible(n, x, m[x]) == Visible(n, x, WriteN(m, a, v, n)[x])
  {
    hide ReadN, WriteN, ByteOf, Off;
    var p, o := ReadN(m, a, n), Off(x, a);
    WriteAt(m, a, v, n, x);
    if o < n {
      OffIsOffset(x, a);
      ReadAt(m, a, n, o);
      if o == 0 { LowByte(p); LowByte(v); FirstByte(n, a); } else { UpperBytes(p, v, o); }
    }
  }

  lemma LowByte(p: nat)
    ensures ByteOf(p, 0) % 64 == p % 64
  {
    assert p == 64 * (4 * (p / 256)) + p % 256;
    assert p % 256 == 64 * (p % 256 / 64) + p % 256 % 64;
  }

  lemma UpperBytes(p: nat, q: nat, k: nat)
    requires k > 0 && p / 256 == q / 256
    ensures ByteOf(p, k) == ByteOf(q, k)
  {}

  lemma OffIsOffset(x: nat, a: nat)
    requires x < SIZE
    ensures (a + Off(x, a)) % SIZE == x
  {}

  lemma SameTablesTransitive(size: nat, m: Mem, m': Mem, m'': Mem)
    requires size > 0 && SameTables(size, m, m') && SameTables(size, m', m'')
    ensures SameTables(size, m, m'')
  {
    forall a | 0 <= a < SIZE ensures Visible(size, a, m[a]) == Visible(size, a, m''[a]) {
      assert Visible(size, a, m[a]) == Visible(size, a, m'[a]);
      assert Visible(size, a, m'[a]) == Visible(size, a, m''[a]);
    }
  }

  /** A translation changes memory in access bits only. */
  lemma TranslateKeepsTables(sc: Scheme, m: Mem, root: nat, va: u64, write: bool)
    ensures SameTables(sc.PteSize, m, TranslateBy(sc, m, root, va, write).mem)
  {
    FoundIsEntry(sc, m, root, va, sc.Levels - 1);
    match WalkFrom(sc, m, root, va, sc.Levels - 1)
    case Fault =>
    case Found(address, pte, level) =>
      AccessBits(pte, write);
      WriteBackSame(sc, m, address, WithAccess(pte, write));
  }

  /** The same entries are used in both memories. */
  lemma {:induction false} UsesSame(sc: Scheme, m: Mem, m': Mem, ppn: nat, va: nat, level: nat, x: nat)
    requires SameWhereUsed(sc, m, m', ppn, va, level)
    ensures Uses(sc, m, ppn, va, level, x) == Uses(sc, m', ppn, va, level, x)
    decreases level
  {
    hide Valid, Leaf, Ppn, ReadN, SameWhereUsed, EntryAddress;
    var p, p' := SameStep(sc, m, m', ppn, va, level);
    if Valid(p) && !Leaf(p) && level > 0 {
      UsesSame(sc, m, m', Ppn(sc, p), va, level - 1, x);
    }
  }

  /** A translation writes only into an entry its walk uses. */
  lemma TranslateWritesUsed(sc: Scheme, m: Mem, root: nat, va: u64, write: bool, x: nat)
    requires x < SIZE && TranslateBy(sc, m, root, va, write).mem[x] != m[x]
    ensures Uses(sc, m, root, va, sc.Levels - 1, x)
  {
    hide WalkFrom, WithAccess, WriteN, Uses, Ppn, Span;
    match WalkFrom(sc, m, root, va, sc.Levels - 1)
    case Fault =>
    case Found(address, pte, level) =>
      WriteAt(m, address, WithAccess(pte, write), sc.PteSize, x);
      FoundIsUsed(sc, m, root, va, sc.Levels - 1, x);
  }

  /** A translation depends only on what translation can see of the entries its walk reads. */
  lemma TranslateLocal(sc: Scheme, m: Mem, m': Mem, root: nat, va: u64, write: bool)
    requires SameWhereUsed(sc, m, m', root, va, sc.Levels - 1)
    ensures var t, t' := TranslateBy(sc, m, root, va, write), TranslateBy(sc, m', root, va, write);
      t.fault == t'.fault && t.pa == t'.pa
  {
    hide WalkFrom, SameWhereUsed, SameEntry, WithAccess, WriteN, Ppn, Span;
    WalkLocal(sc, m, m', root, va, sc.Levels - 1);
    var w, w' := WalkFrom(sc, m, root, va, sc.Levels - 1), WalkFrom(sc, m', root, va, sc.Levels - 1);
    if w.Found? { SameEntryFields(sc, w.pte, w'.pte); }
  }

  lemma TranslateSame(sc: Scheme, m: Mem, m': Mem, root: nat, va: u64, write: bool)
    requires SameTables(sc.PteSize, m, m')
    ensures var t, t' := TranslateBy(sc, m, root, va, write), TranslateBy(sc, m', root, va, write);
      t.fault == t'.fault && t.pa == t'.pa
  {
    hide TranslateBy, Uses, Visible;
    TranslateLocal(sc, m, m', root, va, write);
  }

  // ----- Sv39 looks at 39 bits -----

  const TWO39 := 0x80_0000_0000

  lemma SameVpn39(va: nat, va': nat, level: nat)
    requires va % TWO39 == va' % TWO39 && level < 3
    ensures Vpn(Sv39, va, level) == Vpn(Sv39, va', level)
    ensures va % (Span(Sv39, level) * PAGE_SIZE) == va' % (Span(Sv39, level) * PAGE_SIZE)
  {
    Fields39(va);
    Fields39(va');
  }

  /** The fields of an address are those of its low 39 bits. */
  lemma Fields39(va: nat)
    ensures (va / 0x1000) % 0x200 == (va % TWO39 / 0x1000) % 0x200 && (va / 0x20_0000) % 0x200 == (va % TWO39 / 0x20_0000) % 0x200
    ensures (va / 0x4000_0000) % 0x200 == (va % TWO39 / 0x4000_0000) % 0x200
    ensures va % 0x1000 == va % TWO39 % 0x1000 && va % 0x20_0000 == va % TWO39 % 0x20_0000 && va % 0x4000_0000 == va % TWO39 % 0x4000_0000
  {
    var q, r := va / TWO39, va % TWO39;
    Field(q, r, 0x1000, 0x800_0000);
    Field(q, r, 0x20_0000, 0x4_0000);
    Field(q, r, 0x4000_0000, 0x200);
  }

  lemma Field(q: nat, r: nat, p: nat, k: nat)
    requires p > 0 && p * k == TWO39 && k % 0x200 == 0
    ensures ((q * TWO39 + r) / p) % 0x200 == (r / p) % 0x200 && (q * TWO39 + r) % p == r % p
  {
    assert q * TWO39 == (q * k) * p;
    assert (q * k + r / p) * p == (q * k) * p + r / p * p;
    ModUnique(q * TWO39 + r, p, q * k + r / p, r % p);
    var d, e := q * (k / 0x200), r / p;
    assert q * k == d * 0x200 by { assert k == k / 0x200 * 0x200; }
    ModUnique(d * 0x200 + e, 0x200, d + e / 0x200, e % 0x200);
  }

  /**
    The code does not ask for canonical addresses: addresses equal modulo 2^39 have the same walk, and,
    where they translate, the same translation.
   */
  lemma {:induction false} NotCanonical(m: Mem, ppn: nat, va: nat, va': nat, level: nat)
    requires va % TWO39 == va' % TWO39 && level < 3
    ensures WalkFrom(Sv39, m, ppn, va, level) == WalkFrom(Sv39, m, ppn, va', level)
    decreases level
  {
    hide Valid, Leaf, Ppn, ReadN, Vpn, Aligned;
    SameVpn39(va, va', level);
    var pte := ReadN(m, EntryAddress(Sv39, ppn, va, level), 8);
    if Valid(pte) && !Leaf(pte) && level > 0 { NotCanonical(m, Ppn(Sv39, pte), va, va', level - 1); }
  }

  lemma NotCanonicalTranslation(m: Mem, root: nat, va: u64, va': u64, write: bool)
    requires va % TWO39 == va' % TWO39
    ensures var t, t' := TranslateBy(Sv39, m, root, va, write), TranslateBy(Sv39, m, root, va', write);
      t.fault == t'.fault && (!t.fault ==> t == t')
  {
    hide WalkFrom, Ppn, WithAccess, WriteN, Span;
    NotCanonical(m, root, va, va', 2);
    match WalkFrom(Sv39, m, root, va, 2)
    case Fault =>
    case Found(_, _, level) => FoundLevel(m, root, va, 2); SameVpn39(va, va', level);
  }

  lemma {:induction false} FoundLevel(m: Mem, ppn: nat, va: nat, level: nat)
    ensures var w := WalkFrom(Sv39, m, ppn, va, level); w.Found? ==> w.level <= level
    decreases level
  {
    hide Valid, Leaf, Ppn, ReadN, Vpn, Aligned;
    if level > 0 { FoundLevel(m, Ppn(Sv39, ReadN(m, EntryAddress(Sv39, ppn, va, level), 8)), va, level - 1); }
  }

  // ----- a page, of whatever size, is mapped as one piece -----

  function PageBytes(sc: Scheme, level: nat): (n: nat)
    ensures n in {0x1000, 0x20_0000, 0x40_0000, 0x4000_0000}
  {
    Span(sc, level) * PAGE_SIZE
  }

  lemma SameVpn(sc: Scheme, va: nat, va': nat, low: nat, level: nat)
    requires low <= level && va / PageBytes(sc, low) == va' / PageBytes(sc, low)
    ensures Vpn(sc, va, level) == Vpn(sc, va', level)
  {
    Quotients(va); Quotients(va');
  }

  lemma Quotients(va: nat)
    ensures va / 0x20_0000 == va / 0x1000 / 0x200 && va / 0x40_0000 == va / 0x1000 / 0x400
    ensures va / 0x4000_0000 == va / 0x1000 / 0x4_0000 && va / 0x4000_0000 == va / 0x20_0000 / 0x200
  {}

  lemma {:induction false} SamePageSameWalk(sc: Scheme, m: Mem, ppn: nat, va: nat, va': nat, level: nat)
    requires var w := WalkFrom(sc, m, ppn, va, level);
      w.Found? && va / PageBytes(sc, w.level) == va' / PageBytes(sc, w.level)
    ensures WalkFrom(sc, m, ppn, va', level) == WalkFrom(sc, m, ppn, va, level)
    decreases level
  {
    hide Valid, Leaf, Ppn, Aligned, Vpn, PageBytes, ReadN;
    var w := WalkFrom(sc, m, ppn, va, level);
    FoundIsEntry(sc, m, ppn, va, level);
    SameVpn(sc, va, va', w.level, level);
    var pte := ReadN(m, EntryAddress(sc, ppn, va, level), sc.PteSize);
    if !Leaf(pte) && level > 0 {
      SamePageSameWalk(sc, m, Ppn(sc, pte), va, va', level - 1);
    }
  }

  lemma SamePageOffset(n: nat, va: nat, va': nat)
    requires n > 0 && va / n == va' / n
    ensures va' % n - va % n == va' - va
  {
    var q := va / n;
    assert va == q * n + va % n && va' == q * n + va' % n;
  }

  /** Inside one page, also a superpage, the physical addresses are as far apart as the virtual ones. */
  lemma PageContiguous(sc: Scheme, m: Mem, root: nat, va: u64, d: nat, write: bool)
    requires va + d < TWO64
    requires var w := WalkFrom(sc, m, root, va, sc.Levels - 1);
      w.Found? && va / PageBytes(sc, w.level) == (va + d) / PageBytes(sc, w.level)
    ensures var t, t' := TranslateBy(sc, m, root, va, write), TranslateBy(sc, m, root, va + d, write);
      !t.fault && !t'.fault && t'.mem == t.mem && t'.pa % SIZE == (t.pa + d) % SIZE
      && (sc == Sv39 ==> t'.pa == t.pa + d)
  {
    hide WalkFrom, Ppn, Span, WithAccess, WriteN;
    var w := WalkFrom(sc, m, root, va, sc.Levels - 1);
    SamePageSameWalk(sc, m, root, va, va + d, sc.Levels - 1);
    SamePageOffset(PageBytes(sc, w.level), va, va + d);
    assert PhysicalAddress(sc, w.pte, w.level, va + d) == PhysicalAddress(sc, w.pte, w.level, va) + d;
    AddReduced(PhysicalAddress(sc, w.pte, w.level, va), d);
  }

  lemma AddReduced(x: nat, d: nat)
    ensures (x % SIZE + d) % SIZE == (x + d) % SIZE && x % SIZE % SIZE == x % SIZE
    ensures (x + d) % SIZE % SIZE == (x + d) % SIZE
  {}

  /** One request to the MMU. Different requests may be made under different values of satp. */
  datatype Request = Request(root: nat, va: u64, write: bool)

  function AfterRequests(sc: Scheme, m: Mem, rs: seq<Request>): Mem
    decreases |rs|
  {
    if rs == [] then m
    else AfterRequests(sc, TranslateBy(sc, m, rs[0].root, rs[0].va, rs[0].write).mem, rs[1..])
  }

  lemma {:induction false} RequestsKeepTables(sc: Scheme, m: Mem, rs: seq<Request>)
    ensures SameTables(sc.PteSize, m, AfterRequests(sc, m, rs))
    decreases |rs|
  {
    if rs != [] {
      var m' := TranslateBy(sc, m, rs[0].root, rs[0].va, rs[0].write).mem;
      TranslateKeepsTables(sc, m, rs[0].root, rs[0].va, rs[0].write);
      RequestsKeepTables(sc, m', rs[1..]);
      SameTablesTransitive(sc.PteSize, m, m', AfterRequests(sc, m, rs));
    }
  }

  /**
    However many translations came before, through whatever tables, in whatever order, even where the
    tables map themselves: a translation gives the address or the fault it would have given at once.
   */
  lemma WriteBackInvisible(sc: Scheme, m: Mem, rs: seq<Request>, r: Request)
    ensures var t, t' := TranslateBy(sc, m, r.root, r.va, r.write),
                         TranslateBy(sc, AfterRequests(sc, m, rs), r.root, r.va, r.write);
      t.fault == t'.fault && t.pa == t'.pa
  {
    RequestsKeepTables(sc, m, rs);
    TranslateSame(sc, m, AfterRequests(sc, m, rs), r.root, r.va, r.write);
  }
}
