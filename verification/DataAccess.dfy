/**
  Loads and stores of any width at any alignment: split at 8-byte boundaries, untranslated and
  through page tables.
 */
module DataAccess {
  import opened Words
  import opened FlatMemory
  import opened PageWalk
  import opened Decoder
  import opened Alu
  import opened CpuModel
  import P = Privileged

  // ----- the split of an access -----

  lemma {:induction false} LowBytesKept(v: nat, n: nat, k: nat)
    requires k < n
    ensures ByteOf(v % Pow256(n), k) == ByteOf(v, k)
    decreases n
  {
    var p := Pow256(n - 1);
    ModStep(v, p);
    var q := (v / 0x100) % p;
    assert (v % 0x100 + 0x100 * q) % 0x100 == v % 0x100 && (v % 0x100 + 0x100 * q) / 0x100 == q;
    if k > 0 { LowBytesKept(v / 0x100, n - 1, k - 1); }
  }

  /** The two halves of a split store amount to one store. */
  lemma SplitWrite(m: Mem, a: nat, b: nat, v: u64, n: nat, k: nat)
    requires b % SIZE == (a + n) % SIZE
    ensures WriteN(WriteN(m, a, StoreData(v, n), n), b, Drop(v, n), k) == WriteN(m, a, v, n + k)
  {
    hide WriteN, Drop, Pow256;
    if n < 4 {
      forall i | 0 <= i < n ensures ByteOf(StoreData(v, n), i) == ByteOf(v, i) { LowBytesKept(v, n, i); }
    }
    WriteTruncated(m, a, StoreData(v, n), v, n);
    WriteSplit(m, a, v, n, k);
    WriteAlias(WriteN(m, a, v, n), b, a + n, Drop(v, n), k);
  }

  lemma SplitRead(m: Mem, a: nat, b: nat, n: nat, k: nat)
    requires n + k <= 8 && b % SIZE == (a + n) % SIZE
    ensures Joined(m, m, a, b, n, k) == ReadN(m, a, n + k)
  {
    hide ReadN, Pow256;
    ReadSplit(m, a, n, k);
    ReadAlias(m, b, a + n, k);
  }

  lemma Wrapped(a: nat, n: nat)
    ensures Wrap64(a + n) % SIZE == (a + n) % SIZE
  {}

  // ----- untranslated accesses -----

  /** Addresses are used as they are: machine mode, or satp selects no translation. */
  predicate Bare(s: State)
  {
    && !s.pageFault && !s.aborted
    && EffectivePrivilege(s.sys).Mode? && TranslationMode(s, EffectivePrivilege(s.sys).priv).Bare?
  }

  lemma BareTranslation(s: State, va: u64, write: bool)
    requires Bare(s)
    ensures VirtualToPhysical(s, va, write) == Access(va, s) && !s.aborted && !s.pageFault
  {
    hide EffectivePrivilege, ModeOf;
  }

  lemma BareElsewhere(s: State, m: Mem)
    requires Bare(s)
    ensures Bare(SetMem(s, m)) && SetMem(s, m).mem == m && SetMem(s, m).dev == s.dev
    ensures forall m': Mem :: SetMem(SetMem(s, m), m') == SetMem(s, m')
  {
    hide EffectivePrivilege, ModeOf;
  }

  lemma SingleWrite(m: Mem, a: nat, v: u64, n: nat)
    ensures WriteN(m, a, StoreData(v, n), n) == WriteN(m, a, v, n)
  {
    hide WriteN, Drop, Pow256;
    SplitWrite(m, a, a + n, v, n, 0);
    NothingWritten(WriteN(m, a, StoreData(v, n), n), a + n, Drop(v, n));
  }

  lemma NothingWritten(m: Mem, a: nat, v: nat)
    ensures WriteN(m, a, v, 0) == m
  {}

  /** A store writes the bytes of its width at its address, whatever the alignment. */
  lemma StoreBare(s: State, op: Op, value: u64, base: u64, imm: int)
    requires IsStore(op) && Bare(s)
    ensures var va, width := Wrap64(base + imm), AccessWidthOf(op);
      Store(s, op, value, base, imm) == SetDev(SetMem(s, WriteN(s.mem, va, value, width)), CheckDeviceWrite(s.dev, va, width, value))
  {
    hide Bare, VirtualToPhysical, WriteN, Drop, GetAccessWidth, AccessWidthOf, CheckDeviceWrite, KindOf, StoreData, Wrap64, SetMem, SetDev, Trap;
    var va, width := Wrap64(base + imm), AccessWidthOf(op);
    AccessWidthBounds(width, va);
    var n := GetAccessWidth(width, va);
    BareTranslation(s, va, true);
    var m := WriteN(s.mem, va, StoreData(value, n), n);
    SingleWrite(s.mem, va, value, n);
    BareElsewhere(s, m);
    BareTranslation(SetMem(s, m), Wrap64(va + n), true);
    Wrapped(va, n);
    SplitWrite(s.mem, va, Wrap64(va + n), value, n, width - n);
  }

  /** A load reads the bytes of its width at its address, after the copy of mtime has been refreshed. */
  lemma LoadBare(s: State, op: Op, rd: bv5, base: u64, imm: int)
    requires IsLoad(op) && Bare(s)
    ensures var m, data := WriteN(s.mem, TIMER_MTIME, s.dev.elapsedCycles, 8), LoadedBare(s, op, base, imm);
      Load(s, op, rd, base, imm) == SetReg(SetMem(s, m), rd, LoadResult(op, data))
  {
    hide Bare, VirtualToPhysical, WriteN, ReadN, GetAccessWidth, AccessWidthOf, KindOf, Wrap64, LoadResult, SetReg, SetMem, Pow256, Joined, Trap;
    var va, width := Wrap64(base + imm), AccessWidthOf(op);
    AccessWidthBounds(width, va);
    var n := GetAccessWidth(width, va);
    var m := WriteN(s.mem, TIMER_MTIME, s.dev.elapsedCycles, 8);
    BareElsewhere(s, m);
    BareTranslation(SetMem(s, m), va, false);
    BareTranslation(SetMem(s, m), Wrap64(va + n), false);
    Wrapped(va, n);
    SplitRead(m, va, Wrap64(va + n), n, width - n);
  }

  function LoadedBare(s: State, op: Op, base: u64, imm: int): u64
  {
    ReadData(WriteN(s.mem, TIMER_MTIME, s.dev.elapsedCycles, 8), Wrap64(base + imm), AccessWidthOf(op))
  }

  function Bound(width: nat): nat
    requires width in {1, 2, 4, 8}
  {
    if width == 1 then 0x100 else if width == 2 then 0x1_0000 else if width == 4 then TWO32 else TWO64
  }

  /** What a load of the low bytes of `v` means: a two's complement number, or an unsigned one. */
  function Interpreted(op: Op, v: u64): int
    requires IsLoad(op)
  {
    var x := LowPart(v, AccessWidthOf(op));
    if Unsigned(op) then x else TwosComplement(x, AccessWidthOf(op))
  }

  function TwosComplement(x: nat, width: nat): int
    requires width in {1, 2, 4, 8}
  {
    if x < Bound(width) / 2 then x else x - Bound(width)
  }

  predicate Unsigned(op: Op) { op.LBU? || op.LHU? || op.LWU? }

  lemma ExtendsSigned(x: u64, width: nat)
    requires width in {1, 2, 4, 8} && x < Bound(width)
    ensures Signed64(SignExtended(x, width)) == TwosComplement(x, width)
    ensures width == 8 ==> Signed64(x) == TwosComplement(x, width)
    ensures width <= 4 ==> Signed64(x) == x
  {
    if width == 1 {} else if width == 2 {} else if width == 4 {} else {}
  }

  lemma LoadExtends(op: Op, v: u64)
    requires IsLoad(op)
    ensures Signed64(LoadResult(op, LowPart(v, AccessWidthOf(op)))) == Interpreted(op, v)
  {
    hide KindOf, Pow256, SignExtended, LowPart, Signed64, AccessWidthOf, Bound, TwosComplement, LoadResult;
    var width := AccessWidthOf(op);
    Powers(op);
    LowPartBelow(v, width);
    ExtendsSigned(LowPart(v, width), width);
    LoadResults(op, LowPart(v, width));
  }

  lemma LowPartBelow(v: u64, n: nat)
    ensures LowPart(v, n) == v % Pow256(n) < Pow256(n)
  {
    hide Pow256;
  }

  /** Which loads extend the sign. */
  lemma LoadResults(op: Op, x: u64)
    requires IsLoad(op) && x < Bound(AccessWidthOf(op))
    ensures LoadResult(op, x) == if Unsigned(op) || op.LD? then x else SignExtended(x, AccessWidthOf(op))
    ensures Unsigned(op) ==> AccessWidthOf(op) <= 4
    ensures op.LD? ==> AccessWidthOf(op) == 8
  {
    hide KindOf, SignExtended;
    LoadsAre(op);
    if op.LB? {} else if op.LBU? {} else if op.LH? {} else if op.LHU? {} else if op.LW? {} else if op.LWU? {} else {}
  }

  lemma LoadsAre(op: Op)
    requires IsLoad(op)
    ensures op in {LB, LBU, LH, LHU, LW, LWU, LD}
  {}

  lemma Powers(op: Op)
    ensures Pow256(AccessWidthOf(op)) == Bound(AccessWidthOf(op))
  {
    hide Pow256;
    PowValues();
  }

  lemma RefreshedRead(m: Mem, a: nat, v: u64, n: nat, t: nat)
    requires n <= 8 && Apart(TIMER_MTIME, 8, a, n)
    ensures ReadData(WriteN(WriteN(m, a, v, n), TIMER_MTIME, t, 8), a, n) == LowPart(v, n)
  {
    hide WriteN, ReadN, Pow256, Apart;
    ReadOtherWrite(WriteN(m, a, v, n), TIMER_MTIME, t, 8, a, n);
    ReadOwnWrite(m, a, v, n);
  }

  lemma WritesOnly(m: Mem, a: nat, v: nat, n: nat, b: nat, w: nat, k: nat)
    requires n <= 8 && k <= 8
    ensures forall x :: 0 <= x < SIZE && Off(x, a) >= n && Off(x, b) >= k ==> WriteN(WriteN(m, a, v, n), b, w, k)[x] == m[x]
  {
    hide WriteN;
    forall x | 0 <= x < SIZE && Off(x, a) >= n && Off(x, b) >= k ensures WriteN(WriteN(m, a, v, n), b, w, k)[x] == m[x] {
      WriteAt(m, a, v, n, x);
      WriteAt(WriteN(m, a, v, n), b, w, k, x);
    }
  }

  lemma BareDevice(s: State, m: Mem, d: Device)
    requires Bare(s)
    ensures Bare(SetDev(SetMem(s, m), d)) && SetDev(SetMem(s, m), d).mem == m && SetDev(SetMem(s, m), d).dev == d
    ensures forall m': Mem :: SetMem(SetDev(SetMem(s, m), d), m') == SetDev(SetMem(s, m'), d)
  {
    hide EffectivePrivilege, ModeOf;
  }

  /** A load after a store of the same width, at any address and any alignment, untranslated. */
  lemma StoreThenLoad(s: State, st: Op, ld: Op, rd: bv5, value: u64, base: u64, imm: int)
    requires IsStore(st) && IsLoad(ld) && AccessWidthOf(st) == AccessWidthOf(ld) && Bare(s)
    requires Apart(TIMER_MTIME, 8, Wrap64(base + imm), AccessWidthOf(st))
    ensures var t := Load(Store(s, st, value, base, imm), ld, rd, base, imm);
      && Signed64(X(t, rd)) == Interpreted(ld, value)
      && t == SetReg(SetDev(SetMem(s, t.mem), t.dev), rd, X(t, rd))
      && forall x :: 0 <= x < SIZE && Off(x, Wrap64(base + imm)) >= AccessWidthOf(st) && Off(x, TIMER_MTIME) >= 8 ==> t.mem[x] == s.mem[x]
  {
    hide Bare, Load, Store, WriteN, ReadN, AccessWidthOf, CheckDeviceWrite, KindOf, Wrap64, SetMem, SetDev, LoadResult, Pow256, Interpreted, Apart, Off, ReadData, LowPart, Signed64;
    var va, width := Wrap64(base + imm), AccessWidthOf(st);
    StoreBare(s, st, value, base, imm);
    var m, d := WriteN(s.mem, va, value, width), CheckDeviceWrite(s.dev, va, width, value);
    BareDevice(s, m, d);
    var u := SetDev(SetMem(s, m), d);
    LoadBare(u, ld, rd, base, imm);
    RefreshedRead(s.mem, va, value, width, u.dev.elapsedCycles);
    LoadExtends(ld, value);
    WritesOnly(s.mem, va, value, width, TIMER_MTIME, u.dev.elapsedCycles, 8);
    LoadedState(s, WriteN(m, TIMER_MTIME, u.dev.elapsedCycles, 8), d, rd, LoadResult(ld, LowPart(value, width)));
  }

  lemma LoadedState(s: State, m: Mem, d: Device, rd: bv5, v: u64)
    ensures var t := SetReg(SetDev(SetMem(s, m), d), rd, v); t.mem == m && t.dev == d && X(t, rd) == v
  {}
}
