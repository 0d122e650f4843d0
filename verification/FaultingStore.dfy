/**
  A store that faults. When the first translation faults nothing is written; when the second one does,
  the first part has been written already.
 */
module FaultingStore {
  import opened Words
  import opened FlatMemory
  import opened PageWalk
  import opened Decoder
  import opened CpuModel
  import opened DataAccess
  import opened TranslatedStore

  predicate FirstFaults(sc: Scheme, m: Mem, root: nat, va: u64) { TranslateBy(sc, m, root, va, true).fault }

  predicate SecondFaults(sc: Scheme, m: Mem, root: nat, va: u64, value: u64, width: nat)
  {
    && !FirstFaults(sc, m, root, va) && FirstWidth(va, width) < width
    && TranslateBy(sc, FirstWritten(sc, m, root, va, value, width), root, Wrap64(va + FirstWidth(va, width)), true).fault
  }

  /** A fault in the second part: the trap reports its address, and the first part stays written. */
  lemma SecondPartFaults(s: State, sc: Scheme, root: nat, op: Op, value: u64, base: u64, imm: int)
    requires IsStore(op) && Translated(s, sc, root) && SecondFaults(sc, s.mem, root, Wrap64(base + imm), value, AccessWidthOf(op))
    ensures var va, width, t := Wrap64(base + imm), AccessWidthOf(op), Store(s, op, value, base, imm);
      && t.mem == FirstWritten(sc, s.mem, root, va, value, width)
      && t == Trap(WithFault(SetMem(s, t.mem), Wrap64(va + FirstWidth(va, width))), 15, false)
      && t.regs == s.regs
  {
    hide TranslateBy, VirtualToPhysical, WriteN, FirstWidth, AccessWidthOf, CheckDeviceWrite, KindOf, StoreData;
    hide Wrap64, SetMem, WithFault, Trap, Translated, GetAccessWidth, Drop;
    var va, width := Wrap64(base + imm), AccessWidthOf(op);
    var n := FirstWidth(va, width);
    FirstWidthBelow(va, width);
    AccessWidthBounds(width, va);
    PagedAccess(s, sc, root, va, true);
    TranslatedElsewhere(s, sc, root, TranslateBy(sc, s.mem, root, va, true).mem);
    var m := FirstWritten(sc, s.mem, root, va, value, width);
    TranslatedElsewhere(s, sc, root, m);
    FaultingAccess(SetMem(s, m), sc, root, Wrap64(va + n), true);
    FaultState(s, m, Wrap64(va + n), 15);
  }

  // ----- when a store that faults has written nothing -----

  /** Memory differs in access bits of the entries the first translation used, and nowhere else. */
  ghost predicate OnlyAccessBits(sc: Scheme, m: Mem, root: nat, va: u64, m': Mem)
  {
    forall x :: 0 <= x < SIZE && m'[x] != m[x] ==> WalkUses(sc, m, root, va, x) && Visible(sc.PteSize, x, m'[x]) == Visible(sc.PteSize, x, m[x])
  }

  /** Byte `k` of the value is in its place already, up to access bits of an entry that was used. */
  predicate Held(sc: Scheme, m: Mem, root: nat, va: u64, value: u64, k: nat)
  {
    var x, b := Place(sc, m, root, va, k), ByteOf(value, k);
    b == m[x] || (WalkUses(sc, m, root, va, x) && Visible(sc.PteSize, x, b) == Visible(sc.PteSize, x, m[x]))
  }

  lemma FirstWrittenAt(sc: Scheme, m: Mem, root: nat, va: u64, value: u64, width: nat, k: nat)
    requires width in {1, 2, 4, 8} && !FirstFaults(sc, m, root, va) && k < FirstWidth(va, width)
    ensures FirstWritten(sc, m, root, va, value, width)[Place(sc, m, root, va, k)] == ByteOf(value, k)
  {
    hide TranslateBy, WriteN, StoreData, FirstWidth, Place, ByteOf;
    FirstWidthBelow(va, width);
    var n, first := FirstWidth(va, width), TranslateBy(sc, m, root, va, true);
    UnitPlaces(sc, m, root, va, k);
    OffBack(first.pa, k);
    WriteAt(first.mem, first.pa, StoreData(value, n), n, (first.pa + k) % SIZE);
    StoredByte(value, n, k);
  }

  lemma FirstWrittenElsewhere(sc: Scheme, m: Mem, root: nat, va: u64, value: u64, width: nat, x: nat)
    requires width in {1, 2, 4, 8} && !FirstFaults(sc, m, root, va) && x < SIZE
    requires forall k :: 0 <= k < FirstWidth(va, width) ==> x != Place(sc, m, root, va, k)
    ensures var b := FirstWritten(sc, m, root, va, value, width)[x];
      b != m[x] ==> WalkUses(sc, m, root, va, x) && Visible(sc.PteSize, x, b) == Visible(sc.PteSize, x, m[x])
  {
    hide TranslateBy, WriteN, StoreData, FirstWidth, Place, Uses, Off, Visible;
    FirstWidthBelow(va, width);
    var n, first := FirstWidth(va, width), TranslateBy(sc, m, root, va, true);
    NotInFirst(sc, m, root, va, n, x);
    WriteAt(first.mem, first.pa, StoreData(value, n), n, x);
    TranslateKeepsTables(sc, m, root, va, true);
    if first.mem[x] != m[x] { TranslateWritesUsed(sc, m, root, va, true, x); }
  }

  lemma WrittenExactly(sc: Scheme, m: Mem, root: nat, va: u64, value: u64, width: nat)
    requires width in {1, 2, 4, 8} && !FirstFaults(sc, m, root, va)
    ensures OnlyAccessBits(sc, m, root, va, FirstWritten(sc, m, root, va, value, width))
       <==> forall k :: 0 <= k < FirstWidth(va, width) ==> Held(sc, m, root, va, value, k)
  {
    hide FirstFaults, FirstWritten, FirstWidth, Place, WalkUses, Visible, ByteOf;
    var m' := FirstWritten(sc, m, root, va, value, width);
    forall k | 0 <= k < FirstWidth(va, width) ensures m'[Place(sc, m, root, va, k)] == ByteOf(value, k) {
      FirstWrittenAt(sc, m, root, va, value, width, k);
    }
    if forall k :: 0 <= k < FirstWidth(va, width) ==> Held(sc, m, root, va, value, k) {
      forall x | 0 <= x < SIZE && m'[x] != m[x]
        ensures WalkUses(sc, m, root, va, x) && Visible(sc.PteSize, x, m'[x]) == Visible(sc.PteSize, x, m[x])
      {
        if k :| 0 <= k < FirstWidth(va, width) && x == Place(sc, m, root, va, k) {
          assert Held(sc, m, root, va, value, k);
        } else {
          FirstWrittenElsewhere(sc, m, root, va, value, width, x);
        }
      }
    }
  }

  /**
    A store that faults leaves memory as it was, up to access bits of the entries it used, exactly when
    the first translation faults or the bytes of the first part were there before.
   */
  lemma FaultWritesNothingExactly(s: State, sc: Scheme, root: nat, op: Op, value: u64, base: u64, imm: int)
    requires IsStore(op) && Translated(s, sc, root)
    requires var va, width := Wrap64(base + imm), AccessWidthOf(op);
      FirstFaults(sc, s.mem, root, va) || SecondFaults(sc, s.mem, root, va, value, width)
    ensures var va, width, t := Wrap64(base + imm), AccessWidthOf(op), Store(s, op, value, base, imm);
      OnlyAccessBits(sc, s.mem, root, va, t.mem) <==>
      FirstFaults(sc, s.mem, root, va) || forall k :: 0 <= k < FirstWidth(va, width) ==> Held(sc, s.mem, root, va, value, k)
  {
    hide AccessWidthOf, KindOf, Wrap64, Translated, Held, FirstWidth, WalkUses, Visible, FirstWritten, Trap;
    var va, width := Wrap64(base + imm), AccessWidthOf(op);
    if FirstFaults(sc, s.mem, root, va) {
      StoreFaults(s, sc, root, op, value, base, imm);
    } else {
      SecondPartFaults(s, sc, root, op, value, base, imm);
      WrittenExactly(sc, s.mem, root, va, value, width);
    }
  }
}
