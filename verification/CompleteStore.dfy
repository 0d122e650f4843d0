/**
  Every store that does not fault, also one whose first part lands on the tables its second part is
  translated through: then the second walk follows what the first part has just written.
 */
module CompleteStore {
  import opened Words
  import opened FlatMemory
  import opened PageWalk
  import opened Decoder
  import opened CpuModel
  import opened DataAccess
  import opened TranslatedStore
  import TranslatedLoad
  import F = FaultingStore

  /** Where byte `k` of a store goes: the second part is looked up in the memory the first part leaves. */
  function Target(sc: Scheme, m: Mem, root: nat, va: u64, value: u64, width: nat, k: nat): (x: nat)
    ensures x < SIZE
  {
    Place(sc, if k < FirstWidth(va, width) then m else FirstWritten(sc, m, root, va, value, width), root, va, k)
  }

  /** Byte `x` belongs to an entry that one of the store's own walks uses. */
  predicate OwnWalksUse(sc: Scheme, m: Mem, root: nat, va: u64, value: u64, width: nat, x: nat)
  {
    || WalkUses(sc, m, root, va, x)
    || SecondWalkUses(sc, m, root, va, value, width, x)
  }

  predicate SecondWalkUses(sc: Scheme, m: Mem, root: nat, va: u64, value: u64, width: nat, x: nat)
  {
    var n := FirstWidth(va, width);
    n < width && WalkUses(sc, FirstWritten(sc, m, root, va, value, width), root, Wrap64(va + n), x)
  }

  /** The memory the second part is written to. */
  lemma SecondTranslation(sc: Scheme, m: Mem, root: nat, va: u64, value: u64, width: nat) returns (m2: Mem, second: Translation)
    requires width in {1, 2, 4, 8} && FirstWidth(va, width) < width && Completes(sc, m, root, va, value, width)
    ensures var n := FirstWidth(va, width);
      && m2 == FirstWritten(sc, m, root, va, value, width)
      && second == TranslateBy(sc, m2, root, Wrap64(va + n), true) && !second.fault
      && Stored(sc, m, root, va, value, width) == WriteN(second.mem, second.pa, Drop(value, n), width - n)
      && SameTables(sc.PteSize, m2, second.mem)
      && forall x :: 0 <= x < SIZE && second.mem[x] != m2[x] ==> SecondWalkUses(sc, m, root, va, value, width, x)
  {
    hide TranslateBy, WriteN, StoreData, Uses, Visible, FirstWidth, Wrap64, Drop;
    var va2 := Wrap64(va + FirstWidth(va, width));
    m2 := FirstWritten(sc, m, root, va, value, width);
    second := TranslateBy(sc, m2, root, va2, true);
    TranslateKeepsTables(sc, m2, root, va2, true);
    forall x | 0 <= x < SIZE && second.mem[x] != m2[x] ensures SecondWalkUses(sc, m, root, va, value, width, x) {
      TranslateWritesUsed(sc, m2, root, va2, true, x);
    }
  }

  lemma NotSplit(sc: Scheme, m: Mem, root: nat, va: u64, value: u64, width: nat)
    requires width in {1, 2, 4, 8} && FirstWidth(va, width) == width
    ensures Stored(sc, m, root, va, value, width) == FirstWritten(sc, m, root, va, value, width)
  {
    hide TranslateBy, WriteN, StoreData, FirstWidth;
  }

  lemma FirstGoes(sc: Scheme, m: Mem, root: nat, va: u64, value: u64, width: nat)
    requires Completes(sc, m, root, va, value, width)
    ensures !F.FirstFaults(sc, m, root, va)
  {
    hide TranslateBy, FirstWritten, FirstWidth;
  }

  /** A byte of the first part arrives; the walk of the second part may set access bits in it. */
  lemma FirstPartArrives(sc: Scheme, m: Mem, root: nat, va: u64, value: u64, width: nat, k: nat)
    requires width in {1, 2, 4, 8} && Completes(sc, m, root, va, value, width) && k < FirstWidth(va, width)
    ensures var x := Target(sc, m, root, va, value, width, k);
      var b := Stored(sc, m, root, va, value, width)[x];
      && Visible(sc.PteSize, x, b) == Visible(sc.PteSize, x, ByteOf(value, k))
      && (b != ByteOf(value, k) ==> SecondWalkUses(sc, m, root, va, value, width, x))
  {
    hide TranslateBy, WriteN, Stored, FirstWritten, FirstWidth, Place, ByteOf, Visible, Drop, Wrap64, Completes, SecondWalkUses, Off, F.FirstFaults;
    var n, x := FirstWidth(va, width), Place(sc, m, root, va, k);
    FirstWidthBelow(va, width);
    FirstGoes(sc, m, root, va, value, width);
    F.FirstWrittenAt(sc, m, root, va, value, width, k);
    if n == width {
      NotSplit(sc, m, root, va, value, width);
    } else {
      var m2, second := SecondTranslation(sc, m, root, va, value, width);
      FirstSpared(sc, m, m2, root, va, n, width, k);
      WriteAt(second.mem, second.pa, Drop(value, n), width - n, x);
      assert Visible(sc.PteSize, x, m2[x]) == Visible(sc.PteSize, x, second.mem[x]);
    }
  }

  /** The second part lies at other offsets of an 8-byte unit than the first. */
  lemma FirstSpared(sc: Scheme, m: Mem, m2: Mem, root: nat, va: u64, n: nat, width: nat, k: nat)
    requires va % 8 + n == 8 && k < n < width <= 8 && !F.FirstFaults(sc, m, root, va)
    ensures Off(Place(sc, m, root, va, k), TranslateBy(sc, m2, root, Wrap64(va + n), true).pa) >= width - n
  {
    hide TranslateBy, Place, Off, Wrap64;
    UnitPlaces(sc, m, root, va, k);
    KeepsUnitOffset(sc, m, root, va);
    KeepsUnitOffset(sc, m2, root, Wrap64(va + n));
    SecondStart(va, n, n);
    PartsApart(TranslateBy(sc, m, root, va, true).pa, TranslateBy(sc, m2, root, Wrap64(va + n), true).pa, n, k, width - n);
  }

  lemma SecondPartArrives(sc: Scheme, m: Mem, root: nat, va: u64, value: u64, width: nat, k: nat)
    requires width in {1, 2, 4, 8} && Completes(sc, m, root, va, value, width) && FirstWidth(va, width) <= k < width
    ensures Stored(sc, m, root, va, value, width)[Target(sc, m, root, va, value, width, k)] == ByteOf(value, k)
  {
    hide TranslateBy, WriteN, Stored, FirstWritten, FirstWidth, Place, ByteOf, Drop, Wrap64, Completes, SecondWalkUses, SameTables;
    var n := FirstWidth(va, width);
    FirstWidthBelow(va, width);
    var m2, second := SecondTranslation(sc, m, root, va, value, width);
    SecondPlaces(sc, m2, root, va, n, k);
    OffBack(second.pa, k - n);
    WriteAt(second.mem, second.pa, Drop(value, n), width - n, (second.pa + (k - n)) % SIZE);
    DropByte(value, n, k - n);
  }

  /** A byte no part of the store goes to keeps its value, up to access bits of the entries its walks use. */
  lemma OthersKept(sc: Scheme, m: Mem, root: nat, va: u64, value: u64, width: nat, x: nat)
    requires width in {1, 2, 4, 8} && Completes(sc, m, root, va, value, width) && x < SIZE
    requires forall k :: 0 <= k < width ==> x != Target(sc, m, root, va, value, width, k)
    ensures var b := Stored(sc, m, root, va, value, width)[x];
      && Visible(sc.PteSize, x, b) == Visible(sc.PteSize, x, m[x])
      && (b != m[x] ==> OwnWalksUse(sc, m, root, va, value, width, x))
  {
    hide TranslateBy, WriteN, Stored, FirstWritten, FirstWidth, Place, Visible, Drop, Wrap64, Completes, SecondWalkUses, WalkUses, Off, F.FirstFaults;
    var n := FirstWidth(va, width);
    FirstWidthBelow(va, width);
    FirstGoes(sc, m, root, va, value, width);
    assert forall k :: 0 <= k < n ==> x != Place(sc, m, root, va, k) by {
      forall k | 0 <= k < n ensures x != Place(sc, m, root, va, k) { assert x != Target(sc, m, root, va, value, width, k); }
    }
    F.FirstWrittenElsewhere(sc, m, root, va, value, width, x);
    if n == width {
      NotSplit(sc, m, root, va, value, width);
    } else {
      var m2, second := SecondTranslation(sc, m, root, va, value, width);
      forall k | n <= k < width ensures x != Place(sc, m2, root, va, k) { assert x != Target(sc, m, root, va, value, width, k); }
      NotInSecond(sc, m2, root, va, n, width, x);
      WriteAt(second.mem, second.pa, Drop(value, n), width - n, x);
      assert Visible(sc.PteSize, x, m2[x]) == Visible(sc.PteSize, x, second.mem[x]);
    }
  }

  /**
    Any store through any tables that does not fault. Byte k goes to the translation of its address, the
    second part's in the memory the first part leaves; everything else keeps its value, up to access bits
    of the entries the two walks use.
   */
  lemma StoreCompletes(s: State, sc: Scheme, root: nat, op: Op, value: u64, base: u64, imm: int)
    requires IsStore(op) && Translated(s, sc, root) && Completes(sc, s.mem, root, Wrap64(base + imm), value, AccessWidthOf(op))
    ensures var va, width, t := Wrap64(base + imm), AccessWidthOf(op), Store(s, op, value, base, imm);
      && t == SetDev(SetMem(s, t.mem), t.dev)
      && (forall k :: FirstWidth(va, width) <= k < width ==> t.mem[Target(sc, s.mem, root, va, value, width, k)] == ByteOf(value, k))
      && (forall k :: 0 <= k < FirstWidth(va, width) ==> FirstArrived(sc, s.mem, root, va, value, width, k, t.mem))
      && (forall x :: 0 <= x < SIZE && (forall k :: 0 <= k < width ==> x != Target(sc, s.mem, root, va, value, width, k)) ==>
            && Visible(sc.PteSize, x, t.mem[x]) == Visible(sc.PteSize, x, s.mem[x])
            && (t.mem[x] != s.mem[x] ==> OwnWalksUse(sc, s.mem, root, va, value, width, x)))
  {
    hide TranslateBy, Stored, Completes, Target, Store, OwnWalksUse, SecondWalkUses, FirstWidth, AccessWidthOf, CheckDeviceWrite, KindOf, Wrap64, SetMem, SetDev, Translated, Visible, ByteOf;
    var va, width := Wrap64(base + imm), AccessWidthOf(op);
    FirstWidthBelow(va, width);
    StoreIsStored(s, sc, root, op, value, base, imm);
    var m := Stored(sc, s.mem, root, va, value, width);
    Parts(s, m, CheckDeviceWrite(s.dev, TranslateBy(sc, s.mem, root, va, true).pa, width, value));
    forall k | FirstWidth(va, width) <= k < width ensures m[Target(sc, s.mem, root, va, value, width, k)] == ByteOf(value, k) {
      SecondPartArrives(sc, s.mem, root, va, value, width, k);
    }
    forall k | 0 <= k < FirstWidth(va, width) ensures FirstArrived(sc, s.mem, root, va, value, width, k, m) {
      FirstPartArrives(sc, s.mem, root, va, value, width, k);
    }
    forall x | 0 <= x < SIZE && (forall k :: 0 <= k < width ==> x != Target(sc, s.mem, root, va, value, width, k))
      ensures Visible(sc.PteSize, x, m[x]) == Visible(sc.PteSize, x, s.mem[x])
      ensures m[x] != s.mem[x] ==> OwnWalksUse(sc, s.mem, root, va, value, width, x)
    {
      OthersKept(sc, s.mem, root, va, value, width, x);
    }
  }

  /** Byte `k` of the first part is in `m'`, up to access bits the second walk sets in it. */
  predicate FirstArrived(sc: Scheme, m: Mem, root: nat, va: u64, value: u64, width: nat, k: nat, m': Mem)
  {
    var x := Target(sc, m, root, va, value, width, k);
    && Visible(sc.PteSize, x, m'[x]) == Visible(sc.PteSize, x, ByteOf(value, k))
    && (m'[x] != ByteOf(value, k) ==> SecondWalkUses(sc, m, root, va, value, width, x))
  }

  // ----- when the second part goes where it would have gone before -----

  /** The second address has the same translation before and after the first part has been written. */
  predicate SecondAgrees(sc: Scheme, m: Mem, root: nat, va: u64, value: u64, width: nat)
  {
    var va2 := Wrap64(va + FirstWidth(va, width));
    var before, after := TranslateBy(sc, m, root, va2, true), TranslateBy(sc, FirstWritten(sc, m, root, va, value, width), root, va2, true);
    !before.fault && !after.fault && before.pa % SIZE == after.pa % SIZE
  }

  /** Byte `k` goes to the translation of its address through the initial tables. */
  predicate Initially(sc: Scheme, m: Mem, root: nat, va: u64, value: u64, width: nat, k: nat)
  {
    !TranslateBy(sc, m, root, Wrap64(va + k), true).fault && Target(sc, m, root, va, value, width, k) == Place(sc, m, root, va, k)
  }

  /** A store that completes goes to the initial translations of its bytes exactly when the second one agrees. */
  lemma InitiallyExactly(sc: Scheme, m: Mem, root: nat, va: u64, value: u64, width: nat)
    requires width in {1, 2, 4, 8} && Completes(sc, m, root, va, value, width)
    ensures (forall k :: 0 <= k < width ==> Initially(sc, m, root, va, value, width, k))
       <==> FirstWidth(va, width) == width || SecondAgrees(sc, m, root, va, value, width)
  {
    hide TranslateBy, FirstWidth, Initially, FirstWritten, Completes, SecondAgrees, F.FirstFaults;
    FirstWidthBelow(va, width);
    FirstGoes(sc, m, root, va, value, width);
    var n := FirstWidth(va, width);
    if n == width || SecondAgrees(sc, m, root, va, value, width) {
      forall k | 0 <= k < width ensures Initially(sc, m, root, va, value, width, k) {
        if k < n { FirstInitially(sc, m, root, va, value, width, k); } else { SecondInitially(sc, m, root, va, value, width, k); }
      }
    } else if forall k :: 0 <= k < width ==> Initially(sc, m, root, va, value, width, k) {
      assert Initially(sc, m, root, va, value, width, n);
      AgreesAt(sc, m, root, va, value, width);
    }
  }

  lemma FirstInitially(sc: Scheme, m: Mem, root: nat, va: u64, value: u64, width: nat, k: nat)
    requires width in {1, 2, 4, 8} && !F.FirstFaults(sc, m, root, va) && k < FirstWidth(va, width)
    ensures Initially(sc, m, root, va, value, width, k)
  {
    hide TranslateBy, FirstWidth, Wrap64, FirstWritten;
    FirstWidthBelow(va, width);
    UnitPlaces(sc, m, root, va, k);
  }

  lemma SecondInitially(sc: Scheme, m: Mem, root: nat, va: u64, value: u64, width: nat, k: nat)
    requires width in {1, 2, 4, 8} && FirstWidth(va, width) <= k < width && SecondAgrees(sc, m, root, va, value, width)
    ensures Initially(sc, m, root, va, value, width, k)
  {
    hide TranslateBy, FirstWidth, Wrap64, FirstWritten, Place;
    FirstWidthBelow(va, width);
    var n, m2 := FirstWidth(va, width), FirstWritten(sc, m, root, va, value, width);
    SecondPlaces(sc, m, root, va, n, k);
    SecondPlaces(sc, m2, root, va, n, k);
    SecondStart(va, n, k);
    UnitPlaces(sc, m, root, Wrap64(va + n), k - n);
    TranslatedLoad.SameSum(TranslateBy(sc, m, root, Wrap64(va + n), true).pa, TranslateBy(sc, m2, root, Wrap64(va + n), true).pa, k - n);
  }

  lemma AgreesAt(sc: Scheme, m: Mem, root: nat, va: u64, value: u64, width: nat)
    requires var n := FirstWidth(va, width);
      n < width && Completes(sc, m, root, va, value, width) && Initially(sc, m, root, va, value, width, n)
    ensures SecondAgrees(sc, m, root, va, value, width)
  {
    hide TranslateBy, FirstWidth, Wrap64, FirstWritten;
  }

  /** It agrees wherever the first part leaves what translation sees of the second walk's entries as it was. */
  lemma AgreesWhenUnseen(sc: Scheme, m: Mem, root: nat, va: u64, value: u64, width: nat)
    requires width in {2, 4, 8} && FirstWidth(va, width) < width && Completes(sc, m, root, va, value, width)
    requires SameWhereUsed(sc, m, FirstWritten(sc, m, root, va, value, width), root, Wrap64(va + FirstWidth(va, width)), sc.Levels - 1)
    ensures SecondAgrees(sc, m, root, va, value, width)
  {
    hide TranslateBy, FirstWidth, Wrap64, FirstWritten, SameWhereUsed;
    TranslateLocal(sc, m, FirstWritten(sc, m, root, va, value, width), root, Wrap64(va + FirstWidth(va, width)), true);
  }
}
