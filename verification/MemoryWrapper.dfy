/**
  The paged memory of the emulator (memory_wrapper.cpp): 4096 pages of 2^18 words, a page being
  allocated by the first write to it. `contents` is the flat memory the object stands for.
 */
module PagedMemory {
  import opened Words
  import opened FlatMemory

  const PAGES := 4096
  const PAGE_BYTES := 0x10_0000
  const PAGE_WORDS := 0x4_0000

  function Entry(i: nat): nat { (i / PAGE_BYTES) % PAGES }

  function WordOffset(i: nat): nat { (i % PAGE_BYTES) / 4 }

  /** The word that holds address `i`, read as zero while its page is unallocated. */
  function Cell(present: seq<bool>, mapping: seq<seq<u32>>, i: nat): u32
    requires |present| == |mapping| == PAGES
    requires present[Entry(i)] ==> |mapping[Entry(i)]| == PAGE_WORDS
  {
    if present[Entry(i)] then mapping[Entry(i)][WordOffset(i)] else 0
  }

  predicate WellShaped(present: seq<bool>, mapping: seq<seq<u32>>)
  {
    && |present| == |mapping| == PAGES
    && forall e :: 0 <= e < PAGES ==> |mapping[e]| == if present[e] then PAGE_WORDS else 0
  }

  /** The paged representation stands for the flat memory `m`. */
  ghost predicate Represents(present: seq<bool>, mapping: seq<seq<u32>>, m: Mem)
    requires WellShaped(present, mapping)
  {
    forall x :: 0 <= x < SIZE ==> m[x] == ByteOf(Cell(present, mapping, x), x % 4)
  }

  lemma SameCellAligned(x: nat, j: nat)
    requires x < SIZE && j < SIZE && j % 4 == 0
    ensures x / PAGE_BYTES == j / PAGE_BYTES && (x % PAGE_BYTES) / 4 == (j % PAGE_BYTES) / 4 <==> 0 <= x - j < 4
    ensures 0 <= x - j < 4 ==> x - j == x % 4
  {
    assert x / PAGE_BYTES * 0x4_0000 + (x % PAGE_BYTES) / 4 == x / 4;
    assert j / PAGE_BYTES * 0x4_0000 + (j % PAGE_BYTES) / 4 == j / 4;
  }

  lemma ReducedIndex(i: nat)
    ensures Entry(i) == (i % SIZE) / PAGE_BYTES && i % PAGE_BYTES == (i % SIZE) % PAGE_BYTES
  {
    var q, j := i / SIZE, i % SIZE;
    var d, r := j / PAGE_BYTES, j % PAGE_BYTES;
    assert i == PAGE_BYTES * (PAGES * q + d) + r;
    assert i / PAGE_BYTES == PAGES * q + d && d < PAGES;
  }

  lemma OffReduced(x: nat, i: nat)
    requires x < SIZE
    ensures Off(x, i) == if x >= i % SIZE then x - i % SIZE else x - i % SIZE + SIZE
  {}

  lemma SameCell(x: nat, i: nat)
    requires x < SIZE && i % 4 == 0
    ensures Entry(x) == Entry(i) && WordOffset(x) == WordOffset(i) <==> Off(x, i) < 4
    ensures Off(x, i) < 4 ==> Off(x, i) == x % 4
  {
    var j := i % SIZE;
    ReducedIndex(i);
    SameCellAligned(x, j);
    OffReduced(x, i);
  }

  lemma CellByte(present: seq<bool>, mapping: seq<seq<u32>>, m: Mem, i: nat, k: nat)
    requires WellShaped(present, mapping) && Represents(present, mapping, m) && i % 4 == 0 && k < 4
    ensures ByteAt(m, i, k) == ByteOf(Cell(present, mapping, i), k)
  {
    OffBack(i, k);
    SameCell((i + k) % SIZE, i);
  }

  lemma CellIsWord(present: seq<bool>, mapping: seq<seq<u32>>, m: Mem, i: nat)
    requires WellShaped(present, mapping) && Represents(present, mapping, m) && i % 4 == 0
    ensures Read32(m, i) == Cell(present, mapping, i)
  {
    var w := Cell(present, mapping, i);
    forall k | 0 <= k < 4 ensures ByteAt(m, i, k) == ByteOf(w, k) {
      CellByte(present, mapping, m, i, k);
    }
    WordFromBytes(w, m, i);
  }

  lemma WordFromBytes(w: u32, m: Mem, i: nat)
    requires forall k :: 0 <= k < 4 ==> ByteAt(m, i, k) == ByteOf(w, k)
    ensures Read32(m, i) == w
  {
    ValueFromBytes(w, m, i, 4);
    PowValues();
  }

  lemma CellWrite(present: seq<bool>, mapping: seq<seq<u32>>, m: Mem,
                  present': seq<bool>, mapping': seq<seq<u32>>, i: nat, value: u32)
    requires WellShaped(present, mapping) && Represents(present, mapping, m) && i % 4 == 0
    requires WellShaped(present', mapping')
    requires forall x :: 0 <= x < SIZE ==>
      (Cell(present', mapping', x) ==
        if Entry(x) == Entry(i) && WordOffset(x) == WordOffset(i) then value else Cell(present, mapping, x))
    ensures Represents(present', mapping', WriteN(m, i, value, 4))
  {
    forall x | 0 <= x < SIZE
      ensures WriteN(m, i, value, 4)[x] == ByteOf(Cell(present', mapping', x), x % 4)
    {
      WriteAt(m, i, value, 4, x);
      SameCell(x, i);
    }
  }

  function Word(b0: byte, b1: byte, b2: byte, b3: byte): (w: u32)
  {
    b0 + 0x100 * b1 + 0x1_0000 * b2 + 0x100_0000 * b3
  }

  lemma BytesOfWord(b0: byte, b1: byte, b2: byte, b3: byte)
    ensures var w := Word(b0, b1, b2, b3);
      ByteOf(w, 0) == b0 && ByteOf(w, 1) == b1 && ByteOf(w, 2) == b2 && ByteOf(w, 3) == b3
  {
    var w := Word(b0, b1, b2, b3);
    var w1, w2 := b1 + 0x100 * b2 + 0x1_0000 * b3, b2 + 0x100 * b3;
    assert w / 0x100 == w1 && w1 / 0x100 == w2 && w2 / 0x100 == b3;
    assert ByteOf(w, 2) == ByteOf(w1, 1) == ByteOf(w2, 0);
    assert ByteOf(w, 3) == ByteOf(w1, 2) == ByteOf(w2, 1) == ByteOf(b3, 0);
  }

  /** `(word & mask) | (data << 8 * offset)`: one byte of a word replaced. */
  function PutByte(word: u32, offset: nat, data: byte): (w: u32)
    requires offset < 4
  {
    if offset == 0 then (word / 0x100) * 0x100 + data
    else if offset == 1 then (word / 0x1_0000) * 0x1_0000 + data * 0x100 + word % 0x100
    else if offset == 2 then (word / 0x100_0000) * 0x100_0000 + data * 0x1_0000 + word % 0x1_0000
    else data * 0x100_0000 + word % 0x100_0000
  }

  lemma PartsOfWord(b0: byte, b1: byte, b2: byte, b3: byte)
    ensures var w := Word(b0, b1, b2, b3);
      && w / 0x100 == b1 + 0x100 * b2 + 0x1_0000 * b3 && w % 0x100 == b0
      && w / 0x1_0000 == b2 + 0x100 * b3 && w % 0x1_0000 == b0 + 0x100 * b1
      && w / 0x100_0000 == b3 && w % 0x100_0000 == b0 + 0x100 * b1 + 0x1_0000 * b2
  {}

  lemma WordOfBytes(w: u32) returns (b0: byte, b1: byte, b2: byte, b3: byte)
    ensures w == Word(b0, b1, b2, b3)
  {
    b0, b1, b2, b3 := w % 0x100, (w / 0x100) % 0x100, (w / 0x100 / 0x100) % 0x100, w / 0x100 / 0x100 / 0x100;
  }

  lemma BytesAfterPut(word: u32, offset: nat, data: byte, k: nat)
    requires offset < 4 && k < 4
    ensures ByteOf(PutByte(word, offset, data), k) == if k == offset then data else ByteOf(word, k)
  {
    var b0, b1, b2, b3 := WordOfBytes(word);
    PartsOfWord(b0, b1, b2, b3);
    BytesOfWord(b0, b1, b2, b3);
    var c0, c1, c2, c3 := if offset == 0 then data else b0, if offset == 1 then data else b1,
                          if offset == 2 then data else b2, if offset == 3 then data else b3;
    assert PutByte(word, offset, data) == Word(c0, c1, c2, c3);
    BytesOfWord(c0, c1, c2, c3);
  }

  /** One half of a word replaced, as `Write16` does. */
  function PutHalf(word: u32, upper: bool, data: u16): (w: u32)
  {
    if upper then data * 0x1_0000 + word % 0x1_0000 else (word / 0x1_0000) * 0x1_0000 + data
  }

  lemma BytesAfterPutHalf(word: u32, upper: bool, data: u16, k: nat)
    requires k < 4
    ensures ByteOf(PutHalf(word, upper, data), k) ==
            if k / 2 == (if upper then 1 else 0) then ByteOf(data, k % 2) else ByteOf(word, k)
  {
    var b0, b1, b2, b3 := WordOfBytes(word);
    var d0, d1 := data % 0x100, data / 0x100;
    PartsOfWord(b0, b1, b2, b3);
    BytesOfWord(b0, b1, b2, b3);
    BytesOfWord(d0, d1, 0, 0);
    assert data == Word(d0, d1, 0, 0);
    if upper {
      assert PutHalf(word, upper, data) == Word(b0, b1, d0, d1);
      BytesOfWord(b0, b1, d0, d1);
    } else {
      assert PutHalf(word, upper, data) == Word(d0, d1, b2, b3);
      BytesOfWord(d0, d1, b2, b3);
    }
  }

  class MemoryWrapper {
    const mapping: array<seq<u32>>
    const present: array<bool>
    ghost var contents: Mem

    ghost predicate Valid()
      reads this, mapping, present
    {
      && WellShaped(present[..], mapping[..])
      && Represents(present[..], mapping[..], contents)
    }

    constructor ()
      ensures Valid() && fresh(mapping) && fresh(present)
      ensures forall x :: 0 <= x < SIZE ==> contents[x] == 0
    {
      mapping := new seq<u32>[PAGES](_ => []);
      present := new bool[PAGES](_ => false);
      contents := seq(SIZE, i => 0);
      new;
      forall x | 0 <= x < SIZE ensures contents[x] == ByteOf(Cell(present[..], mapping[..], x), x % 4) {
        ZeroBytes(x % 4);
      }
    }

    method Read32(i: nat) returns (data: u32)
      requires Valid() && i % 4 == 0
      ensures data == FlatMemory.Read32(contents, i)
    {
      data := 0;
      var entry := (i / PAGE_BYTES) % PAGES;
      if present[entry] {
        data := mapping[entry][(i % PAGE_BYTES) / 4];
      }
      CellIsWord(present[..], mapping[..], contents, i);
    }

    method Write32(i: nat, value: u32)
      requires Valid() && i % 4 == 0
      modifies this`contents, mapping, present
      ensures Valid() && contents == WriteN(old(contents), i, value, 4)
    {
      ghost var present0, mapping0 := present[..], mapping[..];
      var entry := (i / PAGE_BYTES) % PAGES;
      if !present[entry] {
        present[entry] := true;
        mapping[entry] := seq(PAGE_WORDS, j => 0);
      }
      mapping[entry] := mapping[entry][(i % PAGE_BYTES) / 4 := value];
      CellWrite(present0, mapping0, contents, present[..], mapping[..], i, value);
      contents := WriteN(contents, i, value, 4);
    }

    method ReadByte(i: nat) returns (data: byte)
      requires Valid()
      ensures data == contents[i % SIZE]
    {
      hide Represents, WellShaped, ReadN, WriteN;
      var word := Read32(i / 4 * 4);
      var k := i % 4;
      ReadAt(contents, i / 4 * 4, 4, k);
      data := ByteOf(word, k);
    }

    method WriteByte(i: nat, data: byte)
      requires Valid()
      modifies this`contents, mapping, present
      ensures Valid() && contents == WriteN(old(contents), i, data, 1)
    {
      hide Represents, WellShaped, ReadN, WriteN;
      var word := Read32(i / 4 * 4);
      Write32(i / 4 * 4, PutByte(word, i % 4, data));
      PutByteWrites(old(contents), i, data);
    }

    method Read16(i: nat) returns (data: u16)
      requires Valid() && i % 2 == 0
      ensures data == ReadN(contents, i, 2)
    {
      hide Represents, WellShaped, ReadN, WriteN;
      var word := Read32(i / 4 * 4);
      HalfOfWord(contents, i);
      data := if i % 4 == 0 then word % 0x1_0000 else word / 0x1_0000;
    }

    method Write16(i: nat, data: u16)
      requires Valid() && i % 2 == 0
      modifies this`contents, mapping, present
      ensures Valid() && contents == WriteN(old(contents), i, data, 2)
    {
      hide Represents, WellShaped, ReadN, WriteN;
      var word := Read32(i / 4 * 4);
      Write32(i / 4 * 4, PutHalf(word, i % 4 == 2, data));
      PutHalfWrites(old(contents), i, data);
    }

    method Read64(i: nat) returns (data: u64)
      requires Valid() && i % 8 == 0
      ensures data == FlatMemory.Read64(contents, i)
    {
      hide Represents, WellShaped, ReadN;
      var lower := Read32(i);
      var upper := Read32(i + 4);
      DoubleWord(contents, i);
      data := lower + TWO32 * upper;
    }

    method Write64(i: nat, value: u64)
      requires Valid() && i % 8 == 0
      modifies this`contents, mapping, present
      ensures Valid() && contents == WriteN(old(contents), i, value, 8)
    {
      hide Represents, WellShaped, ReadN, WriteN;
      Write32(i, value % TWO32);
      Write32(i + 4, value / TWO32);
      HalvesWrite(old(contents), i, value);
    }
  }

  lemma OffFromWord(x: nat, i: nat)
    requires x < SIZE
    ensures var o, p := Off(x, i / 4 * 4), i % 4;
      Off(x, i) == (if o >= p then o - p else o + SIZE - p) && (o < 4 ==> (i / 4 * 4 + o) % SIZE == x)
  {}

  lemma ZeroBytes(k: nat)
    ensures ByteOf(0, k) == 0
  {}

  lemma PutByteWrites(m: Mem, i: nat, data: byte)
    ensures WriteN(m, i / 4 * 4, PutByte(Read32(m, i / 4 * 4), i % 4, data), 4) == WriteN(m, i, data, 1)
  {
    hide WriteN, PutByte, Read32;
    forall x | 0 <= x < SIZE
      ensures WriteN(m, i / 4 * 4, PutByte(Read32(m, i / 4 * 4), i % 4, data), 4)[x] == WriteN(m, i, data, 1)[x]
    {
      PutByteWritesAt(m, i, data, x);
    }
  }

  lemma PutByteWritesAt(m: Mem, i: nat, data: byte, x: nat)
    requires x < SIZE
    ensures WriteN(m, i / 4 * 4, PutByte(Read32(m, i / 4 * 4), i % 4, data), 4)[x] == WriteN(m, i, data, 1)[x]
  {
    hide ReadN, WriteN, PutByte;
    var a := i / 4 * 4;
    var o := Off(x, a);
    WriteAt(m, a, PutByte(Read32(m, a), i % 4, data), 4, x);
    WriteAt(m, i, data, 1, x);
    OffFromWord(x, i);
    if o < 4 {
      ReadAt(m, a, 4, o);
      BytesAfterPut(Read32(m, a), i % 4, data, o);
    }
  }

  lemma DoubleWord(m: Mem, i: nat)
    ensures Read64(m, i) == Read32(m, i) + TWO32 * Read32(m, i + 4)
  {
    hide ReadN;
    ReadSplit(m, i, 4, 4);
    PowValues();
  }

  lemma SplitWord(m: Mem, a: nat)
    ensures Read32(m, a) == ReadN(m, a, 2) + 0x1_0000 * ReadN(m, a + 2, 2) && ReadN(m, a, 2) < 0x1_0000
  {
    hide ReadN;
    ReadSplit(m, a, 2, 2);
    ReadBound(m, a, 2);
    PowValues();
  }

  lemma SplitValue(x: nat, y: nat)
    requires x < 0x1_0000
    ensures (x + 0x1_0000 * y) % 0x1_0000 == x && (x + 0x1_0000 * y) / 0x1_0000 == y
  {}

  lemma HalfOfWord(m: Mem, i: nat)
    requires i % 2 == 0
    ensures ReadN(m, i, 2) == if i % 4 == 0 then Read32(m, i / 4 * 4) % 0x1_0000 else Read32(m, i / 4 * 4) / 0x1_0000
  {
    hide ReadN, Read32;
    var a := i / 4 * 4;
    EvenQuarter(i);
    SplitWord(m, a);
    SplitValue(ReadN(m, a, 2), ReadN(m, a + 2, 2));
  }

  lemma PutHalfWrites(m: Mem, i: nat, data: u16)
    requires i % 2 == 0
    ensures WriteN(m, i / 4 * 4, PutHalf(Read32(m, i / 4 * 4), i % 4 == 2, data), 4) == WriteN(m, i, data, 2)
  {
    hide WriteN, PutHalf, Read32;
    forall x | 0 <= x < SIZE
      ensures WriteN(m, i / 4 * 4, PutHalf(Read32(m, i / 4 * 4), i % 4 == 2, data), 4)[x] == WriteN(m, i, data, 2)[x]
    {
      PutHalfWritesAt(m, i, data, x);
    }
  }

  lemma PutHalfWritesAt(m: Mem, i: nat, data: u16, x: nat)
    requires i % 2 == 0 && x < SIZE
    ensures WriteN(m, i / 4 * 4, PutHalf(Read32(m, i / 4 * 4), i % 4 == 2, data), 4)[x] == WriteN(m, i, data, 2)[x]
  {
    hide ReadN, WriteN, PutHalf, ByteOf, Off;
    EvenQuarter(i);
    var a, p := i / 4 * 4, i % 4;
    var o := Off(x, a);
    WriteAt(m, a, PutHalf(Read32(m, a), p == 2, data), 4, x);
    WriteAt(m, i, data, 2, x);
    OffFromWord(x, i);
    if o < 4 {
      ReadAt(m, a, 4, o);
      BytesAfterPutHalf(Read32(m, a), p == 2, data, o);
      HalfIndex(o, p);
    }
  }

  lemma EvenQuarter(i: nat)
    requires i % 2 == 0
    ensures i % 4 in {0, 2}
  {}

  lemma HalfIndex(o: nat, p: nat)
    requires o < 4 && p in {0, 2}
    ensures o / 2 == (if p == 2 then 1 else 0) <==> p <= o < p + 2
    ensures p <= o < p + 2 ==> o % 2 == o - p
  {}

  lemma HalvesWrite(m: Mem, i: nat, v: u64)
    ensures WriteN(WriteN(m, i, v % TWO32, 4), i + 4, v / TWO32, 4) == WriteN(m, i, v, 8)
  {
    WriteSplit(m, i, v, 4, 4);
    DropIsShift(v, 4);
    PowValues();
    LowBytes(v, v % TWO32);
    WriteTruncated(m, i, v, v % TWO32, 4);
  }

  lemma LowBytes(v: nat, w: nat)
    requires v % TWO32 == w
    ensures forall k :: 0 <= k < 4 ==> ByteOf(v, k) == ByteOf(w, k)
  {
    LowBytesStep(v, w, 0x100_0000);
    LowBytesStep(v / 0x100, w / 0x100, 0x1_0000);
    LowBytesStep(v / 0x1_0000, w / 0x1_0000, 0x100);
    assert v / 0x100 / 0x100 == v / 0x1_0000 && w / 0x100 / 0x100 == w / 0x1_0000;
    forall k | 0 <= k < 4 ensures ByteOf(v, k) == ByteOf(w, k) {
      assert ByteOf(v, 2) == ByteOf(v / 0x100, 1) && ByteOf(w, 2) == ByteOf(w / 0x100, 1);
      assert ByteOf(v, 3) == ByteOf(v / 0x100, 2) && ByteOf(w, 3) == ByteOf(w / 0x100, 2);
      assert ByteOf(v / 0x100, 2) == ByteOf(v / 0x1_0000, 1) && ByteOf(w / 0x100, 2) == ByteOf(w / 0x1_0000, 1);
    }
  }

  lemma LowBytesStep(v: nat, w: nat, p: nat)
    requires p in {0x100, 0x1_0000, 0x100_0000}
    requires v % (0x100 * p) == w
    ensures v % 0x100 == w % 0x100 && (v / 0x100) % p == w / 0x100
  {
    ModStep(v, p);
  }
}
